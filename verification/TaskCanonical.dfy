/** Scheduled tasks compared by the canonical string they print: it decides what they mean. */
module TaskCanonical {
  import opened Wrappers
  import opened Sorting
  import opened GoText

  // Canonical is the printed form: ignored elements dropped, everything else printed with its
  // attributes and children in sorted order. NormOf is the reference: the task as a tree whose
  // attributes and children have no order at all. Two tasks print alike exactly when their
  // reference trees are equal.

  datatype Attribute = Attribute(local: string, value: string)

  datatype Element = Element(name: string, attributes: seq<Attribute>, text: string, children: seq<Element>)

  /** strings.ToLower, strings.EqualFold and strconv.IsPrint: tables taken as given. */
  datatype Tables = Tables(lower: string -> string, equalFold: (string, string) -> bool, printable: char -> bool)

  // ---------------------------------------------------------------- XML names

  predicate NameStartChar(c: char) {
    var v := c as int;
    || c == ':' || c == '_' || 'A' <= c <= 'Z' || 'a' <= c <= 'z'
    || 0xC0 <= v <= 0xD6 || 0xD8 <= v <= 0xF6 || 0xF8 <= v <= 0x2FF || 0x370 <= v <= 0x37D
    || 0x37F <= v <= 0x1FFF || 0x200C <= v <= 0x200D || 0x2070 <= v <= 0x218F || 0x2C00 <= v <= 0x2FEF
    || 0x3001 <= v <= 0xD7FF || 0xF900 <= v <= 0xFDCF || 0xFDF0 <= v <= 0xFFFD || 0x10000 <= v <= 0xEFFFF
  }

  predicate NameChar(c: char) {
    var v := c as int;
    || NameStartChar(c) || c == '-' || c == '.' || '0' <= c <= '9' || v == 0xB7
    || 0x300 <= v <= 0x36F || 0x203F <= v <= 0x2040
  }

  /** A local name: what the parser leaves of an XML name (XML 1.0 section 2.3) when it has cut
      off the prefix at the colon. It need not begin as a name does: a:1b gives 1b. */
  predicate LocalName(s: string) {
    s != [] && forall i :: 0 <= i < |s| ==> NameChar(s[i])
  }

  predicate WellNamed(e: Element)
    decreases e, 0
  {
    && LocalName(e.name)
    && (forall i :: 0 <= i < |e.attributes| ==> LocalName(e.attributes[i].local))
    && AllWellNamed(e.children)
  }

  predicate AllWellNamed(es: seq<Element>)
    decreases es, 0
  {
    es == [] || (WellNamed(es[0]) && AllWellNamed(es[1..]))
  }

  // ------------------------------------------------------------ the comparison

  const SCHEMA_DEFAULTS: map<string, string> := map[
    "LogonTrigger/Enabled" := "true",
    "Principal/RunLevel" := "LeastPrivilege",
    "Settings/AllowStartOnDemand" := "true",
    "Settings/Enabled" := "true",
    "Settings/Hidden" := "false",
    "Settings/MultipleInstancesPolicy" := "IgnoreNew",
    "Settings/Priority" := "7",
    "Settings/RunOnlyIfIdle" := "false",
    "Settings/RunOnlyIfNetworkAvailable" := "false",
    "Settings/StartWhenAvailable" := "false",
    "Settings/WakeToRun" := "false",
    "IdleSettings/RestartOnIdle" := "false"]

  /** Scheduler metadata and documented defaults, which say nothing about the task. */
  predicate Ignored(e: Element, parent: string) {
    || (parent == "RegistrationInfo" && (e.name == "URI" || e.name == "Date" || e.name == "Author"))
    || (parent == "Settings" && e.text == "false" &&
        (e.name == "UseUnifiedSchedulingEngine" || e.name == "DisallowStartOnRemoteAppSession" || e.name == "Volatile"))
    || (parent == "IdleSettings" &&
        ((e.name == "Duration" && e.text == "PT10M") || (e.name == "WaitTimeout" && e.text == "PT1H")))
    || (parent == "Exec" && e.name == "WorkingDirectory" && TrimSpace(e.text) == "")
    || (var key := parent + "/" + e.name;
        key in SCHEMA_DEFAULTS && TrimSpace(e.text) == SCHEMA_DEFAULTS[key] && e.children == [])
  }

  predicate IgnoredAttribute(name: string, local: string) {
    || local == "xmlns"
    || (name == "Task" && local == "version")
    || (name == "Principal" && local == "id")
    || (name == "Actions" && local == "Context")
  }

  function KeptAttributes(name: string, attributes: seq<Attribute>): (r: seq<Attribute>)
    ensures forall i :: 0 <= i < |r| ==> r[i] in attributes
  {
    if attributes == [] then []
    else if IgnoredAttribute(name, attributes[0].local) then KeptAttributes(name, attributes[1..])
    else [attributes[0]] + KeptAttributes(name, attributes[1..])
  }

  /** The text that counts: trimmed, and for a Command its cleaned lower-case path. */
  function Value(t: Tables, e: Element): string {
    var value := TrimSpace(e.text);
    if e.name == "Command" then t.lower(Clean(ReplaceAll(value, '\\', '/'))) else value
  }

  function AttributeString(t: Tables, a: Attribute): string {
    a.local + "=" + Quote(t.printable, a.value)
  }

  function AttributeStrings(t: Tables, attributes: seq<Attribute>): (r: seq<string>)
    ensures |r| == |attributes|
    ensures forall i :: 0 <= i < |r| ==> r[i] == AttributeString(t, attributes[i])
  {
    seq(|attributes|, i requires 0 <= i < |attributes| => AttributeString(t, attributes[i]))
  }

  function Print(t: Tables, name: string, attributes: seq<string>, value: string, children: seq<string>): (r: string) {
    name + "[" + Join(attributes, ",") + "]" + Quote(t.printable, value) + "{" + Join(children, "") + "}"
  }

  /** canonicalTask; the empty string stands for an ignored element. */
  function Canonical(t: Tables, e: Element, parent: string): string
    decreases e, 0
  {
    if Ignored(e, parent) then ""
    else Print(t, e.name, Sort(AttributeStrings(t, KeptAttributes(e.name, e.attributes))), Value(t, e),
               Sort(CanonicalChildren(t, e.children, e.name)))
  }

  function CanonicalChildren(t: Tables, es: seq<Element>, parent: string): seq<string>
    decreases es, 0
  {
    if es == [] then []
    else
      var first := Canonical(t, es[0], parent);
      var rest := CanonicalChildren(t, es[1..], parent);
      if first == "" then rest else [first] + rest
  }

  // ------------------------------------------------------------- the reference

  datatype Norm = Norm(name: string, attributes: multiset<Attribute>, value: string, children: multiset<Norm>)

  /** What e means: an unordered tree without what is ignored. */
  function NormOf(t: Tables, e: Element): Norm
    decreases e, 0
  {
    Norm(e.name, multiset(KeptAttributes(e.name, e.attributes)), Value(t, e),
         multiset(NormsOf(t, e.children, e.name)))
  }

  function NormsOf(t: Tables, es: seq<Element>, parent: string): seq<Norm>
    decreases es, 0
  {
    if es == [] then []
    else if Ignored(es[0], parent) then NormsOf(t, es[1..], parent)
    else [NormOf(t, es[0])] + NormsOf(t, es[1..], parent)
  }

  /** Equal up to order and to what is ignored inside. */
  predicate SameMeaning(t: Tables, a: Element, b: Element) {
    NormOf(t, a) == NormOf(t, b)
  }

  // -------------------------------------------------------- unique readability

  lemma NameReadable(x: string, c: char, p: string, y: string, q: string)
    requires LocalName(x) && LocalName(y)
    requires c == '[' || c == '='
    requires x + [c] + p == y + [c] + q
    ensures x == y && p == q
  {
    assert !NameChar(c);
    assert c !in x && c !in y;
    DelimitedSplit(c, x, p, y, q);
  }

  lemma AttributeReadable(t: Tables, a: Attribute, b: Attribute)
    requires LocalName(a.local) && LocalName(b.local)
    ensures PrefixFree(AttributeString(t, a), AttributeString(t, b))
    ensures AttributeString(t, a) == AttributeString(t, b) ==> a == b
  {
    var x, y := AttributeString(t, a), AttributeString(t, b);
    if x <= y {
      AttributeContinues(t, a, y[|x|..], b, "");
    } else if y <= x {
      AttributeContinues(t, a, "", b, x[|y|..]);
    }
  }

  lemma AttributeContinues(t: Tables, a: Attribute, p: string, b: Attribute, q: string)
    requires LocalName(a.local) && LocalName(b.local)
    requires AttributeString(t, a) + p == AttributeString(t, b) + q
    ensures a == b
  {
    var ta, tb := Quote(t.printable, a.value) + p, Quote(t.printable, b.value) + q;
    assert AttributeString(t, a) + p == a.local + ['='] + ta;
    assert AttributeString(t, b) + q == b.local + ['='] + tb;
    NameReadable(a.local, '=', ta, b.local, tb);
    QuoteReadable(t.printable, a.value, p, b.value, q);
  }

  /** Sorted attribute strings, one list read against another. */
  lemma AttributesReadable(t: Tables, xs: seq<Attribute>, ys: seq<Attribute>)
    requires forall i :: 0 <= i < |xs| ==> LocalName(xs[i].local)
    requires forall i :: 0 <= i < |ys| ==> LocalName(ys[i].local)
    ensures Readable(Sort(AttributeStrings(t, xs)), Sort(AttributeStrings(t, ys)), ",", ']')
    ensures Sort(AttributeStrings(t, xs)) == Sort(AttributeStrings(t, ys)) <==> multiset(xs) == multiset(ys)
  {
    var us, vs := AttributeStrings(t, xs), AttributeStrings(t, ys);
    AttributesStart(t, xs);
    AttributesStart(t, ys);
    forall i, j | 0 <= i < |xs| && 0 <= j < |ys|
      ensures PrefixFree(us[i], vs[j]) && (us[i] == vs[j] <==> xs[i] == ys[j])
    {
      AttributeReadable(t, xs[i], ys[j]);
    }
    SortedPrintsDecide(us, xs, vs, ys, ",", ']');
  }

  lemma AttributesStart(t: Tables, xs: seq<Attribute>)
    requires forall i :: 0 <= i < |xs| ==> LocalName(xs[i].local)
    ensures Starts(AttributeStrings(t, xs), ']')
  {
    forall i | 0 <= i < |xs| ensures AttributeStrings(t, xs)[i][0] != ']' {
      assert !NameChar(']');
    }
  }

  /** A printed element shows where it ends and what each of its parts was. */
  lemma PrintReadable(t: Tables, n: string, xs: seq<string>, v: string, cs: seq<string>, p: string,
                      m: string, ys: seq<string>, w: string, ds: seq<string>, q: string)
    requires LocalName(n) && LocalName(m)
    requires Readable(xs, ys, ",", ']') && Readable(cs, ds, "", '}')
    requires Print(t, n, xs, v, cs) + p == Print(t, m, ys, w, ds) + q
    ensures n == m && xs == ys && v == w && cs == ds && p == q
  {
    var c1, c2 := Join(cs, "") + ['}'] + p, Join(ds, "") + ['}'] + q;
    var v1, v2 := Quote(t.printable, v) + (['{'] + c1), Quote(t.printable, w) + (['{'] + c2);
    var a1, a2 := Join(xs, ",") + [']'] + v1, Join(ys, ",") + [']'] + v2;
    PrintParts(t, n, xs, v, cs, p);
    PrintParts(t, m, ys, w, ds, q);
    NameReadable(n, '[', a1, m, a2);
    JoinReadable(xs, v1, ys, v2, ",", ']');
    QuoteReadable(t.printable, v, ['{'] + c1, w, ['{'] + c2);
    assert c1 == (['{'] + c1)[1..] && c2 == (['{'] + c2)[1..];
    JoinReadable(cs, p, ds, q, "", '}');
  }

  lemma PrintParts(t: Tables, n: string, xs: seq<string>, v: string, cs: seq<string>, p: string)
    ensures Print(t, n, xs, v, cs) + p
            == n + ['['] + (Join(xs, ",") + [']'] + (Quote(t.printable, v) + (['{'] + (Join(cs, "") + ['}'] + p))))
  {}

  // ------------------------------------------------------------- the main result

  /** Two kept elements print alike exactly when they mean the same; neither printed
      form continues the other. */
  lemma {:induction false} KeptDecided(t: Tables, a: Element, p: string, b: Element, q: string)
    requires WellNamed(a) && WellNamed(b) && !Ignored(a, p) && !Ignored(b, q)
    ensures PrefixFree(Canonical(t, a, p), Canonical(t, b, q))
    ensures Canonical(t, a, p) == Canonical(t, b, q) <==> SameMeaning(t, a, b)
    decreases a, 0
  {
    var cs, ds := CanonicalChildren(t, a.children, a.name), CanonicalChildren(t, b.children, b.name);
    var ms, ns := NormsOf(t, a.children, a.name), NormsOf(t, b.children, b.name);
    ChildrenDecided(t, a.children, a.name, b.children, b.name);
    ChildrenStart(t, a.children, a.name);
    ChildrenStart(t, b.children, b.name);
    SortedPrintsDecide(cs, ms, ds, ns, "", '}');
    PartsDecide(t, a, p, Sort(cs), multiset(ms), b, q, Sort(ds), multiset(ns));
  }

  lemma PartsDecide(t: Tables, a: Element, p: string, cs: seq<string>, ms: multiset<Norm>,
                    b: Element, q: string, ds: seq<string>, ns: multiset<Norm>)
    requires WellNamed(a) && WellNamed(b) && !Ignored(a, p) && !Ignored(b, q)
    requires cs == Sort(CanonicalChildren(t, a.children, a.name))
    requires ds == Sort(CanonicalChildren(t, b.children, b.name))
    requires ms == multiset(NormsOf(t, a.children, a.name)) && ns == multiset(NormsOf(t, b.children, b.name))
    requires Readable(cs, ds, "", '}') && (cs == ds <==> ms == ns)
    ensures PrefixFree(Canonical(t, a, p), Canonical(t, b, q))
    ensures Canonical(t, a, p) == Canonical(t, b, q) <==> SameMeaning(t, a, b)
  {
    hide Readable, Print, NormsOf, CanonicalChildren, Value, LocalName, KeptAttributes, AttributeStrings, Sort;
    var kept, others := KeptAttributes(a.name, a.attributes), KeptAttributes(b.name, b.attributes);
    KeptNamed(a);
    KeptNamed(b);
    AttributesReadable(t, kept, others);
    var xs, ys := Sort(AttributeStrings(t, kept)), Sort(AttributeStrings(t, others));
    assert Canonical(t, a, p) == Print(t, a.name, xs, Value(t, a), cs);
    assert Canonical(t, b, q) == Print(t, b.name, ys, Value(t, b), ds);
    PrintDecides(t, a.name, xs, Value(t, a), cs, b.name, ys, Value(t, b), ds);
    hide PrefixFree;
  }

  lemma PrintDecides(t: Tables, n: string, xs: seq<string>, v: string, cs: seq<string>,
                     m: string, ys: seq<string>, w: string, ds: seq<string>)
    requires LocalName(n) && LocalName(m)
    requires Readable(xs, ys, ",", ']') && Readable(cs, ds, "", '}')
    ensures PrefixFree(Print(t, n, xs, v, cs), Print(t, m, ys, w, ds))
    ensures Print(t, n, xs, v, cs) == Print(t, m, ys, w, ds) <==> n == m && xs == ys && v == w && cs == ds
  {
    hide Readable, Print, LocalName;
    var x, y := Print(t, n, xs, v, cs), Print(t, m, ys, w, ds);
    if x <= y {
      assert x + y[|x|..] == y + "";
      PrintReadable(t, n, xs, v, cs, y[|x|..], m, ys, w, ds, "");
    } else if y <= x {
      assert x + "" == y + x[|y|..];
      PrintReadable(t, n, xs, v, cs, "", m, ys, w, ds, x[|y|..]);
    }
  }

  lemma KeptNamed(e: Element)
    requires WellNamed(e)
    ensures var kept := KeptAttributes(e.name, e.attributes);
            forall i :: 0 <= i < |kept| ==> LocalName(kept[i].local)
  {
    hide LocalName, IgnoredAttribute;
    var kept := KeptAttributes(e.name, e.attributes);
    forall i | 0 <= i < |kept| ensures LocalName(kept[i].local) {
      assert kept[i] in e.attributes;
    }
  }

  lemma {:induction false} ChildrenDecided(t: Tables, es: seq<Element>, p: string, fs: seq<Element>, q: string)
    requires AllWellNamed(es) && AllWellNamed(fs)
    ensures Prints(CanonicalChildren(t, es, p), NormsOf(t, es, p), CanonicalChildren(t, fs, q), NormsOf(t, fs, q))
    decreases es, 0
  {
    ChildrenStart(t, fs, q);
    if es != [] {
      ChildrenDecided(t, es[1..], p, fs, q);
      if !Ignored(es[0], p) {
        PrintStarts(t, es[0], p);
        RowDecided(t, es[0], p, fs, q);
        var c, m := Canonical(t, es[0], p), NormOf(t, es[0]);
        PrintsCons(c, m, CanonicalChildren(t, es[1..], p), NormsOf(t, es[1..], p),
                   CanonicalChildren(t, fs, q), NormsOf(t, fs, q));
      }
    }
  }

  lemma PrintsCons<T>(c: string, m: T, cs: seq<string>, ms: seq<T>, ds: seq<string>, ns: seq<T>)
    requires Prints([c], [m], ds, ns) && Prints(cs, ms, ds, ns)
    ensures Prints([c] + cs, [m] + ms, ds, ns)
  {
    var xs, us := [c] + cs, [m] + ms;
    forall i, j | 0 <= i < |xs| && 0 <= j < |ds|
      ensures PrefixFree(xs[i], ds[j]) && (xs[i] == ds[j] <==> us[i] == ns[j])
    {
      if i == 0 {
        assert xs[i] == [c][0] && us[i] == [m][0];
      } else {
        assert xs[i] == cs[i - 1] && us[i] == ms[i - 1];
      }
    }
  }

  lemma {:induction false} RowDecided(t: Tables, e: Element, p: string, fs: seq<Element>, q: string)
    requires WellNamed(e) && !Ignored(e, p) && AllWellNamed(fs)
    ensures Prints([Canonical(t, e, p)], [NormOf(t, e)], CanonicalChildren(t, fs, q), NormsOf(t, fs, q))
    decreases e, 1 + |fs|
  {
    if fs != [] {
      RowDecided(t, e, p, fs[1..], q);
      if !Ignored(fs[0], q) {
        KeptDecided(t, e, p, fs[0], q);
        PrintStarts(t, fs[0], q);
        var c, m := Canonical(t, e, p), NormOf(t, e);
        var d, n := Canonical(t, fs[0], q), NormOf(t, fs[0]);
        var ds, ns := CanonicalChildren(t, fs[1..], q), NormsOf(t, fs[1..], q);
        RowCons(c, m, d, n, ds, ns);
      }
    }
  }

  lemma RowCons<T>(c: string, m: T, d: string, n: T, ds: seq<string>, ns: seq<T>)
    requires PrefixFree(c, d) && (c == d <==> m == n) && Prints([c], [m], ds, ns)
    ensures Prints([c], [m], [d] + ds, [n] + ns)
  {
    var ys, vs := [d] + ds, [n] + ns;
    forall j | 0 <= j < |ys| ensures PrefixFree(c, ys[j]) && (c == ys[j] <==> m == vs[j]) {
      if j > 0 {
        assert ys[j] == ds[j - 1] && vs[j] == ns[j - 1];
        assert PrefixFree([c][0], ds[j - 1]);
      }
    }
  }

  lemma PrintStarts(t: Tables, e: Element, p: string)
    requires WellNamed(e) && !Ignored(e, p)
    ensures Canonical(t, e, p) != "" && Canonical(t, e, p)[0] == e.name[0] && e.name[0] != '}'
  {
    assert !NameChar('}');
  }

  lemma {:induction false} ChildrenStart(t: Tables, es: seq<Element>, p: string)
    requires AllWellNamed(es)
    ensures |CanonicalChildren(t, es, p)| == |NormsOf(t, es, p)|
    ensures Starts(CanonicalChildren(t, es, p), '}')
  {
    if es != [] {
      ChildrenStart(t, es[1..], p);
      var c := Canonical(t, es[0], p);
      if Ignored(es[0], p) {
        assert c == "";
      } else {
        PrintStarts(t, es[0], p);
        StartsCons(c, CanonicalChildren(t, es[1..], p), '}');
      }
    }
  }

  lemma StartsCons(c: string, cs: seq<string>, close: char)
    requires Starts(cs, close) && c != "" && c[0] != close
    ensures Starts([c] + cs, close)
  {
  }

  /** Two tasks print the same canonical string exactly when they mean the same. */
  lemma CanonicalDecidesEquality(t: Tables, a: Element, b: Element, parent: string)
    requires WellNamed(a) && WellNamed(b)
    ensures Canonical(t, a, parent) == Canonical(t, b, parent) <==>
            if Ignored(a, parent) || Ignored(b, parent) then Ignored(a, parent) && Ignored(b, parent)
            else SameMeaning(t, a, b)
  {
    if !Ignored(a, parent) {
      PrintStarts(t, a, parent);
    }
    if !Ignored(b, parent) {
      PrintStarts(t, b, parent);
    }
    if !Ignored(a, parent) && !Ignored(b, parent) {
      KeptDecided(t, a, parent, b, parent);
    }
  }
}
