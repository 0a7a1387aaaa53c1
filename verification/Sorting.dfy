/** Strings in their natural order, sorted lists of them, and readable joins.

    The printed form of a task sorts what has no order and joins it. `SortEqual` says that sorting
    forgets the order and nothing else. `JoinReadable` says that a join can be taken apart when no
    string of one list continues a string of the other, and `SortedPrintsDecide` puts the two
    together for strings that each stand for a thing. */
module Sorting {

  /** Lexicographic order by code point, which on UTF-8 is the order by byte. */
  predicate Leq(a: string, b: string) {
    a == [] || (b != [] && (a[0] < b[0] || (a[0] == b[0] && Leq(a[1..], b[1..]))))
  }

  lemma {:induction false} LeqTotal(a: string, b: string)
    ensures Leq(a, b) || Leq(b, a)
  {
    if a != [] && b != [] {
      LeqTotal(a[1..], b[1..]);
    }
  }

  lemma {:induction false} LeqAntisymmetric(a: string, b: string)
    requires Leq(a, b) && Leq(b, a)
    ensures a == b
  {
    if a != [] {
      LeqAntisymmetric(a[1..], b[1..]);
      assert a == [a[0]] + a[1..] && b == [b[0]] + b[1..];
    }
  }

  lemma {:induction false} LeqTransitive(a: string, b: string, c: string)
    requires Leq(a, b) && Leq(b, c)
    ensures Leq(a, c)
  {
    if a != [] && a[0] == b[0] == c[0] {
      LeqTransitive(a[1..], b[1..], c[1..]);
    }
  }

  ghost predicate Sorted(s: seq<string>) {
    forall i, j :: 0 <= i < j < |s| ==> Leq(s[i], s[j])
  }

  function Insert(x: string, s: seq<string>): (r: seq<string>)
    ensures multiset(r) == multiset(s) + multiset{x}
  {
    if s == [] then [x]
    else
      assert s == [s[0]] + s[1..];
      if Leq(x, s[0]) then [x] + s else [s[0]] + Insert(x, s[1..])
  }

  /** The sorted permutation of s: what slices.Sort leaves in place. */
  function Sort(s: seq<string>): (r: seq<string>)
    ensures multiset(r) == multiset(s)
  {
    if s == [] then []
    else
      assert s == [s[0]] + s[1..];
      Insert(s[0], Sort(s[1..]))
  }

  lemma {:induction false} InsertSorted(x: string, s: seq<string>)
    requires Sorted(s)
    ensures Sorted(Insert(x, s))
  {
    if s == [] {
    } else if Leq(x, s[0]) {
      forall j | 0 <= j < |s| ensures Leq(x, s[j]) {
        if j > 0 { LeqTransitive(x, s[0], s[j]); }
      }
    } else {
      LeqTotal(x, s[0]);
      assert forall i :: 0 <= i < |s[1..]| ==> s[1..][i] == s[i + 1];
      InsertSorted(x, s[1..]);
      var r := Insert(x, s[1..]);
      forall j | 0 <= j < |r| ensures Leq(s[0], r[j]) {
        assert r[j] in multiset(r);
        if r[j] != x {
          assert r[j] in multiset(s[1..]);
          assert r[j] in s[1..];
        }
      }
    }
  }

  lemma {:induction false} SortSorted(s: seq<string>)
    ensures Sorted(Sort(s))
  {
    if s != [] {
      SortSorted(s[1..]);
      InsertSorted(s[0], Sort(s[1..]));
    }
  }

  function RemoveAt<T>(s: seq<T>, j: nat): (r: seq<T>)
    requires j < |s|
    ensures |r| == |s| - 1
    ensures forall k :: 0 <= k < |r| ==> r[k] == if k < j then s[k] else s[k + 1]
    ensures multiset(s) == multiset(r) + multiset{s[j]}
  {
    assert s == s[..j] + [s[j]] + s[j + 1..];
    s[..j] + s[j + 1..]
  }

  lemma SameLength<T>(s: seq<T>, t: seq<T>)
    requires multiset(s) == multiset(t)
    ensures |s| == |t|
  {
    assert |s| == |multiset(s)|;
  }

  lemma RemoveSame<T>(s: seq<T>, t: seq<T>, j: nat)
    requires multiset(s) == multiset(t) && s != [] && j < |t| && s[0] == t[j]
    ensures multiset(RemoveAt(s, 0)) == multiset(RemoveAt(t, j))
  {
    var s', t' := RemoveAt(s, 0), RemoveAt(t, j);
    assert multiset(s') == multiset(s) - multiset{s[0]} == multiset(t');
  }

  lemma SortedTail(s: seq<string>)
    requires Sorted(s) && s != []
    ensures Sorted(RemoveAt(s, 0))
  {
    var r := RemoveAt(s, 0);
    assert forall k :: 0 <= k < |r| ==> r[k] == s[k + 1];
  }

  lemma SortedHead(s: seq<string>, t: seq<string>)
    requires Sorted(s) && s != [] && t != [] && multiset(s) == multiset(t)
    ensures Leq(s[0], t[0])
  {
    assert t[0] in multiset(s);
    var j :| 0 <= j < |s| && s[j] == t[0];
    LeqTotal(s[0], s[0]);
  }

  /** A multiset of strings has one sorted listing. */
  lemma {:induction false} SortedUnique(s: seq<string>, t: seq<string>)
    requires Sorted(s) && Sorted(t) && multiset(s) == multiset(t)
    ensures s == t
  {
    SameLength(s, t);
    if s != [] {
      hide Leq, Sorted;
      SortedHead(s, t);
      SortedHead(t, s);
      LeqAntisymmetric(s[0], t[0]);
      var s', t' := RemoveAt(s, 0), RemoveAt(t, 0);
      RemoveSame(s, t, 0);
      SortedTail(s);
      SortedTail(t);
      SortedUnique(s', t');
      assert s == [s[0]] + s' && t == [t[0]] + t';
    }
  }

  /** Sorting forgets the order it was given, and nothing else. */
  lemma SortEqual(s: seq<string>, t: seq<string>)
    ensures Sort(s) == Sort(t) <==> multiset(s) == multiset(t)
  {
    SortSorted(s);
    SortSorted(t);
    if multiset(s) == multiset(t) {
      SortedUnique(Sort(s), Sort(t));
    } else {
      assert multiset(Sort(s)) != multiset(Sort(t));
    }
  }

  lemma SortMembers(s: seq<string>)
    ensures forall x :: x in Sort(s) <==> x in s
  {
    forall x ensures x in Sort(s) <==> x in s {
      assert x in Sort(s) <==> x in multiset(Sort(s));
      assert x in s <==> x in multiset(s);
    }
  }

  /** Two lists whose entries correspond one to one are permutations together. */
  lemma {:induction false} PairedMultisets<A, B>(x: seq<A>, u: seq<B>, y: seq<A>, v: seq<B>)
    requires |x| == |u| && |y| == |v|
    requires forall i, j :: 0 <= i < |x| && 0 <= j < |y| && x[i] == y[j] ==> u[i] == v[j]
    requires multiset(x) == multiset(y)
    ensures multiset(u) == multiset(v)
  {
    if x == [] {
      assert |multiset(y)| == 0;
    } else {
      assert x[0] in multiset(y);
      var j :| 0 <= j < |y| && y[j] == x[0];
      var x', u', y', v' := RemoveAt(x, 0), RemoveAt(u, 0), RemoveAt(y, j), RemoveAt(v, j);
      RemoveSame(x, y, j);
      PairedMultisets(x', u', y', v');
    }
  }

  function Join(xs: seq<string>, separator: string): (r: string) {
    if xs == [] then ""
    else if |xs| == 1 then xs[0]
    else xs[0] + separator + Join(xs[1..], separator)
  }

  /** Neither string continues the other. */
  predicate PrefixFree(x: string, y: string) {
    x <= y || y <= x ==> x == y
  }

  lemma PrefixFreeSplit(x: string, p: string, y: string, q: string)
    requires PrefixFree(x, y) && x + p == y + q
    ensures x == y && p == q
  {
    var l := x + p;
    assert forall i :: 0 <= i < |x| ==> l[i] == x[i];
    assert forall i :: 0 <= i < |y| ==> l[i] == y[i];
    assert x <= y || y <= x;
    assert p == (x + p)[|x|..] && q == (y + q)[|y|..];
  }

  /** A text up to its first c is read back whatever follows. */
  lemma {:induction false} DelimitedSplit(c: char, x: string, p: string, y: string, q: string)
    requires c !in x && c !in y
    requires x + [c] + p == y + [c] + q
    ensures x == y && p == q
  {
    var l, r := x + [c] + p, y + [c] + q;
    assert l[|x|] == c && r[|y|] == c;
    assert forall i :: 0 <= i < |x| ==> l[i] == x[i] && x[i] in x;
    assert forall i :: 0 <= i < |y| ==> r[i] == y[i] && y[i] in y;
    assert |x| == |y|;
    assert x == l[..|x|] && y == r[..|x|];
    assert p == l[|x| + 1..] && q == r[|x| + 1..];
  }

  /** How a joined list is read back: every entry shows where it ends, and where an
      entry, the separator or the closing character starts is told by one character. */
  ghost predicate Readable(xs: seq<string>, ys: seq<string>, separator: string, close: char) {
    && (forall i :: 0 <= i < |xs| ==> xs[i] != [] && xs[i][0] != close)
    && (forall i :: 0 <= i < |ys| ==> ys[i] != [] && ys[i][0] != close)
    && (forall i, j :: 0 <= i < |xs| && 0 <= j < |ys| ==> PrefixFree(xs[i], ys[j]))
    && (separator == [] || separator[0] != close)
  }

  /** Join(xs, separator) + [close] + p, entry by entry. */
  ghost function Listed(xs: seq<string>, separator: string, close: char, p: string): (r: string)
    ensures r != []
    ensures r[0] == if xs == [] || xs[0] == [] then r[0] else xs[0][0]
  {
    if xs == [] then [close] + p
    else if |xs| == 1 then xs[0] + ([close] + p)
    else xs[0] + (separator + Listed(xs[1..], separator, close, p))
  }

  lemma {:induction false} JoinListed(xs: seq<string>, separator: string, close: char, p: string)
    ensures Join(xs, separator) + [close] + p == Listed(xs, separator, close, p)
  {
    if |xs| > 1 {
      JoinListed(xs[1..], separator, close, p);
    }
  }

  lemma {:induction false} JoinReadable(
    xs: seq<string>, p: string, ys: seq<string>, q: string, separator: string, close: char)
    requires Readable(xs, ys, separator, close)
    requires Join(xs, separator) + [close] + p == Join(ys, separator) + [close] + q
    ensures xs == ys && p == q
  {
    JoinListed(xs, separator, close, p);
    JoinListed(ys, separator, close, q);
    ListedReadable(xs, p, ys, q, separator, close);
  }

  lemma {:induction false} ListedReadable(
    xs: seq<string>, p: string, ys: seq<string>, q: string, separator: string, close: char)
    requires Readable(xs, ys, separator, close)
    requires Listed(xs, separator, close, p) == Listed(ys, separator, close, q)
    ensures xs == ys && p == q
  {
    if xs == [] || ys == [] {
      assert xs == ys == [];
      assert p == ([close] + p)[1..] && q == ([close] + q)[1..];
    } else {
      var xt, yt := Listed(xs[1..], separator, close, p), Listed(ys[1..], separator, close, q);
      var pl := if |xs| == 1 then [close] + p else separator + xt;
      var pr := if |ys| == 1 then [close] + q else separator + yt;
      PrefixFreeSplit(xs[0], pl, ys[0], pr);
      assert |xs| > 1 ==> xs[1] == xs[1..][0] && pl[0] != close;
      assert |ys| > 1 ==> ys[1] == ys[1..][0] && pr[0] != close;
      if |xs| == 1 {
        assert p == pl[1..] && q == pr[1..];
      } else {
        assert xt == pl[|separator|..] && yt == pr[|separator|..];
        ListedReadable(xs[1..], p, ys[1..], q, separator, close);
      }
      assert xs == [xs[0]] + xs[1..] && ys == [ys[0]] + ys[1..];
    }
  }

  lemma SortedReadable(xs: seq<string>, ys: seq<string>, separator: string, close: char)
    requires Readable(xs, ys, separator, close)
    ensures Readable(Sort(xs), Sort(ys), separator, close)
  {
    SortMembers(xs);
    SortMembers(ys);
    var us, vs := Sort(xs), Sort(ys);
    forall i | 0 <= i < |us| ensures us[i] != [] && us[i][0] != close {
      assert us[i] in xs;
    }
    forall i | 0 <= i < |vs| ensures vs[i] != [] && vs[i][0] != close {
      assert vs[i] in ys;
    }
    forall i, j | 0 <= i < |us| && 0 <= j < |vs| ensures PrefixFree(us[i], vs[j]) {
      assert us[i] in xs && vs[j] in ys;
    }
  }

  /** xs and ys print us and vs: readable one by one, and telling them apart. */
  ghost predicate Prints<T>(xs: seq<string>, us: seq<T>, ys: seq<string>, vs: seq<T>) {
    && |xs| == |us| && |ys| == |vs|
    && forall i, j :: 0 <= i < |xs| && 0 <= j < |ys| ==>
         PrefixFree(xs[i], ys[j]) && (xs[i] == ys[j] <==> us[i] == vs[j])
  }

  ghost predicate Starts(xs: seq<string>, close: char) {
    forall i :: 0 <= i < |xs| ==> xs[i] != [] && xs[i][0] != close
  }

  /** Sorted listings of two collections are readable, and equal exactly when the
      collections are. */
  lemma SortedPrintsDecide<T>(xs: seq<string>, us: seq<T>, ys: seq<string>, vs: seq<T>, separator: string, close: char)
    requires Prints(xs, us, ys, vs) && Starts(xs, close) && Starts(ys, close)
    requires separator == [] || separator[0] != close
    ensures Readable(Sort(xs), Sort(ys), separator, close)
    ensures Sort(xs) == Sort(ys) <==> multiset(us) == multiset(vs)
  {
    SortedReadable(xs, ys, separator, close);
    SortEqual(xs, ys);
    if multiset(xs) == multiset(ys) {
      PairedMultisets(xs, us, ys, vs);
    }
    if multiset(us) == multiset(vs) {
      PairedMultisets(us, xs, vs, ys);
    }
  }
}
