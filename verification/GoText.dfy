/** The parts of Go's strings, strconv and path packages that the components use.

    A text is a sequence of Unicode scalar values; all of these work on valid UTF-8. `Clean` and
    `Base` are those of package path. `Quote` is strconv.Quote for a table of printable
    characters that is a parameter; `QuoteReadable` says that a quoted text shows where it ends
    and what it was. */
module GoText {
  import opened Sorting

  /** unicode.IsSpace. */
  predicate IsSpace(c: char) {
    var v := c as int;
    || 9 <= v <= 13 || v == 0x20 || v == 0x85 || v == 0xA0 || v == 0x1680
    || 0x2000 <= v <= 0x200A || v == 0x2028 || v == 0x2029 || v == 0x202F || v == 0x205F || v == 0x3000
  }

  /** unicode.IsControl: category Cc. */
  predicate IsControl(c: char) {
    var v := c as int;
    v < 0x20 || 0x7F <= v < 0xA0
  }

  function TrimLeft(s: string): (r: string)
    ensures |r| <= |s| && r == s[|s| - |r|..]
  {
    if s != [] && IsSpace(s[0]) then TrimLeft(s[1..]) else s
  }

  function TrimRight(s: string): (r: string)
    ensures |r| <= |s| && r == s[..|r|]
  {
    if s != [] && IsSpace(s[|s| - 1]) then TrimRight(s[..|s| - 1]) else s
  }

  /** strings.TrimSpace. */
  function TrimSpace(s: string): string {
    TrimRight(TrimLeft(s))
  }

  /** strings.ReplaceAll for single characters. */
  function ReplaceAll(s: string, before: char, after: char): (r: string)
    ensures |r| == |s|
    ensures forall i :: 0 <= i < |s| ==> r[i] == if s[i] == before then after else s[i]
  {
    seq(|s|, i requires 0 <= i < |s| => if s[i] == before then after else s[i])
  }

  /** strings.Split at one character. */
  function Split(s: string, c: char): (parts: seq<string>)
    ensures parts != []
    ensures forall p :: p in parts ==> c !in p
  {
    if s == [] then [[]]
    else
      var rest := Split(s[1..], c);
      if s[0] == c then [[]] + rest else [[s[0]] + rest[0]] + rest[1..]
  }

  lemma {:induction false} SplitNone(s: string, c: char)
    requires c !in s
    ensures Split(s, c) == [s]
  {
    if s != [] {
      SplitNone(s[1..], c);
      assert s == [s[0]] + s[1..];
    }
  }

  /** One path element taken by path.Clean. */
  function CleanStep(rooted: bool, kept: seq<string>, part: string): (r: seq<string>) {
    if part == "" || part == "." then kept
    else if part != ".." then kept + [part]
    else if kept != [] && kept[|kept| - 1] != ".." then kept[..|kept| - 1]
    else if rooted then kept
    else kept + [part]
  }

  function CleanParts(rooted: bool, kept: seq<string>, parts: seq<string>): seq<string>
    decreases |parts|
  {
    if parts == [] then kept else CleanParts(rooted, CleanStep(rooted, kept, parts[0]), parts[1..])
  }

  /** path.Clean. */
  function Clean(p: string): (r: string)
    ensures r != []
  {
    var rooted := p != [] && p[0] == '/';
    var body := Join(CleanParts(rooted, [], Split(p, '/')), "/");
    if rooted then "/" + body else if body == [] then "." else body
  }

  function TrimSlashes(p: string): string {
    if p != [] && p[|p| - 1] == '/' then TrimSlashes(p[..|p| - 1]) else p
  }

  /** path.Base. */
  function Base(p: string): string {
    if p == "" then "."
    else
      var trimmed := TrimSlashes(p);
      if trimmed == "" then "/" else
        var parts := Split(trimmed, '/');
        parts[|parts| - 1]
  }

  const HEX := "0123456789abcdef"

  function HexDigits(v: nat, digits: nat): (r: string)
    ensures |r| == digits
  {
    if digits == 0 then "" else HexDigits(v / 16, digits - 1) + [HEX[v % 16]]
  }

  function HexRest(v: nat, digits: nat): nat {
    if digits == 0 then v else HexRest(v / 16, digits - 1)
  }

  lemma {:induction false} HexInjective(v: nat, w: nat, digits: nat)
    requires HexDigits(v, digits) == HexDigits(w, digits)
    requires HexRest(v, digits) == HexRest(w, digits)
    ensures v == w
  {
    if digits > 0 {
      var s, t := HexDigits(v, digits), HexDigits(w, digits);
      assert s[digits - 1] == HEX[v % 16] && t[digits - 1] == HEX[w % 16];
      assert s[..digits - 1] == HexDigits(v / 16, digits - 1);
      assert t[..digits - 1] == HexDigits(w / 16, digits - 1);
      assert v % 16 == w % 16;
      HexInjective(v / 16, w / 16, digits - 1);
    }
  }

  /** One character inside a string that %q prints. `printable` is strconv.IsPrint. */
  function QuoteChar(printable: char -> bool, c: char): (r: string)
    ensures r != [] && r[0] != '"'
  {
    var v := c as int;
    if c == '"' then "\\\""
    else if c == '\\' then "\\\\"
    else if printable(c) then [c]
    else if v == 7 then "\\a"
    else if v == 8 then "\\b"
    else if v == 12 then "\\f"
    else if v == 10 then "\\n"
    else if v == 13 then "\\r"
    else if v == 9 then "\\t"
    else if v == 11 then "\\v"
    else if v < 0x20 || v == 0x7F then "\\x" + HexDigits(v, 2)
    else if v < 0x10000 then "\\u" + HexDigits(v, 4)
    else "\\U" + HexDigits(v, 8)
  }

  function QuoteChars(printable: char -> bool, s: string): (r: seq<string>)
    ensures |r| == |s|
    ensures forall i :: 0 <= i < |s| ==> r[i] == QuoteChar(printable, s[i])
  {
    seq(|s|, i requires 0 <= i < |s| => QuoteChar(printable, s[i]))
  }

  /** What %q prints for s. */
  function Quote(printable: char -> bool, s: string): string {
    "\"" + Join(QuoteChars(printable, s), "") + "\""
  }

  lemma QuoteCharReadable(printable: char -> bool, c: char, d: char)
    ensures PrefixFree(QuoteChar(printable, c), QuoteChar(printable, d))
    ensures QuoteChar(printable, c) == QuoteChar(printable, d) ==> c == d
  {
    var x, y := QuoteChar(printable, c), QuoteChar(printable, d);
    if x[0] == '\\' && y[0] == '\\' {
      var v, w := c as int, d as int;
      assert |x| >= 2 && |y| >= 2;
      if x[1] == y[1] {
        assert |x| == |y|;
        if x == y && |x| > 2 {
          QuoteCharHex(printable, c);
          QuoteCharHex(printable, d);
          HexInjective(v, w, |x| - 2);
        }
      }
    }
  }

  function Power16(k: nat): nat {
    if k == 0 then 1 else 16 * Power16(k - 1)
  }

  lemma {:induction false} HexRestSmall(v: nat, digits: nat)
    requires v < Power16(digits)
    ensures HexRest(v, digits) == 0
  {
    if digits > 0 {
      HexRestSmall(v / 16, digits - 1);
    }
  }

  /** The digits of a hexadecimal escape, and that they hold the whole value. */
  lemma QuoteCharHex(printable: char -> bool, c: char)
    requires |QuoteChar(printable, c)| > 2
    ensures var k := |QuoteChar(printable, c)| - 2;
            QuoteChar(printable, c)[2..] == HexDigits(c as int, k) && HexRest(c as int, k) == 0
  {
    var v, x := c as int, QuoteChar(printable, c);
    assert Power16(2) == 0x100 && Power16(4) == 0x10000 && Power16(8) == 0x1_0000_0000;
    if v < 0x20 || v == 0x7F {
      assert ("\\x" + HexDigits(v, 2))[2..] == HexDigits(v, 2);
      HexRestSmall(v, 2);
    } else if v < 0x10000 {
      assert ("\\u" + HexDigits(v, 4))[2..] == HexDigits(v, 4);
      HexRestSmall(v, 4);
    } else {
      assert ("\\U" + HexDigits(v, 8))[2..] == HexDigits(v, 8);
      HexRestSmall(v, 8);
    }
  }

  /** A quoted text shows where it ends and what it was. */
  lemma QuoteReadable(printable: char -> bool, s: string, p: string, t: string, q: string)
    requires Quote(printable, s) + p == Quote(printable, t) + q
    ensures s == t && p == q
  {
    hide QuoteChars, Quote, Join;
    var xs, ys := QuoteChars(printable, s), QuoteChars(printable, t);
    QuoteCharsReadable(printable, s, t);
    QuoteParts(printable, s, p);
    QuoteParts(printable, t, q);
    JoinReadable(xs, p, ys, q, "", '"');
  }

  lemma QuoteParts(printable: char -> bool, s: string, p: string)
    ensures (Quote(printable, s) + p)[1..] == Join(QuoteChars(printable, s), "") + ['"'] + p
  {
    hide QuoteChars, Join;
    var body := Join(QuoteChars(printable, s), "");
    assert Quote(printable, s) + p == "\"" + (body + ['"'] + p);
  }

  lemma QuoteCharsReadable(printable: char -> bool, s: string, t: string)
    ensures Readable(QuoteChars(printable, s), QuoteChars(printable, t), "", '"')
    ensures QuoteChars(printable, s) == QuoteChars(printable, t) ==> s == t
  {
    hide QuoteChar;
    var xs, ys := QuoteChars(printable, s), QuoteChars(printable, t);
    forall i, j | 0 <= i < |xs| && 0 <= j < |ys|
      ensures PrefixFree(xs[i], ys[j]) && (xs[i] == ys[j] ==> s[i] == t[j])
    {
      QuoteCharReadable(printable, s[i], t[j]);
    }
    if xs == ys {
      assert forall i :: 0 <= i < |s| ==> xs[i] == ys[i];
    }
  }
}
