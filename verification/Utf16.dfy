/** UTF-16 (RFC 2781 section 2) between characters and 16-bit units.

    Used where Windows speaks in units: the console, one key at a time, and the task file, two
    bytes a unit. `Encode` is the writer. `Start` reads as far as units are well-formed, so that
    a reader that stops at the first lone half of a pair can be compared with it; `WellFormed`
    says that nothing was left. */
module Utf16 {
  import opened Wrappers

  type unit16 = i: int | 0 <= i < 0x10000

  predicate High(u: unit16) {
    0xD800 <= u < 0xDC00
  }

  predicate Low(u: unit16) {
    0xDC00 <= u < 0xE000
  }

  function Units(c: char): (n: nat)
    ensures 1 <= n <= 2
  {
    if c as int < 0x10000 then 1 else 2
  }

  function EncodeChar(c: char): (r: seq<unit16>)
    ensures |r| == Units(c)
    ensures |r| == 1 ==> !High(r[0]) && !Low(r[0]) && r[0] == c as int
    ensures |r| == 2 ==> High(r[0]) && Low(r[1])
  {
    var v := c as int;
    if v < 0x10000 then [v] else [0xD800 + (v - 0x10000) / 0x400, 0xDC00 + (v - 0x10000) % 0x400]
  }

  function Encode(s: seq<char>): (r: seq<unit16>)
    ensures |s| <= |r|
  {
    if s == [] then [] else EncodeChar(s[0]) + Encode(s[1..])
  }

  /** The character of a surrogate pair: Go's utf16.DecodeRune. */
  function Pair(high: unit16, low: unit16): (c: char)
    requires High(high) && Low(low)
    ensures EncodeChar(c) == [high, low]
  {
    var v := 0x10000 + (high as int - 0xD800) * 0x400 + (low as int - 0xDC00);
    assert (v - 0x10000) / 0x400 == high as int - 0xD800;
    v as char
  }

  /** The first character of u, if u starts with a well-formed one. */
  function DecodeFirst(u: seq<unit16>): (r: Option<char>)
    ensures r.Some? ==> Units(r.value) <= |u| && u[..Units(r.value)] == EncodeChar(r.value)
  {
    if u == [] then None
    else if High(u[0]) then
      if 2 <= |u| && Low(u[1]) then
        assert u[..2] == [u[0], u[1]];
        Some(Pair(u[0], u[1]))
      else None
    else if Low(u[0]) then None
    else
      assert u[..1] == [u[0]];
      Some(u[0] as char)
  }

  /** The longest well-formed start of u, as text. */
  function Start(u: seq<unit16>): (text: seq<char>)
    ensures Encode(text) <= u
  {
    var first := DecodeFirst(u);
    if first.None? then []
    else
      var n := Units(first.value);
      assert u == u[..n] + u[n..];
      var rest := Start(u[n..]);
      assert ([first.value] + rest)[1..] == rest;
      [first.value] + rest
  }

  predicate WellFormed(u: seq<unit16>) {
    Encode(Start(u)) == u
  }

  lemma DecodeFirstOfEncoded(c: char, rest: seq<unit16>)
    ensures DecodeFirst(EncodeChar(c) + rest) == Some(c)
  {
    var e, v := EncodeChar(c), c as int;
    var u := e + rest;
    assert u[0] == e[0];
    if v >= 0x10000 {
      assert u[1] == e[1];
      assert v - 0x10000 == (v - 0x10000) / 0x400 * 0x400 + (v - 0x10000) % 0x400;
    }
  }

  /** Encoded text is well-formed, and read back. */
  lemma {:induction false} StartOfEncoded(s: seq<char>)
    ensures Start(Encode(s)) == s && WellFormed(Encode(s))
  {
    if s != [] {
      var u := Encode(s);
      DecodeFirstOfEncoded(s[0], Encode(s[1..]));
      assert u[Units(s[0])..] == Encode(s[1..]);
      StartOfEncoded(s[1..]);
    }
  }

  lemma {:induction false} EncodeConcat(s: seq<char>, t: seq<char>)
    ensures Encode(s + t) == Encode(s) + Encode(t)
  {
    hide EncodeChar;
    if s == [] {
      assert s + t == t;
    } else {
      EncodeConcat(s[1..], t);
      assert (s + t)[1..] == s[1..] + t && (s + t)[0] == s[0];
      Associative(EncodeChar(s[0]), Encode(s[1..]), Encode(t));
    }
  }

  lemma EncodeAppend(s: seq<char>, c: char)
    ensures Encode(s + [c]) == Encode(s) + EncodeChar(c)
  {
    EncodeConcat(s, [c]);
    assert Encode([c]) == EncodeChar(c) + Encode([c][1..]);
  }
}
