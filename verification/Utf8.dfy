/** UTF-8 (RFC 3629 section 4) between characters and bytes.

    A `char` is a Unicode scalar value. Decoding is strict: overlong forms, surrogates, values
    above U+10FFFF and truncated characters are refused, as by Go's `unicode/utf8` and a fatal
    `TextDecoder`. Besides the round trip there is what a reader of single bytes needs: a
    character that has not arrived whole is not valid. */
module Utf8 {
  import opened Wrappers

  type byte = i: int | 0 <= i < 256

  function Size(c: char): (n: nat)
    ensures 1 <= n <= 4
  {
    var v := c as int;
    if v < 0x80 then 1 else if v < 0x800 then 2 else if v < 0x10000 then 3 else 4
  }

  function EncodeChar(c: char): (b: seq<byte>)
    ensures |b| == Size(c)
    ensures b[0] < 0x80 <==> c as int < 0x80
    ensures RuneStart(b[0])
    ensures forall i :: 1 <= i < |b| ==> Continuation(b[i])
  {
    var v := c as int;
    if v < 0x80 then [v]
    else if v < 0x800 then [0xC0 + v / 0x40, 0x80 + v % 0x40]
    else if v < 0x10000 then [0xE0 + v / 0x1000, 0x80 + v / 0x40 % 0x40, 0x80 + v % 0x40]
    else [0xF0 + v / 0x40000, 0x80 + v / 0x1000 % 0x40, 0x80 + v / 0x40 % 0x40, 0x80 + v % 0x40]
  }

  predicate Continuation(b: byte) {
    0x80 <= b < 0xC0
  }

  /** Go's utf8.RuneStart. */
  predicate RuneStart(b: byte) {
    !Continuation(b)
  }

  function Encode(s: seq<char>): (b: seq<byte>)
    ensures |s| <= |b|
  {
    if s == [] then [] else EncodeChar(s[0]) + Encode(s[1..])
  }

  /** The first character of b, if b starts with a well-formed one. */
  function DecodeFirst(b: seq<byte>): (r: Option<char>)
    ensures r.Some? ==> Size(r.value) <= |b|
  {
    if b == [] then None
    else if b[0] < 0x80 then Some(b[0] as char)
    else if 0xC0 <= b[0] < 0xE0 then
      if 2 <= |b| && Continuation(b[1]) then
        var v := Join(b[0] as int - 0xC0, b[1]);
        if 0x80 <= v then Some(v as char) else None
      else None
    else if 0xE0 <= b[0] < 0xF0 then
      if 3 <= |b| && Continuation(b[1]) && Continuation(b[2]) then
        var v := Join(Join(b[0] as int - 0xE0, b[1]), b[2]);
        if 0x800 <= v && !(0xD800 <= v < 0xE000) then Some(v as char) else None
      else None
    else if 0xF0 <= b[0] < 0xF8 then
      if 4 <= |b| && Continuation(b[1]) && Continuation(b[2]) && Continuation(b[3]) then
        var v := Join(Join(Join(b[0] as int - 0xF0, b[1]), b[2]), b[3]);
        if 0x10000 <= v < 0x110000 then Some(v as char) else None
      else None
    else None
  }

  /** Six more bits, from a continuation byte. */
  function Join(high: int, b: byte): (v: int) {
    high * 0x40 + (b as int - 0x80)
  }

  lemma JoinParts(high: nat, b: byte)
    requires Continuation(b)
    ensures Join(high, b) / 0x40 == high && Join(high, b) % 0x40 == b as int - 0x80
  {}

  lemma Quotients(v: nat)
    ensures v / 0x1000 == v / 0x40 / 0x40 && v / 0x40000 == v / 0x1000 / 0x40
  {}

  /** What DecodeFirst reads is the encoding of what it returns. */
  lemma DecodeFirstSound(b: seq<byte>)
    requires DecodeFirst(b).Some?
    ensures b[..Size(DecodeFirst(b).value)] == EncodeChar(DecodeFirst(b).value)
  {
    var c := DecodeFirst(b).value;
    Quotients(c as int);
    if b[0] < 0x80 {
    } else if b[0] < 0xE0 {
      JoinParts(b[0] as int - 0xC0, b[1]);
    } else if b[0] < 0xF0 {
      var v := Join(b[0] as int - 0xE0, b[1]);
      JoinParts(b[0] as int - 0xE0, b[1]);
      JoinParts(v, b[2]);
    } else {
      var v := Join(b[0] as int - 0xF0, b[1]);
      JoinParts(b[0] as int - 0xF0, b[1]);
      JoinParts(v, b[2]);
      JoinParts(Join(v, b[2]), b[3]);
    }
  }

  /** The characters b encodes, or None when b is not valid UTF-8. */
  function Decode(b: seq<byte>): (r: Option<seq<char>>)
    ensures r.Some? ==> Encode(r.value) == b
  {
    if b == [] then Some([])
    else
      var first := DecodeFirst(b);
      if first.None? then None
      else
        var n := Size(first.value);
        DecodeFirstSound(b);
        assert b == b[..n] + b[n..];
        var rest := Decode(b[n..]);
        if rest.None? then None
        else
          assert ([first.value] + rest.value)[1..] == rest.value;
          Some([first.value] + rest.value)
  }

  predicate Valid(b: seq<byte>) {
    Decode(b).Some?
  }

  lemma ThreeDigits(v: nat)
    ensures v == v / 0x1000 * 0x1000 + v / 0x40 % 0x40 * 0x40 + v % 0x40
  {
    assert v / 0x40 == v / 0x1000 * 0x40 + v / 0x40 % 0x40;
  }

  lemma DecodeFirstOfEncoded(c: char, rest: seq<byte>)
    ensures DecodeFirst(EncodeChar(c) + rest) == Some(c)
  {
    var v := c as int;
    var e := EncodeChar(c);
    var b := e + rest;
    assert b[0] == e[0];
    if v < 0x80 {
    } else if v < 0x800 {
      assert b[1] == e[1];
      assert v == v / 0x40 * 0x40 + v % 0x40;
    } else if v < 0x10000 {
      assert b[1] == e[1] && b[2] == e[2];
      ThreeDigits(v);
    } else {
      assert b[1] == e[1] && b[2] == e[2] && b[3] == e[3];
      ThreeDigits(v);
      assert v / 0x1000 == v / 0x40000 * 0x40 + v / 0x1000 % 0x40;
    }
  }

  /** Every text survives encoding, whatever follows it. */
  lemma {:induction false} DecodeEncoded(s: seq<char>)
    ensures Decode(Encode(s)) == Some(s)
  {
    hide EncodeChar, DecodeFirst;
    if s == [] {
    } else {
      var b := Encode(s);
      DecodeFirstOfEncoded(s[0], Encode(s[1..]));
      assert b[Size(s[0])..] == Encode(s[1..]);
      DecodeEncoded(s[1..]);
      assert s == [s[0]] + s[1..];
    }
  }

  lemma {:induction false} EncodeConcat(s: seq<char>, t: seq<char>)
    ensures Encode(s + t) == Encode(s) + Encode(t)
  {
    hide EncodeChar, Size;
    if s == [] {
      assert s + t == t;
    } else {
      EncodeConcat(s[1..], t);
      assert (s + t)[1..] == s[1..] + t && (s + t)[0] == s[0];
      Associative(EncodeChar(s[0]), Encode(s[1..]), Encode(t));
    }
  }

  lemma EncodeAppend(s: seq<char>, c: char)
    ensures Encode(s + [c]) == Encode(s) + EncodeChar(c)
  {
    EncodeConcat(s, [c]);
    assert Encode([c]) == EncodeChar(c) + Encode([c][1..]);
  }

  /** A character cut short is not valid UTF-8. */
  lemma {:induction false} CutCharacterInvalid(s: seq<char>, c: char, k: nat)
    requires 0 < k < Size(c)
    ensures !Valid(Encode(s) + EncodeChar(c)[..k])
  {
    var b := Encode(s) + EncodeChar(c)[..k];
    if s == [] {
      assert b == EncodeChar(c)[..k];
    } else {
      var tail := Encode(s[1..]) + EncodeChar(c)[..k];
      assert b == EncodeChar(s[0]) + tail;
      DecodeFirstOfEncoded(s[0], tail);
      assert b[Size(s[0])..] == tail;
      CutCharacterInvalid(s[1..], c, k);
    }
  }

  /** Text of characters below U+0080 is one byte for each character. */
  lemma {:induction false} EncodeAscii(s: seq<char>)
    requires forall i :: 0 <= i < |s| ==> s[i] < '\U{80}'
    ensures |Encode(s)| == |s|
    ensures forall i :: 0 <= i < |s| ==> Encode(s)[i] == s[i] as int
  {
    if s != [] {
      EncodeAscii(s[1..]);
      assert forall i :: 1 <= i < |s| ==> s[i] == s[1..][i - 1];
    }
  }

  // ------------------------------------------------------------------- any bytes

  /** What bytes show: a whole character, or a byte that is part of none. */
  datatype Symbol = Whole(c: char) | Stray(b: byte)

  /** Bytes read from the front, as Go's range over a string reads them. */
  function Symbols(b: seq<byte>): seq<Symbol>
    decreases |b|
  {
    if b == [] then []
    else
      match DecodeFirst(b)
      case Some(c) => [Whole(c)] + Symbols(b[Size(c)..])
      case None => [Stray(b[0])] + Symbols(b[1..])
  }

  function Flat(text: seq<Symbol>): seq<byte> {
    if text == [] then [] else (if text[0].Whole? then EncodeChar(text[0].c) else [text[0].b]) + Flat(text[1..])
  }

  function Strays(b: seq<byte>): (r: seq<Symbol>)
    ensures |r| == |b| && forall i :: 0 <= i < |b| ==> r[i] == Stray(b[i])
  {
    seq(|b|, i requires 0 <= i < |b| => Stray(b[i]))
  }

  /** Nothing is lost in what is shown. */
  lemma {:induction false} FlatSymbols(b: seq<byte>)
    ensures Flat(Symbols(b)) == b
    decreases |b|
  {
    hide EncodeChar, DecodeFirst, Flat;
    if b == [] {
      FlatNone();
    } else {
      match DecodeFirst(b) {
        case Some(c) =>
          FlatSymbols(b[Size(c)..]);
          FlatCons(Whole(c), Symbols(b[Size(c)..]));
          DecodeFirstSound(b);
          assert b == b[..Size(c)] + b[Size(c)..];
        case None =>
          FlatSymbols(b[1..]);
          FlatCons(Stray(b[0]), Symbols(b[1..]));
          assert b == [b[0]] + b[1..];
      }
    }
  }

  lemma FlatNone()
    ensures Flat([]) == []
  {}

  lemma FlatCons(first: Symbol, rest: seq<Symbol>)
    ensures Flat([first] + rest) == (if first.Whole? then EncodeChar(first.c) else [first.b]) + Flat(rest)
  {
    assert ([first] + rest)[1..] == rest;
  }

  /** What follows a whole character does not change it. */
  lemma DecodeFirstLonger(a: seq<byte>, b: seq<byte>)
    requires DecodeFirst(a).Some?
    ensures DecodeFirst(a + b) == DecodeFirst(a)
  {
    assert forall i :: 0 <= i < |a| ==> (a + b)[i] == a[i];
  }

  /** A byte that starts a character completes none before it. */
  lemma DecodeFirstCut(a: seq<byte>, b: seq<byte>)
    requires a != [] && (b == [] || RuneStart(b[0]))
    ensures DecodeFirst(a + b) == DecodeFirst(a)
  {
    var whole := a + b;
    assert forall i :: 0 <= i < |a| ==> whole[i] == a[i];
    if b == [] {
      assert whole == a;
    } else {
      assert whole[|a|] == b[0];
    }
  }

  lemma {:induction false} SymbolsConcat(a: seq<byte>, b: seq<byte>)
    requires b == [] || RuneStart(b[0])
    ensures Symbols(a + b) == Symbols(a) + Symbols(b)
    decreases |a|
  {
    hide DecodeFirst, RuneStart;
    if a == [] {
      assert a + b == b;
    } else {
      DecodeFirstCut(a, b);
      var first := DecodeFirst(a);
      var n := if first.Some? then Size(first.value) else 1;
      assert (a + b)[n..] == a[n..] + b && (a + b)[0] == a[0];
      SymbolsConcat(a[n..], b);
    }
  }

  lemma {:induction false} SymbolsOfStrays(b: seq<byte>)
    requires forall i :: 0 <= i < |b| ==> Continuation(b[i])
    ensures Symbols(b) == Strays(b)
    decreases |b|
  {
    if b != [] {
      SymbolsOfStrays(b[1..]);
      assert Strays(b) == [Stray(b[0])] + Strays(b[1..]);
    }
  }

  /** The bytes behind the last one that can start a character are at most one character and
      strays, whatever stands before. */
  lemma SymbolsOfTail(t: seq<byte>)
    requires t != [] && forall i :: 1 <= i < |t| ==> Continuation(t[i])
    ensures Symbols(t) ==
            match DecodeFirst(t)
            case Some(c) => [Whole(c)] + Strays(t[Size(c)..])
            case None => [Stray(t[0])] + Strays(t[1..])
  {
    hide DecodeFirst;
    var first := DecodeFirst(t);
    SymbolsOfStrays(t[if first.Some? then Size(first.value) else 1..]);
  }

  /** The size of the last symbol, by the bytes from the last start on. */
  function LastSize(t: seq<byte>): (n: nat)
    requires t != []
    ensures 1 <= n <= |t|
  {
    var c := DecodeFirst(t);
    if c.Some? && Size(c.value) == |t| then |t| else 1
  }

  lemma ShorterTail(t: seq<byte>)
    requires |t| > 1 && forall i :: 1 <= i < |t| ==> Continuation(t[i])
    requires LastSize(t) == 1
    ensures Symbols(t[..|t| - 1]) == Symbols(t)[..|Symbols(t)| - 1]
  {
    hide DecodeFirst, Continuation, Symbols;
    var shorter := t[..|t| - 1];
    assert t == shorter + [t[|t| - 1]];
    SymbolsOfTail(t);
    SymbolsOfTail(shorter);
    if DecodeFirst(shorter).Some? {
      DecodeFirstLonger(shorter, [t[|t| - 1]]);
      var n := Size(DecodeFirst(t).value);
      assert Strays(shorter[n..]) == Strays(t[n..])[..|t| - n - 1];
    } else if DecodeFirst(t).Some? {
      StillWhole(shorter, [t[|t| - 1]]);
    } else {
      assert Strays(shorter[1..]) == Strays(t[1..])[..|t| - 2];
    }
  }

  /** A character that is followed by something is whole without it. */
  lemma StillWhole(a: seq<byte>, b: seq<byte>)
    requires DecodeFirst(a + b).Some? && Size(DecodeFirst(a + b).value) <= |a| && a != []
    ensures DecodeFirst(a) == DecodeFirst(a + b)
  {
    assert forall i :: 0 <= i < |a| ==> (a + b)[i] == a[i];
  }

  lemma TailCut(t: seq<byte>)
    requires t != [] && forall i :: 1 <= i < |t| ==> Continuation(t[i])
    ensures Symbols(t) != [] && Symbols(t[..|t| - LastSize(t)]) == Symbols(t)[..|Symbols(t)| - 1]
  {
    hide DecodeFirst;
    SymbolsOfTail(t);
    if LastSize(t) < |t| {
      ShorterTail(t);
    } else {
      assert t[..0] == [] && |Symbols(t)| == 1;
    }
  }

  /** Cutting off that many bytes takes exactly the last symbol away. */
  lemma LastSymbolCut(a: seq<byte>, t: seq<byte>)
    requires t != [] && (a == [] || RuneStart(t[0])) && forall i :: 1 <= i < |t| ==> Continuation(t[i])
    ensures var b, n := a + t, LastSize(t);
            Symbols(b) != [] && Symbols(b[..|b| - n]) == Symbols(b)[..|Symbols(b)| - 1]
  {
    hide Symbols, LastSize;
    var shorter := t[..|t| - LastSize(t)];
    TailCut(t);
    assert (a + t)[..|a + t| - LastSize(t)] == a + shorter;
    if a == [] {
      assert a + t == t && a + shorter == shorter;
    } else {
      SymbolsConcat(a, t);
      SymbolsConcat(a, shorter);
    }
  }

  /** The last position at or before i where a character can start, or 0. */
  function StartBefore(b: seq<byte>, i: nat): (start: nat)
    requires i < |b|
    ensures start <= i && (start == 0 || RuneStart(b[start]))
    ensures forall k :: start < k <= i ==> Continuation(b[k])
  {
    if i > 0 && !RuneStart(b[i]) then StartBefore(b, i - 1) else i
  }

  /** The bytes from the last start on. */
  function Tail(b: seq<byte>): (t: seq<byte>)
    requires b != []
    ensures t != [] && |t| <= |b| && b[..|b| - |t|] + t == b
    ensures |t| == |b| || RuneStart(t[0])
    ensures forall i :: 1 <= i < |t| ==> Continuation(t[i])
  {
    b[StartBefore(b, |b| - 1)..]
  }

  /** Cutting off the size of the last symbol takes it away. */
  lemma LastCut(b: seq<byte>)
    requires b != []
    ensures Symbols(b) != []
    ensures Symbols(b[..|b| - LastSize(Tail(b))]) == Symbols(b)[..|Symbols(b)| - 1]
  {
    hide Symbols, LastSize, Tail, Continuation, RuneStart;
    var t := Tail(b);
    assert b == b[..|b| - |t|] + t;
    LastSymbolCut(b[..|b| - |t|], t);
  }

  /** Bytes are valid exactly when they show no stray. */
  lemma {:induction false} ValidDecided(b: seq<byte>)
    ensures Valid(b) <==> forall i :: 0 <= i < |Symbols(b)| ==> Symbols(b)[i].Whole?
    ensures Valid(b) ==> |Decode(b).value| == |Symbols(b)|
    decreases |b|
  {
    hide DecodeFirst;
    if b != [] {
      var first := DecodeFirst(b);
      if first.Some? {
        var rest := b[Size(first.value)..];
        ValidDecided(rest);
        assert Symbols(b)[1..] == Symbols(rest);
        assert Valid(b) <==> Valid(rest);
      } else {
        assert Symbols(b)[0].Stray?;
      }
    }
  }

  /** Strays that continue a character, and so are none's first byte. */
  predicate Settled(text: seq<Symbol>) {
    forall i :: 0 <= i < |text| ==> text[i].Whole? || Continuation(text[i].b)
  }

  /** A text of characters and such strays is what its bytes show. */
  lemma {:induction false} SymbolsFlat(text: seq<Symbol>)
    requires Settled(text)
    ensures Symbols(Flat(text)) == text
  {
    hide EncodeChar;
    if text != [] {
      var first, rest := text[0], Flat(text[1..]);
      SymbolsFlat(text[1..]);
      if first.Whole? {
        hide DecodeFirst;
        DecodeFirstOfEncoded(first.c, rest);
        assert (EncodeChar(first.c) + rest)[Size(first.c)..] == rest;
      } else {
        assert ([first.b] + rest)[1..] == rest;
      }
    }
  }

  lemma {:induction false} FlatConcat(a: seq<Symbol>, b: seq<Symbol>)
    ensures Flat(a + b) == Flat(a) + Flat(b)
  {
    hide EncodeChar;
    if a == [] {
      assert a + b == b;
    } else {
      FlatConcat(a[1..], b);
      assert (a + b)[1..] == a[1..] + b && (a + b)[0] == a[0];
    }
  }

  lemma {:induction false} FlatStrays(b: seq<byte>)
    ensures Flat(Strays(b)) == b
  {
    if b != [] {
      FlatStrays(b[1..]);
      assert Strays(b)[1..] == Strays(b[1..]);
    }
  }
}
