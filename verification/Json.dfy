/** JSON strings and objects (RFC 8259) as bytes: what the secret writers must produce,
    and an independent reader.

    The writer escapes as the source does; the reader knows every escape of the standard, so
    that reading back says more than that the two agree with each other. Objects here are
    flat, and their members keep the order in which they are written. */
module Json {
  import opened Wrappers
  import opened Utf8

  datatype Value = Text(text: seq<char>) | Bool(value: bool)

  datatype Member = Member(name: seq<char>, value: Value)

  const QUOTE: byte := 0x22
  const BACKSLASH: byte := 0x5C

  function Ascii(s: string): (r: seq<byte>)
    requires forall i :: 0 <= i < |s| ==> s[i] as int < 0x80
    ensures |r| == |s|
  {
    seq(|s|, i requires 0 <= i < |s| => s[i] as int)
  }

  // ---------------------------------------------------------------- the writer

  function Hex(v: nat): (b: byte)
    requires v < 16
  {
    if v < 10 then 0x30 + v else 0x61 + v - 10
  }

  /** One character inside a string. */
  function EscapeChar(c: char): (r: seq<byte>)
    ensures r != [] && r[0] != QUOTE
  {
    var v := c as int;
    if c == '"' || c == '\\' then [BACKSLASH, v]
    else if v == 8 then [BACKSLASH, 'b' as int]
    else if v == 12 then [BACKSLASH, 'f' as int]
    else if v == 10 then [BACKSLASH, 'n' as int]
    else if v == 13 then [BACKSLASH, 'r' as int]
    else if v == 9 then [BACKSLASH, 't' as int]
    else if v < 0x20 then [BACKSLASH, 'u' as int, 0x30, 0x30, Hex(v / 16), Hex(v % 16)]
    else if v == 0x2028 || v == 0x2029 then [BACKSLASH, 'u' as int, 0x32, 0x30, 0x32, 0x38 + (v - 0x2028)]
    else EncodeChar(c)
  }

  function Escape(s: seq<char>): seq<byte> {
    if s == [] then [] else EscapeChar(s[0]) + Escape(s[1..])
  }

  /** s as a JSON string. */
  function String(s: seq<char>): seq<byte> {
    [QUOTE] + Escape(s) + [QUOTE]
  }

  function ValueBytes(v: Value): seq<byte> {
    match v
    case Text(text) => String(text)
    case Bool(true) => Ascii("true")
    case Bool(false) => Ascii("false")
  }

  function MemberBytes(m: Member): seq<byte> {
    String(m.name) + [':' as int] + ValueBytes(m.value)
  }

  function Members(ms: seq<Member>): seq<byte> {
    if ms == [] then []
    else if |ms| == 1 then MemberBytes(ms[0])
    else MemberBytes(ms[0]) + [',' as int] + Members(ms[1..])
  }

  /** ms as a JSON object, in this order. */
  function Object(ms: seq<Member>): seq<byte> {
    ['{' as int] + Members(ms) + ['}' as int]
  }

  // ---------------------------------------------------------------- the reader

  function HexValue(b: byte): (r: Option<nat>)
    ensures r.Some? ==> r.value < 16
  {
    if 0x30 <= b <= 0x39 then Some(b - 0x30)
    else if 0x61 <= b <= 0x66 then Some(b - 0x61 + 10)
    else if 0x41 <= b <= 0x46 then Some(b - 0x41 + 10)
    else None
  }

  /** The four digits after \u. */
  function Hex4(b: seq<byte>): (r: Option<nat>)
    ensures r.Some? ==> r.value < 0x10000
  {
    if |b| < 4 then None
    else
      match (HexValue(b[0]), HexValue(b[1]), HexValue(b[2]), HexValue(b[3]))
      case (Some(x), Some(y), Some(z), Some(w)) => Some(x * 0x1000 + y * 0x100 + z * 0x10 + w)
      case _ => None
  }

  datatype Parsed<+T> = Parsed(value: T, rest: seq<byte>)

  /** An escape, after its backslash: RFC 8259 section 7. A surrogate counts only in a pair. */
  function ReadEscape(b: seq<byte>): (r: Option<Parsed<char>>)
    ensures r.Some? ==> |r.value.rest| < |b|
  {
    if b == [] then None
    else if b[0] == QUOTE || b[0] == BACKSLASH || b[0] == '/' as int then Some(Parsed(b[0] as char, b[1..]))
    else if b[0] == 'b' as int then Some(Parsed(8 as char, b[1..]))
    else if b[0] == 'f' as int then Some(Parsed(12 as char, b[1..]))
    else if b[0] == 'n' as int then Some(Parsed('\n', b[1..]))
    else if b[0] == 'r' as int then Some(Parsed('\r', b[1..]))
    else if b[0] == 't' as int then Some(Parsed('\t', b[1..]))
    else if b[0] == 'u' as int then
      match Hex4(b[1..])
      case None => None
      case Some(v) =>
        if v < 0xD800 || 0xE000 <= v then Some(Parsed(v as char, b[5..]))
        else if v < 0xDC00 && |b| >= 11 && b[5] == BACKSLASH && b[6] == 'u' as int then
          match Hex4(b[7..])
          case Some(w) =>
            if 0xDC00 <= w < 0xE000 then
              Some(Parsed((0x10000 + (v - 0xD800) * 0x400 + (w - 0xDC00)) as char, b[11..]))
            else None
          case None => None
        else None
    else None
  }

  /** The rest of a string, after its opening quote. */
  function ReadRest(b: seq<byte>): (r: Option<Parsed<seq<char>>>)
    ensures r.Some? ==> |r.value.rest| < |b|
    decreases |b|
  {
    if b == [] then None
    else if b[0] == QUOTE then Some(Parsed([], b[1..]))
    else
      var first := if b[0] == BACKSLASH then ReadEscape(b[1..])
                   else if b[0] < 0x20 || DecodeFirst(b).None? then None
                   else Some(Parsed(DecodeFirst(b).value, b[Size(DecodeFirst(b).value)..]));
      match first
      case None => None
      case Some(Parsed(c, rest)) =>
        match ReadRest(rest)
        case None => None
        case Some(Parsed(s, after)) => Some(Parsed([c] + s, after))
  }

  function SkipSpace(b: seq<byte>): (r: seq<byte>)
    ensures |r| <= |b|
  {
    if b != [] && (b[0] == 0x20 || b[0] == 9 || b[0] == 10 || b[0] == 13) then SkipSpace(b[1..]) else b
  }

  function ReadString(b: seq<byte>): (r: Option<Parsed<seq<char>>>)
    ensures r.Some? ==> |r.value.rest| < |b|
  {
    var s := SkipSpace(b);
    if s != [] && s[0] == QUOTE then ReadRest(s[1..]) else None
  }

  function ReadToken(b: seq<byte>, token: byte): (r: Option<seq<byte>>)
    ensures r.Some? ==> |r.value| < |b|
  {
    var s := SkipSpace(b);
    if s != [] && s[0] == token then Some(s[1..]) else None
  }

  function ReadValue(b: seq<byte>): (r: Option<Parsed<Value>>)
    ensures r.Some? ==> |r.value.rest| < |b|
  {
    var s := SkipSpace(b);
    if Ascii("true") <= s then Some(Parsed(Bool(true), s[4..]))
    else if Ascii("false") <= s then Some(Parsed(Bool(false), s[5..]))
    else
      match ReadString(s)
      case Some(Parsed(text, rest)) => Some(Parsed(Text(text), rest))
      case None => None
  }

  function ReadMember(b: seq<byte>): (r: Option<Parsed<Member>>)
    ensures r.Some? ==> |r.value.rest| < |b|
  {
    match ReadString(b)
    case None => None
    case Some(Parsed(name, afterName)) =>
      match ReadToken(afterName, ':' as int)
      case None => None
      case Some(afterColon) =>
        match ReadValue(afterColon)
        case None => None
        case Some(Parsed(value, rest)) => Some(Parsed(Member(name, value), rest))
  }

  function ReadMembers(b: seq<byte>): (r: Option<Parsed<seq<Member>>>)
    ensures r.Some? ==> |r.value.rest| < |b|
    decreases |b|
  {
    match ReadMember(b)
    case None => None
    case Some(Parsed(m, rest)) =>
      match ReadToken(rest, '}' as int)
      case Some(after) => Some(Parsed([m], after))
      case None =>
        match ReadToken(rest, ',' as int)
        case None => None
        case Some(more) =>
          match ReadMembers(more)
          case None => None
          case Some(Parsed(ms, after)) => Some(Parsed([m] + ms, after))
  }

  /** An object whose values are strings and booleans, and nothing after it. */
  function ReadObject(b: seq<byte>): Option<seq<Member>> {
    match ReadToken(b, '{' as int)
    case None => None
    case Some(inside) =>
      match ReadToken(inside, '}' as int)
      case Some(after) => if SkipSpace(after) == [] then Some([]) else None
      case None =>
        match ReadMembers(inside)
        case Some(Parsed(ms, after)) => if SkipSpace(after) == [] then Some(ms) else None
        case None => None
  }

  // ------------------------------------------------------------ the round trip

  lemma EscapeRead(c: char, rest: seq<byte>)
    requires EscapeChar(c)[0] == BACKSLASH
    ensures ReadEscape((EscapeChar(c) + rest)[1..]) == Some(Parsed(c, rest))
  {
    var e := EscapeChar(c);
    var b := (e + rest)[1..];
    assert b == e[1..] + rest;
    if |e| == 2 {
      assert b[0] == e[1] && b[1..] == rest;
    } else {
      assert b[0] == e[1] && b[5..] == rest;
      Hex4Read(e[2], e[3], e[4], e[5], rest);
      assert b[1..] == [e[2], e[3], e[4], e[5]] + rest;
    }
  }

  lemma Hex4Read(x: byte, y: byte, z: byte, w: byte, rest: seq<byte>)
    ensures Hex4([x, y, z, w] + rest) == Hex4([x, y, z, w])
  {
    var b := [x, y, z, w] + rest;
    assert b[0] == x && b[1] == y && b[2] == z && b[3] == w;
  }

  lemma UnescapedRead(c: char, rest: seq<byte>)
    requires EscapeChar(c)[0] != BACKSLASH
    ensures EscapeChar(c) == EncodeChar(c)
    ensures EscapeChar(c)[0] >= 0x20
    ensures DecodeFirst(EscapeChar(c) + rest) == Some(c)
    ensures (EscapeChar(c) + rest)[Size(c)..] == rest
  {
    DecodeFirstOfEncoded(c, rest);
  }

  /** Every text is read back from its string, whatever follows. */
  lemma {:induction false} RestRead(s: seq<char>, rest: seq<byte>)
    ensures ReadRest(Escape(s) + [QUOTE] + rest) == Some(Parsed(s, rest))
  {
    var b := Escape(s) + [QUOTE] + rest;
    if s == [] {
      assert b == [QUOTE] + rest;
    } else {
      var tail := Escape(s[1..]) + [QUOTE] + rest;
      assert b == EscapeChar(s[0]) + tail;
      assert b[0] == EscapeChar(s[0])[0];
      RestRead(s[1..], rest);
      if b[0] == BACKSLASH {
        EscapeRead(s[0], tail);
      } else {
        UnescapedRead(s[0], tail);
      }
      assert [s[0]] + s[1..] == s;
    }
  }

  lemma StringRead(s: seq<char>, rest: seq<byte>)
    ensures ReadString(String(s) + rest) == Some(Parsed(s, rest))
  {
    var b := String(s) + rest;
    assert b[0] == QUOTE;
    assert b[1..] == Escape(s) + [QUOTE] + rest;
    RestRead(s, rest);
  }

  lemma ValueRead(v: Value, rest: seq<byte>)
    ensures ReadValue(ValueBytes(v) + rest) == Some(Parsed(v, rest))
  {
    var b := ValueBytes(v) + rest;
    match v {
      case Text(text) =>
        StringRead(text, rest);
        assert b[0] == QUOTE && Ascii("true")[0] != QUOTE && Ascii("false")[0] != QUOTE;
      case Bool(true) =>
        assert b[0] == 't' as int && b[4..] == rest;
      case Bool(false) =>
        assert b[0] == 'f' as int && Ascii("true")[0] != 'f' as int && b[5..] == rest;
    }
  }

  lemma TokenRead(first: byte, rest: seq<byte>, token: byte)
    requires first > 0x20
    ensures ReadToken([first] + rest, token) == if first == token then Some(rest) else None
  {
    var b := [first] + rest;
    assert b[0] == first && b[1..] == rest;
  }

  lemma MemberRead(m: Member, rest: seq<byte>)
    ensures ReadMember(MemberBytes(m) + rest) == Some(Parsed(m, rest))
  {
    hide String, ReadString, ValueBytes, ReadValue, ReadToken;
    var afterColon := ValueBytes(m.value) + rest;
    var afterName := [':' as int] + afterColon;
    assert MemberBytes(m) + rest == String(m.name) + afterName;
    StringRead(m.name, afterName);
    TokenRead(':' as int, afterColon, ':' as int);
    ValueRead(m.value, rest);
  }

  lemma MembersStart(ms: seq<Member>)
    requires ms != []
    ensures Members(ms) != [] && Members(ms)[0] == QUOTE
  {
    hide ValueBytes;
    assert String(ms[0].name)[0] == QUOTE;
    assert MemberBytes(ms[0])[0] == QUOTE;
  }

  lemma {:induction false} MembersRead(ms: seq<Member>, rest: seq<byte>)
    requires ms != []
    ensures ReadMembers(Members(ms) + (['}' as int] + rest)) == Some(Parsed(ms, rest))
  {
    hide MemberBytes, ReadMember, ReadToken;
    var close := ['}' as int] + rest;
    if |ms| == 1 {
      MemberRead(ms[0], close);
      TokenRead('}' as int, rest, '}' as int);
      assert ms == [ms[0]];
    } else {
      var more := Members(ms[1..]) + close;
      var tail := [',' as int] + more;
      assert Members(ms) + close == MemberBytes(ms[0]) + tail;
      MemberRead(ms[0], tail);
      TokenRead(',' as int, more, '}' as int);
      TokenRead(',' as int, more, ',' as int);
      MembersRead(ms[1..], rest);
      assert ms == [ms[0]] + ms[1..];
    }
  }

  /** Reading a written object gives its members back, in order. */
  lemma ObjectRead(ms: seq<Member>)
    ensures ReadObject(Object(ms)) == Some(ms)
  {
    hide Members, ReadMembers, ReadToken;
    var inside := Members(ms) + ['}' as int];
    assert Object(ms) == ['{' as int] + inside;
    TokenRead('{' as int, inside, '{' as int);
    if ms == [] {
      MembersEmpty();
      assert inside == ['}' as int] + [];
      TokenRead('}' as int, [], '}' as int);
    } else {
      MembersRead(ms, []);
      MembersStart(ms);
      assert inside == Members(ms) + (['}' as int] + []);
      assert inside == [QUOTE] + inside[1..];
      TokenRead(QUOTE, inside[1..], '}' as int);
    }
  }

  lemma MembersEmpty()
    ensures Members([]) == []
  {}

  lemma {:induction false} EscapeConcat(s: seq<char>, t: seq<char>)
    ensures Escape(s + t) == Escape(s) + Escape(t)
  {
    hide EscapeChar;
    if s == [] {
      assert s + t == t;
    } else {
      EscapeConcat(s[1..], t);
      assert (s + t)[1..] == s[1..] + t && (s + t)[0] == s[0];
      Associative(EscapeChar(s[0]), Escape(s[1..]), Escape(t));
    }
  }

  lemma EscapeAppend(s: seq<char>, c: char)
    ensures Escape(s + [c]) == Escape(s) + EscapeChar(c)
  {
    EscapeConcat(s, [c]);
    assert Escape([c]) == EscapeChar(c) + Escape([c][1..]);
  }

  /** A text that needs no escape stands in its string as it is. */
  lemma {:induction false} PlainString(s: string)
    requires forall i :: 0 <= i < |s| ==> 'A' <= s[i] <= 'Z' || 'a' <= s[i] <= 'z'
    ensures Escape(s) == Ascii(s)
  {
    if s != [] {
      PlainString(s[1..]);
      assert Ascii(s) == [s[0] as int] + Ascii(s[1..]);
    }
  }
}
