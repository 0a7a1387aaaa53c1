/** The writers of requests that carry secrets.

    Each computes the exact size first and then writes into a buffer of that capacity, so
    that no copy of a secret is left behind by a growing slice. */
module VaultJson {
  import opened Wrappers
  import opened Utf8
  import opened Json

  const MAX_REQUEST_BODY: nat := 4096

  datatype Failure = InvalidText | RequestTooLarge | SetupInput

  /** A payload under construction: make([]byte, 0, capacity). `Append` needs room left,
      so a payload never moves to a larger buffer. */
  class Payload {
    const storage: array<byte>
    var length: nat

    ghost predicate Valid()
      reads this
    {
      length <= storage.Length
    }

    ghost function Contents(): seq<byte>
      reads this, storage
      requires Valid()
    {
      storage[..length]
    }

    constructor (capacity: nat)
      ensures Valid() && fresh(storage) && storage.Length == capacity && Contents() == []
    {
      storage := new byte[capacity](_ => 0);
      length := 0;
    }

    method Append(bytes: seq<byte>)
      requires Valid() && length + |bytes| <= storage.Length
      modifies this, storage
      ensures Valid() && Contents() == old(Contents()) + bytes
    {
      var start := length;
      for i := 0 to |bytes|
        invariant length == start + i <= storage.Length
        invariant Contents() == old(Contents()) + bytes[..i]
      {
        storage[length] := bytes[i];
        length := length + 1;
      }
    }
  }

  /** `read` is what password holds before offset. */
  ghost predicate ReadTo(password: seq<byte>, offset: nat, read: seq<char>) {
    && offset <= |password| && Utf8.Valid(password) && Utf8.Valid(password[offset..])
    && Decode(password).value == read + Decode(password[offset..]).value
  }

  lemma ReadNothing(password: seq<byte>)
    requires Utf8.Valid(password)
    ensures ReadTo(password, 0, [])
  {
    assert password[0..] == password;
    assert [] + Decode(password).value == Decode(password).value;
  }

  lemma ReadAll(password: seq<byte>, read: seq<char>)
    requires ReadTo(password, |password|, read)
    ensures Decode(password).value == read
  {
    assert password[|password|..] == [];
  }

  /** One more character: what utf8.DecodeRune returns, and what is left after it. */
  lemma ReadOne(password: seq<byte>, offset: nat, read: seq<char>) returns (c: char)
    requires ReadTo(password, offset, read) && offset < |password|
    ensures DecodeFirst(password[offset..]) == Some(c)
    ensures ReadTo(password, offset + Size(c), read + [c])
    ensures password[offset..offset + Size(c)] == EncodeChar(c)
    ensures if password[offset] < 0x80 then Size(c) == 1 && c as int == password[offset] else c as int >= 0x80
    ensures |Escape(read + [c])| == |Escape(read)| + |EscapeChar(c)|
    ensures |Escape(read + [c])| <= |Escape(Decode(password).value)|
  {
    var rest := password[offset..];
    DecodeFirstSound(rest);
    c := DecodeFirst(rest).value;
    assert rest[0] == rest[..Size(c)][0];
    assert rest[Size(c)..] == password[offset + Size(c)..];
    assert password[offset..offset + Size(c)] == rest[..Size(c)];
    var after := Decode(rest[Size(c)..]).value;
    assert read + ([c] + after) == (read + [c]) + after;
    EscapeAppend(read, c);
    EscapeConcat(read + [c], after);
  }

  /** vaultJSONStringSize. */
  method StringSize(password: seq<byte>) returns (size: Result<nat, Failure>)
    ensures size == match Decode(password)
                    case Some(text) => Ok(|String(text)|)
                    case None => Err(InvalidText)
  {
    hide Decode, DecodeFirst, Escape, ReadTo;
    if !Utf8.Valid(password) {
      return Err(InvalidText);
    }
    var total := 2;
    var offset := 0;
    ghost var read: seq<char> := [];
    ReadNothing(password);
    EscapeNothing();
    while offset < |password|
      invariant offset <= |password| && ReadTo(password, offset, read)
      invariant total == 2 + |Escape(read)|
      decreases |password| - offset
    {
      var value := password[offset];
      ghost var c := ReadOne(password, offset, read);
      ReadInBounds(password, offset + Size(c), read + [c]);
      read := read + [c];
      if value >= 0x80 {
        var character := DecodeFirst(password[offset..]).value;
        total := total + if character as int == 0x2028 || character as int == 0x2029 then 6 else Size(character);
        offset := offset + Size(character);
      } else {
        offset := offset + 1;
        if value == 0x22 || value == 0x5C || value == 8 || value == 12 || value == 10 || value == 13 || value == 9 {
          total := total + 2;
        } else if value < 0x20 {
          total := total + 6;
        } else {
          total := total + 1;
        }
      }
    }
    ReadAll(password, read);
    size := Ok(total);
  }

  lemma EscapeNothing()
    ensures Escape([]) == []
  {}

  lemma ReadInBounds(password: seq<byte>, offset: nat, read: seq<char>)
    requires ReadTo(password, offset, read)
    ensures offset <= |password|
  {}

  /** What the writer appends for one character. */
  method AppendChar(destination: Payload, value: byte, c: char)
    requires destination.Valid() && destination.length + |EscapeChar(c)| <= destination.storage.Length
    requires if value < 0x80 then c as int == value else c as int >= 0x80
    modifies destination, destination.storage
    ensures destination.Valid() && destination.Contents() == old(destination.Contents()) + EscapeChar(c)
  {
    if value >= 0x80 {
      if c as int == 0x2028 {
        destination.Append([BACKSLASH, 'u' as int, 0x32, 0x30, 0x32, 0x38]);
      } else if c as int == 0x2029 {
        destination.Append([BACKSLASH, 'u' as int, 0x32, 0x30, 0x32, 0x39]);
      } else {
        destination.Append(EncodeChar(c));
      }
    } else if value == 0x22 || value == 0x5C {
      destination.Append([BACKSLASH, value]);
    } else if value == 8 {
      destination.Append([BACKSLASH, 'b' as int]);
    } else if value == 12 {
      destination.Append([BACKSLASH, 'f' as int]);
    } else if value == 10 {
      destination.Append([BACKSLASH, 'n' as int]);
    } else if value == 13 {
      destination.Append([BACKSLASH, 'r' as int]);
    } else if value == 9 {
      destination.Append([BACKSLASH, 't' as int]);
    } else if value < 0x20 {
      destination.Append([BACKSLASH, 'u' as int, 0x30, 0x30, Hex(value / 16), Hex(value % 16)]);
    } else {
      destination.Append([value]);
    }
  }

  /** appendVaultJSONString: on valid text the string is appended, and fills exactly the
      size computed for it; otherwise nothing is written. */
  method AppendString(destination: Payload, password: seq<byte>) returns (written: bool)
    requires destination.Valid()
    requires Utf8.Valid(password) ==>
               destination.length + |String(Decode(password).value)| <= destination.storage.Length
    modifies destination, destination.storage
    ensures destination.Valid() && written == Utf8.Valid(password)
    ensures destination.Contents() == old(destination.Contents()) +
            if written then String(Decode(password).value) else []
  {
    hide Decode, DecodeFirst, Escape, ReadTo, EscapeChar;
    if !Utf8.Valid(password) {
      return false;
    }
    ghost var before, text := destination.Contents(), Decode(password).value;
    destination.Append([QUOTE]);
    var offset := 0;
    ghost var read: seq<char> := [];
    ReadNothing(password);
    EscapeNothing();
    while offset < |password|
      invariant offset <= |password| && ReadTo(password, offset, read)
      invariant destination.Valid() && destination.Contents() == before + [QUOTE] + Escape(read)
      decreases |password| - offset
    {
      ghost var c := ReadOne(password, offset, read);
      ReadInBounds(password, offset + Size(c), read + [c]);
      EscapeAppend(read, c);
      var character := DecodeFirst(password[offset..]).value;
      AppendChar(destination, password[offset], character);
      assert before + [QUOTE] + Escape(read) + EscapeChar(c) == before + [QUOTE] + Escape(read + [c]);
      read := read + [c];
      offset := offset + Size(character);
    }
    ReadAll(password, read);
    destination.Append([QUOTE]);
    assert before + [QUOTE] + Escape(text) + [QUOTE] == before + String(text);
    written := true;
  }

  // ------------------------------------------------------------- whole requests

  /** zeroJSONField: a boolean if there is one, otherwise the value. */
  datatype Field = Field(name: seq<byte>, value: seq<byte>, boolean: Option<bool>)

  predicate WellFormed(f: Field) {
    Utf8.Valid(f.name) && (f.boolean.Some? || Utf8.Valid(f.value))
  }

  predicate AllWellFormed(fs: seq<Field>) {
    forall i :: 0 <= i < |fs| ==> WellFormed(fs[i])
  }

  function MemberOf(f: Field): Member
    requires WellFormed(f)
  {
    Member(Decode(f.name).value, if f.boolean.Some? then Bool(f.boolean.value) else Text(Decode(f.value).value))
  }

  function MembersOf(fs: seq<Field>): (ms: seq<Member>)
    requires AllWellFormed(fs)
    ensures |ms| == |fs|
    ensures forall i :: 0 <= i < |fs| ==> ms[i] == MemberOf(fs[i])
  {
    seq(|fs|, i requires 0 <= i < |fs| => MemberOf(fs[i]))
  }

  /** The comma before a member, unless it is the first. */
  function Comma(ms: seq<Member>): seq<byte> {
    if ms == [] then [] else [',' as int]
  }

  lemma {:induction false} MembersAppend(ms: seq<Member>, m: Member)
    ensures Members(ms + [m]) == Members(ms) + Comma(ms) + MemberBytes(m)
  {
    hide MemberBytes;
    if ms == [] {
      assert ms + [m] == [m];
    } else {
      var rest := ms[1..];
      MembersAppend(rest, m);
      assert (ms + [m])[1..] == rest + [m] && (ms + [m])[0] == ms[0];
    }
  }

  lemma {:induction false} MembersPrefix(ms: seq<Member>, k: nat)
    requires k <= |ms|
    ensures |Members(ms[..k])| <= |Members(ms)|
    decreases |ms| - k
  {
    hide Members;
    if k == |ms| {
      assert ms[..k] == ms;
    } else {
      assert ms[..k + 1] == ms[..k] + [ms[k]];
      MembersAppend(ms[..k], ms[k]);
      MembersPrefix(ms, k + 1);
    }
  }

  /** One field more: what the writer adds, and that there is room for it. */
  lemma NextMember(fs: seq<Field>, i: nat)
    requires i < |fs| && AllWellFormed(fs[..i + 1])
    ensures AllWellFormed(fs[..i]) && WellFormed(fs[i])
    ensures Members(MembersOf(fs[..i + 1])) ==
            Members(MembersOf(fs[..i])) + Comma(MembersOf(fs[..i])) + MemberBytes(MemberOf(fs[i]))
    ensures MembersOf(fs[..i]) == [] <==> i == 0
    ensures AllWellFormed(fs) ==> |Members(MembersOf(fs[..i + 1]))| <= |Members(MembersOf(fs))|
  {
    hide Members, MemberBytes;
    assert forall j :: 0 <= j < i ==> fs[..i][j] == fs[..i + 1][j];
    assert fs[i] == fs[..i + 1][i];
    assert MembersOf(fs[..i + 1]) == MembersOf(fs[..i]) + [MemberOf(fs[i])];
    MembersAppend(MembersOf(fs[..i]), MemberOf(fs[i]));
    if AllWellFormed(fs) {
      assert MembersOf(fs)[..i + 1] == MembersOf(fs[..i + 1]);
      MembersPrefix(MembersOf(fs), i + 1);
    }
  }

  lemma AppendWellFormed(fs: seq<Field>, i: nat)
    requires i < |fs| && AllWellFormed(fs[..i]) && WellFormed(fs[i])
    ensures AllWellFormed(fs[..i + 1])
  {
    assert forall j :: 0 <= j < i ==> fs[..i + 1][j] == fs[..i][j];
  }

  /** The total size: two braces, and each member with its comma. */
  method ObjectSize(fields: seq<Field>) returns (size: Result<nat, Failure>)
    ensures size.Ok? <==> AllWellFormed(fields)
    ensures size.Ok? ==> size.value == |Object(MembersOf(fields))|
    ensures size.Err? ==> size.error == InvalidText
  {
    hide Decode, Members;
    var total := 2;
    MembersEmpty();
    assert fields[..0] == [] && MembersOf([]) == [];
    for i := 0 to |fields|
      invariant AllWellFormed(fields[..i])
      invariant total == 2 + |Members(MembersOf(fields[..i]))|
    {
      var f := fields[i];
      var nameSize := StringSize(f.name);
      if nameSize.Err? {
        return Err(nameSize.error);
      }
      var valueSize := 5;
      if f.boolean.None? {
        var textSize := StringSize(f.value);
        if textSize.Err? {
          return Err(textSize.error);
        }
        valueSize := textSize.value;
      } else if f.boolean.value {
        valueSize := 4;
      }
      AppendWellFormed(fields, i);
      NextMember(fields, i);
      total := total + nameSize.value + 1 + valueSize;
      if i != 0 {
        total := total + 1;
      }
    }
    assert fields[..|fields|] == fields;
    size := Ok(total);
  }

  method AppendField(payload: Payload, f: Field)
    requires payload.Valid() && WellFormed(f)
    requires payload.length + |MemberBytes(MemberOf(f))| <= payload.storage.Length
    modifies payload, payload.storage
    ensures payload.Valid() && payload.Contents() == old(payload.Contents()) + MemberBytes(MemberOf(f))
  {
    hide Decode, String;
    ghost var before := payload.Contents();
    var written := AppendString(payload, f.name);
    payload.Append([':' as int]);
    if f.boolean.Some? {
      if f.boolean.value {
        payload.Append(Ascii("true"));
      } else {
        payload.Append(Ascii("false"));
      }
    } else {
      written := AppendString(payload, f.value);
    }
    var name, value := String(MemberOf(f).name), ValueBytes(MemberOf(f).value);
    assert before + name + [':' as int] + value == before + (name + [':' as int] + value);
  }

  lemma NoMembers(fields: seq<Field>)
    ensures AllWellFormed(fields[..0]) && Members(MembersOf(fields[..0])) == []
  {}

  lemma Regroup(before: seq<byte>, comma: seq<byte>, member: seq<byte>)
    ensures ['{' as int] + before + comma + member == ['{' as int] + (before + comma + member)
    ensures comma == [] ==> ['{' as int] + before + member == ['{' as int] + (before + comma + member)
  {}

  /** buildZeroJSON: refused exactly when a name or text is not valid UTF-8; otherwise the
      payload fills its buffer exactly and is read back as the fields, in order. The final
      length check never refuses. */
  method BuildZeroJson(fields: seq<Field>) returns (result: Result<seq<byte>, Failure>)
    ensures result == if AllWellFormed(fields) then Ok(Object(MembersOf(fields))) else Err(InvalidText)
    ensures result.Ok? ==> ReadObject(result.value) == Some(MembersOf(fields))
  {
    hide Decode, Members, ReadObject, MembersOf, MemberOf, MemberBytes;
    var total := ObjectSize(fields);
    if total.Err? {
      return Err(total.error);
    }
    ObjectRead(MembersOf(fields));
    var payload := new Payload(total.value);
    payload.Append(['{' as int]);
    NoMembers(fields);
    for i := 0 to |fields|
      invariant payload.Valid() && fresh(payload) && fresh(payload.storage) && payload.storage.Length == total.value
      invariant AllWellFormed(fields[..i])
      invariant payload.Contents() == ['{' as int] + Members(MembersOf(fields[..i]))
    {
      AppendWellFormed(fields, i);
      NextMember(fields, i);
      ghost var before, member := Members(MembersOf(fields[..i])), MemberBytes(MemberOf(fields[i]));
      if i != 0 {
        payload.Append([',' as int]);
      }
      AppendField(payload, fields[i]);
      Regroup(before, Comma(MembersOf(fields[..i])), member);
    }
    assert fields[..|fields|] == fields;
    payload.Append(['}' as int]);
    assert payload.storage[..payload.length] == Object(MembersOf(fields));
    result := if payload.length != payload.storage.Length then Err(SetupInput)
              else Ok(payload.storage[..payload.length]);
  }

  /** The request limit on a written object. */
  function Limited(ms: seq<Member>): Result<seq<byte>, Failure> {
    if |Object(ms)| > MAX_REQUEST_BODY then Err(RequestTooLarge) else Ok(Object(ms))
  }

  /** vaultPassphrasePayload. */
  method PassphrasePayload(password: seq<byte>) returns (result: Result<seq<byte>, Failure>)
    ensures if Utf8.Valid(password)
            then var members := [Member("passphrase", Text(Decode(password).value))];
                 result == Limited(members) && (result.Ok? ==> ReadObject(result.value) == Some(members))
            else result == Err(InvalidText)
  {
    hide Decode, String, ReadObject, Object, Ascii;
    var encoded := StringSize(password);
    if encoded.Err? {
      return Err(encoded.error);
    }
    ghost var text := Decode(password).value;
    ObjectRead([Member("passphrase", Text(text))]);
    var head := Ascii("{\"passphrase\":");
    PassphraseBytes(text);
    var total := |head| + encoded.value + 1;
    if total > MAX_REQUEST_BODY {
      return Err(RequestTooLarge);
    }
    var payload := new Payload(total);
    payload.Append(head);
    var written := AppendString(payload, password);
    payload.Append(['}' as int]);
    assert payload.Contents() == Object([Member("passphrase", Text(text))]);
    result := Ok(payload.storage[..payload.length]);
  }

  function ChangeMembers(current: seq<byte>, next: seq<byte>): seq<Member>
    requires Utf8.Valid(current) && Utf8.Valid(next)
  {
    [Member("current", Text(Decode(current).value)), Member("next", Text(Decode(next).value))]
  }

  /** vaultChangePayload. */
  method ChangePayload(current: seq<byte>, next: seq<byte>) returns (result: Result<seq<byte>, Failure>)
    ensures if Utf8.Valid(current) && Utf8.Valid(next)
            then result == Limited(ChangeMembers(current, next)) &&
                 (result.Ok? ==> ReadObject(result.value) == Some(ChangeMembers(current, next)))
            else result == Err(InvalidText)
  {
    hide Decode, String, ReadObject, Object, Ascii;
    var currentSize := StringSize(current);
    if currentSize.Err? {
      return Err(currentSize.error);
    }
    var nextSize := StringSize(next);
    if nextSize.Err? {
      return Err(nextSize.error);
    }
    ObjectRead(ChangeMembers(current, next));
    ChangeBytes(Decode(current).value, Decode(next).value);
    var total := |Ascii("{\"current\":")| + currentSize.value + |Ascii(",\"next\":")| + nextSize.value + 1;
    if total > MAX_REQUEST_BODY {
      return Err(RequestTooLarge);
    }
    var written := WriteChange(current, next, total);
    result := Ok(written);
  }

  method WriteChange(current: seq<byte>, next: seq<byte>, total: nat) returns (written: seq<byte>)
    requires Utf8.Valid(current) && Utf8.Valid(next) && total == |Object(ChangeMembers(current, next))|
    ensures written == Object(ChangeMembers(current, next))
  {
    hide Decode, String, Object, Ascii;
    ChangeBytes(Decode(current).value, Decode(next).value);
    var payload := new Payload(total);
    payload.Append(Ascii("{\"current\":"));
    var ok := AppendString(payload, current);
    payload.Append(Ascii(",\"next\":"));
    ok := AppendString(payload, next);
    payload.Append(['}' as int]);
    assert payload.Contents() == Object(ChangeMembers(current, next));
    written := payload.storage[..payload.length];
  }

  lemma PassphraseBytes(text: seq<char>)
    ensures Object([Member("passphrase", Text(text))]) == Ascii("{\"passphrase\":") + String(text) + ['}' as int]
  {
    hide String;
    PlainName("passphrase");
    assert Ascii("{\"passphrase\":") == ['{' as int] + ([QUOTE] + Ascii("passphrase") + [QUOTE]) + [':' as int];
  }

  lemma ChangeBytes(current: seq<char>, next: seq<char>)
    ensures Object([Member("current", Text(current)), Member("next", Text(next))])
            == Ascii("{\"current\":") + String(current) + Ascii(",\"next\":") + String(next) + ['}' as int]
  {
    hide String;
    PlainName("current");
    PlainName("next");
    var first, second := Member("current", Text(current)), Member("next", Text(next));
    assert [first, second][1..] == [second];
    assert Members([second]) == MemberBytes(second);
    assert Ascii("{\"current\":") == ['{' as int] + ([QUOTE] + Ascii("current") + [QUOTE]) + [':' as int];
    assert Ascii(",\"next\":") == [',' as int] + ([QUOTE] + Ascii("next") + [QUOTE]) + [':' as int];
  }

  lemma PlainName(name: string)
    requires forall i :: 0 <= i < |name| ==> 'A' <= name[i] <= 'Z' || 'a' <= name[i] <= 'z'
    ensures String(name) == [QUOTE] + Ascii(name) + [QUOTE]
  {
    PlainString(name);
  }
}
