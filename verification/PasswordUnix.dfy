/** Reading a password byte by byte from a Unix terminal, against an editor on characters. */
module PasswordUnix {
  import opened Wrappers
  import opened Utf8
  import opened PasswordMask

  // The reader edits a buffer of bytes. StepChar is an editor on whole characters; the two
  // agree on every text, at every character, together with the number of asterisks reported.

  const MAX_PASSWORD_BYTES: nat := 4096

  datatype Failure = Canceled | EndOfInput | TooLong | InvalidText

  // -------------------------------------------------------- the byte reader

  /** What one byte does to the buffer. */
  datatype Consumed = Edited(buffer: seq<byte>) | Submitted | Refused(failure: Failure)

  function ConsumeByte(buffer: seq<byte>, value: byte): Consumed {
    if value == 10 || value == 13 then Submitted
    else if value == 3 then Refused(Canceled)
    else if value == 4 then if buffer == [] then Refused(EndOfInput) else Submitted
    else if value == 8 || value == 0x7F then Edited(EraseLast(buffer))
    else if value == 0x15 then Edited([])
    else if value < 0x20 then Edited(buffer)
    else if |buffer| >= MAX_PASSWORD_BYTES then Refused(TooLong)
    else Edited(buffer + [value])
  }

  function EraseLast(buffer: seq<byte>): (r: seq<byte>)
    ensures |r| <= |buffer| && r == buffer[..|r|]
    ensures buffer != [] ==> |r| < |buffer|
  {
    if buffer == [] then []
    else
      var start := StartBefore(buffer, |buffer| - 1);
      if Valid(buffer[start..]) then buffer[..start] else buffer[..|buffer| - 1]
  }

  /** The number reported after an edit: the characters, once they are all whole. */
  function Reported(buffer: seq<byte>, before: nat): nat {
    match Decode(buffer)
    case Some(text) => |text|
    case None => before
  }

  /** The reader between two bytes, or what it returned. */
  datatype State =
    | Reading(buffer: seq<byte>, reported: nat)
    | Returned(result: Result<seq<byte>, Failure>, reported: nat)

  function StepByte(state: State, value: byte): State {
    match state
    case Returned(_, _) => state
    case Reading(buffer, reported) =>
      match ConsumeByte(buffer, value)
      case Edited(edited) => Reading(edited, Reported(edited, reported))
      case Submitted => Returned(Finish(buffer), Reported(buffer, reported))
      case Refused(failure) => Returned(Err(failure), reported)
  }

  function Finish(buffer: seq<byte>): Result<seq<byte>, Failure> {
    if Valid(buffer) then Ok(buffer) else Err(InvalidText)
  }

  function FeedBytes(state: State, input: seq<byte>): State
    decreases |input|
  {
    if input == [] then state else FeedBytes(StepByte(state, input[0]), input[1..])
  }

  // -------------------------------------------------- the editor on characters

  datatype Editor = Typing(text: seq<char>) | Closed(outcome: Result<seq<char>, Failure>, shown: nat)

  function StepChar(editor: Editor, c: char): Editor {
    match editor
    case Closed(_, _) => editor
    case Typing(text) =>
      var v := c as int;
      if v == 10 || v == 13 then Closed(Ok(text), |text|)
      else if v == 3 then Closed(Err(Canceled), |text|)
      else if v == 4 then Closed(if text == [] then Err(EndOfInput) else Ok(text), |text|)
      else if v == 8 || v == 0x7F then Typing(if text == [] then [] else text[..|text| - 1])
      else if v == 0x15 then Typing([])
      else if v < 0x20 then Typing(text)
      else if |Encode(text + [c])| > MAX_PASSWORD_BYTES then Closed(Err(TooLong), |text|)
      else Typing(text + [c])
  }

  function FeedChars(editor: Editor, input: seq<char>): Editor
    decreases |input|
  {
    if input == [] then editor else FeedChars(StepChar(editor, input[0]), input[1..])
  }

  /** The reader that holds exactly what the editor holds. */
  function Represented(editor: Editor): State {
    match editor
    case Typing(text) => Reading(Encode(text), |text|)
    case Closed(Ok(text), shown) => Returned(Ok(Encode(text)), shown)
    case Closed(Err(failure), shown) => Returned(Err(failure), shown)
  }

  predicate Fits(editor: Editor) {
    editor.Typing? ==> |Encode(editor.text)| <= MAX_PASSWORD_BYTES
  }

  // ------------------------------------------------------------- the refinement

  lemma {:induction false} FeedConcat(state: State, a: seq<byte>, b: seq<byte>)
    ensures FeedBytes(state, a + b) == FeedBytes(FeedBytes(state, a), b)
    decreases |a|
  {
    if a == [] {
      assert a + b == b;
    } else {
      assert (a + b)[1..] == a[1..] + b;
      FeedConcat(StepByte(state, a[0]), a[1..], b);
    }
  }

  lemma StartOfLast(s: seq<char>, c: char, k: nat)
    requires k < Size(c)
    ensures StartBefore(Encode(s) + EncodeChar(c), |Encode(s)| + k) == |Encode(s)|
  {
    var b := Encode(s) + EncodeChar(c);
    assert b[|Encode(s)| + k] == EncodeChar(c)[k];
    if k > 0 {
      StartOfLast(s, c, k - 1);
    }
  }

  lemma EncodeOne(c: char)
    ensures Encode([c]) == EncodeChar(c)
  {
    assert Encode([c]) == EncodeChar(c) + Encode([c][1..]);
  }

  /** Erasing removes exactly the last character, or a byte that is part of none, of any buffer. */
  lemma EraseLastSymbol(buffer: seq<byte>)
    requires buffer != []
    ensures Symbols(buffer) != [] && Symbols(EraseLast(buffer)) == Symbols(buffer)[..|Symbols(buffer)| - 1]
  {
    LastCut(buffer);
    ErasedSize(buffer);
    hide *;
  }

  lemma ErasedSize(buffer: seq<byte>)
    requires buffer != []
    ensures EraseLast(buffer) == buffer[..|buffer| - LastSize(Tail(buffer))]
  {
    hide LastSize, Decode, StartBefore;
    TailValid(Tail(buffer));
  }

  /** The bytes behind the last start are valid exactly when they are one character. */
  lemma TailValid(t: seq<byte>)
    requires t != [] && forall i :: 1 <= i < |t| ==> Continuation(t[i])
    ensures LastSize(t) == if Utf8.Valid(t) then |t| else 1
  {
    hide DecodeFirst;
    var first := DecodeFirst(t);
    if first.Some? {
      var rest := t[Size(first.value)..];
      assert Utf8.Valid(t) <==> Utf8.Valid(rest);
      if rest != [] {
        StraysInvalid(rest);
      }
    }
  }

  lemma StraysInvalid(b: seq<byte>)
    requires b != [] && Continuation(b[0])
    ensures !Utf8.Valid(b)
  {}

  /** The number reported is that of the symbols, once none of them is a stray byte. */
  lemma ReportedDecided(buffer: seq<byte>, before: nat)
    ensures Reported(buffer, before) ==
            if forall i :: 0 <= i < |Symbols(buffer)| ==> Symbols(buffer)[i].Whole? then |Symbols(buffer)| else before
  {
    ValidDecided(buffer);
  }

  /** Erasing removes exactly the last character of a text of whole characters. */
  lemma EraseLastCharacter(s: seq<char>, c: char)
    ensures EraseLast(Encode(s + [c])) == Encode(s)
  {
    hide Encode, EncodeChar, Decode;
    EncodeAppend(s, c);
    var b := Encode(s) + EncodeChar(c);
    StartOfLast(s, c, Size(c) - 1);
    assert b[|Encode(s)|..] == EncodeChar(c);
    EncodeOne(c);
    DecodeEncoded([c]);
  }

  lemma EraseLastOf(text: seq<char>)
    ensures EraseLast(Encode(text)) == Encode(if text == [] then [] else text[..|text| - 1])
  {
    if text != [] {
      assert text == text[..|text| - 1] + [text[|text| - 1]];
      EraseLastCharacter(text[..|text| - 1], text[|text| - 1]);
    }
  }

  /** The bytes of a character of several bytes, from the k-th on: the count changes only
      with the last one, and the limit is met exactly when the character does not fit. */
  lemma {:induction false} FeedRestOfCharacter(text: seq<char>, c: char, k: nat)
    requires k < Size(c) && c as int >= 0x80 && |Encode(text)| + k <= MAX_PASSWORD_BYTES
    ensures FeedBytes(Reading(Encode(text) + EncodeChar(c)[..k], |text|), EncodeChar(c)[k..])
            == Represented(StepChar(Typing(text), c))
    decreases Size(c) - k
  {
    var e, start := EncodeChar(c), Reading(Encode(text) + EncodeChar(c)[..k], |text|);
    EncodeAppend(text, c);
    assert e[k] >= 0x80;
    var next := StepByte(start, e[k]);
    assert e[k..][0] == e[k] && e[k..][1..] == e[k + 1..];
    if |start.buffer| >= MAX_PASSWORD_BYTES {
      assert next == Returned(Err(TooLong), |text|);
      FeedReturned(next, e[k + 1..]);
    } else {
      assert start.buffer + [e[k]] == Encode(text) + e[..k + 1];
      if k + 1 == Size(c) {
        assert e[..k + 1] == e && e[k + 1..] == [];
        DecodeEncoded(text + [c]);
        assert next == Reading(Encode(text + [c]), |text| + 1);
      } else {
        CutCharacterInvalid(text, c, k + 1);
        FeedRestOfCharacter(text, c, k + 1);
      }
    }
  }

  lemma {:induction false} FeedReturned(state: State, input: seq<byte>)
    requires state.Returned?
    ensures FeedBytes(state, input) == state
    decreases |input|
  {
    if input != [] {
      FeedReturned(state, input[1..]);
    }
  }

  /** One whole character moves the reader as it moves the editor. */
  lemma FeedCharacter(editor: Editor, c: char)
    requires Fits(editor)
    ensures FeedBytes(Represented(editor), EncodeChar(c)) == Represented(StepChar(editor, c))
    ensures Fits(StepChar(editor, c))
  {
    if editor.Closed? {
      FeedReturned(Represented(editor), EncodeChar(c));
    } else if c as int >= 0x80 {
      assert Encode(editor.text) + EncodeChar(c)[..0] == Encode(editor.text);
      assert EncodeChar(c)[0..] == EncodeChar(c);
      FeedRestOfCharacter(editor.text, c, 0);
    } else {
      FeedAscii(editor.text, c);
      var next := StepByte(Represented(editor), c as int);
      assert EncodeChar(c) == [c as int];
      assert FeedBytes(Represented(editor), EncodeChar(c)) == FeedBytes(next, []);
    }
  }

  lemma FeedAscii(text: seq<char>, c: char)
    requires c as int < 0x80 && |Encode(text)| <= MAX_PASSWORD_BYTES
    ensures StepByte(Reading(Encode(text), |text|), c as int) == Represented(StepChar(Typing(text), c))
    ensures Fits(StepChar(Typing(text), c))
  {
    hide Encode, Decode, EncodeChar, EraseLast;
    var v := c as int;
    DecodeEncoded(text);
    if v == 8 || v == 0x7F {
      EraseLastOf(text);
      DecodeEncoded(if text == [] then [] else text[..|text| - 1]);
    } else if v == 0x15 {
      DecodeEncoded([]);
    } else if v >= 0x20 {
      EncodeAppend(text, c);
      EncodeAsciiChar(c);
      DecodeEncoded(text + [c]);
    }
    EncodeEmpty();
  }

  lemma EncodeAsciiChar(c: char)
    requires c as int < 0x80
    ensures EncodeChar(c) == [c as int]
  {}

  lemma EncodeEmpty()
    ensures Encode([]) == [] && forall text :: Encode(text) == [] ==> text == []
  {}

  /** On every text, whatever it mixes, the bytes held, the asterisks reported and the
      outcome are those of the editor on characters: after each whole character, since
      every prefix is such a text. */
  lemma {:induction false} ReaderRefinesEditor(editor: Editor, input: seq<char>)
    requires Fits(editor)
    ensures FeedBytes(Represented(editor), Encode(input)) == Represented(FeedChars(editor, input))
    ensures Fits(FeedChars(editor, input))
    decreases |input|
  {
    if input != [] {
      FeedCharacter(editor, input[0]);
      FeedConcat(Represented(editor), EncodeChar(input[0]), Encode(input[1..]));
      ReaderRefinesEditor(StepChar(editor, input[0]), input[1..]);
    }
  }

  /** From the first byte on, on any bytes at all, the buffer stays within its capacity. */
  lemma {:induction false} NeverTooLong(state: State, input: seq<byte>)
    requires state.Reading? ==> |state.buffer| <= MAX_PASSWORD_BYTES
    ensures var after := FeedBytes(state, input);
            after.Reading? ==> |after.buffer| <= MAX_PASSWORD_BYTES
    decreases |input|
  {
    if input != [] {
      NeverTooLong(StepByte(state, input[0]), input[1..]);
    }
  }

  // ------------------------------------------------------- the reader in place

  /** The fixed buffer of readUnixPasswordBytesWithFeedback. Bytes past `length` are
      zero: what was erased does not stay in memory. */
  class PasswordBuffer {
    const storage: array<byte>
    var length: nat

    ghost predicate Valid()
      reads this, storage
    {
      && storage.Length == MAX_PASSWORD_BYTES
      && length <= storage.Length
      && forall i :: length <= i < storage.Length ==> storage[i] == 0
    }

    ghost function Contents(): (r: seq<byte>)
      reads this, storage
      requires Valid()
      ensures |r| <= MAX_PASSWORD_BYTES
    {
      storage[..length]
    }

    constructor ()
      ensures Valid() && fresh(storage) && Contents() == []
    {
      storage := new byte[MAX_PASSWORD_BYTES](_ => 0);
      length := 0;
    }

    /** clear(password[start:]) and password[:start]. */
    method Truncate(start: nat)
      requires Valid() && start <= length
      modifies this, storage
      ensures Valid() && Contents() == old(Contents())[..start]
    {
      for i := start to length
        invariant length == old(length) && forall j :: start <= j < i ==> storage[j] == 0
        invariant storage[..start] == old(storage[..start])
        invariant forall j :: length <= j < storage.Length ==> storage[j] == 0
      {
        storage[i] := 0;
      }
      length := start;
    }

    method EraseLastRune()
      requires Valid()
      modifies this, storage
      ensures Valid() && Contents() == EraseLast(old(Contents()))
    {
      hide Decode;
      if length == 0 {
        return;
      }
      var start := length - 1;
      while start > 0 && !RuneStart(storage[start])
        invariant 0 <= start < length == old(length)
        invariant Contents() == old(Contents())
        invariant StartBefore(Contents(), start) == StartBefore(Contents(), length - 1)
      {
        start := start - 1;
      }
      assert Contents()[start..] == storage[start..length];
      if !Utf8.Valid(storage[start..length]) {
        start := length - 1;
      }
      Truncate(start);
    }

    method Consume(value: byte) returns (done: bool, failure: Option<Failure>)
      requires Valid()
      modifies this, storage
      ensures Valid()
      ensures match ConsumeByte(old(Contents()), value)
              case Edited(buffer) => !done && failure == None && Contents() == buffer
              case Submitted => done && failure == None && Contents() == old(Contents())
              case Refused(f) => !done && failure == Some(f) && Contents() == old(Contents())
    {
      done, failure := false, None;
      if value == 10 || value == 13 {
        done := true;
      } else if value == 3 {
        failure := Some(Canceled);
      } else if value == 4 {
        if length == 0 {
          failure := Some(EndOfInput);
        } else {
          assert Contents() != [];
          done := true;
        }
      } else if value == 8 || value == 0x7F {
        EraseLastRune();
      } else if value == 0x15 {
        Truncate(0);
      } else if value >= 0x20 {
        if length >= MAX_PASSWORD_BYTES {
          failure := Some(TooLong);
        } else {
          storage[length] := value;
          length := length + 1;
        }
      }
    }

    /** reportPasswordRunes, with the prompt as the feedback. */
    method Report(reported: nat, prompt: MaskedPrompt) returns (now: nat)
      requires Valid() && prompt.Valid() && prompt.maskCount == reported
      modifies prompt
      ensures Valid() && Contents() == old(Contents())
      ensures prompt.Valid() && prompt.maskCount == now == Reported(Contents(), reported)
    {
      now := reported;
      var decoded := Decode(storage[..length]);
      if decoded.Some? && |decoded.value| != reported {
        prompt.Feedback(|decoded.value|);
        now := |decoded.value|;
      }
    }
  }

  /** The read loop, on a terminal that delivers these bytes and then ends. What it
      returns and what the line shows are those of the state machine above. Nothing of a
      refused password is left in the buffer. */
  method ReadPassword(input: seq<byte>, prompt: MaskedPrompt)
    returns (result: Result<seq<byte>, Failure>, buffer: PasswordBuffer)
    requires prompt.Valid() && prompt.maskCount == 0
    modifies prompt
    ensures prompt.Valid() && buffer.Valid()
    ensures var end := FeedBytes(Reading([], 0), input);
            prompt.maskCount == end.reported &&
            result == if end.Returned? then end.result else Err(EndOfInput)
    ensures match result
            case Ok(password) => buffer.Contents() == password
            case Err(_) => buffer.Contents() == []
  {
    buffer := new PasswordBuffer();
    var reported := 0;
    ghost var state := Reading([], 0);
    for i := 0 to |input|
      invariant buffer.Valid() && fresh(buffer) && fresh(buffer.storage)
      invariant prompt.Valid() && prompt.maskCount == reported
      invariant state == Reading(buffer.Contents(), reported)
      invariant FeedBytes(Reading([], 0), input) == FeedBytes(state, input[i..])
    {
      assert input[i..][0] == input[i] && input[i..][1..] == input[i + 1..];
      state := StepByte(state, input[i]);
      var done, failure := buffer.Consume(input[i]);
      if failure.Some? {
        FeedReturned(state, input[i + 1..]);
        buffer.Truncate(0);
        return Err(failure.value), buffer;
      }
      reported := buffer.Report(reported, prompt);
      if done {
        FeedReturned(state, input[i + 1..]);
        if Utf8.Valid(buffer.storage[..buffer.length]) {
          return Ok(buffer.storage[..buffer.length]), buffer;
        }
        buffer.Truncate(0);
        return Err(InvalidText), buffer;
      }
    }
    buffer.Truncate(0);
    result := Err(EndOfInput);
  }
}
