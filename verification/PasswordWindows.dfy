/** Reading a password key by key from a Windows console, on every stream of key events. */
module PasswordWindows {
  import opened Wrappers
  import opened Utf16
  import U8 = Utf8
  import opened PasswordMask

  // Keys carry UTF-16 units. StepPress is an editor on characters and lone halves of surrogate
  // pairs; the reader holds what it holds, counts what it counts, and at the end returns the
  // UTF-8 of its text, or refuses exactly the input that is ill-formed or too long.

  const MAX_PASSWORD: nat := 4096
  const VK_RETURN := 0x0D
  const VK_BACK := 0x08
  const VK_DELETE := 0x2E

  datatype Failure = Canceled | EndOfInput | TooLong | InvalidText

  /** One key event; `control` says that a Ctrl key is down. */
  datatype Key = Key(keyDown: bool, repeat: unit16, virtualKey: unit16, unicodeChar: unit16, control: bool)

  datatype Consumed = Edited(units: seq<unit16>) | Submitted | Refused(failure: Failure)

  /** Its key code is that of the letter, or 32 more: for C, D and U the numeric keypad's 3 and
      4, and F6. */
  predicate Letter(key: Key, upper: char) {
    key.virtualKey == upper as int || key.virtualKey == upper as int + 32
  }

  predicate Enters(key: Key) {
    key.virtualKey == VK_RETURN || key.unicodeChar == 13 || key.unicodeChar == 10
  }

  predicate Cancels(key: Key) {
    key.unicodeChar == 3 || (key.control && Letter(key, 'C'))
  }

  predicate Ends(key: Key) {
    key.unicodeChar == 4 || (key.control && Letter(key, 'D'))
  }

  predicate Erases(key: Key) {
    key.virtualKey == VK_BACK || key.virtualKey == VK_DELETE || key.unicodeChar == 8 || key.unicodeChar == 0x7F
  }

  predicate Clears(key: Key) {
    key.unicodeChar == 0x15 || (key.control && Letter(key, 'U'))
  }

  function Repeats(key: Key): (n: nat)
    ensures 1 <= n < 0x10000
  {
    if key.repeat == 0 then 1 else key.repeat
  }

  function EraseLast(units: seq<unit16>): (r: seq<unit16>)
    ensures |r| <= |units| && r == units[..|r|]
  {
    if units == [] then []
    else
      var last := |units| - 1;
      if last > 0 && Low(units[last]) && High(units[last - 1]) then units[..last - 1] else units[..last]
  }

  function EraseTimes(units: seq<unit16>, n: nat): (r: seq<unit16>)
    ensures |r| <= |units| && r == units[..|r|]
  {
    if n == 0 then units else EraseTimes(EraseLast(units), n - 1)
  }

  function ConsumeKey(units: seq<unit16>, key: Key): Consumed {
    if !key.keyDown then Edited(units)
    else if Enters(key) then Submitted
    else if Cancels(key) then Refused(Canceled)
    else if Ends(key) then (if units == [] then Refused(EndOfInput) else Submitted)
    else if Erases(key) then Edited(EraseTimes(units, Repeats(key)))
    else if Clears(key) then Edited([])
    else if key.unicodeChar < 0x20 then Edited(units)
    else if |units| + Repeats(key) > MAX_PASSWORD then Refused(TooLong)
    else Edited(units + Repeated(key.unicodeChar, Repeats(key)))
  }

  /** What windowsPasswordRuneCount counts: a pair is one, any other unit is one. */
  function RuneCount(units: seq<unit16>): (n: nat)
    ensures n <= |units|
  {
    if units == [] then 0
    else if |units| >= 2 && High(units[0]) && Low(units[1]) then 1 + RuneCount(units[2..])
    else 1 + RuneCount(units[1..])
  }

  lemma RuneCountStep(units: seq<unit16>, index: nat)
    requires index < |units|
    ensures var n := if index + 1 < |units| && High(units[index]) && Low(units[index + 1]) then 2 else 1;
            RuneCount(units[index..]) == 1 + RuneCount(units[index + n..])
  {
    var rest := units[index..];
    assert rest[1..] == units[index + 1..];
    if |rest| >= 2 {
      assert rest[2..] == units[index + 2..];
    }
  }

  // ----------------------------------------------------------------- encoding

  /** encodeWindowsPassword from the point where `used` is already written. */
  function EncodeFrom(units: seq<unit16>, used: seq<U8.byte>): Result<seq<U8.byte>, Failure>
    decreases |units|
  {
    if units == [] then Ok(used)
    else
      var first := DecodeFirst(units);
      if first.None? then Err(InvalidText)
      else if |used| + U8.Size(first.value) > MAX_PASSWORD then Err(TooLong)
      else EncodeFrom(units[Units(first.value)..], used + U8.EncodeChar(first.value))
  }

  /** The encoder succeeds exactly on well-formed UTF-16 whose UTF-8 fits, and returns
      that UTF-8; which refusal it gives is decided by the text before the first flaw. */
  lemma {:induction false} EncoderDecided(units: seq<unit16>, used: seq<U8.byte>)
    requires |used| <= MAX_PASSWORD
    ensures var text := Start(units);
            EncodeFrom(units, used) ==
            if |used| + |U8.Encode(text)| > MAX_PASSWORD then Err(TooLong)
            else if !WellFormed(units) then Err(InvalidText)
            else Ok(used + U8.Encode(text))
    decreases |units|
  {
    hide U8.EncodeChar, EncodeChar, Pair;
    var first := DecodeFirst(units);
    if units == [] {
      assert used + U8.Encode([]) == used;
    } else if first.Some? {
      var c := first.value;
      var rest := units[Units(c)..];
      var text := Start(rest);
      var whole := [c] + text;
      assert Start(units) == whole && whole[1..] == text;
      assert U8.Encode(whole) == U8.EncodeChar(c) + U8.Encode(text);
      assert Encode(whole) == EncodeChar(c) + Encode(text);
      assert units == EncodeChar(c) + rest;
      SameTail(EncodeChar(c), Encode(text), rest);
      Associative(used, U8.EncodeChar(c), U8.Encode(text));
      if |used| + U8.Size(c) <= MAX_PASSWORD {
        EncoderDecided(rest, used + U8.EncodeChar(c));
      }
    }
  }

  lemma SameTail(a: seq<unit16>, b: seq<unit16>, c: seq<unit16>)
    ensures a + b == a + c <==> b == c
  {
    if a + b == a + c {
      assert b == (a + b)[|a|..] == (a + c)[|a|..] == c;
    }
  }

  // -------------------------------------------------------------- the reader

  datatype State = Reading(units: seq<unit16>) | Returned(result: Result<seq<U8.byte>, Failure>, shown: nat)

  function Shown(state: State): nat {
    match state
    case Reading(units) => RuneCount(units)
    case Returned(_, shown) => shown
  }

  function StepKey(state: State, key: Key): State {
    match state
    case Returned(_, _) => state
    case Reading(units) =>
      match ConsumeKey(units, key)
      case Edited(edited) => Reading(edited)
      case Submitted => Returned(EncodeFrom(units, []), RuneCount(units))
      case Refused(failure) => Returned(Err(failure), RuneCount(units))
  }

  function FeedKeys(state: State, keys: seq<Key>): State
    decreases |keys|
  {
    if keys == [] then state else FeedKeys(StepKey(state, keys[0]), keys[1..])
  }

  // --------------------------------------------------- the editor on characters

  /** What is typed: a whole character, or half of a surrogate pair that stands alone. */
  datatype Symbol = Whole(c: char) | Lone(u: unit16)

  function Single(u: unit16): Symbol {
    if High(u) || Low(u) then Lone(u) else Whole(u as char)
  }

  /** What a key does, the first of its meanings that fits: by its code, by its character or
      with Ctrl. Released keys, and Shift or Tab going down, do nothing. */
  datatype Press = Type(u: unit16, times: nat) | Erase(times: nat) | Clear | Enter | Cancel | EndInput | Ignored

  function PressOf(key: Key): Press {
    if !key.keyDown then Ignored
    else if Enters(key) then Enter
    else if Cancels(key) then Cancel
    else if Ends(key) then EndInput
    else if Erases(key) then Erase(Repeats(key))
    else if Clears(key) then Clear
    else if key.unicodeChar < 0x20 then Ignored
    else Type(key.unicodeChar, Repeats(key))
  }

  datatype Editor = Typing(text: seq<Symbol>) | Closed(result: Result<seq<U8.byte>, Failure>, shown: nat)

  /** A low half behind a lone high half completes the character; all else is added. */
  function Join(text: seq<Symbol>, u: unit16): (r: seq<Symbol>)
    ensures |text| <= |r| <= |text| + 1 && r != []
    ensures r[|r| - 1].Lone? ==> r[|r| - 1] == Single(u)
  {
    var last := |text| - 1;
    if text != [] && text[last].Lone? && High(text[last].u) && Low(u) then text[..last] + [Whole(Pair(text[last].u, u))]
    else text + [Single(u)]
  }

  function JoinTimes(text: seq<Symbol>, u: unit16, n: nat): seq<Symbol> {
    if n == 0 then text else Join(JoinTimes(text, u, n - 1), u)
  }

  function Without(text: seq<Symbol>, n: nat): seq<Symbol> {
    if |text| <= n then [] else text[..|text| - n]
  }

  /** The units that a text takes. */
  function Size(text: seq<Symbol>): nat {
    if text == [] then 0 else (if text[0].Whole? then Units(text[0].c) else 1) + Size(text[1..])
  }

  /** The characters before the first lone half. */
  function Leading(text: seq<Symbol>): (r: seq<char>)
    ensures |r| <= |text| && forall i :: 0 <= i < |r| ==> text[i] == Whole(r[i])
    ensures |r| < |text| ==> text[|r|].Lone?
  {
    if text == [] || text[0].Lone? then [] else [text[0].c] + Leading(text[1..])
  }

  function Submit(text: seq<Symbol>): Result<seq<U8.byte>, Failure> {
    var bytes := U8.Encode(Leading(text));
    if |bytes| > MAX_PASSWORD then Err(TooLong)
    else if |Leading(text)| < |text| then Err(InvalidText)
    else Ok(bytes)
  }

  function StepPress(editor: Editor, press: Press): Editor {
    match editor
    case Closed(_, _) => editor
    case Typing(text) =>
      match press
      case Type(u, times) =>
        if Size(text) + times > MAX_PASSWORD then Closed(Err(TooLong), |text|) else Typing(JoinTimes(text, u, times))
      case Erase(times) => Typing(Without(text, times))
      case Clear => Typing([])
      case Enter => Closed(Submit(text), |text|)
      case Cancel => Closed(Err(Canceled), |text|)
      case EndInput => Closed(if text == [] then Err(EndOfInput) else Submit(text), |text|)
      case Ignored => editor
  }

  function PressKeys(editor: Editor, keys: seq<Key>): Editor
    decreases |keys|
  {
    if keys == [] then editor else PressKeys(StepPress(editor, PressOf(keys[0])), keys[1..])
  }

  // ------------------------------------------------------------ the refinement

  /** What the units stand for, read from the front. */
  function Symbols(units: seq<unit16>): seq<Symbol> {
    if units == [] then []
    else if |units| >= 2 && High(units[0]) && Low(units[1]) then [Whole(Pair(units[0], units[1]))] + Symbols(units[2..])
    else [Single(units[0])] + Symbols(units[1..])
  }

  function Seen(state: State): Editor {
    match state
    case Reading(units) => Typing(Symbols(units))
    case Returned(result, shown) => Closed(result, shown)
  }

  /** On any units the count is the number of characters and lone halves. */
  lemma {:induction false} RuneCountDecided(units: seq<unit16>)
    ensures RuneCount(units) == |Symbols(units)| && Size(Symbols(units)) == |units|
  {
    if units != [] {
      var n := if |units| >= 2 && High(units[0]) && Low(units[1]) then 2 else 1;
      var rest := Symbols(units[n..]);
      RuneCountDecided(units[n..]);
      assert Symbols(units) == [Symbols(units)[0]] + rest && Symbols(units)[1..] == rest;
    }
  }

  /** Reading from the front, a unit that is added joins only the last symbol. */
  lemma {:induction false} AppendUnit(units: seq<unit16>, u: unit16)
    ensures Symbols(units + [u]) == Join(Symbols(units), u)
  {
    hide EncodeChar, Pair;
    var longer := units + [u];
    if units == [] {
      assert longer == [u] && [u][1..] == [];
    } else if |units| == 1 {
      assert longer == [units[0], u] && units[1..] == [] && longer[1..] == [u] && longer[2..] == [] && [u][1..] == [];
    } else {
      var n := if High(units[0]) && Low(units[1]) then 2 else 1;
      assert longer[0] == units[0] && longer[1] == units[1] && longer[n..] == units[n..] + [u];
      AppendUnit(units[n..], u);
      JoinBehind(Symbols(units)[0], Symbols(units[n..]), u);
    }
  }

  lemma JoinBehind(first: Symbol, text: seq<Symbol>, u: unit16)
    requires text == [] ==> first.Whole? || !High(first.u)
    ensures Join([first] + text, u) == [first] + Join(text, u)
  {
    var whole := [first] + text;
    assert whole[|whole| - 1] == if text == [] then first else text[|text| - 1];
    if text != [] {
      assert whole[..|whole| - 1] == [first] + text[..|text| - 1];
    }
  }

  /** One erase removes exactly the last character, or a lone half, whatever is held. */
  lemma EraseLastSymbol(units: seq<unit16>)
    ensures Symbols(EraseLast(units)) == Without(Symbols(units), 1)
  {
    hide Symbols;
    if units == [] {
      RuneCountDecided(units);
    } else {
      var last := |units| - 1;
      var before := units[..last];
      assert units == before + [units[last]];
      AppendUnit(before, units[last]);
      LastUnit(before);
      if EraseLast(units) != before {
        var earlier := units[..last - 1];
        assert before == earlier + [units[last - 1]];
        AppendUnit(earlier, units[last - 1]);
      }
    }
  }

  /** A lone half at the end of the symbols is the last unit. */
  lemma LastUnit(units: seq<unit16>)
    ensures var text := Symbols(units);
            && (units == [] ==> text == [])
            && (text != [] && text[|text| - 1].Lone? ==> units != [] && text[|text| - 1].u == units[|units| - 1])
  {
    if units != [] {
      hide Symbols, Pair;
      var before, last := units[..|units| - 1], units[|units| - 1];
      assert units == before + [last];
      AppendUnit(before, last);
    }
  }

  lemma {:induction false} EraseTimesSymbols(units: seq<unit16>, n: nat)
    ensures Symbols(EraseTimes(units, n)) == Without(Symbols(units), n)
    decreases n
  {
    hide Symbols, EraseLast;
    if n > 0 {
      EraseLastSymbol(units);
      EraseTimesSymbols(EraseLast(units), n - 1);
    }
  }

  lemma {:induction false} AppendTimes(units: seq<unit16>, u: unit16, n: nat)
    ensures Symbols(units + Repeated(u, n)) == JoinTimes(Symbols(units), u, n)
    decreases n
  {
    hide Symbols, Join;
    if n == 0 {
      assert units + Repeated(u, 0) == units;
    } else {
      AppendTimes(units, u, n - 1);
      AppendUnit(units + Repeated(u, n - 1), u);
      assert units + Repeated(u, n) == (units + Repeated(u, n - 1)) + [u];
    }
  }

  /** Well-formed units are those without a lone half, and their text is the characters. */
  lemma {:induction false} StartDecided(units: seq<unit16>)
    ensures Start(units) == Leading(Symbols(units))
    ensures WellFormed(units) <==> |Start(units)| == |Symbols(units)|
    decreases |units|
  {
    hide EncodeChar, Pair;
    var first := DecodeFirst(units);
    if first.Some? {
      var c := first.value;
      var rest, text := units[Units(c)..], Start(units[Units(c)..]);
      StartDecided(rest);
      var whole := [c] + text;
      assert Symbols(units) == [Whole(c)] + Symbols(rest) && Symbols(units)[1..] == Symbols(rest) by {
        FirstSymbol(units);
      }
      assert Start(units) == whole && whole[1..] == text;
      assert Encode(whole) == EncodeChar(c) + Encode(text) && units == EncodeChar(c) + rest;
      SameTail(EncodeChar(c), Encode(text), rest);
    } else if units != [] {
      FirstSymbol(units);
    }
  }

  lemma FirstSymbol(units: seq<unit16>)
    requires units != []
    ensures var first := DecodeFirst(units);
            if first.None? then Symbols(units)[0].Lone?
            else Symbols(units) == [Whole(first.value)] + Symbols(units[Units(first.value)..])
  {
    hide EncodeChar;
  }

  lemma SubmitDecided(units: seq<unit16>)
    ensures EncodeFrom(units, []) == Submit(Symbols(units))
  {
    EncoderDecided(units, []);
    StartDecided(units);
    assert [] + U8.Encode(Start(units)) == U8.Encode(Start(units));
  }

  lemma {:induction false} FeedReturned(state: State, keys: seq<Key>)
    requires state.Returned?
    ensures FeedKeys(state, keys) == state
    decreases |keys|
  {
    if keys != [] {
      FeedReturned(state, keys[1..]);
    }
  }

  lemma FeedTwo(state: State, a: Key, b: Key)
    ensures FeedKeys(state, [a, b]) == StepKey(StepKey(state, a), b)
  {
    assert [a, b][1..] == [b] && [b][1..] == [];
    assert FeedKeys(StepKey(state, a), [b]) == StepKey(StepKey(state, a), b);
  }

  /** One key moves the reader as its press moves the editor. */
  lemma FeedKey(state: State, key: Key)
    ensures Seen(StepKey(state, key)) == StepPress(Seen(state), PressOf(key))
  {
    hide Symbols, RuneCount, EncodeFrom, EraseTimes, Submit, JoinTimes, Without, Size;
    if state.Reading? {
      var units := state.units;
      RuneCountDecided(units);
      SubmitDecided(units);
      EraseTimesSymbols(units, Repeats(key));
      AppendTimes(units, key.unicodeChar, Repeats(key));
      NoSymbols(units);
    }
  }

  lemma NoSymbols(units: seq<unit16>)
    ensures Symbols(units) == [] <==> units == []
    ensures Symbols([]) == []
  {}

  /** On every stream of key events the reader holds, and shows, what the editor does, and
      returns what the editor returns. */
  lemma {:induction false} ReaderRefinesEditor(state: State, keys: seq<Key>)
    ensures var after := PressKeys(Seen(state), keys);
            Seen(FeedKeys(state, keys)) == after &&
            Shown(FeedKeys(state, keys)) == if after.Typing? then |after.text| else after.shown
    decreases |keys|
  {
    hide Symbols, RuneCount, ConsumeKey, StepPress, PressOf;
    if keys == [] {
      if state.Reading? { RuneCountDecided(state.units); }
    } else {
      FeedKey(state, keys[0]);
      ReaderRefinesEditor(StepKey(state, keys[0]), keys[1..]);
    }
  }

  // -------------------------------------------------------------- typing a text

  function Wholes(s: seq<char>): (r: seq<Symbol>)
    ensures |r| == |s| && forall i :: 0 <= i < |s| ==> r[i] == Whole(s[i])
  {
    seq(|s|, i requires 0 <= i < |s| => Whole(s[i]))
  }

  /** The units of a text stand for its characters. */
  lemma {:induction false} SymbolsOfEncoded(s: seq<char>)
    ensures Symbols(Encode(s)) == Wholes(s)
  {
    hide EncodeChar;
    if s != [] {
      var u, rest := Encode(s), Encode(s[1..]);
      DecodeFirstOfEncoded(s[0], rest);
      FirstSymbol(u);
      assert u[Units(s[0])..] == rest;
      SymbolsOfEncoded(s[1..]);
    }
  }

  /** The events that do something. */
  function Effective(keys: seq<Key>): seq<Key> {
    if keys == [] then []
    else (if PressOf(keys[0]).Ignored? then [] else [keys[0]]) + Effective(keys[1..])
  }

  /** Ignored events make no difference, wherever they are. */
  lemma {:induction false} FeedEffective(state: State, keys: seq<Key>)
    ensures FeedKeys(state, keys) == FeedKeys(state, Effective(keys))
    decreases |keys|
  {
    if keys != [] {
      var first, rest := keys[0], Effective(keys[1..]);
      FeedEffective(StepKey(state, first), keys[1..]);
      if PressOf(first).Ignored? {
        assert StepKey(state, first) == state && Effective(keys) == rest;
      } else {
        assert Effective(keys) == [first] + rest && ([first] + rest)[1..] == rest;
      }
    }
  }

  /** These keys type these units, each once. */
  predicate Types(keys: seq<Key>, units: seq<unit16>) {
    |keys| == |units| && forall i :: 0 <= i < |keys| ==> PressOf(keys[i]) == Type(units[i], 1)
  }

  lemma {:induction false} FeedUnits(held: seq<unit16>, keys: seq<Key>, units: seq<unit16>)
    requires Types(keys, units) && |held| + |units| <= MAX_PASSWORD
    ensures FeedKeys(Reading(held), keys) == Reading(held + units)
    decreases |keys|
  {
    if keys == [] {
      assert held + units == held;
    } else {
      assert StepKey(Reading(held), keys[0]) == Reading(held + [units[0]]) by {
        assert Repeated(units[0], 1) == [units[0]];
      }
      FeedUnits(held + [units[0]], keys[1..], units[1..]);
      assert held + [units[0]] + units[1..] == held + units;
    }
  }

  /** A text typed unit by unit, with any ignored events in between, is what is held; and
      what Enter then returns is its UTF-8 form, or that it is too long. */
  lemma TextTyped(text: seq<char>, keys: seq<Key>, enter: Key)
    requires Types(Effective(keys), Encode(text)) && |Encode(text)| <= MAX_PASSWORD
    requires PressOf(enter) == Enter
    ensures Seen(FeedKeys(Reading([]), keys)) == Typing(Wholes(text))
    ensures StepKey(FeedKeys(Reading([]), keys), enter) ==
            Returned(if |U8.Encode(text)| > MAX_PASSWORD then Err(TooLong) else Ok(U8.Encode(text)), |text|)
  {
    hide Encode, Symbols, EncodeFrom, RuneCount;
    FeedEffective(Reading([]), keys);
    FeedUnits([], Effective(keys), Encode(text));
    assert [] + Encode(text) == Encode(text);
    SymbolsOfEncoded(text);
    RuneCountDecided(Encode(text));
    SubmitDecided(Encode(text));
    assert Leading(Wholes(text)) == text by { LeadingWholes(text); }
  }

  lemma {:induction false} LeadingWholes(text: seq<char>)
    ensures Leading(Wholes(text)) == text
  {
    assert |Leading(Wholes(text))| == |text|;
  }

  /** Not Enter, Backspace or Delete by its key code. */
  predicate Unshadowed(key: Key) {
    key.virtualKey != VK_RETURN && key.virtualKey != VK_BACK && key.virtualKey != VK_DELETE
  }

  /** A key that carries a character to be typed adds it exactly when it is not the key of
      C, D or U, or the keypad's 3 or 4 or F6, with Ctrl, which AltGr also counts as. */
  lemma TypedDecided(units: seq<unit16>, key: Key)
    requires key.keyDown && key.unicodeChar >= 0x20 && key.unicodeChar != 0x7F && Unshadowed(key)
    requires |units| + Repeats(key) <= MAX_PASSWORD
    ensures ConsumeKey(units, key) == Edited(units + Repeated(key.unicodeChar, Repeats(key))) <==>
            !(key.control && (Letter(key, 'C') || Letter(key, 'D') || Letter(key, 'U')))
  {
    var longer := units + Repeated(key.unicodeChar, Repeats(key));
    assert |longer| > 0;
  }

  /** AltGr+C, which types U+0107 on a Polish keyboard, cancels the password instead; the
      same character typed without Ctrl is read. */
  lemma AltGrCancels()
    ensures ConsumeKey([], Key(true, 1, 0x43, 0x107, true)) == Refused(Canceled)
    ensures ConsumeKey([], Key(true, 1, 0x43, 0x107, false)) == Edited([0x107])
  {
    assert [] + Repeated(0x107, 1) == [0x107];
  }

  /** Ctrl with the keypad's 3 or 4 or F6, which carry no character then, does what Ctrl+C,
      Ctrl+D and Ctrl+U do. */
  lemma KeypadCommands(units: seq<unit16>, key: Key)
    requires key.keyDown && key.control && key.unicodeChar == 0
    ensures key.virtualKey == 0x63 ==> ConsumeKey(units, key) == Refused(Canceled)
    ensures key.virtualKey == 0x64 ==>
            ConsumeKey(units, key) == if units == [] then Refused(EndOfInput) else Submitted
    ensures key.virtualKey == 0x75 ==> ConsumeKey(units, key) == Edited([])
  {
  }

  // ------------------------------------------------------- the reader in place

  /** The fixed slice of units that the console reader edits. Units past `length` are zero:
      what was erased does not stay in memory. */
  class UnitBuffer {
    const storage: array<unit16>
    var length: nat

    ghost predicate Valid()
      reads this, storage
    {
      && storage.Length == MAX_PASSWORD
      && length <= storage.Length
      && forall i :: length <= i < storage.Length ==> storage[i] == 0
    }

    /** Nothing that was typed is left in memory. */
    ghost predicate Clear()
      reads this, storage
    {
      forall i :: 0 <= i < storage.Length ==> storage[i] == 0
    }

    ghost function Contents(): (r: seq<unit16>)
      reads this, storage
      requires Valid()
      ensures |r| <= MAX_PASSWORD
    {
      storage[..length]
    }

    constructor ()
      ensures Valid() && fresh(storage) && Contents() == []
    {
      storage := new unit16[MAX_PASSWORD](_ => 0);
      length := 0;
    }

    /** clear(units[start:]) and units[:start]. */
    method Truncate(start: nat)
      requires Valid() && start <= length
      modifies this, storage
      ensures Valid() && Contents() == old(Contents())[..start]
      ensures forall j :: start <= j < old(length) ==> storage[j] == 0
    {
      for i := start to length
        invariant length == old(length) && forall j :: start <= j < i ==> storage[j] == 0
        invariant storage[..start] == old(storage[..start])
        invariant forall j :: length <= j < storage.Length ==> storage[j] == 0
      {
        storage[i] := 0;
      }
      length := start;
    }

    method EraseLastRune()
      requires Valid()
      modifies this, storage
      ensures Valid() && Contents() == EraseLast(old(Contents()))
    {
      if length == 0 {
        return;
      }
      var start := length - 1;
      if start > 0 && Low(storage[start]) && High(storage[start - 1]) {
        start := start - 1;
      }
      Truncate(start);
    }

    method Count() returns (count: nat)
      requires Valid()
      ensures count == RuneCount(Contents())
    {
      RuneCountOfNone();
      hide RuneCount, High, Low;
      count := 0;
      var index := 0;
      while index < length
        invariant 0 <= index <= length
        invariant RuneCount(Contents()) == count + RuneCount(Contents()[index..])
      {
        RuneCountStep(Contents(), index);
        if High(storage[index]) && index + 1 < length && Low(storage[index + 1]) {
          index := index + 1;
        }
        index := index + 1;
        count := count + 1;
      }
    }

    method Consume(key: Key) returns (done: bool, failure: Option<Failure>)
      requires Valid()
      modifies this, storage
      ensures Valid()
      ensures match ConsumeKey(old(Contents()), key)
              case Edited(units) => !done && failure == None && Contents() == units
              case Submitted => done && failure == None && Contents() == old(Contents())
              case Refused(f) => !done && failure == Some(f) && Contents() == old(Contents())
    {
      done, failure := false, None;
      if !key.keyDown {
        return;
      }
      assert length == 0 <==> Contents() == [];
      if Enters(key) {
        done := true;
      } else if Cancels(key) {
        failure := Some(Canceled);
      } else if Ends(key) {
        if length == 0 { failure := Some(EndOfInput); } else { done := true; }
      } else if Erases(key) {
        var n := Repeats(key);
        for count := 0 to n
          invariant Valid()
          invariant EraseTimes(Contents(), n - count) == EraseTimes(old(Contents()), n)
        {
          EraseLastRune();
        }
      } else if Clears(key) {
        Truncate(0);
      } else if key.unicodeChar >= 0x20 {
        var n := Repeats(key);
        if length + n > MAX_PASSWORD {
          failure := Some(TooLong);
        } else {
          for count := 0 to n
            invariant Valid() && length == old(length) + count
            invariant Contents() == old(Contents()) + Repeated(key.unicodeChar, count)
          {
            storage[length] := key.unicodeChar;
            length := length + 1;
          }
        }
      }
    }

    /** Memory is clear exactly when nothing is held. */
    lemma ClearDecided()
      requires Valid() && forall i :: 0 <= i < length ==> storage[i] >= 0x20
      ensures Clear() <==> Contents() == []
    {
      assert length > 0 ==> storage[0] != 0;
    }

    /** encodeWindowsPassword: the bytes never outgrow the capacity they were given. */
    method EncodePassword() returns (result: Result<seq<U8.byte>, Failure>)
      requires Valid()
      ensures result == EncodeFrom(Contents(), [])
    {
      var password: seq<U8.byte> := [];
      var index := 0;
      while index < length
        invariant 0 <= index <= length && |password| <= MAX_PASSWORD
        invariant EncodeFrom(Contents(), []) == EncodeFrom(Contents()[index..], password)
      {
        ghost var rest := Contents()[index..];
        assert rest[0] == storage[index] && (|rest| > 1 ==> rest[1] == storage[index + 1]);
        var value: char;
        var taken := 1;
        if High(storage[index]) {
          if index + 1 >= length || !Low(storage[index + 1]) {
            return Err(InvalidText);
          }
          value := Pair(storage[index], storage[index + 1]);
          taken := 2;
        } else if Low(storage[index]) {
          return Err(InvalidText);
        } else {
          value := storage[index] as char;
        }
        assert DecodeFirst(rest) == Some(value) && Units(value) == taken;
        if |password| + U8.Size(value) > MAX_PASSWORD {
          return Err(TooLong);
        }
        assert rest[taken..] == Contents()[index + taken..];
        password := password + U8.EncodeChar(value);
        index := index + taken;
      }
      result := Ok(password);
    }
  }

  /** The units held when the reader returns, or when there are no more keys. */
  function Held(units: seq<unit16>, keys: seq<Key>): seq<unit16>
    decreases |keys|
  {
    if keys == [] then units
    else
      match ConsumeKey(units, keys[0])
      case Edited(edited) => Held(edited, keys[1..])
      case _ => units
  }

  /** A unit that is held is no control character, and so is not zero. */
  lemma {:induction false} HeldNotZero(units: seq<unit16>, keys: seq<Key>)
    requires forall i :: 0 <= i < |units| ==> units[i] >= 0x20
    ensures forall i :: 0 <= i < |Held(units, keys)| ==> Held(units, keys)[i] >= 0x20
    decreases |keys|
  {
    if keys != [] {
      var consumed := ConsumeKey(units, keys[0]);
      if consumed.Edited? {
        HeldNotZero(consumed.units, keys[1..]);
      }
    }
  }

  /** The console loop, on a console that delivers these keys and then fails with the
      end of input: the result, and the asterisks after it, are those of FeedKeys. The
      clearing that is deferred is of the slice as it was before anything was typed, which
      has no elements; so the units held at the end stay in memory, and nothing is left
      exactly when there are none. */
  method ReadPassword(keys: seq<Key>, prompt: MaskedPrompt)
    returns (result: Result<seq<U8.byte>, Failure>, buffer: UnitBuffer)
    requires prompt.Valid() && prompt.maskCount == 0
    modifies prompt
    ensures prompt.Valid() && buffer.Valid()
    ensures var end := FeedKeys(Reading([]), keys);
            prompt.maskCount == Shown(end) &&
            result == if end.Returned? then end.result else Err(EndOfInput)
    ensures buffer.Contents() == Held([], keys)
    ensures buffer.Clear() <==> Held([], keys) == []
  {
    hide ConsumeKey, EncodeFrom, RuneCount;
    buffer := new UnitBuffer();
    ghost var state := Reading([]);
    assert RuneCount([]) == 0 by { RuneCountOfNone(); }
    HeldNotZero([], keys);
    for i := 0 to |keys|
      invariant buffer.Valid() && fresh(buffer) && fresh(buffer.storage)
      invariant prompt.Valid() && prompt.maskCount == Shown(state)
      invariant state == Reading(buffer.Contents())
      invariant FeedKeys(Reading([]), keys) == FeedKeys(state, keys[i..])
      invariant Held([], keys) == Held(buffer.Contents(), keys[i..])
    {
      assert keys[i..][0] == keys[i] && keys[i..][1..] == keys[i + 1..];
      state := StepKey(state, keys[i]);
      var before := buffer.Count();
      var done, failure := buffer.Consume(keys[i]);
      if failure.Some? {
        FeedReturned(state, keys[i + 1..]);
        buffer.ClearDecided();
        return Err(failure.value), buffer;
      }
      var after := buffer.Count();
      if after != before {
        prompt.Feedback(after);
      }
      if done {
        FeedReturned(state, keys[i + 1..]);
        result := buffer.EncodePassword();
        buffer.ClearDecided();
        return;
      }
    }
    buffer.ClearDecided();
    result := Err(EndOfInput);
  }

  lemma RuneCountOfNone()
    ensures RuneCount([]) == 0
  {}

  /** The letter a and Enter: the password is read, and its unit stays in memory. */
  lemma PasswordStays()
    ensures var typed, enter := Key(true, 1, 0x41, 0x61, false), Key(true, 1, VK_RETURN, 13, false);
            && FeedKeys(Reading([]), [typed, enter]) == Returned(Ok([0x61]), 1)
            && Held([], [typed, enter]) == [0x61]
  {
    var typed, enter := Key(true, 1, 0x41, 0x61, false), Key(true, 1, VK_RETURN, 13, false);
    var keys := [typed, enter];
    assert keys[1..] == [enter] && [enter][1..] == [];
    assert ConsumeKey([], typed) == Edited([0x61]) by { assert [] + Repeated(0x61, 1) == [0x61]; }
    assert ConsumeKey([0x61], enter) == Submitted;
    assert Held([], keys) == Held([0x61], [enter]) == [0x61];
    FeedTwo(Reading([]), typed, enter);
    SubmitDecided([0x61]);
    assert Symbols([0x61]) == [Whole('a')] by { assert [0x61][1..] == []; }
    assert Leading([Whole('a')]) == "a" by { LeadingWholes("a"); assert Wholes("a") == [Whole('a')]; }
    assert U8.Encode("a") == [0x61] by { U8.EncodeAppend("", 'a'); assert "" + "a" == "a"; }
  }
}
