/** The connection picker: what each read of the terminal does to the search and the
    selection, and which rows are shown. */
module Picker {
  import opened Wrappers
  import opened Utf8

  datatype Host = Host(alias: string, destination: string, tags: seq<string>)

  /** Case folding and the splitting into words are the library's: the words of a query and
      the text of a host to look for them in are given. */
  datatype Search = Search(words: seq<byte> -> seq<seq<byte>>, haystack: Host -> seq<byte>)

  predicate Contains(text: seq<byte>, word: seq<byte>)
    decreases |text|
  {
    word <= text || (text != [] && Contains(text[1..], word))
  }

  predicate Matches(s: Search, host: Host, words: seq<seq<byte>>) {
    forall i :: 0 <= i < |words| ==> Contains(s.haystack(host), words[i])
  }

  function Filter(s: Search, hosts: seq<Host>, words: seq<seq<byte>>): (r: seq<Host>)
    ensures forall h :: h in r <==> h in hosts && Matches(s, h, words)
  {
    if hosts == [] then []
    else (if Matches(s, hosts[0], words) then [hosts[0]] else []) + Filter(s, hosts[1..], words)
  }

  lemma {:induction false} FilterAll(s: Search, hosts: seq<Host>)
    ensures Filter(s, hosts, []) == hosts
  {
    if hosts != [] {
      FilterAll(s, hosts[1..]);
      assert hosts == [hosts[0]] + hosts[1..];
    }
  }

  lemma {:induction false} FilterAppend(s: Search, a: seq<Host>, host: Host, words: seq<seq<byte>>)
    ensures Filter(s, a + [host], words) == Filter(s, a, words) + if Matches(s, host, words) then [host] else []
  {
    hide Matches;
    if a == [] {
      assert (a + [host])[1..] == [];
    } else {
      FilterAppend(s, a[1..], host, words);
      assert (a + [host])[1..] == a[1..] + [host] && (a + [host])[0] == a[0];
    }
  }

  /** filterTUIHosts. */
  method FilterHosts(s: Search, hosts: seq<Host>, query: seq<byte>) returns (filtered: seq<Host>)
    ensures filtered == Filter(s, hosts, s.words(query))
  {
    var words := s.words(query);
    if |words| == 0 {
      FilterAll(s, hosts);
      return hosts;
    }
    filtered := [];
    for i := 0 to |hosts|
      invariant filtered == Filter(s, hosts[..i], words)
    {
      var matched := true;
      for j := 0 to |words|
        invariant matched && forall k :: 0 <= k < j ==> Contains(s.haystack(hosts[i]), words[k])
      {
        if !Contains(s.haystack(hosts[i]), words[j]) {
          matched := false;
          break;
        }
      }
      FilterAppend(s, hosts[..i], hosts[i], words);
      assert hosts[..i + 1] == hosts[..i] + [hosts[i]];
      if matched {
        filtered := filtered + [hosts[i]];
      }
    }
    assert hosts[..|hosts|] == hosts;
  }

  // -------------------------------------------------------------- from bytes to keys

  datatype Key = Close | Up | Down | Top | Bottom | Typed(value: byte)

  /** escapeSequence: where the byte that ends a sequence stands. */
  function FinalAt(rest: seq<byte>): (r: Option<nat>)
    ensures r.Some? ==> r.value < |rest| && 0x40 <= rest[r.value] <= 0x7E
    ensures r.Some? ==> forall i :: 0 <= i < r.value ==> !(0x40 <= rest[i] <= 0x7E)
    ensures r.None? ==> forall i :: 0 <= i < |rest| ==> !(0x40 <= rest[i] <= 0x7E)
  {
    if rest == [] then None
    else if 0x40 <= rest[0] <= 0x7E then Some(0)
    else
      match FinalAt(rest[1..])
      case None => None
      case Some(n) => Some(n + 1)
  }

  /** What the last byte of a sequence stands for: 'A', 'B', 'H' and 'F', or nothing. */
  function Sequence(final: byte): seq<Key> {
    if final == 0x41 then [Up] else if final == 0x42 then [Down]
    else if final == 0x48 then [Top] else if final == 0x46 then [Bottom] else []
  }

  /** The keys in one read of the terminal. */
  function Keys(chunk: seq<byte>): seq<Key>
    decreases |chunk|
  {
    if chunk == [] then []
    else if chunk[0] != 27 then [Typed(chunk[0])] + Keys(chunk[1..])
    else if |chunk| == 1 then [Close]
    else if chunk[1] != 0x5B && chunk[1] != 0x4F then Keys(chunk[2..])
    else
      match FinalAt(chunk[2..])
      case None => []
      case Some(n) => Sequence(chunk[2 + n]) + Keys(chunk[3 + n..])
  }

  function Typings(bytes: seq<byte>): seq<Key> {
    seq(|bytes|, i requires 0 <= i < |bytes| => Typed(bytes[i]))
  }

  lemma KeysStep(chunk: seq<byte>)
    requires chunk != [] && chunk[0] != 27
    ensures Keys(chunk) == [Typed(chunk[0])] + Keys(chunk[1..])
  {
  }

  /** Bytes that start no sequence are keys, one by one. */
  lemma {:induction false} PlainKeys(bytes: seq<byte>, rest: seq<byte>)
    requires 27 !in bytes
    ensures Keys(bytes + rest) == Typings(bytes) + Keys(rest)
    decreases |bytes|
  {
    hide Keys;
    if bytes == [] {
      assert bytes + rest == rest && Typings(bytes) == [];
    } else {
      var all := bytes + rest;
      assert all[0] == bytes[0] && all[1..] == bytes[1..] + rest;
      KeysStep(all);
      PlainKeys(bytes[1..], rest);
      assert Typings(bytes) == [Typed(bytes[0])] + Typings(bytes[1..]);
    }
  }

  lemma OnlyPlain(bytes: seq<byte>)
    requires 27 !in bytes
    ensures Keys(bytes) == Typings(bytes)
  {
    PlainKeys(bytes, []);
    assert Keys([]) == [] && bytes + [] == bytes;
    hide Keys;
    assert Typings(bytes) + [] == Typings(bytes);
  }

  lemma FinalIs(rest: seq<byte>, n: nat)
    requires n < |rest| && 0x40 <= rest[n] <= 0x7E
    requires forall i :: 0 <= i < n ==> !(0x40 <= rest[i] <= 0x7E)
    ensures FinalAt(rest) == Some(n)
  {
    var r := FinalAt(rest);
    assert r.Some? && !(r.value < n) && !(n < r.value);
  }

  /** A sequence in the middle of a read is at most one key, and its bytes are no text. */
  lemma SequenceIsNoText(a: seq<byte>, introducer: byte, parameters: seq<byte>, final: byte, b: seq<byte>)
    requires 27 !in a && (introducer == 0x5B || introducer == 0x4F) && 0x40 <= final <= 0x7E
    requires forall p :: p in parameters ==> !(0x40 <= p <= 0x7E)
    ensures Keys(a + ([27, introducer] + parameters + [final]) + b) == Keys(a) + Sequence(final) + Keys(b)
  {
    var code := [27, introducer] + parameters + [final];
    OnlyPlain(a);
    PlainKeys(a, code + b);
    assert a + code + b == a + (code + b);
    SequenceFirst(introducer, parameters, final, b);
    hide Keys, Sequence;
    assert Typings(a) + (Sequence(final) + Keys(b)) == Typings(a) + Sequence(final) + Keys(b);
  }

  lemma SequenceFirst(introducer: byte, parameters: seq<byte>, final: byte, b: seq<byte>)
    requires (introducer == 0x5B || introducer == 0x4F) && 0x40 <= final <= 0x7E
    requires forall p :: p in parameters ==> !(0x40 <= p <= 0x7E)
    ensures Keys([27, introducer] + parameters + [final] + b) == Sequence(final) + Keys(b)
  {
    hide Sequence;
    var whole := [27, introducer] + parameters + [final] + b;
    var rest := whole[2..];
    assert rest == parameters + [final] + b;
    assert rest[|parameters|] == final;
    forall i | 0 <= i < |parameters| ensures !(0x40 <= rest[i] <= 0x7E) {
      assert rest[i] == parameters[i] && parameters[i] in parameters;
    }
    FinalIs(rest, |parameters|);
    assert whole[3 + |parameters|..] == b;
  }

  // ------------------------------------------------------------------------ the model

  datatype State = State(query: seq<byte>, selected: int)

  datatype Outcome = Going(state: State) | Done(state: State, alias: string)

  function Visible(s: Search, hosts: seq<Host>, query: seq<byte>): seq<Host> {
    Filter(s, hosts, s.words(query))
  }

  function Moved(selected: int, step: int, count: nat): int {
    var target := selected + step;
    if count == 0 || target < 0 then 0 else if target >= count then count - 1 else target
  }

  /** The last rune of a text: its size, or 1 for a byte that ends none. */
  function LastRuneSize(q: seq<byte>): (n: nat)
    requires q != []
    ensures 1 <= n <= |q|
  {
    if q[|q| - 1] < 0x80 then 1
    else
      var start := LastStart(q, |q| - 1, if |q| >= 4 then |q| - 4 else 0);
      var c := DecodeFirst(q[start..]);
      if c.Some? && start + Size(c.value) == |q| then Size(c.value) else 1
  }

  /** The nearest position at or before i, and not before limit, where a rune can start. */
  function LastStart(q: seq<byte>, i: nat, limit: nat): (start: nat)
    requires limit <= i < |q|
    ensures limit <= start <= i
  {
    if i > limit && !RuneStart(q[i]) then LastStart(q, i - 1, limit) else i
  }

  function Press(s: Search, hosts: seq<Host>, state: State, key: Key): Outcome {
    var visible := Visible(s, hosts, state.query);
    match key
    case Close => Done(state, "")
    case Up => Going(state.(selected := Moved(state.selected, -1, |visible|)))
    case Down => Going(state.(selected := Moved(state.selected, 1, |visible|)))
    case Top => Going(state.(selected := 0))
    case Bottom => Going(state.(selected := Moved(state.selected, |visible|, |visible|)))
    case Typed(v) =>
      if v == 3 then Done(state, "")
      else if v == 13 || v == 10 then
        if 0 <= state.selected < |visible| then Done(state, visible[state.selected].alias) else Going(state)
      else if v == 14 then Going(state.(selected := Moved(state.selected, 1, |visible|)))
      else if v == 16 then Going(state.(selected := Moved(state.selected, -1, |visible|)))
      else if v == 21 then Going(State([], 0))
      else if v == 127 || v == 8 then
        if state.query == [] then Going(state)
        else Going(State(state.query[..|state.query| - LastRuneSize(state.query)], 0))
      else if v >= 32 then Going(State(state.query + [v], 0))
      else Going(state)
  }

  function PressAll(s: Search, hosts: seq<Host>, state: State, keys: seq<Key>): Outcome
    decreases |keys|
  {
    if keys == [] then Going(state)
    else
      var first := Press(s, hosts, state, keys[0]);
      if first.Done? then first else PressAll(s, hosts, first.state, keys[1..])
  }

  lemma {:induction false} PressConcat(s: Search, hosts: seq<Host>, state: State, a: seq<Key>, b: seq<Key>)
    ensures PressAll(s, hosts, state, a + b) ==
            var first := PressAll(s, hosts, state, a);
            if first.Done? then first else PressAll(s, hosts, first.state, b)
    decreases |a|
  {
    if a == [] {
      assert a + b == b;
    } else {
      assert (a + b)[1..] == a[1..] + b && (a + b)[0] == a[0];
      var first := Press(s, hosts, state, a[0]);
      hide Press;
      if first.Going? {
        PressConcat(s, hosts, first.state, a[1..], b);
      }
    }
  }

  /** tuiModel. */
  class TuiModel {
    const search: Search
    const hosts: seq<Host>
    var query: seq<byte>
    var selected: int

    constructor (search: Search, hosts: seq<Host>, initial: seq<byte>)
      ensures this.search == search && this.hosts == hosts && Held() == State(initial, 0)
    {
      this.search, this.hosts, query, selected := search, hosts, initial, 0;
    }

    function Held(): State
      reads this
    {
      State(query, selected)
    }

    method Move(step: int)
      modifies this`selected
      ensures selected == Moved(old(selected), step, |Visible(search, hosts, query)|)
    {
      var target := selected + step;
      var visible := FilterHosts(search, hosts, query);
      var count := |visible|;
      if target < 0 {
        target := 0;
      }
      if target >= count {
        target := count - 1;
      }
      if target < 0 {
        target := 0;
      }
      selected := target;
    }

    method PressKey(value: byte) returns (alias: string, done: bool)
      requires selected >= 0
      modifies this
      ensures Press(search, hosts, old(Held()), Typed(value)) == if done then Done(Held(), alias) else Going(Held())
      ensures selected >= 0
    {
      alias, done := "", false;
      if value == 3 {
        return "", true;
      } else if value == 13 || value == 10 {
        var visible := FilterHosts(search, hosts, query);
        if |visible| != 0 && selected < |visible| {
          return visible[selected].alias, true;
        }
      } else if value == 14 {
        Move(1);
      } else if value == 16 {
        Move(-1);
      } else if value == 21 {
        query, selected := [], 0;
      } else if value == 127 || value == 8 {
        if |query| > 0 {
          query, selected := query[..|query| - LastRuneSize(query)], 0;
        }
      } else if value >= 32 {
        query, selected := query + [value], 0;
      }
    }

    method PressSequence(final: byte)
      requires selected >= 0
      modifies this`selected
      ensures Held() == Steered(search, hosts, old(Held()), final) && selected >= 0
    {
      if final == 0x41 {
        Move(-1);
      } else if final == 0x42 {
        Move(1);
      } else if final == 0x48 {
        selected := 0;
      } else if final == 0x46 {
        var visible := FilterHosts(search, hosts, query);
        Move(|visible|);
      }
    }

    /** feed: one read of the terminal does what its keys do, one after the other. */
    method Feed(chunk: seq<byte>) returns (alias: string, done: bool)
      requires selected >= 0
      modifies this
      ensures PressAll(search, hosts, old(Held()), Keys(chunk)) == if done then Done(Held(), alias) else Going(Held())
      ensures selected >= 0
    {
      hide *;
      var index := 0;
      ghost var whole := PressAll(search, hosts, Held(), Keys(chunk));
      assert chunk[0..] == chunk;
      while index < |chunk|
        invariant 0 <= index <= |chunk| && selected >= 0
        invariant whole == PressAll(search, hosts, Held(), Keys(chunk[index..]))
      {
        KeysAt(chunk, index);
        var value := chunk[index];
        ghost var before := Held();
        if value == 27 {
          if index == |chunk| - 1 {
            Closes(search, hosts, before);
            return "", true;
          }
          var next := chunk[index + 1];
          if next != 0x5B && next != 0x4F {
            index := index + 2;
            continue;
          }
          var final := FinalAt(chunk[index + 2..]);
          if final.None? {
            index := |chunk|;
            break;
          }
          index := index + 2 + final.value;
          PressSequence(chunk[index]);
          OneSequence(search, hosts, before, chunk[index], Keys(chunk[index + 1..]));
          index := index + 1;
          continue;
        }
        alias, done := PressKey(value);
        OneKey(search, hosts, before, Typed(value), Keys(chunk[index + 1..]));
        if done {
          return;
        }
        index := index + 1;
      }
      assert chunk[|chunk|..] == [];
      Ends(search, hosts, Held());
      return "", false;
    }
  }

  /** The window of renderTUI. On a screen of any height, the rows shown are consecutive rows
      there are, as many as fit, and the selected one is among them. */
  method Rows(s: Search, hosts: seq<Host>, state: State, height: int) returns (rows: seq<Host>, start: nat, hidden: nat)
    requires InRange(s, hosts, state)
    ensures var all := Visible(s, hosts, state.query);
            && start + |rows| <= |all| && rows == all[start..start + |rows|]
            && |rows| == (if |all| <= 3 || |all| <= height - 7 then |all| else if height < 10 then 3 else height - 7)
            && hidden == |all| - |rows|
            && (all != [] ==> start <= state.selected < start + |rows|)
  {
    var all := FilterHosts(s, hosts, state.query);
    rows := all;
    var limit := height - 7;
    if limit < 3 {
      limit := 3;
    }
    start := 0;
    if |rows| > limit {
      if state.selected >= limit {
        start := state.selected - limit + 1;
      }
      rows := rows[start..start + limit];
    }
    hidden := |all| - |rows|;
  }

  lemma Ends(s: Search, hosts: seq<Host>, state: State)
    ensures PressAll(s, hosts, state, Keys([])) == Going(state)
  {
  }

  /** The keys from a position on, by what stands there. */
  lemma KeysAt(chunk: seq<byte>, i: nat)
    requires i < |chunk|
    ensures Keys(chunk[i..]) ==
            if chunk[i] != 27 then [Typed(chunk[i])] + Keys(chunk[i + 1..])
            else if i == |chunk| - 1 then [Close]
            else if chunk[i + 1] != 0x5B && chunk[i + 1] != 0x4F then Keys(chunk[i + 2..])
            else
              var final := FinalAt(chunk[i + 2..]);
              if final.None? then Keys(chunk[|chunk|..])
              else Sequence(chunk[i + 2 + final.value]) + Keys(chunk[i + 3 + final.value..])
  {
    hide Sequence;
    var rest := chunk[i..];
    assert rest[1..] == chunk[i + 1..];
    if |rest| > 1 {
      assert rest[2..] == chunk[i + 2..];
      var final := FinalAt(chunk[i + 2..]);
      if final.Some? {
        assert rest[3 + final.value..] == chunk[i + 3 + final.value..];
      }
    }
  }

  /** What a sequence does by its last byte. */
  function Steered(s: Search, hosts: seq<Host>, state: State, final: byte): State {
    var count := |Visible(s, hosts, state.query)|;
    if final == 0x41 then state.(selected := Moved(state.selected, -1, count))
    else if final == 0x42 then state.(selected := Moved(state.selected, 1, count))
    else if final == 0x48 then state.(selected := 0)
    else if final == 0x46 then state.(selected := Moved(state.selected, count, count))
    else state
  }

  lemma Closes(s: Search, hosts: seq<Host>, state: State)
    ensures PressAll(s, hosts, state, [Close]) == Done(state, "")
  {
  }

  lemma OneKey(s: Search, hosts: seq<Host>, state: State, key: Key, keys: seq<Key>)
    ensures PressAll(s, hosts, state, [key] + keys) ==
            var first := Press(s, hosts, state, key);
            if first.Done? then first else PressAll(s, hosts, first.state, keys)
  {
    assert ([key] + keys)[1..] == keys;
  }

  lemma OneSequence(s: Search, hosts: seq<Host>, state: State, last: byte, keys: seq<Key>)
    ensures PressAll(s, hosts, state, Sequence(last) + keys) == PressAll(s, hosts, Steered(s, hosts, state, last), keys)
  {
    if Sequence(last) == [] {
      assert Sequence(last) + keys == keys;
    } else {
      OneKey(s, hosts, state, Sequence(last)[0], keys);
    }
  }

  // ------------------------------------------------------------- over any run of reads

  predicate InRange(s: Search, hosts: seq<Host>, state: State) {
    state.selected == 0 || 0 < state.selected < |Visible(s, hosts, state.query)|
  }

  /** Whatever is typed, the selection stays the first row or a row there is, and the picker
      ends with no alias or with that of the row selected among those shown. */
  lemma {:induction false} SelectionInRange(s: Search, hosts: seq<Host>, state: State, keys: seq<Key>)
    requires InRange(s, hosts, state)
    ensures var outcome := PressAll(s, hosts, state, keys);
            && InRange(s, hosts, outcome.state)
            && (outcome.Done? && outcome.alias != "" ==>
                  var visible := Visible(s, hosts, outcome.state.query);
                  outcome.state.selected < |visible| && outcome.alias == visible[outcome.state.selected].alias)
    decreases |keys|
  {
    hide Visible;
    if keys != [] {
      var outcome := Press(s, hosts, state, keys[0]);
      assert InRange(s, hosts, outcome.state);
      if outcome.Going? {
        SelectionInRange(s, hosts, outcome.state, keys[1..]);
      }
    }
  }

  // ------------------------------------------------------------------ the query as text

  lemma {:induction false} LimitedStart(q: seq<byte>, i: nat, limit: nat)
    requires limit <= i < |q|
    ensures LastStart(q, i, limit) == if StartBefore(q, i) >= limit then StartBefore(q, i) else limit
    decreases i
  {
    hide RuneStart;
    if i > limit && !RuneStart(q[i]) {
      LimitedStart(q, i - 1, limit);
    }
  }

  /** Looking back over four bytes is enough to find the last symbol. */
  lemma RuneSizeDecided(q: seq<byte>)
    requires q != []
    ensures LastRuneSize(q) == LastSize(Tail(q))
  {
    var last := |q| - 1;
    var limit, start := if |q| >= 4 then |q| - 4 else 0, StartBefore(q, last);
    assert Tail(q) == q[start..];
    if q[last] < 0x80 {
      assert start == last && q[last..] == [q[last]];
    } else {
      LimitedStart(q, last, limit);
      if start < limit {
        assert q[limit..][0] == q[limit] && Continuation(q[limit]);
        assert DecodeFirst(q[limit..]).None?;
      }
      hide DecodeFirst;
    }
  }

  /** One backspace takes exactly the last character away, or a byte that is part of none,
      whatever the query. */
  lemma EraseLastSymbol(q: seq<byte>)
    requires q != []
    ensures Symbols(q) != [] && Symbols(q[..|q| - LastRuneSize(q)]) == Symbols(q)[..|Symbols(q)| - 1]
  {
    hide *;
    LastCut(q);
    RuneSizeDecided(q);
  }

  /** What one character does to the query. */
  function Edit(text: seq<Symbol>, c: char): seq<Symbol> {
    var v := c as int;
    if v == 21 then []
    else if v == 127 || v == 8 then if text == [] then [] else text[..|text| - 1]
    else if v >= 32 then text + [Whole(c)]
    else text
  }

  /** Where the character that ends a sequence stands. */
  function FinalChar(rest: seq<char>): (r: Option<nat>)
    ensures r.Some? ==> r.value < |rest|
  {
    if rest == [] then None
    else if 0x40 <= rest[0] as int <= 0x7E then Some(0)
    else
      match FinalChar(rest[1..])
      case None => None
      case Some(n) => Some(n + 1)
  }

  const ESC := 27 as char

  /** With '[' or 'O' behind it, Esc starts a sequence; with anything else it is Alt. */
  predicate Introduces(c: char) {
    c == '[' || c == 'O'
  }

  /** How many characters the first keystroke of a read takes. A sequence that does not end in
      the read takes all that is left. */
  function Stroke(input: seq<char>): (n: nat)
    requires input != []
    ensures 0 < n <= |input|
  {
    if input[0] != ESC || |input| == 1 then 1
    else if !Introduces(input[1]) then 2
    else
      match FinalChar(input[2..])
      case None => |input|
      case Some(n) => 3 + n
  }

  predicate WithAlt(input: seq<char>) {
    |input| >= 2 && input[0] == ESC && !Introduces(input[1])
  }

  /** What the first keystroke does to the query: a sequence does nothing, and of a character
      typed with Alt the first byte is dropped. */
  function EditStroke(text: seq<Symbol>, input: seq<char>): seq<Symbol>
    requires input != []
  {
    if input[0] != ESC then Edit(text, input[0])
    else if WithAlt(input) then text + Strays(EncodeChar(input[1])[1..])
    else text
  }

  function EditAll(text: seq<Symbol>, input: seq<char>): seq<Symbol>
    decreases |input|
  {
    if input == [] then text else EditAll(EditStroke(text, input), input[Stroke(input)..])
  }

  /** The backspace key on a query of characters and settled strays. */
  lemma EraseQuery(text: seq<Symbol>)
    requires Settled(text)
    ensures Flat(text) == [] <==> text == []
    ensures text != [] ==> Flat(text)[..|Flat(text)| - LastRuneSize(Flat(text))] == Flat(text[..|text| - 1])
  {
    SymbolsFlat(text);
    if text != [] {
      var q := Flat(text);
      EraseLastSymbol(q);
      FlatSymbols(q[..|q| - LastRuneSize(q)]);
      hide *;
    }
  }

  lemma {:induction false} TypeBytes(s: Search, hosts: seq<Host>, state: State, bytes: seq<byte>)
    requires bytes != [] && forall i :: 0 <= i < |bytes| ==> bytes[i] >= 32 && bytes[i] != 127
    ensures PressAll(s, hosts, state, Typings(bytes)) == Going(State(state.query + bytes, 0))
    decreases |bytes|
  {
    var next := State(state.query + [bytes[0]], 0);
    assert Press(s, hosts, state, Typed(bytes[0])) == Going(next);
    hide Press;
    assert Typings(bytes) == [Typed(bytes[0])] + Typings(bytes[1..]);
    OneKey(s, hosts, state, Typed(bytes[0]), Typings(bytes[1..]));
    if |bytes| > 1 {
      hide PressAll;
      TypeBytes(s, hosts, next, bytes[1..]);
      assert state.query + [bytes[0]] + bytes[1..] == state.query + bytes;
    } else {
      assert Typings(bytes[1..]) == [] && bytes == [bytes[0]];
    }
  }

  lemma TypeCharacter(s: Search, hosts: seq<Host>, text: seq<Symbol>, selected: int, c: char)
    requires c != ESC && Settled(text)
    ensures var outcome := PressAll(s, hosts, State(Flat(text), selected), Keys(EncodeChar(c)));
            outcome.Going? ==> outcome.state.query == Flat(Edit(text, c))
  {
    var v, state := c as int, State(Flat(text), selected);
    if v >= 0x80 || (v >= 32 && v != 127) {
      NoEscape(c);
      OnlyPlain(EncodeChar(c));
      TypeBytes(s, hosts, state, EncodeChar(c));
      FlatOne(text, c);
    } else {
      assert EncodeChar(c) == [v];
      OneTyped(s, hosts, state, v);
      EraseQuery(text);
      hide Visible, LastRuneSize, Flat, Keys, PressAll;
    }
  }

  lemma FlatOne(text: seq<Symbol>, c: char)
    ensures Flat(text + [Whole(c)]) == Flat(text) + EncodeChar(c)
  {
    FlatConcat(text, [Whole(c)]);
    assert Flat([Whole(c)]) == EncodeChar(c) + Flat([Whole(c)][1..]);
  }

  lemma OneTyped(s: Search, hosts: seq<Host>, state: State, v: byte)
    requires v != 27
    ensures PressAll(s, hosts, state, Keys([v])) == Press(s, hosts, state, Typed(v))
  {
    hide Press;
    OnlyPlain([v]);
    hide Keys;
    assert Typings([v]) == [Typed(v)];
    OneKey(s, hosts, state, Typed(v), []);
    assert [Typed(v)] + [] == [Typed(v)];
  }

  /** A character typed with Alt, in a read of its own: its first byte is dropped, so nothing
      of it is typed exactly when it has no other, and exactly then the query stays text. */
  lemma AltDecided(s: Search, hosts: seq<Host>, text: seq<char>, selected: int, c: char)
    requires !Introduces(c)
    ensures Keys([27] + EncodeChar(c)) == [] <==> Size(c) == 1
    ensures var outcome := PressAll(s, hosts, State(Encode(text), selected), Keys([27] + EncodeChar(c)));
            && outcome.Going? && outcome.state.query == Encode(text) + EncodeChar(c)[1..]
            && (Valid(outcome.state.query) <==> Size(c) == 1)
  {
    hide Encode, PressAll, Press, Keys;
    var tail := EncodeChar(c)[1..];
    AltKeys(c, []);
    assert EncodeChar(c) + [] == EncodeChar(c) && [27] + EncodeChar(c) == [27] + (EncodeChar(c) + []);
    assert Typings(tail) + Keys([]) == Typings(tail) by { OnlyPlain([]); }
    AltTyped(s, hosts, State(Encode(text), selected), c);
    SymbolsConcatStrays(text, tail);
  }

  /** The strays behind a text are not valid. */
  lemma SymbolsConcatStrays(text: seq<char>, tail: seq<byte>)
    requires forall i :: 0 <= i < |tail| ==> Continuation(tail[i])
    ensures Valid(Encode(text) + tail) <==> tail == []
  {
    if tail == [] {
      assert Encode(text) + tail == Encode(text);
      DecodeEncoded(text);
    } else {
      var whole := Wholes(text);
      FlatWholes(text);
      FlatConcat(whole, Strays(tail));
      FlatStrays(tail);
      SymbolsFlat(whole + Strays(tail));
      ValidDecided(Encode(text) + tail);
      assert (whole + Strays(tail))[|whole|].Stray?;
    }
  }

  lemma AltTyped(s: Search, hosts: seq<Host>, state: State, c: char)
    ensures var outcome := PressAll(s, hosts, state, Typings(EncodeChar(c)[1..]));
            outcome.Going? && outcome.state.query == state.query + EncodeChar(c)[1..]
  {
    var tail := EncodeChar(c)[1..];
    if tail == [] {
      assert Typings(tail) == [] && state.query + tail == state.query;
    } else {
      TypeBytes(s, hosts, state, tail);
    }
  }

  /** The keys of Alt and a character, and what follows. */
  lemma AltKeys(c: char, rest: seq<byte>)
    requires !Introduces(c)
    ensures Keys([27] + (EncodeChar(c) + rest)) == Typings(EncodeChar(c)[1..]) + Keys(rest)
  {
    var e := EncodeChar(c);
    var all := [27] + (e + rest);
    assert all[1] == e[0] && all[2..] == e[1..] + rest;
    assert e[0] != 0x5B && e[0] != 0x4F by { FirstByte(c); }
    assert Keys(all) == Keys(e[1..] + rest);
    PlainKeys(e[1..], rest);
  }

  lemma FirstByte(c: char)
    ensures if c as int < 0x80 then EncodeChar(c) == [c as int] else EncodeChar(c)[0] >= 0x80
  {
  }

  lemma FinalBehind(e: seq<byte>, rest: seq<byte>)
    requires forall i :: 0 <= i < |e| ==> !(0x40 <= e[i] <= 0x7E)
    ensures FinalAt(e + rest) == match FinalAt(rest) case None => None case Some(n) => Some(|e| + n)
  {
    hide FinalAt;
    var all, final := e + rest, FinalAt(rest);
    assert forall i :: 0 <= i < |all| ==> all[i] == if i < |e| then e[i] else rest[i - |e|];
    if final.Some? {
      FinalIs(all, |e| + final.value);
    }
  }

  /** What follows the byte that ends a sequence. */
  function BehindFinal(rest: seq<byte>): seq<byte>
    requires FinalAt(rest).Some?
  {
    rest[FinalAt(rest).value + 1..]
  }

  /** The byte that ends a sequence is the character that does. */
  lemma {:induction false} FinalOfText(rest: seq<char>)
    ensures FinalAt(Encode(rest)).Some? <==> FinalChar(rest).Some?
    ensures FinalChar(rest).Some? ==> BehindFinal(Encode(rest)) == Encode(rest[FinalChar(rest).value + 1..])
  {
    hide EncodeChar, Encode, FinalAt, BehindFinal;
    if rest == [] {
      EncodeNone();
      NoFinal([]);
    } else if 0x40 <= rest[0] as int <= 0x7E {
      FinalFirst(rest);
    } else {
      FirstByte(rest[0]);
      EncodeStep(rest);
      FinalOfText(rest[1..]);
      BehindLonger(EncodeChar(rest[0]), Encode(rest[1..]));
      var final := FinalChar(rest[1..]);
      if final.Some? {
        assert rest[1..][final.value + 1..] == rest[final.value + 2..];
      }
    }
  }

  lemma NoFinal(rest: seq<byte>)
    requires rest == []
    ensures FinalAt(rest) == None
  {
  }

  lemma FinalFirst(rest: seq<char>)
    requires rest != [] && 0x40 <= rest[0] as int <= 0x7E
    ensures FinalAt(Encode(rest)) == Some(0) && BehindFinal(Encode(rest)) == Encode(rest[1..])
  {
    FirstByte(rest[0]);
    assert Encode(rest) == [rest[0] as int] + Encode(rest[1..]);
  }

  lemma BehindLonger(e: seq<byte>, rest: seq<byte>)
    requires forall i :: 0 <= i < |e| ==> !(0x40 <= e[i] <= 0x7E)
    ensures FinalAt(e + rest).Some? <==> FinalAt(rest).Some?
    ensures FinalAt(rest).Some? ==> BehindFinal(e + rest) == BehindFinal(rest)
  {
    hide FinalAt;
    FinalBehind(e, rest);
    if FinalAt(rest).Some? {
      var k := FinalAt(rest).value + 1;
      assert (e + rest)[|e| + k..] == rest[k..];
    }
  }

  lemma SequenceAt(chunk: seq<byte>)
    requires |chunk| >= 2 && chunk[0] == 27 && (chunk[1] == 0x5B || chunk[1] == 0x4F)
    ensures FinalAt(chunk[2..]).None? ==> Keys(chunk) == []
    ensures FinalAt(chunk[2..]).Some? ==>
            Keys(chunk) == Sequence(chunk[2 + FinalAt(chunk[2..]).value]) + Keys(BehindFinal(chunk[2..]))
  {
    hide Sequence, FinalAt;
    var final := FinalAt(chunk[2..]);
    if final.Some? {
      assert chunk[2..][final.value + 1..] == chunk[3 + final.value..];
    }
  }

  lemma EncodeTwo(input: seq<char>)
    requires |input| >= 2 && input[0] == ESC && Introduces(input[1])
    ensures var all := Encode(input);
            |all| >= 2 && all[0] == 27 && (all[1] == 0x5B || all[1] == 0x4F) && all[2..] == Encode(input[2..])
  {
    hide Encode, EncodeChar;
    FirstByte(input[0]);
    FirstByte(input[1]);
    EncodeStep(input);
    EncodeStep(input[1..]);
    assert input[1..][1..] == input[2..];
    assert Encode(input) == [27, input[1] as int] + Encode(input[2..]);
  }

  /** The keys of a sequence and what follows. */
  lemma SequenceKeys(input: seq<char>) returns (final: byte)
    requires |input| >= 2 && input[0] == ESC && Introduces(input[1])
    ensures FinalChar(input[2..]).None? ==> Keys(Encode(input)) == []
    ensures FinalChar(input[2..]).Some? ==>
            Keys(Encode(input)) == Sequence(final) + Keys(Encode(input[Stroke(input)..]))
  {
    hide *;
    var all, rest := Encode(input), input[2..];
    final := 0;
    EncodeTwo(input);
    FinalOfText(rest);
    SequenceAt(all);
    if FinalChar(rest).Some? {
      StrokeOfSequence(input);
      final := all[2 + FinalAt(all[2..]).value];
    }
  }

  lemma StrokeOfSequence(input: seq<char>)
    requires |input| >= 2 && input[0] == ESC && Introduces(input[1]) && FinalChar(input[2..]).Some?
    ensures input[Stroke(input)..] == input[2..][FinalChar(input[2..]).value + 1..]
  {
  }

  lemma StrokeSettled(text: seq<Symbol>, input: seq<char>)
    requires input != [] && Settled(text)
    ensures Settled(EditStroke(text, input))
  {
  }

  /** So the next read starts from such a query again. */
  lemma {:induction false} EditAllSettled(text: seq<Symbol>, input: seq<char>)
    requires Settled(text)
    ensures Settled(EditAll(text, input))
    decreases |input|
  {
    hide EditStroke, Settled;
    if input != [] {
      StrokeSettled(text, input);
      EditAllSettled(EditStroke(text, input), input[Stroke(input)..]);
    }
  }

  /** On every read of whole characters, whatever keys they are, the query is what the editor
      holds, while the picker goes on. */
  lemma {:induction false} QueryIsText(
    s: Search, hosts: seq<Host>, text: seq<Symbol>, selected: int, input: seq<char>)
    requires Settled(text)
    ensures var outcome := PressAll(s, hosts, State(Flat(text), selected), Keys(Encode(input)));
            outcome.Going? ==> outcome.state.query == Flat(EditAll(text, input))
    decreases |input|
  {
    hide Encode, EncodeChar, Keys, Edit, Press, Flat, Sequence;
    var state := State(Flat(text), selected);
    if input == [] {
      Ends(s, hosts, state);
      EncodeNone();
    } else if input[0] != ESC {
      var c := input[0];
      CharacterKeys(input);
      PressConcat(s, hosts, state, Keys(EncodeChar(c)), Keys(Encode(input[1..])));
      TypeCharacter(s, hosts, text, selected, c);
      var first := PressAll(s, hosts, state, Keys(EncodeChar(c)));
      if first.Going? {
        StrokeSettled(text, input);
        QueryIsText(s, hosts, Edit(text, c), first.state.selected, input[1..]);
      }
    } else if |input| == 1 {
      CloseKey(input);
      Closes(s, hosts, state);
    } else if !Introduces(input[1]) {
      QueryBehindAlt(s, hosts, text, selected, input);
    } else {
      var last := SequenceKeys(input);
      if FinalChar(input[2..]).Some? {
        var rest := input[Stroke(input)..];
        OneSequence(s, hosts, state, last, Keys(Encode(rest)));
        QueryIsText(s, hosts, text, Steered(s, hosts, state, last).selected, rest);
        assert Steered(s, hosts, state, last).query == state.query;
      }
    }
  }

  lemma {:induction false} QueryBehindAlt(
    s: Search, hosts: seq<Host>, text: seq<Symbol>, selected: int, input: seq<char>)
    requires Settled(text) && |input| >= 2 && input[0] == ESC && !Introduces(input[1])
    ensures var outcome := PressAll(s, hosts, State(Flat(text), selected), Keys(Encode(input)));
            outcome.Going? ==> outcome.state.query == Flat(EditAll(text, input))
    decreases |input|, 0
  {
    var c, state := input[1], State(Flat(text), selected);
    var tail := EncodeChar(c)[1..];
    assert Settled(text + Strays(tail));
    FirstByte(input[0]);
    hide Encode, EncodeChar, Keys, Edit, Press, Flat, Sequence;
    EncodeStep(input);
    EncodeStep(input[1..]);
    assert input[1..][1..] == input[2..];
    AltKeys(c, Encode(input[2..]));
    PressConcat(s, hosts, state, Typings(tail), Keys(Encode(input[2..])));
    AltTyped(s, hosts, state, c);
    FlatConcat(text, Strays(tail));
    FlatStrays(tail);
    var first := PressAll(s, hosts, state, Typings(tail));
    QueryIsText(s, hosts, text + Strays(tail), first.state.selected, input[2..]);
  }

  lemma EncodeNone()
    ensures Encode([]) == []
  {
  }

  lemma CharacterKeys(input: seq<char>)
    requires input != [] && input[0] != ESC
    ensures Keys(Encode(input)) == Keys(EncodeChar(input[0])) + Keys(Encode(input[1..]))
  {
    NoEscape(input[0]);
    EncodeStep(input);
    PlainKeys(EncodeChar(input[0]), Encode(input[1..]));
    OnlyPlain(EncodeChar(input[0]));
  }

  lemma CloseKey(input: seq<char>)
    requires input == [ESC]
    ensures Keys(Encode(input)) == [Close]
  {
    FirstByte(ESC);
    EncodeStep(input);
    assert Encode(input) == [27];
  }

  // ------------------------------------------------------- when the query stays text

  predicate AllWhole(text: seq<Symbol>) {
    forall i :: 0 <= i < |text| ==> text[i].Whole?
  }

  /** No character of several bytes is typed with Alt. */
  predicate NoWideAlt(input: seq<char>)
    decreases |input|
  {
    input == [] || ((WithAlt(input) ==> Size(input[1]) == 1) && NoWideAlt(input[Stroke(input)..]))
  }

  lemma {:induction false} FinalPrefix(rest: seq<char>, n: nat)
    requires n <= |rest|
    ensures FinalChar(rest[..n]) ==
            if FinalChar(rest).Some? && FinalChar(rest).value < n then FinalChar(rest) else None
  {
    if n > 0 {
      FinalPrefix(rest[1..], n - 1);
      assert rest[..n][1..] == rest[1..][..n - 1];
    }
  }

  /** A keystroke cut short does nothing; one that is whole does what it does. */
  lemma StrokePrefix(text: seq<Symbol>, input: seq<char>, n: nat)
    requires input != [] && n <= |input|
    ensures n < Stroke(input) ==> EditAll(text, input[..n]) == text
    ensures n >= Stroke(input) ==>
            EditAll(text, input[..n]) == EditAll(EditStroke(text, input), input[Stroke(input)..][..n - Stroke(input)])
  {
    hide Edit;
    var cut := input[..n];
    if n >= 2 {
      FinalPrefix(input[2..], n - 2);
      assert cut[2..] == input[2..][..n - 2];
    }
    hide FinalChar;
    if n >= Stroke(input) {
      assert Stroke(cut) == Stroke(input) && EditStroke(text, cut) == EditStroke(text, input);
      assert cut[Stroke(input)..] == input[Stroke(input)..][..n - Stroke(input)];
    } else if n > 0 {
      assert Stroke(cut) == n && EditStroke(text, cut) == text;
      assert cut[n..] == [];
    }
  }

  /** From a query that is text, it is text wherever the read stops exactly when no character
      of several bytes is typed with Alt. */
  lemma {:induction false} TextKeptDecided(text: seq<Symbol>, input: seq<char>)
    requires AllWhole(text)
    ensures NoWideAlt(input) <==> forall n :: 0 <= n <= |input| ==> AllWhole(EditAll(text, input[..n]))
    decreases |input|
  {
    hide EditAll;
    forall n | 0 <= n <= |input| && input == [] ensures AllWhole(EditAll(text, input[..n])) {
      assert input[..n] == input;
      NothingTyped(text, input);
    }
    if input != [] {
      var k, next := Stroke(input), EditStroke(text, input);
      var rest := input[k..];
      forall n | 0 <= n <= |input|
        ensures EditAll(text, input[..n]) == if n < k then text else EditAll(next, rest[..n - k])
      {
        StrokePrefix(text, input, n);
      }
      if WithAlt(input) && Size(input[1]) > 1 {
        assert rest[..0] == [];
        NothingTyped(next, []);
        assert next[|text|].Stray?;
        assert !AllWhole(EditAll(text, input[..k]));
      } else {
        assert AllWhole(next);
        TextKeptDecided(next, rest);
        forall m | 0 <= m <= |rest| ensures EditAll(text, input[..m + k]) == EditAll(next, rest[..m]) {}
      }
    }
  }

  lemma NothingTyped(text: seq<Symbol>, input: seq<char>)
    requires input == []
    ensures EditAll(text, input) == text
  {
  }

  /** Alt with U+00E9, in a read of its own, leaves its second byte in the query. */
  lemma AltLeavesByte(s: Search, hosts: seq<Host>)
    ensures Encode([ESC, '\U{E9}']) == [27, 0xC3, 0xA9]
    ensures PressAll(s, hosts, State([], 0), Keys([27, 0xC3, 0xA9])) == Going(State([0xA9], 0)) && !Valid([0xA9])
  {
    var c := '\U{E9}';
    EncodeStep([ESC, c]);
    EncodeStep([c]);
    assert [ESC, c][1..] == [c] && [c][1..] == [];
    assert EncodeChar(c) == [0xC3, 0xA9] && EncodeChar(ESC) == [27];
    AltKeys(c, []);
    assert [27] + (EncodeChar(c) + []) == [27, 0xC3, 0xA9] && EncodeChar(c)[1..] == [0xA9];
    hide EncodeChar, Encode;
    OnlyPlain([]);
    assert Keys([27, 0xC3, 0xA9]) == Typings([0xA9]) + Keys([]) == Typings([0xA9]);
    hide Keys;
    TypeBytes(s, hosts, State([], 0), [0xA9]);
    assert [] + [0xA9] == [0xA9];
  }

  /** The query that the editor holds is valid UTF-8 exactly when it has no stray. */
  lemma QueryValidDecided(text: seq<Symbol>)
    requires Settled(text)
    ensures Valid(Flat(text)) <==> AllWhole(text)
  {
    SymbolsFlat(text);
    ValidDecided(Flat(text));
  }

  lemma {:induction false} FlatWholes(text: seq<char>)
    ensures Flat(Wholes(text)) == Encode(text)
  {
    hide EncodeChar;
    if text != [] {
      FlatWholes(text[1..]);
      assert Wholes(text)[1..] == Wholes(text[1..]);
    }
  }

  function Wholes(text: seq<char>): (r: seq<Symbol>)
    ensures |r| == |text| && forall i :: 0 <= i < |text| ==> r[i] == Whole(text[i])
  {
    seq(|text|, i requires 0 <= i < |text| => Whole(text[i]))
  }

  lemma EncodeStep(s: seq<char>)
    requires s != []
    ensures Encode(s) == EncodeChar(s[0]) + Encode(s[1..])
  {
  }

  lemma NoEscape(c: char)
    requires c as int != 27
    ensures 27 !in EncodeChar(c)
  {
    if c as int < 0x80 {
      assert EncodeChar(c) == [c as int];
    }
  }
}
