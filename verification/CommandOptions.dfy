/** The one parser behind every command's options. */
module CommandOptions {
  import opened Wrappers

  datatype CommandOption = CommandOption(name: string, aliases: seq<string>, takesValue: bool)

  datatype Definition = Definition(options: seq<CommandOption>, endsAtDelimiter: bool)

  datatype Arguments = Arguments(
    values: map<string, string>,
    positionals: seq<string>,
    delimited: bool,
    rest: seq<string>)

  datatype Refusal =
    | Unknown(argument: string)
    | Repeated(option: CommandOption)
    | TakesNoValue(name: string)
    | RequiresValue(name: string)
    | TakesNoPositional(argument: string)

  const NONE_READ := Arguments(map[], [], false, [])

  function Find(options: seq<CommandOption>, name: string): (r: Option<CommandOption>)
    ensures r.Some? ==> r.value in options && (name == r.value.name || name in r.value.aliases)
    ensures r.None? ==> forall o :: o in options ==> name != o.name && name !in o.aliases
  {
    if options == [] then None
    else if options[0].name == name || name in options[0].aliases then Some(options[0])
    else Find(options[1..], name)
  }

  predicate LooksLikeOption(argument: string) {
    |argument| >= 2 && argument[0] == '-'
  }

  predicate Long(argument: string) {
    "--" <= argument
  }

  /** strings.Cut at the first equals sign. */
  function Cut(s: string): (r: (string, string, bool))
    ensures '=' !in r.0
    ensures s == if r.2 then r.0 + "=" + r.1 else r.0
  {
    if s == "" then ("", "", false)
    else if s[0] == '=' then ("", s[1..], true)
    else
      var (name, inline, found) := Cut(s[1..]);
      ([s[0]] + name, inline, found)
  }

  lemma {:induction false} CutAt(name: string, value: string)
    requires '=' !in name
    ensures Cut(name + "=" + value) == (name, value, true) && Cut(name) == (name, "", false)
  {
    var s := name + "=" + value;
    if name == "" {
      assert s[0] == '=' && s[1..] == value;
    } else {
      CutAt(name[1..], value);
      assert s[0] == name[0] && s[1..] == name[1..] + "=" + value;
      assert name == [name[0]] + name[1..];
    }
  }

  /** How an argument that looks like an option is read: only long ones may carry a value. */
  function Split(argument: string): (string, string, bool) {
    if Long(argument) then Cut(argument) else (argument, "", false)
  }

  /** The reading of args from the front, given what has been read before. */
  function ParseFrom(d: Definition, args: seq<string>, read: Arguments): Result<Arguments, Refusal> {
    if args == [] then Ok(read)
    else if d.endsAtDelimiter && args[0] == "--" then Ok(read.(delimited := true, rest := args[1..]))
    else if !LooksLikeOption(args[0]) then
      ParseFrom(d, args[1..], read.(positionals := read.positionals + [args[0]]))
    else
      var (name, inline, hasInline) := Split(args[0]);
      match Find(d.options, name)
      case None => Err(Unknown(args[0]))
      case Some(option) =>
        if option.name in read.values then Err(Repeated(option))
        else if !option.takesValue && hasInline then Err(TakesNoValue(name))
        else if hasInline then ParseFrom(d, args[1..], read.(values := read.values[option.name := inline]))
        else if option.takesValue then
          if |args| == 1 then Err(RequiresValue(name))
          else ParseFrom(d, args[2..], read.(values := read.values[option.name := args[1]]))
        else ParseFrom(d, args[1..], read.(values := read.values[option.name := ""]))
  }

  method Parse(d: Definition, args: seq<string>) returns (result: Result<Arguments, Refusal>)
    ensures result == ParseFrom(d, args, NONE_READ)
  {
    var parsed, index := NONE_READ, 0;
    while index < |args|
      invariant 0 <= index <= |args|
      invariant ParseFrom(d, args, NONE_READ) == ParseFrom(d, args[index..], parsed)
    {
      var argument := args[index];
      if d.endsAtDelimiter && argument == "--" {
        return Ok(parsed.(delimited := true, rest := args[index + 1..]));
      }
      if |argument| < 2 || argument[0] != '-' {
        parsed := parsed.(positionals := parsed.positionals + [argument]);
        index := index + 1;
        continue;
      }
      var name, inline, hasInline := argument, "", false;
      if Long(argument) {
        var cut := Cut(argument);
        name, inline, hasInline := cut.0, cut.1, cut.2;
      }
      var found := Find(d.options, name);
      if found.None? {
        return Err(Unknown(argument));
      }
      var option := found.value;
      if option.name in parsed.values {
        return Err(Repeated(option));
      }
      var value := "";
      if !option.takesValue && hasInline {
        return Err(TakesNoValue(name));
      } else if hasInline {
        value := inline;
      } else if option.takesValue {
        index := index + 1;
        if index >= |args| {
          return Err(RequiresValue(name));
        }
        value := args[index];
      }
      parsed := parsed.(values := parsed.values[option.name := value]);
      index := index + 1;
    }
    return Ok(parsed);
  }

  /** parseWithoutPositionals: the parse, refused further exactly for a positional. */
  method ParseWithoutPositionals(d: Definition, args: seq<string>) returns (result: Result<Arguments, Refusal>)
    ensures result.Ok? ==> result == ParseFrom(d, args, NONE_READ) && result.value.positionals == []
    ensures result.Err? ==>
            match ParseFrom(d, args, NONE_READ)
            case Err(refusal) => result == Err(refusal)
            case Ok(arguments) =>
              arguments.positionals != [] && result == Err(TakesNoPositional(arguments.positionals[0]))
  {
    var parsed := Parse(d, args);
    if parsed.Ok? && |parsed.value.positionals| != 0 {
      return Err(TakesNoPositional(parsed.value.positionals[0]));
    }
    return parsed;
  }

  // ---------------------------------------------- the command lines that can be written

  /** A command line in pieces, each of which stands for one thing the user said. */
  datatype Piece =
    | Positional(text: string)
    | Switch(option: CommandOption, spelling: string)
    | Spaced(option: CommandOption, spelling: string, value: string)
    | Inline(option: CommandOption, spelling: string, value: string)
  {
    predicate Writes(d: Definition) {
      match this
      case Positional(text) => !LooksLikeOption(text)
      case Switch(option, spelling) => Spells(d, spelling, option) && !option.takesValue
      case Spaced(option, spelling, _) => Spells(d, spelling, option) && option.takesValue
      case Inline(option, spelling, _) =>
        Long(spelling) && '=' !in spelling && Find(d.options, spelling) == Some(option) && option.takesValue
    }

    function Words(): seq<string> {
      match this
      case Positional(text) => [text]
      case Switch(_, spelling) => [spelling]
      case Spaced(_, spelling, value) => [spelling, value]
      case Inline(_, spelling, value) => [spelling + "=" + value]
    }

    function Value(): string {
      if Spaced? || Inline? then value else ""
    }
  }

  /** The word stands for the option, by name or alias. */
  predicate Spells(d: Definition, word: string, option: CommandOption) {
    && LooksLikeOption(word)
    && !(d.endsAtDelimiter && word == "--")
    && (Long(word) ==> '=' !in word)
    && Find(d.options, word) == Some(option)
  }

  function Words(pieces: seq<Piece>): seq<string> {
    if pieces == [] then [] else pieces[0].Words() + Words(pieces[1..])
  }

  /** The whole line: the pieces and, where a delimiter was written, all behind it. */
  function Line(pieces: seq<Piece>, tail: Option<seq<string>>): seq<string> {
    Words(pieces) + if tail.Some? then ["--"] + tail.value else []
  }

  function Texts(pieces: seq<Piece>): seq<string> {
    if pieces == [] then []
    else (if pieces[0].Positional? then [pieces[0].text] else []) + Texts(pieces[1..])
  }

  ghost predicate Gives(pieces: seq<Piece>, name: string, value: string) {
    exists p :: p in pieces && !p.Positional? && p.option.name == name && p.Value() == value
  }

  ghost predicate Bound(values: map<string, string>, name: string, value: string) {
    name in values && values[name] == value
  }

  /** What the pieces mean, whatever the order of the options. */
  ghost predicate Means(pieces: seq<Piece>, tail: Option<seq<string>>, r: Arguments) {
    && (forall name, value :: Gives(pieces, name, value) <==> Bound(r.values, name, value))
    && r.positionals == Texts(pieces)
    && r.delimited == tail.Some?
    && r.rest == if tail.Some? then tail.value else []
  }

  /** No option is given twice, under whatever spellings. */
  ghost predicate Once(pieces: seq<Piece>) {
    forall i, j :: 0 <= i < j < |pieces| && !pieces[i].Positional? && !pieces[j].Positional? ==>
      pieces[i].option.name != pieces[j].option.name
  }

  ghost predicate Written(d: Definition, pieces: seq<Piece>, tail: Option<seq<string>>) {
    (forall p :: p in pieces ==> p.Writes(d)) && (tail.Some? ==> d.endsAtDelimiter)
  }

  ghost predicate Renders(
    d: Definition, pieces: seq<Piece>, tail: Option<seq<string>>, args: seq<string>, r: Arguments)
  {
    Written(d, pieces, tail) && args == Line(pieces, tail) && Once(pieces) && Means(pieces, tail, r)
  }

  // ------------------------------------------------------- the parser inverts writing

  /** What has been read once a piece has been, too. */
  ghost function Read(read: Arguments, p: Piece): Arguments {
    if p.Positional? then read.(positionals := read.positionals + [p.text])
    else read.(values := read.values[p.option.name := p.Value()])
  }

  ghost function ReadAll(read: Arguments, pieces: seq<Piece>): Arguments
    decreases |pieces|
  {
    if pieces == [] then read else ReadAll(Read(read, pieces[0]), pieces[1..])
  }

  ghost function Ended(read: Arguments, tail: Option<seq<string>>): Arguments {
    if tail.Some? then read.(delimited := true, rest := tail.value) else read
  }

  ghost predicate Known(read: Arguments, p: Piece) {
    !p.Positional? && p.option.name in read.values
  }

  /** No piece gives an option that has been read, or given by an earlier piece. */
  ghost predicate Fresh(read: Arguments, pieces: seq<Piece>) {
    Once(pieces) && forall p :: p in pieces ==> !Known(read, p)
  }

  lemma FreshStep(read: Arguments, pieces: seq<Piece>)
    requires pieces != []
    ensures Fresh(read, pieces) <==> !Known(read, pieces[0]) && Fresh(Read(read, pieces[0]), pieces[1..])
  {
    var first, others := pieces[0], pieces[1..];
    assert pieces == [first] + others;
    if !Known(read, first) && Fresh(Read(read, first), others) {
      forall i, j | 0 <= i < j < |pieces| && !pieces[i].Positional? && !pieces[j].Positional?
        ensures pieces[i].option.name != pieces[j].option.name
      {
        assert pieces[j] == others[j - 1];
        if i > 0 {
          assert pieces[i] == others[i - 1];
        } else {
          assert others[j - 1] in others && !Known(Read(read, first), others[j - 1]);
        }
      }
      forall p | p in pieces ensures !Known(read, p) {
        if p != first {
          var j :| 0 <= j < |pieces| && pieces[j] == p;
          assert others[j - 1] == p && p in others && !Known(Read(read, first), p);
        }
      }
    }
    if Fresh(read, pieces) {
      forall p | p in others ensures !Known(Read(read, first), p) {
        var j :| 0 <= j < |others| && others[j] == p;
        assert pieces[j + 1] == p && pieces[0] == first && !Known(read, p);
      }
    }
  }

  /** One piece: refused when its option is known, else read. */
  lemma ParsePiece(d: Definition, p: Piece, more: seq<string>, read: Arguments)
    requires p.Writes(d)
    ensures ParseFrom(d, p.Words() + more, read) ==
            if Known(read, p) then Err(Repeated(p.option)) else ParseFrom(d, more, Read(read, p))
  {
    var args := p.Words() + more;
    match p {
      case Positional(text) =>
        assert args[0] == text && args[1..] == more;
      case Switch(option, spelling) =>
        assert args[0] == spelling && args[1..] == more;
        CutAt(if Long(spelling) then spelling else "", "");
      case Spaced(option, spelling, value) =>
        assert args[0] == spelling && args[1] == value && args[2..] == more;
        CutAt(if Long(spelling) then spelling else "", "");
      case Inline(option, spelling, value) =>
        var word := spelling + "=" + value;
        assert args[0] == word && args[1..] == more;
        assert word[..2] == spelling[..2] && |word| > 2 && LooksLikeOption(word);
        CutAt(spelling, value);
    }
  }

  lemma {:induction false} ParsePieces(d: Definition, pieces: seq<Piece>, more: seq<string>, read: Arguments)
    requires forall p :: p in pieces ==> p.Writes(d)
    ensures Fresh(read, pieces) ==>
            ParseFrom(d, Words(pieces) + more, read) == ParseFrom(d, more, ReadAll(read, pieces))
    ensures !Fresh(read, pieces) ==>
            ParseFrom(d, Words(pieces) + more, read).Err? && ParseFrom(d, Words(pieces) + more, read).error.Repeated?
    decreases |pieces|
  {
    if pieces == [] {
      assert Words(pieces) + more == more;
    } else {
      assert Words(pieces) + more == pieces[0].Words() + (Words(pieces[1..]) + more);
      ParsePiece(d, pieces[0], Words(pieces[1..]) + more, read);
      FreshStep(read, pieces);
      hide ParseFrom, Fresh;
      if !Known(read, pieces[0]) {
        ParsePieces(d, pieces[1..], more, Read(read, pieces[0]));
      }
    }
  }

  lemma GivesStep(pieces: seq<Piece>, name: string, value: string)
    requires pieces != []
    ensures Gives(pieces, name, value) <==>
            Gives(pieces[1..], name, value) ||
            (!pieces[0].Positional? && pieces[0].option.name == name && pieces[0].Value() == value)
  {
    assert pieces == [pieces[0]] + pieces[1..];
  }

  /** What is read means what the pieces mean. */
  lemma {:induction false} ReadAllMeans(read: Arguments, pieces: seq<Piece>)
    requires Fresh(read, pieces)
    ensures var r := ReadAll(read, pieces);
            && r.positionals == read.positionals + Texts(pieces)
            && r.delimited == read.delimited && r.rest == read.rest
            && (forall name, value ::
                  Bound(r.values, name, value) <==> Gives(pieces, name, value) || Bound(read.values, name, value))
    decreases |pieces|
  {
    if pieces != [] {
      FreshStep(read, pieces);
      ReadAllMeans(Read(read, pieces[0]), pieces[1..]);
      var first, others, after := pieces[0], pieces[1..], Read(read, pieces[0]);
      assert !Known(read, first);
      forall name, value
        ensures Gives(pieces, name, value) || Bound(read.values, name, value) <==>
                Gives(others, name, value) || Bound(after.values, name, value)
      {
        GivesStep(pieces, name, value);
      }
    }
  }

  /** The pieces behind an argument list that is read. */
  lemma {:induction false} ReadPieces(d: Definition, args: seq<string>, read: Arguments)
    returns (pieces: seq<Piece>, tail: Option<seq<string>>)
    requires ParseFrom(d, args, read).Ok?
    ensures Written(d, pieces, tail) && args == Line(pieces, tail) && Fresh(read, pieces)
    decreases |args|
  {
    if args == [] {
      return [], None;
    }
    if d.endsAtDelimiter && args[0] == "--" {
      return [], Some(args[1..]);
    }
    var p := FirstPiece(d, args, read);
    var more := args[|p.Words()|..];
    assert args == p.Words() + more;
    ParsePiece(d, p, more, read);
    hide *;
    var others;
    others, tail := ReadPieces(d, more, Read(read, p));
    pieces := [p] + others;
    Prepend(d, p, others, tail, read);
  }

  lemma Prepend(d: Definition, p: Piece, others: seq<Piece>, tail: Option<seq<string>>, read: Arguments)
    requires p.Writes(d) && Written(d, others, tail) && !Known(read, p) && Fresh(Read(read, p), others)
    ensures Written(d, [p] + others, tail) && Fresh(read, [p] + others)
    ensures Line([p] + others, tail) == p.Words() + Line(others, tail)
  {
    hide Fresh, Known, Read, Piece.Writes;
    var pieces := [p] + others;
    assert pieces[1..] == others;
    FreshStep(read, pieces);
  }

  lemma LongCut(s: string)
    requires Long(s) && Cut(s).2
    ensures Long(Cut(s).0)
  {
    assert s[0] == '-' && s[1..][0] == '-';
    assert Cut(s).0 == [s[0]] + Cut(s[1..]).0;
    assert Cut(s[1..]).0 == [s[1]] + Cut(s[1..][1..]).0;
  }

  lemma FirstPiece(d: Definition, args: seq<string>, read: Arguments) returns (p: Piece)
    requires args != [] && !(d.endsAtDelimiter && args[0] == "--") && ParseFrom(d, args, read).Ok?
    ensures p.Writes(d) && p.Words() <= args
  {
    if !LooksLikeOption(args[0]) {
      return Positional(args[0]);
    }
    var (name, inline, hasInline) := Split(args[0]);
    var option := Find(d.options, name).value;
    if hasInline {
      LongCut(args[0]);
      return Inline(option, name, inline);
    } else if option.takesValue {
      return Spaced(option, name, args[1]);
    } else {
      return Switch(option, name);
    }
  }

  /** A result is the reading of an argument list exactly when the list can be written for
      it: options in any order, by any spelling, values in either form, positionals between
      them, and a tail behind the delimiter where the command has one. */
  lemma ParseInvertsWriting(d: Definition, args: seq<string>, r: Arguments)
    ensures ParseFrom(d, args, NONE_READ) == Ok(r) <==> exists pieces, tail :: Renders(d, pieces, tail, args, r)
  {
    if ParseFrom(d, args, NONE_READ) == Ok(r) {
      var pieces, tail := ReadPieces(d, args, NONE_READ);
      LineRead(d, pieces, tail, r);
      assert Renders(d, pieces, tail, args, r);
    }
    forall pieces, tail | Renders(d, pieces, tail, args, r)
      ensures ParseFrom(d, args, NONE_READ) == Ok(r)
    {
      LineRead(d, pieces, tail, r);
    }
  }

  /** The line of written pieces is read as the one result that they mean; it is refused,
      as a repetition, exactly when an option is given twice. */
  lemma LineRead(d: Definition, pieces: seq<Piece>, tail: Option<seq<string>>, r: Arguments)
    requires Written(d, pieces, tail)
    ensures var result := ParseFrom(d, Line(pieces, tail), NONE_READ);
            if Once(pieces) then result == Ok(r) <==> Means(pieces, tail, r)
            else result.Err? && result.error.Repeated?
  {
    var end := if tail.Some? then ["--"] + tail.value else [];
    ParsePieces(d, pieces, end, NONE_READ);
    assert Fresh(NONE_READ, pieces) <==> Once(pieces);
    if Once(pieces) {
      var all := ReadAll(NONE_READ, pieces);
      assert tail.Some? ==> end[1..] == tail.value;
      assert ParseFrom(d, end, all) == Ok(Ended(all, tail));
      ReadAllMeans(NONE_READ, pieces);
      assert Means(pieces, tail, Ended(all, tail));
      if Means(pieces, tail, r) {
        MeaningUnique(pieces, tail, r, Ended(all, tail));
      }
    }
  }

  lemma MeaningUnique(pieces: seq<Piece>, tail: Option<seq<string>>, a: Arguments, b: Arguments)
    requires Means(pieces, tail, a) && Means(pieces, tail, b)
    ensures a == b
  {
    forall name | name in a.values ensures name in b.values && b.values[name] == a.values[name] {
      assert Bound(a.values, name, a.values[name]);
    }
    forall name | name in b.values ensures name in a.values {
      assert Bound(b.values, name, b.values[name]);
    }
    assert a.values == b.values;
  }

  /** Neither the order of the options nor the form of a value nor the spelling matters:
      two lines with the same positionals, tail and given options read alike. */
  lemma WritingDoesNotMatter(d: Definition, a: seq<Piece>, b: seq<Piece>, tail: Option<seq<string>>)
    requires Written(d, a, tail) && Written(d, b, tail) && Once(a) && Once(b)
    requires Texts(a) == Texts(b) && forall name, value :: Gives(a, name, value) <==> Gives(b, name, value)
    ensures ParseFrom(d, Line(a, tail), NONE_READ) == ParseFrom(d, Line(b, tail), NONE_READ)
    ensures ParseFrom(d, Line(a, tail), NONE_READ).Ok?
  {
    var end := if tail.Some? then ["--"] + tail.value else [];
    ParsePieces(d, a, end, NONE_READ);
    var r := Ended(ReadAll(NONE_READ, a), tail);
    assert ParseFrom(d, Line(a, tail), NONE_READ) == Ok(r) by {
      assert tail.Some? ==> end[1..] == tail.value;
    }
    LineRead(d, a, tail, r);
    assert Means(b, tail, r);
    LineRead(d, b, tail, r);
  }

  predicate Stands(word: string, option: CommandOption) {
    word == option.name || word in option.aliases
  }

  ghost predicate DistinctSpellings(options: seq<CommandOption>) {
    forall a, b, w :: a in options && b in options && Stands(w, a) && Stands(w, b) ==> a == b
  }

  /** In a table whose spellings are distinct, every one of them stands for its option. */
  lemma EverySpellingWorks(d: Definition, option: CommandOption, word: string)
    requires DistinctSpellings(d.options) && option in d.options && Stands(word, option)
    requires LooksLikeOption(word) && word != "--" && '=' !in word
    ensures Spells(d, word, option)
    ensures Long(word) && option.takesValue ==> forall value :: Inline(option, word, value).Writes(d)
  {
    var found := Find(d.options, word);
    assert Stands(word, found.value);
  }

  /** A value may be given as the next word or behind an equals sign, and by any spelling. */
  lemma FormsInterchangeable(d: Definition, a: seq<Piece>, option: CommandOption, word: string, other: string,
                             value: string, b: seq<Piece>, tail: Option<seq<string>>)
    requires Written(d, a + [Spaced(option, word, value)] + b, tail) && Once(a + [Spaced(option, word, value)] + b)
    requires Inline(option, other, value).Writes(d)
    ensures ParseFrom(d, Line(a + [Spaced(option, word, value)] + b, tail), NONE_READ) ==
            ParseFrom(d, Line(a + [Inline(option, other, value)] + b, tail), NONE_READ)
    ensures ParseFrom(d, Line(a + [Inline(option, other, value)] + b, tail), NONE_READ).Ok?
  {
    var p, q := Spaced(option, word, value), Inline(option, other, value);
    var xs, ys := a + [p] + b, a + [q] + b;
    assert forall i :: 0 <= i < |xs| && i != |a| ==> xs[i] == ys[i];
    assert xs[|a|] == p && ys[|a|] == q;
    forall y | y in ys ensures y.Writes(d) {
      var i :| 0 <= i < |ys| && ys[i] == y;
      assert xs[i] in xs;
    }
    assert Once(ys) by {
      hide Written;
      forall i, j | 0 <= i < j < |ys| && !ys[i].Positional? && !ys[j].Positional?
        ensures ys[i].option.name != ys[j].option.name
      {
        assert xs[i].option.name == ys[i].option.name && xs[j].option.name == ys[j].option.name;
      }
    }
    TextsSwap(a, p, q, b);
    forall name, given ensures Gives(xs, name, given) <==> Gives(ys, name, given) {
      GivesSwap(xs, ys, |a|, name, given);
      GivesSwap(ys, xs, |a|, name, given);
    }
    WritingDoesNotMatter(d, xs, ys, tail);
  }

  lemma GivesSwap(xs: seq<Piece>, ys: seq<Piece>, n: nat, name: string, value: string)
    requires n < |xs| == |ys| && forall i :: 0 <= i < |xs| && i != n ==> xs[i] == ys[i]
    requires !xs[n].Positional? && !ys[n].Positional? && xs[n].option == ys[n].option && xs[n].Value() == ys[n].Value()
    ensures Gives(xs, name, value) ==> Gives(ys, name, value)
  {
    if Gives(xs, name, value) {
      var p :| p in xs && !p.Positional? && p.option.name == name && p.Value() == value;
      var i :| 0 <= i < |xs| && xs[i] == p;
      assert ys[i] in ys;
    }
  }

  lemma {:induction false} TextsSwap(a: seq<Piece>, p: Piece, q: Piece, b: seq<Piece>)
    requires !p.Positional? && !q.Positional?
    ensures Texts(a + [p] + b) == Texts(a + [q] + b)
    decreases |a|
  {
    var xs, ys := a + [p] + b, a + [q] + b;
    if a == [] {
      assert xs[1..] == b && ys[1..] == b;
    } else {
      TextsSwap(a[1..], p, q, b);
      assert xs[1..] == a[1..] + [p] + b && ys[1..] == a[1..] + [q] + b;
    }
  }
}
