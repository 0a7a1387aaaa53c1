/** The systemd unit that sshc writes for itself, and how a unit found on disk is judged. */
module ServiceUnit {
  import opened Wrappers
  import opened GoText
  import Sorting

  const MARKER := "# Managed by sshc service install; schema=1\n"
  const HEAD :=
    "[Unit]\n" +
    "Description=sshc engine\n" +
    "After=default.target\n" +
    "\n" +
    "[Service]\n" +
    "Type=simple\n" +
    "ExecStart=\""
  const TAIL :=
    " engine\n" +
    "Restart=on-failure\n" +
    "SuccessExitStatus=130\n" +
    "\n" +
    "[Install]\n" +
    "WantedBy=default.target\n"
  const AFTER := "\"" + TAIL

  const PLACEHOLDER := "/sshc-service-executable"

  datatype Failure =
    | NotAbsolute
    | HasControl
    | Unreadable
    | NotInstalled
    | Unmanaged
    | Outdated
    | ExecutableMismatch
    | NotInOnePlace

  predicate Special(c: char) {
    c == '\\' || c == '"' || c == '%' || c == '$'
  }

  /** What the replacer writes for one character. */
  function EscapeChar(c: char): string {
    if c == '\\' then "\\\\" else if c == '"' then "\\\"" else if c == '%' then "%%" else if c == '$' then "$$" else [c]
  }

  function Escape(s: string): string {
    if s == "" then "" else EscapeChar(s[0]) + Escape(s[1..])
  }

  /** Accepted by systemdUnit: absolute and without control characters. */
  predicate Accepted(executable: string) {
    executable != "" && executable[0] == '/' && forall i :: 0 <= i < |executable| ==> !IsControl(executable[i])
  }

  /** A text with the escaped path, quoted, between two fixed parts. */
  function Around(before: string, path: string, tail: string): string {
    before + Escape(path) + ("\"" + tail)
  }

  function Unit(path: string): string {
    Around(MARKER + HEAD, path, TAIL)
  }

  /** systemdUnit. */
  function SystemdUnit(executable: string): Result<string, Failure> {
    if executable == "" || executable[0] != '/' then Err(NotAbsolute)
    else if exists i :: 0 <= i < |executable| && IsControl(executable[i]) then Err(HasControl)
    else Ok(Unit(Clean(executable)))
  }

  // --------------------------------------------------------------- reading the path back

  /** What undoes the escaping, up to the closing quote: the value and what
      follows; None when a special character stands alone or the quote is not closed. */
  function ReadQuoted(s: string): Option<(string, string)> {
    if s == "" then None
    else if s[0] == '"' then Some(("", s[1..]))
    else if s[0] == '\\' then
      if |s| >= 2 && (s[1] == '\\' || s[1] == '"') then Push(s[1], ReadQuoted(s[2..])) else None
    else if s[0] == '%' || s[0] == '$' then
      if |s| >= 2 && s[1] == s[0] then Push(s[0], ReadQuoted(s[2..])) else None
    else Push(s[0], ReadQuoted(s[1..]))
  }

  function Push(c: char, r: Option<(string, string)>): Option<(string, string)> {
    if r.None? then None else Some(([c] + r.value.0, r.value.1))
  }

  /** Escaping is undone by reading, whatever follows the closing quote. */
  lemma {:induction false} EscapeRead(s: string, rest: string)
    ensures ReadQuoted(Escape(s) + "\"" + rest) == Some((s, rest))
  {
    hide ReadQuoted, EscapeChar;
    if s == "" {
      ClosingRead(rest);
      assert Escape(s) + "\"" + rest == "\"" + rest;
    } else {
      var others := Escape(s[1..]) + "\"" + rest;
      EscapeRead(s[1..], rest);
      CharRead(s[0], others);
      assert Escape(s) + "\"" + rest == EscapeChar(s[0]) + others;
      assert s == [s[0]] + s[1..];
    }
  }

  lemma ClosingRead(rest: string)
    ensures ReadQuoted("\"" + rest) == Some(("", rest))
  {
    assert ("\"" + rest)[1..] == rest;
  }

  lemma CharRead(c: char, others: string)
    ensures ReadQuoted(EscapeChar(c) + others) == Push(c, ReadQuoted(others))
  {
    var all := EscapeChar(c) + others;
    assert all[|EscapeChar(c)|..] == others;
  }

  /** The path in a text of the form that Around gives. */
  function Within(before: string, tail: string, text: string): Option<string> {
    if before <= text then
      match ReadQuoted(text[|before|..])
      case Some((path, rest)) => if rest == tail then Some(path) else None
      case None => None
    else None
  }

  function ExecutableOf(unit: string): Option<string> {
    Within(MARKER + HEAD, TAIL, unit)
  }

  lemma AroundRead(before: string, path: string, tail: string)
    ensures Within(before, tail, Around(before, path, tail)) == Some(path)
  {
    hide ReadQuoted;
    EscapeRead(path, tail);
    Between(before, Escape(path), "\"" + tail);
    assert Escape(path) + ("\"" + tail) == Escape(path) + "\"" + tail;
  }

  lemma Between(before: string, middle: string, after: string)
    ensures var s := before + middle + after;
            before <= s && s[|before|..] == middle + after && HasSuffix(s, after)
  {
  }

  /** The unit names the cleaned path, and no other: two accepted executables have the same
      unit exactly when they are the same path. */
  lemma UnitDecidesPath(a: string, b: string)
    requires Accepted(a) && Accepted(b)
    ensures SystemdUnit(a) == SystemdUnit(b) <==> Clean(a) == Clean(b)
    ensures ExecutableOf(SystemdUnit(a).value) == Some(Clean(a))
  {
    hide Clean, Around, Within, Escape;
    AroundRead(MARKER + HEAD, Clean(a), TAIL);
    AroundRead(MARKER + HEAD, Clean(b), TAIL);
  }

  // --------------------------------------------------------- no line can be smuggled in

  lemma {:induction false} SplitChars(s: string, c: char)
    ensures forall p, x :: p in Split(s, c) && x in p ==> x in s
  {
    if s != [] {
      SplitChars(s[1..], c);
    }
  }

  lemma {:induction false} CleanPartsFrom(rooted: bool, kept: seq<string>, parts: seq<string>)
    ensures forall p :: p in CleanParts(rooted, kept, parts) ==> p in kept || p in parts
    decreases |parts|
  {
    if parts != [] {
      CleanPartsFrom(rooted, CleanStep(rooted, kept, parts[0]), parts[1..]);
    }
  }

  lemma {:induction false} JoinChars(parts: seq<string>, separator: string, x: char)
    requires x in Sorting.Join(parts, separator)
    ensures x in separator || exists p :: p in parts && x in p
  {
    if |parts| > 1 && x !in parts[0] && x !in separator {
      JoinChars(parts[1..], separator, x);
    }
  }

  lemma CleanChars(p: string, x: char)
    requires x in Clean(p)
    ensures x in p || x == '/' || x == '.'
  {
    var rooted := p != [] && p[0] == '/';
    var parts := CleanParts(rooted, [], Split(p, '/'));
    if x in Sorting.Join(parts, "/") {
      JoinChars(parts, "/", x);
      CleanPartsFrom(rooted, [], Split(p, '/'));
      SplitChars(p, '/');
    }
  }

  lemma {:induction false} EscapeChars(s: string, x: char)
    requires x in Escape(s)
    ensures x in s || x == '\\'
  {
    if x !in EscapeChar(s[0]) {
      EscapeChars(s[1..], x);
    }
  }

  /** What stands in the place of the path has no control character: it stays on its line. */
  lemma PathStaysOnItsLine(executable: string, x: char)
    requires Accepted(executable) && x in Escape(Clean(executable))
    ensures !IsControl(x)
  {
    EscapeChars(Clean(executable), x);
    if x != '\\' {
      CleanChars(executable, x);
    }
  }

  // ------------------------------------------------------------- judging what is on disk

  datatype OnDisk = Absent | Failing | Contents(text: string)

  datatype State = ServiceAbsent | ServiceUnmanaged | ServiceInactive

  datatype Snapshot = Snapshot(state: State, contents: string)

  /** readSnapshot. */
  function ReadSnapshot(file: OnDisk): Result<Snapshot, Failure> {
    match file
    case Absent => Ok(Snapshot(ServiceAbsent, ""))
    case Failing => Err(Unreadable)
    case Contents(text) =>
      if MARKER <= text then Ok(Snapshot(ServiceInactive, text)) else Ok(Snapshot(ServiceUnmanaged, text))
  }

  predicate EnsureUnchanged(file: OnDisk, expected: Snapshot) {
    var actual := ReadSnapshot(file);
    actual.Ok? && actual.value.state == expected.state && actual.value.contents == expected.contents
  }

  /** A snapshot tells the file apart from every other, an empty one from none included. */
  lemma UnchangedDecided(before: OnDisk, now: OnDisk)
    requires !before.Failing?
    ensures EnsureUnchanged(now, ReadSnapshot(before).value) <==> now == before
  {
    assert MARKER != "" && !(MARKER <= "") by {
      assert |MARKER| > 0;
    }
  }

  /** strings.Cut: the text before and after the first occurrence. */
  function CutText(s: string, separator: string): Option<(string, string)>
    requires separator != ""
  {
    if separator <= s then Some(("", s[|separator|..]))
    else if s == "" then None
    else
      match CutText(s[1..], separator)
      case None => None
      case Some((a, b)) => Some(([s[0]] + a, b))
  }

  lemma {:induction false} CutAtFirst(a: string, separator: string, b: string)
    requires separator != "" && separator[0] !in a
    ensures CutText(a + separator + b, separator) == Some((a, b))
  {
    var s := a + separator + b;
    if a == "" {
      assert s[..|separator|] == separator && s[|separator|..] == b;
    } else {
      assert s[0] == a[0] && s[1..] == a[1..] + separator + b;
      assert !(separator <= s);
      CutAtFirst(a[1..], separator, b);
      assert a == [a[0]] + a[1..];
    }
  }

  /** isOutdated. */
  function IsOutdated(file: OnDisk): Result<bool, Failure> {
    match ReadSnapshot(file)
    case Err(e) => Err(e)
    case Ok(snapshot) =>
      if snapshot.state != ServiceInactive then Ok(false)
      else
        match SystemdUnit(PLACEHOLDER)
        case Err(e) => Err(e)
        case Ok(template) =>
          match CutText(template, PLACEHOLDER)
          case None => Err(NotInOnePlace)
          case Some((before, after)) =>
            var contents := snapshot.contents;
            Ok(!(|contents| > |before| + |after| && before <= contents && HasSuffix(contents, after)))
  }

  predicate HasSuffix(s: string, suffix: string) {
    |suffix| <= |s| && s[|s| - |suffix|..] == suffix
  }

  /** matches: for a file that can be read. */
  function Matches(file: OnDisk, executable: string): Result<bool, Failure> {
    match SystemdUnit(executable)
    case Err(e) => Err(e)
    case Ok(expected) =>
      match file
      case Absent => Ok(false)
      case Failing => Err(Unreadable)
      case Contents(text) => Ok(text == expected)
  }

  /** restartPlan. */
  function RestartPlan(file: OnDisk, executable: string): Result<(), Failure> {
    match ReadSnapshot(file)
    case Err(e) => Err(e)
    case Ok(snapshot) =>
      if snapshot.state == ServiceAbsent then Err(NotInstalled)
      else if snapshot.state == ServiceUnmanaged then Err(Unmanaged)
      else
        match Matches(file, executable)
        case Err(e) => Err(e)
        case Ok(true) => Ok(())
        case Ok(false) =>
          match IsOutdated(file)
          case Err(e) => Err(e)
          case Ok(outdated) => Err(if outdated then Outdated else ExecutableMismatch)
  }

  lemma CleanOneName(name: string)
    requires '/' !in name && name !in ["", ".", ".."]
    ensures Clean("/" + name) == "/" + name
  {
    var p := "/" + name;
    assert p[0] == '/' && p[1..] == name;
    SplitNone(name, '/');
    assert Split(p, '/') == ["", name];
    assert Split(p, '/')[1..] == [name];
    assert CleanParts(true, [], ["", name]) == CleanParts(true, [], [name]);
    assert CleanParts(true, [], [name]) == CleanParts(true, [name], []) == [name] by {
      assert [name][1..] == [];
    }
    assert Sorting.Join([name], "/") == name;
  }

  lemma {:induction false} EscapePlain(s: string)
    requires forall i :: 0 <= i < |s| ==> !Special(s[i])
    ensures Escape(s) == s
  {
    if s != "" {
      EscapePlain(s[1..]);
      assert s == [s[0]] + s[1..];
    }
  }

  lemma PlaceholderPlain()
    ensures Clean(PLACEHOLDER) == PLACEHOLDER && Escape(PLACEHOLDER) == PLACEHOLDER
    ensures Accepted(PLACEHOLDER)
  {
    var name := "sshc-service-executable";
    assert PLACEHOLDER == "/" + name;
    assert '/' !in name;
    assert forall i :: 0 <= i < |PLACEHOLDER| ==> !Special(PLACEHOLDER[i]) && !IsControl(PLACEHOLDER[i]);
    hide Clean, Escape, IsControl, Special;
    CleanOneName(name);
    EscapePlain(PLACEHOLDER);
  }

  lemma NoSlashBefore()
    ensures '/' !in MARKER + HEAD
  {
    NoSlashInHead();
    NotInBoth('/', MARKER, HEAD);
  }

  lemma NoSlashInHead()
    ensures '/' !in HEAD
  {
    var a, b := "[Unit]\n" + "Description=sshc engine\n", "After=default.target\n" + "\n";
    var c := "[Service]\n" + "Type=simple\n";
    assert HEAD == a + b + c + "ExecStart=\"";
    NotInBoth('/', "[Unit]\n", "Description=sshc engine\n");
    NotInBoth('/', "After=default.target\n", "\n");
    NotInBoth('/', "[Service]\n", "Type=simple\n");
    hide *;
    NotInBoth('/', a, b);
    NotInBoth('/', a + b, c);
    NotInBoth('/', a + b + c, "ExecStart=\"");
  }

  lemma NotInBoth(c: char, a: string, b: string)
    requires c !in a && c !in b
    ensures c !in a + b
  {
  }

  lemma PlaceholderUnit()
    ensures SystemdUnit(PLACEHOLDER) == Ok(MARKER + HEAD + PLACEHOLDER + AFTER)
    ensures CutText(MARKER + HEAD + PLACEHOLDER + AFTER, PLACEHOLDER) == Some((MARKER + HEAD, AFTER))
  {
    hide Clean, Escape, CutText;
    PlaceholderPlain();
    NoSlashBefore();
    assert PLACEHOLDER[0] == '/';
    CutAtFirst(MARKER + HEAD, PLACEHOLDER, AFTER);
  }

  /** Having both ends, one after the other, is having something between them. */
  lemma EndsDecided(text: string, before: string, after: string)
    ensures (|text| > |before| + |after| && before <= text && HasSuffix(text, after)) <==>
            exists path :: path != "" && text == before + path + after
  {
    if |text| > |before| + |after| && before <= text && HasSuffix(text, after) {
      var path := text[|before|..|text| - |after|];
      assert text == before + path + after && path != "";
    }
    forall path | path != "" && text == before + path + after
      ensures |text| > |before| + |after| && before <= text && HasSuffix(text, after)
    {
      Between(before, path, after);
    }
  }

  /** A managed unit is current exactly when it is the fixed text around anything at all. */
  lemma OutdatedDecided(text: string)
    requires MARKER <= text
    ensures IsOutdated(Contents(text)) == Ok(!exists path :: path != "" && text == MARKER + HEAD + path + AFTER)
  {
    hide SystemdUnit, CutText, Escape, Clean, HasSuffix;
    PlaceholderUnit();
    EndsDecided(text, MARKER + HEAD, AFTER);
  }

  /** The unit written for an executable, judged for another: the plan stands exactly for the
      same path, and a different one is told as such and never as an outdated unit. */
  lemma RestartDecided(written: string, executable: string)
    requires Accepted(written) && Accepted(executable)
    ensures IsOutdated(Contents(SystemdUnit(written).value)) == Ok(false)
    ensures RestartPlan(Contents(SystemdUnit(written).value), executable) ==
            if Clean(written) == Clean(executable) then Ok(()) else Err(ExecutableMismatch)
  {
    hide SystemdUnit, IsOutdated, Clean, ExecutableOf;
    UnitText(written);
    UnitDecidesPath(written, executable);
    UnitText(executable);
    OutdatedDecided(SystemdUnit(written).value);
  }

  lemma UnitText(executable: string)
    requires Accepted(executable)
    ensures SystemdUnit(executable) == Ok(MARKER + HEAD + Escape(Clean(executable)) + AFTER)
    ensures MARKER <= SystemdUnit(executable).value && Escape(Clean(executable)) != ""
  {
    hide Clean;
    assert Clean(executable) != "" && Escape(Clean(executable)) != "";
    hide Escape;
    StartsWith(MARKER, HEAD, Escape(Clean(executable)), AFTER);
  }

  lemma StartsWith(a: string, b: string, c: string, d: string)
    ensures a <= a + b + c + d
  {
    assert a + b + c + d == a + (b + c + d);
  }

  /** A managed unit with a line of its own in the middle: it is called current, although
      sshc writes it for no executable. */
  lemma ExtraLineIsCurrent() returns (text: string)
    ensures text == MARKER + HEAD + "/x\" engine\nNice=5\nEnvironment=\"A=b" + AFTER
    ensures IsOutdated(Contents(text)) == Ok(false)
    ensures forall executable :: Accepted(executable) ==> SystemdUnit(executable) != Ok(text)
  {
    hide SystemdUnit, IsOutdated, Escape, Clean;
    var middle := "/x\" engine\nNice=5\nEnvironment=\"A=b";
    text := MARKER + HEAD + middle + AFTER;
    StartsWith(MARKER, HEAD, middle, AFTER);
    OutdatedDecided(text);
    assert middle[10] == '\n';
    forall executable | Accepted(executable) ensures SystemdUnit(executable) != Ok(text) {
      UnitText(executable);
      var path := Escape(Clean(executable));
      if MARKER + HEAD + path + AFTER == text {
        SameMiddle(MARKER + HEAD, path, middle, AFTER);
        PathStaysOnItsLine(executable, middle[10]);
        assert false;
      }
    }
  }

  lemma SameMiddle(before: string, a: string, b: string, after: string)
    requires before + a + after == before + b + after
    ensures a == b
  {
    var s := before + a + after;
    assert a == s[|before|..|s| - |after|] == b;
  }
}
