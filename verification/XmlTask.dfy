/** What is found inside a task, the task that sshc writes, and which tasks are taken for it. */
module XmlTask {
  import opened GoText
  import opened Sorting
  import opened TaskCanonical

  // ------------------------------------------------------- looking inside a task

  function Named(es: seq<Element>, name: string): (r: seq<Element>)
    ensures forall i :: 0 <= i < |r| ==> r[i].name == name && r[i] in es
  {
    if es == [] then []
    else if es[0].name == name then [es[0]] + Named(es[1..], name)
    else Named(es[1..], name)
  }

  const EMPTY := Element("", [], "", [])

  /** The element at a path on which every name occurs once, or EMPTY. */
  function At(e: Element, names: seq<string>): Element
    decreases |names|
  {
    if names == [] then e
    else
      var found := Named(e.children, names[0]);
      if |found| != 1 then EMPTY else At(found[0], names[1..])
  }

  /** Whatever its text, an element of this name is never ignored under this parent. */
  predicate NeverIgnored(parent: string, name: string) {
    && parent != "RegistrationInfo" && parent != "Settings" && parent != "IdleSettings"
    && !(parent == "Exec" && name == "WorkingDirectory")
    && parent + "/" + name !in SCHEMA_DEFAULTS
  }

  predicate AlwaysKept(parent: string, names: seq<string>)
    decreases |names|
  {
    names == [] || (NeverIgnored(parent, names[0]) && AlwaysKept(names[0], names[1..]))
  }

  function NormList(t: Tables, es: seq<Element>): (r: seq<Norm>)
    ensures |r| == |es|
    ensures forall i :: 0 <= i < |es| ==> r[i] == NormOf(t, es[i])
  {
    if es == [] then [] else [NormOf(t, es[0])] + NormList(t, es[1..])
  }

  lemma NeverIgnoredKept(e: Element, parent: string)
    requires NeverIgnored(parent, e.name)
    ensures !Ignored(e, parent)
  {}

  lemma {:induction false} NamedNorms(t: Tables, es: seq<Element>, parent: string, name: string)
    requires NeverIgnored(parent, name)
    ensures NamedOnly(NormsOf(t, es, parent), name) == NormList(t, Named(es, name))
  {
    hide Ignored;
    if es != [] {
      NamedNorms(t, es[1..], parent, name);
      var n, rest := NormOf(t, es[0]), NormsOf(t, es[1..], parent);
      var found := Named(es[1..], name);
      NamedOnlyCons(n, rest, name);
      if es[0].name == name {
        NeverIgnoredKept(es[0], parent);
        assert Named(es, name) == [es[0]] + found;
        assert ([es[0]] + found)[1..] == found;
      }
    }
  }

  lemma NamedOnlyCons(n: Norm, ns: seq<Norm>, name: string)
    ensures NamedOnly([n] + ns, name) == if n.name == name then [n] + NamedOnly(ns, name) else NamedOnly(ns, name)
  {
    assert ([n] + ns)[1..] == ns;
  }

  function NamedOnly(ns: seq<Norm>, name: string): (r: seq<Norm>)
    ensures forall n :: multiset(r)[n] == if n.name == name then multiset(ns)[n] else 0
  {
    if ns == [] then []
    else
      assert ns == [ns[0]] + ns[1..];
      if ns[0].name == name then [ns[0]] + NamedOnly(ns[1..], name) else NamedOnly(ns[1..], name)
  }

  /** Tasks that mean the same agree about what is found at a path that is never ignored. */
  lemma {:induction false} AtAgrees(t: Tables, a: Element, b: Element, names: seq<string>)
    requires SameMeaning(t, a, b) && AlwaysKept(a.name, names)
    ensures SameMeaning(t, At(a, names), At(b, names))
    decreases |names|
  {
    hide Ignored;
    if names != [] {
      var name := names[0];
      assert a.name == NormOf(t, a).name == b.name;
      NormChildren(t, a);
      NormChildren(t, b);
      NamedNorms(t, a.children, a.name, name);
      NamedNorms(t, b.children, b.name, name);
      NamedAgree(NormsOf(t, a.children, a.name), NormsOf(t, b.children, b.name), name);
      hide NeverIgnored;
      var xs, ys := Named(a.children, name), Named(b.children, name);
      if |xs| == 1 {
        assert NormList(t, xs)[0] in multiset(NormList(t, ys));
        AtAgrees(t, xs[0], ys[0], names[1..]);
      }
    }
  }

  lemma NamedAgree(ms: seq<Norm>, ns: seq<Norm>, name: string)
    requires multiset(ms) == multiset(ns)
    ensures multiset(NamedOnly(ms, name)) == multiset(NamedOnly(ns, name))
    ensures |NamedOnly(ms, name)| == |NamedOnly(ns, name)|
  {
    hide *;
    var xs, ys := NamedOnly(ms, name), NamedOnly(ns, name);
    assert multiset(xs) == multiset(ys);
    SameLength(xs, ys);
  }

  lemma NormChildren(t: Tables, a: Element)
    ensures NormOf(t, a).name == a.name
    ensures NormOf(t, a).children == multiset(NormsOf(t, a.children, a.name))
  {
    hide Ignored, NormsOf;
  }

  // -------------------------------------------------------- the task sshc writes

  const NAMESPACE := "http://schemas.microsoft.com/windows/2004/02/mit/task"
  const MARKER := "Managed by sshc: starts the sshc engine at logon."

  function Leaf(name: string, text: string): Element {
    Element(name, [], text, [])
  }

  function Node(name: string, children: seq<Element>): Element {
    Element(name, [], "", children)
  }

  /** What the XML parser reads from the task serviceTaskXML writes, up to the white
      space between elements, which Value trims. */
  function RegisteredTask(executable: string, sid: string): Element {
    Element("Task", [Attribute("version", "1.2"), Attribute("xmlns", NAMESPACE)], "",
            [REGISTRATION, Triggers(sid), Principals(sid), SETTINGS, Actions(executable)])
  }

  const REGISTRATION := Node("RegistrationInfo", [Leaf("Description", MARKER)])

  function Triggers(sid: string): Element {
    Node("Triggers", [Node("LogonTrigger", [Leaf("Enabled", "true"), Leaf("UserId", sid)])])
  }

  function Principals(sid: string): Element {
    Node("Principals", [Element("Principal", [Attribute("id", "Author")], "", [
      Leaf("UserId", sid), Leaf("LogonType", "InteractiveToken"), Leaf("RunLevel", "LeastPrivilege")])])
  }

  function Actions(executable: string): Element {
    Element("Actions", [Attribute("Context", "Author")], "", [
      Node("Exec", [Leaf("Command", executable), Leaf("Arguments", "engine --background")])])
  }

  const SETTINGS := Node("Settings", POLICIES + AVAILABILITY + IDLE + STARTS + LIMITS)

  const POLICIES := [
    Leaf("MultipleInstancesPolicy", "IgnoreNew"),
    Leaf("DisallowStartIfOnBatteries", "false"),
    Leaf("StopIfGoingOnBatteries", "false")]

  const AVAILABILITY := [
    Leaf("AllowHardTerminate", "false"),
    Leaf("StartWhenAvailable", "false"),
    Leaf("RunOnlyIfNetworkAvailable", "false")]

  const IDLE := [Node("IdleSettings", [Leaf("StopOnIdleEnd", "false"), Leaf("RestartOnIdle", "false")])]

  const STARTS := [
    Leaf("AllowStartOnDemand", "true"), Leaf("Enabled", "true"), Leaf("Hidden", "false"),
    Leaf("RunOnlyIfIdle", "false"), Leaf("WakeToRun", "false")]

  const LIMITS := [
    Leaf("ExecutionTimeLimit", "PT0S"), Leaf("Priority", "7"),
    Node("RestartOnFailure", [Leaf("Interval", "PT1M"), Leaf("Count", "3")])]

  predicate ContainsControl(s: string) {
    exists i :: 0 <= i < |s| && IsControl(s[i])
  }

  /** The second and the third byte are those characters only behind a one-byte character. */
  predicate DriveQualified(path: string) {
    |path| > 3 && path[0] < '\U{80}' && path[1] == ':' && path[2] == '/'
  }

  predicate ValidExecutable(t: Tables, executable: string) {
    var normalized := ReplaceAll(executable, '\\', '/');
    && (DriveQualified(normalized) || "//" <= normalized)
    && !ContainsControl(executable)
    && (forall i :: 0 <= i < |executable| ==> executable[i] !in "\"<>|?*")
    && t.equalFold(Base(normalized), "sshc.exe")
  }

  predicate ValidSid(sid: string) {
    "S-1-" <= sid && !ContainsControl(sid)
  }

  /** XML 1.0 section 2.2. */
  predicate XmlChar(c: char) {
    var v := c as int;
    v == 9 || v == 10 || v == 13 || 0x20 <= v < 0xD800 || 0xE000 <= v < 0xFFFE || 0x10000 <= v
  }

  /** A text written by xml.EscapeText and read back: U+FFFD stands for what XML cannot carry. */
  function XmlText(s: string): (r: string)
    ensures |r| == |s|
    ensures r == s <==> forall i :: 0 <= i < |s| ==> XmlChar(s[i])
  {
    seq(|s|, i requires 0 <= i < |s| => if XmlChar(s[i]) then s[i] else '\U{FFFD}')
  }

  /** taskElement.matches. */
  predicate Matches(t: Tables, task: Element, executable: string, sid: string) {
    ValidExecutable(t, executable) && ValidSid(sid) &&
    Canonical(t, task, "") == Canonical(t, RegisteredTask(XmlText(executable), XmlText(sid)), "")
  }

  const COMMAND := ["Actions", "Exec", "Command"]
  const PRINCIPAL := ["Principals", "Principal", "UserId"]
  const DESCRIPTION := ["RegistrationInfo", "Description"]

  /** taskElement.managedBy. */
  predicate ManagedBy(t: Tables, task: Element, sid: string) {
    && At(task, DESCRIPTION).text == MARKER
    && |At(task, ["Actions"]).children| == 1
    && ValidExecutable(t, At(task, COMMAND).text)
    && At(task, PRINCIPAL).text == sid
  }

  lemma {:induction false} EachWellNamed(es: seq<Element>)
    requires forall i :: 0 <= i < |es| ==> WellNamed(es[i])
    ensures AllWellNamed(es)
  {
    if es != [] {
      assert forall i :: 0 <= i < |es[1..]| ==> es[1..][i] == es[i + 1];
      EachWellNamed(es[1..]);
    }
  }

  lemma {:induction false} WellNamedConcat(es: seq<Element>, fs: seq<Element>)
    requires AllWellNamed(es) && AllWellNamed(fs)
    ensures AllWellNamed(es + fs)
  {
    if es == [] {
      assert es + fs == fs;
    } else {
      WellNamedConcat(es[1..], fs);
      assert (es + fs)[1..] == es[1..] + fs;
    }
  }

  predicate Letters(s: string) {
    s != [] && forall i :: 0 <= i < |s| ==> 'A' <= s[i] <= 'Z' || 'a' <= s[i] <= 'z'
  }

  lemma LettersName(s: string)
    requires Letters(s)
    ensures LocalName(s)
  {}

  lemma LeafWellNamed(name: string, text: string)
    requires Letters(name)
    ensures WellNamed(Leaf(name, text))
  {
    LettersName(name);
  }

  lemma NodeWellNamed(e: Element)
    requires Letters(e.name)
    requires forall i :: 0 <= i < |e.attributes| ==> Letters(e.attributes[i].local)
    requires forall i :: 0 <= i < |e.children| ==> WellNamed(e.children[i])
    ensures WellNamed(e)
  {
    hide Letters, LocalName;
    LettersName(e.name);
    forall i | 0 <= i < |e.attributes| ensures LocalName(e.attributes[i].local) {
      LettersName(e.attributes[i].local);
    }
    EachWellNamed(e.children);
  }

  lemma PoliciesWellNamed()
    ensures AllWellNamed(POLICIES)
  {
    hide WellNamed, LocalName, AllWellNamed, Leaf;
    LeafWellNamed("MultipleInstancesPolicy", "IgnoreNew");
    LeafWellNamed("DisallowStartIfOnBatteries", "false");
    LeafWellNamed("StopIfGoingOnBatteries", "false");
    EachWellNamed(POLICIES);
  }

  lemma AvailabilityWellNamed()
    ensures AllWellNamed(AVAILABILITY)
  {
    hide WellNamed, LocalName, AllWellNamed, Leaf;
    LeafWellNamed("AllowHardTerminate", "false");
    LeafWellNamed("StartWhenAvailable", "false");
    LeafWellNamed("RunOnlyIfNetworkAvailable", "false");
    EachWellNamed(AVAILABILITY);
  }

  lemma IdleWellNamed()
    ensures AllWellNamed(IDLE)
  {
    hide WellNamed, LocalName, AllWellNamed, Leaf;
    LeafWellNamed("StopOnIdleEnd", "false");
    LeafWellNamed("RestartOnIdle", "false");
    NodeWellNamed(IDLE[0]);
    EachWellNamed(IDLE);
  }

  lemma StartsWellNamed()
    ensures AllWellNamed(STARTS)
  {
    hide WellNamed, LocalName, AllWellNamed, Leaf;
    LeafWellNamed("AllowStartOnDemand", "true");
    LeafWellNamed("Enabled", "true");
    LeafWellNamed("Hidden", "false");
    LeafWellNamed("RunOnlyIfIdle", "false");
    LeafWellNamed("WakeToRun", "false");
    EachWellNamed(STARTS);
  }

  lemma LimitsWellNamed()
    ensures AllWellNamed(LIMITS)
  {
    hide WellNamed, LocalName, AllWellNamed, Leaf;
    LeafWellNamed("ExecutionTimeLimit", "PT0S");
    LeafWellNamed("Priority", "7");
    LeafWellNamed("Interval", "PT1M");
    LeafWellNamed("Count", "3");
    NodeWellNamed(LIMITS[2]);
    EachWellNamed(LIMITS);
  }

  lemma SettingsWellNamed()
    ensures WellNamed(SETTINGS)
  {
    hide POLICIES, AVAILABILITY, IDLE, STARTS, LIMITS;
    PoliciesWellNamed();
    AvailabilityWellNamed();
    IdleWellNamed();
    StartsWellNamed();
    LimitsWellNamed();
    WellNamedConcat(POLICIES, AVAILABILITY);
    WellNamedConcat(POLICIES + AVAILABILITY, IDLE);
    WellNamedConcat(POLICIES + AVAILABILITY + IDLE, STARTS);
    WellNamedConcat(POLICIES + AVAILABILITY + IDLE + STARTS, LIMITS);
    LettersName("Settings");
  }

  lemma RegistrationWellNamed()
    ensures WellNamed(REGISTRATION)
  {
    hide WellNamed, LocalName, AllWellNamed, Leaf, MARKER;
    LeafWellNamed("Description", MARKER);
    NodeWellNamed(REGISTRATION);
  }

  lemma TriggersWellNamed(sid: string)
    ensures WellNamed(Triggers(sid))
  {
    hide WellNamed, LocalName, AllWellNamed, Leaf;
    LeafWellNamed("Enabled", "true");
    LeafWellNamed("UserId", sid);
    NodeWellNamed(Triggers(sid).children[0]);
    NodeWellNamed(Triggers(sid));
  }

  lemma PrincipalsWellNamed(sid: string)
    ensures WellNamed(Principals(sid))
  {
    hide WellNamed, LocalName, AllWellNamed, Leaf;
    LeafWellNamed("UserId", sid);
    LeafWellNamed("LogonType", "InteractiveToken");
    LeafWellNamed("RunLevel", "LeastPrivilege");
    NodeWellNamed(Principals(sid).children[0]);
    NodeWellNamed(Principals(sid));
  }

  lemma ActionsWellNamed(executable: string)
    ensures WellNamed(Actions(executable))
  {
    hide WellNamed, LocalName, AllWellNamed, Leaf;
    LeafWellNamed("Command", executable);
    LeafWellNamed("Arguments", "engine --background");
    NodeWellNamed(Actions(executable).children[0]);
    NodeWellNamed(Actions(executable));
  }

  lemma RegisteredTaskWellNamed(executable: string, sid: string)
    ensures WellNamed(RegisteredTask(executable, sid))
  {
    hide SETTINGS, REGISTRATION, Triggers, Principals, Actions, WellNamed, NAMESPACE;
    RegistrationWellNamed();
    TriggersWellNamed(sid);
    PrincipalsWellNamed(sid);
    SettingsWellNamed();
    ActionsWellNamed(executable);
    NodeWellNamed(RegisteredTask(executable, sid));
  }

  lemma {:induction false} NamedOnce(es: seq<Element>, k: nat, name: string)
    requires k < |es| && es[k].name == name
    requires forall i :: 0 <= i < |es| && i != k ==> es[i].name != name
    ensures Named(es, name) == [es[k]]
  {
    if k > 0 {
      NamedOnce(es[1..], k - 1, name);
    } else {
      NamedNone(es[1..], name);
    }
  }

  lemma {:induction false} NamedNone(es: seq<Element>, name: string)
    requires forall i :: 0 <= i < |es| ==> es[i].name != name
    ensures Named(es, name) == []
  {
    if es != [] {
      NamedNone(es[1..], name);
    }
  }

  lemma RegisteredCommand(executable: string, sid: string)
    ensures At(RegisteredTask(executable, sid), COMMAND) == Leaf("Command", executable)
  {
    hide SETTINGS;
    var cs := RegisteredTask(executable, sid).children;
    assert COMMAND[1..] == ["Exec", "Command"];
    SettingsName();
    NamedOnce(cs, 4, "Actions");
    NamedOnce(cs[4].children, 0, "Exec");
    NamedOnce(cs[4].children[0].children, 0, "Command");
    At2(cs[4], "Exec", "Command");
  }

  lemma RegisteredPrincipal(executable: string, sid: string)
    ensures At(RegisteredTask(executable, sid), PRINCIPAL) == Leaf("UserId", sid)
  {
    hide SETTINGS;
    var cs := RegisteredTask(executable, sid).children;
    assert PRINCIPAL[1..] == ["Principal", "UserId"];
    SettingsName();
    NamedOnce(cs, 2, "Principals");
    NamedOnce(cs[2].children, 0, "Principal");
    NamedOnce(cs[2].children[0].children, 0, "UserId");
    At2(cs[2], "Principal", "UserId");
  }

  lemma SettingsName()
    ensures SETTINGS.name == "Settings"
  {
    hide POLICIES, AVAILABILITY, IDLE, STARTS, LIMITS;
  }

  lemma At2(e: Element, first: string, second: string)
    requires |Named(e.children, first)| == 1
    requires |Named(Named(e.children, first)[0].children, second)| == 1
    ensures At(e, [first, second]) == Named(Named(e.children, first)[0].children, second)[0]
  {
    hide Named;
    var x := Named(e.children, first)[0];
    assert [first, second][1..] == [second] && [second][1..] == [];
    assert At(x, [second]) == At(Named(x.children, second)[0], []);
  }

  /** A task that matches runs this executable and belongs to this user, as far as XML carries
      the two and the comparison tells paths and SIDs apart. */
  lemma MatchNamesExecutable(t: Tables, task: Element, executable: string, sid: string)
    requires WellNamed(task) && Matches(t, task, executable, sid)
    ensures Value(t, At(task, COMMAND)) == t.lower(Clean(ReplaceAll(TrimSpace(XmlText(executable)), '\\', '/')))
    ensures TrimSpace(At(task, PRINCIPAL).text) == TrimSpace(XmlText(sid))
  {
    hide XmlText;
    var command, user := XmlText(executable), XmlText(sid);
    var registered := RegisteredTask(command, user);
    MatchDecided(t, task, executable, sid);
    assert task.name == NormOf(t, task).name == "Task";
    PathsKept();
    AtAgrees(t, task, registered, COMMAND);
    AtAgrees(t, task, registered, PRINCIPAL);
    RegisteredCommand(command, user);
    RegisteredPrincipal(command, user);
    SameValue(t, At(task, COMMAND), Leaf("Command", command));
    SameValue(t, At(task, PRINCIPAL), Leaf("UserId", user));
  }

  lemma {:induction false} NothingIgnored(t: Tables, es: seq<Element>)
    ensures |NormsOf(t, es, "Actions")| == |es|
  {
    if es != [] {
      NotDefault("Actions", es[0].name);
      NothingIgnored(t, es[1..]);
    }
  }

  /** A task that matches has one action, so it is managed by this user exactly when the three
      texts are right to the letter, where matching trims and cleans them. */
  lemma MatchManaged(t: Tables, task: Element, executable: string, sid: string)
    requires WellNamed(task) && Matches(t, task, executable, sid)
    ensures |At(task, ["Actions"]).children| == 1
    ensures ManagedBy(t, task, sid) <==>
            && At(task, DESCRIPTION).text == MARKER
            && ValidExecutable(t, At(task, COMMAND).text)
            && At(task, PRINCIPAL).text == sid
  {
    hide XmlText, ValidExecutable, Matches, WellNamed, NormOf, RegisteredTask;
    var command, user := XmlText(executable), XmlText(sid);
    var registered := RegisteredTask(command, user);
    MatchDecided(t, task, executable, sid);
    assert registered.name == "Task" by { RegisteredActions(command, user); }
    NormChildren(t, task);
    NormChildren(t, registered);
    NotDefault("Task", "Actions");
    AtAgrees(t, task, registered, ["Actions"]);
    RegisteredActions(command, user);
    hide At;
    NormChildren(t, At(task, ["Actions"]));
    NormChildren(t, Actions(command));
    SameSize(t, At(task, ["Actions"]).children, Actions(command).children);
  }

  lemma SameSize(t: Tables, es: seq<Element>, fs: seq<Element>)
    requires multiset(NormsOf(t, es, "Actions")) == multiset(NormsOf(t, fs, "Actions"))
    ensures |es| == |fs|
  {
    NothingIgnored(t, es);
    NothingIgnored(t, fs);
    SameLength(NormsOf(t, es, "Actions"), NormsOf(t, fs, "Actions"));
  }

  lemma RegisteredActions(executable: string, sid: string)
    ensures At(RegisteredTask(executable, sid), ["Actions"]) == Actions(executable)
    ensures RegisteredTask(executable, sid).name == "Task"
  {
    hide SETTINGS;
    var cs := RegisteredTask(executable, sid).children;
    SettingsName();
    NamedOnce(cs, 4, "Actions");
    assert ["Actions"][1..] == [];
  }

  lemma SameValue(t: Tables, a: Element, b: Element)
    requires SameMeaning(t, a, b)
    ensures a.name == b.name && Value(t, a) == Value(t, b)
  {
    hide NormsOf, Value;
  }

  lemma PathsKept()
    ensures AlwaysKept("Task", COMMAND) && AlwaysKept("Task", PRINCIPAL)
  {
    assert COMMAND[1..] == ["Exec", "Command"] && COMMAND[1..][1..] == ["Command"];
    assert PRINCIPAL[1..] == ["Principal", "UserId"] && PRINCIPAL[1..][1..] == ["UserId"];
    NotDefault("Task", "Actions");
    NotDefault("Actions", "Exec");
    NotDefault("Exec", "Command");
    NotDefault("Task", "Principals");
    var principals := "Principals" + "/" + "Principal";
    var principal := "Principal" + "/" + "UserId";
    assert principals[9] == 's' && "Principal/RunLevel"[9] == '/';
    assert principal[10] == 'U' && "Principal/RunLevel"[10] == 'R';
    NotDefaultUnlessRunLevel(principals);
    NotDefaultUnlessRunLevel(principal);
  }

  lemma NotDefaultUnlessRunLevel(key: string)
    requires key != [] && key[0] == 'P' && key != "Principal/RunLevel"
    ensures key !in SCHEMA_DEFAULTS
  {}

  lemma NotDefault(parent: string, name: string)
    requires parent != [] && parent[0] !in {'I', 'L', 'P', 'S'}
    ensures parent + "/" + name !in SCHEMA_DEFAULTS
  {
    var key := parent + "/" + name;
    assert key[0] == parent[0];
    assert forall k :: k in SCHEMA_DEFAULTS ==> k[0] in {'I', 'L', 'P', 'S'};
  }

  /** The task that is registered names the executable itself exactly when XML carries each
      of its characters. */
  lemma CarriedDecided(executable: string, sid: string)
    ensures At(RegisteredTask(XmlText(executable), XmlText(sid)), COMMAND).text == executable <==>
            forall i :: 0 <= i < |executable| ==> XmlChar(executable[i])
  {
    RegisteredCommand(XmlText(executable), XmlText(sid));
  }

  /** An executable that is accepted, and registered under another path. */
  lemma NotCarried(t: Tables, sid: string) returns (executable: string)
    requires t.equalFold("sshc.exe", "sshc.exe")
    ensures executable == "//" + ['\U{FFFE}'] + "/sshc.exe" && ValidExecutable(t, executable)
    ensures At(RegisteredTask(XmlText(executable), XmlText(sid)), COMMAND).text != executable
  {
    executable := "//" + ['\U{FFFE}'] + "/sshc.exe";
    assert executable[2] == '\U{FFFE}' && !XmlChar(executable[2]);
    assert ReplaceAll(executable, '\\', '/') == executable;
    assert executable == "//" + ['\U{FFFE}'] + "/" + "sshc.exe";
    BaseOf("//" + ['\U{FFFE}'], "sshc.exe");
    CarriedDecided(executable, sid);
  }

  lemma BaseOf(directory: string, name: string)
    requires name != "" && '/' !in name
    ensures Base(directory + "/" + name) == name
  {
    var p := directory + "/" + name;
    assert p[|p| - 1] == name[|name| - 1] && name[|name| - 1] in name;
    SplitLast(directory, name);
  }

  lemma {:induction false} SplitLast(directory: string, name: string)
    requires '/' !in name
    ensures var parts := Split(directory + "/" + name, '/'); |parts| >= 2 && parts[|parts| - 1] == name
  {
    var p := directory + "/" + name;
    if directory == "" {
      assert p[0] == '/' && p[1..] == name;
      SplitNone(name, '/');
    } else {
      SplitLast(directory[1..], name);
      assert p[0] == directory[0] && p[1..] == directory[1..] + "/" + name;
    }
  }

  /** matches accepts exactly the tasks that mean what sshc would register. */
  lemma MatchDecided(t: Tables, task: Element, executable: string, sid: string)
    requires WellNamed(task)
    ensures Matches(t, task, executable, sid) <==>
            && ValidExecutable(t, executable) && ValidSid(sid)
            && SameMeaning(t, task, RegisteredTask(XmlText(executable), XmlText(sid)))
  {
    hide XmlText;
    var registered := RegisteredTask(XmlText(executable), XmlText(sid));
    RegisteredTaskWellNamed(XmlText(executable), XmlText(sid));
    CanonicalDecidesEquality(t, task, registered, "");
    RootKept(t, task);
    RootKept(t, registered);
  }

  /** A parsed task is never ignored: it has no parent. */
  lemma RootKept(t: Tables, e: Element)
    requires LocalName(e.name)
    ensures !Ignored(e, "")
  {
    var key := "" + "/" + e.name;
    assert key[0] == '/';
    assert forall k :: k in SCHEMA_DEFAULTS ==> k[0] != '/';
  }
}
