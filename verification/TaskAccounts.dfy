/** A task read back from the scheduler, its account names turned into SIDs, and the file in
    which a task is handed to it. */
module TaskAccounts {
  import opened Wrappers
  import opened GoText
  import opened TaskCanonical
  import opened XmlTask
  import opened Utf8
  import Utf16

  // ------------------------------------------------------------------- account names

  predicate NamesUser(name: string, parent: string) {
    name == "UserId" && (parent == "LogonTrigger" || parent == "Principal")
  }

  predicate IsSid(account: string) {
    "S-1-" <= account
  }

  /** A user's name that is to be looked up. */
  predicate NeedsLookup(e: Element, parent: string) {
    NamesUser(e.name, parent) && TrimSpace(e.text) != "" && !IsSid(TrimSpace(e.text))
  }

  /** withAccountSIDs; None for an account that the lookup does not find. */
  function WithSids(lookup: string -> Option<string>, e: Element, parent: string): Option<Element>
    decreases e, 0
  {
    if NamesUser(e.name, parent) then
      if !NeedsLookup(e, parent) then Some(e)
      else
        match lookup(TrimSpace(e.text))
        case None => None
        case Some(sid) => Some(e.(text := sid))
    else
      match AllWithSids(lookup, e.children, e.name)
      case None => None
      case Some(children) => Some(e.(children := children))
  }

  function AllWithSids(lookup: string -> Option<string>, es: seq<Element>, parent: string): Option<seq<Element>>
    decreases es, 0
  {
    if es == [] then Some([])
    else
      match WithSids(lookup, es[0], parent)
      case None => None
      case Some(first) =>
        match AllWithSids(lookup, es[1..], parent)
        case None => None
        case Some(others) => Some([first] + others)
  }

  /** The accounts a task names by something other than a SID. */
  function Accounts(e: Element, parent: string): set<string>
    decreases e, 0
  {
    if NamesUser(e.name, parent) then if NeedsLookup(e, parent) then {TrimSpace(e.text)} else {}
    else AllAccounts(e.children, e.name)
  }

  function AllAccounts(es: seq<Element>, parent: string): set<string>
    decreases es, 0
  {
    if es == [] then {} else Accounts(es[0], parent) + AllAccounts(es[1..], parent)
  }

  /** The task with the texts that name users left blank: all that must not change. */
  function Anonymous(e: Element, parent: string): Element
    decreases e, 0
  {
    if NamesUser(e.name, parent) then e.(text := "") else e.(children := AllAnonymous(e.children, e.name))
  }

  function AllAnonymous(es: seq<Element>, parent: string): seq<Element>
    decreases es, 0
  {
    if es == [] then [] else [Anonymous(es[0], parent)] + AllAnonymous(es[1..], parent)
  }

  ghost predicate GivesSids(lookup: string -> Option<string>) {
    forall account :: lookup(account).Some? ==> IsSid(TrimSpace(lookup(account).value))
  }

  /** It fails exactly when an account is not found; otherwise nothing but the users' names
      has changed, and those are SIDs all through if the lookup gives SIDs. */
  lemma {:induction false} SidsDecided(lookup: string -> Option<string>, e: Element, parent: string)
    ensures WithSids(lookup, e, parent).Some? <==> forall a :: a in Accounts(e, parent) ==> lookup(a).Some?
    ensures WithSids(lookup, e, parent).Some? ==>
            var r := WithSids(lookup, e, parent).value;
            && r.name == e.name && Anonymous(r, parent) == Anonymous(e, parent)
            && (GivesSids(lookup) ==> Accounts(r, parent) == {})
    decreases e, 0
  {
    if !NamesUser(e.name, parent) {
      AllSidsDecided(lookup, e.children, e.name);
    } else if NeedsLookup(e, parent) {
      assert TrimSpace(e.text) in Accounts(e, parent);
    }
  }

  lemma {:induction false} AllSidsDecided(lookup: string -> Option<string>, es: seq<Element>, parent: string)
    ensures AllWithSids(lookup, es, parent).Some? <==> forall a :: a in AllAccounts(es, parent) ==> lookup(a).Some?
    ensures AllWithSids(lookup, es, parent).Some? ==>
            var r := AllWithSids(lookup, es, parent).value;
            && AllAnonymous(r, parent) == AllAnonymous(es, parent)
            && (GivesSids(lookup) ==> AllAccounts(r, parent) == {})
    decreases es, 0
  {
    hide GivesSids, Accounts, Anonymous;
    if es != [] {
      SidsDecided(lookup, es[0], parent);
      AllSidsDecided(lookup, es[1..], parent);
    }
  }

  /** A task whose users are SIDs is left as it is; so doing it twice is doing it once. */
  lemma {:induction false} SidsStay(lookup: string -> Option<string>, e: Element, parent: string)
    requires Accounts(e, parent) == {}
    ensures WithSids(lookup, e, parent) == Some(e)
    decreases e, 0
  {
    if NamesUser(e.name, parent) {
      assert NeedsLookup(e, parent) ==> TrimSpace(e.text) in Accounts(e, parent);
    } else {
      AllSidsStay(lookup, e.children, e.name);
    }
  }

  lemma {:induction false} AllSidsStay(lookup: string -> Option<string>, es: seq<Element>, parent: string)
    requires AllAccounts(es, parent) == {}
    ensures AllWithSids(lookup, es, parent) == Some(es)
    decreases es, 0
  {
    hide Accounts;
    if es != [] {
      SidsStay(lookup, es[0], parent);
      AllSidsStay(lookup, es[1..], parent);
      assert es == [es[0]] + es[1..];
    }
  }

  lemma Idempotent(lookup: string -> Option<string>, e: Element)
    requires GivesSids(lookup) && WithSids(lookup, e, "").Some?
    ensures WithSids(lookup, WithSids(lookup, e, "").value, "") == WithSids(lookup, e, "")
  {
    SidsDecided(lookup, e, "");
    SidsStay(lookup, WithSids(lookup, e, "").value, "");
  }

  // ------------------------------------------------- what the scheduler gives back

  /** The registered task as the scheduler returns it: the trigger's user is an account. */
  function Returned(executable: string, account: string, sid: string): Element {
    RegisteredTask(executable, sid).(
      children := [REGISTRATION, Triggers(account), Principals(sid), SETTINGS, Actions(executable)])
  }

  lemma {:induction false} NoUsers(es: seq<Element>, parent: string)
    requires parent != "LogonTrigger" && parent != "Principal"
    requires forall i :: 0 <= i < |es| ==> AllAccounts(es[i].children, es[i].name) == {}
    ensures AllAccounts(es, parent) == {}
  {
    if es != [] {
      assert forall i :: 0 <= i < |es[1..]| ==> es[1..][i] == es[i + 1];
      NoUsers(es[1..], parent);
    }
  }

  lemma SettingsHaveNoUsers()
    ensures Accounts(SETTINGS, "Task") == {}
  {
    var es := SETTINGS.children;
    assert SETTINGS.name == "Settings" && es == POLICIES + AVAILABILITY + IDLE + STARTS + LIMITS;
    forall i | 0 <= i < |es| ensures AllAccounts(es[i].children, es[i].name) == {} {
      var e := es[i];
      if e.children != [] {
        NoUsers(e.children, e.name);
      }
    }
    NoUsers(es, "Settings");
  }

  lemma LeafHasNoUser(e: Element, parent: string)
    requires e.children == [] && !NeedsLookup(e, parent)
    ensures Accounts(e, parent) == {}
  {
  }

  lemma AccountsCons(e: Element, es: seq<Element>, parent: string)
    ensures AllAccounts([e] + es, parent) == Accounts(e, parent) + AllAccounts(es, parent)
  {
    hide Accounts;
    assert ([e] + es)[1..] == es;
  }

  lemma PrincipalHasNoName(sid: string)
    requires IsSid(TrimSpace(sid))
    ensures Accounts(Principals(sid), "Task") == {}
  {
    var principal := Principals(sid).children[0];
    var user, kind := Leaf("UserId", sid), Leaf("LogonType", "InteractiveToken");
    var level := Leaf("RunLevel", "LeastPrivilege");
    LeafHasNoUser(user, "Principal");
    LeafHasNoUser(kind, "Principal");
    LeafHasNoUser(level, "Principal");
    AccountsCons(level, [], "Principal");
    AccountsCons(kind, [level], "Principal");
    AccountsCons(user, [kind, level], "Principal");
    assert [level] + [] == [level] && [kind] + [level] == [kind, level];
    assert [user] + [kind, level] == principal.children;
    NoUsers(Principals(sid).children, "Principals");
  }

  lemma OtherPartsHaveNoUsers(executable: string)
    ensures Accounts(REGISTRATION, "Task") == {}
    ensures Accounts(Actions(executable), "Task") == {}
  {
    NoUsers(REGISTRATION.children, "RegistrationInfo");
    NoUsers(Actions(executable).children[0].children, "Exec");
    NoUsers(Actions(executable).children, "Actions");
  }

  /** What comes back from the scheduler, whatever name it gives the user by, is once more
      the task that was registered, when that name stands for the user's SID. */
  lemma ComesBack(lookup: string -> Option<string>, executable: string, account: string, sid: string)
    requires TrimSpace(account) != "" && !IsSid(TrimSpace(account)) && IsSid(TrimSpace(sid))
    ensures WithSids(lookup, Returned(executable, account, sid), "") ==
            if lookup(TrimSpace(account)) == None then None
            else Some(Returned(executable, lookup(TrimSpace(account)).value, sid))
    ensures lookup(TrimSpace(account)) == Some(sid) ==>
            WithSids(lookup, Returned(executable, account, sid), "") == Some(RegisteredTask(executable, sid))
  {
    TriggerResolved(lookup, account);
    OthersStay(lookup, executable, sid);
    var returned := Returned(executable, account, sid);
    var found, behind := lookup(TrimSpace(account)), [Principals(sid), SETTINGS, Actions(executable)];
    assert returned.children == [REGISTRATION] + ([Triggers(account)] + behind);
    assert !NamesUser(returned.name, "") && returned.name == "Task";
    assert found.Some? ==>
        Returned(executable, found.value, sid).children == [REGISTRATION] + ([Triggers(found.value)] + behind);
    assert found.Some? ==>
        Returned(executable, found.value, sid) ==
        returned.(children := Returned(executable, found.value, sid).children);
    assert RegisteredTask(executable, sid) == Returned(executable, sid, sid);
    hide AllWithSids, REGISTRATION, SETTINGS, Triggers, Principals, Actions, Returned;
    One(lookup, Triggers(account), behind, "Task");
    One(lookup, REGISTRATION, [Triggers(account)] + behind, "Task");
  }

  lemma OthersStay(lookup: string -> Option<string>, executable: string, sid: string)
    requires IsSid(TrimSpace(sid))
    ensures WithSids(lookup, REGISTRATION, "Task") == Some(REGISTRATION)
    ensures var behind := [Principals(sid), SETTINGS, Actions(executable)];
            AllWithSids(lookup, behind, "Task") == Some(behind)
  {
    SettingsHaveNoUsers();
    OtherPartsHaveNoUsers(executable);
    PrincipalHasNoName(sid);
    SidsStay(lookup, REGISTRATION, "Task");
    hide REGISTRATION, SETTINGS, Principals, Actions, Accounts;
    var behind := [Principals(sid), SETTINGS, Actions(executable)];
    AccountsCons(Actions(executable), [], "Task");
    AccountsCons(SETTINGS, [Actions(executable)], "Task");
    AccountsCons(Principals(sid), [SETTINGS, Actions(executable)], "Task");
    assert [Actions(executable)] + [] == [Actions(executable)];
    assert [SETTINGS] + [Actions(executable)] == [SETTINGS, Actions(executable)];
    assert [Principals(sid)] + [SETTINGS, Actions(executable)] == behind;
    AllSidsStay(lookup, behind, "Task");
  }

  lemma One(lookup: string -> Option<string>, e: Element, es: seq<Element>, parent: string)
    ensures AllWithSids(lookup, [e] + es, parent) ==
            var first, others := WithSids(lookup, e, parent), AllWithSids(lookup, es, parent);
            if first.None? || others.None? then None else Some([first.value] + others.value)
  {
    hide WithSids;
    assert ([e] + es)[1..] == es;
  }

  lemma Inside(lookup: string -> Option<string>, e: Element, parent: string)
    requires !NamesUser(e.name, parent)
    ensures var children := AllWithSids(lookup, e.children, e.name);
            WithSids(lookup, e, parent) == if children.None? then None else Some(e.(children := children.value))
  {
    hide AllWithSids;
  }

  lemma OnlyChild(lookup: string -> Option<string>, e: Element, parent: string)
    ensures var only := WithSids(lookup, e, parent);
            AllWithSids(lookup, [e], parent) == if only.None? then None else Some([only.value])
  {
    hide WithSids;
    assert [e] + [] == [e];
    One(lookup, e, [], parent);
    assert forall r: Element :: [r] + [] == [r];
  }

  lemma UserResolved(lookup: string -> Option<string>, account: string)
    requires TrimSpace(account) != "" && !IsSid(TrimSpace(account))
    ensures var found := lookup(TrimSpace(account));
            WithSids(lookup, Leaf("UserId", account), "LogonTrigger") ==
            if found.None? then None else Some(Leaf("UserId", found.value))
  {
    hide TrimSpace;
  }

  lemma TriggerResolved(lookup: string -> Option<string>, account: string)
    requires TrimSpace(account) != "" && !IsSid(TrimSpace(account))
    ensures WithSids(lookup, Triggers(account), "Task") ==
            if lookup(TrimSpace(account)) == None then None else Some(Triggers(lookup(TrimSpace(account)).value))
  {
    var enabled, user := Leaf("Enabled", "true"), Leaf("UserId", account);
    var trigger := Node("LogonTrigger", [enabled, user]);
    UserResolved(lookup, account);
    LeafHasNoUser(enabled, "LogonTrigger");
    SidsStay(lookup, enabled, "LogonTrigger");
    hide WithSids, AllWithSids, TrimSpace, IsSid, NeedsLookup;
    OnlyChild(lookup, user, "LogonTrigger");
    One(lookup, enabled, [user], "LogonTrigger");
    assert forall a: Element, b: Element :: [a] + [b] == [a, b];
    Inside(lookup, trigger, "Triggers");
    OnlyChild(lookup, trigger, "Triggers");
    Inside(lookup, Triggers(account), "Task");
  }

  // ------------------------------------------------------------------ the task's file

  function LittleEndian(word: Utf16.unit16): (b: seq<byte>)
    ensures |b| == 2
  {
    [word as int % 0x100, word as int / 0x100]
  }

  function Bytes(words: seq<Utf16.unit16>): (b: seq<byte>)
    ensures |b| == 2 * |words|
  {
    if words == [] then [] else LittleEndian(words[0]) + Bytes(words[1..])
  }

  lemma {:induction false} BytesAppend(a: seq<Utf16.unit16>, b: seq<Utf16.unit16>)
    ensures Bytes(a + b) == Bytes(a) + Bytes(b)
  {
    hide LittleEndian;
    if a == [] {
      assert a + b == b;
    } else {
      BytesAppend(a[1..], b);
      assert (a + b)[1..] == a[1..] + b && (a + b)[0] == a[0];
      Associative(LittleEndian(a[0]), Bytes(a[1..]), Bytes(b));
    }
  }

  /** The words of a file of little-endian ones. */
  function Words(b: seq<byte>): (r: seq<Utf16.unit16>) {
    if |b| < 2 then [] else [b[0] as int + 0x100 * b[1] as int] + Words(b[2..])
  }

  lemma {:induction false} WordsOfBytes(words: seq<Utf16.unit16>)
    ensures Words(Bytes(words)) == words
  {
    if words != [] {
      var b := Bytes(words);
      assert b[0] == LittleEndian(words[0])[0] && b[1] == LittleEndian(words[0])[1] && b[2..] == Bytes(words[1..]);
      WordsOfBytes(words[1..]);
      assert words[0] as int == words[0] as int % 0x100 + 0x100 * (words[0] as int / 0x100);
    }
  }

  /** binary.LittleEndian.PutUint16. */
  method PutUint16(output: array<byte>, at: nat, word: Utf16.unit16)
    requires at + 2 <= output.Length
    modifies output
    ensures output[..] == old(output[..at]) + LittleEndian(word) + old(output[at + 2..])
  {
    output[at] := word as int % 0x100;
    output[at + 1] := word as int / 0x100;
  }

  /** taskUTF16: a byte order mark and the text in UTF-16, low bytes first. */
  method TaskUtf16(contents: string) returns (output: array<byte>)
    ensures fresh(output) && output[..] == Bytes([0xFEFF] + Utf16.Encode(contents))
  {
    var words := Utf16.Encode(contents);
    output := new byte[2 + |words| * 2];
    PutUint16(output, 0, 0xFEFF);
    assert output[..2] == Bytes([0xFEFF]);
    for index := 0 to |words|
      invariant output.Length == 2 + |words| * 2
      invariant output[..2 + index * 2] == Bytes([0xFEFF] + words[..index])
    {
      PutUint16(output, 2 + index * 2, words[index]);
      BytesAppend([0xFEFF] + words[..index], [words[index]]);
      assert Bytes([words[index]]) == LittleEndian(words[index]);
      assert [0xFEFF] + words[..index] + [words[index]] == [0xFEFF] + words[..index + 1];
    }
    assert output[..] == output[..2 + |words| * 2] && words[..|words|] == words;
  }

  /** Reading the file back gives the text that was written. */
  lemma FileReadBack(contents: string)
    ensures var words := Words(Bytes([0xFEFF] + Utf16.Encode(contents)));
            words != [] && words[0] == 0xFEFF && Utf16.WellFormed(words[1..]) && Utf16.Start(words[1..]) == contents
  {
    WordsOfBytes([0xFEFF] + Utf16.Encode(contents));
    Utf16.StartOfEncoded(contents);
    assert ([0xFEFF] + Utf16.Encode(contents))[1..] == Utf16.Encode(contents);
  }
}
