/** Planning a recursive upload: a walk of a local tree that follows symbolic links. */
module PutPlan {
  import opened Wrappers
  import opened RemoteListings
  import opened TransferPlan

  datatype LocalError = Missing | OtherLocal

  datatype LocalKind = Folder | Regular | Special

  datatype Info = Info(kind: LocalKind, size: int)

  datatype DirEntry = DirEntry(name: string, link: bool)

  datatype Failure = LocalMissing | LocalFailed | RemoteFailed | TypeMismatch | DepthLimit

  /** Everything the walk consults. Links are followed by resolve (EvalSymlinks), by readDir
      and by stat, so a path below a link is answered for like any other. */
  datatype World = World(
    remote: Remote,
    resolve: Path -> Result<Path, LocalError>,
    readDir: Path -> Result<seq<DirEntry>, LocalError>,
    stat: Path -> Result<Info, LocalError>,
    excludes: Path -> bool,
    source: Path,
    root: Path)

  /** markLocalSourceMissing. */
  function Marked(e: LocalError): Failure {
    if e.Missing? then LocalMissing else LocalFailed
  }

  // --------------------------------------------------- what is to be uploaded, by place

  /** The resolved paths of the directories above rel, from the source down. */
  ghost function Above(w: World, rel: Path): set<Path> {
    set n | 0 <= n < |rel| && w.resolve(w.source + rel[..n]).Ok? :: w.resolve(w.source + rel[..n]).value
  }

  /** No directory above rel resolves to the same place as another one above it. */
  ghost predicate Straight(w: World, rel: Path) {
    forall n :: 0 <= n < |rel| ==>
      w.resolve(w.source + rel[..n]).Ok? && w.resolve(w.source + rel[..n]).value !in Above(w, rel[..n])
  }

  lemma AboveStep(w: World, rel: Path, name: string)
    requires w.resolve(w.source + rel).Ok?
    ensures Above(w, rel + [name]) == Above(w, rel) + {w.resolve(w.source + rel).value}
    ensures Straight(w, rel) && w.resolve(w.source + rel).value !in Above(w, rel) ==> Straight(w, rel + [name])
  {
    var p := rel + [name];
    assert p[..|rel|] == rel;
    assert forall n :: 0 <= n < |rel| ==> p[..n] == rel[..n];
  }

  /** A chain of directories without a repeated place is no longer than there are places. */
  lemma {:induction false} StraightLength(w: World, rel: Path)
    requires Straight(w, rel)
    ensures |Above(w, rel)| == |rel|
    decreases |rel|
  {
    if rel == [] {
      assert Above(w, rel) == {};
    } else {
      var d, name := rel[..|rel| - 1], rel[|rel| - 1];
      assert rel == d + [name];
      assert forall n :: 0 <= n < |d| ==> d[..n] == rel[..n];
      StraightLength(w, d);
      AboveStep(w, d, name);
    }
  }

  /** What stands at rel, a directory: a link back to a directory above it is skipped; else
      all its entries, down to the given number of levels; or the first thing that fails. */
  ghost function Upload(w: World, rel: Path, levels: nat): Result<Content, Failure>
    decreases levels
  {
    match w.resolve(w.source + rel)
    case Err(e) => Err(Marked(e))
    case Ok(resolved) =>
      if resolved in Above(w, rel) then Ok(OneSkip(w.source + rel, LinkBack))
      else
        match w.readDir(w.source + rel)
        case Err(e) => Err(Marked(e))
        case Ok(entries) => UploadAll(w, rel, entries, levels)
  }

  ghost function UploadAll(w: World, rel: Path, entries: seq<DirEntry>, levels: nat): Result<Content, Failure>
    decreases levels, |entries|
  {
    if entries == [] then Ok(NOTHING)
    else
      match UploadEntry(w, rel, entries[0], levels)
      case Err(failure) => Err(failure)
      case Ok(first) => AndThen(first, UploadAll(w, rel, entries[1..], levels))
  }

  /** What the server has at a path: nothing, or something that opens as the given kind. */
  ghost predicate Fits(w: World, p: Path, kind: OpensAs) {
    var there := DirectStat(w.remote, p);
    IsMissing(there) || (there.Ok? && Opens(there.value) == kind)
  }

  ghost function UploadEntry(w: World, rel: Path, e: DirEntry, levels: nat): Result<Content, Failure>
    decreases levels, 0
  {
    var p := rel + [e.name];
    var there := DirectStat(w.remote, w.root + p);
    if w.excludes(p) then Ok(OneSkip(w.source + p, MatchedExclusion))
    else
      match w.stat(w.source + p)
      case Err(failure) =>
        if e.link && failure.Missing? then Ok(OneSkip(w.source + p, LinkTargetMissing)) else Err(Marked(failure))
      case Ok(info) =>
        if there.Err? && !IsMissing(there) then Err(RemoteFailed)
        else
          match info.kind
          case Folder =>
            if !Fits(w, w.root + p, ADirectory) then Err(TypeMismatch)
            else if levels == 0 then Err(DepthLimit)
            else AndThen(OneDirectory(w.root + p), Upload(w, p, levels - 1))
          case Regular =>
            if !Fits(w, w.root + p, AFile) then Err(TypeMismatch)
            else Ok(OneFile(File(w.source + p, w.root + p, info.size, there.Ok?)))
          case Special => Ok(OneSkip(w.source + p, NeitherFileNorDirectory))
  }

  lemma UploadCases(w: World, rel: Path, levels: nat)
    ensures var resolved, entries := w.resolve(w.source + rel), w.readDir(w.source + rel);
            Upload(w, rel, levels) ==
            if resolved.Err? then Err(Marked(resolved.error))
            else if resolved.value in Above(w, rel) then Ok(OneSkip(w.source + rel, LinkBack))
            else if entries.Err? then Err(Marked(entries.error))
            else UploadAll(w, rel, entries.value, levels)
  {
    hide UploadAll, Above;
  }

  lemma Start(w: World, rel: Path, entries: seq<DirEntry>, levels: nat, before: Content)
    ensures UploadAll(w, rel, entries, levels) == AndThen(NOTHING, UploadAll(w, rel, entries[0..], levels))
    ensures before.Then(NOTHING) == before
  {
    hide UploadAll;
    assert entries[0..] == entries;
    if UploadAll(w, rel, entries, levels).Ok? {
      assert NOTHING.Then(UploadAll(w, rel, entries, levels).value) == UploadAll(w, rel, entries, levels).value;
    }
  }

  lemma Step(w: World, rel: Path, entries: seq<DirEntry>, i: nat, levels: nat, before: Content, sofar: Content)
    requires i < |entries|
    ensures var total := AndThen(sofar, UploadAll(w, rel, entries[i..], levels));
            var one := UploadEntry(w, rel, entries[i], levels);
            if one.Err? then total == one
            else
              && total == AndThen(sofar.Then(one.value), UploadAll(w, rel, entries[i + 1..], levels))
              && before.Then(sofar).Then(one.value) == before.Then(sofar.Then(one.value))
  {
    assert entries[i..][0] == entries[i] && entries[i..][1..] == entries[i + 1..];
    var one, others := UploadEntry(w, rel, entries[i], levels), UploadAll(w, rel, entries[i + 1..], levels);
    hide UploadEntry;
    if one.Ok? {
      before.ThenAssociative(sofar, one.value);
      if others.Ok? {
        sofar.ThenAssociative(one.value, others.value);
      }
    }
  }

  lemma Finish(w: World, rel: Path, entries: seq<DirEntry>, levels: nat, sofar: Content)
    ensures AndThen(sofar, UploadAll(w, rel, entries[|entries|..], levels)) == Ok(sofar)
  {
    assert sofar.Then(NOTHING) == sofar;
  }

  // ------------------------------------------------------------------------ the walk

  function Refusal(r: Result<Content, Failure>): Option<Failure> {
    if r.Ok? then None else Some(r.error)
  }

  /** localPutWalk. */
  class PutWalk {
    const w: World
    const listings: Memo
    const plan: Plan
    var ancestors: set<Path>

    ghost predicate Valid()
      reads this, listings, plan
    {
      listings.Valid() && listings.remote == w.remote && MissingIsEmpty(w.remote) && plan.bytes == plan.Held().Bytes()
    }

    constructor (w: World, listings: Memo, plan: Plan)
      ensures this.w == w && this.listings == listings && this.plan == plan && ancestors == {}
    {
      this.w, this.listings, this.plan, ancestors := w, listings, plan, {};
    }

    /** The walk of one entry agrees with UploadEntry; the ancestors are as before, whether
        it fails or not. */
    method TakeEntry(rel: Path, e: DirEntry, depth: nat) returns (failed: Option<Failure>)
      requires Valid() && depth == |rel| <= MAX_DEPTH
      requires ancestors == Above(w, rel + [e.name]) && Straight(w, rel + [e.name])
      modifies this`ancestors, listings, plan
      ensures ancestors == old(ancestors)
      ensures failed == Refusal(UploadEntry(w, rel, e, MAX_DEPTH - depth))
      ensures failed.None? ==> plan.Held() == old(plan.Held()).Then(UploadEntry(w, rel, e, MAX_DEPTH - depth).value)
      ensures Valid()
      ensures failed == Some(DepthLimit) ==> exists r :: |r| == MAX_DEPTH + 1 && Straight(w, r)
      decreases MAX_DEPTH + 1 - depth, 0
    {
      hide Upload, DirectStat, Above, Straight, Content.Then, Content.Bytes;
      var p := rel + [e.name];
      var here, there := w.source + p, w.root + p;
      ghost var before := plan.Held();
      if w.excludes(p) {
        plan.AddSkip(here, MatchedExclusion);
        return None;
      }
      var status := w.stat(here);
      if status.Err? {
        if e.link && status.error.Missing? {
          plan.AddSkip(here, LinkTargetMissing);
          return None;
        }
        return Some(Marked(status.error));
      }
      var remote := listings.Stat(there);
      if remote.Err? && !IsMissing(remote) {
        return Some(RemoteFailed);
      }
      match status.value.kind {
        case Folder =>
          if remote.Ok? && Opens(remote.value) != ADirectory {
            return Some(TypeMismatch);
          }
          plan.AddDirectory(there);
          failed := Directory(p, depth + 1);
          if failed.None? {
            before.ThenAssociative(OneDirectory(there), Upload(w, p, MAX_DEPTH - depth - 1).value);
          }
        case Regular =>
          if remote.Ok? && Opens(remote.value) != AFile {
            return Some(TypeMismatch);
          }
          plan.AddFile(File(here, there, status.value.size, remote.Ok?));
          return None;
        case Special =>
          plan.AddSkip(here, NeitherFileNorDirectory);
          return None;
      }
    }

    /** localPutWalk.directory. */
    method Directory(rel: Path, depth: nat) returns (failed: Option<Failure>)
      requires Valid() && depth == |rel| <= MAX_DEPTH + 1
      requires ancestors == Above(w, rel) && Straight(w, rel)
      modifies this`ancestors, listings, plan
      ensures ancestors == old(ancestors)
      ensures failed == if depth > MAX_DEPTH then Some(DepthLimit) else Refusal(Upload(w, rel, MAX_DEPTH - depth))
      ensures failed.None? ==> plan.Held() == old(plan.Held()).Then(Upload(w, rel, MAX_DEPTH - depth).value)
      ensures Valid()
      ensures failed == Some(DepthLimit) ==> exists r :: |r| == MAX_DEPTH + 1 && Straight(w, r)
      decreases MAX_DEPTH + 1 - depth, 2
    {
      if depth > MAX_DEPTH {
        return Some(DepthLimit);
      }
      hide Upload, UploadAll, UploadEntry, AndThen, Above, Straight, DirectStat, Content.Then, Content.Bytes;
      UploadCases(w, rel, MAX_DEPTH - depth);
      var here := w.source + rel;
      var resolved := w.resolve(here);
      if resolved.Err? {
        return Some(Marked(resolved.error));
      }
      if resolved.value in ancestors {
        plan.AddSkip(here, LinkBack);
        return None;
      }
      ancestors := ancestors + {resolved.value};
      var entries := w.readDir(here);
      if entries.Err? {
        ancestors := ancestors - {resolved.value};
        return Some(Marked(entries.error));
      }
      forall name ensures ancestors == Above(w, rel + [name]) && Straight(w, rel + [name]) {
        AboveStep(w, rel, name);
      }
      failed := TakeAll(rel, entries.value, depth);
      ancestors := ancestors - {resolved.value};
    }

    /** The loop of localPutWalk.directory. */
    method TakeAll(rel: Path, entries: seq<DirEntry>, depth: nat) returns (failed: Option<Failure>)
      requires Valid() && depth == |rel| <= MAX_DEPTH
      requires forall name :: ancestors == Above(w, rel + [name]) && Straight(w, rel + [name])
      modifies this`ancestors, listings, plan
      ensures ancestors == old(ancestors)
      ensures failed == Refusal(UploadAll(w, rel, entries, MAX_DEPTH - depth))
      ensures failed.None? ==> plan.Held() == old(plan.Held()).Then(UploadAll(w, rel, entries, MAX_DEPTH - depth).value)
      ensures Valid()
      ensures failed == Some(DepthLimit) ==> exists r :: |r| == MAX_DEPTH + 1 && Straight(w, r)
      decreases MAX_DEPTH + 1 - depth, 1
    {
      hide UploadAll, UploadEntry, AndThen, Above, Straight, DirectStat, Content.Then, Content.Bytes;
      ghost var levels := MAX_DEPTH - depth;
      ghost var before, total, sofar := plan.Held(), UploadAll(w, rel, entries, levels), NOTHING;
      Start(w, rel, entries, levels, before);
      for i := 0 to |entries|
        invariant Valid() && ancestors == old(ancestors)
        invariant plan.Held() == before.Then(sofar)
        invariant total == AndThen(sofar, UploadAll(w, rel, entries[i..], levels))
      {
        Step(w, rel, entries, i, levels, before, sofar);
        failed := TakeEntry(rel, entries[i], depth);
        if failed.Some? {
          return;
        }
        sofar := sofar.Then(UploadEntry(w, rel, entries[i], levels).value);
      }
      assert total == Ok(sofar) by { Finish(w, rel, entries, levels, sofar); }
      return None;
    }
  }

  /** buildSFTPPutPlan for a directory: the plan is the root and all that is to be uploaded,
      its bytes are the sum of the file sizes, and only a chain of more than MAX_DEPTH
      different places makes it too deep. */
  method Build(w: World) returns (failed: Option<Failure>, plan: Plan)
    requires MissingIsEmpty(w.remote)
    ensures failed == Refusal(Upload(w, [], MAX_DEPTH))
    ensures failed.None? ==> plan.Held() == OneDirectory(w.root).Then(Upload(w, [], MAX_DEPTH).value)
    ensures plan.bytes == SumSizes(plan.files)
    ensures failed == Some(DepthLimit) ==>
            exists r :: |r| == MAX_DEPTH + 1 && Straight(w, r) && IsFolder(w, r)
  {
    hide Upload;
    plan := new Plan(w.root);
    var listings := new Memo(w.remote);
    var walk := new PutWalk(w, listings, plan);
    assert plan.Held() == OneDirectory(w.root);
    assert Above(w, []) == {};
    failed := walk.Directory([], 0);
    if failed == Some(DepthLimit) {
      var r := TooDeep(w, [], MAX_DEPTH);
      FolderStraight(w, r);
    }
  }

  // -------------------------------- what Upload holds, said without following the walk

  /** An entry named so stands in the directory d. */
  ghost predicate Named(w: World, d: Path, name: string) {
    w.readDir(w.source + d).Ok? && exists e :: e in w.readDir(w.source + d).value && e.name == name
  }

  /** Something to be uploaded stands at r: the directory above it is entered, no rule
      excludes it, and it is there. */
  ghost predicate Placed(w: World, r: Path)
    decreases |r|, 0
  {
    && r != []
    && Entered(w, Parent(r))
    && Named(w, Parent(r), r[|r| - 1])
    && !w.excludes(r)
    && w.stat(w.source + r).Ok?
  }

  ghost predicate IsFolder(w: World, r: Path)
    decreases |r|, 1
  {
    Placed(w, r) && w.stat(w.source + r).value.kind == Folder
  }

  ghost predicate IsRegular(w: World, r: Path) {
    Placed(w, r) && w.stat(w.source + r).value.kind == Regular
  }

  /** A directory is entered unless it is, behind its links, one of those above it. */
  ghost predicate Entered(w: World, r: Path)
    decreases |r|, 2
  {
    && (r == [] || IsFolder(w, r))
    && w.resolve(w.source + r).Ok?
    && w.resolve(w.source + r).value !in Above(w, r)
  }

  /** No directory is entered inside itself, whatever links lead to it. */
  lemma {:induction false} NeverInsideItself(w: World, r: Path, i: nat, j: nat)
    requires Entered(w, r) && i < j <= |r|
    ensures w.resolve(w.source + r[..i]).Ok? && w.resolve(w.source + r[..j]).Ok?
    ensures w.resolve(w.source + r[..i]) != w.resolve(w.source + r[..j])
    decreases |r|
  {
    EnteredAbove(w, r, j);
    EnteredAbove(w, r, i);
    assert r[..j][..i] == r[..i];
  }

  lemma {:induction false} EnteredAbove(w: World, r: Path, n: nat)
    requires Entered(w, r) && n <= |r|
    ensures Entered(w, r[..n])
    decreases |r|
  {
    if n == |r| {
      assert r[..n] == r;
    } else {
      assert IsFolder(w, r);
      assert Placed(w, r);
      EnteredAbove(w, Parent(r), n);
      assert Parent(r)[..n] == r[..n];
    }
  }

  ghost function FileAt(w: World, r: Path): File
    requires w.stat(w.source + r).Ok?
  {
    File(w.source + r, w.root + r, w.stat(w.source + r).value.size, DirectStat(w.remote, w.root + r).Ok?)
  }

  ghost predicate Holds(w: World, rel: Path, c: Content) {
    && (forall d :: d in c.directories ==> w.root <= d && rel < d[|w.root|..] && IsFolder(w, d[|w.root|..]))
    && (forall f :: f in c.files ==>
          && w.root <= f.destination
          && rel < f.destination[|w.root|..]
          && IsRegular(w, f.destination[|w.root|..])
          && f == FileAt(w, f.destination[|w.root|..]))
  }

  lemma {:induction false} UploadSound(w: World, rel: Path, levels: nat)
    requires (rel == [] || IsFolder(w, rel)) && Upload(w, rel, levels).Ok?
    ensures Holds(w, rel, Upload(w, rel, levels).value)
    decreases levels, 2
  {
    if w.resolve(w.source + rel).value !in Above(w, rel) {
      hide UploadAll, UploadEntry, IsFolder, Above;
      AllSound(w, rel, w.readDir(w.source + rel).value, levels);
    }
  }

  lemma {:induction false} AllSound(w: World, rel: Path, entries: seq<DirEntry>, levels: nat)
    requires Entered(w, rel) && UploadAll(w, rel, entries, levels).Ok?
    requires forall e :: e in entries ==> Named(w, rel, e.name)
    ensures Holds(w, rel, UploadAll(w, rel, entries, levels).value)
    decreases levels, 1, |entries|
  {
    hide IsFolder, IsRegular, Named, Entered, UploadEntry;
    if entries != [] {
      EntrySound(w, rel, entries[0], levels);
      AllSound(w, rel, entries[1..], levels);
    }
  }

  lemma {:induction false} EntrySound(w: World, rel: Path, e: DirEntry, levels: nat)
    requires Entered(w, rel) && Named(w, rel, e.name) && UploadEntry(w, rel, e, levels).Ok?
    ensures Holds(w, rel, UploadEntry(w, rel, e, levels).value)
    decreases levels, 0
  {
    hide Entered, Named, Above, Upload;
    var p := rel + [e.name];
    if !w.excludes(p) && w.stat(w.source + p).Ok? {
      EntryPlaced(w, rel, e);
      hide Placed;
      assert (w.root + p)[|w.root|..] == p;
      if w.stat(w.source + p).value.kind == Folder {
        assert IsFolder(w, p);
        UploadSound(w, p, levels - 1);
        hide IsFolder, IsRegular, FileAt;
        HoldsBelow(w, rel, e.name, Upload(w, p, levels - 1).value);
      }
    }
  }

  lemma EntryPlaced(w: World, rel: Path, e: DirEntry)
    requires Entered(w, rel) && Named(w, rel, e.name) && !w.excludes(rel + [e.name])
    requires w.stat(w.source + (rel + [e.name])).Ok?
    ensures Placed(w, rel + [e.name])
  {
    var p := rel + [e.name];
    assert Parent(p) == rel && p[|p| - 1] == e.name;
  }

  lemma HoldsBelow(w: World, rel: Path, name: string, c: Content)
    requires Holds(w, rel + [name], c) && IsFolder(w, rel + [name])
    ensures Holds(w, rel, OneDirectory(w.root + (rel + [name])).Then(c))
  {
    hide Placed, FileAt;
    assert (w.root + (rel + [name]))[|w.root|..] == rel + [name];
  }

  lemma {:induction false} EntryWithin(w: World, rel: Path, entries: seq<DirEntry>, e: DirEntry, levels: nat)
    requires UploadAll(w, rel, entries, levels).Ok? && e in entries
    ensures UploadEntry(w, rel, e, levels).Ok?
    ensures var all, one := UploadAll(w, rel, entries, levels).value, UploadEntry(w, rel, e, levels).value;
            && (forall d :: d in one.directories ==> d in all.directories)
            && (forall f :: f in one.files ==> f in all.files)
  {
    hide UploadEntry;
    if entries[0] != e {
      EntryWithin(w, rel, entries[1..], e, levels);
    }
  }

  /** What stands in an entered directory has been taken, and so has all below it. */
  lemma TakenAt(w: World, rel: Path, name: string, levels: nat)
    requires Upload(w, rel, levels).Ok? && Entered(w, rel) && Placed(w, rel + [name])
    ensures var c, p := Upload(w, rel, levels).value, rel + [name];
            match w.stat(w.source + p).value.kind
            case Folder =>
              && w.root + p in c.directories
              && levels > 0
              && Upload(w, p, levels - 1).Ok?
              && (forall d :: d in Upload(w, p, levels - 1).value.directories ==> d in c.directories)
              && (forall f :: f in Upload(w, p, levels - 1).value.files ==> f in c.files)
            case Regular => FileAt(w, p) in c.files
            case Special => true
  {
    var p := rel + [name];
    assert Parent(p) == rel && p[|p| - 1] == name;
    var entries := w.readDir(w.source + rel).value;
    var e :| e in entries && e.name == name;
    assert !w.excludes(p);
    hide Placed, Entered, Above;
    EntryWithin(w, rel, entries, e, levels);
  }

  /** Everything placed has been taken. */
  lemma {:induction false} UploadComplete(w: World, rel: Path, levels: nat, r: Path)
    requires Upload(w, rel, levels).Ok? && rel < r && Placed(w, r)
    ensures var c := Upload(w, rel, levels).value;
            && (IsFolder(w, r) ==> w.root + r in c.directories)
            && (IsRegular(w, r) ==> FileAt(w, r) in c.files)
    decreases |r| - |rel|
  {
    hide Upload, FileAt, Above;
    assert Entered(w, Parent(r));
    EnteredAbove(w, Parent(r), |rel|);
    assert Parent(r)[..|rel|] == rel;
    var p := r[..|rel| + 1];
    assert p == rel + [r[|rel|]];
    if p != r {
      EnteredAbove(w, Parent(r), |rel| + 1);
      assert Parent(r)[..|rel| + 1] == p;
      hide Entered;
      assert Placed(w, p);
      TakenAt(w, rel, r[|rel|], levels);
      UploadComplete(w, p, levels - 1, r);
    } else {
      TakenAt(w, rel, r[|rel|], levels);
    }
  }

  /** What a successful plan holds: exactly the directories and files that can be reached
      without entering a directory inside itself, each at the place below the root that
      answers to its own. */
  lemma PlanIsTree(w: World, levels: nat)
    requires Upload(w, [], levels).Ok?
    ensures var c := Upload(w, [], levels).value;
            && (forall r :: w.root + r in c.directories <==> IsFolder(w, r))
            && (forall d :: d in c.directories ==> w.root < d)
            && (forall f :: f in c.files <==> exists r :: IsRegular(w, r) && f == FileAt(w, r))
  {
    var c := Upload(w, [], levels).value;
    UploadSound(w, [], levels);
    hide Upload;
    forall r | w.root + r in c.directories ensures IsFolder(w, r) {
      assert (w.root + r)[|w.root|..] == r;
    }
    forall r | IsFolder(w, r) ensures w.root + r in c.directories {
      UploadComplete(w, [], levels, r);
    }
    forall r | IsRegular(w, r) ensures FileAt(w, r) in c.files {
      UploadComplete(w, [], levels, r);
    }
    hide Placed;
  }

  // ------------------------------------------------- when there is a content at all

  /** Nothing is wrong with an entry of the directory r, n being the depth allowed. */
  ghost predicate EntryFine(w: World, r: Path, e: DirEntry, n: nat) {
    var p := r + [e.name];
    var there := DirectStat(w.remote, w.root + p);
    w.excludes(p) ||
    match w.stat(w.source + p)
    case Err(failure) => e.link && failure.Missing?
    case Ok(info) =>
      && (there.Ok? || IsMissing(there))
      && (info.kind == Folder ==> Fits(w, w.root + p, ADirectory) && |p| <= n)
      && (info.kind == Regular ==> Fits(w, w.root + p, AFile))
  }

  /** A directory resolves and, unless it is one of those above it, can be read, with nothing
      wrong in it. */
  ghost predicate FolderFine(w: World, r: Path, n: nat) {
    var resolved, entries := w.resolve(w.source + r), w.readDir(w.source + r);
    && resolved.Ok?
    && (resolved.value !in Above(w, r) ==> entries.Ok? && forall e :: e in entries.value ==> EntryFine(w, r, e, n))
  }

  ghost predicate TreeFine(w: World, n: nat) {
    forall r :: r == [] || IsFolder(w, r) ==> FolderFine(w, r, n)
  }

  /** The tree can be uploaded exactly when nothing in it is wrong, said by place. */
  lemma TreeDecided(w: World, n: nat)
    ensures Upload(w, [], n).Ok? <==> TreeFine(w, n)
  {
    hide Upload, FolderFine, IsFolder;
    if TreeFine(w, n) {
      FineUpload(w, n, []);
    }
    if Upload(w, [], n).Ok? {
      forall r | r == [] || IsFolder(w, r) ensures FolderFine(w, r, n) {
        FolderWithin(w, n, r);
        UploadFine(w, n, r);
      }
    }
  }

  /** Every folder there is has been gone through. */
  lemma {:induction false} FolderWithin(w: World, n: nat, r: Path)
    requires Upload(w, [], n).Ok? && (r == [] || IsFolder(w, r))
    ensures |r| <= n && Upload(w, r, n - |r|).Ok?
    decreases |r|
  {
    if r != [] {
      hide Upload, Above;
      var d, name := Parent(r), r[|r| - 1];
      assert Entered(w, d) && r == d + [name];
      FolderWithin(w, n, d);
      TakenAt(w, d, name, n - |d|);
    }
  }

  lemma UploadFine(w: World, n: nat, r: Path)
    requires |r| <= n && Upload(w, r, n - |r|).Ok?
    ensures FolderFine(w, r, n)
  {
    hide UploadAll, Above;
    var resolved := w.resolve(w.source + r);
    if resolved.value !in Above(w, r) {
      var entries := w.readDir(w.source + r).value;
      forall e | e in entries ensures EntryFine(w, r, e, n) {
        EntryWithin(w, r, entries, e, n - |r|);
      }
    }
  }

  lemma {:induction false} FineUpload(w: World, n: nat, rel: Path)
    requires TreeFine(w, n) && |rel| <= n && (rel == [] || IsFolder(w, rel))
    ensures Upload(w, rel, n - |rel|).Ok?
    decreases n - |rel|, 1
  {
    hide UploadAll, UploadEntry, EntryFine, IsFolder, Above;
    assert FolderFine(w, rel, n);
    if w.resolve(w.source + rel).value !in Above(w, rel) {
      var entries := w.readDir(w.source + rel).value;
      forall e | e in entries ensures UploadEntry(w, rel, e, n - |rel|).Ok? {
        FineEntry(w, n, rel, e);
      }
      AllFine(w, rel, entries, n - |rel|);
    }
  }

  lemma {:induction false} FineEntry(w: World, n: nat, rel: Path, e: DirEntry)
    requires TreeFine(w, n) && |rel| <= n && Entered(w, rel) && EntryFine(w, rel, e, n)
    requires w.readDir(w.source + rel).Ok? && e in w.readDir(w.source + rel).value
    ensures UploadEntry(w, rel, e, n - |rel|).Ok?
    decreases n - |rel|, 0
  {
    hide TreeFine, Entered, Upload, Above;
    var p := rel + [e.name];
    if !w.excludes(p) && w.stat(w.source + p).Ok? && w.stat(w.source + p).value.kind == Folder {
      EntryPlaced(w, rel, e);
      FineUpload(w, n, p);
    }
  }

  lemma {:induction false} AllFine(w: World, rel: Path, entries: seq<DirEntry>, levels: nat)
    requires forall e :: e in entries ==> UploadEntry(w, rel, e, levels).Ok?
    ensures UploadAll(w, rel, entries, levels).Ok?
  {
    hide UploadEntry;
    if entries != [] {
      AllFine(w, rel, entries[1..], levels);
    }
  }

  // -------------------------------------------- when no two uploads share a target

  /** How often each name is to be taken from what is read in the directory rel. */
  ghost function TakenNames(w: World, rel: Path, entries: seq<DirEntry>): multiset<string> {
    if entries == [] then multiset{}
    else TakenName(w, rel, entries[0]) + TakenNames(w, rel, entries[1..])
  }

  ghost function TakenName(w: World, rel: Path, e: DirEntry): multiset<string> {
    var status := w.stat(w.source + (rel + [e.name]));
    if w.excludes(rel + [e.name]) || status.Err? || status.value.kind == Special then multiset{} else multiset{e.name}
  }

  /** No directory that is entered has two entries to be taken under the same name. */
  ghost predicate NamedOnce(w: World) {
    forall r: Path, n :: Entered(w, r) && w.readDir(w.source + r).Ok? ==>
      TakenNames(w, r, w.readDir(w.source + r).value)[n] <= 1
  }

  lemma TargetsUnder(w: World, rel: Path, levels: nat, x: Path)
    requires (rel == [] || IsFolder(w, rel)) && Upload(w, rel, levels).Ok?
    requires x in Targets(Upload(w, rel, levels).value)
    ensures w.root + rel < x
  {
    hide Upload, IsFolder, IsRegular, FileAt, Targets;
    UploadSound(w, rel, levels);
    HeldUnder(w, rel, Upload(w, rel, levels).value, x);
  }

  lemma HeldUnder(w: World, rel: Path, c: Content, x: Path)
    requires Holds(w, rel, c) && x in Targets(c)
    ensures w.root + rel < x
  {
    hide IsFolder, IsRegular, FileAt;
    if x !in c.directories {
      var i :| 0 <= i < |c.files| && c.files[i].destination == x;
      assert c.files[i] in c.files;
    }
    assert x == w.root + x[|w.root|..];
  }

  /** Targets made at or below x inside the folder p. */
  ghost function InsideTargets(w: World, p: Path, levels: nat, x: Path): nat {
    if levels > 0 && IsFolder(w, p) && Upload(w, p, levels - 1).Ok? then Targets(Upload(w, p, levels - 1).value)[x]
    else 0
  }

  /** One entry makes its own target once, and others only below it. */
  lemma EntryTargets(w: World, rel: Path, e: DirEntry, levels: nat, x: Path)
    requires Entered(w, rel) && Named(w, rel, e.name) && UploadEntry(w, rel, e, levels).Ok?
    ensures var here, t := w.root + (rel + [e.name]), Targets(UploadEntry(w, rel, e, levels).value)[x];
            if TakenName(w, rel, e) == multiset{} then t == 0
            else if x == here then t == 1
            else if !(here < x) then t == 0
            else t <= InsideTargets(w, rel + [e.name], levels, x)
  {
    hide Entered, Named, Upload, IsFolder, DirectStat, InsideTargets;
    var p := rel + [e.name];
    if w.excludes(p) || w.stat(w.source + p).Err? || w.stat(w.source + p).value.kind == Special {
      assert Targets(UploadEntry(w, rel, e, levels).value) == multiset{};
    } else {
      assert e.name in TakenName(w, rel, e);
      if w.stat(w.source + p).value.kind == Regular {
        var file := UploadEntry(w, rel, e, levels).value.files[0];
        assert UploadEntry(w, rel, e, levels).value == OneFile(file);
        assert Destinations([file]) == [w.root + p];
      } else {
        FolderTargets(w, rel, e, levels, x);
      }
    }
  }

  lemma FolderTargets(w: World, rel: Path, e: DirEntry, levels: nat, x: Path)
    requires Entered(w, rel) && Named(w, rel, e.name) && UploadEntry(w, rel, e, levels).Ok?
    requires !w.excludes(rel + [e.name]) && w.stat(w.source + (rel + [e.name])).Ok?
    requires w.stat(w.source + (rel + [e.name])).value.kind == Folder
    ensures var here, t := w.root + (rel + [e.name]), Targets(UploadEntry(w, rel, e, levels).value)[x];
            t == if x == here then 1 else if here < x then InsideTargets(w, rel + [e.name], levels, x) else 0
  {
    hide Upload;
    var p := rel + [e.name];
    EntryPlaced(w, rel, e);
    hide Entered, Named, Placed;
    var inside := Upload(w, p, levels - 1).value;
    assert UploadEntry(w, rel, e, levels).value == OneDirectory(w.root + p).Then(inside);
    hide UploadEntry;
    TargetsThen(OneDirectory(w.root + p), inside);
    assert Targets(OneDirectory(w.root + p)) == multiset{w.root + p};
    assert IsFolder(w, p);
    if x in Targets(inside) {
      TargetsUnder(w, p, levels - 1, x);
    }
  }

  /** Each name taken in a directory makes its target as often as it is taken. */
  lemma {:induction false} AllTargets(w: World, rel: Path, entries: seq<DirEntry>, levels: nat, n: string, x: Path)
    requires Entered(w, rel) && UploadAll(w, rel, entries, levels).Ok?
    requires forall e :: e in entries ==> Named(w, rel, e.name)
    requires w.root + (rel + [n]) <= x
    ensures x == w.root + (rel + [n]) ==>
            Targets(UploadAll(w, rel, entries, levels).value)[x] == TakenNames(w, rel, entries)[n]
    ensures InsideTargets(w, rel + [n], levels, x) <= 1 ==>
            Targets(UploadAll(w, rel, entries, levels).value)[x] <= TakenNames(w, rel, entries)[n]
    decreases |entries|
  {
    if entries != [] {
      var e := entries[0];
      hide Entered, Named, InsideTargets, Upload, UploadEntry;
      TargetsThen(UploadEntry(w, rel, e, levels).value, UploadAll(w, rel, entries[1..], levels).value);
      EntryTargets(w, rel, e, levels, x);
      AllTargets(w, rel, entries[1..], levels, n, x);
      hide Targets;
      if e.name != n {
        NamesPart(w.root, rel, e.name, n, x);
      }
    }
  }

  /** What Upload takes from a directory that is entered. */
  lemma UploadListed(w: World, rel: Path, levels: nat) returns (entries: seq<DirEntry>)
    requires Upload(w, rel, levels).Ok? && Entered(w, rel)
    ensures w.readDir(w.source + rel) == Ok(entries)
    ensures UploadAll(w, rel, entries, levels) == Upload(w, rel, levels)
    ensures forall e :: e in entries ==> Named(w, rel, e.name)
  {
    hide UploadAll, Above;
    entries := w.readDir(w.source + rel).value;
  }

  lemma NoneBehindLink(w: World, rel: Path, levels: nat)
    requires Upload(w, rel, levels).Ok? && (rel == [] || IsFolder(w, rel)) && !Entered(w, rel)
    ensures Targets(Upload(w, rel, levels).value) == multiset{}
  {
    hide UploadAll, Above, IsFolder;
  }

  lemma {:induction false} TargetsOnce(w: World, rel: Path, levels: nat, r: Path)
    requires NamedOnce(w) && (rel == [] || IsFolder(w, rel)) && Upload(w, rel, levels).Ok? && rel < r
    ensures Targets(Upload(w, rel, levels).value)[w.root + r] <= 1
    decreases levels
  {
    hide NamedOnce, Upload, UploadAll, Targets, TakenNames, Entered, Named, IsFolder;
    if !Entered(w, rel) {
      NoneBehindLink(w, rel, levels);
    } else {
      var entries := UploadListed(w, rel, levels);
      var n := r[|rel|];
      NamedHere(w, rel, n);
      FirstStep(w.root, rel, r);
      var p := rel + [n];
      if p == r {
        AllTargets(w, rel, entries, levels, n, w.root + p);
      } else {
        if levels > 0 && IsFolder(w, p) && Upload(w, p, levels - 1).Ok? {
          TargetsOnce(w, p, levels - 1, r);
        }
        assert InsideTargets(w, p, levels, w.root + r) <= 1;
        hide InsideTargets;
        AllTargets(w, rel, entries, levels, n, w.root + r);
      }
    }
  }

  lemma NamedHere(w: World, rel: Path, n: string)
    requires NamedOnce(w) && Entered(w, rel) && w.readDir(w.source + rel).Ok?
    ensures TakenNames(w, rel, w.readDir(w.source + rel).value)[n] <= 1
  {
  }

  lemma {:induction false} TargetsWithin(w: World, rel: Path, entries: seq<DirEntry>, e: DirEntry, levels: nat)
    requires UploadAll(w, rel, entries, levels).Ok? && e in entries
    ensures UploadEntry(w, rel, e, levels).Ok?
    ensures Targets(UploadEntry(w, rel, e, levels).value) <= Targets(UploadAll(w, rel, entries, levels).value)
  {
    hide UploadEntry, Targets;
    TargetsThen(UploadEntry(w, rel, entries[0], levels).value, UploadAll(w, rel, entries[1..], levels).value);
    if entries[0] != e {
      TargetsWithin(w, rel, entries[1..], e, levels);
    }
  }

  /** What a folder holds is part of what the tree holds. */
  lemma {:induction false} EnteredWithin(w: World, n: nat, r: Path)
    requires Upload(w, [], n).Ok? && (r == [] || IsFolder(w, r))
    ensures |r| <= n && Upload(w, r, n - |r|).Ok?
    ensures Targets(Upload(w, r, n - |r|).value) <= Targets(Upload(w, [], n).value)
    decreases |r|
  {
    hide Upload, Targets, Above;
    if r != [] {
      var d, name := Parent(r), r[|r| - 1];
      assert Entered(w, d) && r == d + [name];
      EnteredWithin(w, n, d);
      FolderWithin(w, n, r);
      StepWithin(w, d, name, n - |d|);
    }
  }

  lemma StepWithin(w: World, d: Path, name: string, levels: nat)
    requires Upload(w, d, levels).Ok? && Entered(w, d) && IsFolder(w, d + [name]) && levels > 0
    ensures Upload(w, d + [name], levels - 1).Ok?
    ensures Targets(Upload(w, d + [name], levels - 1).value) <= Targets(Upload(w, d, levels).value)
  {
    var p := d + [name];
    assert Parent(p) == d && p[|p| - 1] == name;
    assert Named(w, d, name) && !w.excludes(p);
    var entries := UploadListed(w, d, levels);
    var e :| e in entries && e.name == name;
    hide Upload, UploadAll, Targets, Entered, Placed, Above, Named;
    TargetsWithin(w, d, entries, e, levels);
    TargetsThen(OneDirectory(w.root + p), Upload(w, p, levels - 1).value);
  }

  /** No remote path is the target of two uploads exactly when no directory that is entered
      has two entries, both to be taken, under one name: what links lead to makes no
      difference. */
  lemma TargetsDistinctDecided(w: World, levels: nat)
    requires Upload(w, [], levels).Ok?
    ensures (forall x :: Targets(Upload(w, [], levels).value)[x] <= 1) <==> NamedOnce(w)
  {
    hide Targets, Upload, Entered, TakenNames;
    var c := Upload(w, [], levels).value;
    if NamedOnce(w) {
      hide NamedOnce;
      forall x ensures Targets(c)[x] <= 1 {
        if x in Targets(c) {
          AnyTargetOnce(w, levels, x);
        }
      }
    }
    if forall x :: Targets(c)[x] <= 1 {
      forall r: Path, n | Entered(w, r) && w.readDir(w.source + r).Ok?
        ensures TakenNames(w, r, w.readDir(w.source + r).value)[n] <= 1
      {
        TakenOnce(w, levels, r, n);
      }
    }
  }

  lemma AnyTargetOnce(w: World, levels: nat, x: Path)
    requires NamedOnce(w) && Upload(w, [], levels).Ok? && x in Targets(Upload(w, [], levels).value)
    ensures Targets(Upload(w, [], levels).value)[x] <= 1
  {
    hide NamedOnce, Upload, Targets;
    TargetsUnder(w, [], levels, x);
    var r := x[|w.root|..];
    assert w.root + [] == w.root && x == w.root + r && [] < r;
    TargetsOnce(w, [], levels, r);
  }

  lemma TakenOnce(w: World, levels: nat, r: Path, n: string)
    requires Upload(w, [], levels).Ok? && forall x :: Targets(Upload(w, [], levels).value)[x] <= 1
    requires Entered(w, r) && w.readDir(w.source + r).Ok?
    ensures TakenNames(w, r, w.readDir(w.source + r).value)[n] <= 1
  {
    hide Upload, UploadAll, Targets, TakenNames, IsFolder, Above;
    assert r == [] || IsFolder(w, r);
    EnteredWithin(w, levels, r);
    var entries := UploadListed(w, r, levels - |r|);
    AllTargets(w, r, entries, levels - |r|, n, w.root + (r + [n]));
  }

  // ------------------------------------------------- when its directories can be made

  /** What the tree has at each planned directory is what the plan was told. */
  ghost predicate Shows(w: World, kinds: Kinds) {
    forall r: Path :: IsFolder(w, r) ==>
      KindAt(kinds, w.root + r) ==
      match DirectStat(w.remote, w.root + r)
      case Ok(e) => Some(e.kind)
      case Err(_) => None
  }

  /** A planned directory can be made or is one; a link to a directory is not. */
  ghost predicate Makeable(w: World, d: Path, answers: Path -> bool, accepts: Path -> bool) {
    && answers(d)
    && match DirectStat(w.remote, d)
       case Ok(e) => e.kind != SymlinkEntry
       case Err(_) => accepts(d)
  }

  lemma PlannedFits(w: World, n: nat, r: Path)
    requires Upload(w, [], n).Ok? && IsFolder(w, r)
    ensures Fits(w, w.root + r, ADirectory)
  {
    hide Upload, Entered, Fits, Above, DirectStat;
    var d, name := Parent(r), r[|r| - 1];
    assert r == d + [name];
    TreeDecided(w, n);
    FolderStands(w, r);
    assert FolderFine(w, d, n);
    var e :| e in w.readDir(w.source + d).value && e.name == name;
    assert EntryFine(w, d, e, n);
  }

  lemma FolderStands(w: World, r: Path)
    requires IsFolder(w, r)
    ensures r != [] && (Parent(r) == [] || IsFolder(w, Parent(r)))
    ensures Named(w, Parent(r), r[|r| - 1]) && !w.excludes(r)
    ensures w.stat(w.source + r).Ok? && w.stat(w.source + r).value.kind == Folder
    ensures w.resolve(w.source + Parent(r)).Ok?
    ensures w.resolve(w.source + Parent(r)).value !in Above(w, Parent(r))
  {
    hide Above, Named;
    assert Placed(w, r);
    assert Entered(w, Parent(r));
  }

  /** A planned directory by itself. */
  lemma FolderMade(
    w: World, n: nat, kinds: Kinds, r: Path, answers: Path -> bool, accepts: Path -> bool)
    requires Upload(w, [], n).Ok? && Shows(w, kinds) && IsFolder(w, r)
    ensures CanEnsure(kinds, w.root + r, answers, accepts) <==>
            && Makeable(w, w.root + r, answers, accepts)
            && (w.root + r !in kinds ==> CanEnsure(kinds, w.root + Parent(r), answers, accepts))
  {
    hide Upload, IsFolder, DirectStat, CanEnsure;
    FolderStands(w, r);
    PlannedFits(w, n, r);
    assert Parent(w.root + r) == w.root + Parent(r);
    CanEnsureStep(kinds, w.root + r, answers, accepts);
  }

  lemma {:induction false} FolderEnsured(
    w: World, n: nat, kinds: Kinds, r: Path, answers: Path -> bool, accepts: Path -> bool)
    requires Upload(w, [], n).Ok? && Shows(w, kinds) && (r == [] || IsFolder(w, r))
    requires CanEnsure(kinds, w.root, answers, accepts)
    requires forall q :: IsFolder(w, q) ==> Makeable(w, w.root + q, answers, accepts)
    ensures CanEnsure(kinds, w.root + r, answers, accepts)
    decreases |r|
  {
    hide Upload, IsFolder, Shows, Makeable, CanEnsure;
    if r == [] {
      assert w.root + r == w.root;
    } else {
      FolderMade(w, n, kinds, r, answers, accepts);
      FolderStands(w, r);
      FolderEnsured(w, n, kinds, Parent(r), answers, accepts);
    }
  }

  /** The directories of a successful plan can all be ensured exactly when the root can, the
      lookups are answered, what is missing may be created, and none of those that are there
      is a link: the plan takes a link to a directory for one, and making it does not. */
  lemma EnsuredDecided(w: World, n: nat, kinds: Kinds, answers: Path -> bool, accepts: Path -> bool)
    requires Upload(w, [], n).Ok? && Shows(w, kinds)
    ensures var planned := [w.root] + Upload(w, [], n).value.directories;
            (forall i :: 0 <= i < |planned| ==> CanEnsure(kinds, planned[i], answers, accepts)) <==>
            && CanEnsure(kinds, w.root, answers, accepts)
            && forall d :: d in Upload(w, [], n).value.directories ==> Makeable(w, d, answers, accepts)
  {
    hide Upload, IsFolder, Shows, Makeable, CanEnsure;
    PlanIsTree(w, n);
    var directories := Upload(w, [], n).value.directories;
    var planned := [w.root] + directories;
    if forall i :: 0 <= i < |planned| ==> CanEnsure(kinds, planned[i], answers, accepts) {
      assert planned[0] == w.root;
      forall d | d in directories ensures Makeable(w, d, answers, accepts) {
        var i :| 0 <= i < |directories| && directories[i] == d;
        assert planned[i + 1] == d && d == w.root + d[|w.root|..];
        FolderMade(w, n, kinds, d[|w.root|..], answers, accepts);
      }
    }
    if CanEnsure(kinds, w.root, answers, accepts)
       && forall d :: d in directories ==> Makeable(w, d, answers, accepts) {
      forall i | 0 <= i < |planned| ensures CanEnsure(kinds, planned[i], answers, accepts) {
        if i > 0 {
          var d := directories[i - 1];
          assert d in directories && d == w.root + d[|w.root|..];
          FolderEnsured(w, n, kinds, d[|w.root|..], answers, accepts);
        }
      }
    }
  }

  /** A server that has a link to a directory where one is planned: the plan is made, and its
      directories cannot be. */
  lemma LinkNotEnsured() returns (w: World, kinds: Kinds)
    ensures MissingIsEmpty(w.remote) && Upload(w, [], 1) == Ok(OneDirectory(["a"])) && Shows(w, kinds)
    ensures !CanEnsure(kinds, ["a"], _ => true, _ => true)
  {
    var link := Entry("a", ["a"], SymlinkEntry, Some(DirectoryTarget), 0);
    var remote := (p: Path) => if p == [] then Ok([link]) else Ok([]);
    var readDir := (p: Path) => if p == [] then Ok([DirEntry("a", false)]) else Ok([]);
    w := World(remote, p => Ok(p), readDir, _ => Ok(Info(Folder, 0)), _ => false, [], []);
    kinds := map[["a"] := SymlinkEntry];
    assert [] + ["a"] == ["a"] && Parent(["a"]) == [];
    assert DirectStat(remote, ["a"]) == Ok(link);
    assert [DirEntry("a", false)][1..] == [];
    LinkUploaded(w);
    forall r: Path | IsFolder(w, r) ensures r == ["a"] {
      PlanIsTree(w, 1);
      assert w.root + r == r;
    }
    CanEnsureStep(kinds, ["a"], _ => true, _ => true);
  }

  lemma LinkUploaded(w: World)
    requires w.source == [] && w.root == [] && w.readDir([]) == Ok([DirEntry("a", false)]) && w.readDir(["a"]) == Ok([])
    requires w.resolve([]) == Ok([]) && w.resolve(["a"]) == Ok(["a"]) && !w.excludes(["a"])
    requires w.stat(["a"]) == Ok(Info(Folder, 0)) && Fits(w, ["a"], ADirectory)
    ensures Upload(w, [], 1) == Ok(OneDirectory(["a"]))
  {
    var e := DirEntry("a", false);
    var root: Path := [];
    assert root + ["a"] == ["a"] && root + root == root;
    assert w.source + ["a"] == ["a"] && w.root + ["a"] == ["a"] && w.source + root == root;
    assert Above(w, []) == {};
    AboveStep(w, [], "a");
    assert Above(w, ["a"]) == {[]};
    assert UploadAll(w, ["a"], [], 0) == Ok(NOTHING);
    UploadCases(w, ["a"], 0);
    assert Upload(w, ["a"], 0) == Ok(NOTHING);
    assert OneDirectory(["a"]).Then(NOTHING) == OneDirectory(["a"]);
    assert UploadEntry(w, [], e, 1) == Ok(OneDirectory(["a"]));
    assert [e][1..] == [];
    assert UploadAll(w, [], [], 1) == Ok(NOTHING);
    assert UploadAll(w, [], [e], 1) == Ok(OneDirectory(["a"]));
    UploadCases(w, [], 1);
  }

  // -------------------------------------------------------------------- being too deep

  /** Behind a refusal for depth there is a folder one level deeper than allowed, reached
      without entering any directory inside itself. */
  lemma {:induction false} TooDeep(w: World, rel: Path, levels: nat) returns (r: Path)
    requires (rel == [] || IsFolder(w, rel)) && Upload(w, rel, levels) == Err(DepthLimit)
    ensures IsFolder(w, r) && |r| == |rel| + levels + 1
    decreases levels
  {
    hide Upload, UploadAll, UploadEntry, IsFolder, Entered;
    TooDeepInside(w, rel, levels);
    var e := FirstTooDeep(w, rel, w.readDir(w.source + rel).value, levels);
    TooDeepFolder(w, rel, e, levels);
    if levels == 0 {
      return rel + [e.name];
    }
    r := TooDeep(w, rel + [e.name], levels - 1);
  }

  lemma TooDeepInside(w: World, rel: Path, levels: nat)
    requires (rel == [] || IsFolder(w, rel)) && Upload(w, rel, levels) == Err(DepthLimit)
    ensures Entered(w, rel) && w.readDir(w.source + rel).Ok?
    ensures UploadAll(w, rel, w.readDir(w.source + rel).value, levels) == Err(DepthLimit)
  {
    hide UploadAll, IsFolder, Above;
  }

  lemma TooDeepFolder(w: World, rel: Path, e: DirEntry, levels: nat)
    requires Entered(w, rel) && w.readDir(w.source + rel).Ok? && e in w.readDir(w.source + rel).value
    requires UploadEntry(w, rel, e, levels) == Err(DepthLimit)
    ensures IsFolder(w, rel + [e.name])
    ensures levels > 0 ==> Upload(w, rel + [e.name], levels - 1) == Err(DepthLimit)
  {
    hide Upload, Entered, Above, Fits, DirectStat;
    assert Named(w, rel, e.name);
    EntryPlaced(w, rel, e);
    hide Placed;
  }

  lemma {:induction false} FirstTooDeep(w: World, rel: Path, entries: seq<DirEntry>, levels: nat)
    returns (e: DirEntry)
    requires UploadAll(w, rel, entries, levels) == Err(DepthLimit)
    ensures e in entries && UploadEntry(w, rel, e, levels) == Err(DepthLimit)
  {
    hide UploadEntry;
    if UploadEntry(w, rel, entries[0], levels).Err? {
      e := entries[0];
    } else {
      e := FirstTooDeep(w, rel, entries[1..], levels);
    }
  }

  lemma FolderStraight(w: World, r: Path)
    requires IsFolder(w, r)
    ensures Straight(w, r)
  {
    hide Above;
    assert Entered(w, Parent(r)) by { assert Placed(w, r); }
    forall n | 0 <= n < |r|
      ensures w.resolve(w.source + r[..n]).Ok? && w.resolve(w.source + r[..n]).value !in Above(w, r[..n])
    {
      EnteredAbove(w, Parent(r), n);
      assert Parent(r)[..n] == r[..n];
    }
  }

  /** When the places that links lead to are no more than the depth allowed, an upload is
      never refused for being too deep: links alone cannot make it. */
  lemma FewPlacesNeverTooDeep(w: World, places: set<Path>)
    requires |places| <= MAX_DEPTH && forall p :: w.resolve(p).Ok? ==> w.resolve(p).value in places
    ensures Upload(w, [], MAX_DEPTH) != Err(DepthLimit)
  {
    hide Upload, IsFolder;
    if Upload(w, [], MAX_DEPTH) == Err(DepthLimit) {
      var r := TooDeep(w, [], MAX_DEPTH);
      FolderStraight(w, r);
      NeverTooDeep(w, places, r);
      assert false;
    }
  }

  /** A chain of directories without a repeated place is no longer than there are places. */
  lemma NeverTooDeep(w: World, places: set<Path>, r: Path)
    requires Straight(w, r) && |places| <= MAX_DEPTH
    requires forall p :: w.resolve(p).Ok? ==> w.resolve(p).value in places
    ensures |r| <= MAX_DEPTH
  {
    StraightLength(w, r);
    assert Above(w, r) <= places;
    SubsetSize(Above(w, r), places);
  }
}
