/** Planning a recursive download: a budgeted walk of a remote tree that need not end. */
module GetPlan {
  import opened Wrappers
  import opened RemoteListings
  import opened TransferPlan
  import Sorting

  // ------------------------------------------------------------------- the budget

  const DEFAULT_DEPTH := 64
  const MAX_ENTRIES := 1_000_000
  const DEFAULT_ENTRIES := 10_000
  const MAX_MIB := 8 * 1024 * 1024
  const DEFAULT_MIB := 1024
  const MIB := 0x10_0000

  datatype Failure =
    | ListingFailed(error: RemoteError)
    | LocalName(name: string)
    | InvalidResponse
    | TypeMismatch
    | LocalUnreadable
    | DepthLimit
    | EntryLimit
    | ByteLimit

  /** sftpCLIRecursiveBudget. */
  class Budget {
    const maxDepth: nat
    const maxEntries: nat
    const maxBytes: nat
    var entries: nat
    var bytes: nat

    ghost predicate Valid()
      reads this
    {
      entries <= maxEntries && bytes <= maxBytes <= MAX_INT64
    }

    /** recursiveSFTPCLIBudget: limits out of range give way to the defaults, and the
        chosen root already counts as one entry. */
    constructor (depth: int, maximum: int, totalMiB: int)
      ensures Valid() && entries == 1 && bytes == 0
      ensures 1 <= maxDepth <= MAX_DEPTH && 1 <= maxEntries <= MAX_ENTRIES && MIB <= maxBytes <= MAX_MIB * MIB
      ensures 1 <= depth <= MAX_DEPTH ==> maxDepth == depth
      ensures 1 <= maximum <= MAX_ENTRIES ==> maxEntries == maximum
      ensures 1 <= totalMiB <= MAX_MIB ==> maxBytes == totalMiB * MIB
    {
      maxDepth := if depth <= 0 || depth > MAX_DEPTH then DEFAULT_DEPTH else depth;
      maxEntries := if maximum <= 0 || maximum > MAX_ENTRIES then DEFAULT_ENTRIES else maximum;
      maxBytes := (if totalMiB <= 0 || totalMiB > MAX_MIB then DEFAULT_MIB else totalMiB) * MIB;
      entries, bytes := 1, 0;
    }

    /** Counts one entry that opens as a file of the given size, or as something else, at
        the given depth. A refused entry may have been counted, but no bytes have. */
    method Include(file: bool, size: int, depth: nat) returns (failed: Option<Failure>)
      requires Valid()
      modifies this
      ensures Valid()
      ensures failed.None? <==>
              && depth <= maxDepth
              && old(entries) < maxEntries
              && (file ==> 0 <= size && old(bytes) + size <= maxBytes)
      ensures failed.None? ==> entries == old(entries) + 1 && bytes == old(bytes) + if file then size else 0
      ensures failed.Some? ==> bytes == old(bytes) && old(entries) <= entries
      ensures failed == Some(DepthLimit) <==> depth > maxDepth
      ensures failed == Some(EntryLimit) <==> depth <= maxDepth && old(entries) == maxEntries
      ensures failed == Some(InvalidResponse) <==> depth <= maxDepth && old(entries) < maxEntries && file && size < 0
      ensures failed == Some(ByteLimit) <==>
              depth <= maxDepth && old(entries) < maxEntries && file && 0 <= size && old(bytes) + size > maxBytes
    {
      if depth > maxDepth {
        return Some(DepthLimit);
      }
      if entries >= maxEntries {
        return Some(EntryLimit);
      }
      entries := entries + 1;
      if !file {
        return None;
      }
      if size < 0 {
        return Some(InvalidResponse);
      }
      if bytes > maxBytes || size > maxBytes - bytes {
        return Some(ByteLimit);
      }
      bytes := bytes + size;
      return None;
    }
  }

  // --------------------------------------- what a tree holds, read without any budget

  datatype LocalKind = Absent | Folder | Regular | Special | Unreadable

  /** Everything the walk consults: the remote tree, what Lstat says of local paths, the
      exclusion rules (given paths below the source), and which names may be used locally. */
  datatype World = World(
    remote: Remote,
    local: Path -> LocalKind,
    excludes: Path -> bool,
    validName: string -> bool,
    source: Path,
    root: Path)

  /** An order of the entries by name; entries of the same name keep theirs. */
  function Insert(e: Entry, sorted: seq<Entry>): (r: seq<Entry>)
    ensures multiset(r) == multiset{e} + multiset(sorted)
    ensures |r| == |sorted| + 1
  {
    if sorted == [] || Sorting.Leq(e.name, sorted[0].name) then [e] + sorted
    else
      assert sorted == [sorted[0]] + sorted[1..];
      [sorted[0]] + Insert(e, sorted[1..])
  }

  function ByName(entries: seq<Entry>): (r: seq<Entry>)
    ensures multiset(r) == multiset(entries) && |r| == |entries|
  {
    if entries == [] then []
    else
      assert entries == [entries[0]] + entries[1..];
      Insert(entries[0], ByName(entries[1..]))
  }

  /** What the tree below source + rel holds, down to the given number of levels, or the first
      thing that is wrong there. No limit on entries or bytes is looked at. */
  function Below(w: World, rel: Path, levels: nat): Result<Content, Failure>
    decreases levels
  {
    match w.remote(w.source + rel)
    case Err(error) => Err(ListingFailed(error))
    case Ok(entries) => BelowAll(w, rel, ByName(entries), levels)
  }

  function BelowAll(w: World, rel: Path, entries: seq<Entry>, levels: nat): Result<Content, Failure>
    decreases levels, |entries|
  {
    if entries == [] then Ok(NOTHING)
    else
      match BelowEntry(w, rel, entries[0], levels)
      case Err(failure) => Err(failure)
      case Ok(first) => AndThen(first, BelowAll(w, rel, entries[1..], levels))
  }

  function BelowEntry(w: World, rel: Path, e: Entry, levels: nat): Result<Content, Failure>
    decreases levels, 0
  {
    var p := rel + [e.name];
    var here := w.local(w.root + p);
    if !w.validName(e.name) then Err(LocalName(e.name))
    else if e.path != w.source + p then Err(InvalidResponse)
    else if w.excludes(p) then
      if levels == 0 then Err(DepthLimit) else Ok(OneSkip(e.path, MatchedExclusion))
    else
      match Opens(e)
      case ADirectory =>
        if levels == 0 then Err(DepthLimit)
        else if here == Unreadable then Err(LocalUnreadable)
        else if here !in {Absent, Folder} then Err(TypeMismatch)
        else AndThen(OneDirectory(w.root + p), Below(w, p, levels - 1))
      case AFile =>
        if levels == 0 then Err(DepthLimit)
        else if e.size < 0 then Err(InvalidResponse)
        else if here == Unreadable then Err(LocalUnreadable)
        else if here !in {Absent, Regular} then Err(TypeMismatch)
        else Ok(OneFile(File(e.path, w.root + p, e.size, here == Regular)))
      case Nothing =>
        if e.kind == SymlinkEntry then Ok(OneSkip(e.path, LinkTargetUnreadable))
        else if e.kind == OtherEntry then Ok(OneSkip(e.path, NeitherFileNorDirectory))
        else Err(InvalidResponse)
  }

  // ------------------------------------------------------------------------ the walk

  /** The accounts agree with the plan and with each other. */
  ghost predicate Accounted(budget: Budget, plan: Plan)
    reads budget, plan
  {
    && budget.Valid()
    && budget.entries == plan.Held().Count()
    && plan.bytes == plan.Held().Bytes() == budget.bytes
  }

  /** The tree below rel can be taken, down to the level allowed, and its totals fit in what
      is left. */
  ghost predicate Fits(below: Result<Content, Failure>, budget: Budget, entries: nat, bytes: nat) {
    && below.Ok?
    && entries + below.value.Count() <= budget.maxEntries
    && bytes + below.value.Bytes() <= budget.maxBytes
  }

  /** Why it was refused: for a limit, the tree does not fit in it, unless something else is
      wrong there too; for anything else, it is the first thing that is wrong. */
  ghost predicate Refused(failure: Failure, below: Result<Content, Failure>, budget: Budget, entries: nat, bytes: nat) {
    if failure == EntryLimit then below.Ok? ==> entries + below.value.Count() > budget.maxEntries
    else if failure == ByteLimit then below.Ok? ==> bytes + below.value.Bytes() > budget.maxBytes
    else below == Err(failure)
  }

  lemma {:induction false} BytesNonNegative(w: World, rel: Path, levels: nat)
    ensures Below(w, rel, levels).Ok? ==> Below(w, rel, levels).value.Bytes() >= 0
    decreases levels
  {
    if w.remote(w.source + rel).Ok? {
      AllBytesNonNegative(w, rel, ByName(w.remote(w.source + rel).value), levels);
    }
  }

  lemma {:induction false} AllBytesNonNegative(w: World, rel: Path, entries: seq<Entry>, levels: nat)
    ensures BelowAll(w, rel, entries, levels).Ok? ==> BelowAll(w, rel, entries, levels).value.Bytes() >= 0
    decreases levels, |entries|
  {
    if entries != [] && BelowAll(w, rel, entries, levels).Ok? {
      EntryBytesNonNegative(w, rel, entries[0], levels);
      AllBytesNonNegative(w, rel, entries[1..], levels);
      BelowEntry(w, rel, entries[0], levels).value.ThenTotals(BelowAll(w, rel, entries[1..], levels).value);
    }
  }

  lemma {:induction false} EntryBytesNonNegative(w: World, rel: Path, e: Entry, levels: nat)
    ensures BelowEntry(w, rel, e, levels).Ok? ==> BelowEntry(w, rel, e, levels).value.Bytes() >= 0
    decreases levels, 0
  {
    var p := rel + [e.name];
    if BelowEntry(w, rel, e, levels).Ok? && !w.excludes(p) && Opens(e) == ADirectory {
      BytesNonNegative(w, p, levels - 1);
      OneDirectory(w.root + p).ThenTotals(Below(w, p, levels - 1).value);
    }
  }

  method TakeFile(w: World, rel: Path, e: Entry, depth: nat, budget: Budget, plan: Plan)
    returns (failed: Option<Failure>)
    requires Accounted(budget, plan) && depth <= budget.maxDepth
    requires w.validName(e.name) && e.path == w.source + (rel + [e.name]) && !w.excludes(rel + [e.name])
    requires Opens(e) == AFile
    modifies budget, plan
    ensures failed.None? <==>
            Fits(BelowEntry(w, rel, e, budget.maxDepth - depth), budget, old(budget.entries), old(budget.bytes))
    ensures failed.Some? ==>
            Refused(failed.value, BelowEntry(w, rel, e, budget.maxDepth - depth), budget,
                    old(budget.entries), old(budget.bytes))
    ensures failed.None? ==>
            plan.Held() == old(plan.Held()).Then(BelowEntry(w, rel, e, budget.maxDepth - depth).value)
    ensures failed.None? ==> Accounted(budget, plan)
    ensures |plan.directories| == |old(plan.directories)|
    ensures budget.Valid() && old(budget.entries) <= budget.entries && plan.Held().Count() <= budget.entries
  {
    var target := w.root + (rel + [e.name]);
    failed := budget.Include(true, e.size, depth + 1);
    if failed.Some? {
      return;
    }
    if w.local(target) == Unreadable {
      return Some(LocalUnreadable);
    }
    if w.local(target) !in {Absent, Regular} {
      return Some(TypeMismatch);
    }
    plan.AddFile(File(e.path, target, e.size, w.local(target) == Regular));
  }

  method TakeDirectory(w: World, listings: Memo, rel: Path, e: Entry, depth: nat, budget: Budget, plan: Plan)
    returns (failed: Option<Failure>)
    requires listings.Valid() && listings.remote == w.remote && listings.failures == map[]
    requires Accounted(budget, plan) && depth <= budget.maxDepth
    requires w.validName(e.name) && e.path == w.source + (rel + [e.name]) && !w.excludes(rel + [e.name])
    requires Opens(e) == ADirectory
    modifies listings, budget, plan
    ensures failed.None? <==>
            Fits(BelowEntry(w, rel, e, budget.maxDepth - depth), budget, old(budget.entries), old(budget.bytes))
    ensures failed.Some? ==>
            Refused(failed.value, BelowEntry(w, rel, e, budget.maxDepth - depth), budget,
                    old(budget.entries), old(budget.bytes))
    ensures failed.None? ==>
            plan.Held() == old(plan.Held()).Then(BelowEntry(w, rel, e, budget.maxDepth - depth).value)
    ensures failed.None? ==> listings.Valid() && listings.failures == map[] && Accounted(budget, plan)
    ensures |listings.requests| - |old(listings.requests)| <= |plan.directories| - |old(plan.directories)|
    ensures budget.Valid() && old(budget.entries) <= budget.entries && plan.Held().Count() <= budget.entries
    decreases budget.maxDepth - depth, 0
  {
    hide Below, ByName, Insert, Content.Then, Content.Count, Content.Bytes;
    var p := rel + [e.name];
    var target := w.root + p;
    ghost var before := plan.Held();
    if depth < budget.maxDepth {
      DirectoryTotals(w, rel, e, budget.maxDepth - depth);
    }
    failed := budget.Include(false, e.size, depth + 1);
    if failed.Some? {
      return;
    }
    if w.local(target) == Unreadable {
      return Some(LocalUnreadable);
    }
    if w.local(target) !in {Absent, Folder} {
      return Some(TypeMismatch);
    }
    plan.AddDirectory(target);
    failed := Walk(w, listings, p, depth + 1, budget, plan);
    if failed.None? {
      before.ThenAssociative(OneDirectory(target), Below(w, p, budget.maxDepth - depth - 1).value);
    }
  }

  lemma DirectoryTotals(w: World, rel: Path, e: Entry, levels: nat)
    requires levels > 0 && Opens(e) == ADirectory && !w.excludes(rel + [e.name])
    requires w.validName(e.name) && e.path == w.source + (rel + [e.name])
    ensures BelowEntry(w, rel, e, levels).Ok? <==>
            Below(w, rel + [e.name], levels - 1).Ok? && w.local(w.root + (rel + [e.name])) in {Absent, Folder}
    ensures BelowEntry(w, rel, e, levels).Ok? ==>
            var inside := Below(w, rel + [e.name], levels - 1).value;
            && BelowEntry(w, rel, e, levels).value.Count() == 1 + inside.Count()
            && BelowEntry(w, rel, e, levels).value.Bytes() == inside.Bytes()
            && inside.Bytes() >= 0
  {
    hide Below, Content.Then, Content.Count, Content.Bytes;
    BytesNonNegative(w, rel + [e.name], levels - 1);
    if Below(w, rel + [e.name], levels - 1).Ok? {
      OneDirectory(w.root + (rel + [e.name])).ThenTotals(Below(w, rel + [e.name], levels - 1).value);
    }
  }

  /** The walk takes one entry exactly when the tree below it can be taken within what is
      left of the budget, and then appends just what is there. */
  method TakeEntry(w: World, listings: Memo, rel: Path, e: Entry, depth: nat, budget: Budget, plan: Plan)
    returns (failed: Option<Failure>)
    requires listings.Valid() && listings.remote == w.remote && listings.failures == map[]
    requires Accounted(budget, plan) && depth <= budget.maxDepth
    modifies listings, budget, plan
    ensures failed.None? <==>
            Fits(BelowEntry(w, rel, e, budget.maxDepth - depth), budget, old(budget.entries), old(budget.bytes))
    ensures failed.Some? ==>
            Refused(failed.value, BelowEntry(w, rel, e, budget.maxDepth - depth), budget,
                    old(budget.entries), old(budget.bytes))
    ensures failed.None? ==>
            plan.Held() == old(plan.Held()).Then(BelowEntry(w, rel, e, budget.maxDepth - depth).value)
    ensures failed.None? ==> listings.Valid() && listings.failures == map[] && Accounted(budget, plan)
    ensures |listings.requests| - |old(listings.requests)| <= |plan.directories| - |old(plan.directories)|
    ensures budget.Valid() && old(budget.entries) <= budget.entries && plan.Held().Count() <= budget.entries
    decreases budget.maxDepth - depth, 1
  {
    var p := rel + [e.name];
    if !w.validName(e.name) {
      return Some(LocalName(e.name));
    }
    if e.path != w.source + p {
      return Some(InvalidResponse);
    }
    if w.excludes(p) {
      failed := budget.Include(false, 0, depth + 1);
      if failed.None? {
        plan.AddSkip(e.path, MatchedExclusion);
      }
      return;
    }
    match Opens(e) {
      case ADirectory =>
        failed := TakeDirectory(w, listings, rel, e, depth, budget, plan);
      case AFile =>
        failed := TakeFile(w, rel, e, depth, budget, plan);
      case Nothing =>
        if e.kind == SymlinkEntry {
          plan.AddSkip(e.path, LinkTargetUnreadable);
        } else if e.kind == OtherEntry {
          plan.AddSkip(e.path, NeitherFileNorDirectory);
        } else {
          return Some(InvalidResponse);
        }
        return None;
    }
  }

  /** walkRemoteGetPlan. It ends on every tree, and succeeds exactly when all that an
      unlimited reading of the tree finds, down to the depth allowed, can be taken and fits
      in the budget; then the plan has grown by just that. A refusal names the first thing
      that is wrong, or a limit that does not hold. It never asks for more listings than it
      planned directories. */
  method Walk(w: World, listings: Memo, rel: Path, depth: nat, budget: Budget, plan: Plan)
    returns (failed: Option<Failure>)
    requires listings.Valid() && listings.remote == w.remote && listings.failures == map[]
    requires Accounted(budget, plan) && depth <= budget.maxDepth
    modifies listings, budget, plan
    ensures failed.None? <==>
            Fits(Below(w, rel, budget.maxDepth - depth), budget, old(budget.entries), old(budget.bytes))
    ensures failed.Some? ==>
            Refused(failed.value, Below(w, rel, budget.maxDepth - depth), budget,
                    old(budget.entries), old(budget.bytes))
    ensures failed.None? ==>
            plan.Held() == old(plan.Held()).Then(Below(w, rel, budget.maxDepth - depth).value)
    ensures failed.None? ==> listings.Valid() && listings.failures == map[] && Accounted(budget, plan)
    ensures |listings.requests| - |old(listings.requests)| <= |plan.directories| - |old(plan.directories)| + 1
    ensures budget.Valid() && old(budget.entries) <= budget.entries && plan.Held().Count() <= budget.entries
    decreases budget.maxDepth - depth, 2
  {
    hide Below, BelowAll, BelowEntry, ByName, Insert, AndThen, Content.Then, Content.Count, Content.Bytes;
    ghost var before := plan.Held();
    ghost var levels := budget.maxDepth - depth;
    ghost var total := Below(w, rel, levels);
    var listing := listings.List(w.source + rel);
    if listing.Err? {
      assert total == Err(ListingFailed(listing.error)) by { UnreadableBelow(w, rel, levels); }
      return Some(ListingFailed(listing.error));
    }
    var entries := ByName(listing.value);
    ghost var sofar := NOTHING;
    ghost var entries0, bytes0 := budget.entries, budget.bytes;
    Start(w, rel, levels, before);
    for i := 0 to |entries|
      invariant listings.Valid() && listings.failures == map[] && Accounted(budget, plan)
      invariant plan.Held() == before.Then(sofar)
      invariant budget.entries == entries0 + sofar.Count() && budget.bytes == bytes0 + sofar.Bytes()
      invariant total == AndThen(sofar, BelowAll(w, rel, entries[i..], levels))
      invariant |listings.requests| - |old(listings.requests)| <= |plan.directories| - |old(plan.directories)| + 1
    {
      ghost var one := BelowEntry(w, rel, entries[i], levels);
      Step(w, rel, entries, i, levels, before, sofar);
      failed := TakeEntry(w, listings, rel, entries[i], depth, budget, plan);
      if failed.Some? {
        assert !Fits(total, budget, entries0, bytes0);
        return;
      }
      sofar := sofar.Then(one.value);
    }
    assert total == Ok(sofar) by { Finish(w, rel, entries, levels, sofar); }
    return None;
  }

  /** buildSFTPGetPlan for a directory: whatever the server answers, at most as many listings
      are asked for as entries are allowed; on success the plan is the root and all below it,
      within every limit, and the totals told are the true ones. */
  method Build(w: World, depth: int, maximum: int, totalMiB: int)
    returns (failed: Option<Failure>, plan: Plan, budget: Budget, listings: Memo)
    ensures failed.None? <==> Fits(Below(w, [], budget.maxDepth), budget, 1, 0)
    ensures failed.Some? ==> Refused(failed.value, Below(w, [], budget.maxDepth), budget, 1, 0)
    ensures failed.None? ==> plan.Held() == OneDirectory(w.root).Then(Below(w, [], budget.maxDepth).value)
    ensures failed.None? ==> plan.bytes == SumSizes(plan.files) <= budget.maxBytes
    ensures failed.None? ==> |plan.directories| + |plan.files| + CountExcluded(plan.skips) == budget.entries
    ensures |listings.requests| <= |plan.directories| <= budget.entries <= budget.maxEntries <= MAX_ENTRIES
    ensures budget.maxDepth <= MAX_DEPTH
  {
    hide Below;
    plan := new Plan(w.root);
    budget := new Budget(depth, maximum, totalMiB);
    listings := new Memo(w.remote);
    assert plan.Held() == OneDirectory(w.root);
    failed := Walk(w, listings, [], 0, budget, plan);
  }

  lemma UnreadableBelow(w: World, rel: Path, levels: nat)
    requires w.remote(w.source + rel).Err?
    ensures Below(w, rel, levels) == Err(ListingFailed(w.remote(w.source + rel).error))
  {
  }

  lemma BelowOk(w: World, rel: Path, levels: nat)
    requires w.remote(w.source + rel).Ok?
    ensures Below(w, rel, levels) == BelowAll(w, rel, ByName(w.remote(w.source + rel).value), levels)
  {
    hide BelowAll, BelowEntry, ByName;
  }

  lemma Start(w: World, rel: Path, levels: nat, before: Content)
    requires w.remote(w.source + rel).Ok?
    ensures var entries := ByName(w.remote(w.source + rel).value);
            Below(w, rel, levels) == AndThen(NOTHING, BelowAll(w, rel, entries[0..], levels))
    ensures before.Then(NOTHING) == before && NOTHING.Count() == 0 && NOTHING.Bytes() == 0
  {
    hide Below, BelowAll, BelowEntry, ByName;
    var entries := ByName(w.remote(w.source + rel).value);
    BelowOk(w, rel, levels);
    assert entries[0..] == entries;
    if Below(w, rel, levels).Ok? {
      assert NOTHING.Then(Below(w, rel, levels).value) == Below(w, rel, levels).value;
    }
  }

  /** One turn of the loop: how the total splits into what was taken, this entry, and the
      others, which add no negative amount. */
  lemma Step(w: World, rel: Path, entries: seq<Entry>, i: nat, levels: nat, before: Content, sofar: Content)
    requires i < |entries|
    ensures var total := AndThen(sofar, BelowAll(w, rel, entries[i..], levels));
            var one := BelowEntry(w, rel, entries[i], levels);
            if one.Err? then total == one
            else
              && total == AndThen(sofar.Then(one.value), BelowAll(w, rel, entries[i + 1..], levels))
              && before.Then(sofar).Then(one.value) == before.Then(sofar.Then(one.value))
              && before.Then(sofar).Then(one.value).Count() == before.Then(sofar).Count() + one.value.Count()
              && before.Then(sofar).Then(one.value).Bytes() == before.Then(sofar).Bytes() + one.value.Bytes()
              && sofar.Then(one.value).Count() == sofar.Count() + one.value.Count()
              && sofar.Then(one.value).Bytes() == sofar.Bytes() + one.value.Bytes()
              && (total.Ok? ==>
                    && total.value.Count() >= sofar.Count() + one.value.Count()
                    && total.value.Bytes() >= sofar.Bytes() + one.value.Bytes())
  {
    var one, others := BelowEntry(w, rel, entries[i], levels), BelowAll(w, rel, entries[i + 1..], levels);
    assert entries[i..][0] == entries[i] && entries[i..][1..] == entries[i + 1..];
    hide BelowEntry;
    if one.Ok? {
      AllBytesNonNegative(w, rel, entries[i + 1..], levels);
      before.ThenAssociative(sofar, one.value);
      before.Then(sofar).ThenTotals(one.value);
      sofar.ThenTotals(one.value);
      if others.Ok? {
        sofar.ThenAssociative(one.value, others.value);
        sofar.Then(one.value).ThenTotals(others.value);
      }
    }
  }

  lemma Finish(w: World, rel: Path, entries: seq<Entry>, levels: nat, sofar: Content)
    ensures AndThen(sofar, BelowAll(w, rel, entries[|entries|..], levels)) == Ok(sofar)
  {
    assert sofar.Then(NOTHING) == sofar;
  }

  // --------------------------------- what Below holds, said without following the walk

  ghost predicate Listed(w: World, d: Path, e: Entry) {
    w.remote(w.source + d).Ok? && e in w.remote(w.source + d).value
  }

  /** The entry e stands at the path r below the source, under directories only, and no
      exclusion rule speaks of r or of a directory above it. */
  ghost predicate Chosen(w: World, r: Path, e: Entry)
    decreases |r|, 1
  {
    r != [] && Reached(w, Parent(r)) && Listed(w, Parent(r), e) && e.name == r[|r| - 1] && !w.excludes(r)
  }

  ghost predicate Reached(w: World, r: Path)
    decreases |r|, 2
  {
    r == [] || exists e :: Chosen(w, r, e) && Opens(e) == ADirectory
  }

  ghost predicate IsDirectory(w: World, rel: Path, levels: nat, d: Path) {
    && w.root <= d
    && rel < d[|w.root|..]
    && |d| <= |w.root| + |rel| + levels
    && Reached(w, d[|w.root|..])
  }

  function FileAt(w: World, r: Path, e: Entry): File {
    File(w.source + r, w.root + r, e.size, w.local(w.root + r) == Regular)
  }

  ghost predicate IsFile(w: World, rel: Path, levels: nat, f: File) {
    && w.root <= f.destination
    && rel < f.destination[|w.root|..]
    && |f.destination| <= |w.root| + |rel| + levels
    && exists e ::
         Chosen(w, f.destination[|w.root|..], e) && Opens(e) == AFile && f == FileAt(w, f.destination[|w.root|..], e)
  }

  ghost predicate Holds(w: World, rel: Path, levels: nat, c: Content) {
    && (forall d :: d in c.directories ==> IsDirectory(w, rel, levels, d))
    && (forall f :: f in c.files ==> IsFile(w, rel, levels, f))
  }

  lemma {:induction false} BelowSound(w: World, rel: Path, levels: nat)
    requires Reached(w, rel) && Below(w, rel, levels).Ok?
    ensures Holds(w, rel, levels, Below(w, rel, levels).value)
    decreases levels, 2
  {
    var entries := w.remote(w.source + rel).value;
    forall e | e in ByName(entries) ensures Listed(w, rel, e) {
      assert e in multiset(ByName(entries));
    }
    AllSound(w, rel, ByName(entries), levels);
  }

  lemma {:induction false} AllSound(w: World, rel: Path, entries: seq<Entry>, levels: nat)
    requires Reached(w, rel) && BelowAll(w, rel, entries, levels).Ok?
    requires forall e :: e in entries ==> Listed(w, rel, e)
    ensures Holds(w, rel, levels, BelowAll(w, rel, entries, levels).value)
    decreases levels, 1, |entries|
  {
    hide IsDirectory, IsFile, Listed, Reached, BelowEntry;
    if entries != [] {
      EntrySound(w, rel, entries[0], levels);
      AllSound(w, rel, entries[1..], levels);
    }
  }

  lemma {:induction false} EntrySound(w: World, rel: Path, e: Entry, levels: nat)
    requires Reached(w, rel) && BelowEntry(w, rel, e, levels).Ok? && Listed(w, rel, e)
    ensures Holds(w, rel, levels, BelowEntry(w, rel, e, levels).value)
    decreases levels, 0
  {
    var p := rel + [e.name];
    if !w.excludes(p) && Opens(e) != Nothing {
      EntryChosen(w, rel, e);
      if Opens(e) == ADirectory {
        assert Below(w, p, levels - 1).Ok?;
        hide Reached, Chosen, Listed, Below, BelowEntry, Holds;
        BelowSound(w, p, levels - 1);
        EnteredSound(w, rel, e, levels);
      } else {
        FileSound(w, rel, e, levels);
      }
    }
  }

  lemma FileSound(w: World, rel: Path, e: Entry, levels: nat)
    requires Chosen(w, rel + [e.name], e) && BelowEntry(w, rel, e, levels).Ok? && Opens(e) == AFile
    ensures Holds(w, rel, levels, BelowEntry(w, rel, e, levels).value)
  {
    var p := rel + [e.name];
    assert !w.excludes(p) by { assert p[|p| - 1] == e.name; }
    hide Reached, Chosen, Listed, Below;
    assert BelowEntry(w, rel, e, levels).value == OneFile(FileAt(w, p, e));
    assert (w.root + p)[|w.root|..] == p;
  }

  lemma EntryChosen(w: World, rel: Path, e: Entry)
    requires Reached(w, rel) && Listed(w, rel, e) && !w.excludes(rel + [e.name])
    ensures Chosen(w, rel + [e.name], e)
    ensures Opens(e) == ADirectory ==> Reached(w, rel + [e.name])
  {
    var p := rel + [e.name];
    assert Parent(p) == rel && p[|p| - 1] == e.name;
  }

  lemma EnteredSound(w: World, rel: Path, e: Entry, levels: nat)
    requires Reached(w, rel + [e.name]) && Opens(e) == ADirectory && !w.excludes(rel + [e.name])
    requires BelowEntry(w, rel, e, levels).Ok? && Below(w, rel + [e.name], levels - 1).Ok?
    requires Holds(w, rel + [e.name], levels - 1, Below(w, rel + [e.name], levels - 1).value)
    ensures Holds(w, rel, levels, BelowEntry(w, rel, e, levels).value)
  {
    var p := rel + [e.name];
    hide Reached, Chosen, Below, IsFile;
    var inside := Below(w, p, levels - 1).value;
    assert BelowEntry(w, rel, e, levels).value == OneDirectory(w.root + p).Then(inside);
    hide BelowEntry;
    assert (w.root + p)[|w.root|..] == p;
    HoldsBelow(w, rel, e.name, levels, inside);
  }

  lemma HoldsBelow(w: World, rel: Path, name: string, levels: nat, c: Content)
    requires levels > 0 && Holds(w, rel + [name], levels - 1, c)
    ensures Holds(w, rel, levels, c)
  {
    hide Reached, Chosen;
    forall d | d in c.directories ensures IsDirectory(w, rel, levels, d) {
      assert IsDirectory(w, rel + [name], levels - 1, d);
    }
    forall f | f in c.files ensures IsFile(w, rel, levels, f) {
      assert IsFile(w, rel + [name], levels - 1, f);
    }
  }

  /** All that one entry gives is part of what its directory gives. */
  lemma {:induction false} EntryWithin(w: World, rel: Path, entries: seq<Entry>, e: Entry, levels: nat)
    requires BelowAll(w, rel, entries, levels).Ok? && e in entries
    ensures BelowEntry(w, rel, e, levels).Ok?
    ensures var all, one := BelowAll(w, rel, entries, levels).value, BelowEntry(w, rel, e, levels).value;
            && (forall d :: d in one.directories ==> d in all.directories)
            && (forall f :: f in one.files ==> f in all.files)
  {
    hide BelowEntry;
    if entries[0] != e {
      EntryWithin(w, rel, entries[1..], e, levels);
    }
  }

  lemma {:induction false} PrefixReached(w: World, r: Path, n: nat)
    requires n < |r| && Reached(w, Parent(r))
    ensures Reached(w, r[..n])
    decreases |r|
  {
    if n < |r| - 1 {
      PrefixReached(w, Parent(r), n);
      assert Parent(r)[..n] == r[..n];
    }
  }

  /** Every entry that is reached has been taken. */
  lemma {:induction false} BelowComplete(w: World, rel: Path, levels: nat, r: Path, e: Entry)
    requires Below(w, rel, levels).Ok? && rel < r && Chosen(w, r, e) && Opens(e) != Nothing
    ensures var c := Below(w, rel, levels).value;
            if Opens(e) == ADirectory then w.root + r in c.directories else FileAt(w, r, e) in c.files
    decreases |r| - |rel|
  {
    hide Below, FileAt;
    var p := r[..|rel| + 1];
    assert Reached(w, Parent(r));
    if |r| == |rel| + 1 {
      assert p == r && Parent(r) == rel && rel + [e.name] == r;
      TakenAt(w, rel, levels, e);
    } else {
      PrefixReached(w, r, |rel| + 1);
      var step :| Chosen(w, p, step) && Opens(step) == ADirectory;
      assert Parent(p) == rel && p == rel + [step.name];
      TakenAt(w, rel, levels, step);
      BelowComplete(w, p, levels - 1, r, e);
    }
  }

  /** A chosen entry of the directory rel has been taken, and so has all below it. */
  lemma TakenAt(w: World, rel: Path, levels: nat, e: Entry)
    requires Below(w, rel, levels).Ok? && Listed(w, rel, e) && !w.excludes(rel + [e.name]) && Opens(e) != Nothing
    ensures levels > 0 && e.path == w.source + (rel + [e.name])
    ensures var c, p := Below(w, rel, levels).value, rel + [e.name];
            if Opens(e) == AFile then FileAt(w, p, e) in c.files
            else
              && w.root + p in c.directories
              && Below(w, p, levels - 1).Ok?
              && (forall d :: d in Below(w, p, levels - 1).value.directories ==> d in c.directories)
              && (forall f :: f in Below(w, p, levels - 1).value.files ==> f in c.files)
  {
    hide Below, BelowAll, TakenNames, ByName, Sorting.Leq;
    var entries := BelowListed(w, rel, levels);
    assert e in multiset(entries);
    EntryWithin(w, rel, entries, e, levels);
  }

  /** What a successful plan holds: the directories and files that can be reached, each at
      the place below the root that answers to its own, and nothing else; none deeper than
      the limit. */
  lemma PlanIsTree(w: World, levels: nat)
    requires Below(w, [], levels).Ok?
    ensures var c := Below(w, [], levels).value;
            && (forall r :: w.root + r in c.directories <==> r != [] && Reached(w, r))
            && (forall d :: d in c.directories ==> w.root < d && |d| <= |w.root| + levels)
            && (forall f :: f in c.files <==>
                  exists r, e :: Chosen(w, r, e) && Opens(e) == AFile && f == FileAt(w, r, e))
            && (forall f :: f in c.files ==> w.root < f.destination && |f.destination| <= |w.root| + levels)
  {
    hide Below, FileAt;
    var c := Below(w, [], levels).value;
    BelowSound(w, [], levels);
    forall r | r != [] && Reached(w, r) ensures w.root + r in c.directories {
      var e :| Chosen(w, r, e) && Opens(e) == ADirectory;
      BelowComplete(w, [], levels, r, e);
    }
    forall r | w.root + r in c.directories ensures r != [] && Reached(w, r) {
      assert IsDirectory(w, [], levels, w.root + r);
      assert (w.root + r)[|w.root|..] == r;
    }
    forall r, e | Chosen(w, r, e) && Opens(e) == AFile ensures FileAt(w, r, e) in c.files {
      BelowComplete(w, [], levels, r, e);
    }
    hide Chosen, Reached;
  }

  // -------------------------------------------- when no two transfers share a target

  /** How often each name is to be taken from a listing of the directory rel. */
  ghost function TakenNames(w: World, rel: Path, entries: seq<Entry>): multiset<string> {
    if entries == [] then multiset{}
    else TakenName(w, rel, entries[0]) + TakenNames(w, rel, entries[1..])
  }

  ghost function TakenName(w: World, rel: Path, e: Entry): multiset<string> {
    if w.excludes(rel + [e.name]) || Opens(e) == Nothing then multiset{} else multiset{e.name}
  }

  /** No reached directory lists two entries to be taken under the same name. */
  ghost predicate NamedOnce(w: World) {
    forall r: Path, n :: Reached(w, r) && w.remote(w.source + r).Ok? ==>
      TakenNames(w, r, w.remote(w.source + r).value)[n] <= 1
  }

  lemma {:induction false} InsertNames(w: World, rel: Path, e: Entry, s: seq<Entry>)
    ensures TakenNames(w, rel, Insert(e, s)) == TakenName(w, rel, e) + TakenNames(w, rel, s)
  {
    hide TakenName;
    if s == [] || Sorting.Leq(e.name, s[0].name) {
      assert ([e] + s)[1..] == s;
    } else {
      InsertNames(w, rel, e, s[1..]);
      assert Insert(e, s)[1..] == Insert(e, s[1..]);
    }
  }

  lemma {:induction false} ByNameNames(w: World, rel: Path, s: seq<Entry>)
    ensures TakenNames(w, rel, ByName(s)) == TakenNames(w, rel, s)
  {
    if s != [] {
      ByNameNames(w, rel, s[1..]);
      InsertNames(w, rel, s[0], ByName(s[1..]));
    }
  }

  lemma TargetsUnder(w: World, rel: Path, levels: nat, x: Path)
    requires Reached(w, rel) && Below(w, rel, levels).Ok? && x in Targets(Below(w, rel, levels).value)
    ensures w.root + rel < x
  {
    BelowSound(w, rel, levels);
    hide Below;
    var c := Below(w, rel, levels).value;
    if x in c.directories {
      assert IsDirectory(w, rel, levels, x);
    } else {
      var i :| 0 <= i < |c.files| && c.files[i].destination == x;
      assert IsFile(w, rel, levels, c.files[i]);
    }
    assert x == w.root + x[|w.root|..];
  }

  /** One entry makes its own target once, and others only below it. */
  lemma EntryTargets(w: World, rel: Path, e: Entry, levels: nat, x: Path)
    requires Reached(w, rel) && Listed(w, rel, e) && BelowEntry(w, rel, e, levels).Ok?
    ensures var here, t := w.root + (rel + [e.name]), Targets(BelowEntry(w, rel, e, levels).value)[x];
            if TakenName(w, rel, e) == multiset{} then t == 0
            else if x == here then t == 1
            else if Opens(e) == AFile || !(here < x) then t == 0
            else t == InsideTargets(w, rel + [e.name], levels, x)
  {
    var p := rel + [e.name];
    if TakenName(w, rel, e) == multiset{} {
      NoTargets(w, rel, e, levels);
    } else if Opens(e) == AFile {
      var file := File(e.path, w.root + p, e.size, w.local(w.root + p) == Regular);
      assert BelowEntry(w, rel, e, levels).value == OneFile(file);
      assert Destinations([file]) == [w.root + p];
    } else {
      assert e.name in TakenName(w, rel, e);
      DirectoryTargets(w, rel, e, levels, x);
    }
  }

  lemma NoTargets(w: World, rel: Path, e: Entry, levels: nat)
    requires BelowEntry(w, rel, e, levels).Ok? && TakenName(w, rel, e) == multiset{}
    ensures Targets(BelowEntry(w, rel, e, levels).value) == multiset{}
  {
    assert e.name in multiset{e.name};
  }

  /** Targets made at or below x inside the directory p, when it is one that is reached. */
  ghost function InsideTargets(w: World, p: Path, levels: nat, x: Path): nat {
    if levels > 0 && Reached(w, p) && Below(w, p, levels - 1).Ok? then Targets(Below(w, p, levels - 1).value)[x] else 0
  }

  lemma DirectoryTargets(w: World, rel: Path, e: Entry, levels: nat, x: Path)
    requires Reached(w, rel) && Listed(w, rel, e) && BelowEntry(w, rel, e, levels).Ok?
    requires !w.excludes(rel + [e.name]) && Opens(e) == ADirectory
    ensures var here, t := w.root + (rel + [e.name]), Targets(BelowEntry(w, rel, e, levels).value)[x];
            t == if x == here then 1 else if here < x then InsideTargets(w, rel + [e.name], levels, x) else 0
  {
    hide Reached, Chosen, Listed;
    var p := rel + [e.name];
    EntryChosen(w, rel, e);
    var inside := Below(w, p, levels - 1).value;
    assert BelowEntry(w, rel, e, levels).value == OneDirectory(w.root + p).Then(inside);
    hide Below, BelowEntry;
    TargetsThen(OneDirectory(w.root + p), inside);
    assert Targets(OneDirectory(w.root + p)) == multiset{w.root + p};
    if x in Targets(inside) {
      TargetsUnder(w, p, levels - 1, x);
    }
  }

  /** Each name taken from a listing makes its target as often as it is taken. */
  lemma {:induction false} AllTargets(w: World, rel: Path, entries: seq<Entry>, levels: nat, n: string, x: Path)
    requires Reached(w, rel) && BelowAll(w, rel, entries, levels).Ok?
    requires forall e :: e in entries ==> Listed(w, rel, e)
    requires w.root + (rel + [n]) <= x
    ensures x == w.root + (rel + [n]) ==>
            Targets(BelowAll(w, rel, entries, levels).value)[x] == TakenNames(w, rel, entries)[n]
    ensures InsideTargets(w, rel + [n], levels, x) <= 1 ==>
            Targets(BelowAll(w, rel, entries, levels).value)[x] <= TakenNames(w, rel, entries)[n]
    decreases |entries|
  {
    if entries != [] {
      var e := entries[0];
      hide Below, BelowEntry, Reached, Listed, InsideTargets;
      TargetsThen(BelowEntry(w, rel, e, levels).value, BelowAll(w, rel, entries[1..], levels).value);
      EntryTargets(w, rel, e, levels, x);
      AllTargets(w, rel, entries[1..], levels, n, x);
      hide Targets;
      if e.name != n {
        NamesPart(w.root, rel, e.name, n, x);
      }
    }
  }

  /** The listing behind Below, in the order in which it is taken. */
  lemma BelowListed(w: World, rel: Path, levels: nat) returns (entries: seq<Entry>)
    requires Below(w, rel, levels).Ok?
    ensures w.remote(w.source + rel).Ok?
    ensures entries == ByName(w.remote(w.source + rel).value)
    ensures BelowAll(w, rel, entries, levels) == Below(w, rel, levels)
    ensures forall e :: e in entries ==> Listed(w, rel, e)
    ensures TakenNames(w, rel, entries) == TakenNames(w, rel, w.remote(w.source + rel).value)
  {
    var listing := w.remote(w.source + rel).value;
    entries := ByName(listing);
    ByNameNames(w, rel, listing);
    forall e | e in entries ensures Listed(w, rel, e) {
      assert e in multiset(entries);
    }
  }

  lemma NamedHere(w: World, rel: Path, n: string)
    requires NamedOnce(w) && Reached(w, rel) && w.remote(w.source + rel).Ok?
    ensures TakenNames(w, rel, w.remote(w.source + rel).value)[n] <= 1
  {
  }

  lemma {:induction false} TargetsOnce(w: World, rel: Path, levels: nat, r: Path)
    requires NamedOnce(w) && Reached(w, rel) && Below(w, rel, levels).Ok? && rel < r
    ensures Targets(Below(w, rel, levels).value)[w.root + r] <= 1
    decreases levels
  {
    hide NamedOnce, Below, BelowAll, Targets, TakenNames, Reached, Listed;
    var entries := BelowListed(w, rel, levels);
    var n := r[|rel|];
    NamedHere(w, rel, n);
    FirstStep(w.root, rel, r);
    var p := rel + [n];
    if p == r {
      AllTargets(w, rel, entries, levels, n, w.root + p);
    } else {
      if levels > 0 && Reached(w, p) && Below(w, p, levels - 1).Ok? {
        TargetsOnce(w, p, levels - 1, r);
      }
      assert InsideTargets(w, p, levels, w.root + r) <= 1;
      hide InsideTargets;
      AllTargets(w, rel, entries, levels, n, w.root + r);
    }
  }

  lemma {:induction false} TargetsWithin(w: World, rel: Path, entries: seq<Entry>, e: Entry, levels: nat)
    requires BelowAll(w, rel, entries, levels).Ok? && e in entries
    ensures BelowEntry(w, rel, e, levels).Ok?
    ensures Targets(BelowEntry(w, rel, e, levels).value) <= Targets(BelowAll(w, rel, entries, levels).value)
  {
    hide BelowEntry, Targets;
    TargetsThen(BelowEntry(w, rel, entries[0], levels).value, BelowAll(w, rel, entries[1..], levels).value);
    if entries[0] != e {
      TargetsWithin(w, rel, entries[1..], e, levels);
    }
  }

  /** What a reached directory holds is part of what the tree holds. */
  lemma {:induction false} ReachedWithin(w: World, levels: nat, r: Path)
    requires Below(w, [], levels).Ok? && Reached(w, r)
    ensures |r| <= levels && Below(w, r, levels - |r|).Ok?
    ensures Targets(Below(w, r, levels - |r|).value) <= Targets(Below(w, [], levels).value)
    decreases |r|
  {
    hide Below, Targets, Reached, Chosen, Listed;
    if r != [] {
      var e := LastStep(w, r);
      ReachedWithin(w, levels, Parent(r));
      StepWithin(w, Parent(r), levels - |Parent(r)|, e);
    }
  }

  lemma LastStep(w: World, r: Path) returns (e: Entry)
    requires r != [] && Reached(w, r)
    ensures Reached(w, Parent(r)) && Listed(w, Parent(r), e) && Opens(e) == ADirectory
    ensures r == Parent(r) + [e.name] && !w.excludes(r)
  {
    e :| Chosen(w, r, e) && Opens(e) == ADirectory;
  }

  lemma StepWithin(w: World, d: Path, levels: nat, e: Entry)
    requires Below(w, d, levels).Ok? && Listed(w, d, e) && Opens(e) == ADirectory && !w.excludes(d + [e.name])
    ensures levels > 0 && Below(w, d + [e.name], levels - 1).Ok?
    ensures Targets(Below(w, d + [e.name], levels - 1).value) <= Targets(Below(w, d, levels).value)
  {
    hide Below, BelowAll, Targets, TakenNames;
    var entries := BelowListed(w, d, levels);
    var p := d + [e.name];
    assert e in multiset(entries);
    TargetsWithin(w, d, entries, e, levels);
    assert levels > 0 && Below(w, p, levels - 1).Ok?;
    TargetsThen(OneDirectory(w.root + p), Below(w, p, levels - 1).value);
  }

  /** No local path is the target of two transfers exactly when no directory of the tree
      lists two entries, both to be taken, under one name. */
  lemma TargetsDistinctDecided(w: World, levels: nat)
    requires Below(w, [], levels).Ok?
    ensures (forall x :: Targets(Below(w, [], levels).value)[x] <= 1) <==> NamedOnce(w)
  {
    hide Targets, Below, Reached, TakenNames;
    var c := Below(w, [], levels).value;
    if NamedOnce(w) {
      hide NamedOnce;
      forall x ensures Targets(c)[x] <= 1 {
        if x in Targets(c) {
          AnyTargetOnce(w, levels, x);
        }
      }
    }
    if forall x :: Targets(c)[x] <= 1 {
      forall r: Path, n | Reached(w, r) && w.remote(w.source + r).Ok?
        ensures TakenNames(w, r, w.remote(w.source + r).value)[n] <= 1
      {
        TakenOnce(w, levels, r, n);
      }
    }
  }

  lemma AnyTargetOnce(w: World, levels: nat, x: Path)
    requires NamedOnce(w) && Below(w, [], levels).Ok? && x in Targets(Below(w, [], levels).value)
    ensures Targets(Below(w, [], levels).value)[x] <= 1
  {
    hide NamedOnce, Below, Targets;
    TargetsUnder(w, [], levels, x);
    var r := x[|w.root|..];
    assert w.root + [] == w.root && x == w.root + r && [] < r;
    TargetsOnce(w, [], levels, r);
  }

  lemma TakenOnce(w: World, levels: nat, r: Path, n: string)
    requires Below(w, [], levels).Ok? && forall x :: Targets(Below(w, [], levels).value)[x] <= 1
    requires Reached(w, r) && w.remote(w.source + r).Ok?
    ensures TakenNames(w, r, w.remote(w.source + r).value)[n] <= 1
  {
    hide Below, BelowAll, Targets, TakenNames, Reached;
    ReachedWithin(w, levels, r);
    var entries := BelowListed(w, r, levels - |r|);
    AllTargets(w, r, entries, levels - |r|, n, w.root + (r + [n]));
  }

  // ------------------------------------------------- when there is a content at all

  /** Nothing is wrong with an entry of the directory r, n being the depth allowed. */
  predicate EntryFine(w: World, r: Path, e: Entry, n: nat) {
    var p := r + [e.name];
    && w.validName(e.name)
    && e.path == w.source + p
    && if w.excludes(p) then |p| <= n
       else
         match Opens(e)
         case ADirectory => |p| <= n && w.local(w.root + p) in {Absent, Folder}
         case AFile => |p| <= n && e.size >= 0 && w.local(w.root + p) in {Absent, Regular}
         case Nothing => e.kind == SymlinkEntry || e.kind == OtherEntry
  }

  /** Every reached directory lists, and nothing is wrong with what it lists. */
  ghost predicate TreeFine(w: World, n: nat) {
    forall r :: Reached(w, r) ==>
      && w.remote(w.source + r).Ok?
      && forall e :: e in w.remote(w.source + r).value ==> EntryFine(w, r, e, n)
  }

  /** The tree can be read exactly when nothing in it is wrong, said by place. */
  lemma TreeDecided(w: World, n: nat)
    ensures Below(w, [], n).Ok? <==> TreeFine(w, n)
  {
    hide Below, Reached, EntryFine;
    if TreeFine(w, n) {
      assert Reached(w, []) by { RootReached(w); }
      FineBelow(w, n, []);
    }
    if Below(w, [], n).Ok? {
      forall r | Reached(w, r)
        ensures w.remote(w.source + r).Ok?
        ensures forall e :: e in w.remote(w.source + r).value ==> EntryFine(w, r, e, n)
      {
        ReachedWithin(w, n, r);
        ListingFine(w, n, r);
      }
    }
  }

  lemma RootReached(w: World)
    ensures Reached(w, [])
  {}

  lemma ListingFine(w: World, n: nat, r: Path)
    requires |r| <= n && Below(w, r, n - |r|).Ok?
    ensures w.remote(w.source + r).Ok?
    ensures forall e :: e in w.remote(w.source + r).value ==> EntryFine(w, r, e, n)
  {
    hide Below, BelowAll, TakenNames, ByName;
    var entries := BelowListed(w, r, n - |r|);
    forall e | e in w.remote(w.source + r).value ensures EntryFine(w, r, e, n) {
      assert e in multiset(entries);
      EntryWithin(w, r, entries, e, n - |r|);
    }
  }

  lemma {:induction false} FineBelow(w: World, n: nat, rel: Path)
    requires TreeFine(w, n) && Reached(w, rel) && |rel| <= n
    ensures Below(w, rel, n - |rel|).Ok?
    decreases n - |rel|, 1
  {
    hide Reached, EntryFine, BelowAll;
    var entries := ByName(w.remote(w.source + rel).value);
    forall e | e in entries ensures BelowEntry(w, rel, e, n - |rel|).Ok? {
      assert e in multiset(entries);
      assert EntryFine(w, rel, e, n);
      FineEntry(w, n, rel, e);
    }
    AllFine(w, rel, entries, n - |rel|);
  }

  lemma {:induction false} FineEntry(w: World, n: nat, rel: Path, e: Entry)
    requires TreeFine(w, n) && Reached(w, rel) && |rel| <= n && Listed(w, rel, e) && EntryFine(w, rel, e, n)
    ensures BelowEntry(w, rel, e, n - |rel|).Ok?
    decreases n - |rel|, 0
  {
    hide TreeFine, Reached, Below, Chosen, Listed;
    var p := rel + [e.name];
    if !w.excludes(p) && Opens(e) == ADirectory {
      EntryChosen(w, rel, e);
      FineBelow(w, n, p);
    }
  }

  lemma {:induction false} AllFine(w: World, rel: Path, entries: seq<Entry>, levels: nat)
    requires forall e :: e in entries ==> BelowEntry(w, rel, e, levels).Ok?
    ensures BelowAll(w, rel, entries, levels).Ok?
  {
    hide BelowEntry;
    if entries != [] {
      AllFine(w, rel, entries[1..], levels);
    }
  }

  /** A server that lists one file twice: the plan is made, and writes one local path twice. */
  lemma FileListedTwice() returns (w: World)
    ensures Below(w, [], 1).Ok? && Targets(Below(w, [], 1).value)[["a"]] == 2
    ensures !NamedOnce(w)
  {
    var e, f := Entry("a", ["a"], FileEntry, None, 0), File(["a"], ["a"], 0, false);
    w := World(p => if p == [] then Ok([e, e]) else Err(NotFound("")), _ => Absent, _ => false, _ => true, [], []);
    var entries := [e, e];
    assert [] + ["a"] == ["a"];
    assert BelowEntry(w, [], e, 1) == Ok(OneFile(f));
    assert ByName([e, e]) == [e, e] by { assert [e, e][1..] == [e] && [e][1..] == []; }
    assert BelowAll(w, [], [], 1) == Ok(NOTHING);
    assert [e][1..] == [] && [e, e][1..] == [e];
    assert BelowAll(w, [], [e], 1) == Ok(OneFile(f).Then(NOTHING));
    assert BelowAll(w, [], [e, e], 1) == Ok(OneFile(f).Then(OneFile(f).Then(NOTHING)));
    BelowOk(w, [], 1);
    hide Below, BelowAll, BelowEntry, ByName;
    TargetsThen(OneFile(f), OneFile(f).Then(NOTHING));
    TargetsThen(OneFile(f), NOTHING);
    assert Destinations([f]) == [["a"]];
    assert Targets(OneFile(f)) == multiset{["a"]};
    TargetsDistinctDecided(w, 1);
  }
}
