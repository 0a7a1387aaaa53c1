/** What a transfer plan knows about the remote tree.

    A path is the sequence of its components; the root is []. The remote answers are a
    function of the path: they do not change while a plan is built. */
module RemoteListings {
  import opened Wrappers

  type Path = seq<string>

  datatype EntryKind = FileEntry | DirectoryEntry | SymlinkEntry | OtherEntry | UnknownEntry

  datatype TargetKind = FileTarget | DirectoryTarget | OtherTarget

  datatype Entry = Entry(name: string, path: Path, kind: EntryKind, target: Option<TargetKind>, size: int)

  datatype OpensAs = AFile | ADirectory | Nothing

  /** sftpEntryOpensAs: a link stands for what it points to. */
  function Opens(e: Entry): OpensAs {
    match (e.kind, e.target)
    case (FileEntry, _) => AFile
    case (DirectoryEntry, _) => ADirectory
    case (SymlinkEntry, Some(FileTarget)) => AFile
    case (SymlinkEntry, Some(DirectoryTarget)) => ADirectory
    case _ => Nothing
  }

  datatype RemoteError = NotFound(message: string) | OtherFailure(message: string)

  type Listing = Result<seq<Entry>, RemoteError>

  type Remote = Path -> Listing

  function Parent(p: Path): Path {
    if p == [] then [] else p[..|p| - 1]
  }

  predicate IsMissing<T>(r: Result<T, RemoteError>) {
    r.Err? && r.error.NotFound?
  }

  /** Nothing exists below a directory that does not exist. */
  ghost predicate MissingIsEmpty(remote: Remote) {
    forall d: Path :: d != [] && IsMissing(remote(Parent(d))) ==> IsMissing(remote(d))
  }

  /** The same answer; two not-found answers may differ in their wording. */
  predicate Agree<T(==)>(a: Result<T, RemoteError>, b: Result<T, RemoteError>) {
    if IsMissing(a) then IsMissing(b) else a == b
  }

  const ROOT := Entry("/", [], DirectoryEntry, None, 0)

  function Find(entries: seq<Entry>, p: Path): Result<Entry, RemoteError> {
    if entries == [] then Err(NotFound("sftp_not_found"))
    else if entries[0].path == p then Ok(entries[0])
    else Find(entries[1..], p)
  }

  /** sftpRemoteStat: the lookup without a memo. */
  function DirectStat(remote: Remote, p: Path): Result<Entry, RemoteError> {
    if p == [] then Ok(ROOT)
    else
      match remote(Parent(p))
      case Err(e) => Err(e)
      case Ok(entries) => Find(entries, p)
  }

  ghost predicate NoDuplicates<T>(s: seq<T>) {
    forall i, j :: 0 <= i < j < |s| ==> s[i] != s[j]
  }

  /** remoteListings, with the log of what was asked of the engine. */
  class Memo {
    const remote: Remote
    var byDirectory: map<Path, seq<Entry>>
    var failures: map<Path, RemoteError>
    var requests: seq<Path>

    /** Answers kept are answers given, or follow from a missing parent; what was asked
        once is kept. */
    ghost predicate Valid()
      reads this
    {
      && (forall d :: d in byDirectory ==> remote(d) == Ok(byDirectory[d]))
      && (MissingIsEmpty(remote) ==> forall d :: d in failures ==> Agree(Err(failures[d]), remote(d)))
      && NoDuplicates(requests)
      && (forall d :: d in requests ==> d in byDirectory || d in failures)
    }

    constructor (remote: Remote)
      ensures Valid() && this.remote == remote && requests == [] && failures == map[]
    {
      this.remote := remote;
      byDirectory, failures, requests := map[], map[], [];
    }

    /** The answer agrees with the engine's own; the engine is asked at most once more, and
        never again about the same directory. */
    method List(directory: Path) returns (answer: Listing)
      requires Valid()
      modifies this
      ensures Valid()
      ensures MissingIsEmpty(remote) ==> Agree(answer, remote(directory))
      ensures answer.Ok? ==> remote(directory) == answer
      ensures old(failures) == map[] ==> answer == remote(directory)
      ensures old(failures) == map[] && answer.Ok? ==> failures == map[]
      ensures requests == old(requests) || requests == old(requests) + [directory]
      ensures directory in byDirectory || directory in failures
      ensures old(directory in byDirectory || directory in failures) ==> requests == old(requests)
      ensures old(byDirectory.Keys + failures.Keys) <= byDirectory.Keys + failures.Keys
    {
      if directory in byDirectory {
        return Ok(byDirectory[directory]);
      }
      if directory in failures {
        return Err(failures[directory]);
      }
      var parent := Parent(directory);
      if parent != directory && parent in failures && failures[parent].NotFound? {
        failures := failures[directory := failures[parent]];
        return Err(failures[parent]);
      }
      answer := remote(directory);
      assert directory !in requests;
      requests := requests + [directory];
      match answer {
        case Err(e) => failures := failures[directory := e];
        case Ok(entries) => byDirectory := byDirectory[directory := entries];
      }
    }

    method Stat(p: Path) returns (answer: Result<Entry, RemoteError>)
      requires Valid()
      modifies this
      ensures Valid()
      ensures MissingIsEmpty(remote) ==> Agree(answer, DirectStat(remote, p))
      ensures answer.Ok? ==> answer == DirectStat(remote, p)
      ensures requests == old(requests) || requests == old(requests) + [Parent(p)]
    {
      if p == [] {
        return Ok(ROOT);
      }
      var listing := List(Parent(p));
      if listing.Err? {
        return Err(listing.error);
      }
      var entries := listing.value;
      for i := 0 to |entries|
        invariant Find(entries, p) == Find(entries[i..], p)
      {
        if entries[i].path == p {
          return Ok(entries[i]);
        }
      }
      answer := Err(NotFound("sftp_not_found"));
    }
  }

  // ------------------------------------------------------- creating directories

  /** The predicate holds of p and of the paths above it, down from the one of length n. */
  predicate Along(p: Path, n: nat, f: Path -> bool) {
    forall k :: n <= k <= |p| ==> f(p[..k])
  }

  lemma AlongStep(p: Path, n: nat, f: Path -> bool)
    requires p != []
    ensures n <= |p| ==> (Along(p, n, f) <==> f(p) && Along(Parent(p), n, f))
    ensures n > |p| ==> Along(p, n, f)
  {
    assert p[..|p|] == p;
    assert forall k :: 0 <= k < |p| ==> p[..k] == Parent(p)[..k];
  }

  type Kinds = map<Path, EntryKind>

  /** What there is at a path; the root is always a directory. */
  function KindAt(kinds: Kinds, p: Path): Option<EntryKind> {
    if p == [] then Some(DirectoryEntry) else if p in kinds then Some(kinds[p]) else None
  }

  /** The nearest path above p, or p itself, at which something exists. */
  function Nearest(kinds: Kinds, p: Path): (q: Path)
    ensures q <= p && KindAt(kinds, q).Some?
  {
    if p == [] || p in kinds then p else Nearest(kinds, Parent(p))
  }

  /** Nothing that was there has changed, and what is new are accepted directories on the
      way down to p, below the path of length n. */
  predicate Grown(before: Kinds, after: Kinds, p: Path, n: nat, accepts: Path -> bool) {
    && (forall q :: q in before ==> q in after && after[q] == before[q])
    && (forall q :: q in after && q !in before ==> n < |q| && q <= p && after[q] == DirectoryEntry && accepts(q))
  }

  lemma GrownStep(before: Kinds, after: Kinds, p: Path, n: nat, accepts: Path -> bool)
    requires p != [] && p !in before && n < |p| && Grown(before, after, Parent(p), n, accepts)
    ensures Grown(before, after, p, n, accepts)
    ensures accepts(p) ==> Grown(before, after[p := DirectoryEntry], p, n, accepts)
  {
    assert Parent(p) <= p;
  }

  predicate Directories(kinds: Kinds, p: Path, n: nat) {
    forall k :: n <= k <= |p| ==> KindAt(kinds, p[..k]) == Some(DirectoryEntry)
  }

  lemma DirectoriesStep(kinds: Kinds, p: Path, n: nat)
    requires p != [] && Directories(kinds, Parent(p), n)
    ensures Directories(kinds[p := DirectoryEntry], p, n)
  {
    assert p[..|p|] == p;
    assert forall k :: 0 <= k < |p| ==> p[..k] == Parent(p)[..k];
  }

  /** The lookups on the way are answered, the nearest path that exists is a directory, and
      the rest may be created. */
  predicate CanEnsure(kinds: Kinds, p: Path, answers: Path -> bool, accepts: Path -> bool) {
    var nearest := Nearest(kinds, p);
    && KindAt(kinds, nearest) == Some(DirectoryEntry)
    && Along(p, if nearest == [] then 1 else |nearest|, answers)
    && Along(p, |nearest| + 1, accepts)
  }

  lemma CanEnsureStep(kinds: Kinds, p: Path, answers: Path -> bool, accepts: Path -> bool)
    requires p != []
    ensures CanEnsure(kinds, p, answers, accepts) <==>
            && answers(p)
            && if p in kinds then kinds[p] == DirectoryEntry
               else accepts(p) && CanEnsure(kinds, Parent(p), answers, accepts)
  {
    var nearest := Nearest(kinds, p);
    AlongStep(p, if nearest == [] then 1 else |nearest|, answers);
    AlongStep(p, |nearest| + 1, accepts);
    hide Along;
    if p !in kinds {
      assert |nearest| <= |Parent(p)|;
    } else {
      AlongAbove(Parent(p), |p|, answers);
    }
  }

  lemma AlongAbove(p: Path, n: nat, f: Path -> bool)
    requires n > |p|
    ensures Along(p, n, f)
  {
  }

  /** What can be ensured can be ensured on the way, from where nothing is. */
  lemma {:induction false} CanEnsureAbove(kinds: Kinds, q: Path, p: Path, answers: Path -> bool, accepts: Path -> bool)
    requires p <= q && |Nearest(kinds, q)| < |p| && CanEnsure(kinds, q, answers, accepts)
    ensures CanEnsure(kinds, p, answers, accepts)
    decreases |q|
  {
    hide CanEnsure;
    if p != q {
      assert q != [] && q !in kinds && p <= Parent(q);
      CanEnsureStep(kinds, q, answers, accepts);
      CanEnsureAbove(kinds, Parent(q), p, answers, accepts);
    }
  }

  /** Ensuring one directory decides nothing about another. */
  lemma {:induction false} CanEnsureGrown(
    before: Kinds, after: Kinds, q: Path, p: Path, answers: Path -> bool, accepts: Path -> bool)
    requires CanEnsure(before, q, answers, accepts) && Grown(before, after, q, |Nearest(before, q)|, accepts)
    ensures CanEnsure(after, p, answers, accepts) <==> CanEnsure(before, p, answers, accepts)
    decreases |p|
  {
    hide CanEnsure;
    if p == [] {
      CanEnsureRoot(before, answers, accepts);
      CanEnsureRoot(after, answers, accepts);
    } else {
      CanEnsureStep(before, p, answers, accepts);
      CanEnsureStep(after, p, answers, accepts);
      CanEnsureGrown(before, after, q, Parent(p), answers, accepts);
      if p in after && p !in before {
        CanEnsureAbove(before, q, p, answers, accepts);
      }
    }
  }

  lemma CanEnsureRoot(kinds: Kinds, answers: Path -> bool, accepts: Path -> bool)
    ensures CanEnsure(kinds, [], answers, accepts)
  {
  }

  /** Nothing that was there has changed, and what is new are accepted directories on the way
      down to some of these. */
  ghost predicate Widened(before: Kinds, after: Kinds, directories: seq<Path>, accepts: Path -> bool) {
    && (forall q :: q in before ==> q in after && after[q] == before[q])
    && (forall q :: q in after && q !in before ==>
          after[q] == DirectoryEntry && accepts(q) && exists d :: d in directories && q <= d)
  }

  lemma WidenedNot(kinds: Kinds, directories: seq<Path>, accepts: Path -> bool)
    ensures Widened(kinds, kinds, directories, accepts)
  {
  }

  lemma WidenedGrown(
    first: Kinds, before: Kinds, after: Kinds, directories: seq<Path>, d: Path, n: nat, accepts: Path -> bool)
    requires Widened(first, before, directories, accepts) && d in directories && Grown(before, after, d, n, accepts)
    ensures Widened(first, after, directories, accepts)
    ensures forall q :: KindAt(before, q).Some? ==> KindAt(after, q) == KindAt(before, q)
  {
  }

  /** A remote tree that changes: what there is at each path below the root. */
  class RemoteTree {
    var kinds: Kinds

    /** sftpEnsureRemoteDirectory, on a server that answers or fails a lookup, and accepts or
        refuses a creation, by the path. It succeeds exactly when the lookups on the way are
        answered, the nearest path that exists is a directory, and the rest may be created;
        then all of them are directories. Whatever happens, nothing else is added and nothing
        that was there changes. */
    method Ensure(p: Path, answers: Path -> bool, accepts: Path -> bool) returns (ok: bool)
      modifies this
      ensures var nearest := Nearest(old(kinds), p);
              && (ok <==> CanEnsure(old(kinds), p, answers, accepts))
              && Grown(old(kinds), kinds, p, |nearest|, accepts)
              && (ok ==> Directories(kinds, p, |nearest|))
      decreases |p|
    {
      if p == [] {
        return true;
      }
      ghost var before, nearest := kinds, Nearest(kinds, p);
      AlongStep(p, if nearest == [] then 1 else |nearest|, answers);
      AlongStep(p, |nearest| + 1, accepts);
      if !answers(p) {
        return false;
      }
      if p in kinds {
        assert p[..|p|] == p;
        return kinds[p] == DirectoryEntry;
      }
      var parent := Parent(p);
      assert nearest == Nearest(kinds, parent) && |nearest| <= |parent|;
      hide Along, Grown, Directories, Nearest;
      ok := Ensure(parent, answers, accepts);
      GrownStep(before, kinds, p, |nearest|, accepts);
      if !ok {
        return;
      }
      if !accepts(p) {
        return false;
      }
      DirectoriesStep(kinds, p, |nearest|);
      kinds := kinds[p := DirectoryEntry];
    }

    /** The directories of an upload plan, one after the other. All can be ensured exactly when
        each of them could be at the start; then all are there. */
    method EnsureAll(directories: seq<Path>, answers: Path -> bool, accepts: Path -> bool) returns (ok: bool)
      modifies this
      ensures ok <==>
              forall i :: 0 <= i < |directories| ==> CanEnsure(old(kinds), directories[i], answers, accepts)
      ensures ok ==> forall i :: 0 <= i < |directories| ==> KindAt(kinds, directories[i]) == Some(DirectoryEntry)
      ensures Widened(old(kinds), kinds, directories, accepts)
    {
      hide CanEnsure, Grown, Widened, Nearest;
      WidenedNot(kinds, directories, accepts);
      for i := 0 to |directories|
        invariant forall p :: CanEnsure(kinds, p, answers, accepts) <==> CanEnsure(old(kinds), p, answers, accepts)
        invariant forall j :: 0 <= j < i ==> CanEnsure(old(kinds), directories[j], answers, accepts)
        invariant forall j :: 0 <= j < i ==> KindAt(kinds, directories[j]) == Some(DirectoryEntry)
        invariant Widened(old(kinds), kinds, directories, accepts)
      {
        var d := directories[i];
        ghost var before := kinds;
        ok := Ensure(d, answers, accepts);
        WidenedGrown(old(kinds), before, kinds, directories, d, |Nearest(before, d)|, accepts);
        if !ok {
          return;
        }
        assert d[..|d|] == d;
        forall p ensures CanEnsure(kinds, p, answers, accepts) <==> CanEnsure(before, p, answers, accepts) {
          CanEnsureGrown(before, kinds, d, p, answers, accepts);
        }
      }
      return true;
    }
  }
}
