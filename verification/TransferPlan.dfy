/** What a transfer plan holds, for downloads and uploads alike.

    `Content` is the value that both readings of a tree give, and `Plan` the object that both
    walks fill in place. `Then` puts one content behind another: counts and sums of sizes add up,
    and so do the `Targets`, which say how often each path is to be made or written. */
module TransferPlan {
  import opened Wrappers
  import opened RemoteListings

  /** sftpCLIMaxRecursiveDepth. */
  const MAX_DEPTH := 256

  datatype File = File(source: Path, destination: Path, size: int, present: bool)

  datatype Reason = MatchedExclusion | LinkTargetUnreadable | LinkBack | LinkTargetMissing | NeitherFileNorDirectory

  datatype Skip = Skip(path: Path, reason: Reason)

  function SumSizes(files: seq<File>): int {
    if files == [] then 0 else files[0].size + SumSizes(files[1..])
  }

  function CountExcluded(skips: seq<Skip>): nat {
    if skips == [] then 0 else (if skips[0].reason == MatchedExclusion then 1 else 0) + CountExcluded(skips[1..])
  }

  lemma {:induction false} SumSizesAppend(a: seq<File>, b: seq<File>)
    ensures SumSizes(a + b) == SumSizes(a) + SumSizes(b)
  {
    if a == [] {
      assert a + b == b;
    } else {
      SumSizesAppend(a[1..], b);
      assert (a + b)[1..] == a[1..] + b;
    }
  }

  lemma {:induction false} CountExcludedAppend(a: seq<Skip>, b: seq<Skip>)
    ensures CountExcluded(a + b) == CountExcluded(a) + CountExcluded(b)
  {
    if a == [] {
      assert a + b == b;
    } else {
      CountExcludedAppend(a[1..], b);
      assert (a + b)[1..] == a[1..] + b;
    }
  }

  /** Directories, files and skipped paths, in the order in which they are met. */
  datatype Content = Content(directories: seq<Path>, files: seq<File>, skips: seq<Skip>) {
    function Then(next: Content): Content {
      Content(directories + next.directories, files + next.files, skips + next.skips)
    }

    function Count(): nat {
      |directories| + |files| + CountExcluded(skips)
    }

    function Bytes(): int {
      SumSizes(files)
    }

    lemma ThenTotals(next: Content)
      ensures Then(next).Count() == Count() + next.Count()
      ensures Then(next).Bytes() == Bytes() + next.Bytes()
    {
      SumSizesAppend(files, next.files);
      CountExcludedAppend(skips, next.skips);
    }

    lemma ThenAssociative(b: Content, c: Content)
      ensures Then(b).Then(c) == Then(b.Then(c))
    {
    }
  }

  const NOTHING := Content([], [], [])

  function OneDirectory(directory: Path): (c: Content)
    ensures c.Count() == 1 && c.Bytes() == 0
  {
    Content([directory], [], [])
  }

  function OneFile(file: File): (c: Content)
    ensures c.Count() == 1 && c.Bytes() == file.size
  {
    assert SumSizes([file]) == file.size + SumSizes([file][1..]);
    Content([], [file], [])
  }

  function OneSkip(path: Path, reason: Reason): (c: Content)
    ensures c.Count() == (if reason == MatchedExclusion then 1 else 0) && c.Bytes() == 0
  {
    assert CountExcluded([Skip(path, reason)][1..]) == 0;
    Content([], [], [Skip(path, reason)])
  }

  function AndThen<E>(first: Content, others: Result<Content, E>): Result<Content, E> {
    if others.Err? then others else Ok(first.Then(others.value))
  }

  function Destinations(files: seq<File>): (r: seq<Path>)
    ensures |r| == |files| && forall i :: 0 <= i < |r| ==> r[i] == files[i].destination
  {
    seq(|files|, i requires 0 <= i < |files| => files[i].destination)
  }

  /** How often each path is to be made a directory or written as a file. */
  ghost function Targets(c: Content): multiset<Path> {
    multiset(c.directories) + multiset(Destinations(c.files))
  }

  lemma TargetsThen(a: Content, b: Content)
    ensures Targets(a.Then(b)) == Targets(a) + Targets(b)
  {
    assert Destinations(a.files + b.files) == Destinations(a.files) + Destinations(b.files);
  }

  lemma NamesPart(root: Path, rel: Path, a: string, b: string, x: Path)
    requires a != b && root + (rel + [b]) <= x
    ensures !(root + (rel + [a]) <= x)
  {
    assert x[|root| + |rel|] == (root + (rel + [b]))[|root| + |rel|] == b;
    assert (root + (rel + [a]))[|root| + |rel|] == a;
  }

  lemma FirstStep(root: Path, rel: Path, r: Path)
    requires rel < r
    ensures rel + [r[|rel|]] <= r && root + (rel + [r[|rel|]]) <= root + r
  {
    assert rel + [r[|rel|]] == r[..|rel| + 1];
  }

  /** sftpCLIPlan. */
  class Plan {
    var directories: seq<Path>
    var files: seq<File>
    var skips: seq<Skip>
    var bytes: int

    constructor (root: Path)
      ensures Held() == Content([root], [], []) && bytes == 0
    {
      directories, files, skips, bytes := [root], [], [], 0;
    }

    function Held(): Content
      reads this
    {
      Content(directories, files, skips)
    }

    method AddDirectory(directory: Path)
      modifies this
      ensures Held() == old(Held()).Then(OneDirectory(directory)) && bytes == old(bytes)
      ensures Held().Count() == old(Held().Count()) + 1 && Held().Bytes() == old(Held().Bytes())
      ensures |directories| == |old(directories)| + 1
    {
      Held().ThenTotals(OneDirectory(directory));
      directories := directories + [directory];
      assert Held() == old(Held()).Then(OneDirectory(directory));
    }

    method AddFile(file: File)
      modifies this
      ensures Held() == old(Held()).Then(OneFile(file)) && bytes == old(bytes) + file.size
      ensures Held().Count() == old(Held().Count()) + 1 && Held().Bytes() == old(Held().Bytes()) + file.size
      ensures directories == old(directories)
    {
      Held().ThenTotals(OneFile(file));
      files, bytes := files + [file], bytes + file.size;
      assert Held() == old(Held()).Then(OneFile(file));
    }

    method AddSkip(path: Path, reason: Reason)
      modifies this
      ensures Held() == old(Held()).Then(OneSkip(path, reason)) && bytes == old(bytes)
      ensures Held().Count() == old(Held().Count()) + (if reason == MatchedExclusion then 1 else 0)
      ensures Held().Bytes() == old(Held().Bytes()) && directories == old(directories)
    {
      Held().ThenTotals(OneSkip(path, reason));
      skips := skips + [Skip(path, reason)];
      assert Held() == old(Held()).Then(OneSkip(path, reason));
    }
  }
}
