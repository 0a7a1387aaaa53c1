/** The browser cache of an unpacked archive, and its completion marker: after any history
    of complete, failed and interrupted runs, a cache that passes the completeness test holds
    every file. */
module ArchiveCache {
  import opened Wrappers
  import GoText
  import Tar

  // A page may be closed at any moment, so a run may stop between any two cache operations.
  // NeverFalselyComplete is the main result; MarkerDecided says when its condition is met.

  type Url = string
  type Content = string

  datatype File = File(path: string, bytes: Content)

  datatype Manifest = Manifest(sha256: Content, fileCount: nat)

  /** What the runs on one cache have in common: where the marker is, which address a
      path resolves to below the base address (None when it would escape), and the files
      of the archive that a digest identifies (None when it is no readable archive). */
  datatype Site = Site(marker: Url, resolve: string -> Option<Url>, archive: Content -> Option<seq<File>>)

  type Entries = map<Url, Content>

  // ----------------------------------------------------------- what is promised

  /** The test of prepareUIArchive and openRelease. */
  predicate Complete(site: Site, entries: Entries, m: Manifest) {
    site.marker in entries && entries[site.marker] == m.sha256 && |entries| == m.fileCount + 1
  }

  /** Every file is there, with its own bytes. */
  predicate Cached(site: Site, entries: Entries, files: seq<File>) {
    forall i :: 0 <= i < |files| ==>
      var url := site.resolve(files[i].path);
      url.Some? && url.value in entries && entries[url.value] == files[i].bytes
  }

  // ------------------------------------------------------------------- one run

  datatype Op = Delete(key: Url) | Put(key: Url, content: Content) | Drop

  function Apply(entries: Entries, op: Op): Entries {
    match op
    case Delete(key) => entries - {key}
    case Put(key, content) => entries[key := content]
    case Drop => map[]
  }

  function ApplyAll(entries: Entries, ops: seq<Op>): Entries {
    if ops == [] then entries else Apply(ApplyAll(entries, ops[..|ops| - 1]), ops[|ops| - 1])
  }

  /** One visit: the manifest it was given, whether the download had the declared digest,
      the order in which the browser lists the old keys, the operation that throws (if it
      is reached) and the operation before which the page is closed (if it is reached). */
  datatype Run = Run(manifest: Manifest, downloaded: bool, order: seq<Url>, failAt: nat, killAt: nat)

  function Deletes(order: seq<Url>): (ops: seq<Op>)
    ensures |ops| == |order| && forall i :: 0 <= i < |order| ==> ops[i] == Delete(order[i])
  {
    seq(|order|, i requires 0 <= i < |order| => Delete(order[i]))
  }

  /** The puts of the files, up to the first that does not resolve below the base. */
  function Puts(site: Site, files: seq<File>): (ops: seq<Op>)
    ensures |ops| <= |files|
  {
    if files == [] then []
    else
      var url := site.resolve(files[0].path);
      if url.None? then [] else [Put(url.value, files[0].bytes)] + Puts(site, files[1..])
  }

  /** The operations of populateArchiveCache on a readable archive, if none throws. A file
      that does not resolve makes the caller drop the cache. */
  function Normal(site: Site, run: Run, files: seq<File>): seq<Op> {
    var puts := Puts(site, files);
    Deletes(run.order) + puts + [if |puts| == |files| then Put(site.marker, run.manifest.sha256) else Drop]
  }

  predicate Usable(files: seq<File>, m: Manifest) {
    |files| == m.fileCount && exists i :: 0 <= i < |files| && files[i].path == "index.html"
  }

  /** All operations of a run that is not interrupted. */
  function Ops(site: Site, entries: Entries, run: Run): seq<Op> {
    if Complete(site, entries, run.manifest) then []
    else
      var archive := site.archive(run.manifest.sha256);
      if !run.downloaded || archive.None? || !Usable(archive.value, run.manifest) then [Drop]
      else
        var normal := Normal(site, run, archive.value);
        if run.failAt < |normal| then normal[..run.failAt] + [Drop] else normal
  }

  function Take<T>(s: seq<T>, n: nat): seq<T> {
    if n < |s| then s[..n] else s
  }

  /** The cache when the run is over, or has been interrupted. */
  function After(site: Site, entries: Entries, run: Run): Entries {
    ApplyAll(entries, Take(Ops(site, entries, run), run.killAt))
  }

  /** cache.keys() lists every key. */
  ghost predicate Lists(order: seq<Url>, entries: Entries) {
    forall key :: key in entries ==> key in order
  }

  // -------------------------------------------------------------- the invariant

  /** What the puts of these files leave in an empty cache. */
  function Image(site: Site, files: seq<File>): Entries {
    if files == [] then map[]
    else
      var last := files[|files| - 1];
      var url := site.resolve(last.path);
      var before := Image(site, files[..|files| - 1]);
      if url.None? then before else before[url.value := last.bytes]
  }

  /** No file of any archive is stored at the address of the marker. */
  ghost predicate NoMarkerFile(site: Site) {
    forall digest :: site.archive(digest).Some? ==> MarkerFree(site, site.archive(digest).value)
  }

  predicate MarkerFree(site: Site, files: seq<File>) {
    forall i :: 0 <= i < |files| ==> site.resolve(files[i].path) != Some(site.marker)
  }

  ghost predicate Resolvable(site: Site, files: seq<File>) {
    forall i :: 0 <= i < |files| ==> site.resolve(files[i].path).Some?
  }

  /** Wherever there is a marker, all else is part of the archive it names. */
  ghost predicate Inv(site: Site, entries: Entries) {
    site.marker in entries ==>
      var archive := site.archive(entries[site.marker]);
      && archive.Some? && Resolvable(site, archive.value)
      && forall key :: key in entries && key != site.marker ==>
           key in Image(site, archive.value) && entries[key] == Image(site, archive.value)[key]
  }

  lemma {:induction false} ImageSize(site: Site, files: seq<File>)
    requires Resolvable(site, files)
    ensures |Image(site, files)| <= |files|
    ensures |Image(site, files)| == |files| ==> Cached(site, Image(site, files), files)
  {
    if files != [] {
      var before, last := files[..|files| - 1], files[|files| - 1];
      ImageSize(site, before);
      var url := site.resolve(last.path).value;
      var image := Image(site, before);
      if url in image {
        assert image[url := last.bytes].Keys == image.Keys;
        SameKeys(image[url := last.bytes], image);
      } else if |image| == |before| {
        forall i | 0 <= i < |files|
          ensures site.resolve(files[i].path).value in Image(site, files)
          ensures Image(site, files)[site.resolve(files[i].path).value] == files[i].bytes
        {
          if i < |before| { assert files[i] == before[i]; }
        }
      }
    }
  }

  lemma SameKeys(a: Entries, b: Entries)
    requires a.Keys == b.Keys
    ensures |a| == |b|
  {
    assert |a| == |a.Keys| && |b| == |b.Keys|;
  }

  lemma {:induction false} ImageKeys(site: Site, files: seq<File>)
    requires MarkerFree(site, files)
    ensures site.marker !in Image(site, files)
  {
    if files != [] {
      ImageKeys(site, files[..|files| - 1]);
    }
  }

  /** The completeness test is right about every cache the invariant describes. */
  lemma CompleteIsCached(site: Site, entries: Entries, m: Manifest)
    requires Inv(site, entries) && NoMarkerFile(site) && Complete(site, entries, m)
    ensures site.archive(m.sha256).Some?
    ensures m.fileCount == |site.archive(m.sha256).value| ==> Cached(site, entries, site.archive(m.sha256).value)
  {
    var files := site.archive(m.sha256).value;
    if m.fileCount == |files| {
      var image := Image(site, files);
      ImageSize(site, files);
      ImageKeys(site, files);
      var others := entries.Keys - {site.marker};
      assert entries.Keys == others + {site.marker};
      assert |others| == |entries| - 1 == |files|;
      assert others <= image.Keys;
      SubsetFull(others, image.Keys);
      forall i | 0 <= i < |files|
        ensures site.resolve(files[i].path).value in entries
        ensures entries[site.resolve(files[i].path).value] == files[i].bytes
      {
        assert site.resolve(files[i].path).value in image.Keys;
      }
    }
  }

  // ------------------------------------------------ every point of every history

  lemma {:induction false} ApplyAppend(entries: Entries, ops: seq<Op>, op: Op)
    ensures ApplyAll(entries, ops + [op]) == Apply(ApplyAll(entries, ops), op)
  {
    assert (ops + [op])[..|ops|] == ops;
  }

  /** Deleting keys, in any order, leaves part of what was there; in the end nothing. */
  lemma {:induction false} DeletesShrink(entries: Entries, order: seq<Url>)
    ensures var left := ApplyAll(entries, Deletes(order));
            && (forall key :: key in left <==> key in entries && key !in order)
            && (forall key :: key in left ==> left[key] == entries[key])
  {
    if order != [] {
      var before := order[..|order| - 1];
      DeletesShrink(entries, before);
      assert Deletes(order)[..|order| - 1] == Deletes(before);
      assert order == before + [order[|order| - 1]];
    }
  }

  lemma InvShrinks(site: Site, entries: Entries, left: Entries)
    requires Inv(site, entries)
    requires forall key :: key in left ==> key in entries && left[key] == entries[key]
    ensures Inv(site, left)
  {}

  lemma {:induction false} PutsPrefix(site: Site, files: seq<File>)
    ensures var puts := Puts(site, files);
            && (forall i :: 0 <= i < |puts| ==>
                  && site.resolve(files[i].path).Some?
                  && puts[i] == Put(site.resolve(files[i].path).value, files[i].bytes))
            && (|puts| < |files| ==> site.resolve(files[|puts|].path).None?)
  {
    if files != [] && site.resolve(files[0].path).Some? {
      PutsPrefix(site, files[1..]);
      var rest := Puts(site, files[1..]);
      assert forall i :: 1 <= i <= |rest| ==> files[i] == files[1..][i - 1];
    }
  }

  /** After the old keys are gone, j puts leave the image of the first j files. */
  lemma {:induction false} PutsImage(site: Site, entries: Entries, order: seq<Url>, files: seq<File>, j: nat)
    requires Lists(order, entries) && j <= |Puts(site, files)|
    ensures ApplyAll(entries, Deletes(order) + Puts(site, files)[..j]) == Image(site, files[..j])
    ensures Resolvable(site, files[..j])
  {
    PutsPrefix(site, files);
    var puts := Puts(site, files);
    if j == 0 {
      DeletesShrink(entries, order);
      assert Deletes(order) + puts[..0] == Deletes(order);
      assert ApplyAll(entries, Deletes(order)) == map[];
    } else {
      PutsImage(site, entries, order, files, j - 1);
      assert Deletes(order) + puts[..j] == (Deletes(order) + puts[..j - 1]) + [puts[j - 1]];
      ApplyAppend(entries, Deletes(order) + puts[..j - 1], puts[j - 1]);
      assert files[..j][..j - 1] == files[..j - 1];
    }
  }

  /** Between any two operations of a run on a readable archive the invariant holds. */
  lemma NormalInv(site: Site, entries: Entries, run: Run, files: seq<File>, n: nat)
    requires Inv(site, entries) && NoMarkerFile(site) && Lists(run.order, entries)
    requires site.archive(run.manifest.sha256) == Some(files)
    requires n <= |Normal(site, run, files)|
    ensures Inv(site, ApplyAll(entries, Normal(site, run, files)[..n]))
  {
    hide Inv, Image;
    var deletes, puts, normal := Deletes(run.order), Puts(site, files), Normal(site, run, files);
    if n <= |deletes| {
      assert normal[..n] == Deletes(run.order[..n]);
      DeletesShrink(entries, run.order[..n]);
      InvShrinks(site, entries, ApplyAll(entries, Deletes(run.order[..n])));
    } else {
      var j := if n - |deletes| <= |puts| then n - |deletes| else |puts|;
      PutsImage(site, entries, run.order, files, j);
      ImageInv(site, files, j);
      if n - |deletes| <= |puts| {
        assert normal[..n] == deletes + puts[..j];
      } else {
        assert puts[..j] == puts;
        assert normal[..n] == (deletes + puts) + [normal[|deletes| + |puts|]];
        ApplyAppend(entries, deletes + puts, normal[|deletes| + |puts|]);
        CommitInv(site, run, files, Image(site, files[..j]), j);
      }
    }
  }

  lemma ImageInv(site: Site, files: seq<File>, j: nat)
    requires j <= |files| && MarkerFree(site, files)
    ensures Inv(site, Image(site, files[..j]))
  {
    ImageKeys(site, files[..j]);
  }

  lemma CommitInv(site: Site, run: Run, files: seq<File>, image: Entries, j: nat)
    requires site.archive(run.manifest.sha256) == Some(files) && j == |Puts(site, files)| && j <= |files|
    requires image == Image(site, files[..j]) && Resolvable(site, files[..j])
    ensures Inv(site, Apply(image, if j == |files| then Put(site.marker, run.manifest.sha256) else Drop))
  {
    if j == |files| {
      assert files[..j] == files;
    }
  }

  /** A run keeps the invariant wherever it stops. */
  lemma RunInv(site: Site, entries: Entries, run: Run)
    requires Inv(site, entries) && NoMarkerFile(site) && Lists(run.order, entries)
    ensures Inv(site, After(site, entries, run))
  {
    hide Inv, Normal, Usable, Complete;
    var ops := Ops(site, entries, run);
    var taken := Take(ops, run.killAt);
    if |taken| > 0 && taken[|taken| - 1] == Drop {
      EmptyInv(site);
    } else if Complete(site, entries, run.manifest) || taken == [] {
      assert taken == [];
    } else {
      var files := site.archive(run.manifest.sha256).value;
      var normal := Normal(site, run, files);
      assert taken == normal[..|taken|];
      NormalInv(site, entries, run, files, |taken|);
    }
  }

  lemma EmptyInv(site: Site)
    ensures Inv(site, map[])
  {}

  /** The cache after a history of runs, on a cache that was empty once. */
  function History(site: Site, runs: seq<Run>): Entries {
    if runs == [] then map[] else After(site, History(site, runs[..|runs| - 1]), runs[|runs| - 1])
  }

  /** In every run the browser listed the keys that were there. */
  ghost predicate Listing(site: Site, runs: seq<Run>) {
    forall i :: 0 <= i < |runs| ==> Lists(runs[i].order, History(site, runs[..i]))
  }

  lemma {:induction false} HistoryInv(site: Site, runs: seq<Run>)
    requires NoMarkerFile(site) && Listing(site, runs)
    ensures Inv(site, History(site, runs))
  {
    if runs == [] {
      EmptyInv(site);
    } else {
      var before := runs[..|runs| - 1];
      assert forall i :: 0 <= i < |before| ==> before[..i] == runs[..i];
      HistoryInv(site, before);
      RunInv(site, History(site, before), runs[|runs| - 1]);
    }
  }

  /** After any history, a cache that passes the test of a manifest with the archive's
      real number of files holds every one of its files with its own bytes. */
  lemma NeverFalselyComplete(site: Site, runs: seq<Run>, m: Manifest)
    requires NoMarkerFile(site) && Listing(site, runs)
    requires Complete(site, History(site, runs), m)
    ensures site.archive(m.sha256).Some?
    ensures m.fileCount == |site.archive(m.sha256).value| ==>
            Cached(site, History(site, runs), site.archive(m.sha256).value)
  {
    HistoryInv(site, runs);
    CompleteIsCached(site, History(site, runs), m);
  }

  // -------------------------------------------------------- when a visit completes

  /** The files resolve to addresses of their own, none of them the marker's. */
  ghost predicate Apart(site: Site, files: seq<File>) {
    && Resolvable(site, files) && MarkerFree(site, files)
    && forall i, j :: 0 <= i < j < |files| ==> site.resolve(files[i].path) != site.resolve(files[j].path)
  }

  lemma {:induction false} ImageKey(site: Site, files: seq<File>, key: Url)
    ensures key in Image(site, files) <==> exists i :: 0 <= i < |files| && site.resolve(files[i].path) == Some(key)
  {
    if files != [] {
      var before := files[..|files| - 1];
      ImageKey(site, before, key);
      if i :| 0 <= i < |files| && site.resolve(files[i].path) == Some(key) && i < |before| {
        assert before[i] == files[i];
      }
    }
  }

  /** There is an entry for each file exactly when no two files have one address. */
  lemma {:induction false} ImageFull(site: Site, files: seq<File>)
    requires Resolvable(site, files)
    ensures |Image(site, files)| == |files| <==>
            forall i, j :: 0 <= i < j < |files| ==> site.resolve(files[i].path) != site.resolve(files[j].path)
  {
    if files != [] {
      var before, last := files[..|files| - 1], files[|files| - 1];
      var url, image := site.resolve(last.path).value, Image(site, before);
      ImageSize(site, before);
      ImageFull(site, before);
      ImageKey(site, before, url);
      assert forall i :: 0 <= i < |before| ==> before[i] == files[i];
      if url in image {
        SameKeys(image[url := last.bytes], image);
      }
    }
  }

  lemma AfterPuts(site: Site, entries: Entries, run: Run, files: seq<File>)
    requires Lists(run.order, entries)
    ensures ApplyAll(entries, Normal(site, run, files)) ==
            if Resolvable(site, files) then Image(site, files)[site.marker := run.manifest.sha256] else map[]
  {
    hide Image;
    PutsPrefix(site, files);
    var deletes, puts := Deletes(run.order), Puts(site, files);
    var last := if |puts| == |files| then Put(site.marker, run.manifest.sha256) else Drop;
    PutsImage(site, entries, run.order, files, |puts|);
    assert puts[..|puts|] == puts && Normal(site, run, files) == deletes + puts + [last];
    ApplyAppend(entries, deletes + puts, last);
    if |puts| == |files| {
      assert files[..|files|] == files;
    }
  }

  /** A visit with a usable archive that neither fails nor is cut off leaves a cache that
      passes its own test exactly when the files have addresses of their own. If they have
      not, the next visit downloads again. */
  lemma CompletesDecided(site: Site, entries: Entries, run: Run, files: seq<File>)
    requires Lists(run.order, entries) && !Complete(site, entries, run.manifest)
    requires run.downloaded && site.archive(run.manifest.sha256) == Some(files) && Usable(files, run.manifest)
    requires |Normal(site, run, files)| <= run.failAt && |Normal(site, run, files)| <= run.killAt
    ensures Complete(site, After(site, entries, run), run.manifest) <==> Apart(site, files)
  {
    hide Usable, Normal, Lists;
    AfterPuts(site, entries, run, files);
    UsableCount(files, run.manifest);
    if Resolvable(site, files) {
      var image := Image(site, files);
      ImageSize(site, files);
      ImageFull(site, files);
      ImageKey(site, files, site.marker);
      hide Image;
      if site.marker in image {
        SameKeys(image[site.marker := run.manifest.sha256], image);
      }
    }
  }

  // ------------------------------------------------- why the condition is needed

  lemma {:induction false} ImageResolves(a: Site, b: Site, files: seq<File>)
    requires a.resolve == b.resolve
    ensures Image(a, files) == Image(b, files)
  {
    if files != [] {
      ImageResolves(a, b, files[..|files| - 1]);
    }
  }

  lemma {:induction false} ImageHolds(site: Site, files: seq<File>, i: nat)
    requires i < |files| && site.resolve(files[i].path).Some?
    ensures site.resolve(files[i].path).value in Image(site, files)
  {
    var before := files[..|files| - 1];
    if i < |before| {
      assert files[i] == before[i];
      ImageHolds(site, before, i);
    }
  }

  /** What the reader of an archive accepts: safe and distinct paths. */
  ghost predicate Readable(files: seq<File>) {
    && (forall i :: 0 <= i < |files| ==> Tar.SafePath(files[i].path))
    && (forall i, j :: 0 <= i < j < |files| ==> files[i].path != files[j].path)
  }

  /** An archive of n files: index.html with the given bytes, and others named x, xx, ... */
  function Small(home: Content, n: nat): (files: seq<File>)
    ensures |files| == n
    ensures forall i :: 0 <= i < n ==> files[i].path == if i == 0 then "index.html" else Repeated('x', i)
    ensures n > 0 ==> files[0].bytes == home
  {
    seq(n, i requires 0 <= i => File(if i == 0 then "index.html" else Repeated('x', i), home))
  }

  lemma SmallReadable(home: Content, n: nat)
    ensures Readable(Small(home, n))
  {
    hide Tar.SafePath;
    var files := Small(home, n);
    forall i | 0 <= i < n ensures Tar.SafePath(files[i].path) {
      var path := files[i].path;
      if i == 0 {
        assert path == "index.html";
      } else {
        assert path[0] == 'x' && forall k :: 0 <= k < |path| ==> path[k] == 'x';
      }
      Tar.OneNameSafe(path);
    }
    forall i, j | 0 <= i < j < n ensures files[i].path != files[j].path {
      assert files[j].path[0] == 'x';
      assert i > 0 ==> |files[i].path| != |files[j].path|;
    }
  }

  /** If some archive stores a file where the marker is, and that file's text is not the
      archive's own digest, then a page closed just before the marker is written can leave
      a cache that passes the test of another archive, a readable one, and lacks its files. */
  lemma MarkerFileBreaks(
    marker: Url, resolve: string -> Option<Url>, digest: Content, files: seq<File>, index: nat, clash: nat)
    returns (site: Site, run: Run, m: Manifest)
    requires index < |files| && files[index].path == "index.html"
    requires resolve("index.html").Some? && resolve("index.html") != Some(marker)
    requires clash < |files| && resolve(files[clash].path) == Some(marker)
    requires forall i :: 0 <= i < |files| ==> resolve(files[i].path).Some?
    requires var image := Image(Site(marker, resolve, _ => None), files);
             marker in image ==> image[marker] != digest
    ensures site.marker == marker && site.resolve == resolve && site.archive(digest) == Some(files)
    ensures forall d :: site.archive(d).Some? ==> d == digest || d == m.sha256
    ensures Listing(site, [run]) && Complete(site, History(site, [run]), m)
    ensures site.archive(m.sha256).Some?
    ensures Readable(site.archive(m.sha256).value) && Usable(site.archive(m.sha256).value, m)
    ensures !Cached(site, History(site, [run]), site.archive(m.sha256).value)
  {
    var plain := Site(marker, resolve, _ => None);
    var image := Image(plain, files);
    ImageHolds(plain, files, clash);
    ImageHolds(plain, files, index);
    var home := resolve("index.html").value;
    var text := image[marker];
    assert |{marker, home}| <= |image.Keys| by { SubsetSize({marker, home}, image.Keys); }
    var other := Small(image[home] + "x", |image| - 1);
    SmallReadable(image[home] + "x", |image| - 1);
    var catalog := (d: Content) => if d == digest then Some(files) else if d == text then Some(other) else None;
    site := Site(marker, resolve, catalog);
    run := Run(Manifest(digest, |files|), true, [], |files| + 1, |files|);
    m := Manifest(text, |other|);
    ImageResolves(plain, site, files);
    KilledBeforeMarker(site, run, files);
    assert other[0].path == "index.html" && other[0].bytes != image[home];
  }

  /** On this site, the completeness test is right after every history of runs, for every
      manifest with the real number of files. */
  ghost predicate AlwaysRight(site: Site) {
    forall runs, m :: Listing(site, runs) && Complete(site, History(site, runs), m) ==>
      && site.archive(m.sha256).Some?
      && (m.fileCount == |site.archive(m.sha256).value| ==>
            Cached(site, History(site, runs), site.archive(m.sha256).value))
  }

  /** The archives that the digests name, each of them readable. */
  ghost predicate Catalog(archive: Content -> Option<seq<File>>) {
    forall d :: archive(d).Some? ==> Readable(archive(d).value)
  }

  /** Whatever archives there are, the test is right, exactly when no path that an archive
      may have resolves to the marker. */
  lemma MarkerDecided(marker: Url, resolve: string -> Option<Url>)
    requires resolve("index.html").Some? && resolve("index.html") != Some(marker)
    ensures (forall archive :: Catalog(archive) ==> AlwaysRight(Site(marker, resolve, archive))) <==>
            forall path :: Tar.SafePath(path) ==> resolve(path) != Some(marker)
  {
    if forall path :: Tar.SafePath(path) ==> resolve(path) != Some(marker) {
      forall archive | Catalog(archive) ensures AlwaysRight(Site(marker, resolve, archive)) {
        FreeCatalogRight(Site(marker, resolve, archive));
      }
    } else {
      var path :| Tar.SafePath(path) && resolve(path) == Some(marker);
      var archive := ClashingCatalog(marker, resolve, path);
    }
  }

  lemma FreeCatalogRight(site: Site)
    requires Catalog(site.archive)
    requires forall path :: Tar.SafePath(path) ==> site.resolve(path) != Some(site.marker)
    ensures AlwaysRight(site)
  {
    assert NoMarkerFile(site);
    forall runs, m | Listing(site, runs) && Complete(site, History(site, runs), m)
      ensures site.archive(m.sha256).Some?
      ensures m.fileCount == |site.archive(m.sha256).value| ==>
              Cached(site, History(site, runs), site.archive(m.sha256).value)
    {
      NeverFalselyComplete(site, runs, m);
    }
  }

  lemma ClashingCatalog(marker: Url, resolve: string -> Option<Url>, path: string)
    returns (archive: Content -> Option<seq<File>>)
    requires resolve("index.html").Some? && resolve("index.html") != Some(marker)
    requires Tar.SafePath(path) && resolve(path) == Some(marker)
    ensures Catalog(archive) && !AlwaysRight(Site(marker, resolve, archive))
  {
    var files := [File("index.html", "home"), File(path, "text")];
    TwoFiles(marker, resolve, path);
    hide Readable, Image, Usable, Complete, Cached, Listing, History;
    var site, run, m := MarkerFileBreaks(marker, resolve, "digest", files, 0, 1);
    archive := site.archive;
    assert site == Site(marker, resolve, archive);
    assert m.fileCount == |archive(m.sha256).value| by { UsableCount(archive(m.sha256).value, m); }
  }

  /** uiCacheCompletionURL. */
  const MARKER_NAME := ".archive-complete"

  /** The address of a plain relative path: it is put behind the base address. */
  function Behind(base: Url): string -> Option<Url> {
    path => Some(base + path)
  }

  /** The marker's own name is a path that the reader accepts; so for wherever the marker is
      there are archives for which the test is wrong. */
  lemma OwnMarkerClashes(base: Url) returns (archive: Content -> Option<seq<File>>)
    ensures Tar.SafePath(MARKER_NAME) && Behind(base)(MARKER_NAME) == Some(base + MARKER_NAME)
    ensures Catalog(archive) && !AlwaysRight(Site(base + MARKER_NAME, Behind(base), archive))
  {
    Tar.OneNameSafe(MARKER_NAME);
    assert |base + "index.html"| != |base + MARKER_NAME|;
    archive := ClashingCatalog(base + MARKER_NAME, Behind(base), MARKER_NAME);
  }

  lemma UsableCount(files: seq<File>, m: Manifest)
    requires Usable(files, m)
    ensures |files| == m.fileCount
  {}

  lemma TwoFiles(marker: Url, resolve: string -> Option<Url>, path: string)
    requires resolve("index.html").Some? && resolve("index.html") != Some(marker)
    requires Tar.SafePath(path) && resolve(path) == Some(marker)
    ensures var files := [File("index.html", "home"), File(path, "text")];
            && Readable(files)
            && marker in Image(Site(marker, resolve, _ => None), files)
            && Image(Site(marker, resolve, _ => None), files)[marker] != "digest"
  {
    hide Tar.SafePath;
    var home, clash := File("index.html", "home"), File(path, "text");
    SmallReadable("home", 1);
    assert Tar.SafePath(Small("home", 1)[0].path);
    assert Readable([home, clash]);
    ImageOfTwo(Site(marker, resolve, _ => None), home, clash);
  }

  lemma ImageOfTwo(site: Site, first: File, second: File)
    requires site.resolve(first.path).Some? && site.resolve(second.path).Some?
    ensures Image(site, [first, second]) == map[][site.resolve(first.path).value := first.bytes][
            site.resolve(second.path).value := second.bytes]
  {
    var files := [first, second];
    assert files[..1] == [first] && [first][..0] == [];
    assert Image(site, [first]) == map[][site.resolve(first.path).value := first.bytes];
  }

  lemma KilledBeforeMarker(site: Site, run: Run, files: seq<File>)
    requires run.order == [] && run.downloaded && site.archive(run.manifest.sha256) == Some(files)
    requires Resolvable(site, files) && Usable(files, run.manifest)
    requires run.failAt == |files| + 1 && run.killAt == |files|
    ensures Listing(site, [run]) && History(site, [run]) == Image(site, files)
  {
    hide Usable;
    assert [run][..0] == [];
    assert History(site, [run]) == After(site, map[], run);
    PutsPrefix(site, files);
    var puts, normal := Puts(site, files), Normal(site, run, files);
    assert |puts| == |files|;
    assert Deletes(run.order) == [];
    assert Ops(site, map[], run) == normal;
    assert Take(normal, |files|) == Deletes(run.order) + puts[..|files|];
    PutsImage(site, map[], run.order, files, |files|);
    assert files[..|files|] == files;
  }

  // ------------------------------------------------------------ the run in place

  /** The operations carried out when the page stops, or one throws and the caller drops
      the cache. */
  function Interrupted(normal: seq<Op>, run: Run): seq<Op> {
    Take(if run.failAt < |normal| then normal[..run.failAt] + [Drop] else normal, run.killAt)
  }

  /** The cache storage that a page edits. */
  class CacheStorage {
    var entries: Entries

    constructor ()
      ensures entries == map[]
    {
      entries := map[];
    }

    /** One awaited cache operation, the `done`-th of this run: it takes place, or the page
        is gone before it, or it throws. */
    method Perform(run: Run, op: Op, done: nat, ghost before: Entries, ghost normal: seq<Op>) returns (goes: bool)
      requires done < |normal| && normal[done] == op && done <= run.killAt && done <= run.failAt
      requires entries == ApplyAll(before, normal[..done])
      modifies this
      ensures goes ==> done < run.killAt && done < run.failAt && entries == ApplyAll(before, normal[..done + 1])
      ensures !goes ==> entries == ApplyAll(before, Interrupted(normal, run))
    {
      hide ApplyAll;
      if done == run.killAt {
        assert Interrupted(normal, run) == normal[..done];
        return false;
      }
      if done == run.failAt {
        ApplyAppend(before, normal[..done], Drop);
        assert Interrupted(normal, run) == normal[..done] + [Drop];
        entries := map[];
        return false;
      }
      assert normal[..done + 1] == normal[..done] + [op];
      ApplyAppend(before, normal[..done], op);
      entries := Apply(entries, op);
      goes := true;
    }

    /** prepareUIArchive and openRelease up to the marker: the entries are those of After,
        whichever operation throws or is the last. */
    method Prepare(site: Site, run: Run)
      modifies this
      ensures entries == After(site, old(entries), run)
    {
      hide ApplyAll, Usable, Complete, Normal, Interrupted;
      ghost var before := entries;
      ApplyNone(entries);
      if Complete(site, entries, run.manifest) || run.killAt == 0 {
        return;
      }
      var archive := site.archive(run.manifest.sha256);
      if !run.downloaded || archive.None? || !Usable(archive.value, run.manifest) {
        ApplyOne(before, Drop);
        assert Take(Ops(site, before, run), run.killAt) == [Drop];
        entries := map[];
        return;
      }
      InterruptedAfter(site, before, run, archive.value);
      Populate(site, run, archive.value);
    }

    /** populateArchiveCache: every old key is deleted, every file is put, and only then the
        marker. */
    method Populate(site: Site, run: Run, files: seq<File>)
      modifies this
      ensures entries == ApplyAll(old(entries), Interrupted(Normal(site, run, files), run))
    {
      hide ApplyAll, Interrupted;
      ghost var before, normal := entries, Normal(site, run, files);
      var done := 0;
      ApplyNone(entries);
      assert normal[..0] == [];
      while done < |run.order|
        invariant 0 <= done <= |run.order| && done <= run.killAt && done <= run.failAt
        invariant entries == ApplyAll(before, normal[..done])
      {
        var goes := Perform(run, Delete(run.order[done]), done, before, normal);
        if !goes {
          return;
        }
        done := done + 1;
      }
      PutsPrefix(site, files);
      var index := 0;
      while index < |files|
        invariant 0 <= index <= |files| && index <= |Puts(site, files)|
        invariant done == |run.order| + index && done <= run.killAt && done <= run.failAt
        invariant entries == ApplyAll(before, normal[..done])
      {
        var url := site.resolve(files[index].path);
        if url.None? {
          break;
        }
        var goes := Perform(run, Put(url.value, files[index].bytes), done, before, normal);
        if !goes {
          return;
        }
        index := index + 1;
        done := done + 1;
      }
      var last := if index == |files| then Put(site.marker, run.manifest.sha256) else Drop;
      var goes := Perform(run, last, done, before, normal);
      if goes {
        FinishedAll(normal, run, done + 1);
      }
    }
  }

  lemma FinishedAll(normal: seq<Op>, run: Run, done: nat)
    requires done == |normal| && done <= run.killAt && done <= run.failAt
    ensures Interrupted(normal, run) == normal[..done]
  {}

  lemma InterruptedAfter(site: Site, before: Entries, run: Run, files: seq<File>)
    requires !Complete(site, before, run.manifest) && run.downloaded
    requires site.archive(run.manifest.sha256) == Some(files) && Usable(files, run.manifest)
    ensures After(site, before, run) == ApplyAll(before, Interrupted(Normal(site, run, files), run))
  {
    hide Complete, Usable, Normal, ApplyAll;
  }

  lemma ApplyNone(entries: Entries)
    ensures ApplyAll(entries, []) == entries
  {}

  lemma ApplyOne(entries: Entries, op: Op)
    ensures ApplyAll(entries, [op]) == Apply(entries, op)
  {
    assert [op][..0] == [];
  }

  // ---------------------------------------------------------------- the download

  function Joined(chunks: seq<string>): string {
    if chunks == [] then "" else Joined(chunks[..|chunks| - 1]) + chunks[|chunks| - 1]
  }

  /** downloadArchive: the stream is accepted exactly when it has the declared size, and
      is then returned whole; no more than that is ever kept. */
  method DownloadArchive(stream: seq<string>, expectedBytes: nat) returns (result: Option<string>, kept: seq<string>)
    ensures result == if |Joined(stream)| == expectedBytes then Some(Joined(stream)) else None
    ensures |Joined(kept)| <= expectedBytes && kept <= stream
  {
    kept := [];
    var loaded := 0;
    for i := 0 to |stream|
      invariant kept == stream[..i] && loaded == |Joined(kept)| <= expectedBytes
    {
      JoinedGrows(stream, i + 1);
      assert stream[..i + 1][..i] == stream[..i];
      loaded := loaded + |stream[i]|;
      if loaded > expectedBytes {
        return None, kept;
      }
      kept := kept + [stream[i]];
    }
    assert kept == stream;
    result := if loaded != expectedBytes then None else Some(Joined(kept));
  }

  lemma {:induction false} JoinedGrows(stream: seq<string>, k: nat)
    requires k <= |stream|
    ensures |Joined(stream[..k])| <= |Joined(stream)|
    decreases |stream| - k
  {
    if k == |stream| {
      assert stream[..k] == stream;
    } else {
      assert stream[..k + 1][..k] == stream[..k];
      JoinedGrows(stream, k + 1);
    }
  }
}
