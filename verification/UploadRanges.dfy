/** Which bytes of a resumed upload are still to be sent: with the completed ranges, every
    byte of the file exactly once. */
module UploadRanges {
  import opened Wrappers

  // The engine reports completed ranges; ValidRanges checks them and MissingRanges lists the
  // chunks to send. The two together cover every byte exactly once, exactly when the ranges
  // are well placed for that file's size.

  const MAX_RANGES: nat := 65536

  newtype int64 = i: int | -0x8000_0000_0000_0000 <= i < 0x8000_0000_0000_0000

  datatype Range = Range(offset: int, size: int)

  datatype Range64 = Range64(offset: int64, size: int64)

  function Widen(r: Range64): Range {
    Range(r.offset as int, r.size as int)
  }

  function WidenAll(rs: seq<Range64>): (r: seq<Range>)
    ensures |r| == |rs| && forall i :: 0 <= i < |rs| ==> r[i] == Widen(rs[i])
  {
    seq(|rs|, i requires 0 <= i < |rs| => Widen(rs[i]))
  }

  function End(r: Range): int {
    r.offset + r.size
  }

  function Sum(rs: seq<Range>): int {
    if rs == [] then 0 else Sum(rs[..|rs| - 1]) + rs[|rs| - 1].size
  }

  // ---------------------------------------------------------------- validation

  /** r is a run of whole chunks of a file of this size; the last chunk may be short. */
  predicate Placed(r: Range, total: int, chunk: int)
    requires chunk > 0
  {
    && 0 <= r.offset && 0 < r.size && End(r) <= total
    && r.offset % chunk == 0
    && (End(r) == total || End(r) % chunk == 0)
  }

  /** In order, with a gap between neighbours. */
  predicate Apart(rs: seq<Range>) {
    forall i, j :: 0 <= i < j < |rs| ==> End(rs[i]) < rs[j].offset
  }

  predicate WellPlaced(rs: seq<Range>, total: int, chunk: int)
    requires chunk > 0
  {
    Apart(rs) && forall i :: 0 <= i < |rs| ==> Placed(rs[i], total, chunk)
  }

  lemma SumAppend(rs: seq<Range>, r: Range)
    ensures Sum(rs + [r]) == Sum(rs) + r.size
  {
    assert (rs + [r])[..|rs|] == rs;
  }

  /** What is accepted as the completed ranges of an upload of `total` bytes. */
  predicate Acceptable(ranges: seq<Range64>, transferred: int64, total: int64, chunkBytes: int64) {
    && chunkBytes > 0 && |ranges| <= MAX_RANGES && 0 <= transferred <= total
    && WellPlaced(WidenAll(ranges), total as int, chunkBytes as int)
    && Sum(WidenAll(ranges)) == transferred as int
  }

  /** validSFTPUploadRanges. Every sum is an int64, so none of them overflows. */
  method ValidRanges(ranges: seq<Range64>, transferred: int64, total: int64, chunkBytes: int64)
    returns (valid: bool)
    ensures valid <==> Acceptable(ranges, transferred, total, chunkBytes)
  {
    if chunkBytes <= 0 || |ranges| > MAX_RANGES || transferred < 0 || transferred > total {
      return false;
    }
    hide WellPlaced, Placed, Sum;
    ghost var rs := WidenAll(ranges);
    var previousEnd: int64, completed: int64 := 0, 0;
    Nothing(rs, total as int, chunkBytes as int);
    for index := 0 to |ranges|
      invariant WellPlaced(rs[..index], total as int, chunkBytes as int)
      invariant Sum(rs[..index]) == completed as int
      invariant 0 <= completed <= previousEnd <= total
      invariant index > 0 ==> previousEnd as int == End(rs[index - 1])
    {
      var portion := ranges[index];
      PlacedMeans(rs[index], total as int, chunkBytes as int);
      if portion.offset < 0 || portion.size <= 0 || portion.offset % chunkBytes != 0 || portion.offset > total ||
         portion.size > total - portion.offset || (index > 0 && portion.offset <= previousEnd)
      {
        Refuses(rs, index, total as int, chunkBytes as int);
        return false;
      }
      var end := portion.offset + portion.size;
      if end != total && end % chunkBytes != 0 {
        Refuses(rs, index, total as int, chunkBytes as int);
        return false;
      }
      Accepts(rs, index, total as int, chunkBytes as int);
      previousEnd := end;
      completed := completed + portion.size;
    }
    assert rs[..|ranges|] == rs;
    valid := completed == transferred;
  }

  lemma Nothing(rs: seq<Range>, total: int, chunk: int)
    requires chunk > 0
    ensures WellPlaced(rs[..0], total, chunk) && Sum(rs[..0]) == 0
  {}

  lemma PlacedMeans(r: Range, total: int, chunk: int)
    requires chunk > 0
    ensures Placed(r, total, chunk) <==>
            && 0 <= r.offset && 0 < r.size && End(r) <= total
            && r.offset % chunk == 0 && (End(r) == total || End(r) % chunk == 0)
  {}

  lemma Accepts(rs: seq<Range>, i: nat, total: int, chunk: int)
    requires chunk > 0 && i < |rs| && WellPlaced(rs[..i], total, chunk) && Placed(rs[i], total, chunk)
    requires i > 0 ==> End(rs[i - 1]) < rs[i].offset
    ensures WellPlaced(rs[..i + 1], total, chunk)
    ensures Sum(rs[..i + 1]) == Sum(rs[..i]) + rs[i].size
  {
    var before, after := rs[..i], rs[..i + 1];
    assert after == before + [rs[i]];
    SumAppend(before, rs[i]);
    forall j, k | 0 <= j < k < |after| ensures End(after[j]) < after[k].offset {
      if k < i {
        assert after[j] == before[j] && after[k] == before[k];
      } else if j < i - 1 {
        assert End(before[j]) < before[i - 1].offset && Placed(before[i - 1], total, chunk);
      }
    }
  }

  lemma Refuses(rs: seq<Range>, i: nat, total: int, chunk: int)
    requires chunk > 0 && i < |rs|
    requires !Placed(rs[i], total, chunk) || (i > 0 && rs[i].offset <= End(rs[i - 1]))
    ensures !WellPlaced(rs, total, chunk)
  {}

  // ---------------------------------------------------------- the missing chunks

  predicate Inside(offset: int, size: int, r: Range) {
    offset >= r.offset && offset + size <= End(r)
  }

  predicate Covered(offset: int, size: int, rs: seq<Range>) {
    exists i :: 0 <= i < |rs| && Inside(offset, size, rs[i])
  }

  function ChunkSize(offset: int, total: int, chunk: int): int {
    if chunk < total - offset then chunk else total - offset
  }

  function MissingFrom(rs: seq<Range>, total: int, chunk: int, offset: int): seq<Range>
    requires chunk > 0
    decreases total - offset
  {
    if offset >= total then []
    else
      var size := ChunkSize(offset, total, chunk);
      var rest := MissingFrom(rs, total, chunk, offset + chunk);
      if Covered(offset, size, rs) then rest else [Range(offset, size)] + rest
  }

  /** The chunks to send. */
  function Missing(rs: seq<Range>, total: int, chunk: int): seq<Range>
    requires chunk > 0
  {
    MissingFrom(rs, total, chunk, 0)
  }

  /** The end of the last chunk, rounded up: what the loop variable reaches. */
  function RoundedUp(total: int, chunk: int): int
    requires chunk > 0
  {
    if total <= 0 then 0 else (total + chunk - 1) / chunk * chunk
  }

  lemma RoundedUpFrom(offset: int, total: int, chunk: int)
    requires chunk > 0 && 0 <= offset && offset % chunk == 0
    ensures offset < total ==> offset + chunk <= RoundedUp(total, chunk)
    ensures total <= offset && (offset == 0 || offset - chunk < total) ==> RoundedUp(total, chunk) == offset
  {
    var k := offset / chunk;
    assert offset == k * chunk;
    if 0 < total {
      var n := (total + chunk - 1) / chunk;
      QuotientBounds(total + chunk - 1, chunk);
      if n <= k { Multiply(n, k, chunk); } else { Multiply(k + 1, n, chunk); }
      if n < k { Multiply(n + 1, k, chunk); }
    } else if 0 < offset {
      if k >= 1 { Multiply(1, k, chunk); } else { Multiply(k, 0, chunk); }
    }
  }

  lemma QuotientBounds(a: int, chunk: int)
    requires chunk > 0
    ensures a / chunk * chunk <= a < a / chunk * chunk + chunk
  {}

  lemma Multiply(a: int, b: int, c: int)
    requires a <= b && c >= 0
    ensures a * c <= b * c
  {}

  // ------------------------------------------------------------- exactly once

  predicate Holds(r: Range, b: int) {
    r.offset <= b < End(r)
  }

  /** How many of the ranges hold byte b. */
  function Count(rs: seq<Range>, b: int): nat {
    if rs == [] then 0 else (if Holds(rs[0], b) then 1 else 0) + Count(rs[1..], b)
  }

  /** Every byte of the file, and no other, is covered once: by a completed range or by a
      chunk that will be sent. */
  ghost predicate ExactlyOnce(rs: seq<Range>, total: int, chunk: int)
    requires chunk > 0
  {
    forall b :: Count(rs, b) + Count(Missing(rs, total, chunk), b) == if 0 <= b < total then 1 else 0
  }

  predicate Held(rs: seq<Range>, b: int) {
    exists i :: 0 <= i < |rs| && Holds(rs[i], b)
  }

  lemma {:induction false} CountApart(rs: seq<Range>, b: int)
    requires Apart(rs)
    ensures Count(rs, b) == if Held(rs, b) then 1 else 0
  {
    if rs != [] {
      CountApart(rs[1..], b);
      HeldCons(rs, b);
    }
  }

  lemma HeldCons(rs: seq<Range>, b: int)
    requires Apart(rs) && rs != []
    ensures Apart(rs[1..])
    ensures Held(rs, b) <==> Holds(rs[0], b) || Held(rs[1..], b)
    ensures !(Holds(rs[0], b) && Held(rs[1..], b))
  {
    var tail := rs[1..];
    assert forall i :: 0 <= i < |tail| ==> tail[i] == rs[i + 1];
    assert forall i :: 1 <= i < |rs| ==> rs[i] == tail[i - 1];
    if Held(tail, b) {
      var i :| 0 <= i < |tail| && Holds(tail[i], b);
      assert Holds(rs[i + 1], b);
      assert End(rs[0]) < rs[i + 1].offset;
    }
  }

  function Floor(b: int, chunk: int): int
    requires chunk > 0
  {
    b - b % chunk
  }

  /** Whether the chunk that byte b lies in is covered. */
  predicate ChunkCovered(rs: seq<Range>, b: int, total: int, chunk: int)
    requires chunk > 0
  {
    Covered(Floor(b, chunk), ChunkSize(Floor(b, chunk), total, chunk), rs)
  }

  lemma FloorIs(b: int, chunk: int)
    requires chunk > 0
    ensures Floor(b, chunk) == b / chunk * chunk
  {}

  lemma FloorIn(b: int, offset: int, chunk: int)
    requires chunk > 0 && offset % chunk == 0
    ensures offset <= b < offset + chunk <==> Floor(b, chunk) == offset
    ensures offset <= b ==> offset <= Floor(b, chunk)
    ensures b < offset ==> Floor(b, chunk) + chunk <= offset
  {
    var k, q := offset / chunk, b / chunk;
    QuotientBounds(b, chunk);
    FloorIs(b, chunk);
    FloorIs(offset, chunk);
    if q < k { Multiply(q + 1, k, chunk); }
    if k < q { Multiply(k + 1, q, chunk); }
  }

  lemma {:induction false} CountMissing(rs: seq<Range>, total: int, chunk: int, offset: int, b: int)
    requires chunk > 0 && 0 <= offset && offset % chunk == 0
    ensures Count(MissingFrom(rs, total, chunk, offset), b)
            == if offset <= b < total && !ChunkCovered(rs, b, total, chunk) then 1 else 0
    decreases total - offset
  {
    hide Covered;
    if offset < total {
      NextAligned(offset, chunk);
      CountMissing(rs, total, chunk, offset + chunk, b);
      FloorIn(b, offset, chunk);
      var size := ChunkSize(offset, total, chunk);
      var rest := MissingFrom(rs, total, chunk, offset + chunk);
      assert ([Range(offset, size)] + rest)[1..] == rest;
    }
  }

  lemma NextAligned(offset: int, chunk: int)
    requires chunk > 0 && offset % chunk == 0
    ensures (offset + chunk) % chunk == 0
  {
    var k := offset / chunk;
    assert offset + chunk == (k + 1) * chunk;
    Remainder(k + 1, chunk);
  }

  lemma Remainder(k: int, chunk: int)
    requires chunk > 0
    ensures k * chunk % chunk == 0
  {
    var r := k * chunk % chunk;
    var q := k * chunk / chunk;
    assert k * chunk == q * chunk + r && 0 <= r < chunk;
    if q < k { Multiply(q + 1, k, chunk); }
    if k < q { Multiply(k + 1, q, chunk); }
  }

  /** A well-placed range that holds a byte holds the whole chunk of that byte. */
  lemma HeldIsCovered(rs: seq<Range>, total: int, chunk: int, b: int)
    requires chunk > 0 && WellPlaced(rs, total, chunk) && 0 <= b < total
    ensures Held(rs, b) <==> ChunkCovered(rs, b, total, chunk)
  {
    var offset := Floor(b, chunk);
    var size := ChunkSize(offset, total, chunk);
    FloorIn(b, 0, chunk);
    if Held(rs, b) {
      var i :| 0 <= i < |rs| && Holds(rs[i], b);
      FloorIn(b, rs[i].offset, chunk);
      if End(rs[i]) != total {
        FloorIn(b, End(rs[i]), chunk);
      }
      assert Inside(offset, size, rs[i]);
    }
    if Covered(offset, size, rs) {
      var i :| 0 <= i < |rs| && Inside(offset, size, rs[i]);
      assert Holds(rs[i], b);
    }
  }

  /** For ranges accepted for an upload of `uploadTotal` bytes, the bytes of a file of
      `total` bytes are covered exactly once if and only if the ranges are well placed for
      that size too. In particular, they are when the two sizes agree. */
  lemma ExactlyOnceDecided(rs: seq<Range>, uploadTotal: int, total: int, chunk: int)
    requires chunk > 0 && 0 <= total && WellPlaced(rs, uploadTotal, chunk)
    ensures ExactlyOnce(rs, total, chunk) <==> WellPlaced(rs, total, chunk)
  {
    if WellPlaced(rs, total, chunk) {
      forall b ensures Count(rs, b) + Count(Missing(rs, total, chunk), b) == if 0 <= b < total then 1 else 0 {
        CountApart(rs, b);
        CountMissing(rs, total, chunk, 0, b);
        if 0 <= b < total {
          HeldIsCovered(rs, total, chunk, b);
        }
      }
    } else {
      var i :| 0 <= i < |rs| && !Placed(rs[i], total, chunk);
      var b := if End(rs[i]) > total && rs[i].offset < total then total
               else if End(rs[i]) > total then rs[i].offset else End(rs[i]) - 1;
      assert Holds(rs[i], b);
      CountApart(rs, b);
      CountMissing(rs, total, chunk, 0, b);
      if b < total {
        CutChunk(rs, i, total, chunk);
      }
      assert Count(rs, b) + Count(Missing(rs, total, chunk), b) != if 0 <= b < total then 1 else 0;
    }
  }

  /** A range that ends inside a chunk leaves that chunk to be sent again. */
  lemma CutChunk(rs: seq<Range>, i: nat, total: int, chunk: int)
    requires chunk > 0 && Apart(rs) && i < |rs| && 0 <= rs[i].offset && 0 < rs[i].size
    requires End(rs[i]) < total && End(rs[i]) % chunk != 0
    ensures !ChunkCovered(rs, End(rs[i]) - 1, total, chunk)
  {
    var b := End(rs[i]) - 1;
    var offset := Floor(b, chunk);
    var size := ChunkSize(offset, total, chunk);
    var q := b / chunk;
    assert offset == q * chunk;
    Remainder(q, chunk);
    FloorIn(b, offset, chunk);
    if offset + chunk == End(rs[i]) {
      NextAligned(offset, chunk);
      assert false;
    }
    forall j | 0 <= j < |rs| ensures !Inside(offset, size, rs[j]) {
      if i < j { assert End(rs[i]) < rs[j].offset; }
      if j < i { assert End(rs[j]) < rs[i].offset; }
    }
  }

  /** What the reply to an upload request says: the client accepts it, for a file planned with
      `fileSize` bytes, by its own fields and by fileSize, but never compares the two sizes. */
  datatype Reply = Reply(ranges: seq<Range64>, offset: int64, size: int64, chunkBytes: int64)

  predicate ReplyAccepted(reply: Reply, fileSize: int64) {
    && 0 <= reply.offset <= fileSize
    && Acceptable(reply.ranges, reply.offset, reply.size, reply.chunkBytes)
  }

  /** A reply of the size that was asked for has every byte covered once; any accepted reply
      has exactly when its ranges are also well placed for the planned size. */
  lemma ReplyDecided(reply: Reply, fileSize: int64)
    requires ReplyAccepted(reply, fileSize)
    ensures ExactlyOnce(WidenAll(reply.ranges), fileSize as int, reply.chunkBytes as int) <==>
            WellPlaced(WidenAll(reply.ranges), fileSize as int, reply.chunkBytes as int)
    ensures reply.size == fileSize ==> ExactlyOnce(WidenAll(reply.ranges), fileSize as int, reply.chunkBytes as int)
  {
    ExactlyOnceDecided(WidenAll(reply.ranges), reply.size as int, fileSize as int, reply.chunkBytes as int);
  }

  /** A reply of another size than the one asked for can be accepted: byte 2 of 4, which
      this one says is there, would be sent again. */
  lemma OtherSizeSentTwice() returns (reply: Reply)
    ensures reply == Reply([Range64(2, 1)], 1, 3, 2)
    ensures ReplyAccepted(reply, 4) && !ExactlyOnce(WidenAll(reply.ranges), 4, 2)
    ensures Count(WidenAll(reply.ranges), 2) + Count(Missing(WidenAll(reply.ranges), 4, 2), 2) == 2
  {
    hide Count, Missing, MissingFrom, Covered, ChunkCovered, Held, Sum;
    reply := Reply([Range64(2, 1)], 1, 3, 2);
    var rs := WidenAll(reply.ranges);
    assert rs == [Range(2, 1)];
    SumOne(rs);
    CutChunk(rs, 0, 4, 2);
    TwiceAt(rs, 4, 2, 2);
  }

  lemma SumOne(rs: seq<Range>)
    requires |rs| == 1
    ensures Sum(rs) == rs[0].size && Held(rs, rs[0].offset) == (rs[0].size > 0)
  {
    assert rs[..0] == [];
    assert rs[0].size > 0 ==> Holds(rs[0], rs[0].offset);
  }

  /** A byte that is held, of a chunk that is not, is covered twice. */
  lemma TwiceAt(rs: seq<Range>, total: int, chunk: int, b: int)
    requires chunk > 0 && Apart(rs) && 0 <= b < total && Held(rs, b) && !ChunkCovered(rs, b, total, chunk)
    ensures Count(rs, b) + Count(Missing(rs, total, chunk), b) == 2
    ensures !ExactlyOnce(rs, total, chunk)
  {
    CountApart(rs, b);
    CountMissing(rs, total, chunk, 0, b);
  }

  // ---------------------------------------------------------------- the amount

  /** Bytes below n, counted as often as ranges hold them. */
  ghost function Bytes(rs: seq<Range>, n: nat): nat {
    if n == 0 then 0 else Bytes(rs, n - 1) + Count(rs, n - 1)
  }

  function Total(rs: seq<Range>): int {
    if rs == [] then 0 else rs[0].size + Total(rs[1..])
  }

  lemma {:induction false} TotalIsSum(rs: seq<Range>)
    ensures Total(rs) == Sum(rs)
    decreases |rs|
  {
    if |rs| > 1 {
      var first, last := rs[1..], rs[..|rs| - 1];
      TotalIsSum(first);
      TotalIsSum(last);
      TotalIsSum(first[..|first| - 1]);
      assert first[..|first| - 1] == last[1..];
    }
  }

  lemma {:induction false} BytesCons(r: Range, rs: seq<Range>, n: nat)
    requires 0 <= r.offset && 0 <= r.size
    ensures Bytes([r] + rs, n) ==
            Bytes(rs, n) + (if n <= r.offset then 0 else if n < End(r) then n - r.offset else r.size)
    decreases n
  {
    if n > 0 {
      BytesCons(r, rs, n - 1);
      assert ([r] + rs)[1..] == rs;
    }
  }

  lemma {:induction false} BytesNone(n: nat)
    ensures Bytes([], n) == 0
  {
    if n > 0 {
      BytesNone(n - 1);
    }
  }

  lemma {:induction false} BytesTotal(rs: seq<Range>, n: nat)
    requires forall i :: 0 <= i < |rs| ==> 0 <= rs[i].offset && 0 <= rs[i].size && End(rs[i]) <= n
    ensures Bytes(rs, n) == Total(rs)
  {
    if rs == [] {
      BytesNone(n);
    } else {
      assert rs == [rs[0]] + rs[1..];
      BytesCons(rs[0], rs[1..], n);
      BytesTotal(rs[1..], n);
    }
  }

  lemma {:induction false} BytesOnce(rs: seq<Range>, total: nat, chunk: int, n: nat)
    requires chunk > 0 && ExactlyOnce(rs, total, chunk) && n <= total
    ensures Bytes(rs, n) + Bytes(Missing(rs, total, chunk), n) == n
    decreases n
  {
    if n > 0 {
      BytesOnce(rs, total, chunk, n - 1);
      var b := n - 1;
      assert Count(rs, b) + Count(Missing(rs, total, chunk), b) == 1;
    }
  }

  lemma {:induction false} MissingBounds(rs: seq<Range>, total: int, chunk: int, offset: int)
    requires chunk > 0 && 0 <= offset
    ensures forall i :: 0 <= i < |MissingFrom(rs, total, chunk, offset)| ==>
              var r := MissingFrom(rs, total, chunk, offset)[i];
              offset <= r.offset && 0 < r.size <= chunk && End(r) <= total
    decreases total - offset
  {
    hide Covered;
    if offset < total {
      MissingBounds(rs, total, chunk, offset + chunk);
    }
  }

  /** What is sent is exactly what the engine said it still lacks. */
  lemma MissingAmount(rs: seq<Range>, total: nat, chunk: int, transferred: int)
    requires chunk > 0 && WellPlaced(rs, total, chunk) && Sum(rs) == transferred
    ensures Sum(Missing(rs, total, chunk)) == total - transferred
  {
    var missing := Missing(rs, total, chunk);
    ExactlyOnceDecided(rs, total, total, chunk);
    BytesOnce(rs, total, chunk, total);
    MissingBounds(rs, total, chunk, 0);
    BytesTotal(rs, total);
    BytesTotal(missing, total);
    TotalIsSum(rs);
    TotalIsSum(missing);
  }

  // ----------------------------------------------------------------- the loop

  /** The int64 that Go computes where the integer is v. */
  function Wrapped(v: int): (r: int)
    ensures -MAX_INT64 - 1 <= r <= MAX_INT64
    ensures -MAX_INT64 - 1 <= v <= MAX_INT64 <==> r == v
  {
    (v + 0x8000_0000_0000_0000) % 0x1_0000_0000_0000_0000 - 0x8000_0000_0000_0000
  }

  /** The loop of sftpUploadFileRanges, up to the first start that is no sum of int64 values:
      that happens exactly when the file's size, rounded up to chunks, is no int64. Every
      missing chunk has been found by then; the start that follows is negative. */
  method MissingRanges(completed: seq<Range64>, fileSize: int64, chunkBytes: int64)
    returns (ranges: seq<Range>, next: int)
    requires chunkBytes > 0
    ensures ranges == Missing(WidenAll(completed), fileSize as int, chunkBytes as int)
    ensures next == Wrapped(RoundedUp(fileSize as int, chunkBytes as int))
    ensures next < 0 <==> RoundedUp(fileSize as int, chunkBytes as int) > MAX_INT64
  {
    var total, chunk := fileSize as int, chunkBytes as int;
    ghost var rs := WidenAll(completed);
    ranges, next := [], 0;
    RoundedUpFrom(0, total, chunk);
    while next < total
      invariant 0 <= next <= MAX_INT64 && next % chunk == 0
      invariant next == 0 || next - chunk < total
      invariant Missing(rs, total, chunk) == ranges + MissingFrom(rs, total, chunk, next)
      decreases total - next
    {
      var offset := next;
      var size := if chunk < total - offset then chunk else total - offset;
      var covered := false;
      for i := 0 to |completed|
        invariant !covered
        invariant forall j :: 0 <= j < i ==> !Inside(offset, size, rs[j])
      {
        if Inside(offset, size, Widen(completed[i])) {
          assert Inside(offset, size, rs[i]);
          covered := true;
          break;
        }
      }
      assert covered <==> Covered(offset, size, rs);
      if !covered {
        ranges := ranges + [Range(offset, size)];
      }
      RoundedUpFrom(offset, total, chunk);
      NextAligned(offset, chunk);
      next := Wrapped(offset + chunk);
      if next != offset + chunk {
        WrappedStart(offset, total, chunk);
        return;
      }
    }
    RoundedUpFrom(next, total, chunk);
  }

  /** The last start, when it wraps: the end of the file rounded up, minus 2^64. */
  lemma WrappedStart(offset: int, total: int, chunk: int)
    requires 0 <= offset < total <= MAX_INT64 && 0 < chunk <= MAX_INT64 && offset % chunk == 0
    requires Wrapped(offset + chunk) != offset + chunk
    ensures Wrapped(offset + chunk) < 0 && RoundedUp(total, chunk) == offset + chunk
  {
    NextAligned(offset, chunk);
    RoundedUpFrom(offset + chunk, total, chunk);
  }

  /** The loop would then go on: the next range has a negative start and a negative size, is
      covered by no completed range, and so is sent. */
  lemma WrappedRange(rs: seq<Range>, total: int, chunk: int)
    requires 0 < total <= MAX_INT64 && 0 < chunk <= MAX_INT64 && RoundedUp(total, chunk) > MAX_INT64
    requires WellPlaced(rs, total, chunk)
    ensures var start := Wrapped(RoundedUp(total, chunk));
            var size := if chunk < Wrapped(total - start) then chunk else Wrapped(total - start);
            start < 0 && -chunk < size < 0 && !Covered(start, size, rs)
  {
    hide RoundedUp, Wrapped;
    var end := RoundedUp(total, chunk);
    RoundedBounds(total, chunk);
    WrapDown(end);
    WrapDown(total - Wrapped(end));
  }

  /** The largest file there is, in chunks of two bytes: after its last chunk the loop would go
      on with a start of -2^63 and a size of -1. */
  lemma LargestFileWraps()
    ensures RoundedUp(MAX_INT64, 2) == MAX_INT64 + 1
    ensures var start := Wrapped(RoundedUp(MAX_INT64, 2));
            && start == -MAX_INT64 - 1
            && Wrapped(MAX_INT64 - start) == -1
            && !Covered(start, -1, [])
  {
    assert WellPlaced([], MAX_INT64, 2);
    WrappedRange([], MAX_INT64, 2);
  }

  lemma RoundedBounds(total: int, chunk: int)
    requires 0 < total && 0 < chunk
    ensures total <= RoundedUp(total, chunk) < total + chunk
  {
    QuotientBounds(total + chunk - 1, chunk);
  }

  lemma WrapDown(v: int)
    requires MAX_INT64 < v <= 2 * MAX_INT64 + 1
    ensures Wrapped(v) == v - 0x1_0000_0000_0000_0000
  {}
}
