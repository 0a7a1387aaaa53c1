/** Reading a ustar archive, and that this undoes writing one.

    The writer follows the "ustar Interchange Format" of POSIX.1 (pax). Header bytes that
    the reader does not look at (mode, owner, times, link name) are arbitrary. */
module Tar {
  import opened Wrappers
  import opened Utf8
  import GoText

  const BLOCK: nat := 512

  datatype Error =
    | Checksum
    | InvalidText
    | InvalidNumber
    | NumberTooLarge
    | NotUstar
    | TruncatedBody
    | InvalidPath
    | UnsupportedEntry
    | MissingEnd

  /** A file of the archive: its body is archive[start..start + size]. */
  datatype File = File(path: string, start: nat, size: nat)

  // --------------------------------------------------------------- text fields

  function CutAtZero(b: seq<byte>): (r: seq<byte>)
    ensures r <= b && |r| <= |b|
  {
    if b == [] || b[0] == 0 then [] else [b[0]] + CutAtZero(b[1..])
  }

  const BOM: char := '\U{FEFF}'

  predicate Marked(s: string) {
    s != "" && s[0] == BOM
  }

  /** A text without its leading byte order mark. */
  function Unmark(s: string): string {
    if Marked(s) then s[1..] else s
  }

  /** A fatal TextDecoder, which drops a leading byte order mark. */
  function ReadText(b: seq<byte>): Result<string, Error> {
    match Decode(CutAtZero(b))
    case None => Err(InvalidText)
    case Some(text) => Ok(Unmark(text))
  }

  /** White space as String.prototype.trim removes it. */
  predicate TrimSpace(c: char) {
    var v := c as int;
    || 9 <= v <= 13 || v == 0x20 || v == 0xA0 || v == 0x1680 || 0x2000 <= v <= 0x200A
    || v == 0x2028 || v == 0x2029 || v == 0x202F || v == 0x205F || v == 0x3000 || v == 0xFEFF
  }

  function TrimLeft(s: string): string {
    if s != [] && TrimSpace(s[0]) then TrimLeft(s[1..]) else s
  }

  function TrimRight(s: string): string {
    if s != [] && TrimSpace(s[|s| - 1]) then TrimRight(s[..|s| - 1]) else s
  }

  predicate OctalDigits(s: string) {
    s != [] && forall i :: 0 <= i < |s| ==> '0' <= s[i] <= '7'
  }

  function OctalValue(s: string): nat
    requires forall i :: 0 <= i < |s| ==> '0' <= s[i] <= '7'
  {
    if s == [] then 0 else OctalValue(s[..|s| - 1]) * 8 + (s[|s| - 1] as int - '0' as int)
  }

  const MAX_SAFE_INTEGER: nat := 0x1F_FFFF_FFFF_FFFF

  function ReadOctal(b: seq<byte>): Result<nat, Error> {
    match ReadText(b)
    case Err(e) => Err(e)
    case Ok(text) =>
      var digits := TrimRight(TrimLeft(text));
      if !OctalDigits(digits) then Err(InvalidNumber)
      else if OctalValue(digits) > MAX_SAFE_INTEGER then Err(NumberTooLarge)
      else Ok(OctalValue(digits))
  }

  // -------------------------------------------------------------------- headers

  /** The sum of the header from index i on, the checksum field counted as blanks. */
  function SumFrom(header: seq<byte>, i: nat): (sum: nat)
    requires |header| == BLOCK && i <= BLOCK
    ensures sum <= 255 * (BLOCK - i)
    decreases BLOCK - i
  {
    if i == BLOCK then 0 else (if 148 <= i < 156 then 32 else header[i]) + SumFrom(header, i + 1)
  }

  datatype Header = Header(path: string, size: nat, kind: byte)

  function JoinPath(prefix: string, name: string): string {
    var joined := if prefix != "" then prefix + "/" + name else name;
    if "./" <= joined then joined[2..] else joined
  }

  function ParseHeader(header: seq<byte>): Result<Header, Error>
    requires |header| == BLOCK
  {
    match ReadOctal(header[148..156])
    case Err(e) => Err(e)
    case Ok(checksum) =>
      if checksum != SumFrom(header, 0) then Err(Checksum) else
      match ReadText(header[257..263])
      case Err(e) => Err(e)
      case Ok(magic) =>
        if magic != "ustar" then Err(NotUstar) else
        match (ReadText(header[345..500]), ReadText(header[0..100]))
        case (Ok(prefix), Ok(name)) =>
          (match ReadOctal(header[124..136])
           case Err(e) => Err(e)
           case Ok(size) => Ok(Header(JoinPath(prefix, name), size, header[156])))
        case _ => Err(InvalidText)
  }

  function Padded(size: nat): (r: nat)
    ensures size <= r && r % BLOCK == 0 && r < size + BLOCK
  {
    (size + BLOCK - 1) / BLOCK * BLOCK
  }

  /** No empty, "." or ".." part and no character that a URL reads as something else. */
  predicate SafePath(path: string) {
    && path != ""
    && (forall part :: part in GoText.Split(path, '/') ==> part != "" && part != "." && part != "..")
    && (forall i :: 0 <= i < |path| ==> path[i] !in "\\%?#")
  }

  lemma OneNameSafe(name: string)
    requires '/' !in name && name !in ["", ".", ".."]
    requires forall i :: 0 <= i < |name| ==> name[i] !in "\\%?#"
    ensures SafePath(name)
  {
    GoText.SplitNone(name, '/');
  }

  predicate AllZero(b: seq<byte>) {
    forall i :: 0 <= i < |b| ==> b[i] == 0
  }

  predicate Listed(path: string, files: seq<File>) {
    exists i :: 0 <= i < |files| && files[i].path == path
  }

  const REGULAR: byte := 48
  const OLD_REGULAR: byte := 0
  const DIRECTORY: byte := 53

  /** What the loop returns when it reaches `offset` with `files` already read. */
  function ReadFrom(archive: seq<byte>, offset: nat, files: seq<File>): Result<seq<File>, Error>
    decreases |archive| - offset
  {
    if offset + BLOCK > |archive| then Err(MissingEnd)
    else
      var header := archive[offset..offset + BLOCK];
      if AllZero(header) then Ok(files)
      else
        match ParseHeader(header)
        case Err(e) => Err(e)
        case Ok(Header(path, size, kind)) =>
          var body := offset + BLOCK;
          var next := body + Padded(size);
          if next > |archive| then Err(TruncatedBody)
          else if kind == OLD_REGULAR || kind == REGULAR then
            if !SafePath(path) || Listed(path, files) then Err(InvalidPath)
            else ReadFrom(archive, next, files + [File(path, body, size)])
          else if kind == DIRECTORY then ReadFrom(archive, next, files)
          else Err(UnsupportedEntry)
  }

  function Read(archive: seq<byte>): Result<seq<File>, Error> {
    ReadFrom(archive, 0, [])
  }

  /** readTarFiles, with its moving offset and its set of paths. */
  method ReadTarFiles(archive: seq<byte>) returns (result: Result<seq<File>, Error>)
    ensures result == Read(archive)
  {
    hide ParseHeader, SafePath, AllZero;
    var files: seq<File> := [];
    var paths: set<string> := {};
    var offset := 0;
    while offset + BLOCK <= |archive|
      invariant ReadFrom(archive, offset, files) == Read(archive)
      invariant forall path :: path in paths <==> Listed(path, files)
      decreases |archive| - offset
    {
      var header := archive[offset..offset + BLOCK];
      if AllZero(header) {
        return Ok(files);
      }
      var parsed := ParseHeader(header);
      if parsed.Err? {
        return Err(parsed.error);
      }
      var Header(path, size, kind) := parsed.value;
      var next := offset + BLOCK + Padded(size);
      if next > |archive| {
        return Err(TruncatedBody);
      }
      if kind == OLD_REGULAR || kind == REGULAR {
        if !SafePath(path) || path in paths {
          return Err(InvalidPath);
        }
        ListedAppend(files, File(path, offset + BLOCK, size));
        paths := paths + {path};
        files := files + [File(path, offset + BLOCK, size)];
      } else if kind != DIRECTORY {
        return Err(UnsupportedEntry);
      }
      offset := next;
    }
    result := Err(MissingEnd);
  }

  lemma ListedAppend(files: seq<File>, f: File)
    ensures forall path :: Listed(path, files + [f]) <==> Listed(path, files) || path == f.path
  {
    var all := files + [f];
    forall path ensures Listed(path, all) <==> Listed(path, files) || path == f.path {
      if Listed(path, files) {
        var i :| 0 <= i < |files| && files[i].path == path;
        assert all[i].path == path;
      }
      if path == f.path { assert all[|files|].path == path; }
    }
  }

  // ------------------------------------------------------------ what is accepted

  /** Bodies in bounds, in order and disjoint; paths safe and distinct. */
  ghost predicate WellRead(files: seq<File>, bound: nat) {
    && (forall i :: 0 <= i < |files| ==>
          BLOCK <= files[i].start && files[i].start + files[i].size <= bound && SafePath(files[i].path))
    && (forall i, j :: 0 <= i < j < |files| ==>
          files[i].start + files[i].size <= files[j].start && files[i].path != files[j].path)
  }

  lemma {:induction false} ReadFromWell(archive: seq<byte>, offset: nat, files: seq<File>)
    requires offset <= |archive| && WellRead(files, offset)
    ensures var r := ReadFrom(archive, offset, files); r.Ok? ==> WellRead(r.value, |archive|)
    decreases |archive| - offset
  {
    hide ParseHeader, SafePath, AllZero;
    if offset + BLOCK <= |archive| && !AllZero(archive[offset..offset + BLOCK]) {
      var parsed := ParseHeader(archive[offset..offset + BLOCK]);
      if parsed.Ok? {
        var Header(path, size, kind) := parsed.value;
        var next := offset + BLOCK + Padded(size);
        if next <= |archive| {
          if (kind == OLD_REGULAR || kind == REGULAR) && SafePath(path) && !Listed(path, files) {
            assert forall i :: 0 <= i < |files| ==> files[i].path != path;
            ReadFromWell(archive, next, files + [File(path, offset + BLOCK, size)]);
          } else if kind == DIRECTORY {
            ReadFromWell(archive, next, files);
          }
        }
      }
    }
  }

  /** Every accepted archive, whoever wrote it. */
  lemma AcceptedIsSafe(archive: seq<byte>)
    requires Read(archive).Ok?
    ensures WellRead(Read(archive).value, |archive|)
  {
    ReadFromWell(archive, 0, []);
  }

  // ------------------------------------------------------------------ the writer

  /** An entry as the writer is given it: the path split over two fields, the type byte,
      and `other` for the header bytes that do not matter here. */
  datatype Entry = Entry(prefix: string, name: string, kind: byte, body: seq<byte>, other: seq<byte>)

  const MAX_BODY: nat := 0x2_0000_0000

  /** Fits a header. */
  predicate TextFits(s: string, length: nat) {
    |Encode(s)| <= length && forall i :: 0 <= i < |s| ==> s[i] != '\0'
  }

  predicate Writable(e: Entry) {
    && TextFits(e.name, 100) && TextFits(e.prefix, 155)
    && (e.kind == REGULAR || e.kind == OLD_REGULAR || e.kind == DIRECTORY)
    && |e.body| < MAX_BODY && |e.other| == BLOCK
  }

  function PathOf(e: Entry): string {
    JoinPath(e.prefix, e.name)
  }

  /** The entry whose fields are those that the reader sees. */
  function Seen(e: Entry): Entry {
    e.(prefix := Unmark(e.prefix), name := Unmark(e.name))
  }

  function Zeros(n: nat): (r: seq<byte>)
    ensures |r| == n && AllZero(r)
  {
    seq(n, _ => 0)
  }

  function Field(b: seq<byte>, length: nat): (r: seq<byte>)
    requires |b| <= length
    ensures |r| == length
  {
    b + Zeros(length - |b|)
  }

  function Octal(v: nat, digits: nat): (r: seq<byte>)
    ensures |r| == digits
    ensures forall i :: 0 <= i < digits ==> 0x30 <= r[i] <= 0x37
  {
    if digits == 0 then [] else Octal(v / 8, digits - 1) + [0x30 + v % 8]
  }

  const MAGIC: seq<byte> := [0x75, 0x73, 0x74, 0x61, 0x72, 0]

  function SizeField(e: Entry): (r: seq<byte>)
    ensures |r| == 12
  {
    Octal(|e.body|, 11) + [0]
  }

  function UnsummedByte(e: Entry, i: nat): byte
    requires Writable(e) && i < BLOCK
  {
    if i < 100 then Field(Encode(e.name), 100)[i]
    else if 124 <= i < 136 then SizeField(e)[i - 124]
    else if i == 156 then e.kind
    else if 257 <= i < 263 then MAGIC[i - 257]
    else if 345 <= i < 500 then Field(Encode(e.prefix), 155)[i - 345]
    else e.other[i]
  }

  /** The header before its checksum is known. */
  function Unsummed(e: Entry): (h: seq<byte>)
    requires Writable(e)
    ensures |h| == BLOCK
  {
    seq(BLOCK, i requires 0 <= i < BLOCK => UnsummedByte(e, i))
  }

  function HeaderOf(e: Entry): (h: seq<byte>)
    requires Writable(e)
    ensures |h| == BLOCK
  {
    var sum: seq<byte> := Octal(SumFrom(Unsummed(e), 0), 6) + [0, 32];
    seq(BLOCK, i requires 0 <= i < BLOCK => if 148 <= i < 156 then sum[i - 148] else Unsummed(e)[i])
  }

  function Block(e: Entry): (b: seq<byte>)
    requires Writable(e)
    ensures |b| == BLOCK + Padded(|e.body|)
  {
    HeaderOf(e) + Field(e.body, Padded(|e.body|))
  }

  function Blocks(es: seq<Entry>): seq<byte>
    requires forall i :: 0 <= i < |es| ==> Writable(es[i])
  {
    if es == [] then [] else Block(es[0]) + Blocks(es[1..])
  }

  /** The archive: the entries and two zero blocks. */
  function Archive(es: seq<Entry>): seq<byte>
    requires forall i :: 0 <= i < |es| ==> Writable(es[i])
  {
    Blocks(es) + Zeros(2 * BLOCK)
  }

  // ------------------------------------------------------------- the round trip

  lemma {:induction false} CutField(b: seq<byte>, n: nat)
    requires forall i :: 0 <= i < |b| ==> b[i] != 0
    ensures CutAtZero(b + Zeros(n)) == b
  {
    if b == [] {
      assert b + Zeros(n) == Zeros(n);
    } else {
      CutField(b[1..], n);
      assert (b + Zeros(n))[1..] == b[1..] + Zeros(n);
    }
  }

  lemma {:induction false} EncodeWithoutZero(s: string)
    requires forall i :: 0 <= i < |s| ==> s[i] != '\0'
    ensures forall i :: 0 <= i < |Encode(s)| ==> Encode(s)[i] != 0
  {
    if s != [] {
      EncodeWithoutZero(s[1..]);
    }
  }

  lemma TextRead(s: string, length: nat)
    requires TextFits(s, length)
    ensures ReadText(Field(Encode(s), length)) == Ok(Unmark(s))
  {
    EncodeWithoutZero(s);
    CutField(Encode(s), length - |Encode(s)|);
    DecodeEncoded(s);
  }

  /** The digits of v as text. */
  function OctalText(v: nat, digits: nat): (r: string)
    ensures |r| == digits
    ensures forall i :: 0 <= i < digits ==> '0' <= r[i] <= '7' && r[i] as int == Octal(v, digits)[i]
  {
    if digits == 0 then [] else OctalText(v / 8, digits - 1) + [(0x30 + v % 8) as char]
  }

  function Power8(k: nat): nat {
    if k == 0 then 1 else 8 * Power8(k - 1)
  }

  lemma {:induction false} OctalTextValue(v: nat, digits: nat)
    requires v < Power8(digits)
    ensures OctalValue(OctalText(v, digits)) == v
  {
    if digits > 0 {
      OctalTextValue(v / 8, digits - 1);
      var s := OctalText(v, digits);
      assert s[..digits - 1] == OctalText(v / 8, digits - 1);
    }
  }

  lemma EncodeOctal(v: nat, digits: nat)
    ensures Encode(OctalText(v, digits)) == Octal(v, digits)
  {
    EncodeAscii(OctalText(v, digits));
  }

  /** A numeric field is read back: the digits end at its first NUL. */
  lemma OctalRead(v: nat, digits: nat, rest: seq<byte>)
    requires 0 < digits && v < Power8(digits) && v <= MAX_SAFE_INTEGER
    ensures ReadOctal(Octal(v, digits) + [0] + rest) == Ok(v)
  {
    hide Octal, OctalText, OctalValue, Decode, Encode, CutAtZero, TrimLeft, TrimRight;
    var b, text := Octal(v, digits), OctalText(v, digits);
    CutBefore(b, rest);
    EncodeOctal(v, digits);
    DecodeEncoded(text);
    OctalTextValue(v, digits);
    assert ReadText(b + [0] + rest) == Ok(text);
    DigitsTrimmed(text);
  }

  lemma DigitsTrimmed(text: string)
    requires OctalDigits(text)
    ensures TrimRight(TrimLeft(text)) == text
  {}

  lemma {:induction false} CutBefore(b: seq<byte>, rest: seq<byte>)
    requires forall i :: 0 <= i < |b| ==> b[i] != 0
    ensures CutAtZero(b + [0] + rest) == b
  {
    if b != [] {
      CutBefore(b[1..], rest);
      assert (b + [0] + rest)[1..] == b[1..] + [0] + rest;
    }
  }

  lemma {:induction false} SumIgnoresChecksum(h: seq<byte>, g: seq<byte>, i: nat)
    requires |h| == |g| == BLOCK && i <= BLOCK
    requires forall j :: 0 <= j < BLOCK && !(148 <= j < 156) ==> h[j] == g[j]
    ensures SumFrom(h, i) == SumFrom(g, i)
    decreases BLOCK - i
  {
    if i < BLOCK {
      SumIgnoresChecksum(h, g, i + 1);
    }
  }

  lemma HeaderFields(e: Entry)
    requires Writable(e)
    ensures var h := HeaderOf(e);
            && h[0..100] == Field(Encode(e.name), 100)
            && h[124..136] == SizeField(e)
            && h[148..156] == Octal(SumFrom(Unsummed(e), 0), 6) + [0, 32]
            && h[156] == e.kind
            && h[257..263] == MAGIC
            && h[345..500] == Field(Encode(e.prefix), 155)
  {
    hide Field, Octal, Encode, SumFrom;
  }

  lemma MagicRead()
    ensures ReadText(MAGIC) == Ok("ustar")
  {
    var b := MAGIC[..5];
    assert MAGIC == b + [0] + [];
    CutBefore(b, []);
    EncodeAscii("ustar");
    assert b == Encode("ustar");
    DecodeEncoded("ustar");
  }

  /** The reader finds in a header what the writer put there, but for leading marks. */
  lemma HeaderRead(e: Entry)
    requires Writable(e)
    ensures ParseHeader(HeaderOf(e)) == Ok(Header(PathOf(Seen(e)), |e.body|, e.kind))
    ensures !AllZero(HeaderOf(e))
  {
    hide ReadText, ReadOctal, SumFrom, Octal, Field, Encode, Writable, TextFits, Unsummed;
    var h, sum := HeaderOf(e), SumFrom(Unsummed(e), 0);
    HeaderFields(e);
    SumIgnoresChecksum(h, Unsummed(e), 0);
    Powers();
    assert Octal(sum, 6) + [0, 32] == Octal(sum, 6) + [0] + [32];
    assert SizeField(e) == Octal(|e.body|, 11) + [0] + [];
    OctalRead(sum, 6, [32]);
    WritableParts(e);
    OctalRead(|e.body|, 11, []);
    MagicRead();
    TextRead(e.name, 100);
    TextRead(e.prefix, 155);
    assert h[257] == h[257..263][0] == MAGIC[0];
  }

  lemma WritableParts(e: Entry)
    requires Writable(e)
    ensures TextFits(e.name, 100) && TextFits(e.prefix, 155) && |e.body| < MAX_BODY
  {}

  lemma Powers()
    ensures Power8(6) == 0x40000 && Power8(11) == MAX_BODY
  {
    assert Power8(6) == 8 * 8 * 8 * Power8(3);
    assert Power8(11) == 8 * 8 * 8 * 8 * 8 * Power8(6);
  }

  function Files(es: seq<Entry>): (r: seq<Entry>)
    ensures forall i :: 0 <= i < |r| ==> r[i] in es && r[i].kind != DIRECTORY
  {
    if es == [] then []
    else if es[0].kind == DIRECTORY then Files(es[1..])
    else [es[0]] + Files(es[1..])
  }

  /** The files that the reader sees. */
  function FilesSeen(es: seq<Entry>): (r: seq<Entry>)
    ensures |r| == |Files(es)| && forall i :: 0 <= i < |r| ==> r[i] == Seen(Files(es)[i])
  {
    if es == [] then []
    else if es[0].kind == DIRECTORY then FilesSeen(es[1..])
    else [Seen(es[0])] + FilesSeen(es[1..])
  }

  /** The files found are those entries, in order, with their paths and bodies. */
  ghost predicate Found(archive: seq<byte>, files: seq<File>, es: seq<Entry>) {
    && |files| == |es|
    && forall i :: 0 <= i < |files| ==>
         && files[i].path == PathOf(es[i])
         && files[i].start + files[i].size <= |archive|
         && archive[files[i].start..files[i].start + files[i].size] == es[i].body
  }

  ghost predicate AllWritable(es: seq<Entry>) {
    forall i :: 0 <= i < |es| ==> Writable(es[i])
  }

  /** Safe, and each path once among the entries and the files already read. */
  ghost predicate Fresh(es: seq<Entry>, files: seq<File>) {
    && (forall i :: 0 <= i < |es| ==> SafePath(PathOf(es[i])) && !Listed(PathOf(es[i]), files))
    && (forall i, j :: 0 <= i < j < |es| ==> PathOf(es[i]) != PathOf(es[j]))
  }

  lemma FoundAppend(archive: seq<byte>, files: seq<File>, es: seq<Entry>, f: File, e: Entry)
    requires Found(archive, files, es) && Found(archive, [f], [e])
    ensures Found(archive, files + [f], es + [e])
  {
    var all, ds := files + [f], es + [e];
    forall i | 0 <= i < |all|
      ensures all[i].path == PathOf(ds[i]) && all[i].start + all[i].size <= |archive|
      ensures archive[all[i].start..all[i].start + all[i].size] == ds[i].body
    {
      if i < |files| {
        assert all[i] == files[i] && ds[i] == es[i];
      } else {
        assert all[i] == [f][0] && ds[i] == [e][0];
      }
    }
  }

  /** One block read at its place in the archive. */
  lemma BlockRead(archive: seq<byte>, offset: nat, e: Entry, tail: seq<byte>)
    requires Writable(e) && offset <= |archive| && archive[offset..] == Block(e) + tail
    ensures offset + BLOCK + Padded(|e.body|) <= |archive|
    ensures archive[offset..offset + BLOCK] == HeaderOf(e)
    ensures archive[offset + BLOCK..offset + BLOCK + |e.body|] == e.body
    ensures archive[offset + BLOCK + Padded(|e.body|)..] == tail
  {
    hide HeaderOf, Writable, Padded;
    var rest := archive[offset..];
    var n := Padded(|e.body|);
    assert rest == HeaderOf(e) + (e.body + (Zeros(n - |e.body|) + tail));
    assert archive[offset..offset + BLOCK] == rest[..BLOCK];
    assert archive[offset + BLOCK..offset + BLOCK + |e.body|] == rest[BLOCK..BLOCK + |e.body|];
    assert archive[offset + BLOCK + n..] == rest[BLOCK + n..];
  }

  lemma ReadStep(archive: seq<byte>, offset: nat, e: Entry, files: seq<File>)
    requires Writable(e) && offset + BLOCK + Padded(|e.body|) <= |archive|
    requires archive[offset..offset + BLOCK] == HeaderOf(e)
    ensures var path, next := PathOf(Seen(e)), offset + BLOCK + Padded(|e.body|);
            ReadFrom(archive, offset, files) ==
            if e.kind == DIRECTORY then ReadFrom(archive, next, files)
            else if !SafePath(path) || Listed(path, files) then Err(InvalidPath)
            else ReadFrom(archive, next, files + [File(path, offset + BLOCK, |e.body|)])
  {
    hide ParseHeader, SafePath, AllZero, HeaderOf, PathOf, Listed, Padded, Seen;
    HeaderRead(e);
  }

  /** The blocks are read exactly when the paths seen are safe and distinct, and then give
      the files seen. */
  lemma {:induction false} BlocksRead(
    archive: seq<byte>, offset: nat, es: seq<Entry>, rest: seq<byte>, files: seq<File>, read: seq<Entry>)
    requires AllWritable(es) && offset <= |archive|
    requires archive[offset..] == Blocks(es) + (Zeros(2 * BLOCK) + rest)
    requires Found(archive, files, read)
    ensures ReadFrom(archive, offset, files).Ok? <==> Fresh(FilesSeen(es), files)
    ensures ReadFrom(archive, offset, files).Ok? ==>
            Found(archive, ReadFrom(archive, offset, files).value, read + FilesSeen(es))
    decreases |es|
  {
    hide Writable, SafePath, HeaderOf, Found, Block, Fresh, Listed, ReadFrom, PathOf, Padded, Seen;
    var end := Zeros(2 * BLOCK) + rest;
    if es == [] {
      assert archive[offset..] == end;
      ReadEnd(archive, offset, rest, files);
      NothingFresh(files);
      assert read + FilesSeen(es) == read;
    } else {
      var e := es[0];
      var tail := Blocks(es[1..]) + end;
      assert archive[offset..] == Block(e) + tail;
      BlockRead(archive, offset, e, tail);
      ReadStep(archive, offset, e, files);
      var next := offset + BLOCK + Padded(|e.body|);
      var later := es[1..];
      SeenFirst(es);
      hide FilesSeen, Files, Blocks, Zeros;
      if e.kind == DIRECTORY {
        BlocksRead(archive, next, later, rest, files, read);
      } else {
        var f, seen := File(PathOf(Seen(e)), offset + BLOCK, |e.body|), Seen(e);
        FreshNext(seen, FilesSeen(later), files, f);
        if SafePath(f.path) && !Listed(f.path, files) {
          SeenBody(e);
          OneFound(archive, f, seen);
          FoundAppend(archive, files, read, f, seen);
          BlocksRead(archive, next, later, rest, files + [f], read + [seen]);
          Associative(read, [seen], FilesSeen(later));
        }
      }
    }
  }

  lemma SeenFirst(es: seq<Entry>)
    requires es != []
    ensures FilesSeen(es) == (if es[0].kind == DIRECTORY then [] else [Seen(es[0])]) + FilesSeen(es[1..])
  {}

  lemma NothingFresh(files: seq<File>)
    ensures Fresh([], files)
  {}

  lemma SeenBody(e: Entry)
    ensures Seen(e).body == e.body
  {}

  lemma OneFound(archive: seq<byte>, f: File, e: Entry)
    requires f.path == PathOf(e) && f.start + f.size <= |archive| && archive[f.start..f.start + f.size] == e.body
    ensures Found(archive, [f], [e])
  {}

  lemma ZeroBlock(archive: seq<byte>, offset: nat, rest: seq<byte>)
    requires offset <= |archive| && archive[offset..] == Zeros(2 * BLOCK) + rest
    ensures offset + BLOCK <= |archive| && AllZero(archive[offset..offset + BLOCK])
  {
    var tail := archive[offset..];
    assert archive[offset..offset + BLOCK] == tail[..BLOCK];
  }

  lemma ReadEnd(archive: seq<byte>, offset: nat, rest: seq<byte>, files: seq<File>)
    requires offset <= |archive| && archive[offset..] == Zeros(2 * BLOCK) + rest
    ensures ReadFrom(archive, offset, files) == Ok(files)
  {
    ZeroBlock(archive, offset, rest);
  }

  lemma FreshNext(e: Entry, later: seq<Entry>, files: seq<File>, f: File)
    requires f.path == PathOf(e)
    ensures Fresh([e] + later, files) <==>
            SafePath(f.path) && !Listed(f.path, files) && Fresh(later, files + [f])
  {
    hide SafePath, Listed, PathOf;
    var now := [e] + later;
    assert now[0] == e && forall i :: 0 <= i < |later| ==> later[i] == now[i + 1];
    ListedAppend(files, f);
    if SafePath(f.path) && !Listed(f.path, files) && Fresh(later, files + [f]) {
      forall i | 0 <= i < |now| ensures SafePath(PathOf(now[i])) && !Listed(PathOf(now[i]), files) {
        assert i > 0 ==> now[i] == later[i - 1];
      }
      forall i, j | 0 <= i < j < |now| ensures PathOf(now[i]) != PathOf(now[j]) {
        assert now[j] == later[j - 1] && (i > 0 ==> now[i] == later[i - 1]);
        assert !Listed(PathOf(now[j]), files + [f]);
      }
    }
  }

  /** No field of a regular entry starts with a byte order mark. */
  ghost predicate NoFileMarked(es: seq<Entry>) {
    forall e :: e in Files(es) ==> !Marked(e.name) && !Marked(e.prefix)
  }

  /** A mark that is dropped makes the path shorter. */
  lemma MarkShortens(e: Entry)
    requires Marked(e.name) || Marked(e.prefix)
    ensures |PathOf(Seen(e))| < |PathOf(e)|
  {
    var seen := Seen(e);
    var joined := if e.prefix != "" then e.prefix + "/" + e.name else e.name;
    if !Marked(e.prefix) && e.prefix != "" {
      var short := e.prefix + "/" + seen.name;
      assert joined[..2] == short[..2] && |short| == |joined| - 1;
    } else {
      assert joined[0] == BOM;
    }
  }

  /** Reading back what the writer produced, whatever follows the end marker: exactly the
      regular files, in order, each with its own path and bytes, if and only if no field of
      a regular entry starts with a byte order mark. A marked directory does no harm. */
  lemma RoundTrip(es: seq<Entry>, rest: seq<byte>)
    requires AllWritable(es) && Fresh(Files(es), [])
    ensures var r := Read(Archive(es) + rest);
            r.Ok? && Found(Archive(es) + rest, r.value, Files(es)) <==> NoFileMarked(es)
  {
    hide Writable, SafePath, Archive, Read, PathOf, Marked, Listed;
    var archive := Archive(es) + rest;
    ArchiveRead(es, rest);
    var fs, seen := Files(es), FilesSeen(es);
    if NoFileMarked(es) {
      forall i | 0 <= i < |fs| ensures seen[i] == fs[i] {
        assert fs[i] in fs;
      }
      assert seen == fs;
    } else if Read(archive).Ok? {
      var e :| e in fs && (Marked(e.name) || Marked(e.prefix));
      var i :| 0 <= i < |fs| && fs[i] == e;
      MarkShortens(e);
      assert PathOf(seen[i]) != PathOf(fs[i]);
    }
  }

  lemma ArchiveRead(es: seq<Entry>, rest: seq<byte>)
    requires AllWritable(es)
    ensures var r := Read(Archive(es) + rest);
            && (r.Ok? <==> Fresh(FilesSeen(es), []))
            && (r.Ok? ==> Found(Archive(es) + rest, r.value, FilesSeen(es)))
  {
    hide Writable, SafePath, PathOf, Listed, ReadFrom, Fresh, Blocks;
    var archive := Archive(es) + rest;
    assert archive[0..] == archive;
    assert archive == Blocks(es) + (Zeros(2 * BLOCK) + rest);
    BlocksRead(archive, 0, es, rest, [], []);
    assert [] + FilesSeen(es) == FilesSeen(es);
  }

  /** An archive whose one file comes back under another name, and one whose marked
      directory is no obstacle. */
  lemma MarkedEntries(rest: seq<byte>) returns (file: Entry, directory: Entry)
    ensures file == Entry("", [BOM, 'a'], REGULAR, [], Zeros(BLOCK))
    ensures directory == Entry("", [BOM, 'a'], DIRECTORY, [], Zeros(BLOCK))
    ensures Writable(file) && Writable(directory) && Fresh(Files([file]), []) && Fresh(Files([directory]), [])
    ensures var r := Read(Archive([file]) + rest);
            r.Ok? && |r.value| == 1 && r.value[0].path == "a" && !Found(Archive([file]) + rest, r.value, [file])
    ensures Read(Archive([directory]) + rest) == Ok([])
  {
    hide Read, Archive, SafePath, Found, Zeros, AllZero;
    file := Entry("", [BOM, 'a'], REGULAR, [], Zeros(BLOCK));
    directory := file.(kind := DIRECTORY);
    MarkedName();
    hide Encode;
    OneEntry(file);
    OneEntry(directory);
    var name := [BOM, 'a'];
    assert name[0] == BOM && name[1..] == "a" && !("./" <= name) && !("./" <= "a");
    assert Unmark(name) == "a" && Unmark("") == "";
    assert Seen(file).name == "a" && Seen(file).prefix == "";
    assert PathOf(file) == name && PathOf(Seen(file)) == "a";
    ArchiveRead([file], rest);
    ArchiveRead([directory], rest);
    RoundTrip([file], rest);
    OnePath(Archive([file]) + rest, Seen(file));
    assert file in Files([file]);
    NoneFound(Archive([directory]) + rest);
  }

  lemma OneEntry(e: Entry)
    ensures Files([e]) == (if e.kind == DIRECTORY then [] else [e])
    ensures FilesSeen([e]) == (if e.kind == DIRECTORY then [] else [Seen(e)])
  {
    assert [e][1..] == [] && Files([]) == [] && FilesSeen([]) == [];
    SeenFirst([e]);
  }

  lemma MarkedName()
    ensures TextFits([BOM, 'a'], 100) && TextFits("", 155)
    ensures SafePath([BOM, 'a']) && SafePath("a")
  {
    hide SafePath;
    EncodeAppend([BOM], 'a');
    EncodeAppend([], BOM);
    assert [BOM] + ['a'] == [BOM, 'a'] && [] + [BOM] == [BOM];
    OneNameSafe("a");
    OneNameSafe([BOM, 'a']);
  }

  lemma OnePath(archive: seq<byte>, e: Entry)
    ensures forall files: seq<File> :: Found(archive, files, [e]) ==> |files| == 1 && files[0].path == PathOf(e)
  {}

  lemma NoneFound(archive: seq<byte>)
    ensures forall files: seq<File> :: Found(archive, files, []) ==> files == []
  {}

  /** Which texts a field gives back: those without NUL and without a leading mark. */
  lemma FieldReadDecided(s: string, length: nat)
    requires |Encode(s)| <= length
    ensures ReadText(Field(Encode(s), length)) == Ok(s) <==> TextFits(s, length) && !Marked(s)
  {
    if TextFits(s, length) {
      TextRead(s, length);
    } else {
      assert exists k :: 0 <= k < |s| && s[k] == '\0' && forall i :: 0 <= i < k ==> s[i] != '\0' by {
        if !exists k :: 0 <= k < |s| && s[k] == '\0' && forall i :: 0 <= i < k ==> s[i] != '\0' {
          NoNul(s);
        }
      }
      var k :| 0 <= k < |s| && s[k] == '\0' && forall i :: 0 <= i < k ==> s[i] != '\0';
      CutAtNul(s, length, k);
    }
  }

  lemma CutAtNul(s: string, length: nat, k: nat)
    requires |Encode(s)| <= length && k < |s| && s[k] == '\0' && forall i :: 0 <= i < k ==> s[i] != '\0'
    ensures CutAtZero(Field(Encode(s), length)) == Encode(s[..k])
    ensures ReadText(Field(Encode(s), length)) != Ok(s)
  {
    hide Encode, Decode, CutAtZero;
    var p, q := s[..k], s[k + 1..];
    EncodeWithoutZero(p);
    assert s == p + (['\0'] + q);
    EncodeConcat(p, ['\0'] + q);
    EncodeConcat(['\0'], q);
    EncodeNul();
    var rest := Encode(q) + Zeros(length - |Encode(s)|);
    assert Field(Encode(s), length) == Encode(p) + [0] + rest;
    CutBefore(Encode(p), rest);
    DecodeEncoded(p);
  }

  lemma EncodeNul()
    ensures Encode(['\0']) == [0]
  {
    EncodeAscii(['\0']);
  }

  lemma {:induction false} NoNul(s: string)
    requires !exists k :: 0 <= k < |s| && s[k] == '\0' && forall i :: 0 <= i < k ==> s[i] != '\0'
    ensures forall i :: 0 <= i < |s| ==> s[i] != '\0'
  {
    var n := 0;
    while n < |s|
      invariant n <= |s| && forall i :: 0 <= i < n ==> s[i] != '\0'
    {
      n := n + 1;
    }
  }
}
