/** An independent ZIP reader, and exactly which archives of the exporter it reads back. */
module Unzip {
  import opened Domain
  import opened Words
  import opened Crc32
  import opened Zip

  const LOCAL_SIGNATURE: nat := 0x0403_4b50
  const CENTRAL_SIGNATURE: nat := 0x0201_4b50
  const END_SIGNATURE: nat := 0x0605_4b50

  /** The little-endian number in `width` bytes at `p`. */
  function NumberAt(b: Bytes, p: nat, width: nat): (n: nat)
    requires p + width <= |b|
    ensures n < Pow256(width)
    decreases width, p
  {
    if width == 0 then 0
    else
      var low: nat := b[p];
      low + 256 * NumberAt(b, p + 1, width - 1)
  }

  function U16At(b: Bytes, p: nat): (n: nat)
    requires p + 2 <= |b|
    ensures n < U16
  {
    assert Pow256(2) == U16;
    NumberAt(b, p, 2)
  }

  function U32At(b: Bytes, p: nat): (n: u32)
    requires p + 4 <= |b|
  {
    assert Pow256(4) == U32;
    NumberAt(b, p, 4)
  }

  /** The end record: the last position whose comment length reaches exactly to the end of the file. */
  function FindEnd(b: Bytes, p: nat): (r: Option<nat>)
    requires p + END_RECORD <= |b|
    ensures r.Some? ==> r.value + END_RECORD <= |b|
  {
    if U32At(b, p) == END_SIGNATURE && p + END_RECORD + U16At(b, p + 20) == |b| then Some(p)
    else if p == 0 then None
    else FindEnd(b, p - 1)
  }

  /** What a local or a central header says about a file. */
  datatype Header = Header(version: nat, flags: nat, compression: nat, crc: u32, packed: u32, size: u32, nameLength: nat, skip: nat)

  function ParseLocal(b: Bytes, at: nat): Option<Header> {
    if at + LOCAL_HEADER > |b| || U32At(b, at) != LOCAL_SIGNATURE then None
    else Some(Header(U16At(b, at + 4), U16At(b, at + 6), U16At(b, at + 8), U32At(b, at + 14), U32At(b, at + 18),
                     U32At(b, at + 22), U16At(b, at + 26), U16At(b, at + 28)))
  }

  /** A central header, and the position of the local record it names. */
  function ParseCentral(b: Bytes, at: nat): Option<(Header, u32)> {
    if at + CENTRAL_HEADER > |b| || U32At(b, at) != CENTRAL_SIGNATURE then None
    else Some((Header(U16At(b, at + 6), U16At(b, at + 8), U16At(b, at + 10), U32At(b, at + 16), U32At(b, at + 20),
                      U32At(b, at + 24), U16At(b, at + 28), U16At(b, at + 30) + U16At(b, at + 32)), U32At(b, at + 42)))
  }

  /** The name and the data behind the header at `at`, which ends at `start`. */
  function Body(b: Bytes, start: nat, h: Header): Option<(Bytes, Bytes)> {
    var nameEnd := start + h.nameLength;
    var dataStart := nameEnd + h.skip;
    if dataStart + h.size > |b| then None else Some((b[start..nameEnd], b[dataStart..dataStart + h.size]))
  }

  /** The data of a file stored at `at`, if the local header agrees with the central one and the checksum is right. */
  function ReadLocal(b: Bytes, at: nat, name: Bytes, c: Header): Option<Bytes> {
    match ParseLocal(b, at)
    case None => None
    case Some(h) =>
      if h != c.(skip := h.skip) then None
      else
        match Body(b, at + LOCAL_HEADER, h)
        case None => None
        case Some(body) => if body.0 != name || Crc(body.1) != c.crc then None else Some(body.1)
  }

  /** The entry behind a central header at `at`, and where the next record starts. The reader knows version 2.0 of the
      format, without encryption or any other flagged feature, and stored data. */
  function EntryFrom(b: Bytes, at: nat, h: Header, local: nat): Option<(Entry, nat)> {
    var nameEnd := at + CENTRAL_HEADER + h.nameLength;
    if nameEnd > |b| || h.version > 20 || h.flags != 0 || h.compression != 0 || h.packed != h.size then None
    else
      var name := b[at + CENTRAL_HEADER..nameEnd];
      match ReadLocal(b, local, name, h)
      case None => None
      case Some(data) => Some((Entry(name, data, h.crc), nameEnd + h.skip))
  }

  function ReadEntry(b: Bytes, at: nat): Option<(Entry, nat)> {
    match ParseCentral(b, at)
    case None => None
    case Some((h, local)) => EntryFrom(b, at, h, local)
  }

  function Prepend(e: Entry, rest: Option<seq<Entry>>): Option<seq<Entry>> {
    match rest
    case None => None
    case Some(entries) => Some([e] + entries)
  }

  /** Walks `count` records from `at` with `read`; they must end at `end`. */
  function Walk(read: nat -> Option<(Entry, nat)>, at: nat, count: nat, end: nat): Option<seq<Entry>>
    decreases count
  {
    if count == 0 then
      if at == end then Some([]) else None
    else
      match read(at)
      case None => None
      case Some((e, next)) => Prepend(e, Walk(read, next, count - 1, end))
  }

  function EntryReader(b: Bytes): nat -> Option<(Entry, nat)> {
    (p: nat) => ReadEntry(b, p)
  }

  function ReadCentral(b: Bytes, at: nat, count: nat, end: nat): Option<seq<Entry>> {
    Walk(EntryReader(b), at, count, end)
  }

  /** What the end record says: disk numbers, entry counts, size and offset of the central directory. */
  datatype Ending = Ending(disk: nat, startDisk: nat, here: nat, total: nat, size: u32, offset: u32)

  function ParseEnd(b: Bytes, end: nat): Ending
    requires end + END_RECORD <= |b|
  {
    Ending(U16At(b, end + 4), U16At(b, end + 6), U16At(b, end + 8), U16At(b, end + 10), U32At(b, end + 12), U32At(b, end + 16))
  }

  /** A single-disk directory that ends where the end record starts. */
  function ReadDirectory(b: Bytes, end: nat, e: Ending): Option<seq<Entry>> {
    if e.disk != 0 || e.startDisk != 0 || e.here != e.total || e.offset + e.size != end then None
    else ReadCentral(b, e.offset, e.total, end)
  }

  /** Reads an archive from its end record. */
  function Unzip(b: Bytes): Option<seq<Entry>> {
    if |b| < END_RECORD then None
    else
      match FindEnd(b, |b| - END_RECORD)
      case None => None
      case Some(end) => ReadDirectory(b, end, ParseEnd(b, end))
  }

  // ----- fields of the records -----

  /** Record `r` stands in `b` at `p`. */
  ghost predicate StandsAt(b: Bytes, p: nat, r: Bytes) {
    p + |r| <= |b| && b[p..p + |r|] == r
  }

  lemma Peel(b: Bytes, p: nat, x: Bytes, y: Bytes)
    requires StandsAt(b, p, x + y)
    ensures StandsAt(b, p, x) && StandsAt(b, p + |x|, y)
  {
    var s := b[p..p + |x + y|];
    assert (x + y)[..|x|] == x && (x + y)[|x|..] == y;
    assert s[..|x|] == b[p..p + |x|];
    assert s[|x|..] == b[p + |x|..p + |x| + |y|];
  }

  lemma {:induction false} FieldValue(b: Bytes, p: nat, n: nat, width: nat)
    requires StandsAt(b, p, Le(n, width)) && n < Pow256(width)
    ensures NumberAt(b, p, width) == n
    decreases width
  {
    if width == 0 {
    } else {
      Peel(b, p, [n % 256], Le(n / 256, width - 1));
      assert b[p..p + 1][0] == b[p];
      FieldValue(b, p + 1, n / 256, width - 1);
    }
  }

  lemma Field16(b: Bytes, p: nat, n: nat)
    requires StandsAt(b, p, Le16(n))
    ensures U16At(b, p) == n % U16
  {
    Le16OfCast(n);
    assert Pow256(2) == U16;
    FieldValue(b, p, n % U16, 2);
  }

  lemma Field32(b: Bytes, p: nat, n: nat)
    requires StandsAt(b, p, Le32(n))
    ensures U32At(b, p) == n % U32
  {
    Le32OfCast(n);
    assert Pow256(4) == U32;
    FieldValue(b, p, n % U32, 4);
  }

  lemma ByteStandsAt(b: Bytes, p: nat, r: Bytes, i: nat)
    requires StandsAt(b, p, r) && i < |r|
    ensures b[p + i] == r[i]
  {
    assert b[p..p + |r|][i] == b[p + i];
  }

  /** The number written by the bytes of `r` from `i` on. */
  lemma Constant16(b: Bytes, p: nat, r: Bytes, i: nat)
    requires StandsAt(b, p, r) && i + 2 <= |r|
    ensures U16At(b, p + i) == r[i] as nat + 256 * (r[i + 1] as nat)
  {
    ByteStandsAt(b, p, r, i);
    ByteStandsAt(b, p, r, i + 1);
    assert NumberAt(b, p + i + 1, 1) == b[p + i + 1];
  }

  lemma Constant32(b: Bytes, p: nat, r: Bytes, i: nat)
    requires StandsAt(b, p, r) && i + 4 <= |r|
    ensures U32At(b, p + i) == r[i] as nat + 256 * (r[i + 1] as nat + 256 * (r[i + 2] as nat + 256 * (r[i + 3] as nat)))
  {
    ByteStandsAt(b, p, r, i);
    ByteStandsAt(b, p, r, i + 1);
    ByteStandsAt(b, p, r, i + 2);
    ByteStandsAt(b, p, r, i + 3);
    assert NumberAt(b, p + i + 3, 1) == b[p + i + 3];
    assert NumberAt(b, p + i + 2, 2) == b[p + i + 2] + 256 * NumberAt(b, p + i + 3, 1);
    assert NumberAt(b, p + i + 1, 3) == b[p + i + 1] + 256 * NumberAt(b, p + i + 2, 2);
  }

  lemma PeelFour(b: Bytes, p: nat, w: Bytes, x: Bytes, y: Bytes, z: Bytes)
    requires StandsAt(b, p, w + x + y + z)
    ensures StandsAt(b, p, w) && StandsAt(b, p + |w|, x)
    ensures StandsAt(b, p + |w| + |x|, y) && StandsAt(b, p + |w| + |x| + |y|, z)
  {
    Peel(b, p, w + x + y, z);
    Peel(b, p, w + x, y);
    Peel(b, p, w, x);
  }

  lemma DescriptionFields(b: Bytes, p: nat, crc: u32, size: nat, nameLength: nat)
    requires StandsAt(b, p, Description(crc, size, nameLength))
    ensures U32At(b, p) == crc
    ensures U32At(b, p + 4) == U32At(b, p + 8) == size % U32
    ensures U16At(b, p + 12) == nameLength % U16
  {
    PeelFour(b, p, Le32(crc), Le32(size), Le32(size), Le16(nameLength));
    Field32(b, p, crc);
    Field32(b, p + 4, size);
    Field32(b, p + 8, size);
    Field16(b, p + 12, nameLength);
  }

  lemma LocalHeaderFields(b: Bytes, p: nat, crc: u32, size: nat, nameLength: nat)
    requires StandsAt(b, p, LocalHeader(crc, size, nameLength))
    ensures U32At(b, p) == LOCAL_SIGNATURE
    ensures U16At(b, p + 4) == 20 && U16At(b, p + 6) == 0 && U16At(b, p + 8) == 0
    ensures U16At(b, p + 10) == 0 && U16At(b, p + 12) == 0
    ensures U32At(b, p + 14) == crc
    ensures U32At(b, p + 18) == U32At(b, p + 22) == size % U32
    ensures U16At(b, p + 26) == nameLength % U16 && U16At(b, p + 28) == 0
  {
    Peel(b, p, LOCAL_START + Description(crc, size, nameLength), Le16(0));
    Peel(b, p, LOCAL_START, Description(crc, size, nameLength));
    Constant32(b, p, LOCAL_START, 0);
    Constant16(b, p, LOCAL_START, 4);
    Constant16(b, p, LOCAL_START, 6);
    Constant16(b, p, LOCAL_START, 8);
    Constant16(b, p, LOCAL_START, 10);
    Constant16(b, p, LOCAL_START, 12);
    DescriptionFields(b, p + 14, crc, size, nameLength);
    Field16(b, p + 28, 0);
  }

  lemma CentralParts(b: Bytes, p: nat, crc: u32, size: nat, nameLength: nat, offset: nat)
    requires StandsAt(b, p, CentralHeader(crc, size, nameLength, offset))
    ensures StandsAt(b, p, CENTRAL_START) && StandsAt(b, p + 16, Description(crc, size, nameLength))
    ensures StandsAt(b, p + 30, CENTRAL_ZEROS) && StandsAt(b, p + 42, Le32(offset))
  {
    Peel(b, p, CENTRAL_START + Description(crc, size, nameLength) + CENTRAL_ZEROS, Le32(offset));
    Peel(b, p, CENTRAL_START + Description(crc, size, nameLength), CENTRAL_ZEROS);
    Peel(b, p, CENTRAL_START, Description(crc, size, nameLength));
  }

  lemma CentralStartFields(b: Bytes, p: nat)
    requires StandsAt(b, p, CENTRAL_START)
    ensures U32At(b, p) == CENTRAL_SIGNATURE
    ensures U16At(b, p + 4) == U16At(b, p + 6) == 20 && U16At(b, p + 8) == U16At(b, p + 10) == 0
    ensures U16At(b, p + 12) == 0 && U16At(b, p + 14) == 0
  {
    Constant32(b, p, CENTRAL_START, 0);
    Constant16(b, p, CENTRAL_START, 4);
    Constant16(b, p, CENTRAL_START, 6);
    Constant16(b, p, CENTRAL_START, 8);
    Constant16(b, p, CENTRAL_START, 10);
    Constant16(b, p, CENTRAL_START, 12);
    Constant16(b, p, CENTRAL_START, 14);
  }

  lemma CentralZeroFields(b: Bytes, p: nat)
    requires StandsAt(b, p, CENTRAL_ZEROS)
    ensures U16At(b, p) == U16At(b, p + 2) == U16At(b, p + 4) == U16At(b, p + 6) == 0 && U32At(b, p + 8) == 0
  {
    Constant16(b, p, CENTRAL_ZEROS, 0);
    Constant16(b, p, CENTRAL_ZEROS, 2);
    Constant16(b, p, CENTRAL_ZEROS, 4);
    Constant16(b, p, CENTRAL_ZEROS, 6);
    Constant32(b, p, CENTRAL_ZEROS, 8);
  }

  lemma CentralHeaderFields(b: Bytes, p: nat, crc: u32, size: nat, nameLength: nat, offset: nat)
    requires StandsAt(b, p, CentralHeader(crc, size, nameLength, offset))
    ensures U32At(b, p) == CENTRAL_SIGNATURE
    ensures U16At(b, p + 4) == U16At(b, p + 6) == 20 && U16At(b, p + 8) == U16At(b, p + 10) == 0
    ensures U16At(b, p + 12) == 0 && U16At(b, p + 14) == 0
    ensures U32At(b, p + 16) == crc
    ensures U32At(b, p + 20) == U32At(b, p + 24) == size % U32
    ensures U16At(b, p + 28) == nameLength % U16 && U16At(b, p + 30) == U16At(b, p + 32) == 0
    ensures U16At(b, p + 34) == U16At(b, p + 36) == 0 && U32At(b, p + 38) == 0
    ensures U32At(b, p + 42) == offset % U32
  {
    CentralParts(b, p, crc, size, nameLength, offset);
    CentralStartFields(b, p);
    DescriptionFields(b, p + 16, crc, size, nameLength);
    CentralZeroFields(b, p + 30);
    Field32(b, p + 42, offset);
  }

  lemma EndRecordFields(b: Bytes, p: nat, count: nat, size: nat, offset: nat)
    requires StandsAt(b, p, EndRecord(count, size, offset))
    ensures U32At(b, p) == END_SIGNATURE && U16At(b, p + 4) == U16At(b, p + 6) == 0
    ensures U16At(b, p + 8) == U16At(b, p + 10) == count % U16
    ensures U32At(b, p + 12) == size % U32 && U32At(b, p + 16) == offset % U32 && U16At(b, p + 20) == 0
  {
    var h1: Bytes := [0x50, 0x4b, 0x05, 0x06];
    var h2 := h1 + Le16(0);
    var h3 := h2 + Le16(0);
    var h4 := h3 + Le16(count);
    var h5 := h4 + Le16(count);
    var h6 := h5 + Le32(size);
    var h7 := h6 + Le32(offset);
    Peel(b, p, h7, Le16(0));
    Peel(b, p, h6, Le32(offset));
    Peel(b, p, h5, Le32(size));
    Peel(b, p, h4, Le16(count));
    Peel(b, p, h3, Le16(count));
    Peel(b, p, h2, Le16(0));
    Peel(b, p, h1, Le16(0));
    Constant32(b, p, h1, 0);
    Field16(b, p + 4, 0);
    Field16(b, p + 6, 0);
    Field16(b, p + 8, count);
    Field16(b, p + 10, count);
    Field32(b, p + 12, size);
    Field32(b, p + 16, offset);
    Field16(b, p + 20, 0);
  }

  // ----- the round trip -----

  function LocalsSize(files: seq<File>): nat {
    if files == [] then 0
    else
      var f := files[|files| - 1];
      LocalsSize(files[..|files| - 1]) + LOCAL_HEADER + |f.name| + |f.data|
  }

  function CentralsSize(files: seq<File>): nat {
    if files == [] then 0 else CentralsSize(files[..|files| - 1]) + CENTRAL_HEADER + |files[|files| - 1].name|
  }

  /** Counts, names and sizes are within the widths of the archive's fields. */
  predicate Fits(files: seq<File>) {
    && |files| < U16
    && (forall i :: 0 <= i < |files| ==> |files[i].name| < U16)
    && LocalsSize(files) < U32
    && CentralsSize(files) < U32
  }

  lemma {:induction false} LocalSizes(files: seq<File>, i: nat)
    requires i <= |files|
    ensures |Concat(LocalRecords(Entries(files))[..i])| == LocalsSize(files[..i])
  {
    if i == 0 {
    } else {
      LocalSizes(files, i - 1);
      ConcatStep(LocalRecords(Entries(files)), i - 1);
      assert files[..i][..i - 1] == files[..i - 1];
    }
  }

  lemma {:induction false} CentralSizes(files: seq<File>, i: nat)
    requires i <= |files|
    ensures |Concat(CentralRecords(Entries(files))[..i])| == CentralsSize(files[..i])
  {
    if i == 0 {
    } else {
      CentralSizes(files, i - 1);
      ConcatStep(CentralRecords(Entries(files)), i - 1);
      assert files[..i][..i - 1] == files[..i - 1];
    }
  }

  lemma TotalSizes(files: seq<File>)
    ensures |Locals(Entries(files))| == LocalsSize(files)
    ensures |Centrals(Entries(files))| == CentralsSize(files)
  {
    var n, locals, centrals := |files|, LocalRecords(Entries(files)), CentralRecords(Entries(files));
    LocalSizes(files, n);
    CentralSizes(files, n);
    assert files[..n] == files && locals[..n] == locals && centrals[..n] == centrals;
  }

  lemma NotTruncated(m: nat, n: nat)
    ensures m % U16 == m <==> m < U16
    ensures n % U32 == n <==> n < U32
  {
  }

  lemma LocalParses(b: Bytes, at: nat, e: Entry)
    requires |e.name| < U16 && |e.data| < U32 && StandsAt(b, at, LocalRecord(e))
    ensures ParseLocal(b, at) == Some(Header(20, 0, 0, e.crc, |e.data|, |e.data|, |e.name|, 0))
    ensures StandsAt(b, at + LOCAL_HEADER, e.name) && StandsAt(b, at + LOCAL_HEADER + |e.name|, e.data)
  {
    var h := LocalHeader(e.crc, |e.data|, |e.name|);
    Peel(b, at, h + e.name, e.data);
    Peel(b, at, h, e.name);
    LocalHeaderFields(b, at, e.crc, |e.data|, |e.name|);
    NotTruncated(|e.name|, |e.data|);
  }

  lemma BodyFound(b: Bytes, start: nat, e: Entry, h: Header)
    requires StandsAt(b, start, e.name) && StandsAt(b, start + |e.name|, e.data)
    requires h.nameLength == |e.name| && h.size == |e.data| && h.skip == 0
    ensures Body(b, start, h) == Some((e.name, e.data))
  {
  }

  lemma LocalReads(b: Bytes, at: nat, e: Entry)
    requires |e.name| < U16 && |e.data| < U32 && e.crc == Crc(e.data) && StandsAt(b, at, LocalRecord(e))
    ensures ReadLocal(b, at, e.name, Header(20, 0, 0, e.crc, |e.data|, |e.data|, |e.name|, 0)) == Some(e.data)
  {
    LocalParses(b, at, e);
    BodyFound(b, at + LOCAL_HEADER, e, Header(20, 0, 0, e.crc, |e.data|, |e.data|, |e.name|, 0));
  }

  lemma CentralParses(b: Bytes, at: nat, e: Entry, local: nat)
    requires |e.name| < U16 && |e.data| < U32 && local < U32 && StandsAt(b, at, CentralRecord(e, local))
    ensures ParseCentral(b, at) == Some((Header(20, 0, 0, e.crc, |e.data|, |e.data|, |e.name|, 0), local))
    ensures StandsAt(b, at + CENTRAL_HEADER, e.name)
  {
    Peel(b, at, CentralHeader(e.crc, |e.data|, |e.name|, local), e.name);
    CentralHeaderFields(b, at, e.crc, |e.data|, |e.name|, local);
    NotTruncated(|e.name|, |e.data|);
    NotTruncated(|e.name|, local);
  }

  lemma NameRead(b: Bytes, start: nat, name: Bytes, end: nat)
    requires StandsAt(b, start, name) && end == start + |name|
    ensures end <= |b| && b[start..end] == name
  {
  }

  lemma EntryFound(b: Bytes, at: nat, e: Entry, h: Header, local: nat)
    requires |e.data| < U32 && h == Header(20, 0, 0, e.crc, |e.data|, |e.data|, |e.name|, 0)
    requires StandsAt(b, at + CENTRAL_HEADER, e.name)
    requires ReadLocal(b, local, e.name, h) == Some(e.data)
    ensures EntryFrom(b, at, h, local) == Some((e, at + CENTRAL_HEADER + |e.name|))
  {
    NameRead(b, at + CENTRAL_HEADER, e.name, at + CENTRAL_HEADER + h.nameLength);
  }

  lemma EntryReads(b: Bytes, at: nat, e: Entry, local: nat)
    requires |e.name| < U16 && |e.data| < U32 && local < U32 && e.crc == Crc(e.data)
    requires StandsAt(b, at, CentralRecord(e, local)) && StandsAt(b, local, LocalRecord(e))
    ensures ReadEntry(b, at) == Some((e, at + CENTRAL_HEADER + |e.name|))
  {
    LocalReads(b, local, e);
    CentralParses(b, at, e, local);
    EntryFound(b, at, e, Header(20, 0, 0, e.crc, |e.data|, |e.data|, |e.name|, 0), local);
  }

  lemma {:induction false} ConcatPrefix(parts: seq<Bytes>, i: nat, j: nat)
    requires i <= j <= |parts|
    ensures Concat(parts[..i]) <= Concat(parts[..j])
    decreases j
  {
    if i == j {
    } else {
      ConcatStep(parts, j - 1);
      ConcatPrefix(parts, i, j - 1);
    }
  }

  lemma StandsInside(b: Bytes, before: Bytes, part: Bytes, x: Bytes, r: Bytes)
    requires before + part <= b && x + r <= part
    ensures StandsAt(b, |before| + |x|, r)
  {
    var p := |before|;
    assert b[..p + |part|] == before + part;
    assert part == b[p..p + |part|];
    assert part[..|x| + |r|] == x + r;
    assert b[p + |x|..p + |x| + |r|] == part[|x|..|x| + |r|];
  }

  /** Where part `i` starts in the concatenation of `parts` behind `base` bytes. */
  function PartStart(base: nat, parts: seq<Bytes>, i: nat): nat
    requires i <= |parts|
  {
    base + |Concat(parts[..i])|
  }

  lemma PartInside(parts: seq<Bytes>, i: nat)
    requires i < |parts|
    ensures Concat(parts[..i]) + parts[i] <= Concat(parts)
    ensures Concat(parts[..i + 1]) == Concat(parts[..i]) + parts[i]
  {
    ConcatStep(parts, i);
    ConcatPrefix(parts, i + 1, |parts|);
    assert parts[..|parts|] == parts;
  }

  /** Every part stands where the lengths before it say. */
  lemma PartStands(b: Bytes, before: Bytes, parts: seq<Bytes>, i: nat)
    requires i < |parts| && before + Concat(parts) <= b
    ensures StandsAt(b, PartStart(|before|, parts, i), parts[i])
    ensures PartStart(|before|, parts, i + 1) == PartStart(|before|, parts, i) + |parts[i]|
    ensures PartStart(|before|, parts, i + 1) <= |before| + |Concat(parts)|
  {
    PartInside(parts, i);
    StandsInside(b, before, Concat(parts), Concat(parts[..i]), parts[i]);
  }

  predicate EntriesFit(entries: seq<Entry>) {
    forall i :: 0 <= i < |entries| ==> |entries[i].name| < U16 && entries[i].crc == Crc(entries[i].data)
  }

  /** `read` finds every entry at its start, and the next start behind it. */
  ghost predicate Finds(read: nat -> Option<(Entry, nat)>, starts: seq<nat>, entries: seq<Entry>) {
    && |starts| == |entries| + 1
    && forall i :: 0 <= i < |entries| ==> FindsAt(read, starts[i], starts[i + 1], entries[i])
  }

  predicate FindsAt(read: nat -> Option<(Entry, nat)>, start: nat, next: nat, e: Entry) {
    read(start) == Some((e, start + CENTRAL_HEADER + |e.name|)) && next == start + CENTRAL_HEADER + |e.name|
  }

  lemma {:induction false} WalkFinds(read: nat -> Option<(Entry, nat)>, starts: seq<nat>, entries: seq<Entry>, i: nat)
    requires i <= |entries| && Finds(read, starts, entries)
    ensures Walk(read, starts[i], |entries| - i, starts[|entries|]) == Some(entries[i..])
    decreases |entries| - i
  {
    if i == |entries| {
      assert entries[i..] == [];
    } else {
      WalkFinds(read, starts, entries, i + 1);
      assert entries[i..] == [entries[i]] + entries[i + 1..];
      assert FindsAt(read, starts[i], starts[i + 1], entries[i]);
    }
  }

  lemma EndStands(b: Bytes, body: Bytes, count: nat, size: nat, offset: nat, end: nat)
    requires b == body + EndRecord(count, size, offset) && |body| == end
    ensures |b| == end + END_RECORD && FindEnd(b, end) == Some(end)
    ensures ParseEnd(b, end) == Ending(0, 0, count % U16, count % U16, size % U32, offset % U32)
  {
    assert b[end..end + END_RECORD] == EndRecord(count, size, offset);
    EndRecordFields(b, end, count, size, offset);
  }

  lemma UnzipFrom(b: Bytes, end: nat, e: Ending)
    requires |b| == end + END_RECORD && FindEnd(b, end) == Some(end) && ParseEnd(b, end) == e
    ensures Unzip(b) == ReadDirectory(b, end, e)
  {
  }

  lemma {:induction false} WalkIsBounded(read: nat -> Option<(Entry, nat)>, at: nat, count: nat, end: nat)
    requires forall p: nat :: read(p).Some? ==> |read(p).value.0.name| < U16
    ensures var r := Walk(read, at, count, end);
            r.Some? ==> |r.value| == count && forall i :: 0 <= i < count ==> |r.value[i].name| < U16
    decreases count
  {
    if count == 0 || read(at).None? {
    } else {
      WalkIsBounded(read, read(at).value.1, count - 1, end);
    }
  }

  lemma NamesAreBounded(b: Bytes, p: nat)
    ensures ReadEntry(b, p).Some? ==> |ReadEntry(b, p).value.0.name| < U16
  {
  }

  /** Whatever a reader reports is within the field widths. */
  lemma ReportsAreBounded(b: Bytes, at: nat, count: nat, end: nat)
    ensures var r := ReadCentral(b, at, count, end);
            r.Some? ==> |r.value| == count && forall i :: 0 <= i < count ==> |r.value[i].name| < U16
  {
    var read := EntryReader(b);
    forall p: nat ensures read(p).Some? ==> |read(p).value.0.name| < U16 {
      NamesAreBounded(b, p);
    }
    WalkIsBounded(read, at, count, end);
  }

  /** Both records of entry `i` stand where the walk looks for them. */
  lemma RecordsStand(b: Bytes, entries: seq<Entry>, i: nat)
    requires i < |entries| && Locals(entries) + Centrals(entries) <= b
    ensures StandsAt(b, LocalOffset(entries, i), LocalRecord(entries[i]))
    ensures StandsAt(b, Starts(entries)[i], CentralRecord(entries[i], LocalOffset(entries, i)))
    ensures LocalOffset(entries, i) + |entries[i].data| <= |Locals(entries)|
  {
    PartStands(b, [], LocalRecords(entries), i);
    PartStands(b, Locals(entries), CentralRecords(entries), i);
  }

  lemma NextStart(entries: seq<Entry>, i: nat)
    requires i < |entries|
    ensures Starts(entries)[i + 1] == Starts(entries)[i] + CENTRAL_HEADER + |entries[i].name|
  {
    ConcatStep(CentralRecords(entries), i);
  }

  lemma EntryIsRead(b: Bytes, entries: seq<Entry>, i: nat, e: Entry, at: nat, local: nat)
    requires i < |entries| && Locals(entries) + Centrals(entries) <= b && |Locals(entries)| < U32
    requires e == entries[i] && at == Starts(entries)[i] && local == LocalOffset(entries, i)
    requires |e.name| < U16 && e.crc == Crc(e.data)
    ensures ReadEntry(b, at) == Some((e, at + CENTRAL_HEADER + |e.name|))
  {
    RecordsStand(b, entries, i);
    EntryReads(b, at, e, local);
  }

  /** Where the central records start, and where the last one ends. */
  function Starts(entries: seq<Entry>): (r: seq<nat>)
    ensures |r| == |entries| + 1
  {
    seq(|entries| + 1, i requires 0 <= i <= |entries| => PartStart(|Locals(entries)|, CentralRecords(entries), i))
  }

  lemma StartsEnds(entries: seq<Entry>)
    ensures Starts(entries)[0] == |Locals(entries)|
    ensures Starts(entries)[|entries|] == |Locals(entries)| + |Centrals(entries)|
  {
    var parts := CentralRecords(entries);
    assert parts[..0] == [] && parts[..|entries|] == parts;
  }

  lemma EntryIsFound(b: Bytes, entries: seq<Entry>, read: nat -> Option<(Entry, nat)>, i: nat, e: Entry, at: nat, next: nat)
    requires i < |entries| && Locals(entries) + Centrals(entries) <= b && |Locals(entries)| < U32
    requires e == entries[i] && at == Starts(entries)[i] && next == Starts(entries)[i + 1] && read == EntryReader(b)
    requires |e.name| < U16 && e.crc == Crc(e.data)
    ensures FindsAt(read, at, next, e)
  {
    NextStart(entries, i);
    EntryIsRead(b, entries, i, e, at, LocalOffset(entries, i));
  }

  lemma ReaderFinds(b: Bytes, entries: seq<Entry>, read: nat -> Option<(Entry, nat)>, starts: seq<nat>)
    requires EntriesFit(entries) && |Locals(entries)| < U32 && Locals(entries) + Centrals(entries) <= b
    requires read == EntryReader(b) && starts == Starts(entries)
    ensures Finds(read, starts, entries)
  {
    forall i | 0 <= i < |entries| ensures FindsAt(read, starts[i], starts[i + 1], entries[i]) {
      EntryIsFound(b, entries, read, i, entries[i], starts[i], starts[i + 1]);
    }
  }

  /** The fields at `at` of a local record: version 2.0, and no flag, compression, time, date or extra field. */
  predicate PlainLocal(b: Bytes, at: nat) {
    && at + 30 <= |b|
    && U16At(b, at + 4) == 20
    && U16At(b, at + 6) == 0
    && U16At(b, at + 8) == 0
    && U16At(b, at + 10) == 0
    && U16At(b, at + 12) == 0
    && U16At(b, at + 28) == 0
  }

  /** The same of a central record, and no comment, other disk or attribute. */
  predicate PlainCentral(b: Bytes, at: nat) {
    && at + 46 <= |b|
    && U16At(b, at + 4) == 20
    && U16At(b, at + 6) == 20
    && U16At(b, at + 8) == 0
    && U16At(b, at + 10) == 0
    && U16At(b, at + 12) == 0
    && U16At(b, at + 14) == 0
    && U16At(b, at + 30) == 0
    && U16At(b, at + 32) == 0
    && U16At(b, at + 34) == 0
    && U16At(b, at + 36) == 0
    && U32At(b, at + 38) == 0
  }

  lemma LocalIsPlain(b: Bytes, at: nat, e: Entry)
    requires StandsAt(b, at, LocalRecord(e))
    ensures PlainLocal(b, at)
  {
    var h := LocalHeader(e.crc, |e.data|, |e.name|);
    Peel(b, at, h + e.name, e.data);
    Peel(b, at, h, e.name);
    LocalHeaderFields(b, at, e.crc, |e.data|, |e.name|);
  }

  lemma CentralIsPlain(b: Bytes, at: nat, e: Entry, local: nat)
    requires StandsAt(b, at, CentralRecord(e, local))
    ensures PlainCentral(b, at)
  {
    Peel(b, at, CentralHeader(e.crc, |e.data|, |e.name|, local), e.name);
    CentralHeaderFields(b, at, e.crc, |e.data|, |e.name|, local);
  }

  /** Every record of every archive is plain, whatever the sizes. */
  lemma RecordsArePlain(files: seq<File>, i: nat)
    requires i < |files|
    ensures var b, entries := Archive(Entries(files)), Entries(files);
            PlainLocal(b, LocalOffset(entries, i)) && PlainCentral(b, Starts(entries)[i])
  {
    var b, entries := Archive(Entries(files)), Entries(files);
    RecordsStand(b, entries, i);
    LocalIsPlain(b, LocalOffset(entries, i), entries[i]);
    CentralIsPlain(b, Starts(entries)[i], entries[i], LocalOffset(entries, i));
  }

  lemma DirectoryReads(b: Bytes, entries: seq<Entry>, locals: nat, end: nat)
    requires EntriesFit(entries) && |Locals(entries)| < U32 && Locals(entries) + Centrals(entries) <= b
    requires locals == |Locals(entries)| && end == locals + |Centrals(entries)|
    ensures ReadCentral(b, locals, |entries|, end) == Some(entries)
  {
    var read, starts := EntryReader(b), Starts(entries);
    ReaderFinds(b, entries, read, starts);
    assert starts[0] == locals && starts[|entries|] == end by { StartsEnds(entries); }
    WalkWhole(read, starts, entries, locals, end);
  }

  lemma WalkWhole(read: nat -> Option<(Entry, nat)>, starts: seq<nat>, entries: seq<Entry>, start: nat, end: nat)
    requires Finds(read, starts, entries) && start == starts[0] && end == starts[|entries|]
    ensures Walk(read, start, |entries|, end) == Some(entries)
  {
    WalkFinds(read, starts, entries, 0);
    assert entries[0..] == entries;
  }

  lemma ArchiveReads(b: Bytes, entries: seq<Entry>, locals: nat, end: nat, offset: nat, size: nat, count: nat)
    requires b == Archive(entries) && locals == |Locals(entries)| && end == locals + |Centrals(entries)|
    requires offset == locals % U32 && size == (end - locals) % U32 && count == |entries| % U16
    ensures Unzip(b) == if offset + size != end then None else ReadCentral(b, offset, count, end)
  {
    EndStands(b, Locals(entries) + Centrals(entries), |entries|, end - locals, locals, end);
    UnzipFrom(b, end, Ending(0, 0, count, count, size, offset));
  }

  lemma SumNotTruncated(m: nat, n: nat)
    ensures m % U32 + n % U32 == m + n <==> m < U32 && n < U32
  {
    NotTruncated(0, m);
    NotTruncated(0, n);
    assert m % U32 <= m && n % U32 <= n;
  }

  lemma FittingReads(b: Bytes, entries: seq<Entry>, locals: nat, end: nat)
    requires b == Archive(entries) && locals == |Locals(entries)| && end == locals + |Centrals(entries)|
    requires EntriesFit(entries) && |entries| < U16 && locals < U32 && end - locals < U32
    ensures Unzip(b) == Some(entries)
  {
    NotTruncated(|entries|, locals);
    NotTruncated(|entries|, end - locals);
    ArchiveReads(b, entries, locals, end, locals, end - locals, |entries|);
    DirectoryReads(b, entries, locals, end);
  }

  lemma ReadingFits(b: Bytes, entries: seq<Entry>, locals: nat, end: nat)
    requires b == Archive(entries) && locals == |Locals(entries)| && end == locals + |Centrals(entries)|
    requires Unzip(b) == Some(entries)
    ensures |entries| < U16 && locals < U32 && end - locals < U32
    ensures forall i :: 0 <= i < |entries| ==> |entries[i].name| < U16
  {
    var offset, size, count := locals % U32, (end - locals) % U32, |entries| % U16;
    ArchiveReads(b, entries, locals, end, offset, size, count);
    SumNotTruncated(locals, end - locals);
    ReportsAreBounded(b, offset, count, end);
  }

  /** The archive reads back as the same names, data and checksums, in order, exactly when no field is truncated. */
  lemma ZipRoundTrip(files: seq<File>)
    ensures Unzip(Archive(Entries(files))) == Some(Entries(files)) <==> Fits(files)
  {
    var entries := Entries(files);
    TotalSizes(files);
    if Fits(files) {
      FittingReads(Archive(entries), entries, LocalsSize(files), LocalsSize(files) + CentralsSize(files));
    }
    if Unzip(Archive(entries)) == Some(entries) {
      ReadingFits(Archive(entries), entries, LocalsSize(files), LocalsSize(files) + CentralsSize(files));
      assert forall i :: 0 <= i < |files| ==> |entries[i].name| == |files[i].name|;
    }
  }
}
