/** The store-only ZIP archive of the Markdown export (PKWARE APPNOTE sections 4.3.7, 4.3.12 and 4.3.16). */
module Zip {
  import opened Domain
  import opened Words
  import opened Crc32

  datatype File = File(name: Bytes, data: Bytes)

  /** A file with its checksum, as both the writer and a reader of the archive hold it. */
  datatype Entry = Entry(name: Bytes, data: Bytes, crc: u32)

  function EntryOf(f: File): Entry {
    Entry(f.name, f.data, Crc(f.data))
  }

  function Entries(files: seq<File>): (r: seq<Entry>)
    ensures |r| == |files|
    ensures forall i :: 0 <= i < |files| ==> r[i] == EntryOf(files[i])
  {
    if files == [] then [] else Entries(files[..|files| - 1]) + [EntryOf(files[|files| - 1])]
  }

  /** The lowest `width` bytes of a number, lowest first: `to_le_bytes` after an `as` cast. */
  function Le(n: nat, width: nat): (b: Bytes)
    ensures |b| == width
    decreases width, n
  {
    if width == 0 then [] else [n % 256] + Le(n / 256, width - 1)
  }

  function Le16(n: nat): (b: Bytes)
    ensures |b| == 2
  {
    Le(n, 2)
  }

  function Le32(n: nat): (b: Bytes)
    ensures |b| == 4
  {
    Le(n, 4)
  }

  const LOCAL_HEADER: nat := 30
  const CENTRAL_HEADER: nat := 46
  const END_RECORD: nat := 22

  /** Signature, version 2.0, no flags, stored, no time stamp. */
  const LOCAL_START: Bytes := [0x50, 0x4b, 0x03, 0x04, 0x14, 0x00, 0x00, 0x00, 0x00, 0x00, 0x00, 0x00, 0x00, 0x00]

  /** Signature, versions, no flags, stored, no time stamp. */
  const CENTRAL_START: Bytes := [0x50, 0x4b, 0x01, 0x02, 0x14, 0x00, 0x14, 0x00, 0x00, 0x00, 0x00, 0x00, 0x00, 0x00, 0x00, 0x00]

  /** Extra length, comment length, disk number and attributes. */
  const CENTRAL_ZEROS: Bytes := [0x00, 0x00, 0x00, 0x00, 0x00, 0x00, 0x00, 0x00, 0x00, 0x00, 0x00, 0x00]

  /** The four fields both headers share. */
  function Description(crc: u32, size: nat, nameLength: nat): (b: Bytes)
    ensures |b| == 14
  {
    Le32(crc) + Le32(size) + Le32(size) + Le16(nameLength)
  }

  function LocalHeader(crc: u32, size: nat, nameLength: nat): (b: Bytes)
    ensures |b| == LOCAL_HEADER
  {
    LOCAL_START + Description(crc, size, nameLength) + Le16(0)
  }

  function CentralHeader(crc: u32, size: nat, nameLength: nat, localOffset: nat): (b: Bytes)
    ensures |b| == CENTRAL_HEADER
  {
    CENTRAL_START + Description(crc, size, nameLength) + CENTRAL_ZEROS + Le32(localOffset)
  }

  function LocalRecord(e: Entry): (b: Bytes)
    ensures |b| == LOCAL_HEADER + |e.name| + |e.data|
  {
    LocalHeader(e.crc, |e.data|, |e.name|) + e.name + e.data
  }

  function CentralRecord(e: Entry, localOffset: nat): (b: Bytes)
    ensures |b| == CENTRAL_HEADER + |e.name|
  {
    CentralHeader(e.crc, |e.data|, |e.name|, localOffset) + e.name
  }

  function Concat(parts: seq<Bytes>): Bytes {
    if parts == [] then [] else Concat(parts[..|parts| - 1]) + parts[|parts| - 1]
  }

  function LocalRecords(entries: seq<Entry>): (r: seq<Bytes>)
    ensures |r| == |entries|
  {
    seq(|entries|, i requires 0 <= i < |entries| => LocalRecord(entries[i]))
  }

  function LocalOffset(entries: seq<Entry>, i: nat): nat
    requires i <= |entries|
  {
    |Concat(LocalRecords(entries)[..i])|
  }

  /** Every central record names the position at which its local record starts. */
  function CentralRecords(entries: seq<Entry>): (r: seq<Bytes>)
    ensures |r| == |entries|
  {
    seq(|entries|, i requires 0 <= i < |entries| => CentralRecord(entries[i], LocalOffset(entries, i)))
  }

  function Locals(entries: seq<Entry>): Bytes {
    Concat(LocalRecords(entries))
  }

  function Centrals(entries: seq<Entry>): Bytes {
    Concat(CentralRecords(entries))
  }

  function EndRecord(count: nat, size: nat, offset: nat): (b: Bytes)
    ensures |b| == END_RECORD
  {
    [0x50, 0x4b, 0x05, 0x06] + Le16(0) + Le16(0) + Le16(count) + Le16(count) + Le32(size) + Le32(offset) + Le16(0)
  }

  function Archive(entries: seq<Entry>): Bytes {
    Locals(entries) + Centrals(entries) + EndRecord(|entries|, |Centrals(entries)|, |Locals(entries)|)
  }

  /** Subtraction of `u32` values as a release build does it. */
  function WrappingSub(a: u32, b: u32): u32 {
    (a - b) % U32
  }

  lemma Associate(a: Bytes, b: Bytes, c: Bytes)
    ensures a + b + c == a + (b + c)
  {
  }

  lemma AssociateFour(r: Bytes, a: Bytes, b: Bytes, c: Bytes, d: Bytes)
    ensures r + a + b + c + d == r + (a + b + c + d)
  {
  }

  lemma AssociateZeros(r: Bytes)
    ensures r + Le16(0) + Le16(0) + Le16(0) + Le16(0) + Le32(0) == r + CENTRAL_ZEROS
  {
    var z: Bytes := [0x00, 0x00];
    assert Le16(0) == z && Le32(0) == z + z;
    assert CENTRAL_ZEROS == z + z + z + z + (z + z);
    AssociateFour(r, z, z, z, z);
  }

  /** The loop's first half: the local header, the name and the data go to the archive. */
  method AppendLocal(archive: Bytes, name: Bytes, data: Bytes, crc: u32) returns (out: Bytes)
    ensures out == archive + (LocalHeader(crc, |data|, |name|) + name + data)
  {
    var record: Bytes := [0x50, 0x4b, 0x03, 0x04];
    record := record + [0x14, 0x00];
    record := record + [0x00, 0x00];
    record := record + [0x00, 0x00];
    record := record + [0x00, 0x00, 0x00, 0x00];
    assert record == LOCAL_START;
    record := record + Le32(crc);
    record := record + Le32(|data| % U32);
    record := record + Le32(|data| % U32);
    record := record + Le16(|name| % U16);
    Le32OfCast(|data|);
    Le16OfCast(|name|);
    AssociateFour(LOCAL_START, Le32(crc), Le32(|data|), Le32(|data|), Le16(|name|));
    record := record + Le16(0);
    record := record + name;
    record := record + data;
    out := archive + record;
  }

  /** The loop's second half: the central directory record. */
  method CentralEntry(name: Bytes, size: nat, crc: u32, position: nat) returns (cen: Bytes)
    ensures cen == CentralHeader(crc, size, |name|, position) + name
  {
    var localOffset := position % U32;
    cen := [0x50, 0x4b, 0x01, 0x02];
    cen := cen + [0x14, 0x00, 0x14, 0x00, 0x00, 0x00, 0x00, 0x00];
    cen := cen + [0x00, 0x00, 0x00, 0x00];
    assert cen == CENTRAL_START;
    cen := cen + Le32(crc);
    cen := cen + Le32(size % U32);
    cen := cen + Le32(size % U32);
    cen := cen + Le16(|name| % U16);
    Le32OfCast(size);
    Le16OfCast(|name|);
    AssociateFour(CENTRAL_START, Le32(crc), Le32(size), Le32(size), Le16(|name|));
    ghost var described := cen;
    cen := cen + Le16(0);
    cen := cen + Le16(0);
    cen := cen + Le16(0);
    cen := cen + Le16(0);
    cen := cen + Le32(0);
    AssociateZeros(described);
    cen := cen + Le32(localOffset);
    Le32OfCast(position);
    cen := cen + name;
  }

  lemma ConcatStep(parts: seq<Bytes>, i: nat)
    requires i < |parts|
    ensures Concat(parts[..i + 1]) == Concat(parts[..i]) + parts[i]
  {
    assert parts[..i + 1][..i] == parts[..i];
  }

  method WriteStoreZip(files: seq<File>) returns (out: Bytes)
    ensures out == Archive(Entries(files))
  {
    out := [];
    var central: seq<Bytes> := [];
    ghost var entries := Entries(files);
    ghost var locals, centrals := LocalRecords(entries), CentralRecords(entries);
    for i := 0 to |files|
      invariant out == Concat(locals[..i])
      invariant central == centrals[..i]
    {
      var position := |out|;
      var crc := ComputeCrc(files[i].data);
      out := AppendLocal(out, files[i].name, files[i].data, crc);
      var cen := CentralEntry(files[i].name, |files[i].data|, crc, position);
      central := central + [cen];
      RecordsWritten(entries, i, files[i], crc);
      ConcatStep(locals, i);
    }
    assert locals[..|files|] == locals && centrals[..|files|] == centrals;
    var centralOffset := |out| % U32;
    for i := 0 to |central|
      invariant out == Locals(entries) + Concat(central[..i])
    {
      ConcatStep(central, i);
      Associate(Locals(entries), Concat(central[..i]), central[i]);
      out := out + central[i];
    }
    assert central[..|central|] == central;
    var end := EndEntry(|files|, |out|, centralOffset, |Locals(entries)|, |Centrals(entries)|);
    out := out + end;
  }

  lemma RecordsWritten(entries: seq<Entry>, i: nat, f: File, crc: u32)
    requires i < |entries| && entries[i] == Entry(f.name, f.data, crc)
    ensures LocalRecords(entries)[i] == LocalHeader(crc, |f.data|, |f.name|) + f.name + f.data
    ensures CentralRecords(entries)[i] ==
            CentralHeader(crc, |f.data|, |f.name|, |Concat(LocalRecords(entries)[..i])|) + f.name
    ensures CentralRecords(entries)[..i + 1] == CentralRecords(entries)[..i] + [CentralRecords(entries)[i]]
  {
  }

  /** The end record, from the `u32` values the writer computed. */
  method EndEntry(count: nat, position: nat, centralOffset: u32, ghost offset: nat, ghost size: nat) returns (end: Bytes)
    requires position == offset + size && centralOffset == offset % U32
    ensures end == EndRecord(count, size, offset)
  {
    var centralSize := WrappingSub(position % U32, centralOffset);
    end := [0x50, 0x4b, 0x05, 0x06];
    end := end + Le16(0);
    end := end + Le16(0);
    end := end + Le16(count % U16);
    end := end + Le16(count % U16);
    end := end + Le32(centralSize);
    end := end + Le32(centralOffset);
    end := end + Le16(0);
    EndCasts(count, offset, size);
  }

  /** Printing `width` bytes of a number is printing those of what a cast to that width leaves. */
  lemma {:induction false} LeOfCast(n: nat, width: nat, m: nat, k: nat)
    requires n == m + k * Pow256(width)
    ensures Le(n, width) == Le(m, width)
    decreases width
  {
    if width == 0 {
    } else {
      var p := Pow256(width - 1);
      assert n == m + 256 * (k * p);
      assert n % 256 == m % 256 && n / 256 == m / 256 + k * p;
      LeOfCast(n / 256, width - 1, m / 256, k);
    }
  }

  function Pow256(width: nat): nat {
    if width == 0 then 1 else 256 * Pow256(width - 1)
  }

  lemma Le32OfCast(n: nat)
    ensures Le32(n % U32) == Le32(n)
  {
    assert Pow256(4) == U32;
    LeOfCast(n, 4, n % U32, n / U32);
  }

  lemma Le16OfCast(n: nat)
    ensures Le16(n % U16) == Le16(n)
  {
    assert Pow256(2) == U16;
    LeOfCast(n, 2, n % U16, n / U16);
  }

  lemma EndCasts(count: nat, offset: nat, size: nat)
    ensures Le16(count % U16) == Le16(count)
    ensures Le32(offset % U32) == Le32(offset)
    ensures Le32(WrappingSub((offset + size) % U32, offset % U32)) == Le32(size)
  {
    Le16OfCast(count);
    Le32OfCast(offset);
    Le32OfCast(size);
    var a, b := (offset + size) / U32, offset / U32;
    assert (offset + size) % U32 - offset % U32 == size + U32 * (b - a);
    SameModulo(size, b - a);
  }

  lemma SameModulo(n: int, k: int)
    ensures (n + U32 * k) % U32 == n % U32
  {
  }
}
