/** The LSPK archive container: the packed header at offset 0, the
    compressed directory of fixed-size entry records, and the accessors the
    metadata search uses on each entry. */
module Pak {
  import opened Wrappers
  import opened Bytes
  import opened Seqs

  const HEADER_SIZE: nat := 40
  const ENTRY_SIZE: nat := 272
  const NAME_SIZE: nat := 256

  /** The signature "LSPK". */
  const MAGIC: seq<byte> := [0x4C, 0x53, 0x50, 0x4B]

  type Magic = s: seq<byte> | |s| == 4 witness [0, 0, 0, 0]
  type Md5 = s: seq<byte> | |s| == 16 witness seq(16, _ => 0)
  type NameBuffer = s: seq<byte> | |s| == NAME_SIZE witness seq(NAME_SIZE, _ => 0)

  /** The packed 40-byte archive header. */
  datatype Header = Header(
    magic: Magic,
    version: u32,
    fileListOffset: u64,
    fileListSize: u32,
    flags: byte,
    priority: byte,
    md5: Md5,
    numParts: u16)

  /** One packed 272-byte directory record. */
  datatype Entry = Entry(
    name: NameBuffer,
    offsetLow: u32,
    offsetHigh: u16,
    archivePart: byte,
    flags: byte,
    sizeOnDisk: u32,
    uncompressedSize: u32)

  datatype PakError =
    | ReadOutOfRange
    | BadMagic(observed: seq<byte>)
    | DecompressionFailed
    | EntryCountMismatch
    | NoMetadata
    | MalformedMetadata

  /** An opened archive: the mapped file, its header, the decompressed
      directory block and the entries cut out of it. */
  datatype PakFile = PakFile(file: seq<byte>, header: Header, fileListData: seq<byte>, entries: seq<Entry>)

  /** Block decompression (LZ4) with the requested output size; it fails on
      corrupt input. */
  type Decompressor = (seq<byte>, nat) -> Option<seq<byte>>

  lemma PowersOf256()
    ensures Pow256(2) == 0x1_0000 && Pow256(4) == 0x1_0000_0000 && Pow256(8) == 0x1_0000_0000_0000_0000
  {
  }

  // ---------------------------------------------------------------- header

  /** Field-by-field little-endian decoding of the header record. */
  function DecodeHeader(b: seq<byte>): (h: Header)
    requires |b| == HEADER_SIZE
  {
    Header(b[0..4], U32At(b, 4), U64At(b, 8), U32At(b, 16), b[20], b[21], b[22..38], U16At(b, 38))
  }

  function EncodeHeader(h: Header): (b: seq<byte>)
    ensures |b| == HEADER_SIZE
  {
    PowersOf256();
    h.magic + ToLittleEndian(h.version, 4) + ToLittleEndian(h.fileListOffset, 8)
    + ToLittleEndian(h.fileListSize, 4) + [h.flags, h.priority] + h.md5 + ToLittleEndian(h.numParts, 2)
  }

  /** Where each field sits in a concatenation laid out as the header. */
  lemma HeaderLayout(magic: seq<byte>, version: seq<byte>, offset: seq<byte>, size: seq<byte>,
                     flags: seq<byte>, md5: seq<byte>, parts: seq<byte>)
    requires |magic| == 4 && |version| == 4 && |offset| == 8 && |size| == 4
    requires |flags| == 2 && |md5| == 16 && |parts| == 2
    ensures var b := magic + version + offset + size + flags + md5 + parts;
      && b[0..4] == magic && b[4..8] == version && b[8..16] == offset && b[16..20] == size
      && b[20] == flags[0] && b[21] == flags[1] && b[22..38] == md5 && b[38..40] == parts
  {
    var p2 := magic + version + offset;
    var p5 := p2 + size + flags + md5;
    assert p2[0..4] == magic && p2[4..8] == version && p2[8..16] == offset;
    assert p5[..16] == p2 && p5[16..20] == size && p5[22..38] == md5;
    var b := p5 + parts;
    assert b[..38] == p5 && b[38..40] == parts;
  }

  lemma HeaderRoundTrip(h: Header)
    ensures DecodeHeader(EncodeHeader(h)) == h
  {
    PowersOf256();
    HeaderLayout(h.magic, ToLittleEndian(h.version, 4), ToLittleEndian(h.fileListOffset, 8),
      ToLittleEndian(h.fileListSize, 4), [h.flags, h.priority], h.md5, ToLittleEndian(h.numParts, 2));
  }

  lemma HeaderBytesRoundTrip(b: seq<byte>)
    requires |b| == HEADER_SIZE
    ensures EncodeHeader(DecodeHeader(b)) == b
  {
    ToLittleEndianOfLittleEndian(b[4..8]);
    ToLittleEndianOfLittleEndian(b[8..16]);
    ToLittleEndianOfLittleEndian(b[16..20]);
    ToLittleEndianOfLittleEndian(b[38..40]);
    assert b == b[0..4] + b[4..8] + b[8..16] + b[16..20] + [b[20], b[21]] + b[22..38] + b[38..40];
  }

  // ----------------------------------------------------------------- entry

  /** Field-by-field little-endian decoding of one directory record. */
  function DecodeEntry(b: seq<byte>): (e: Entry)
    requires |b| == ENTRY_SIZE
  {
    Entry(b[0..256], U32At(b, 256), U16At(b, 260), b[262], b[263], U32At(b, 264), U32At(b, 268))
  }

  function EncodeEntry(e: Entry): (b: seq<byte>)
    ensures |b| == ENTRY_SIZE
  {
    PowersOf256();
    e.name + ToLittleEndian(e.offsetLow, 4) + ToLittleEndian(e.offsetHigh, 2)
    + [e.archivePart, e.flags] + ToLittleEndian(e.sizeOnDisk, 4) + ToLittleEndian(e.uncompressedSize, 4)
  }

  /** Where each field sits in a concatenation laid out as a record. */
  lemma EntryLayout(name: seq<byte>, low: seq<byte>, high: seq<byte>, flags: seq<byte>,
                    size: seq<byte>, uncompressed: seq<byte>)
    requires |name| == 256 && |low| == 4 && |high| == 2 && |flags| == 2
    requires |size| == 4 && |uncompressed| == 4
    ensures var b := name + low + high + flags + size + uncompressed;
      && b[0..256] == name && b[256..260] == low && b[260..262] == high
      && b[262] == flags[0] && b[263] == flags[1] && b[264..268] == size && b[268..272] == uncompressed
  {
    var p3 := name + low + high;
    assert p3[0..256] == name && p3[256..260] == low && p3[260..262] == high;
    var p4 := p3 + flags + size;
    assert p4[..262] == p3 && p4[264..268] == size;
    var b := p4 + uncompressed;
    assert b[..268] == p4 && b[268..272] == uncompressed;
  }

  lemma EntryRoundTrip(e: Entry)
    ensures DecodeEntry(EncodeEntry(e)) == e
  {
    PowersOf256();
    EntryLayout(e.name, ToLittleEndian(e.offsetLow, 4), ToLittleEndian(e.offsetHigh, 2),
      [e.archivePart, e.flags], ToLittleEndian(e.sizeOnDisk, 4), ToLittleEndian(e.uncompressedSize, 4));
  }

  lemma EntryBytesRoundTrip(b: seq<byte>)
    requires |b| == ENTRY_SIZE
    ensures EncodeEntry(DecodeEntry(b)) == b
  {
    ToLittleEndianOfLittleEndian(b[256..260]);
    ToLittleEndianOfLittleEndian(b[260..262]);
    ToLittleEndianOfLittleEndian(b[264..268]);
    ToLittleEndianOfLittleEndian(b[268..272]);
    assert b == b[0..256] + b[256..260] + b[260..262] + [b[262], b[263]] + b[264..268] + b[268..272];
  }

  /** The payload offset: the 32-bit low part and the 16-bit high part
      joined into one 48-bit value. */
  function Offset(e: Entry): (r: u64)
    ensures r < 0x1_0000_0000_0000
    ensures r % 0x1_0000_0000 == e.offsetLow
    ensures r / 0x1_0000_0000 == e.offsetHigh
  {
    e.offsetLow + e.offsetHigh * 0x1_0000_0000
  }

  /** On 64-bit words, `low | (high << 32)` is the sum `low + high * 2^32`
      that Offset computes: the two parts occupy disjoint bits. */
  lemma OffsetBitwise(low: bv64, high: bv64)
    requires low < 0x1_0000_0000 && high < 0x1_0000
    ensures low | (high << 32) == low + high * 0x1_0000_0000
    ensures (low | (high << 32)) & 0xFFFF_FFFF == low
    ensures (low | (high << 32)) >> 32 == high
  {
  }

  // ------------------------------------------------------------------ name

  /** The entry name: the bytes before the first zero of the buffer, or all
      but the last byte when the buffer holds no zero. */
  function NameOf(buf: NameBuffer): (name: seq<byte>)
    ensures |name| <= NAME_SIZE - 1
    ensures name == buf[..|name|]
    ensures forall i :: 0 <= i < |name| ==> name[i] != 0
    ensures |name| < NAME_SIZE - 1 ==> buf[|name|] == 0
  {
    match FirstIndex(buf, b => b == 0)
    case Some(k) => if k < NAME_SIZE - 1 then buf[..k] else buf[..NAME_SIZE - 1]
    case None => buf[..NAME_SIZE - 1]
  }

  /** The four properties in NameOf's contract leave no other choice. */
  lemma {:induction false} NameOfUnique(buf: NameBuffer, name: seq<byte>)
    requires |name| <= NAME_SIZE - 1 && name == buf[..|name|]
    requires forall i :: 0 <= i < |name| ==> name[i] != 0
    requires |name| < NAME_SIZE - 1 ==> buf[|name|] == 0
    ensures name == NameOf(buf)
  {
  }

  /** `PAKFileEntry::name`: finds the terminator, then copies the bytes
      before it. */
  method Name(e: Entry) returns (name: seq<byte>)
    ensures name == NameOf(e.name)
  {
    var size := 0;
    while size < |e.name| && e.name[size] != 0
      invariant 0 <= size <= |e.name|
      invariant forall j :: 0 <= j < size ==> e.name[j] != 0
    {
      size := size + 1;
    }
    if size == |e.name| {
      size := |e.name| - 1;
    } else {
      FirstIndexIs(e.name, b => b == 0, size);
    }
    name := [];
    name := name + e.name[..size];
  }

  // ------------------------------------------------------------- directory

  /** The directory records laid end to end: record `i` is bytes
      `[ENTRY_SIZE * i, ENTRY_SIZE * (i + 1))`. */
  function DecodeEntries(data: seq<byte>, count: nat): (entries: seq<Entry>)
    requires |data| == ENTRY_SIZE * count
    ensures |entries| == count
    ensures forall i :: 0 <= i < count ==>
      entries[i] == DecodeEntry(data[ENTRY_SIZE * i..ENTRY_SIZE * (i + 1)])
  {
    if count == 0 then []
    else
      var rest := DecodeEntries(data[ENTRY_SIZE..], count - 1);
      RecordsShift(data, count);
      [DecodeEntry(data[..ENTRY_SIZE])] + rest
  }

  /** Record `i` of the tail after the first record is record `i + 1`. */
  lemma RecordsShift(data: seq<byte>, count: nat)
    requires 0 < count && |data| == ENTRY_SIZE * count
    ensures forall i :: 0 <= i < count - 1 ==>
      data[ENTRY_SIZE..][ENTRY_SIZE * i..ENTRY_SIZE * (i + 1)] == data[ENTRY_SIZE * (i + 1)..ENTRY_SIZE * (i + 2)]
  {
    forall i | 0 <= i < count - 1
      ensures data[ENTRY_SIZE..][ENTRY_SIZE * i..ENTRY_SIZE * (i + 1)] == data[ENTRY_SIZE * (i + 1)..ENTRY_SIZE * (i + 2)]
    {
      assert ENTRY_SIZE * (i + 1) == ENTRY_SIZE + ENTRY_SIZE * i;
      assert ENTRY_SIZE * (i + 2) == ENTRY_SIZE + ENTRY_SIZE * (i + 1);
    }
  }

  /** The whole records of `data` lie in its first `ENTRY_SIZE * count`
      bytes. */
  lemma RecordsOfPrefix(data: seq<byte>, count: nat)
    requires |data| / ENTRY_SIZE == count
    ensures ENTRY_SIZE * count <= |data|
    ensures forall i :: 0 <= i < count ==>
      data[..ENTRY_SIZE * count][ENTRY_SIZE * i..ENTRY_SIZE * (i + 1)] == data[ENTRY_SIZE * i..ENTRY_SIZE * (i + 1)]
  {
  }

  /** The directory block at `offset` of `file` decompresses to `data` and is
      cut into `entries`: a little-endian entry count and compressed size,
      then that many compressed bytes, which decompress to one record per
      entry (a tail shorter than a record is not read). */
  ghost predicate DirectoryAt(file: seq<byte>, offset: nat, decompress: Decompressor, data: seq<byte>, entries: seq<Entry>) {
    && offset + 8 <= |file|
    && var count := LittleEndian(file[offset..offset + 4]);
       var size := LittleEndian(file[offset + 4..offset + 8]);
       && offset + 8 + size <= |file|
       && decompress(file[offset + 8..offset + 8 + size], ENTRY_SIZE * count) == Some(data)
       && |data| / ENTRY_SIZE == count
       && |entries| == count
       && forall i :: 0 <= i < count ==> entries[i] == DecodeEntry(data[ENTRY_SIZE * i..ENTRY_SIZE * (i + 1)])
  }

  /** `PAKFile::open`: reads the header, checks the signature, then locates,
      decompresses and cuts up the directory. */
  method Open(file: seq<byte>, decompress: Decompressor) returns (r: Result<PakFile, PakError>)
    ensures |file| < HEADER_SIZE ==> r == Err(ReadOutOfRange)
    ensures |file| >= HEADER_SIZE ==> (r == Err(BadMagic(file[..4])) <==> file[..4] != MAGIC)
    ensures r.Ok? ==> r.value.file == file && r.value.header == DecodeHeader(file[..HEADER_SIZE])
    ensures r.Ok? ==> r.value.header.magic == MAGIC
    ensures r.Ok? ==> DirectoryAt(file, r.value.header.fileListOffset, decompress, r.value.fileListData, r.value.entries)
    ensures |file| >= HEADER_SIZE && file[..4] == MAGIC
            && (exists data, entries :: DirectoryAt(file, DecodeHeader(file[..HEADER_SIZE]).fileListOffset, decompress, data, entries))
            ==> r.Ok?
  {
    var headerBytes := Slice(file, 0, HEADER_SIZE);
    if headerBytes.None? {
      return Err(ReadOutOfRange);
    }
    var header := DecodeHeader(headerBytes.value);
    assert headerBytes.value == file[..HEADER_SIZE] && header.magic == file[..4];
    if header.magic != MAGIC {
      return Err(BadMagic(header.magic));
    }

    var info := Slice(file, header.fileListOffset, 8);
    if info.None? {
      return Err(ReadOutOfRange);
    }
    var count := U32At(info.value, 0);
    var compressedSize := U32At(info.value, 4);
    assert info.value[0..4] == file[header.fileListOffset..header.fileListOffset + 4];
    assert info.value[4..8] == file[header.fileListOffset + 4..header.fileListOffset + 8];

    var compressed := Slice(file, header.fileListOffset + 8, compressedSize);
    if compressed.None? {
      return Err(ReadOutOfRange);
    }
    var data := decompress(compressed.value, ENTRY_SIZE * count);
    if data.None? {
      return Err(DecompressionFailed);
    }
    if count != |data.value| / ENTRY_SIZE {
      return Err(EntryCountMismatch);
    }
    RecordsOfPrefix(data.value, count);
    var entries := DecodeEntries(data.value[..ENTRY_SIZE * count], count);
    r := Ok(PakFile(file, header, data.value, entries));
  }
}
