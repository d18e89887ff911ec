/**
 * Firmware Volume (FV) validation and accessors, after UEFI PI 1.8A volume 3, section 3.1
 * (EFI_FIRMWARE_VOLUME_HEADER, EFI_FIRMWARE_VOLUME_EXT_HEADER, EFI_FV_BLOCK_MAP_ENTRY).
 *
 * The volume is a view of an immutable byte buffer; its base is offset 0 of that buffer.
 */
module Fv {
  import opened Wrappers
  import opened Primitives
  import opened Guids

  /** size_of::<Header>(): the fixed part of the FV header, up to and excluding the block map. */
  const FV_HEADER_SIZE: nat := 56
  /** size_of::<ExtHeader>(). */
  const FV_EXT_HEADER_SIZE: nat := 20
  const BLOCK_MAP_ENTRY_SIZE: nat := 8
  /** ASCII '_FVH' read as a little-endian u32. */
  const FV_SIGNATURE: uint32 := 0x4856465f
  /** EFI_FVB2_ERASE_POLARITY: erased flash reads as 0xFF when set, as 0x00 otherwise. */
  const EFI_FVB2_ERASE_POLARITY: nat := 0x800
  /** Index of the header_length field among the header's 16-bit words. */
  const HEADER_LENGTH_WORD: nat := 24

  // Fields of the fixed header (repr(C) layout, all little-endian).

  function FileSystemGuid(data: Bytes): Guid requires |data| >= FV_HEADER_SIZE { GuidAt(data, 16) }
  function FvLength(data: Bytes): uint64 requires |data| >= FV_HEADER_SIZE { LeUint64(data, 32) }
  function Signature(data: Bytes): uint32 requires |data| >= FV_HEADER_SIZE { LeUint32(data, 40) }
  function AttributesField(data: Bytes): uint32 requires |data| >= FV_HEADER_SIZE { LeUint32(data, 44) }
  function HeaderLength(data: Bytes): uint16 requires |data| >= FV_HEADER_SIZE { LeUint16(data, 48) }
  function Checksum(data: Bytes): uint16 requires |data| >= FV_HEADER_SIZE { LeUint16(data, 50) }
  function ExtHeaderOffset(data: Bytes): uint16 requires |data| >= FV_HEADER_SIZE { LeUint16(data, 52) }
  function Revision(data: Bytes): uint8 requires |data| >= FV_HEADER_SIZE { data[55] }

  /** ext_header_size of the extension header at `off`. */
  function ExtHeaderSize(data: Bytes, off: nat): uint32 requires off + FV_EXT_HEADER_SIZE <= |data| {
    LeUint32(data, off + 16)
  }

  // The header checksum.

  /** The i-th little-endian 16-bit word of the buffer. */
  function Word(data: Bytes, i: nat): uint16 requires 2 * i + 2 <= |data| {
    LeUint16(data, 2 * i)
  }

  /** The wrapping (mod 2^16) sum of the first n words, as `chunks_exact(2).map(..).sum::<Wrapping<u16>>()`. */
  function HeaderSum(data: Bytes, n: nat): uint16
    requires 2 * n <= |data|
  {
    if n == 0 then 0 else (HeaderSum(data, n - 1) + Word(data, n - 1)) % 0x1_0000
  }

  /** The plain (unbounded) sum of the first n words. */
  function WordTotal(data: Bytes, n: nat): nat
    requires 2 * n <= |data|
  {
    if n == 0 then 0 else WordTotal(data, n - 1) + Word(data, n - 1)
  }

  // The block map.

  datatype BlockMapEntry = BlockMapEntry(numBlocks: uint32, length: uint32)

  const BLOCK_MAP_TERMINATOR: BlockMapEntry := BlockMapEntry(0, 0)

  /** The i-th block map entry, which starts right after the fixed header. */
  function EntryAt(data: Bytes, i: nat): BlockMapEntry
    requires FV_HEADER_SIZE + BLOCK_MAP_ENTRY_SIZE * (i + 1) <= |data|
  {
    var off := FV_HEADER_SIZE + BLOCK_MAP_ENTRY_SIZE * i;
    BlockMapEntry(LeUint32(data, off), LeUint32(data, off + 4))
  }

  /** The block map bytes [56, headerLength) read as `chunks_exact(8)` entries. */
  function BlockMapEntries(data: Bytes, headerLength: nat): (r: seq<BlockMapEntry>)
    requires FV_HEADER_SIZE <= headerLength <= |data|
    ensures |r| == (headerLength - FV_HEADER_SIZE) / BLOCK_MAP_ENTRY_SIZE
  {
    seq((headerLength - FV_HEADER_SIZE) / BLOCK_MAP_ENTRY_SIZE,
        i requires 0 <= i < (headerLength - FV_HEADER_SIZE) / BLOCK_MAP_ENTRY_SIZE => EntryAt(data, i))
  }

  /** The block map is a whole number of entries, ends in (0,0), and has no (0,0) before its end. */
  predicate BlockMapWellformed(data: Bytes)
    requires |data| >= FV_HEADER_SIZE && FV_HEADER_SIZE <= HeaderLength(data) <= |data|
  {
    var n := (HeaderLength(data) - FV_HEADER_SIZE) / BLOCK_MAP_ENTRY_SIZE;
    && (HeaderLength(data) - FV_HEADER_SIZE) % BLOCK_MAP_ENTRY_SIZE == 0
    && n >= 1
    && EntryAt(data, n - 1) == BLOCK_MAP_TERMINATOR
    && forall i | 0 <= i < n - 1 :: EntryAt(data, i) != BLOCK_MAP_TERMINATOR
  }

  /** Everything a buffer must satisfy to be accepted as a firmware volume. */
  predicate Wellformed(data: Bytes) {
    && |data| >= FV_HEADER_SIZE
    && Signature(data) == FV_SIGNATURE
    && FV_HEADER_SIZE <= HeaderLength(data) <= FvLength(data) <= |data|
    && HeaderLength(data) % 2 == 0
    && HeaderSum(data, HeaderLength(data) / 2) == 0
    && Revision(data) >= 2
    && (FileSystemGuid(data) == EFI_FIRMWARE_FILE_SYSTEM2_GUID || FileSystemGuid(data) == EFI_FIRMWARE_FILE_SYSTEM3_GUID)
    && ExtHeaderOffset(data) <= FvLength(data)
    && (ExtHeaderOffset(data) != 0 ==>
          && ExtHeaderOffset(data) + FV_EXT_HEADER_SIZE <= |data|
          && ExtHeaderOffset(data) + ExtHeaderSize(data, ExtHeaderOffset(data)) <= |data|)
    && BlockMapWellformed(data)
  }

  datatype FvExtHeader = FvExtHeader(fvName: Guid, extHeaderSize: uint32)

  /** (offset of the block from the FV base, block size, blocks from lba to the end of its block-map entry) */
  datatype LbaInfo = LbaInfo(offset: int, blockSize: int, remainingBlocks: int)

  /** A validated firmware volume: a view of the buffer it was built from. */
  datatype FirmwareVolume = FirmwareVolume(data: Bytes) {

    predicate Valid() { Wellformed(data) }

    /** The part of validity that files rely on: the header and the whole fv_length lie in the buffer. */
    predicate Bounded() { |data| >= FV_HEADER_SIZE && FV_HEADER_SIZE <= FvLength(data) <= |data| }

    /** The end of the volume: FV base + fv_length. */
    function TopOffset(): (r: nat)
      requires Bounded()
      ensures FV_HEADER_SIZE <= r <= |data|
    {
      FvLength(data)
    }

    function Attributes(): uint32 requires Bounded() { AttributesField(data) }

    /** The extension header, present exactly when ext_header_offset is non-zero. */
    function ExtHeader(): (r: Option<FvExtHeader>)
      requires Valid()
      ensures r.Some? <==> ExtHeaderOffset(data) != 0
      ensures r.Some? ==> ExtHeaderOffset(data) + r.value.extHeaderSize <= |data|
    {
      var off := ExtHeaderOffset(data);
      if off == 0 then None
      else Some(FvExtHeader(GuidAt(data, off), ExtHeaderSize(data, off)))
    }

    /** The volume's name: the GUID at the start of the extension header, if there is one. */
    function FvName(): (r: Option<Guid>)
      requires Valid()
      ensures r.Some? <==> ExtHeaderOffset(data) != 0
      ensures r.Some? ==> r.value == GuidAt(data, ExtHeaderOffset(data))
    {
      match ExtHeader()
      case Some(ext) => Some(ext.fvName)
      case None => None
    }

    /** Where the first file is looked for: past the extension header if present, else past the header. */
    function FirstFileOffset(): (r: nat)
      requires Valid()
      ensures r <= |data|
      ensures ExtHeaderOffset(data) == 0 ==> r == HeaderLength(data)
      ensures ExtHeaderOffset(data) != 0 ==> r == ExtHeaderOffset(data) + ExtHeaderSize(data, ExtHeaderOffset(data))
    {
      match ExtHeader()
      case Some(ext) => ExtHeaderOffset(data) + ext.extHeaderSize
      case None => HeaderLength(data)
    }

    /** `block_map()`: walks the entries until one has a zero field; the (0,0) terminator bounds the walk. */
    method BlockMap() returns (entries: seq<BlockMapEntry>)
      requires Valid()
      ensures entries == LiveBlockMap(BlockMapEntries(data, HeaderLength(data)))
    {
      ghost var all := BlockMapEntries(data, HeaderLength(data));
      var count := 0;
      entries := [];
      while EntryAt(data, count).numBlocks != 0 && EntryAt(data, count).length != 0
        invariant count <= |all| - 1
        invariant entries == all[..count]
        invariant forall i | 0 <= i < count :: all[i].numBlocks != 0 && all[i].length != 0
        decreases |all| - count
      {
        entries := entries + [EntryAt(data, count)];
        count := count + 1;
      }
      LiveBlockMapIsLongestLivePrefix(all, count);
    }

    /** `get_lba_info`, as written: see LbaInfoAsWritten. */
    method GetLbaInfo(lba: uint32) returns (r: Result<LbaInfo, Status>)
      requires Valid()
      requires LbaArithmeticFits(LiveBlockMap(BlockMapEntries(data, HeaderLength(data))), lba)
      ensures r == LbaInfoAsWritten(LiveBlockMap(BlockMapEntries(data, HeaderLength(data))), lba)
    {
      var blockMap := BlockMap();
      r := LbaInfoOf(blockMap, lba);
    }
  }

  /** The loop of `get_lba_info` over the block map `block_map()` returned, in u32 arithmetic. */
  method LbaInfoOf(blockMap: seq<BlockMapEntry>, lba: uint32) returns (r: Result<LbaInfo, Status>)
    requires LbaArithmeticFits(blockMap, lba)
    ensures r == LbaInfoAsWritten(blockMap, lba)
  {
    var totalBlocks: uint32, offset: uint32, blockSize: uint32 := 0, 0, 0;
    var i := 0;
    while i < |blockMap|
      invariant i <= |blockMap|
      invariant totalBlocks as nat == BlocksBefore(blockMap, i) <= lba as nat
      invariant offset as nat == BytesBefore(blockMap, i)
    {
      LbaStepFits(blockMap, lba, i);
      totalBlocks := totalBlocks + blockMap[i].numBlocks;
      blockSize := blockMap[i].length;
      if lba < totalBlocks {
        LbaInfoAsWrittenAt(blockMap, lba, i);
        break;
      }
      offset := offset + blockMap[i].numBlocks * blockMap[i].length;
      i := i + 1;
    }
    if lba >= totalBlocks {
      return Err(InvalidParameter);
    }
    var remainingBlocks := totalBlocks - lba;
    r := Ok(LbaInfo(offset as nat + lba as nat * blockSize as nat, blockSize as nat, remainingBlocks as nat));
  }

  /** `FirmwareVolume::new`: the guards in the order the source applies them. */
  function New(data: Bytes): (r: Result<FirmwareVolume, Status>)
    ensures r.Ok? <==> Wellformed(data)
    ensures r.Ok? ==> r.value.data == data
  {
    if |data| < FV_HEADER_SIZE then Err(InvalidParameter)
    else if Signature(data) != FV_SIGNATURE then Err(InvalidParameter)
    else if HeaderLength(data) < FV_HEADER_SIZE then Err(InvalidParameter)
    else if HeaderLength(data) > |data| then Err(InvalidParameter)
    else if HeaderLength(data) % 2 != 0 then Err(InvalidParameter)
    else if HeaderSum(data, HeaderLength(data) / 2) != 0 then Err(InvalidParameter)
    else if Revision(data) < 2 then Err(InvalidParameter)
    else if FileSystemGuid(data) != EFI_FIRMWARE_FILE_SYSTEM2_GUID
         && FileSystemGuid(data) != EFI_FIRMWARE_FILE_SYSTEM3_GUID then Err(InvalidParameter)
    else if FvLength(data) < HeaderLength(data) then Err(InvalidParameter)
    else if FvLength(data) > |data| then Err(InvalidParameter)
    else if ExtHeaderOffset(data) > FvLength(data) then Err(InvalidParameter)
    else if ExtHeaderOffset(data) != 0 && ExtHeaderOffset(data) + FV_EXT_HEADER_SIZE > |data| then Err(InvalidParameter)
    else if ExtHeaderOffset(data) != 0
         && ExtHeaderOffset(data) + ExtHeaderSize(data, ExtHeaderOffset(data)) > |data| then Err(InvalidParameter)
    else if !BlockMapAccepted(data) then
      BlockMapAcceptedIffWellformed(data);
      Err(InvalidParameter)
    else
      BlockMapAcceptedIffWellformed(data);
      Ok(FirmwareVolume(data))
  }

  /** The block map checks of `new`: whole entries, the last one (0,0), no (0,0) before it. */
  predicate BlockMapAccepted(data: Bytes)
    requires |data| >= FV_HEADER_SIZE && FV_HEADER_SIZE <= HeaderLength(data) <= |data|
  {
    var blockMap := BlockMapEntries(data, HeaderLength(data));
    && (HeaderLength(data) - FV_HEADER_SIZE) % BLOCK_MAP_ENTRY_SIZE == 0
    && |blockMap| != 0 && blockMap[|blockMap| - 1] == BLOCK_MAP_TERMINATOR
    && BLOCK_MAP_TERMINATOR !in blockMap[..|blockMap| - 1]
  }

  lemma BlockMapAcceptedIffWellformed(data: Bytes)
    requires |data| >= FV_HEADER_SIZE && FV_HEADER_SIZE <= HeaderLength(data) <= |data|
    ensures BlockMapAccepted(data) <==> BlockMapWellformed(data)
  {
    var blockMap := BlockMapEntries(data, HeaderLength(data));
    if BlockMapWellformed(data) {
      var init := blockMap[..|blockMap| - 1];
      assert forall i | 0 <= i < |init| :: init[i] != BLOCK_MAP_TERMINATOR;
    }
    if BlockMapAccepted(data) {
      forall i | 0 <= i < |blockMap| - 1 ensures EntryAt(data, i) != BLOCK_MAP_TERMINATOR {
        assert blockMap[..|blockMap| - 1][i] == EntryAt(data, i);
      }
    }
  }

  // The block map as `block_map()` returns it, and the LBA arithmetic of `get_lba_info`.

  /** The entries before the first one with a zero field. */
  function LiveBlockMap(entries: seq<BlockMapEntry>): (r: seq<BlockMapEntry>)
  {
    if entries == [] || entries[0].numBlocks == 0 || entries[0].length == 0 then []
    else [entries[0]] + LiveBlockMap(entries[1..])
  }

  /** LiveBlockMap is the longest prefix whose entries have both fields non-zero. */
  lemma {:induction false} LiveBlockMapIsLongestLivePrefix(entries: seq<BlockMapEntry>, k: nat)
    requires k < |entries|
    requires forall i | 0 <= i < k :: entries[i].numBlocks != 0 && entries[i].length != 0
    requires entries[k].numBlocks == 0 || entries[k].length == 0
    ensures LiveBlockMap(entries) == entries[..k]
  {
    if k > 0 {
      LiveBlockMapIsLongestLivePrefix(entries[1..], k - 1);
      assert entries[..k] == [entries[0]] + entries[1..][..k - 1];
    }
  }

  /** Every entry of the live block map has a non-zero block count and length. */
  lemma {:induction false} LiveBlockMapEntriesNonZero(entries: seq<BlockMapEntry>)
    ensures forall i | 0 <= i < |LiveBlockMap(entries)| ::
      LiveBlockMap(entries)[i].numBlocks != 0 && LiveBlockMap(entries)[i].length != 0
    ensures |LiveBlockMap(entries)| <= |entries|
  {
    if entries != [] && entries[0].numBlocks != 0 && entries[0].length != 0 {
      LiveBlockMapEntriesNonZero(entries[1..]);
    }
  }

  /** The number of blocks in the first k entries. */
  function BlocksBefore(bm: seq<BlockMapEntry>, k: nat): nat
    requires k <= |bm|
  {
    if k == 0 then 0 else BlocksBefore(bm, k - 1) + bm[k - 1].numBlocks
  }

  /** The number of bytes in the first k entries. */
  function BytesBefore(bm: seq<BlockMapEntry>, k: nat): nat
    requires k <= |bm|
  {
    if k == 0 then 0 else BytesBefore(bm, k - 1) + bm[k - 1].numBlocks * bm[k - 1].length
  }

  lemma {:induction false} BlocksBeforeMonotone(bm: seq<BlockMapEntry>, j: nat, k: nat)
    requires j <= k <= |bm|
    ensures BlocksBefore(bm, j) <= BlocksBefore(bm, k)
    decreases k - j
  {
    if j < k { BlocksBeforeMonotone(bm, j, k - 1); }
  }

  /** The index of the first entry whose cumulative block count exceeds lba. */
  function CoveringEntry(bm: seq<BlockMapEntry>, lba: nat): (k: nat)
    requires lba < BlocksBefore(bm, |bm|)
    ensures k < |bm|
    ensures BlocksBefore(bm, k) <= lba < BlocksBefore(bm, k + 1)
  {
    CoveringEntryFrom(bm, lba, 0)
  }

  function CoveringEntryFrom(bm: seq<BlockMapEntry>, lba: nat, start: nat): (k: nat)
    requires start <= |bm|
    requires BlocksBefore(bm, start) <= lba < BlocksBefore(bm, |bm|)
    ensures start <= k < |bm|
    ensures BlocksBefore(bm, k) <= lba < BlocksBefore(bm, k + 1)
    decreases |bm| - start
  {
    if lba < BlocksBefore(bm, start + 1) then start else CoveringEntryFrom(bm, lba, start + 1)
  }

  /** The covering entry is unique: any entry whose block range holds lba is it. */
  lemma {:induction false} CoveringEntryIs(bm: seq<BlockMapEntry>, lba: nat, k: nat)
    requires k < |bm|
    requires BlocksBefore(bm, k) <= lba < BlocksBefore(bm, k + 1)
    ensures lba < BlocksBefore(bm, |bm|)
    ensures CoveringEntry(bm, lba) == k
  {
    BlocksBeforeMonotone(bm, k + 1, |bm|);
    var c := CoveringEntry(bm, lba);
    if c < k {
      BlocksBeforeMonotone(bm, c + 1, k);
    } else if c > k {
      BlocksBeforeMonotone(bm, k + 1, c);
    }
  }

  /**
   * The u32 arithmetic `get_lba_info` performs on its way to lba does not overflow: up to and
   * including the covering entry when there is one (the loop stops there), over the whole map otherwise.
   */
  predicate LbaArithmeticFits(bm: seq<BlockMapEntry>, lba: uint32) {
    if lba as nat < BlocksBefore(bm, |bm|) then
      var k := CoveringEntry(bm, lba as nat);
      && BlocksBefore(bm, k + 1) < TWO_TO_THE_32
      && EntryOffsetFits(bm, k, lba)
    else
      && BlocksBefore(bm, |bm|) < TWO_TO_THE_32
      && BytesBefore(bm, |bm|) < TWO_TO_THE_32
  }

  /** One step of the loop of `get_lba_info` stays in u32: the block total, and the byte offset when the loop goes on. */
  lemma LbaStepFits(bm: seq<BlockMapEntry>, lba: uint32, i: nat)
    requires LbaArithmeticFits(bm, lba)
    requires i < |bm| && BlocksBefore(bm, i) <= lba as nat
    ensures BlocksBefore(bm, i + 1) < TWO_TO_THE_32
    ensures BlocksBefore(bm, i + 1) <= lba as nat ==> BytesBefore(bm, i + 1) < TWO_TO_THE_32
  {
    if lba as nat < BlocksBefore(bm, |bm|) {
      var k := CoveringEntry(bm, lba as nat);
      BlocksBeforeBelowCovering(bm, lba as nat, i);
      BlocksBeforeMonotone(bm, i + 1, k + 1);
      if BlocksBefore(bm, i + 1) <= lba as nat {
        BlocksBeforeBelowCovering(bm, lba as nat, i + 1);
        BytesBeforeMonotone(bm, i + 1, k);
        EntryOffsetFitsBytesBefore(bm, k, lba);
      }
    } else {
      BlocksBeforeMonotone(bm, i + 1, |bm|);
      BytesBeforeMonotone(bm, i + 1, |bm|);
    }
  }

  /**
   * Only the entries up to the covering one constrain the arithmetic: with 0x20000 blocks of 0x200 bytes
   * followed by 0x10 blocks of 0x10000 bytes, lba 0x10000 lies in the first entry and resolves without
   * overflow, though lba * 0x10000 would not fit in a u32.
   */
  lemma LbaArithmeticStopsAtCoveringEntry()
    ensures LbaArithmeticFits([BlockMapEntry(0x20000, 0x200), BlockMapEntry(0x10, 0x10000)], 0x10000)
    ensures LbaInfoAsWritten([BlockMapEntry(0x20000, 0x200), BlockMapEntry(0x10, 0x10000)], 0x10000)
         == Ok(LbaInfo(0x2000000, 0x200, 0x10000))
  {
    var bm := [BlockMapEntry(0x20000, 0x200), BlockMapEntry(0x10, 0x10000)];
    assert BlocksBefore(bm, 1) == 0x20000;
    CoveringEntryIs(bm, 0x10000, 0);
  }

  /** The offset of the covering entry fits, so the bytes of the entries before it do. */
  lemma EntryOffsetFitsBytesBefore(bm: seq<BlockMapEntry>, k: nat, lba: uint32)
    requires k < |bm| && EntryOffsetFits(bm, k, lba)
    ensures BytesBefore(bm, k) < TWO_TO_THE_32
  {
    MulNonNegative(lba as nat, bm[k].length as nat);
  }

  /** While the blocks counted so far do not pass lba, the loop has not gone beyond the covering entry. */
  lemma BlocksBeforeBelowCovering(bm: seq<BlockMapEntry>, lba: nat, i: nat)
    requires i <= |bm|
    requires BlocksBefore(bm, i) <= lba < BlocksBefore(bm, |bm|)
    ensures i <= CoveringEntry(bm, lba)
  {
    var k := CoveringEntry(bm, lba);
    if i > k {
      BlocksBeforeMonotone(bm, k + 1, i);
    }
  }

  /** The offset `get_lba_info` computes when entry k covers lba fits in a u32. */
  predicate EntryOffsetFits(bm: seq<BlockMapEntry>, k: nat, lba: uint32)
    requires k < |bm|
  {
    BytesBefore(bm, k) + lba as nat * bm[k].length as nat < TWO_TO_THE_32
  }

  /**
   * What `get_lba_info` computes: an error past the last block; otherwise, for the covering entry k,
   * the bytes of the entries before k plus lba * (block size of k), that block size, and the blocks
   * from lba to the end of entry k.
   */
  function LbaInfoAsWritten(bm: seq<BlockMapEntry>, lba: nat): (r: Result<LbaInfo, Status>)
    ensures r.Err? <==> lba >= BlocksBefore(bm, |bm|)
  {
    if lba >= BlocksBefore(bm, |bm|) then Err(InvalidParameter)
    else
      var k := CoveringEntry(bm, lba);
      Ok(LbaInfo(BytesBefore(bm, k) + lba * bm[k].length, bm[k].length, BlocksBefore(bm, k + 1) - lba))
  }

  /** The result for an lba inside entry k, in the terms the loop of `get_lba_info` accumulates. */
  lemma LbaInfoAsWrittenAt(bm: seq<BlockMapEntry>, lba: nat, k: nat)
    requires k < |bm|
    requires BlocksBefore(bm, k) <= lba < BlocksBefore(bm, k + 1)
    ensures LbaInfoAsWritten(bm, lba)
         == Ok(LbaInfo(BytesBefore(bm, k) + lba * bm[k].length, bm[k].length, BlocksBefore(bm, k + 1) - lba))
  {
    CoveringEntryIs(bm, lba, k);
  }

  /** On success the block size is that of the first entry reaching past lba, and at least one block remains. */
  lemma LbaInfoAsWrittenBlockSize(bm: seq<BlockMapEntry>, lba: nat, k: nat)
    requires k < |bm|
    requires BlocksBefore(bm, k) <= lba < BlocksBefore(bm, k + 1)
    ensures LbaInfoAsWritten(bm, lba).Ok?
    ensures LbaInfoAsWritten(bm, lba).value.blockSize == bm[k].length
    ensures LbaInfoAsWritten(bm, lba).value.remainingBlocks == BlocksBefore(bm, k + 1) - lba >= 1
  {
    CoveringEntryIs(bm, lba, k);
  }

  // The evidently intended offset: the byte offset of block `lba` from the volume base.

  /** The size of block j: the length of the entry that holds it. */
  function SizeOfBlock(bm: seq<BlockMapEntry>, j: nat): nat
    requires j < BlocksBefore(bm, |bm|)
  {
    bm[CoveringEntry(bm, j)].length
  }

  /** The byte offset of block lba: the sizes of all blocks before it, summed block by block. */
  function BlockOffset(bm: seq<BlockMapEntry>, lba: nat): nat
    requires lba <= BlocksBefore(bm, |bm|)
  {
    if lba == 0 then 0 else BlockOffset(bm, lba - 1) + SizeOfBlock(bm, lba - 1)
  }

  /** `get_lba_info` with the offset the entries before k already account for removed from lba. */
  function LbaInfoCorrected(bm: seq<BlockMapEntry>, lba: nat): (r: Result<LbaInfo, Status>)
    ensures r.Err? <==> lba >= BlocksBefore(bm, |bm|)
  {
    if lba >= BlocksBefore(bm, |bm|) then Err(InvalidParameter)
    else
      var k := CoveringEntry(bm, lba);
      Ok(LbaInfo(BytesBefore(bm, k) + (lba - BlocksBefore(bm, k)) * bm[k].length,
                 bm[k].length, BlocksBefore(bm, k + 1) - lba))
  }

  /** The corrected offset is the byte offset of block lba. */
  lemma {:induction false} LbaInfoCorrectedIsBlockOffset(bm: seq<BlockMapEntry>, lba: nat)
    requires lba < BlocksBefore(bm, |bm|)
    ensures LbaInfoCorrected(bm, lba).Ok?
    ensures LbaInfoCorrected(bm, lba).value.offset == BlockOffset(bm, lba)
  {
    if lba == 0 {
      ZeroBlocksBefore(bm, CoveringEntry(bm, 0));
    } else {
      LbaInfoCorrectedIsBlockOffset(bm, lba - 1);
      CorrectedOffsetStep(bm, lba);
    }
  }

  /** Moving from block lba-1 to block lba advances the corrected offset by the size of block lba-1. */
  lemma CorrectedOffsetStep(bm: seq<BlockMapEntry>, lba: nat)
    requires 0 < lba < BlocksBefore(bm, |bm|)
    ensures LbaInfoCorrected(bm, lba).value.offset
         == LbaInfoCorrected(bm, lba - 1).value.offset + SizeOfBlock(bm, lba - 1)
  {
    var k := CoveringEntry(bm, lba);
    var p := CoveringEntry(bm, lba - 1);
    if BlocksBefore(bm, k) <= lba - 1 {
      CoveringEntryIs(bm, lba - 1, k);
      SameEntryStep(bm, lba, k);
    } else {
      EntryBoundaryStep(bm, lba, p, k);
    }
  }

  /** Inside one entry k, the corrected offset advances by the block size of k. */
  lemma SameEntryStep(bm: seq<BlockMapEntry>, lba: nat, k: nat)
    requires k < |bm| && lba > 0
    requires BlocksBefore(bm, k) <= lba - 1 && lba < BlocksBefore(bm, k + 1)
    ensures LbaInfoCorrected(bm, lba).Ok? && LbaInfoCorrected(bm, lba - 1).Ok?
    ensures LbaInfoCorrected(bm, lba).value.offset == LbaInfoCorrected(bm, lba - 1).value.offset + bm[k].length
  {
    CorrectedOffsetAt(bm, lba, k);
    CorrectedOffsetAt(bm, lba - 1, k);
    MulSucc(lba - 1 - BlocksBefore(bm, k), bm[k].length);
  }

  /** From the last block of entry p to the first block of entry k, the offset advances by the block size of p. */
  lemma EntryBoundaryStep(bm: seq<BlockMapEntry>, lba: nat, p: nat, k: nat)
    requires p < |bm| && k < |bm| && lba > 0
    requires BlocksBefore(bm, p) <= lba - 1 < BlocksBefore(bm, p + 1)
    requires lba - 1 < BlocksBefore(bm, k) <= lba < BlocksBefore(bm, k + 1)
    ensures LbaInfoCorrected(bm, lba).Ok? && LbaInfoCorrected(bm, lba - 1).Ok?
    ensures LbaInfoCorrected(bm, lba).value.offset == LbaInfoCorrected(bm, lba - 1).value.offset + bm[p].length
  {
    CorrectedOffsetAt(bm, lba, k);
    CorrectedOffsetAt(bm, lba - 1, p);
    LastBlockOfEntry(bm, lba, p, k);
  }

  /** The corrected result for an lba inside entry k. */
  lemma CorrectedOffsetAt(bm: seq<BlockMapEntry>, lba: nat, k: nat)
    requires k < |bm|
    requires BlocksBefore(bm, k) <= lba < BlocksBefore(bm, k + 1)
    ensures LbaInfoCorrected(bm, lba) == Ok(LbaInfo(BytesBefore(bm, k) + (lba - BlocksBefore(bm, k)) * bm[k].length,
                                                    bm[k].length, BlocksBefore(bm, k + 1) - lba))
  {
    CoveringEntryIs(bm, lba, k);
  }

  /** When block lba-1 is in entry p and block lba in a later entry k, k starts where p ends. */
  lemma LastBlockOfEntry(bm: seq<BlockMapEntry>, lba: nat, p: nat, k: nat)
    requires p < |bm| && k < |bm| && lba > 0
    requires BlocksBefore(bm, p) <= lba - 1 < BlocksBefore(bm, p + 1)
    requires BlocksBefore(bm, k) == lba < BlocksBefore(bm, k + 1)
    ensures BytesBefore(bm, k) + (lba - BlocksBefore(bm, k)) * bm[k].length
         == BytesBefore(bm, p) + (lba - 1 - BlocksBefore(bm, p)) * bm[p].length + bm[p].length
  {
    assert p < k by {
      if p > k { BlocksBeforeMonotone(bm, k + 1, p); }
    }
    assert BlocksBefore(bm, p + 1) == lba by { BlocksBeforeMonotone(bm, p + 1, k); }
    EmptyEntriesAddNoBytes(bm, p + 1, k);
    MulSucc(lba - 1 - BlocksBefore(bm, p), bm[p].length);
  }

  /** The block at the corrected offset lies inside the region the block map describes. */
  lemma LbaInfoCorrectedInBounds(bm: seq<BlockMapEntry>, lba: nat)
    requires lba < BlocksBefore(bm, |bm|)
    ensures LbaInfoCorrected(bm, lba).Ok?
    ensures LbaInfoCorrected(bm, lba).value.offset + LbaInfoCorrected(bm, lba).value.blockSize
         <= BytesBefore(bm, |bm|)
  {
    var k := CoveringEntry(bm, lba);
    BytesBeforeBound(bm, k, lba - BlocksBefore(bm, k));
  }

  lemma MulSucc(x: nat, l: nat)
    ensures (x + 1) * l == x * l + l
  {
  }

  lemma {:induction false} ZeroBlocksBefore(bm: seq<BlockMapEntry>, k: nat)
    requires k <= |bm| && BlocksBefore(bm, k) == 0
    ensures BytesBefore(bm, k) == 0
  {
    if k > 0 {
      BlocksBeforeMonotone(bm, k - 1, k);
      ZeroBlocksBefore(bm, k - 1);
    }
  }

  /** Entries j .. k-1 hold no blocks when the cumulative count does not grow between them. */
  lemma {:induction false} EmptyEntriesAddNoBytes(bm: seq<BlockMapEntry>, j: nat, k: nat)
    requires j <= k <= |bm|
    requires BlocksBefore(bm, j) == BlocksBefore(bm, k)
    ensures BytesBefore(bm, j) == BytesBefore(bm, k)
    decreases k - j
  {
    if j < k {
      BlocksBeforeMonotone(bm, j, k - 1);
      EmptyEntriesAddNoBytes(bm, j, k - 1);
    }
  }

  lemma BytesBeforeBound(bm: seq<BlockMapEntry>, k: nat, inEntry: nat)
    requires k < |bm| && inEntry < bm[k].numBlocks
    ensures BytesBefore(bm, k) + inEntry * bm[k].length + bm[k].length <= BytesBefore(bm, |bm|)
  {
    BytesBeforeMonotone(bm, k + 1, |bm|);
    assert inEntry * bm[k].length + bm[k].length <= bm[k].numBlocks * bm[k].length by {
      MulMonotone(inEntry + 1, bm[k].numBlocks, bm[k].length);
    }
  }

  lemma {:induction false} BytesBeforeMonotone(bm: seq<BlockMapEntry>, j: nat, k: nat)
    requires j <= k <= |bm|
    ensures BytesBefore(bm, j) <= BytesBefore(bm, k)
    decreases k - j
  {
    if j < k {
      BytesBeforeMonotone(bm, j, k - 1);
      MulNonNegative(bm[k - 1].numBlocks, bm[k - 1].length);
    }
  }

  lemma MulNonNegative(x: nat, y: nat)
    ensures x * y >= 0
  {
  }

  /** With a block map of 2 blocks of 4 KiB then 2 of 8 KiB, block 3 starts at 16 KiB, past which the source points. */
  lemma LbaOffsetAsWrittenOverruns()
    ensures var bm := [BlockMapEntry(2, 0x1000), BlockMapEntry(2, 0x2000)];
      && LbaInfoAsWritten(bm, 3) == Ok(LbaInfo(0x8000, 0x2000, 1))
      && BlockOffset(bm, 3) == 0x4000
      && LbaInfoCorrected(bm, 3) == Ok(LbaInfo(0x4000, 0x2000, 1))
      && BytesBefore(bm, |bm|) == 0x6000
  {
    var bm := [BlockMapEntry(2, 0x1000), BlockMapEntry(2, 0x2000)];
    assert BlocksBefore(bm, 1) == 2 && BlocksBefore(bm, 2) == 4;
    CoveringEntryIs(bm, 0, 0);
    CoveringEntryIs(bm, 1, 0);
    CoveringEntryIs(bm, 2, 1);
    CoveringEntryIs(bm, 3, 1);
    assert BlockOffset(bm, 1) == 0x1000;
    assert BlockOffset(bm, 2) == 0x2000;
  }

  // Rejection of corrupted headers.

  lemma {:induction false} HeaderSumIsWordTotalMod(data: Bytes, n: nat)
    requires 2 * n <= |data|
    ensures HeaderSum(data, n) == WordTotal(data, n) % 0x1_0000
  {
    if n > 0 {
      HeaderSumIsWordTotalMod(data, n - 1);
      ModAddLeft(WordTotal(data, n - 1), Word(data, n - 1));
    }
  }

  /** (a mod 2^16 + b) mod 2^16 == (a + b) mod 2^16 */
  lemma ModAddLeft(a: nat, b: nat)
    ensures (a % 0x1_0000 + b) % 0x1_0000 == (a + b) % 0x1_0000
  {
    var q := a / 0x1_0000;
    assert a + b == (a % 0x1_0000 + b) + q * 0x1_0000;
    ModShift(a % 0x1_0000 + b, q);
  }

  lemma {:induction false} ModShift(x: nat, q: nat)
    ensures (x + q * 0x1_0000) % 0x1_0000 == x % 0x1_0000
  {
    if q > 0 {
      ModShift(x, q - 1);
      assert x + q * 0x1_0000 == (x + (q - 1) * 0x1_0000) + 0x1_0000;
    }
  }

  /** Changing the bytes of word k changes the word total by exactly the change of that word. */
  lemma {:induction false} WordTotalOneWordChanged(data: Bytes, corrupt: Bytes, n: nat, k: nat)
    requires |corrupt| == |data| && 2 * n <= |data| && 2 * k + 2 <= |data|
    requires forall i | 0 <= i < |data| && i != 2 * k && i != 2 * k + 1 :: corrupt[i] == data[i]
    ensures WordTotal(corrupt, n) + (if k < n then Word(data, k) else 0)
         == WordTotal(data, n) + (if k < n then Word(corrupt, k) else 0)
  {
    if n > 0 {
      WordTotalOneWordChanged(data, corrupt, n - 1, k);
      if n - 1 != k {
        assert corrupt[2 * (n - 1)] == data[2 * (n - 1)];
        assert corrupt[2 * (n - 1) + 1] == data[2 * (n - 1) + 1];
      }
    }
  }

  /** A zero checksum sum stops being zero when exactly one of the summed words changes. */
  lemma ChecksumBrokenByOneWord(data: Bytes, corrupt: Bytes, n: nat, k: nat)
    requires |corrupt| == |data| && 2 * n <= |data| && k < n
    requires forall i | 0 <= i < |data| && i != 2 * k && i != 2 * k + 1 :: corrupt[i] == data[i]
    requires Word(corrupt, k) != Word(data, k)
    requires HeaderSum(data, n) == 0
    ensures HeaderSum(corrupt, n) != 0
  {
    HeaderSumIsWordTotalMod(data, n);
    HeaderSumIsWordTotalMod(corrupt, n);
    WordTotalOneWordChanged(data, corrupt, n, k);
    WordChangeBreaksZeroSum(WordTotal(data, n), WordTotal(corrupt, n), Word(data, k), Word(corrupt, k));
  }

  /** If t is 0 mod 2^16 and t' + a == t + b for distinct 16-bit a, b, then t' is not 0 mod 2^16. */
  lemma WordChangeBreaksZeroSum(t: nat, t': nat, a: uint16, b: uint16)
    requires t % 0x1_0000 == 0
    requires t' + a == t + b && a != b
    ensures t' % 0x1_0000 != 0
  {
    var q := t / 0x1_0000;
    assert t == q * 0x1_0000;
    if b > a {
      ModShift(b - a, q);
    } else {
      assert t' == (q - 1) * 0x1_0000 + (0x1_0000 - (a - b));
      ModShift(0x1_0000 - (a - b), q - 1);
    }
  }

  /**
   * A volume whose header differs from a valid one in exactly one 16-bit header word is rejected:
   * the checksum no longer holds, or, when the word is header_length, the block map no longer ends
   * at its (0,0) terminator.
   */
  lemma HeaderWordCorruptionRejected(data: Bytes, corrupt: Bytes, k: nat)
    requires New(data).Ok?
    requires |corrupt| == |data|
    requires 2 * k + 2 <= HeaderLength(data)
    requires forall i | 0 <= i < |data| && i != 2 * k && i != 2 * k + 1 :: corrupt[i] == data[i]
    requires Word(corrupt, k) != Word(data, k)
    ensures New(corrupt).Err?
  {
    if k == HEADER_LENGTH_WORD {
      HeaderLengthCorruptionRejected(data, corrupt);
    } else {
      assert HeaderLength(corrupt) == HeaderLength(data) by {
        assert corrupt[48] == data[48] && corrupt[49] == data[49];
      }
      ChecksumBrokenByOneWord(data, corrupt, HeaderLength(data) / 2, k);
    }
  }

  /**
   * A buffer that agrees with a valid volume from the block map on but declares another header_length
   * is rejected: the entries it then delimits stop before the (0,0) terminator or run past it.
   */
  lemma HeaderLengthCorruptionRejected(data: Bytes, corrupt: Bytes)
    requires New(data).Ok?
    requires |corrupt| == |data|
    requires forall j | FV_HEADER_SIZE <= j < |data| :: corrupt[j] == data[j]
    requires HeaderLength(corrupt) != HeaderLength(data)
    ensures New(corrupt).Err?
  {
    if FV_HEADER_SIZE <= HeaderLength(corrupt) <= |corrupt| {
      BlockMapBrokenByHeaderLength(data, corrupt);
    }
  }

  /** Over the same block map bytes, only one header_length delimits a well-formed block map. */
  lemma BlockMapBrokenByHeaderLength(data: Bytes, corrupt: Bytes)
    requires |data| >= FV_HEADER_SIZE && FV_HEADER_SIZE <= HeaderLength(data) <= |data|
    requires BlockMapWellformed(data)
    requires |corrupt| == |data| && FV_HEADER_SIZE <= HeaderLength(corrupt) <= |corrupt|
    requires forall j | FV_HEADER_SIZE <= j < |data| :: corrupt[j] == data[j]
    requires HeaderLength(corrupt) != HeaderLength(data)
    ensures !BlockMapWellformed(corrupt)
  {
    var n := (HeaderLength(data) - FV_HEADER_SIZE) / BLOCK_MAP_ENTRY_SIZE;
    var m := (HeaderLength(corrupt) - FV_HEADER_SIZE) / BLOCK_MAP_ENTRY_SIZE;
    if (HeaderLength(corrupt) - FV_HEADER_SIZE) % BLOCK_MAP_ENTRY_SIZE == 0 && m >= 1 {
      if m > n {
        EntryAtUnchanged(data, corrupt, n - 1);
      } else {
        EntryAtUnchanged(data, corrupt, m - 1);
      }
    }
  }

  /** Block map entries are read from the bytes after the fixed header only. */
  lemma EntryAtUnchanged(data: Bytes, corrupt: Bytes, i: nat)
    requires |corrupt| == |data| && FV_HEADER_SIZE + BLOCK_MAP_ENTRY_SIZE * (i + 1) <= |data|
    requires forall j | FV_HEADER_SIZE <= j < |data| :: corrupt[j] == data[j]
    ensures EntryAt(corrupt, i) == EntryAt(data, i)
  {
    var off := FV_HEADER_SIZE + BLOCK_MAP_ENTRY_SIZE * i;
    assert corrupt[off..off + 8] == data[off..off + 8];
  }

  /** A buffer that differs from a valid volume in any single header byte is rejected. */
  lemma SingleByteCorruptionRejected(data: Bytes, corrupt: Bytes, i: nat)
    requires New(data).Ok?
    requires i < HeaderLength(data)
    requires |corrupt| == |data| && corrupt[i] != data[i]
    requires forall j | 0 <= j < |data| && j != i :: corrupt[j] == data[j]
    ensures New(corrupt).Err?
  {
    SingleByteChangesItsWord(data, corrupt, i, HeaderLength(data));
    HeaderWordCorruptionRejected(data, corrupt, i / 2);
  }

  /** Changing the byte at i, inside the first h (even) bytes, changes word i / 2 of them and nothing else. */
  lemma SingleByteChangesItsWord(data: Bytes, corrupt: Bytes, i: nat, h: nat)
    requires i < h <= |data| == |corrupt| && h % 2 == 0
    requires corrupt[i] != data[i]
    requires forall j | 0 <= j < |data| && j != i :: corrupt[j] == data[j]
    ensures 2 * (i / 2) + 2 <= h
    ensures Word(corrupt, i / 2) != Word(data, i / 2)
    ensures forall j | 0 <= j < |data| && j != 2 * (i / 2) && j != 2 * (i / 2) + 1 :: corrupt[j] == data[j]
  {
    var k := i / 2;
    assert i == 2 * k || i == 2 * k + 1;
    if i == 2 * k {
      assert corrupt[i + 1] == data[i + 1];
    } else {
      assert corrupt[i - 1] == data[i - 1];
    }
  }

  // The corruptions of a valid volume that the source's own malformed-volume test applies, one by one
  // (the test XORs the signature with 0xdeadbeef and the checksum with 0xbeef; any other value is covered).

  lemma BadSignatureRejected(data: Bytes, signature: uint32)
    requires New(data).Ok?
    requires signature != FV_SIGNATURE
    ensures New(Overwrite(data, 40, LeBytes32(signature))).Err?
  {
    OverwriteReadBack32(data, 40, signature);
  }

  lemma ZeroHeaderLengthRejected(data: Bytes)
    requires New(data).Ok?
    ensures New(Overwrite(data, 48, LeBytes16(0))).Err?
  {
    OverwriteReadBack16(data, 48, 0);
  }

  lemma BadChecksumRejected(data: Bytes, checksum: uint16)
    requires New(data).Ok?
    requires checksum != Checksum(data)
    ensures New(Overwrite(data, 50, LeBytes16(checksum))).Err?
  {
    OverwriteReadBack16(data, 50, checksum);
    HeaderWordCorruptionRejected(data, Overwrite(data, 50, LeBytes16(checksum)), 25);
  }

  lemma OldRevisionRejected(data: Bytes)
    requires New(data).Ok?
    ensures New(data[55 := 1]).Err?
  {
  }

  lemma UnknownFileSystemRejected(data: Bytes)
    requires New(data).Ok?
    ensures New(Overwrite(data, 16, seq(16, _ => 0xa5))).Err?
  {
    FileSystemGuidOverwritten(data);
  }

  /** The file system GUID field overwritten with 0xa5 bytes reads back with time_low 0xa5a5a5a5. */
  lemma FileSystemGuidOverwritten(data: Bytes)
    requires |data| >= FV_HEADER_SIZE
    ensures FileSystemGuid(Overwrite(data, 16, seq(16, _ => 0xa5))).timeLow == 0xa5a5a5a5
  {
    var corrupt := Overwrite(data, 16, seq(16, _ => 0xa5));
    assert corrupt[16] == 0xa5 && corrupt[17] == 0xa5 && corrupt[18] == 0xa5 && corrupt[19] == 0xa5;
  }

  lemma ZeroFvLengthRejected(data: Bytes)
    requires New(data).Ok?
    ensures New(Overwrite(data, 32, LeBytes64(0))).Err?
  {
    OverwriteReadBack64(data, 32, 0);
  }

  lemma FvLengthBeforeExtHeaderRejected(data: Bytes)
    requires New(data).Ok?
    requires ExtHeaderOffset(data) != 0
    ensures New(Overwrite(data, 32, LeBytes64(ExtHeaderOffset(data) - 1))).Err?
  {
    var corrupt := Overwrite(data, 32, LeBytes64(ExtHeaderOffset(data) - 1));
    OverwriteReadBack64(data, 32, ExtHeaderOffset(data) - 1);
    assert ExtHeaderOffset(corrupt) == ExtHeaderOffset(data) by {
      assert corrupt[52] == data[52] && corrupt[53] == data[53];
    }
  }
}
