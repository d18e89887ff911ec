/**
 * Firmware File System (FFS) files inside a firmware volume, after UEFI PI 1.8A volume 3, section 3.2.2
 * (EFI_FFS_FILE_HEADER, EFI_FFS_FILE_HEADER2) and the FV file attributes of section 3.4.1.4.
 *
 * A file is identified by its volume and the offset of its header from the volume base.
 */
module Ffs {
  import opened Wrappers
  import opened Primitives
  import opened Guids
  import opened Fv

  /** size_of::<file::Header>() and size_of::<file::Header2>(). */
  const FFS_FILE_HEADER_SIZE: nat := 24
  const FFS_FILE_HEADER2_SIZE: nat := 32
  /** Files start on 8-byte boundaries. */
  const FFS_FILE_ALIGNMENT: nat := 8

  // EFI_FFS_FILE_ATTRIBUTES flags (DATA_ALIGNMENT is the 3-bit field 0x38).
  const FFS_ATTRIB_LARGE_FILE: nat := 0x01
  const FFS_ATTRIB_DATA_ALIGNMENT_2: nat := 0x02
  const FFS_ATTRIB_FIXED: nat := 0x04
  /** EFI_FV_FILE_ATTRIB_FIXED. */
  const EFI_FV_FILE_ATTRIB_FIXED: uint32 := 0x100

  /** `FfsFileHeader`: a standard header, or (when LARGE_FILE is set) the 32-byte extended one. */
  datatype FileHeaderKind = StandardHeader | ExtendedHeader {
    /** `data_offset()`: where the file data begins, relative to the file. */
    function DataOffset(): nat {
      match this
      case StandardHeader => FFS_FILE_HEADER_SIZE
      case ExtendedHeader => FFS_FILE_HEADER2_SIZE
    }
  }

  function TypeRawAt(data: Bytes, off: nat): uint8 requires off + FFS_FILE_HEADER_SIZE <= |data| { data[off + 18] }
  function AttributesRawAt(data: Bytes, off: nat): uint8 requires off + FFS_FILE_HEADER_SIZE <= |data| { data[off + 19] }

  /** `From<&file::Header>`: the header variant selected by the LARGE_FILE attribute. */
  function HeaderKindAt(data: Bytes, off: nat): FileHeaderKind
    requires off + FFS_FILE_HEADER_SIZE <= |data|
  {
    if HasFlag(AttributesRawAt(data, off), FFS_ATTRIB_LARGE_FILE) then ExtendedHeader else StandardHeader
  }

  datatype File = File(fv: FirmwareVolume, offset: nat) {

    /** The header (standard or extended, as its attributes say) lies inside the volume. */
    predicate HeaderInVolume() {
      && fv.Bounded()
      && offset + FFS_FILE_HEADER_SIZE <= fv.TopOffset()
      && offset + HeaderKindAt(fv.data, offset).DataOffset() <= fv.TopOffset()
    }

    function HeaderKind(): FileHeaderKind
      requires HeaderInVolume()
    {
      HeaderKindAt(fv.data, offset)
    }

    /** `file_size()`: the 24-bit size of a standard header, the 64-bit extended_size of an extended one. */
    function Size(): (r: nat)
      requires HeaderInVolume()
      ensures HeaderKind() == StandardHeader ==> r < 0x100_0000
    {
      match HeaderKind()
      case StandardHeader => LeUint24(fv.data, offset + 20)
      case ExtendedHeader => LeUint64(fv.data, offset + 24)
    }

    function DataOffset(): nat
      requires HeaderInVolume()
    {
      HeaderKind().DataOffset()
    }

    /** A file the parser hands out: its header and all its bytes lie inside the volume. */
    predicate Valid() {
      && HeaderInVolume()
      && DataOffset() <= Size()
      && offset + Size() <= fv.TopOffset()
    }

    /** `file_data_size()`: the size without the header. */
    function DataSize(): (r: nat)
      requires Valid()
      ensures r + DataOffset() == Size()
    {
      Size() - DataOffset()
    }

    /** `top_address()`, as an offset: one past the file's last byte. */
    function TopOffset(): (r: nat)
      requires Valid()
      ensures offset < r <= fv.TopOffset()
    {
      offset + Size()
    }

    /** `file_data()`: the bytes after the header up to the end of the file. */
    function Data(): (r: Bytes)
      requires Valid()
      ensures |r| == DataSize()
      ensures forall i | 0 <= i < |r| :: r[i] == fv.data[offset + DataOffset() + i]
    {
      fv.data[offset + DataOffset()..TopOffset()]
    }

    function Name(): Guid requires HeaderInVolume() { GuidAt(fv.data, offset) }
    function TypeRaw(): uint8 requires HeaderInVolume() { TypeRawAt(fv.data, offset) }
    function AttributesRaw(): uint8 requires HeaderInVolume() { AttributesRawAt(fv.data, offset) }
  }

  /**
   * `File::new`: the source rejects a base outside [FV base, FV top). The model also rejects a header that
   * does not fit in the volume, a size smaller than the header, and a file that runs past the volume end.
   */
  function FileNew(fv: FirmwareVolume, offset: nat): (r: Result<File, Status>)
    requires fv.Bounded()
    ensures r.Ok? <==> File(fv, offset).Valid()
    ensures r.Ok? ==> r.value == File(fv, offset)
  {
    if fv.TopOffset() <= offset then Err(InvalidParameter)
    else if !File(fv, offset).HeaderInVolume() then Err(InvalidParameter)
    else if File(fv, offset).Size() < File(fv, offset).DataOffset() then Err(InvalidParameter)
    else if offset + File(fv, offset).Size() > fv.TopOffset() then Err(InvalidParameter)
    else Ok(File(fv, offset))
  }

  /** `File::new` as written: only the range check (the header still has to be readable). */
  function FileNewAsWritten(fv: FirmwareVolume, offset: nat): (r: Result<File, Status>)
    requires fv.Bounded()
    ensures r.Ok? <==> File(fv, offset).HeaderInVolume()
    ensures r.Ok? ==> r.value == File(fv, offset)
  {
    if fv.TopOffset() <= offset then Err(InvalidParameter)
    else if !File(fv, offset).HeaderInVolume() then Err(InvalidParameter)
    else Ok(File(fv, offset))
  }

  /** The byte that erased flash reads as, from the volume's EFI_FVB2_ERASE_POLARITY attribute. */
  function EraseByte(fv: FirmwareVolume): (r: uint8)
    requires fv.Bounded()
    ensures r == 0xFF || r == 0
  {
    if HasFlag(fv.Attributes(), EFI_FVB2_ERASE_POLARITY) then 0xFF else 0
  }

  /** All `len` bytes from `from` read as the erase byte. */
  predicate Erased(data: Bytes, from: nat, len: nat, erase: uint8)
    requires from + len <= |data|
  {
    forall i | from <= i < from + len :: data[i] == erase
  }

  /**
   * `next_ffs_file`: the next file starts at the file's end rounded up to 8; there is none when fewer than
   * 56 bytes remain in the volume, or when the 56 bytes there are all erased.
   */
  function NextFfsFile(f: File): (r: Option<File>)
    requires f.Valid()
    ensures r.Some? ==> r.value.Valid() && r.value.fv == f.fv
    ensures r.Some? ==> r.value.offset == AlignUp(f.TopOffset(), FFS_FILE_ALIGNMENT)
    ensures var next := AlignUp(f.TopOffset(), FFS_FILE_ALIGNMENT);
      r.None? <==> (|| next + FV_HEADER_SIZE > f.fv.TopOffset()
                    || Erased(f.fv.data, next, FV_HEADER_SIZE, EraseByte(f.fv))
                    || !File(f.fv, next).Valid())
  {
    var next := AlignUp(f.TopOffset(), FFS_FILE_ALIGNMENT);
    if next <= f.fv.TopOffset() - FV_HEADER_SIZE then
      if Erased(f.fv.data, next, FV_HEADER_SIZE, EraseByte(f.fv)) then None
      else FileNew(f.fv, next).ToOption()
    else None
  }

  /** `next_ffs_file` over `File::new` as written, for a file whose header is readable. */
  function NextFfsFileAsWritten(f: File): (r: Option<File>)
    requires f.HeaderInVolume()
    ensures var next := AlignUp(f.offset + f.Size(), FFS_FILE_ALIGNMENT);
      r.Some? ==> r.value == File(f.fv, next) && r.value.HeaderInVolume()
    ensures var next := AlignUp(f.offset + f.Size(), FFS_FILE_ALIGNMENT);
      r.None? <==> (|| next + FV_HEADER_SIZE > f.fv.TopOffset()
                    || Erased(f.fv.data, next, FV_HEADER_SIZE, EraseByte(f.fv))
                    || !File(f.fv, next).HeaderInVolume())
  {
    var next := AlignUp(f.offset + f.Size(), FFS_FILE_ALIGNMENT);
    if next <= f.fv.TopOffset() - FV_HEADER_SIZE then
      if Erased(f.fv.data, next, FV_HEADER_SIZE, EraseByte(f.fv)) then None
      else FileNewAsWritten(f.fv, next).ToOption()
    else None
  }

  /**
   * With `File::new` as written, a standard header whose size field is 0 at an 8-aligned offset, followed by
   * bytes that are not all erased, is its own successor: iterating the files never ends.
   */
  lemma ZeroSizeFileIsItsOwnSuccessor(f: File)
    requires f.HeaderInVolume() && f.HeaderKind() == StandardHeader && f.Size() == 0
    requires f.offset % FFS_FILE_ALIGNMENT == 0
    requires f.offset + FV_HEADER_SIZE <= f.fv.TopOffset()
    requires !Erased(f.fv.data, f.offset, FV_HEADER_SIZE, EraseByte(f.fv))
    ensures NextFfsFileAsWritten(f) == Some(f)
  {
    AlignUpIsLeast(f.offset, FFS_FILE_ALIGNMENT, f.offset);
    var next := AlignUp(f.offset + f.Size(), FFS_FILE_ALIGNMENT);
    assert next == f.offset;
    assert FileNewAsWritten(f.fv, next) == Ok(f);
  }

  /** With the size check, every successor starts strictly after the end of its predecessor's header. */
  lemma NextFfsFileAdvances(f: File)
    requires f.Valid()
    ensures NextFfsFile(f).Some? ==> NextFfsFile(f).value.offset >= f.offset + f.DataOffset() > f.offset
  {
  }

  /** `first_ffs_file`: the file right after the extension header, or after the header when there is none. */
  function FirstFfsFile(fv: FirmwareVolume): (r: Option<File>)
    requires fv.Valid()
    ensures r.Some? ==> r.value.Valid() && r.value.fv == fv && r.value.offset == fv.FirstFileOffset()
    ensures r.Some? <==> File(fv, fv.FirstFileOffset()).Valid()
  {
    FileNew(fv, fv.FirstFileOffset()).ToOption()
  }

  /** The files `FileIterator` yields from `f` on: f, then its successors until there is none. */
  function FilesFrom(f: File): (r: seq<File>)
    requires f.Valid()
    ensures |r| >= 1 && r[0] == f
    ensures forall k | 0 <= k < |r| :: r[k].Valid() && r[k].fv == f.fv && f.offset <= r[k].offset
    ensures forall k, l | 0 <= k && l == k + 1 && l < |r| :: NextFfsFile(r[k]) == Some(r[l])
    ensures NextFfsFile(r[|r| - 1]).None?
    ensures forall k, l | 0 <= k && l == k + 1 && l < |r| :: r[l].offset == AlignUp(r[k].TopOffset(), FFS_FILE_ALIGNMENT)
    decreases f.fv.TopOffset() - f.offset
  {
    match NextFfsFile(f)
    case None => [f]
    case Some(g) =>
      var rest := FilesFrom(g);
      [f] + rest
  }

  /** `ffs_files()`: every file of the volume, in order. */
  function FfsFiles(fv: FirmwareVolume): (r: seq<File>)
    requires fv.Valid()
    ensures |r| <= fv.TopOffset()
    ensures r == [] <==> FirstFfsFile(fv).None?
    ensures forall k | 0 <= k < |r| :: r[k].Valid() && r[k].fv == fv
    ensures r != [] ==> r[0] == FirstFfsFile(fv).value && NextFfsFile(r[|r| - 1]).None?
    ensures forall k, l | 0 <= k && l == k + 1 && l < |r| :: NextFfsFile(r[k]) == Some(r[l])
  {
    match FirstFfsFile(fv)
    case None => []
    case Some(f) => FileChainLength(f); FilesFrom(f)
  }

  /** A chain holds at most one file per byte of the volume after its first file. */
  lemma {:induction false} FileChainLength(f: File)
    requires f.Valid()
    ensures |FilesFrom(f)| <= f.fv.TopOffset() - f.offset
    decreases f.fv.TopOffset() - f.offset
  {
    match NextFfsFile(f)
    case None =>
    case Some(g) => FileChainLength(g);
  }

  /** No two files of a chain overlap: each ends at or before the start of every later one. */
  lemma FileChainDisjoint(f: File, i: nat, j: nat)
    requires f.Valid()
    requires i < j < |FilesFrom(f)|
    ensures FilesFrom(f)[i].TopOffset() <= FilesFrom(f)[j].offset
  {
    AlignedSuccessorsDisjoint(FilesFrom(f), i, j);
  }

  /** Files that each start at their predecessor's end rounded up do not overlap. */
  lemma AlignedSuccessorsDisjoint(ff: seq<File>, i: nat, j: nat)
    requires forall k | 0 <= k < |ff| :: ff[k].Valid()
    requires forall k, l | 0 <= k && l == k + 1 && l < |ff| :: ff[l].offset == AlignUp(ff[k].TopOffset(), FFS_FILE_ALIGNMENT)
    requires i < j < |ff|
    ensures ff[i].TopOffset() <= ff[j].offset
  {
    var starts := seq(|ff|, k requires 0 <= k < |ff| => ff[k].offset);
    var ends := seq(|ff|, k requires 0 <= k < |ff| => ff[k].TopOffset());
    forall k | 0 <= k < |ff| ensures starts[k] <= ends[k] { }
    forall k, l | 0 <= k && l == k + 1 && l < |ff| ensures ends[k] <= starts[l] { }
    ChainedIntervalsDisjoint(starts, ends, i, j);
  }

  /** `FileIterator`: hands out the current file and advances to its successor. */
  class FileIterator {
    var nextFfs: Option<File>

    ghost predicate Valid()
      reads this
    {
      nextFfs.Some? ==> nextFfs.value.Valid()
    }

    /** The files the iterator has yet to yield. */
    ghost function Remaining(): seq<File>
      reads this
      requires Valid()
    {
      match nextFfs
      case None => []
      case Some(f) => FilesFrom(f)
    }

    constructor (start: Option<File>)
      requires start.Some? ==> start.value.Valid()
      ensures Valid() && nextFfs == start
    {
      nextFfs := start;
    }

    method Next() returns (r: Option<File>)
      requires Valid()
      modifies this
      ensures Valid()
      ensures old(Remaining()) == [] ==> r.None? && Remaining() == []
      ensures old(Remaining()) != [] ==> r == Some(old(Remaining())[0]) && Remaining() == old(Remaining())[1..]
    {
      if nextFfs.None? {
        return None;
      }
      var current := nextFfs.value;
      nextFfs := NextFfsFile(current);
      return Some(current);
    }
  }

  // File types.

  datatype FileType =
    | Raw | FreeForm | SecurityCore | PeiCore | DxeCore | Peim | Driver | CombinedPeimDriver | Application
    | Mm | FirmwareVolumeImage | CombinedMmDxe | MmCore | MmStandalone | MmCoreStandalone
    | OemMin | DebugMin | FfsPad | FfsUnknown

  /** `file_type()`: the named types, the OEM (0xC0-0xDF), debug (0xE0-0xEF) and FFS (0xF0-0xFF) ranges. */
  function FileTypeOf(raw: uint8): (r: Option<FileType>)
  {
    if raw == 0x01 then Some(Raw)
    else if raw == 0x02 then Some(FreeForm)
    else if raw == 0x03 then Some(SecurityCore)
    else if raw == 0x04 then Some(PeiCore)
    else if raw == 0x05 then Some(DxeCore)
    else if raw == 0x06 then Some(Peim)
    else if raw == 0x07 then Some(Driver)
    else if raw == 0x08 then Some(CombinedPeimDriver)
    else if raw == 0x09 then Some(Application)
    else if raw == 0x0A then Some(Mm)
    else if raw == 0x0B then Some(FirmwareVolumeImage)
    else if raw == 0x0C then Some(CombinedMmDxe)
    else if raw == 0x0D then Some(MmCore)
    else if raw == 0x0E then Some(MmStandalone)
    else if raw == 0x0F then Some(MmCoreStandalone)
    else if 0xC0 <= raw <= 0xDF then Some(OemMin)
    else if 0xE0 <= raw <= 0xEF then Some(DebugMin)
    else if raw == 0xF0 then Some(FfsPad)
    else if 0xF0 <= raw then Some(FfsUnknown)
    else None
  }

  /** The raw value of each type that names a single value (the ranges name their least value). */
  function FileTypeRaw(t: FileType): uint8 {
    match t
    case Raw => 0x01 case FreeForm => 0x02 case SecurityCore => 0x03 case PeiCore => 0x04
    case DxeCore => 0x05 case Peim => 0x06 case Driver => 0x07 case CombinedPeimDriver => 0x08
    case Application => 0x09 case Mm => 0x0A case FirmwareVolumeImage => 0x0B case CombinedMmDxe => 0x0C
    case MmCore => 0x0D case MmStandalone => 0x0E case MmCoreStandalone => 0x0F
    case OemMin => 0xC0 case DebugMin => 0xE0 case FfsPad => 0xF0 case FfsUnknown => 0xF1
  }

  /** Decoding the raw value of a type gives the type back, and only single-value types decode to themselves. */
  lemma FileTypeRoundTrip(t: FileType)
    ensures FileTypeOf(FileTypeRaw(t)) == Some(t)
  {
  }

  /** A raw type is rejected exactly when it is 0 or in the reserved gap 0x10-0xBF; ranges map as documented. */
  lemma FileTypeRanges(raw: uint8)
    ensures FileTypeOf(raw).None? <==> raw == 0 || 0x10 <= raw < 0xC0
    ensures FileTypeOf(raw) == Some(OemMin) <==> 0xC0 <= raw <= 0xDF
    ensures FileTypeOf(raw) == Some(DebugMin) <==> 0xE0 <= raw <= 0xEF
    ensures FileTypeOf(raw) == Some(FfsUnknown) <==> 0xF1 <= raw
    ensures 0x01 <= raw <= 0x0F ==> FileTypeOf(raw).Some? && FileTypeRaw(FileTypeOf(raw).value) == raw
  {
  }

  // FV file attributes.

  /** The 3-bit DATA_ALIGNMENT field, bits 3-5 of the attributes. */
  function DataAlignmentCode(attributes: uint8): (r: nat)
    ensures r < 8
  {
    (attributes / 8) % 8
  }

  /** The alignment exponent of table 3.3 of UEFI PI 1.8A volume 3. */
  function AlignmentExponent(code: nat, alignment2: bool): (r: nat)
    requires code < 8
  {
    if alignment2 then 17 + code else [0, 4, 7, 9, 10, 12, 15, 16][code]
  }

  /** `fv_file_attributes()`: the alignment exponent, with EFI_FV_FILE_ATTRIB_FIXED when FIXED is set. */
  function FvFileAttributes(attributes: uint8): (r: uint32)
    ensures r % 0x100 == AlignmentExponent(DataAlignmentCode(attributes), HasFlag(attributes, FFS_ATTRIB_DATA_ALIGNMENT_2))
    ensures r / 0x100 == (if HasFlag(attributes, FFS_ATTRIB_FIXED) then 1 else 0)
  {
    var exponent := AlignmentExponent(DataAlignmentCode(attributes), HasFlag(attributes, FFS_ATTRIB_DATA_ALIGNMENT_2));
    if HasFlag(attributes, FFS_ATTRIB_FIXED) then exponent + EFI_FV_FILE_ATTRIB_FIXED else exponent
  }

  /** The alignment exponent grows strictly with (DATA_ALIGNMENT_2, DATA_ALIGNMENT): every setting is distinct. */
  lemma AlignmentExponentStrictlyIncreasing(c1: nat, a1: bool, c2: nat, a2: bool)
    requires c1 < 8 && c2 < 8
    requires (!a1 && a2) || (a1 == a2 && c1 < c2)
    ensures AlignmentExponent(c1, a1) < AlignmentExponent(c2, a2)
  {
  }

  /** Two attribute bytes give the same FV file attributes exactly when they agree on the alignment and FIXED bits. */
  lemma FvFileAttributesInjective(x: uint8, y: uint8)
    ensures FvFileAttributes(x) == FvFileAttributes(y) <==>
      && DataAlignmentCode(x) == DataAlignmentCode(y)
      && HasFlag(x, FFS_ATTRIB_DATA_ALIGNMENT_2) == HasFlag(y, FFS_ATTRIB_DATA_ALIGNMENT_2)
      && HasFlag(x, FFS_ATTRIB_FIXED) == HasFlag(y, FFS_ATTRIB_FIXED)
  {
    var cx, cy := DataAlignmentCode(x), DataAlignmentCode(y);
    if FvFileAttributes(x) == FvFileAttributes(y) {
      var ax, ay := HasFlag(x, FFS_ATTRIB_DATA_ALIGNMENT_2), HasFlag(y, FFS_ATTRIB_DATA_ALIGNMENT_2);
      if (ax, cx) != (ay, cy) {
        if (!ax && ay) || (ax == ay && cx < cy) {
          AlignmentExponentStrictlyIncreasing(cx, ax, cy, ay);
        } else {
          AlignmentExponentStrictlyIncreasing(cy, ay, cx, ax);
        }
      }
    }
  }
}
