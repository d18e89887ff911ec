/**
 * FFS sections inside a file, after UEFI PI 1.8A volume 3, section 2.2.4 (EFI_COMMON_SECTION_HEADER and
 * EFI_COMMON_SECTION_HEADER2) and section 3.2.5 (the section types).
 *
 * A section is read either from its file (offsets from the volume base) or from an extraction buffer that
 * an extractor produced by unpacking an encapsulation section (offsets from the start of that buffer).
 */
module FfsSection {
  import opened Wrappers
  import opened Primitives
  import opened Fv
  import opened Ffs

  /** size_of::<CommonSectionHeaderStandard>() and size_of::<CommonSectionHeaderExtended>(). */
  const SECTION_HEADER_SIZE: nat := 4
  const SECTION_HEADER2_SIZE: nat := 8
  /** Sections start on 4-byte boundaries. */
  const SECTION_ALIGNMENT: nat := 4

  /**
   * The sizes of the metadata structures that follow the common header of the sections that have one
   * (`size_of::<Compression>()`, `size_of::<GuidDefined>()`, `size_of::<Version>()`,
   * `size_of::<FreeformSubtypeGuid>()`); the model takes them as a parameter.
   */
  datatype MetadataLayout = MetadataLayout(compression: nat, guidDefined: nat, version: nat, freeformSubtypeGuid: nat)

  /** `CommonSectionHeader`: the 8-byte extended header when the 3-byte size field is all 0xFF. */
  datatype SectionHeaderKind = StandardSection | ExtendedSection {
    /** `header_size()`. */
    function Size(): nat {
      match this
      case StandardSection => SECTION_HEADER_SIZE
      case ExtendedSection => SECTION_HEADER2_SIZE
    }
  }

  /** `SectionMetaData`: which metadata structure follows the common header. */
  datatype MetaDataKind = NoMetaData | CompressionMetaData | GuidDefinedMetaData | VersionMetaData | FreeformSubtypeGuidMetaData

  // Raw section types (EFI_SECTION_*).
  const EFI_SECTION_COMPRESSION: uint8 := 0x01
  const EFI_SECTION_GUID_DEFINED: uint8 := 0x02
  const EFI_SECTION_DISPOSABLE: uint8 := 0x03
  const EFI_SECTION_PE32: uint8 := 0x10
  const EFI_SECTION_PIC: uint8 := 0x11
  const EFI_SECTION_TE: uint8 := 0x12
  const EFI_SECTION_DXE_DEPEX: uint8 := 0x13
  const EFI_SECTION_VERSION: uint8 := 0x14
  const EFI_SECTION_USER_INTERFACE: uint8 := 0x15
  const EFI_SECTION_COMPATIBILITY16: uint8 := 0x16
  const EFI_SECTION_FIRMWARE_VOLUME_IMAGE: uint8 := 0x17
  const EFI_SECTION_FREEFORM_SUBTYPE_GUID: uint8 := 0x18
  const EFI_SECTION_RAW: uint8 := 0x19
  const EFI_SECTION_PEI_DEPEX: uint8 := 0x1B
  const EFI_SECTION_MM_DEPEX: uint8 := 0x1C

  /** The metadata structure `Section::new` reads for each raw type. */
  function MetaDataKindOf(rawType: uint8): MetaDataKind {
    if rawType == EFI_SECTION_COMPRESSION then CompressionMetaData
    else if rawType == EFI_SECTION_GUID_DEFINED then GuidDefinedMetaData
    else if rawType == EFI_SECTION_VERSION then VersionMetaData
    else if rawType == EFI_SECTION_FREEFORM_SUBTYPE_GUID then FreeformSubtypeGuidMetaData
    else NoMetaData
  }

  function MetaDataSize(layout: MetadataLayout, kind: MetaDataKind): nat {
    match kind
    case NoMetaData => 0
    case CompressionMetaData => layout.compression
    case GuidDefinedMetaData => layout.guidDefined
    case VersionMetaData => layout.version
    case FreeformSubtypeGuidMetaData => layout.freeformSubtypeGuid
  }

  /** `CommonSectionHeader::new`: extended exactly when the three size bytes are all 0xFF. */
  function SectionHeaderKindAt(buffer: Bytes, off: nat): SectionHeaderKind
    requires off + SECTION_HEADER_SIZE <= |buffer|
  {
    if buffer[off] == 0xFF && buffer[off + 1] == 0xFF && buffer[off + 2] == 0xFF then ExtendedSection
    else StandardSection
  }

  /** `section_size()`: the 24-bit size, or the 32-bit extended_size of an extended header. */
  function SectionSizeAt(buffer: Bytes, off: nat, kind: SectionHeaderKind): nat
    requires off + kind.Size() <= |buffer|
  {
    match kind
    case StandardSection => LeUint24(buffer, off)
    case ExtendedSection => LeUint32(buffer, off + 4)
  }

  /**
   * Where a section's offset points: the bytes it is read from and the end of the region its sections may
   * occupy. For a section of a file this is the volume's buffer up to the file's end; for a section of an
   * extraction buffer it is that whole buffer.
   */
  datatype Container = Container(buffer: Bytes, top: nat)

  /** The container `next_section` computes from the containing file and extraction buffer. */
  function ContainerOf(file: File, extraction: Option<Bytes>): (c: Container)
    requires file.Valid()
    ensures c.top <= |c.buffer|
    ensures extraction.Some? ==> c == Container(extraction.value, |extraction.value|)
    ensures extraction.None? ==> c.buffer == file.fv.data && c.top == file.TopOffset()
  {
    match extraction
    case Some(buffer) => Container(buffer, |buffer|)
    case None => Container(file.fv.data, file.TopOffset())
  }

  /**
   * A section: its file, the extraction buffer it lives in (None when it lives in the file itself), the
   * container those two determine, the offset of its header in that container, and its decoded header fields.
   */
  datatype Section = Section(
    file: File,
    extraction: Option<Bytes>,
    container: Container,
    offset: nat,
    header: SectionHeaderKind,
    rawType: uint8,
    size: nat,
    metaData: MetaDataKind)
  {
    /** One past the section's last byte, in its container's offsets. */
    function End(): (r: nat)
      ensures offset <= r
    {
      offset + size
    }

    /** The bytes the section's offset refers to. */
    function Buffer(): Bytes { container.buffer }

    /** The end of the container: the extraction buffer's end, or the end of the file. */
    function Top(): nat { container.top }

    /** The container is the one the section's file and extraction buffer determine. */
    predicate InFile() {
      file.Valid() && container == ContainerOf(file, extraction)
    }

    /** The header, metadata and data of the section lie in its container, as its header says. */
    predicate Valid(layout: MetadataLayout) {
      && Top() <= |Buffer()|
      && offset + SECTION_HEADER_SIZE <= Top()
      && header == SectionHeaderKindAt(Buffer(), offset)
      && offset + header.Size() <= Top()
      && rawType == Buffer()[offset + 3]
      && size == SectionSizeAt(Buffer(), offset, header)
      && metaData == MetaDataKindOf(rawType)
      && header.Size() + MetaDataSize(layout, metaData) <= size
      && offset + size <= Top()
    }

    /** `section_data()`: the bytes after the header and metadata, up to the end of the section. */
    function Data(layout: MetadataLayout): (r: Bytes)
      requires Valid(layout)
      ensures |r| + header.Size() + MetaDataSize(layout, metaData) == size
      ensures forall i | 0 <= i < |r| :: r[i] == Buffer()[offset + header.Size() + MetaDataSize(layout, metaData) + i]
    {
      Buffer()[offset + header.Size() + MetaDataSize(layout, metaData)..offset + size]
    }
  }

  /**
   * `Section::new` (with the extraction buffer `new_in_extraction_buffer` or `next_section` then records).
   * The source reads the header without bounds checks and computes the data length by an unchecked
   * subtraction; the model rejects a header that does not fit in the container, a size smaller than header
   * plus metadata, and a section that runs past the end of its container.
   */
  function SectionNew(layout: MetadataLayout, file: File, extraction: Option<Bytes>, container: Container, offset: nat)
    : (r: Result<Section, Status>)
    requires container.top <= |container.buffer|
    ensures r.Ok? ==> r.value.Valid(layout)
    ensures r.Ok? ==> r.value.file == file && r.value.extraction == extraction && r.value.container == container
    ensures r.Ok? ==> r.value.offset == offset
  {
    var buffer, top := container.buffer, container.top;
    if top < offset + SECTION_HEADER_SIZE then Err(InvalidParameter)
    else
      var header := SectionHeaderKindAt(buffer, offset);
      if top < offset + header.Size() then Err(InvalidParameter)
      else
        var rawType := buffer[offset + 3];
        var size := SectionSizeAt(buffer, offset, header);
        var metaData := MetaDataKindOf(rawType);
        if size < header.Size() + MetaDataSize(layout, metaData) then Err(InvalidParameter)
        else if top < offset + size then Err(InvalidParameter)
        else Ok(Section(file, extraction, container, offset, header, rawType, size, metaData))
  }

  /** Constructing a section where a valid one lies gives that section back: decoding is exact. */
  lemma SectionNewFindsValidSection(layout: MetadataLayout, s: Section)
    requires s.Valid(layout)
    ensures SectionNew(layout, s.file, s.extraction, s.container, s.offset) == Ok(s)
  {
  }

  /** `new_in_extraction_buffer`: a section read from an extractor's output buffer. */
  function NewInExtractionBuffer(layout: MetadataLayout, file: File, offset: nat, buffer: Bytes): (r: Result<Section, Status>)
    requires file.Valid()
    ensures r.Ok? ==> r.value.Valid(layout) && r.value.InFile() && r.value.offset == offset
    ensures r.Ok? ==> r.value.extraction == Some(buffer) && r.value.Top() == |buffer|
  {
    SectionNew(layout, file, Some(buffer), ContainerOf(file, Some(buffer)), offset)
  }

  // Section types.

  datatype SectionType =
    | Compression | GuidDefined | Disposable | Pe32 | Pic | Te | DxeDepex | Version | UserInterface
    | Compatibility16 | FirmwareVolumeImage | FreeformSubtypeGuid | Raw | PeiDepex | MmDepex

  /** `section_type()`: the fifteen known raw types; any other value is None. */
  function SectionTypeOf(rawType: uint8): Option<SectionType> {
    if rawType == EFI_SECTION_COMPRESSION then Some(Compression)
    else if rawType == EFI_SECTION_GUID_DEFINED then Some(GuidDefined)
    else if rawType == EFI_SECTION_DISPOSABLE then Some(Disposable)
    else if rawType == EFI_SECTION_PE32 then Some(Pe32)
    else if rawType == EFI_SECTION_PIC then Some(Pic)
    else if rawType == EFI_SECTION_TE then Some(Te)
    else if rawType == EFI_SECTION_DXE_DEPEX then Some(DxeDepex)
    else if rawType == EFI_SECTION_VERSION then Some(Version)
    else if rawType == EFI_SECTION_USER_INTERFACE then Some(UserInterface)
    else if rawType == EFI_SECTION_COMPATIBILITY16 then Some(Compatibility16)
    else if rawType == EFI_SECTION_FIRMWARE_VOLUME_IMAGE then Some(SectionType.FirmwareVolumeImage)
    else if rawType == EFI_SECTION_FREEFORM_SUBTYPE_GUID then Some(FreeformSubtypeGuid)
    else if rawType == EFI_SECTION_RAW then Some(SectionType.Raw)
    else if rawType == EFI_SECTION_PEI_DEPEX then Some(PeiDepex)
    else if rawType == EFI_SECTION_MM_DEPEX then Some(MmDepex)
    else None
  }

  function SectionTypeRaw(t: SectionType): uint8 {
    match t
    case Compression => EFI_SECTION_COMPRESSION
    case GuidDefined => EFI_SECTION_GUID_DEFINED
    case Disposable => EFI_SECTION_DISPOSABLE
    case Pe32 => EFI_SECTION_PE32
    case Pic => EFI_SECTION_PIC
    case Te => EFI_SECTION_TE
    case DxeDepex => EFI_SECTION_DXE_DEPEX
    case Version => EFI_SECTION_VERSION
    case UserInterface => EFI_SECTION_USER_INTERFACE
    case Compatibility16 => EFI_SECTION_COMPATIBILITY16
    case FirmwareVolumeImage => EFI_SECTION_FIRMWARE_VOLUME_IMAGE
    case FreeformSubtypeGuid => EFI_SECTION_FREEFORM_SUBTYPE_GUID
    case Raw => EFI_SECTION_RAW
    case PeiDepex => EFI_SECTION_PEI_DEPEX
    case MmDepex => EFI_SECTION_MM_DEPEX
  }

  /** Decoding a raw type gives t exactly when the raw type is t's value. */
  lemma SectionTypeRoundTrip(rawType: uint8, t: SectionType)
    ensures SectionTypeOf(rawType) == Some(t) <==> SectionTypeRaw(t) == rawType
  {
  }

  /** The raw types with no known section type: 0, 0x04-0x0F, 0x1A, and 0x1D and above. */
  lemma SectionTypeUnknown(rawType: uint8)
    ensures SectionTypeOf(rawType).None? <==>
      rawType == 0 || 0x04 <= rawType <= 0x0F || rawType == 0x1A || 0x1D <= rawType
  {
  }

  /** `is_encapsulation()`: compression and GUID-defined sections (a disposable section is not one). */
  predicate IsEncapsulation(s: Section) {
    SectionTypeOf(s.rawType) == Some(Compression) || SectionTypeOf(s.rawType) == Some(GuidDefined)
  }

  lemma IsEncapsulationRawTypes(s: Section)
    ensures IsEncapsulation(s) <==> s.rawType == EFI_SECTION_COMPRESSION || s.rawType == EFI_SECTION_GUID_DEFINED
  {
  }

  // Walking the sections of a container.

  /**
   * `next_section`: the next section starts at the section's end rounded up to 4; there is none when that
   * leaves no room for a standard header before the end of the container.
   */
  function NextSection(layout: MetadataLayout, s: Section): (r: Option<Section>)
    requires s.Top() <= |s.Buffer()|
    ensures r.Some? ==> r.value.Valid(layout)
    ensures r.Some? ==> r.value.file == s.file && r.value.extraction == s.extraction && r.value.container == s.container
    ensures r.Some? ==> r.value.offset == AlignUp(s.End(), SECTION_ALIGNMENT)
    ensures var next := AlignUp(s.End(), SECTION_ALIGNMENT);
      r.None? <==> (|| next + SECTION_HEADER_SIZE > s.Top()
                    || SectionNew(layout, s.file, s.extraction, s.container, next).Err?)
  {
    var next := AlignUp(s.End(), SECTION_ALIGNMENT);
    if next + SECTION_HEADER_SIZE <= s.Top() then SectionNew(layout, s.file, s.extraction, s.container, next).ToOption()
    else None
  }

  /** Every successor starts at or after the end of its predecessor, so walking a container ends. */
  lemma NextSectionAdvances(layout: MetadataLayout, s: Section)
    requires s.Valid(layout)
    ensures NextSection(layout, s).Some? ==>
      && s.End() <= NextSection(layout, s).value.offset
      && NextSection(layout, s).value.offset > s.offset
      && NextSection(layout, s).value.Top() == s.Top()
  {
  }

  /** `first_ffs_section`: none when the file has no data, else the section right after the file header. */
  function FirstFfsSection(layout: MetadataLayout, f: File): (r: Option<Section>)
    requires f.Valid()
    ensures r.Some? ==> r.value.Valid(layout) && r.value.InFile() && r.value.file == f && r.value.extraction.None?
    ensures r.Some? ==> r.value.offset == f.offset + f.DataOffset() && f.DataSize() > 0
    ensures r.Some? <==>
      f.Size() > f.DataOffset() && SectionNew(layout, f, None, ContainerOf(f, None), f.offset + f.DataOffset()).Ok?
  {
    if f.Size() <= f.DataOffset() then None
    else SectionNew(layout, f, None, ContainerOf(f, None), f.offset + f.DataOffset()).ToOption()
  }

  /** The physical sections from s on: s and its successors in the same container. */
  function SectionsFrom(layout: MetadataLayout, s: Section): (r: seq<Section>)
    requires s.Valid(layout)
    ensures |r| >= 1 && r[0] == s
    ensures forall k | 0 <= k < |r| :: r[k].Valid(layout) && s.offset <= r[k].offset
    ensures forall k | 0 <= k < |r| :: r[k].file == s.file && r[k].extraction == s.extraction && r[k].container == s.container
    ensures forall k, l | 0 <= k && l == k + 1 && l < |r| :: NextSection(layout, r[k]) == Some(r[l])
    ensures NextSection(layout, r[|r| - 1]).None?
    ensures forall k, l | 0 <= k && l == k + 1 && l < |r| :: r[l].offset == AlignUp(r[k].End(), SECTION_ALIGNMENT)
    decreases s.Top() - s.offset
  {
    match NextSection(layout, s)
    case None => [s]
    case Some(t) => [s] + SectionsFrom(layout, t)
  }

  /** No two sections of a chain overlap: each ends at or before the start of every later one. */
  lemma SectionChainDisjoint(layout: MetadataLayout, s: Section, i: nat, j: nat)
    requires s.Valid(layout)
    requires i < j < |SectionsFrom(layout, s)|
    ensures SectionsFrom(layout, s)[i].End() <= SectionsFrom(layout, s)[j].offset
  {
    AlignedSuccessorsDisjoint(SectionsFrom(layout, s), i, j);
  }

  /** Sections that each start at their predecessor's end rounded up do not overlap. */
  lemma AlignedSuccessorsDisjoint(ss: seq<Section>, i: nat, j: nat)
    requires forall k, l | 0 <= k && l == k + 1 && l < |ss| :: ss[l].offset == AlignUp(ss[k].End(), SECTION_ALIGNMENT)
    requires i < j < |ss|
    ensures ss[i].End() <= ss[j].offset
  {
    var starts := seq(|ss|, k requires 0 <= k < |ss| => ss[k].offset);
    var ends := seq(|ss|, k requires 0 <= k < |ss| => ss[k].End());
    forall k | 0 <= k < |ss| ensures starts[k] <= ends[k] { }
    forall k, l | 0 <= k && l == k + 1 && l < |ss| ensures ends[k] <= starts[l] { }
    ChainedIntervalsDisjoint(starts, ends, i, j);
  }
}
