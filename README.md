# mu_rust_pi firmware storage and HOB intervals in Dafny

This project models the UEFI Platform Initialization (PI) firmware-storage parser of mu_rust_pi and the
interval helpers of its serializable HOB types, and proves properties of the model.

- **Firmware volumes** (`fv.dfy`, module `Fv`). `New` validates a raw buffer as a firmware volume: the header
  guards in the order the parser applies them. The header checksum is the wrapping sum of little-endian
  16-bit words. The volume then offers the extension header, the volume name, the first file offset and the
  attributes. `BlockMap` walks the block map to its first dead entry, and `GetLbaInfo` turns a logical block
  address into (offset, block size, remaining blocks).
- **FFS files** (`ffs.dfy`, module `Ffs`). A file is a header at an offset of its volume: the standard
  24-bit-size header, or the extended 64-bit-size one when LARGE_FILE is set. The next file starts at the end
  of the current one rounded up to 8. The walk stops where 56 bytes of erased flash begin, or where no room
  is left. `FileIterator` is a class whose `Next` hands out files in that order. File types and FV file
  attributes are decoded as in section 3 of volume 3 of the UEFI PI specification 1.8A.
- **FFS sections** (`ffs_section.dfy`, module `FfsSection`). A section is a common header, standard or
  extended (size bytes all 0xFF), optional typed metadata, and data. It lives either in its file or in an
  extraction buffer. The next section starts at the end of the current one rounded up to 4.
- **The section iterator** (`ffs_section_iterator.dfy`, module `FfsSectionIterator`). The `SectionIterator`
  class walks the physical sections of a file. An extractor unpacks each encapsulation section, and the
  sections it returns go to the front of a queue in their order. `Step` is the specification of one `next()`
  call. The model proves that the iterator yields the pre-order expansion of the section tree.
- **Hex format** (`hex_format.dfy`, module `HexFormat`). `Serialize` writes a number as `"0x"` followed by
  lower-case hex digits. `Deserialize` requires the prefix and parses the rest like `from_str_radix(_, 16)` at
  the field's width.
- **GUID formatting and intervals** (`serializable.dfy`, module `Serializable`, and `serializable_hob.dfy`,
  module `SerializableHob`). `FormatGuid` writes the 8-4-4-4-12 form. Memory allocation and resource
  descriptors are half-open address intervals `[start, end)` with `length`, `contains`, `overlaps`,
  `adjacent`, `merge` and `try_merge`, each descriptor type with its own order. `MergeIntervals` sorts a list
  and coalesces neighbours that overlap or touch.

Every address of the firmware image is an offset into one immutable byte sequence (`Primitives.Bytes`).
The volume base is offset 0, and the end of the volume is its `fv_length`. Fixed-width fields are
subset types of `int` (`uint8` … `uint64`), read little-endian by `LeUint16`/`LeUint24`/`LeUint32`/`LeUint64`.

Where the code departs from the UEFI Platform Initialization (PI) specification, volume 3, the model follows the code:
- The PI specification's EFI_GUID_DEFINED_SECTION has a DataOffset field that says where the section's data
  starts. The code ignores that field: the data starts right after the fixed GUID-defined metadata structure
  (ffs.rs:421-423).
- Neither `Section::new` nor `File::new` checks that what it reads lies inside the buffer. The model adds
  those checks; they are listed below.

## Model

| member | source | states |
|---|---|---|
| Fv.New | src/fw_fs/fv.rs:88-196 | A buffer is accepted exactly when it is `Wellformed`: header present, signature '_FVH', header_length at least the header size, inside the buffer and even, header words summing to 0 mod 2^16, revision at least 2, an FFS2 or FFS3 file system GUID, header_length <= fv_length <= buffer length, ext_header_offset <= fv_length, the extension header and its declared size inside the buffer, and a block map of whole entries ending in (0,0) with no (0,0) before it. The accepted volume views that same buffer. |
| Fv.BlockMapAcceptedIffWellformed | src/fw_fs/fv.rs:172-193 | The chunk-by-chunk checks of `new` (length a multiple of 8, last entry (0,0), no (0,0) before it) hold exactly when the declarative block-map condition holds. |
| Fv.FirmwareVolume.ExtHeader | src/fw_fs/fv.rs:205-214 | The extension header is present exactly when ext_header_offset is non-zero, and then it and its declared size lie inside the buffer. |
| Fv.FirmwareVolume.FvName | src/fw_fs/fv.rs:238-243 | The name is present exactly when there is an extension header, and it is the GUID stored at ext_header_offset. |
| Fv.FirmwareVolume.FirstFileOffset | src/fw_fs/fv.rs:245-255 | The first file is looked for inside the buffer: right after the extension header when there is one, else at header_length. |
| Fv.FirmwareVolume.BlockMap | src/fw_fs/fv.rs:216-231 | The walk returns the block-map entries before the first entry with a zero field. |
| Fv.LiveBlockMapIsLongestLivePrefix | src/fw_fs/fv.rs:223-229 | The entries `block_map()` returns are the longest prefix whose entries have both fields non-zero. |
| Fv.LiveBlockMapEntriesNonZero | src/fw_fs/fv.rs:225-228 | Every returned entry has a non-zero block count and a non-zero length, and the walk never passes the end of the map. |
| Fv.LbaInfoOf | src/fw_fs/fv.rs:271-291 | The accumulating loop of `get_lba_info` computes `LbaInfoAsWritten` of the block map. |
| Fv.FirmwareVolume.GetLbaInfo | src/fw_fs/fv.rs:270-292 | `get_lba_info` on a volume is `LbaInfoAsWritten` of the entries `block_map()` returns. |
| Fv.LbaArithmeticStopsAtCoveringEntry | src/fw_fs/fv.rs:273-291 | The loop stops at the covering entry, so a later entry whose offset arithmetic would overflow does not matter: 0x20000 blocks of 0x200 bytes then 0x10 of 0x10000, lba 0x10000, give (0x2000000, 0x200, 0x10000). |
| Fv.LbaInfoAsWritten | src/fw_fs/fv.rs:286-291 | The lookup fails exactly when lba is at or past the total block count. |
| Fv.LbaInfoAsWrittenBlockSize | src/fw_fs/fv.rs:277-291 | On success the block size is that of the first entry whose cumulative count passes lba, and the remaining count is that cumulative count minus lba, at least 1. |
| Fv.CoveringEntryIs | src/fw_fs/fv.rs:277-282 | The entry at which the loop stops is unique: any entry whose block range holds lba is it. |
| Fv.LbaInfoCorrected | src/fw_fs/fv.rs:270-292 | `get_lba_info` with lba counted from the covering entry's first block. It fails exactly when lba is at or past the total block count. |
| Fv.LbaInfoCorrectedIsBlockOffset | src/fw_fs/fv.rs:283-291 | The corrected offset is the byte offset of block lba: the sizes of all blocks before it, summed block by block. |
| Fv.LbaInfoCorrectedInBounds | src/fw_fs/fv.rs:283-291 | The block at the corrected offset ends inside the region the block map describes. |
| Fv.LbaOffsetAsWrittenOverruns | src/fw_fs/fv.rs:291 | With 2 blocks of 4 KiB then 2 of 8 KiB, block 3 starts at 16 KiB. The source returns 32 KiB, past the 24 KiB the map describes. |
| Fv.HeaderSumIsWordTotalMod | src/fw_fs/fv.rs:118-120 | The `Wrapping<u16>` sum of the header words is their plain sum mod 2^16. |
| Fv.ChecksumBrokenByOneWord | src/fw_fs/fv.rs:118-124 | Changing exactly one summed word of a header whose sum is 0 makes the sum non-zero. |
| Fv.HeaderWordCorruptionRejected | src/fw_fs/fv.rs:113-124 | A valid volume with any one header word changed is rejected: by the checksum, or by the block map check when the word is header_length. |
| Fv.HeaderLengthCorruptionRejected | src/fw_fs/fv.rs:172-194 | A buffer that agrees with a valid volume from the block map on but has another header_length is rejected: its block map no longer ends exactly at the (0,0) terminator. |
| Fv.SingleByteCorruptionRejected | src/fw_fs/fv.rs:113-124 | A valid volume with any single header byte changed is rejected. |
| Fv.BadSignatureRejected | src/fw_fs/fv.rs:515-521 | A valid volume with any other signature is rejected. |
| Fv.ZeroHeaderLengthRejected | src/fw_fs/fv.rs:523-529 | A valid volume with header_length 0 is rejected. |
| Fv.BadChecksumRejected | src/fw_fs/fv.rs:531-537 | A valid volume with any other checksum value is rejected. |
| Fv.OldRevisionRejected | src/fw_fs/fv.rs:539-545 | A valid volume with revision 1 is rejected. |
| Fv.UnknownFileSystemRejected | src/fw_fs/fv.rs:547-553 | A valid volume whose file system GUID is all 0xa5 bytes is rejected. |
| Fv.ZeroFvLengthRejected | src/fw_fs/fv.rs:555-561 | A valid volume with fv_length 0 is rejected. |
| Fv.FvLengthBeforeExtHeaderRejected | src/fw_fs/fv.rs:563-569 | A valid volume with an extension header is rejected once fv_length is ext_header_offset - 1. |
| Ffs.File.Size | src/fw_fs/ffs.rs:59-70 | A standard header's size is below 2^24, as its 3-byte field allows. |
| Ffs.File.DataSize | src/fw_fs/ffs.rs:140-142 | Header size plus data size is the file size. |
| Ffs.File.TopOffset | src/fw_fs/ffs.rs:207-209 | A file ends after it starts and no later than the end of its volume. |
| Ffs.File.Data | src/fw_fs/ffs.rs:212-215 | The data is the DataSize bytes that follow the header. |
| Ffs.FileNew | src/fw_fs/ffs.rs:118-132 | A file is built exactly when it is `Valid`: header in the volume, size at least the header, and all of it inside the volume. |
| Ffs.FileNewAsWritten | src/fw_fs/ffs.rs:118-132 | As written, a file is built whenever its header can be read, whatever its size field says. |
| Ffs.EraseByte | src/fw_fs/ffs.rs:228-229 | The erase byte is 0xFF or 0. |
| Ffs.NextFfsFile | src/fw_fs/ffs.rs:218-245 | A next file is a valid file of the same volume at the current end rounded up to 8, and there is none exactly when fewer than 56 bytes remain there, those 56 bytes are all erase bytes, or no valid file starts there. |
| Ffs.NextFfsFileAsWritten | src/fw_fs/ffs.rs:218-245 | With `File::new` as written: the next file is the one at the current end rounded up to 8 whose header is readable, and there is none exactly when fewer than 56 bytes remain, they are all erase bytes, or the header there is not readable. |
| Ffs.NextFfsFileAdvances | src/fw_fs/ffs.rs:218-241 | With the size check, the next file starts past the end of the current header. |
| Ffs.ZeroSizeFileIsItsOwnSuccessor | src/fw_fs/ffs.rs:218-241 | As written, an 8-aligned standard header with size 0 in front of unerased bytes is its own successor. |
| Ffs.FirstFfsFile | src/fw_fs/fv.rs:245-257 | The first file is valid, belongs to the volume, and starts at the first file offset; there is one exactly when a valid file starts at that offset. |
| Ffs.FilesFrom | src/fw_fs/ffs.rs:305-311 | The iterator's files are valid files of one volume, starting with the first file, each the `next_ffs_file` of its predecessor (at its end rounded up to 8), and the last has no next file. |
| Ffs.FfsFiles | src/fw_fs/fv.rs:260-262 | A volume yields no more files than it has bytes; none exactly when there is no first file; otherwise the first file, each next the successor of the one before, up to a file with no successor. |
| Ffs.FileChainLength | src/fw_fs/ffs.rs:305-311 | A chain holds at most one file per byte after its first file, so file iteration ends. |
| Ffs.FileChainDisjoint | src/fw_fs/ffs.rs:218-225 | No two files of a chain overlap: each ends at or before every later one starts. |
| Ffs.FileIterator.constructor | src/fw_fs/ffs.rs:300-302 | The iterator starts at the given file. |
| Ffs.FileIterator.Next | src/fw_fs/ffs.rs:307-311 | `next()` yields the first remaining file and leaves the rest; it yields None once nothing remains. |
| Ffs.FileTypeRoundTrip | src/fw_fs/ffs.rs:145-168 | Decoding the raw value of every file type gives that type back. |
| Ffs.FileTypeRanges | src/fw_fs/ffs.rs:145-168 | The file type is unknown exactly for 0 and 0x10-0xBF. OEM, debug and FFS cover their ranges, and single values decode to themselves. |
| Ffs.DataAlignmentCode | src/fw_fs/ffs.rs:173 | The DATA_ALIGNMENT field is below 8, so the panic arm of `fv_file_attributes` is unreachable. |
| Ffs.FvFileAttributes | src/fw_fs/ffs.rs:171-194 | The low byte is the table 3.3 alignment exponent of (DATA_ALIGNMENT, DATA_ALIGNMENT_2). FIXED is set exactly when the file's FIXED bit is. |
| Ffs.AlignmentExponentStrictlyIncreasing | src/fw_fs/ffs.rs:175-189 | The alignment exponent grows strictly with (DATA_ALIGNMENT_2, DATA_ALIGNMENT). |
| Ffs.FvFileAttributesInjective | src/fw_fs/ffs.rs:171-194 | Two attribute bytes map to the same FV file attributes exactly when they agree on the alignment bits and FIXED. |
| FfsSection.ContainerOf | src/fw_fs/ffs.rs:552-555 | A section's limit is the end of its extraction buffer when it has one, else the end of its file. |
| FfsSection.Section.Data | src/fw_fs/ffs.rs:407-451 | The data is the bytes after the header and metadata, up to the section's size. |
| FfsSection.SectionNew | src/fw_fs/ffs.rs:404-454 | A built section is valid in its container (header kind, type, size and metadata as the bytes say) and sits at the given offset. |
| FfsSection.SectionNewFindsValidSection | src/fw_fs/ffs.rs:404-454 | Building a section where a valid one lies gives exactly that section. |
| FfsSection.NewInExtractionBuffer | src/fw_fs/ffs.rs:465-473 | A section read from an extraction buffer records that buffer and is bounded by its length. |
| FfsSection.SectionTypeRoundTrip | src/fw_fs/ffs.rs:493-512 | A raw type decodes to t exactly when it is t's raw value. |
| FfsSection.SectionTypeUnknown | src/fw_fs/ffs.rs:493-512 | The section type is unknown exactly for 0, 0x04-0x0F, 0x1A and 0x1D and above. |
| FfsSection.IsEncapsulationRawTypes | src/fw_fs/ffs.rs:532-535 | The encapsulation sections are exactly the raw types COMPRESSION and GUID_DEFINED. |
| FfsSection.NextSection | src/fw_fs/ffs.rs:543-565 | A next section is valid, in the same file and container, at the current end rounded up to 4, and there is none exactly when no standard header fits before the container's end there or `Section::new` rejects what lies there. |
| FfsSection.NextSectionAdvances | src/fw_fs/ffs.rs:543-565 | The next section starts at or after the end of the current one, within the same limit. |
| FfsSection.FirstFfsSection | src/fw_fs/ffs.rs:248-254 | The first section lies in the file, right after the file header; there is one exactly when the file has data and `Section::new` accepts the section there. |
| FfsSection.SectionsFrom | src/fw_fs/ffs.rs:543-565 | The physical sections are valid, share one container, each is the `next_section` of its predecessor (at its end rounded up to 4), and the last has no next section. |
| FfsSection.SectionChainDisjoint | src/fw_fs/ffs.rs:544-549 | No two physical sections overlap. |
| FfsSectionIterator.Extract | src/fw_fs/ffs.rs:574-579 | The null extractor extracts nothing. |
| FfsSectionIterator.Children | src/fw_fs/ffs.rs:623-629 | Only encapsulation sections are handed to the extractor. |
| FfsSectionIterator.Step | src/fw_fs/ffs.rs:612-632 | `next()` pops the queue if it is non-empty, else it yields the next physical section and advances. An encapsulation section's extracted sections go to the front of the queue in order. It yields None exactly when the iterator is drained. |
| FfsSectionIterator.StepPopsRemaining | src/fw_fs/ffs.rs:612-632 | One call yields the first remaining section of the pre-order expansion and leaves the rest. |
| FfsSectionIterator.IteratorYieldsPreOrder | src/fw_fs/ffs.rs:612-632 | The iterator yields exactly the pre-order expansion of its queue and then of the physical sections, and ends drained. |
| FfsSectionIterator.DrainedStaysDrained | src/fw_fs/ffs.rs:614-615 | A drained iterator keeps yielding None. |
| FfsSectionIterator.NullExtractorYieldsPhysicalSections | src/fw_fs/ffs.rs:589-597 | With the null extractor the iterator yields exactly the physical sections in order, encapsulation sections unopened. |
| FfsSectionIterator.SectionIterator.constructor | src/fw_fs/ffs.rs:591-597 | A new iterator has the null extractor, the start section and an empty queue. |
| FfsSectionIterator.SectionIterator.WithExtractor | src/fw_fs/ffs.rs:602-607 | A new iterator has the given extractor, the start section and an empty queue. |
| FfsSectionIterator.SectionIterator.Next | src/fw_fs/ffs.rs:612-632 | `next()` returns what `Step` yields and moves to the state `Step` gives. |
| FfsSectionIterator.SectionIterator.PushFront | src/fw_fs/ffs.rs:626-628 | Pushing the extracted sections in reverse to the front puts them ahead of the queue in their own order. |
| HexFormat.Serialize | src/serializable/hex_format.rs:18-24 | The output is "0x" followed by `{:x}` of the number. |
| HexFormat.ToHexValue | src/serializable/hex_format.rs:23 | The digits `{:x}` writes read back as the number. |
| HexFormat.ToHexNoLeadingZero | src/serializable/hex_format.rs:23 | `{:x}` writes a leading '0' only for zero. |
| HexFormat.FromStrRadix16 | src/serializable/hex_format.rs:27-62 | A parsed value fits the width. Every failure is that width's own message. |
| HexFormat.Deserialize | src/serializable/hex_format.rs:65-73 | Without the "0x" prefix the result is the missing-prefix error. With it, the rest is parsed at the width. |
| HexFormat.RoundTrip | src/serializable/hex_format.rs:108-114 | Deserializing a serialized number gives it back at every width it fits in. |
| HexFormat.CanonicalRoundTrip | src/serializable/hex_format.rs:18-73 | Serializing what was read from a canonical "0x" string gives that string back. |
| HexFormat.OverflowRejected | src/serializable/hex_format.rs:34-62 | A number too wide for the field is rejected with the width's message. |
| HexFormat.AcceptedShape | src/serializable/hex_format.rs:65-73 | Every accepted string is "0x", an optional '+', and a non-empty run of hex digits. |
| HexFormat.UpperCaseAccepted | src/serializable/hex_format.rs:70-72 | Upper-case digits read as the same number as lower-case ones. |
| HexFormat.SerializeExamples | src/serializable/hex_format.rs:87-92 | 0x1A2B3C is written "0x1a2b3c", 0 is "0x0" and 0xFF is "0xff". |
| HexFormat.MissingPrefixExample | src/serializable/hex_format.rs:101-106 | "1a2b3c" is rejected for its missing prefix. |
| HexFormat.UpperCaseExample | src/serializable/serializable_hob.rs:195-268 | "0xDEADCFEE" reads as 3735932910. |
| HexFormat.PlusSignAccepted | src/serializable/hex_format.rs:34-37 | A leading '+' is accepted: "0x+ff" reads as 255. |
| HexFormat.MalformedRejected | src/serializable/hex_format.rs:46-50 | A '-' sign, an empty number, a lone '+' and a non-digit are rejected with the width's message. |
| Serializable.FormatGuid | src/serializable.rs:31-47 | The formatted GUID is 36 characters long. |
| Serializable.PaddedHex | src/serializable.rs:34 | `{:0wx}` writes exactly w lower-case hex digits. |
| Serializable.PaddedHexValue | src/serializable.rs:34 | A number below 16^w reads back from its w padded digits. |
| Serializable.PaddedHexExamples | src/serializable.rs:34 | Short values are padded with leading zeros. |
| Serializable.FormatGuidRoundTrip | src/serializable.rs:31-47 | Parsing the formatted GUID gives the GUID back: the format loses nothing. |
| Serializable.FormatGuidShape | src/serializable.rs:33-34 | The 8-4-4-4-12 layout: lower-case hex digit groups with '-' at 8, 13, 18 and 23. |
| Serializable.FormatGuidInjective | src/serializable.rs:31-47 | Two GUIDs format alike only when they are equal. |
| Serializable.Length | src/serializable.rs:59-61 | `length()` is the descriptor's own length field. |
| Serializable.OverlapsIffCommonPoint | src/serializable.rs:76-78 | Two non-empty intervals overlap exactly when some address lies in both. |
| Serializable.OverlapsAdjacentSymmetric | src/serializable.rs:76-87 | `overlaps` and `adjacent` do not depend on operand order. |
| Serializable.TouchingIntervalsDoNotOverlap | src/serializable.rs:67-87 | Intervals are half-open: one ending where the other starts touches it without overlapping. |
| Serializable.ContainsIffEveryPoint | src/serializable.rs:63-65 | For a non-empty b, `contains` holds exactly when every address of b lies in a. |
| Serializable.TryMerge | src/serializable.rs:89-91 | `try_merge` refuses exactly when a gap of at least one address separates the intervals, and otherwise merges. |
| Serializable.TryMergeLossless | src/serializable.rs:89-91 | A successful `try_merge` covers exactly the addresses of its two operands. |
| Serializable.Sort | src/serializable.rs:98-99 | The sorted list is in `cmp` order and is a permutation of the input. |
| Serializable.SortKeepsSorted | src/serializable.rs:98-99 | Sorting a list already in order leaves it unchanged. |
| Serializable.MergedIntervals | src/serializable.rs:93-112 | The result is empty exactly when the input is, and is no longer than the input. |
| Serializable.MergeIntervals | src/serializable.rs:93-112 | The loop computes `MergedIntervals`: the sorted list with each neighbour that overlaps or touches the last result merged into it. |
| Serializable.MergedIntervalsCoverInput | src/serializable.rs:93-112 | The merged list covers exactly the addresses the input covers. |
| Serializable.MergedIntervalsContainInputs | src/serializable.rs:93-112 | Every input interval lies inside some merged interval. |
| Serializable.MergedResourcesSeparated | src/serializable.rs:93-112 | Each merged resource descriptor ends at least one address before the next starts, so consecutive ones neither overlap nor touch. |
| Serializable.MergedResourcesIdempotent | src/serializable.rs:93-112 | Merging merged resource descriptors again changes nothing. |
| Serializable.MergedMemAllocsCanOverlap | src/serializable.rs:98-109 | Memory allocation descriptors sort by name, so two overlapping ones separated in name order by a third come out unmerged. |
| SerializableHob.Descriptor.End | src/serializable/serializable_hob.rs:70-72 | An interval ends at or after its start. |
| SerializableHob.Merge | src/serializable/serializable_hob.rs:76-83 | The merge spans from the lesser start to the greater end and keeps the receiver's kind, name or owner, and type fields. |
| SerializableHob.MergeContainsBoth | src/serializable/serializable_hob.rs:115-123 | The merge contains both operands, and its bounds do not depend on operand order. |
| SerializableHob.MergeIsLeast | src/serializable/serializable_hob.rs:115-123 | Every interval containing both operands contains their merge. |
| SerializableHob.MergeKeepsReceiverMetadata | src/serializable/serializable_hob.rs:115-123 | The merge takes its metadata from the receiver, so merging in the other order can give a different descriptor. |
| SerializableHob.CompareNat | src/serializable/serializable_hob.rs:128 | `u64::cmp` is Equal exactly on equal values and Less exactly when the first is smaller. |
| SerializableHob.CompareStringsReverse | src/serializable/serializable_hob.rs:52-55 | The derived `String` order reverses with its operands and is Equal exactly on equal strings. |
| SerializableHob.CompareStringsTransitive | src/serializable/serializable_hob.rs:52-55 | The `String` order is transitive, and strictly so when either step is strict. |
| SerializableHob.CmpTransitive | src/serializable/serializable_hob.rs:126-133 | The descriptor order is transitive, as `Ord` requires. |
| SerializableHob.CmpReverse | src/serializable/serializable_hob.rs:126-139 | Swapping the operands reverses the comparison. |
| SerializableHob.ResourceCmpEqualIff | src/serializable/serializable_hob.rs:126-133 | Two resource descriptors compare Equal exactly when their starts and lengths agree. |
| SerializableHob.ResourceCmpOrdersStarts | src/serializable/serializable_hob.rs:126-133 | Resource descriptors in order have non-decreasing starts. |
| SerializableHob.MemAllocOrderIsNotByStart | src/serializable/serializable_hob.rs:52-63 | The derived order of memory allocation descriptors is by name first, so a later start can sort first. |

## Left out

- Addresses: the model works on offsets into one immutable buffer. Raw `PhysicalAddress` arithmetic and `unsafe` casts are not modelled, so neither are aliasing and lifetimes.
- The end of a volume is taken as its fv_length, and a file's limit is that end.
- Ffs.NextFfsFile, Ffs.NextFfsFileAsWritten and FfsSection.NextSection: the source rounds up absolute addresses (`align_up(base_address + size, 8)` for files, `align_up(..., 4)` for sections); the model rounds up offsets from the start of the volume or of the extraction buffer. The two agree when the volume base is 8-aligned and every extraction buffer is 4-aligned, which the model assumes; a volume or buffer at an unaligned address is not modelled.
- The erase test of `next_ffs_file` reads 56 bytes. `min(56, remaining_space)` is 56 for every volume the model can describe.
- Ffs.FileNew: also rejects a header that does not fit, a size smaller than its header, and a file running past the volume end. `File::new` checks only that the base lies in the volume. The as-written behaviour is `Ffs.FileNewAsWritten` (see Findings).
- FfsSection.SectionNew: rejects a header that does not fit in its container, a size smaller than header plus metadata, and a section running past its container. The source reads without bounds checks and subtracts unchecked (ffs.rs:414, 423, 432, 441, 446).
- The sizes of the four section metadata structures are a parameter (`MetadataLayout`), not constants. Their fields (compression type, GUID, version number) are not decoded.
- A section stores its decoded header fields (kind, type, size, metadata kind) next to its offset. The source keeps references into the buffer.
- Extractors are pure functions from a section to a list of sections. The Brotli extractor example, extractor state and the lifetime of extraction buffers are not modelled.
- FfsSectionIterator.IteratorYieldsPreOrder: holds for every nesting depth bound; an extractor whose nesting never ends is not covered.
- Fv.FirmwareVolume.GetLbaInfo: requires that the u32 arithmetic the loop performs before it stops does not overflow (the blocks and bytes up to the covering entry, or the whole map when lba is past the end); the source's wrap-around or overflow panic on other inputs is not modelled.
- Fv.LbaInfoOf: the same u32 no-overflow precondition as GetLbaInfo.
- `attributes`, `fv_data_buffer`, `zero_vector`, `file_name`, `base_address`, `containing_fv_base`, `container_offset` and `metadata` are plain field reads with no property beyond their definition. They appear as datatype members or fields only.
- The layout test `zero_size_block_map_gives_same_offset_as_no_block_map` is about Rust struct layout; the model places the block map at byte 56.
- `fmt::Debug` implementations, serde derives, JSON and the `Hob` conversions (`From<&Hob>`) are not modelled. Only the hex helpers used by the serde fields are.
- usize is taken as 64 bits wide in `FromStrRadix16`.
- SerializableHob.Merge: requires that each operand's end fits in u64, since `end()` overflows otherwise. The source's overflow is not modelled.
- Serializable.MergeIntervals: the same u64 end precondition as Merge.
- Serializable.Sort: `slice::sort` is modelled as a stable insertion sort; only order and permutation are proved, not stability.
- The `Interval` trait is one datatype with a memory-allocation and a resource case. The model orders memory allocation descriptors before resource descriptors; the source never compares the two kinds.
- `partial_cmp` always returns `Some(cmp)` and is not modelled separately.
- status_code, boot_mode and the protocol definitions are not part of this model.

## Findings

| source | as written | input that shows it | evidently intended | confidence | as-written member | corrected member |
|---|---|---|---|---|---|---|
| src/fw_fs/fv.rs:283-291 | The offset adds `lba * block_size` to the bytes of the entries before the covering one, counting from block 0 rather than from that entry's first block | Block map (2 blocks × 0x1000, 2 blocks × 0x2000), lba 3: returns 0x8000, but block 3 starts at 0x4000 and the map ends at 0x6000 | The offset of block lba, with `(lba - blocks before the entry) * block_size` | not executed | Fv.LbaOffsetAsWrittenOverruns | Fv.LbaInfoCorrectedIsBlockOffset |
| src/fw_fs/ffs.rs:118-132 | `File::new` accepts any size, so a standard header with size 0 at an 8-aligned offset is its own next file | A 56-byte region at an 8-aligned offset, not all erase bytes, whose header has attributes without LARGE_FILE and size bytes 0,0,0: `next_ffs_file` returns the same file and iteration never ends | Reject a file smaller than its header or running past the volume, so each next file starts past the current header | not executed | Ffs.ZeroSizeFileIsItsOwnSuccessor | Ffs.NextFfsFileAdvances |
