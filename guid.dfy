/** EFI GUIDs, as the fields `r_efi::efi::Guid::as_fields` exposes, and the GUIDs the parser tests against. */
module Guids {
  import opened Primitives

  type Node = s: seq<uint8> | |s| == 6 witness [0, 0, 0, 0, 0, 0]

  datatype Guid = Guid(
    timeLow: uint32,
    timeMid: uint16,
    timeHiAndVersion: uint16,
    clockSeqHighAndReserved: uint8,
    clockSeqLow: uint8,
    node: Node)

  /** The GUID stored in its 16-byte in-memory layout at `off` (the first three fields little-endian). */
  function GuidAt(data: Bytes, off: nat): (g: Guid)
    requires off + 16 <= |data|
  {
    Guid(LeUint32(data, off), LeUint16(data, off + 4), LeUint16(data, off + 6),
         data[off + 8], data[off + 9], data[off + 10..off + 16])
  }

  /** EFI_FIRMWARE_FILE_SYSTEM2_GUID: 8c8ce578-8a3d-4f1c-9935-896185c32dd3 (UEFI PI 1.8A volume 3, section 3.2.2). */
  const EFI_FIRMWARE_FILE_SYSTEM2_GUID: Guid :=
    Guid(0x8c8ce578, 0x8a3d, 0x4f1c, 0x99, 0x35, [0x89, 0x61, 0x85, 0xc3, 0x2d, 0xd3])

  /** EFI_FIRMWARE_FILE_SYSTEM3_GUID: 5473c07a-3dcb-4dca-bd6f-1e9689e7349a. */
  const EFI_FIRMWARE_FILE_SYSTEM3_GUID: Guid :=
    Guid(0x5473c07a, 0x3dcb, 0x4dca, 0xbd, 0x6f, [0x1e, 0x96, 0x89, 0xe7, 0x34, 0x9a])
}
