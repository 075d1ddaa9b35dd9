/**
 * Binary layouts and constants of the disk-image container (src/dsk.h):
 * the 256-byte disk header, the 8-byte sector descriptor, the 256-byte
 * track header and the 32-byte directory entry. Offsets are the ones a C
 * compiler gives these structs under normal alignment.
 */
module DskLayout {
  import opened Common

  // Constants of src/dsk.h.
  const NUM_DIRENT: nat := 64
  const AMSDOS_NAME_LEN: nat := 8
  const AMSDOS_EXT_LEN: nat := 3
  const SECTOR_SIZE: nat := 512
  const AMSDOS_USER_DELETED: byte := 0xE5
  const BASE_SECTOR_IBM: byte := 0x01
  const BASE_SECTOR_SYS: byte := 0x41
  const BASE_SECTOR_DATA: byte := 0xC1

  /** The magic of a plain image, compared on its 8 bytes: "MV - CPC". */
  function DskMagic(): (r: seq<byte>)
    ensures |r| == 8
  {
    [0x4D, 0x56, 0x20, 0x2D, 0x20, 0x43, 0x50, 0x43]
  }

  /** The magic of an extended image, compared on its 21 bytes: "EXTENDED CPC DSK File". */
  function EdskMagic(): (r: seq<byte>)
    ensures |r| == 21
  {
    [0x45, 0x58, 0x54, 0x45, 0x4E, 0x44, 0x45, 0x44, 0x20, 0x43, 0x50, 0x43, 0x20,
     0x44, 0x53, 0x4B, 0x20, 0x46, 0x69, 0x6C, 0x65]
  }

  /**
   * The 13 bytes a track header must start with: "Track-Info\r\n" and its
   * terminating NUL (the comparison covers 13 bytes).
   */
  function TrackMagic(): (r: seq<byte>)
    ensures |r| == 13
  {
    [0x54, 0x72, 0x61, 0x63, 0x6B, 0x2D, 0x49, 0x6E, 0x66, 0x6F, 0x0D, 0x0A, 0x00]
  }

  /** The magic byte strings spell the texts the container format defines. */
  lemma MagicTexts()
    ensures DskMagic() == Ascii("MV - CPC")
    ensures EdskMagic() == Ascii("EXTENDED CPC DSK File")
    ensures TrackMagic() == Ascii("Track-Info\r\n") + [0]
  {
  }

  // dsk_info_type: the 256-byte disk header.
  const DISK_HEADER_SIZE: nat := 256
  const HDR_MAGIC: nat := 0          // 34 bytes
  const HDR_CREATOR: nat := 34       // 14 bytes
  const HDR_TRACKS: nat := 48
  const HDR_SIDES: nat := 49
  const HDR_TRACK_SIZE: nat := 50    // 2 bytes, little-endian
  const HDR_PADDING: nat := 52       // 204 bytes; the extended format's track-size table

  /** A disk header is exactly 256 bytes. */
  type Header = s: seq<byte> | |s| == DISK_HEADER_SIZE witness seq(256, _ => 0)

  function Tracks(info: Header): byte { info[HDR_TRACKS] }
  function Sides(info: Header): byte { info[HDR_SIDES] }

  // sector_info_type: the 8-byte sector descriptor.
  const SECTOR_INFO_SIZE: nat := 8
  const SI_TRACK: nat := 0
  const SI_SIDE: nat := 1
  const SI_SECTOR_ID: nat := 2
  const SI_SIZE: nat := 3
  const SI_FDC_STATUS_1: nat := 4
  const SI_FDC_STATUS_2: nat := 5
  const SI_UNUSED: nat := 6          // uint16, 2-aligned

  datatype SectorInfo = SectorInfo(track: byte, side: byte, sectorId: byte, size: byte,
                                   fdcStatus1: byte, fdcStatus2: byte, unusedLo: byte, unusedHi: byte)

  function ParseSectorInfo(b: seq<byte>): (r: SectorInfo)
    requires |b| == SECTOR_INFO_SIZE
  {
    SectorInfo(b[SI_TRACK], b[SI_SIDE], b[SI_SECTOR_ID], b[SI_SIZE],
               b[SI_FDC_STATUS_1], b[SI_FDC_STATUS_2], b[SI_UNUSED], b[SI_UNUSED + 1])
  }

  function SerializeSectorInfo(s: SectorInfo): (r: seq<byte>)
    ensures |r| == SECTOR_INFO_SIZE
  {
    [s.track, s.side, s.sectorId, s.size, s.fdcStatus1, s.fdcStatus2, s.unusedLo, s.unusedHi]
  }

  /** The descriptor layout is a bijection between 8 bytes and a descriptor. */
  lemma SectorInfoRoundTrip(s: SectorInfo, b: seq<byte>)
    requires |b| == SECTOR_INFO_SIZE
    ensures ParseSectorInfo(SerializeSectorInfo(s)) == s
    ensures SerializeSectorInfo(ParseSectorInfo(b)) == b
  {
  }

  // track_info_type: the 256-byte track header.
  const TRACK_HEADER_SIZE: nat := 256
  const TI_MAGIC: nat := 0           // 13 bytes
  const TI_TRACK_NUMBER: nat := 16
  const TI_SIDE_NUMBER: nat := 17
  const TI_SECTOR_SIZE: nat := 20
  const TI_SECTOR_COUNT: nat := 21
  const TI_GAP3_LENGTH: nat := 22
  const TI_SECTOR_INFO: nat := 24
  const TI_SECTOR_SLOTS: nat := 29

  /** Byte offset, within a track header, of field `field` of descriptor k. */
  function DescriptorField(k: nat, field: nat): nat
  {
    TI_SECTOR_INFO + SECTOR_INFO_SIZE * k + field
  }

  /** The 29 descriptor slots exactly fill the header after its 24 bytes of fields. */
  lemma TrackHeaderLayout()
    ensures TI_SECTOR_INFO + TI_SECTOR_SLOTS * SECTOR_INFO_SIZE == TRACK_HEADER_SIZE
    ensures forall k, f :: 0 <= k < TI_SECTOR_SLOTS && 0 <= f < SECTOR_INFO_SIZE ==>
      TI_SECTOR_INFO <= DescriptorField(k, f) < TRACK_HEADER_SIZE
  {
  }

  // dir_entry_type / amsdos_dir_type: the 32-byte directory entry.
  const DIR_ENTRY_SIZE: nat := 32
  const DE_USER: nat := 0
  const DE_NAME: nat := 1            // 8 bytes
  const DE_EXTENSION: nat := 9       // 3 bytes
  const DE_EXTENT_LOW: nat := 12
  const DE_EXTENT_HIGH: nat := 13
  const DE_UNUSED: nat := 14
  const DE_RECORD_COUNT: nat := 15
  const DE_BLOCKS: nat := 16         // 16 bytes
  const BLOCKS_PER_ENTRY: nat := 16

  datatype DirEntry = DirEntry(user: byte, name: seq<byte>, extension: seq<byte>,
                               extentLow: byte, extentHigh: byte, unused: byte,
                               recordCount: byte, blocks: seq<byte>)
  {
    /** The fixed-width fields have their declared widths. */
    predicate WellSized()
    {
      |name| == AMSDOS_NAME_LEN && |extension| == AMSDOS_EXT_LEN && |blocks| == BLOCKS_PER_ENTRY
    }
  }

  function ParseDirEntry(b: seq<byte>): (e: DirEntry)
    requires |b| == DIR_ENTRY_SIZE
    ensures e.WellSized()
  {
    DirEntry(b[DE_USER], b[DE_NAME..DE_EXTENSION], b[DE_EXTENSION..DE_EXTENT_LOW],
             b[DE_EXTENT_LOW], b[DE_EXTENT_HIGH], b[DE_UNUSED], b[DE_RECORD_COUNT],
             b[DE_BLOCKS..DIR_ENTRY_SIZE])
  }

  function SerializeDirEntry(e: DirEntry): (b: seq<byte>)
    requires e.WellSized()
    ensures |b| == DIR_ENTRY_SIZE
  {
    [e.user] + e.name + e.extension + [e.extentLow, e.extentHigh, e.unused, e.recordCount] + e.blocks
  }

  /**
   * The directory-entry layout is a bijection between 32 bytes and an entry:
   * user at 0, name at 1..8, extension at 9..11, extent low/high at 12/13,
   * record count at 15 and the 16 block numbers at 16..31 (the `(index & 15) << 5`
   * arithmetic relies on the 32-byte size).
   */
  lemma DirEntryRoundTrip(e: DirEntry, b: seq<byte>)
    requires e.WellSized() && |b| == DIR_ENTRY_SIZE
    ensures ParseDirEntry(SerializeDirEntry(e)) == e
    ensures SerializeDirEntry(ParseDirEntry(b)) == b
  {
    var s := SerializeDirEntry(e);
    assert s[DE_NAME..DE_EXTENSION] == e.name;
    assert s[DE_EXTENSION..DE_EXTENT_LOW] == e.extension;
    assert s[DE_BLOCKS..DIR_ENTRY_SIZE] == e.blocks;
    assert b == [b[0]] + b[1..9] + b[9..12] + [b[12], b[13], b[14], b[15]] + b[16..32];
  }

  /** The byte offsets of the serialised fields. */
  lemma DirEntryFieldOffsets(e: DirEntry)
    requires e.WellSized()
    ensures SerializeDirEntry(e)[DE_USER] == e.user
    ensures SerializeDirEntry(e)[DE_EXTENT_LOW] == e.extentLow
    ensures SerializeDirEntry(e)[DE_RECORD_COUNT] == e.recordCount
    ensures forall j :: 0 <= j < BLOCKS_PER_ENTRY ==> SerializeDirEntry(e)[DE_BLOCKS + j] == e.blocks[j]
  {
  }

  /** 16 blocks of 8 records each: 128 records (16 KiB) per directory entry. */
  const RECORDS_PER_BLOCK: nat := 8
  const RECORD_SIZE: nat := 128
  const RECORDS_PER_ENTRY: nat := 128

  /** The sizes agree: a block is two sectors of 8 records, an entry 16 blocks. */
  lemma EntryCapacity()
    ensures RECORDS_PER_ENTRY == BLOCKS_PER_ENTRY * RECORDS_PER_BLOCK
    ensures RECORDS_PER_ENTRY * RECORD_SIZE == 16 * 1024
    ensures 2 * SECTOR_SIZE == RECORDS_PER_BLOCK * RECORD_SIZE
  {
  }
}
