/**
 * The state of the AMSDOS layer (amsdos_type: the container plus the
 * `last_free_block` cursor) and the specifications of the directory
 * scans, the block allocator, the directory update and sector transfer
 * of src/amsdos.c, as functions of that state.
 */
module AmsdosDir {
  import opened Common
  import opened DskLayout
  import opened Dsk
  import opened AmsdosName

  /**
   * A snapshot of an amsdos_type: the disk header, the image, which track
   * views are cached, and `last_free_block` (0 until first computed).
   */
  datatype State = State(info: Header, img: seq<byte>, cache: Cache, cursor: byte)

  /** The 64 directory entries as the image holds them. */
  function Dir(s: State): (d: seq<DirEntry>)
    ensures |d| == NUM_DIRENT
  {
    Directory(s.info, s.img)
  }

  /** All entries have their declared field widths. */
  predicate AllWellSized(d: seq<DirEntry>)
  {
    forall i :: 0 <= i < |d| ==> d[i].WellSized()
  }

  lemma DirWellSized(s: State)
    ensures AllWellSized(Dir(s))
  {
  }

  /** The state after one or more directory reads (amsdos_get_dir) on an unchanged image. */
  function Scanned(s: State): (r: State)
    ensures r.info == s.info && r.img == s.img && r.cursor == s.cursor
  {
    s.(cache := DirCache(s.info, s.img, s.cache))
  }

  /** The state after dsk_get_info, which looks the first track up. */
  function InfoRead(s: State): (r: State)
    ensures r.info == s.info && r.img == s.img && r.cursor == s.cursor
  {
    s.(cache := Cached(s.info, s.img, s.cache, 0))
  }

  /** Repeated reads see the same cache: scanning is idempotent and subsumes dsk_get_info. */
  lemma ScannedIdempotent(s: State)
    ensures Scanned(Scanned(s)) == Scanned(s)
    ensures Scanned(InfoRead(s)) == Scanned(s)
    ensures InfoRead(Scanned(s)) == Scanned(s)
    ensures InfoRead(InfoRead(s)) == InfoRead(s)
  {
    DirCacheIdempotent(s.info, s.img, s.cache);
    DirCacheCoversTrackZero(s.info, s.img, s.cache);
    CachedTwice(s.info, s.img, s.cache, 0);
  }

  // ---------------------------------------------------------------------
  // Free directory entries (get_free_dir_entry_count, get_next_free_dir_entry).

  /** The number of deleted entries among the first n. */
  function FreeEntries(d: seq<DirEntry>, n: nat): (r: nat)
    requires n <= |d|
    ensures r <= n
  {
    if n == 0 then 0 else FreeEntries(d, n - 1) + (if IsDeleted(d[n - 1]) then 1 else 0)
  }

  /** The lowest deleted entry at or after i, or -1. */
  function NextFree(d: seq<DirEntry>, i: nat): (r: int)
    requires i <= |d|
    ensures r == -1 || i <= r < |d|
    decreases |d| - i
  {
    if i == |d| then -1 else if IsDeleted(d[i]) then i else NextFree(d, i + 1)
  }

  /** None of the first n entries is deleted exactly when the count is 0. */
  lemma {:induction false} FreeEntriesZero(d: seq<DirEntry>, n: nat)
    requires n <= |d|
    ensures FreeEntries(d, n) == 0 <==> forall j :: 0 <= j < n ==> !IsDeleted(d[j])
  {
    if n > 0 {
      FreeEntriesZero(d, n - 1);
    }
  }

  /** NextFree finds the first deleted entry, and -1 means there is none. */
  lemma {:induction false} NextFreeIsFirst(d: seq<DirEntry>, i: nat)
    requires i <= |d|
    ensures var r := NextFree(d, i);
      (r == -1 || i <= r < |d|) &&
      (r >= 0 ==> IsDeleted(d[r]) && forall j :: i <= j < r ==> !IsDeleted(d[j])) &&
      (r == -1 <==> forall j :: i <= j < |d| ==> !IsDeleted(d[j]))
    decreases |d| - i
  {
    if i < |d| {
      NextFreeIsFirst(d, i + 1);
    }
  }

  /** The free-entry scan fails exactly when the free-entry count is 0. */
  lemma NextFreeAgreesWithCount(d: seq<DirEntry>)
    ensures NextFree(d, 0) == -1 <==> FreeEntries(d, |d|) == 0
  {
    NextFreeIsFirst(d, 0);
    FreeEntriesZero(d, |d|);
  }

  // ---------------------------------------------------------------------
  // Lookup by name (get_dir_entry_for_file, amsdos_exists_file).

  /** The lowest index at or after i whose name, extension and user match, or -1. */
  function LookupFrom(d: seq<DirEntry>, name: seq<byte>, user: byte, i: nat): (r: int)
    requires i <= |d| && AllWellSized(d)
    ensures r == -1 || i <= r < |d|
    decreases |d| - i
  {
    if i == |d| then -1
    else if NameMatches(name, user, d[i]) then i
    else LookupFrom(d, name, user, i + 1)
  }

  function Lookup(d: seq<DirEntry>, name: seq<byte>, user: byte): (r: int)
    requires AllWellSized(d)
    ensures r == -1 || 0 <= r < |d|
  {
    LookupFrom(d, name, user, 0)
  }

  /** Lookup returns the first match; -1 means no entry matches, deleted or not. */
  lemma {:induction false} LookupFromIsFirst(d: seq<DirEntry>, name: seq<byte>, user: byte, i: nat)
    requires i <= |d| && AllWellSized(d)
    ensures var r := LookupFrom(d, name, user, i);
      (r == -1 || i <= r < |d|) &&
      (r >= 0 ==> NameMatches(name, user, d[r]) && forall j :: i <= j < r ==> !NameMatches(name, user, d[j])) &&
      (r == -1 <==> forall j :: i <= j < |d| ==> !NameMatches(name, user, d[j]))
    decreases |d| - i
  {
    if i < |d| {
      LookupFromIsFirst(d, name, user, i + 1);
    }
  }

  /** amsdos_exists_file: some entry carries this name for this user. */
  predicate Exists(d: seq<DirEntry>, name: seq<byte>, user: byte)
    requires AllWellSized(d)
  {
    Lookup(d, name, user) >= 0
  }

  lemma ExistsIff(d: seq<DirEntry>, name: seq<byte>, user: byte)
    requires AllWellSized(d)
    ensures Exists(d, name, user) <==> exists j :: 0 <= j < |d| && NameMatches(name, user, d[j])
  {
    LookupFromIsFirst(d, name, user, 0);
  }

  // ---------------------------------------------------------------------
  // Block allocation (is_block_in_use, get_free_block).

  /**
   * The block slots is_block_in_use looks at: (record_count + 7) >> 3.
   * Past slot 16 the C reads beyond the entry; the model stops at 16.
   */
  function BlockSlots(e: DirEntry): (r: nat)
    ensures r <= BLOCKS_PER_ENTRY
  {
    Min(BLOCKS_PER_ENTRY, CeilDiv(e.recordCount, RECORDS_PER_BLOCK))
  }

  predicate ListsBlock(e: DirEntry, b: byte)
    requires e.WellSized()
  {
    exists j :: 0 <= j < BlockSlots(e) && e.blocks[j] == b
  }

  /** Some live entry lists block b among its used slots. */
  predicate InUse(d: seq<DirEntry>, b: byte)
    requires AllWellSized(d)
  {
    exists i :: 0 <= i < |d| && !IsDeleted(d[i]) && ListsBlock(d[i], b)
  }

  /** The first block in [b, limit) that is not in use, or -1. */
  function FreeFrom(d: seq<DirEntry>, b: nat, limit: nat): (r: int)
    requires AllWellSized(d) && limit <= 256
    ensures r == -1 || b <= r < limit
    decreases limit - b
  {
    if b >= limit then -1
    else if !InUse(d, b) then b
    else FreeFrom(d, b + 1, limit)
  }

  lemma {:induction false} FreeFromIsFirst(d: seq<DirEntry>, b: nat, limit: nat)
    requires AllWellSized(d) && limit <= 256
    ensures var r := FreeFrom(d, b, limit);
      (r >= 0 ==> !InUse(d, r) && forall k :: b <= k < r ==> InUse(d, k)) &&
      (r == -1 <==> forall k :: b <= k < limit ==> InUse(d, k))
    decreases limit - b
  {
    if b < limit {
      FreeFromIsFirst(d, b + 1, limit);
    }
  }

  /** Blocks taken by the first n reserved tracks: their data size in KiB, rounded up. */
  function ReservedBlocks(info: Header, n: nat): nat
    requires n <= 256
  {
    if n == 0 then 0
    else ReservedBlocks(info, n - 1) + CeilDiv(Max(0, TrackSize(info, n - 1) - TRACK_HEADER_SIZE), 1024)
  }

  /** The two 1 KiB blocks of the 64 directory entries. */
  const DIR_BLOCKS: nat := 2

  lemma DirBlocks()
    ensures DIR_BLOCKS == CeilDiv(NUM_DIRENT * DIR_ENTRY_SIZE, 1024)
  {
  }

  /** Where the first search starts: after the reserved tracks and the directory (uint8_t). */
  function BaseBlock(info: Header, img: seq<byte>): byte
  {
    (ReservedBlocks(info, DirTrack(info, img)) + DIR_BLOCKS) % 256
  }

  /** A uint8_t block number returned through int8_t. */
  function Int8(b: byte): (r: int)
    ensures -128 <= r < 128
    ensures r >= 0 <==> b < 128
    ensures r >= 0 ==> r == b
  {
    if b < 128 then b else b - 256
  }

  /** The block the search starts from. */
  function SearchStart(s: State): byte
  {
    if s.cursor == 0 then BaseBlock(s.info, s.img) else s.cursor
  }

  /**
   * get_free_block: the first block from the cursor (or, first time, from
   * the base block) below sectors / 2 that no live entry lists. A block
   * found moves the cursor just past it; the result is read as int8_t.
   */
  function GetFreeBlockSpec(s: State, sectors: nat): (r: (State, int))
    requires sectors < 512
    ensures r.0.info == s.info && r.0.img == s.img
    ensures -128 <= r.1 < 128
    ensures r.0.cursor >= SearchStart(s)
  {
    var start := SearchStart(s);
    var limit := sectors / 2;
    var found := FreeFrom(Dir(s), start, limit);
    var cache := if start < limit then DirCache(s.info, s.img, s.cache) else Cached(s.info, s.img, s.cache, 0);
    var cursor := if found >= 0 then found + 1 else start;
    (State(s.info, s.img, cache, cursor), if found >= 0 then Int8(found) else -1)
  }

  /**
   * A block returned is free, lies in [start, sectors / 2), and leaves the
   * cursor just past it; a negative result means no free block was found
   * or the one found does not fit in int8_t.
   */
  lemma GetFreeBlockFree(s: State, sectors: nat)
    requires sectors < 512
    ensures var (t, b) := GetFreeBlockSpec(s, sectors);
      (b >= 0 ==> !InUse(Dir(s), b) && SearchStart(s) <= b < sectors / 2 && b < 128 && t.cursor == b + 1 &&
                  forall k :: SearchStart(s) <= k < b ==> InUse(Dir(s), k)) &&
      (b < 0 <==> FreeFrom(Dir(s), SearchStart(s), sectors / 2) == -1 ||
                  FreeFrom(Dir(s), SearchStart(s), sectors / 2) >= 128)
  {
    FreeFromIsFirst(Dir(s), SearchStart(s), sectors / 2);
  }

  /**
   * Successive allocations are strictly increasing: after a successful call
   * the cursor is non-zero and past the block, however the image and cache
   * changed in between.
   */
  lemma GetFreeBlockIncreasing(s: State, t: State, sectors: nat)
    requires sectors < 512
    requires GetFreeBlockSpec(s, sectors).1 >= 0
    requires t.cursor == GetFreeBlockSpec(s, sectors).0.cursor
    ensures GetFreeBlockSpec(t, sectors).1 >= 0 ==> GetFreeBlockSpec(t, sectors).1 > GetFreeBlockSpec(s, sectors).1
  {
    GetFreeBlockFree(s, sectors);
    GetFreeBlockFree(t, sectors);
  }

  // ---------------------------------------------------------------------
  // Directory update and sector transfer.

  /**
   * amsdos_update_dir: the 32 bytes of the entry copied to the entry's
   * offset (computed on the image before the copy); nothing for an index
   * of 64 or more.
   */
  function UpdateDirSpec(s: State, e: DirEntry, index: nat): (r: State)
    requires e.WellSized()
    ensures r.info == s.info && r.cursor == s.cursor && |r.img| == |s.img|
  {
    if index < NUM_DIRENT then
      State(s.info, Overwrite(s.img, DirOffset(s.info, s.img, index), SerializeDirEntry(e)),
            DirCache(s.info, s.img, s.cache), s.cursor)
    else s
  }

  /**
   * Reading an entry back after amsdos_update_dir gives the entry written,
   * as long as the write leaves the entry's position in the image where it
   * was and fits in the image.
   */
  lemma UpdateDirReadBack(s: State, e: DirEntry, index: nat)
    requires e.WellSized() && index < NUM_DIRENT
    requires DirOffset(s.info, s.img, index) + DIR_ENTRY_SIZE <= |s.img|
    requires DirOffset(s.info, UpdateDirSpec(s, e, index).img, index) == DirOffset(s.info, s.img, index)
    ensures EntryAt(s.info, UpdateDirSpec(s, e, index).img, index) == e
  {
    var o := DirOffset(s.info, s.img, index);
    var img := UpdateDirSpec(s, e, index).img;
    var b := SerializeDirEntry(e);
    OverwriteAt(s.img, o, b);
    assert Slice(img, o, DIR_ENTRY_SIZE) == b;
    DirEntryRoundTrip(e, b);
  }

  /**
   * amsdos_update_dir leaves every entry whose 32 bytes do not overlap the
   * one written as it was, as long as the entry's position in the image
   * does not move.
   */
  lemma UpdateDirKeepsOthers(s: State, e: DirEntry, index: nat, j: nat)
    requires e.WellSized() && index < NUM_DIRENT
    requires DirOffset(s.info, UpdateDirSpec(s, e, index).img, j) == DirOffset(s.info, s.img, j)
    requires var o, p := DirOffset(s.info, s.img, index), DirOffset(s.info, s.img, j);
      o + DIR_ENTRY_SIZE <= p || p + DIR_ENTRY_SIZE <= o
    ensures EntryAt(s.info, UpdateDirSpec(s, e, index).img, j) == EntryAt(s.info, s.img, j)
  {
    var o := DirOffset(s.info, s.img, index);
    var p := DirOffset(s.info, s.img, j);
    var img := UpdateDirSpec(s, e, index).img;
    OverwriteAt(s.img, o, SerializeDirEntry(e));
    SliceAt(img, p, DIR_ENTRY_SIZE);
    SliceAt(s.img, p, DIR_ENTRY_SIZE);
    assert Slice(img, p, DIR_ENTRY_SIZE) == Slice(s.img, p, DIR_ENTRY_SIZE);
  }

  /** dsk_write_sector on the state: 512 bytes at logical sector n's offset. */
  function WriteSectorSpec(s: State, n: byte, data: seq<byte>): (r: State)
    requires |data| == SECTOR_SIZE
    ensures r.info == s.info && r.cursor == s.cursor && |r.img| == |s.img|
  {
    State(s.info, Overwrite(s.img, BlockOffset(s.info, s.img, s.cache, n), data),
          BlockOffsetCache(s.info, s.img, s.cache, n), s.cursor)
  }

  /** dsk_read_sector on the state: the 512 bytes at logical sector n's offset. */
  function ReadSectorData(s: State, n: byte): (r: seq<byte>)
    ensures |r| == SECTOR_SIZE
  {
    Slice(s.img, BlockOffset(s.info, s.img, s.cache, n), SECTOR_SIZE)
  }

  function ReadSectorState(s: State, n: byte): (r: State)
    ensures r.info == s.info && r.img == s.img && r.cursor == s.cursor
  {
    s.(cache := BlockOffsetCache(s.info, s.img, s.cache, n))
  }

  /** A sector written and read back at once gives the data written, when it fits in the image. */
  lemma SectorReadBack(s: State, n: byte, data: seq<byte>)
    requires |data| == SECTOR_SIZE
    requires BlockOffset(s.info, s.img, s.cache, n) + SECTOR_SIZE <= |s.img|
    requires var t := WriteSectorSpec(s, n, data);
      BlockOffset(s.info, t.img, s.cache, n) == BlockOffset(s.info, s.img, s.cache, n)
    ensures ReadSectorData(WriteSectorSpec(s, n, data).(cache := s.cache), n) == data
  {
    var t := WriteSectorSpec(s, n, data);
    var o := BlockOffset(s.info, s.img, s.cache, n);
    assert Slice(t.img, o, SECTOR_SIZE) == data;
  }

  // ---------------------------------------------------------------------
  // Used bytes and disk type (amsdos_get_used_bytes, amsdos_get_info).

  /** Bytes of the non-deleted entries among the first n: record_count << 7 each. */
  function UsedBytes(d: seq<DirEntry>, n: nat): nat
    requires n <= |d|
  {
    if n == 0 then 0
    else UsedBytes(d, n - 1) + (if IsDeleted(d[n - 1]) then 0 else d[n - 1].recordCount * RECORD_SIZE)
  }

  /** The used bytes are the used records dsk_get_used_blocks counts, 128 bytes each. */
  lemma {:induction false} UsedBytesAreRecords(d: seq<DirEntry>, n: nat)
    requires n <= |d|
    ensures UsedBytes(d, n) == RECORD_SIZE * UsedRecords(d, n)
  {
    if n > 0 {
      UsedBytesAreRecords(d, n - 1);
    }
  }

  /** At most 64 entries of at most 255 records: the uint32_t sum cannot wrap. */
  lemma {:induction false} UsedBytesBound(d: seq<DirEntry>, n: nat)
    requires n <= |d|
    ensures UsedBytes(d, n) <= n * 255 * RECORD_SIZE
  {
    if n > 0 {
      UsedBytesBound(d, n - 1);
    }
  }

  /** amsdos_disk_type */
  datatype DiskType = Data | Ibm | System | Unknown

  /** base_sector: the first sector id of each format, 0 for an unknown type. */
  function BaseSector(t: DiskType): byte
  {
    match t
    case Data => BASE_SECTOR_DATA
    case Ibm => BASE_SECTOR_IBM
    case System => BASE_SECTOR_SYS
    case Unknown => 0
  }

  /** The classification switch of amsdos_get_info, on the disk's first sector id. */
  function Classify(firstId: byte): DiskType
  {
    if firstId == BASE_SECTOR_DATA then Data
    else if firstId == BASE_SECTOR_IBM then Ibm
    else if firstId == BASE_SECTOR_SYS then System
    else Unknown
  }

  /** The reserved tracks of each format (RESERVED_SECTORS_*). */
  function ReservedTracks(t: DiskType): byte
  {
    match t
    case Data => 0
    case Ibm => 1
    case System => 2
    case Unknown => 0
  }

  /**
   * The classification inverts base_sector on the three known formats, and
   * every other first sector id is UNKNOWN; base_track_index gives each
   * format its reserved tracks.
   */
  lemma ClassifyInvertsBaseSector(t: DiskType, id: byte)
    ensures t != Unknown ==> Classify(BaseSector(t)) == t
    ensures Classify(id) != Unknown ==> BaseSector(Classify(id)) == id
    ensures Classify(id) == Unknown <==> id != BASE_SECTOR_DATA && id != BASE_SECTOR_IBM && id != BASE_SECTOR_SYS
    ensures BaseTrackOf(BaseSector(t)) == ReservedTracks(t)
    ensures BaseTrackOf(id) == ReservedTracks(Classify(id))
  {
  }
}
