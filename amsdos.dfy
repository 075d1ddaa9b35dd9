/**
 * The AMSDOS file system of src/amsdos.c as an object (amsdos_type): the
 * container it owns and the `last_free_block` cursor. Every operation
 * with a loop or an update in place is a method proved against the
 * specification functions of AmsdosDir and AmsdosFiles: the new state it
 * leaves (St()) and what it returns are those functions of the old state.
 * File streams are byte sequences read from a position; the file size
 * that `stat` reports is a parameter (None when it cannot be determined).
 */
module Amsdos {
  import opened Common
  import opened DskLayout
  import opened Dsk
  import opened AmsdosName
  import opened AmsdosHeader
  import opened AmsdosDir
  import opened AmsdosFiles

  /** No live entry among the first n lists block b. */
  predicate NoneLists(d: seq<DirEntry>, b: byte, n: nat)
    requires AllWellSized(d) && n <= |d|
  {
    forall k :: 0 <= k < n ==> IsDeleted(d[k]) || !ListsBlock(d[k], b)
  }

  lemma NoneListsStep(d: seq<DirEntry>, b: byte, n: nat, found: bool)
    requires AllWellSized(d) && n < |d| && NoneLists(d, b, n)
    requires found == (!IsDeleted(d[n]) && ListsBlock(d[n], b))
    ensures found ==> InUse(d, b)
    ensures !found ==> NoneLists(d, b, n + 1)
  {
  }

  lemma NoneListsAll(d: seq<DirEntry>, b: byte)
    requires AllWellSized(d) && NoneLists(d, b, |d|)
    ensures !InUse(d, b)
  {
  }

  /** One pass of the uint8_t sum over the reserved tracks. */
  lemma ReservedStep(info: Header, i: nat, base: nat, blocks: nat)
    requires i < 256 && base == ReservedBlocks(info, i) % 256
    requires blocks == CeilDiv(Max(0, TrackSize(info, i) - TRACK_HEADER_SIZE), 1024)
    ensures (base + blocks) % 256 == ReservedBlocks(info, i + 1) % 256
  {
    ModAddLeft(ReservedBlocks(info, i), blocks, 256);
  }

  /** What get_free_block leaves, once the search result is known. */
  lemma GetFreeBlockSpecIs(s: State, sectors: nat, found: int, t: State)
    requires sectors < 512
    requires found == FreeFrom(Dir(s), SearchStart(s), sectors / 2)
    requires t.info == s.info && t.img == s.img
    requires t.cache == if SearchStart(s) < sectors / 2 then DirCache(s.info, s.img, s.cache) else Cached(s.info, s.img, s.cache, 0)
    requires t.cursor == if found >= 0 then found + 1 else SearchStart(s)
    ensures GetFreeBlockSpec(s, sectors) == (t, if found >= 0 then Int8(found) else -1)
  {
  }

  /** Every block in [start, b) is in use. */
  predicate AllUsed(d: seq<DirEntry>, start: nat, b: nat)
    requires AllWellSized(d) && b <= 256
  {
    forall k :: start <= k < b ==> InUse(d, k)
  }

  /** The search stops at b: b is free or past the limit, and everything before it from start is in use. */
  lemma {:induction false} SearchFound(d: seq<DirEntry>, start: nat, b: nat, limit: nat)
    requires AllWellSized(d) && limit <= 256 && start <= b <= 256 && AllUsed(d, start, b)
    requires b >= limit || !InUse(d, b)
    ensures FreeFrom(d, start, limit) == if b >= limit then -1 else b
    decreases b - start
  {
    if start < b {
      if start < limit {
        SearchFound(d, start + 1, b, limit);
      }
    }
  }

  /** The fill through slot i + 1 is one more pass after the fill through slot i, while that one succeeded. */
  lemma FillBlocksNext(sectors: nat, stream: seq<byte>, f: Fill, i: nat)
    requires sectors < 512 && f.entry.WellSized() && i < BLOCKS_PER_ENTRY
    requires FillBlocks(sectors, stream, f, i).ok
    ensures FillBlocks(sectors, stream, f, i + 1) == FillStep(sectors, stream, FillBlocks(sectors, stream, f, i), i)
  {
    assert FillBlocks(sectors, stream, f, i + 1) == FillLastPass(sectors, stream, f, i + 1);
  }

  /** Once a pass has failed, the later slots change nothing. */
  lemma {:induction false} FillBlocksStaysFailed(sectors: nat, stream: seq<byte>, f: Fill, i: nat, n: nat)
    requires sectors < 512 && f.entry.WellSized() && i <= n <= BLOCKS_PER_ENTRY
    requires !FillBlocks(sectors, stream, f, i).ok
    ensures FillBlocks(sectors, stream, f, n) == FillBlocks(sectors, stream, f, i)
    decreases n
  {
    if n > i {
      FillBlocksStaysFailed(sectors, stream, f, i, n - 1);
      assert FillBlocks(sectors, stream, f, n) == FillLastPass(sectors, stream, f, n);
    }
  }

  /** A pass that got block b and wrote its two sectors, as FillStep describes it. */
  lemma FillStepIs(sectors: nat, stream: seq<byte>, p: Fill, i: nat, s1: State, b: int, t: State)
    requires sectors < 512 && p.entry.WellSized() && i < BLOCKS_PER_ENTRY
    requires GetFreeBlockSpec(p.st, sectors) == (s1, b) && b >= 0
    requires var sector := (b * 2) % 256;
      t == WriteSectorSpec(WriteSectorSpec(s1, sector, SectorData(p.header, stream, p.spos)), (sector + 1) % 256,
                           SectorData(None, stream, SectorConsumed(p.header, stream, p.spos)))
    ensures var d1 := SectorData(p.header, stream, p.spos);
      var p2 := SectorConsumed(p.header, stream, p.spos);
      FillStep(sectors, stream, p, i) ==
      Fill(t, SectorConsumed(None, stream, p2), p.pos + BLOCK_SIZE, None, p.entry.(blocks := p.entry.blocks[i := b]),
           true, p.taken + [b], p.data + d1 + SectorData(None, stream, p2))
  {
  }

  /** The outer loop of add_file_internal ends with an error when no directory slot is free. */
  lemma AddExtentsExhausted(s: State, sectors: nat, stream: seq<byte>, spos: nat, pos: int, size: int,
                            header: Option<HeaderBytes>, name: seq<byte>, user: byte, extent: byte,
                            written: seq<DirEntry>, taken: seq<nat>, data: seq<byte>)
    requires sectors < 512 && pos < size && NextFree(Dir(s), 0) < 0
    ensures AddExtents(s, sectors, stream, spos, pos, size, header, name, user, extent, written, taken, data) ==
      Added(Scanned(s), false, written, taken, data)
  {
  }

  /** One pass of the outer loop with a free slot: the fill of the extent's blocks, then the rest. */
  lemma AddExtentsFills(s: State, sectors: nat, stream: seq<byte>, spos: nat, pos: int, size: int,
                        header: Option<HeaderBytes>, name: seq<byte>, user: byte, extent: byte,
                        written: seq<DirEntry>, taken: seq<nat>, data: seq<byte>, index: int)
    requires sectors < 512 && pos < size && index == NextFree(Dir(s), 0) && index >= 0
    ensures var records := ExtentRecords(size, pos);
      AddExtents(s, sectors, stream, spos, pos, size, header, name, user, extent, written, taken, data) ==
      AddFilled(sectors, stream, pos, size, name, user, extent, written,
                FillBlocks(sectors, stream, Fill(Scanned(s), spos, pos, header, NewEntry(name, user, extent, records), true, taken, data),
                           CeilDiv(records, RECORDS_PER_BLOCK)), index)
  {
  }

  /** amsdos_add_binary_file past the checks and the read of the first 128 bytes: the add behind the new header. */
  lemma AddBinaryIs(s: State, sectors: nat, name: seq<byte>, user: byte, fileSize: Option<nat>, stream: seq<byte>,
                    load: nat, entry: nat, s1: State, size: nat, found: bool, total: nat, spos: nat)
    requires sectors < 512 && |stream| >= HEADER_SIZE
    requires AddFileChecksSpec(s, name, user, fileSize) == (s1, Some(size))
    requires found == IsHeader(stream[..HEADER_SIZE])
    requires total == (if found then size else size + HEADER_SIZE) && spos == (if found then HEADER_SIZE else 0)
    ensures AddBinaryFileSpec(s, sectors, name, user, fileSize, stream, load, entry) ==
      AddFileInternalSpec(s1, sectors, Some(InitHeader(name, total % 65536, user, load, entry)), total, stream, spos, name, user)
  {
  }

  class Amsdos {
    /** The container (amsdos->dsk). */
    const disk: Disk
    /** The total sector count dsk_get_info reports; below 512 so the 8-bit block numbers cover the disk. */
    const sectors: nat
    /** last_free_block: 0 until the first allocation computes it. */
    var cursor: byte

    ghost predicate Valid()
      reads this, disk, disk.cache
    {
      disk.Valid() && sectors < 512
    }

    /** The file-system state as a value. */
    ghost function St(): State
      reads this, disk, disk.image, disk.cache
    {
      State(disk.info, disk.image[..], disk.cache[..], cursor)
    }

    /** amsdos_new: the loaded container, with the cursor zeroed by calloc. */
    constructor (d: Disk, totalSectors: nat)
      requires d.Valid() && totalSectors < 512
      ensures Valid()
      ensures disk == d && sectors == totalSectors
      ensures St() == State(d.info, d.image[..], d.cache[..], 0)
    {
      disk := d;
      sectors := totalSectors;
      cursor := 0;
    }

    // -------------------------------------------------------------------
    // The directory.

    /**
     * get_dir_entry_offset: the sector with id first + index / 16 on the
     * directory track, side 0, then 32 bytes per entry within it.
     */
    method GetDirEntryOffset(index: nat) returns (offset: nat)
      requires Valid()
      modifies disk.cache
      ensures Valid()
      ensures offset == DirOffset(disk.info, disk.image[..], index)
      ensures disk.cache[..] == DirCache(disk.info, disk.image[..], old(disk.cache[..]))
    {
      ghost var c0 := disk.cache[..];
      var sectorId := disk.FirstSectorId();
      sectorId := (sectorId + index / 16) % 256;
      var track := disk.BaseTrackIndex();
      CachedTwice(disk.info, disk.image[..], c0, 0);
      offset := disk.GetSectorOffset(track, 0, sectorId);
      assert Touch(disk.info, disk.image[..], c0, 1) == Cached(disk.info, disk.image[..], c0, 0);
      TouchTwice(disk.info, disk.image[..], c0, 1, ScanEnd(disk.info, disk.image[..], track, 0));
      offset := offset + (index % 16) * DIR_ENTRY_SIZE;
      assert sectorId == DirSectorId(disk.info, disk.image[..], index);
      assert track == DirTrack(disk.info, disk.image[..]);
    }

    /** amsdos_get_dir: the entry at `index`, or None (NULL) for an index of 64 or more. */
    method GetDir(index: nat) returns (entry: Option<DirEntry>)
      requires Valid()
      modifies disk.cache
      ensures Valid()
      ensures index < NUM_DIRENT ==> entry == Some(Dir(old(St()))[index]) && St() == Scanned(old(St()))
      ensures index >= NUM_DIRENT ==> entry.None? && St() == old(St())
    {
      if index < NUM_DIRENT {
        var offset := GetDirEntryOffset(index);
        entry := Some(ParseDirEntry(Slice(disk.image[..], offset, DIR_ENTRY_SIZE)));
      } else {
        entry := None;
      }
    }

    /** amsdos_update_dir: the entry's 32 bytes copied over slot `index`; nothing for 64 or more. */
    method UpdateDir(e: DirEntry, index: nat)
      requires Valid() && e.WellSized()
      modifies disk.image, disk.cache
      ensures Valid()
      ensures St() == UpdateDirSpec(old(St()), e, index)
    {
      if index < NUM_DIRENT {
        var offset := GetDirEntryOffset(index);
        disk.WriteBytes(offset, SerializeDirEntry(e));
      }
    }

    /** get_free_dir_entry_count: the deleted entries among the 64. */
    method FreeDirEntryCount() returns (count: nat)
      requires Valid()
      modifies disk.cache
      ensures Valid()
      ensures count == FreeEntries(Dir(old(St())), NUM_DIRENT)
      ensures St() == Scanned(old(St()))
    {
      ghost var s0 := St();
      ghost var d := Dir(s0);
      ScannedIdempotent(s0);
      count := 0;
      for i := 0 to NUM_DIRENT
        invariant Valid()
        invariant count == FreeEntries(d, i)
        invariant St() == if i == 0 then s0 else Scanned(s0)
      {
        var entry := GetDir(i);
        if IsDeleted(entry.value) {
          count := count + 1;
        }
      }
    }

    /** get_next_free_dir_entry: the lowest deleted entry, or -1. */
    method NextFreeDirEntry() returns (index: int)
      requires Valid()
      modifies disk.cache
      ensures Valid()
      ensures index == NextFree(Dir(old(St())), 0)
      ensures St() == Scanned(old(St()))
    {
      ghost var s0 := St();
      ghost var d := Dir(s0);
      ScannedIdempotent(s0);
      for i := 0 to NUM_DIRENT
        invariant Valid()
        invariant NextFree(d, 0) == NextFree(d, i)
        invariant St() == if i == 0 then s0 else Scanned(s0)
      {
        var entry := GetDir(i);
        if IsDeleted(entry.value) {
          return i;
        }
      }
      return -1;
    }

    /**
     * get_dir_entry_for_file: the lowest entry whose name field, extension
     * (attribute bits cleared) and user match, compared with strncmp, or -1;
     * a match is also returned as `entry`.
     */
    method GetDirEntryForFile(name: seq<byte>, user: byte) returns (index: int, entry: DirEntry)
      requires Valid()
      modifies disk.cache
      ensures Valid()
      ensures index == Lookup(Dir(old(St())), name, user)
      ensures index >= 0 ==> entry == Dir(old(St()))[index]
      ensures St() == Scanned(old(St()))
    {
      ghost var s0 := St();
      ghost var d := Dir(s0);
      ScannedIdempotent(s0);
      var filename := GetAmsdosFilename(name);
      var extension := GetAmsdosExtension(name);
      entry := BlankEntry();
      for i := 0 to NUM_DIRENT
        invariant Valid()
        invariant Lookup(d, name, user) == LookupFrom(d, name, user, i)
        invariant St() == if i == 0 then s0 else Scanned(s0)
      {
        var e := GetDir(i);
        entry := e.value;
        if StrnEq(filename, entry.name, AMSDOS_NAME_LEN) &&
           StrnEq(extension, DirExtension(entry), AMSDOS_EXT_LEN) &&
           entry.user == user {
          return i, entry;
        }
      }
      index := -1;
    }

    /** amsdos_exists_file */
    method ExistsFile(name: seq<byte>, user: byte) returns (found: bool)
      requires Valid()
      modifies disk.cache
      ensures Valid()
      ensures found == Exists(Dir(old(St())), name, user)
      ensures St() == Scanned(old(St()))
    {
      var index, entry := GetDirEntryForFile(name, user);
      found := index >= 0;
    }

    // -------------------------------------------------------------------
    // Block allocation.

    /** The inner loop of is_block_in_use: the block among the entry's first (record_count + 7) >> 3 slots. */
    static method SlotsHold(entry: DirEntry, block: byte) returns (found: bool)
      requires entry.WellSized()
      ensures found == ListsBlock(entry, block)
    {
      var blockCount := Min(BLOCKS_PER_ENTRY, (entry.recordCount + 7) / 8);
      assert blockCount == BlockSlots(entry);
      for j := 0 to blockCount
        invariant forall k :: 0 <= k < j ==> entry.blocks[k] != block
      {
        if entry.blocks[j] == block {
          return true;
        }
      }
      return false;
    }

    /** is_block_in_use: some live entry lists the block among its used slots. */
    method IsBlockInUse(block: byte) returns (used: bool)
      requires Valid()
      modifies disk.cache
      ensures Valid()
      ensures used == InUse(Dir(old(St())), block)
      ensures St() == Scanned(old(St()))
    {
      ghost var s0 := St();
      ghost var d := Dir(s0);
      ScannedIdempotent(s0);
      for i := 0 to NUM_DIRENT
        invariant Valid()
        invariant NoneLists(d, block, i)
        invariant St() == if i == 0 then s0 else Scanned(s0)
      {
        var e := GetDir(i);
        var entry := e.value;
        var found := false;
        if !IsDeleted(entry) {
          found := SlotsHold(entry, block);
        }
        NoneListsStep(d, block, i, found);
        if found {
          return true;
        }
      }
      NoneListsAll(d, block);
      return false;
    }

    /** get_block_count: half the disk's sectors, after dsk_get_info has looked track 0 up. */
    method BlockCount() returns (count: nat)
      requires Valid()
      modifies disk.cache
      ensures Valid()
      ensures count == sectors / 2
      ensures disk.cache[..] == Cached(disk.info, disk.image[..], old(disk.cache[..]), 0)
    {
      var first := disk.FirstSectorId();
      count := sectors / 2;
    }

    /**
     * The first search block of get_free_block, summed in uint8_t: the
     * blocks of the reserved tracks (their data size in KiB, rounded up)
     * and the two directory blocks. The loop condition re-evaluates
     * base_track_index; on an unchanged image it gives the same value.
     */
    method InitialBlock() returns (base: byte)
      requires Valid()
      modifies disk.cache
      ensures Valid()
      ensures base == BaseBlock(disk.info, disk.image[..])
      ensures disk.cache[..] == Cached(disk.info, disk.image[..], old(disk.cache[..]), 0)
    {
      ghost var c0 := disk.cache[..];
      var reserved := disk.BaseTrackIndex();
      base := 0;
      var i := 0;
      while i < reserved
        invariant 0 <= i <= reserved
        invariant base == ReservedBlocks(disk.info, i) % 256
        invariant disk.cache[..] == Cached(disk.info, disk.image[..], c0, 0)
      {
        var blocks := CeilDiv(Max(0, TrackSize(disk.info, i) - TRACK_HEADER_SIZE), 1024);
        ReservedStep(disk.info, i, base, blocks);
        base := (base + blocks) % 256;
        i := i + 1;
      }
      ModAddLeft(ReservedBlocks(disk.info, reserved), DIR_BLOCKS, 256);
      base := (base + DIR_BLOCKS) % 256;
    }

    /**
     * The search loop of get_free_block from `start`: the first block below
     * get_block_count() that no live entry lists, or -1. The count is
     * re-read before each pass.
     */
    method FindFreeBlock(start: byte) returns (found: int)
      requires Valid()
      modifies disk.cache
      ensures Valid()
      ensures found == FreeFrom(Dir(old(St())), start, sectors / 2)
      ensures disk.cache[..] == if start < sectors / 2 then DirCache(disk.info, disk.image[..], old(disk.cache[..]))
                                else Cached(disk.info, disk.image[..], old(disk.cache[..]), 0)
    {
      ghost var d := Dir(St());
      ghost var c0 := disk.cache[..];
      ghost var img := disk.image[..];
      var b: byte := start;
      var limit := BlockCount();
      DirCacheIdempotent(disk.info, img, c0);
      DirCacheCoversTrackZero(disk.info, img, c0);
      while b < limit
        invariant Valid()
        invariant limit == sectors / 2 && start <= b && (b == start || b <= limit)
        invariant AllUsed(d, start, b)
        invariant disk.cache[..] == if b == start then Cached(disk.info, img, c0, 0) else DirCache(disk.info, img, c0)
        decreases sectors / 2 - b
      {
        var used := IsBlockInUse(b);
        if !used {
          SearchFound(d, start, b, limit);
          return b;
        }
        b := b + 1;
        limit := BlockCount();
      }
      SearchFound(d, start, b, limit);
      return -1;
    }

    /**
     * get_free_block: from the cursor (computed on first use), the first
     * block below sectors / 2 that is not in use; the cursor moves just
     * past it, and the uint8_t block is returned through int8_t.
     */
    method GetFreeBlock() returns (block: int)
      requires Valid()
      modifies this, disk.cache
      ensures Valid()
      ensures (St(), block) == GetFreeBlockSpec(old(St()), sectors)
    {
      ghost var s0 := St();
      if cursor == 0 {
        cursor := InitialBlock();
      }
      ghost var c1 := disk.cache[..];
      assert c1 == s0.cache || c1 == Cached(s0.info, s0.img, s0.cache, 0);
      var found := FindFreeBlock(cursor);
      CachedTwice(s0.info, s0.img, s0.cache, 0);
      DirCacheIdempotent(s0.info, s0.img, s0.cache);
      if found >= 0 {
        cursor := found + 1;
        block := Int8(found);
      } else {
        block := -1;
      }
      GetFreeBlockSpecIs(s0, sectors, found, St());
    }

    // -------------------------------------------------------------------
    // Adding a file.

    /**
     * read_sector: 512 bytes written to `sector`, either the header and
     * the next 384 bytes of the stream or the next 512 bytes; the stream
     * position after the fread is returned.
     */
    method ReadSector(stream: seq<byte>, spos: nat, header: Option<HeaderBytes>, sector: byte) returns (next: nat)
      requires Valid()
      modifies disk.image, disk.cache
      ensures Valid()
      ensures St() == WriteSectorSpec(old(St()), sector, SectorData(header, stream, spos))
      ensures next == SectorConsumed(header, stream, spos)
    {
      var buffer: seq<byte>;
      if header.Some? {
        buffer := header.value + Slice(stream, spos, SECTOR_SIZE - HEADER_SIZE);
        next := Advance(stream, spos, SECTOR_SIZE - HEADER_SIZE);
      } else {
        buffer := Slice(stream, spos, SECTOR_SIZE);
        next := Advance(stream, spos, SECTOR_SIZE);
      }
      disk.WriteSector(sector, buffer);
    }

    /** The two read_sector calls of one block: `sector` with the pending header, if any, then the next sector without. */
    method WriteBlock(stream: seq<byte>, spos: nat, header: Option<HeaderBytes>, sector: byte) returns (next: nat)
      requires Valid()
      modifies disk.image, disk.cache
      ensures Valid()
      ensures var p2 := SectorConsumed(header, stream, spos);
        St() == WriteSectorSpec(WriteSectorSpec(old(St()), sector, SectorData(header, stream, spos)), (sector + 1) % 256,
                                SectorData(None, stream, p2)) &&
        next == SectorConsumed(None, stream, p2)
    {
      next := ReadSector(stream, spos, header, sector);
      next := ReadSector(stream, next, None, (sector + 1) % 256);
    }

    /**
     * One pass of the inner loop of add_file_internal at slot i: allocate
     * a block (an error when none is left), record it in the entry, fill
     * its two sectors from the stream, the pending header, if any, heading
     * the first, and move on by 1024 bytes. The result is FillStep of the
     * fill the pass starts from; `taken` and `data` are the blocks and
     * sector contents so far.
     */
    method FillBlock(stream: seq<byte>, spos0: nat, pos0: int, header0: Option<HeaderBytes>, entry0: DirEntry, i: nat,
                     ghost taken0: seq<nat>, ghost data0: seq<byte>)
      returns (ok: bool, spos: nat, pos: int, header: Option<HeaderBytes>, entry: DirEntry,
               ghost taken: seq<nat>, ghost data: seq<byte>)
      requires Valid() && entry0.WellSized() && i < BLOCKS_PER_ENTRY
      modifies this, disk.image, disk.cache
      ensures Valid()
      ensures var r := FillStep(sectors, stream, Fill(old(St()), spos0, pos0, header0, entry0, true, taken0, data0), i);
        ok == r.ok && St() == r.st &&
        (ok ==> r == Fill(St(), spos, pos, header, entry, true, taken, data))
    {
      ghost var p := Fill(St(), spos0, pos0, header0, entry0, true, taken0, data0);
      spos, pos, header, entry, taken, data := spos0, pos0, header0, entry0, taken0, data0;
      var block := GetFreeBlock();
      if block < 0 {
        return false, spos, pos, header, entry, taken, data;
      }
      ghost var s1 := St();
      entry := entry.(blocks := entry.blocks[i := block]);
      var sector: byte := (block * 2) % 256;
      ghost var d1 := SectorData(header, stream, spos);
      ghost var d2 := SectorData(None, stream, SectorConsumed(header, stream, spos));
      spos := WriteBlock(stream, spos, header, sector);
      header := None;
      pos := pos + BLOCK_SIZE;
      taken, data := taken + [block], data + d1 + d2;
      FillStepIs(sectors, stream, p, i, s1, block, St());
      ok := true;
    }

    /**
     * The inner loop of add_file_internal over the entry's first n block
     * slots, stopping at the first failed allocation: FillBlocks of the
     * state and fill the loop starts from.
     */
    method FillEntry(stream: seq<byte>, spos0: nat, pos0: int, header0: Option<HeaderBytes>, entry0: DirEntry, n: nat,
                     ghost taken0: seq<nat>, ghost data0: seq<byte>)
      returns (ok: bool, spos: nat, pos: int, header: Option<HeaderBytes>, entry: DirEntry,
               ghost taken: seq<nat>, ghost data: seq<byte>)
      requires Valid() && entry0.WellSized() && n <= BLOCKS_PER_ENTRY
      modifies this, disk.image, disk.cache
      ensures Valid()
      ensures var f := FillBlocks(sectors, stream, Fill(old(St()), spos0, pos0, header0, entry0, true, taken0, data0), n);
        ok == f.ok && St() == f.st &&
        (ok ==> f == Fill(St(), spos, pos, header, entry, true, taken, data))
    {
      ghost var f0 := Fill(St(), spos0, pos0, header0, entry0, true, taken0, data0);
      spos, pos, header, entry, taken, data := spos0, pos0, header0, entry0, taken0, data0;
      for i := 0 to n
        invariant Valid() && entry.WellSized()
        invariant FillBlocks(sectors, stream, f0, i) == Fill(St(), spos, pos, header, entry, true, taken, data)
      {
        ok, spos, pos, header, entry, taken, data := FillNext(stream, f0, i, spos, pos, header, entry, taken, data);
        if !ok {
          FillBlocksStaysFailed(sectors, stream, f0, i + 1, n);
          return;
        }
      }
      ok := true;
    }

    /**
     * Pass i of the inner loop of add_file_internal, from the fill the first
     * i passes left: the next fill, or, when the allocation fails, the
     * outcome of all n passes.
     */
    method FillNext(stream: seq<byte>, ghost f0: Fill, i: nat, spos0: nat, pos0: int,
                    header0: Option<HeaderBytes>, entry0: DirEntry, ghost taken0: seq<nat>, ghost data0: seq<byte>)
      returns (ok: bool, spos: nat, pos: int, header: Option<HeaderBytes>, entry: DirEntry,
               ghost taken: seq<nat>, ghost data: seq<byte>)
      requires Valid() && f0.entry.WellSized() && entry0.WellSized() && i < BLOCKS_PER_ENTRY
      requires FillBlocks(sectors, stream, f0, i) == Fill(St(), spos0, pos0, header0, entry0, true, taken0, data0)
      modifies this, disk.image, disk.cache
      ensures Valid()
      ensures ok ==> entry.WellSized() && FillBlocks(sectors, stream, f0, i + 1) == Fill(St(), spos, pos, header, entry, true, taken, data)
      ensures !ok ==> !FillBlocks(sectors, stream, f0, i + 1).ok && St() == FillBlocks(sectors, stream, f0, i + 1).st
    {
      FillBlocksNext(sectors, stream, f0, i);
      ok, spos, pos, header, entry, taken, data := FillBlock(stream, spos0, pos0, header0, entry0, i, taken0, data0);
    }

    /**
     * One extent of add_file_internal in free slot `index`: the entry (user,
     * extent number, name fields and record count, blocks zeroed), its
     * SHIFTH(records, 3) blocks filled, then, unless a fill failed, the
     * entry written to its slot.
     */
    method AddExtent(stream: seq<byte>, spos0: nat, pos0: int, header0: Option<HeaderBytes>, size: int,
                     filename: seq<byte>, extension: seq<byte>, name: seq<byte>, user: byte, extent: byte, index: nat,
                     ghost taken0: seq<nat>, ghost data0: seq<byte>)
      returns (ok: bool, spos: nat, pos: int, header: Option<HeaderBytes>, ghost entry: DirEntry,
               ghost taken: seq<nat>, ghost data: seq<byte>)
      requires Valid() && pos0 < size && filename == NameField(name) && extension == ExtField(name)
      modifies this, disk.image, disk.cache
      ensures Valid()
      ensures var records := ExtentRecords(size, pos0);
        var f := FillBlocks(sectors, stream, Fill(old(St()), spos0, pos0, header0, NewEntry(name, user, extent, records), true, taken0, data0),
                            CeilDiv(records, RECORDS_PER_BLOCK));
        ok == f.ok && (!ok ==> St() == f.st) &&
        (ok ==> f == Fill(f.st, spos, pos, header, entry, true, taken, data) && St() == UpdateDirSpec(f.st, entry, index))
    {
      var records: byte := Min(RECORDS_PER_ENTRY, CeilDiv(size - pos0, RECORD_SIZE));
      var e := DirEntry(user, filename, extension, extent, 0, 0, records, seq(BLOCKS_PER_ENTRY, _ => 0));
      assert e == NewEntry(name, user, extent, records);
      var blocks := CeilDiv(records, RECORDS_PER_BLOCK);
      var entry1;
      ok, spos, pos, header, entry1, taken, data := FillEntry(stream, spos0, pos0, header0, e, blocks, taken0, data0);
      entry := entry1;
      if ok {
        UpdateDir(entry1, index);
      }
    }

    /**
     * One pass of the loop of add_file_internal: take the lowest free
     * directory slot and add the extent that starts at pos in it. `more`
     * says whether the loop goes on; when it does not, `ok` is the outcome.
     */
    method AddPass(stream: seq<byte>, spos0: nat, pos0: int, header0: Option<HeaderBytes>, size: int,
                   filename: seq<byte>, extension: seq<byte>, name: seq<byte>, user: byte, extent0: byte,
                   ghost written0: seq<DirEntry>, ghost taken0: seq<nat>, ghost data0: seq<byte>)
      returns (more: bool, ok: bool, spos: nat, pos: int, header: Option<HeaderBytes>, extent: byte,
               ghost written: seq<DirEntry>, ghost taken: seq<nat>, ghost data: seq<byte>)
      requires Valid() && pos0 < size && filename == NameField(name) && extension == ExtField(name)
      modifies this, disk.image, disk.cache
      ensures Valid()
      ensures var r := AddExtents(old(St()), sectors, stream, spos0, pos0, size, header0, name, user, extent0, written0, taken0, data0);
        (!more ==> ok == r.ok && St() == r.st) &&
        (more ==> pos > pos0 &&
                  AddExtents(St(), sectors, stream, spos, pos, size, header, name, user, extent, written, taken, data) == r)
    {
      ghost var s := St();
      var index := NextFreeDirEntry();
      if index < 0 {
        AddExtentsExhausted(s, sectors, stream, spos0, pos0, size, header0, name, user, extent0, written0, taken0, data0);
        return false, false, spos0, pos0, header0, extent0, written0, taken0, data0;
      }
      AddExtentsFills(s, sectors, stream, spos0, pos0, size, header0, name, user, extent0, written0, taken0, data0, index);
      ghost var entry;
      ok, spos, pos, header, entry, taken, data :=
        AddExtent(stream, spos0, pos0, header0, size, filename, extension, name, user, extent0, index, taken0, data0);
      more := ok;
      extent := (extent0 + 1) % 256;
      written := written0 + [entry];
    }

    /**
     * add_file_internal: while pos < size, take the lowest free directory
     * slot (an error when there is none) and add the next extent in it;
     * extent numbers count up in uint8_t from 0. The header, if any, heads
     * the first sector written.
     */
    method AddFileInternal(header0: Option<HeaderBytes>, size: int, stream: seq<byte>, spos0: nat,
                           name: seq<byte>, user: byte) returns (ok: bool)
      requires Valid()
      modifies this, disk.image, disk.cache
      ensures Valid()
      ensures var r := AddFileInternalSpec(old(St()), sectors, header0, size, stream, spos0, name, user);
        ok == r.ok && St() == r.st
    {
      ghost var goal := AddFileInternalSpec(St(), sectors, header0, size, stream, spos0, name, user);
      var filename := GetAmsdosFilename(name);
      var extension := GetAmsdosExtension(name);
      var extent: byte := 0;
      var pos: int := 0;
      var spos := spos0;
      var header := header0;
      ghost var written: seq<DirEntry> := [];
      ghost var taken: seq<nat> := [];
      ghost var data: seq<byte> := [];
      while pos < size
        invariant Valid()
        invariant AddExtents(St(), sectors, stream, spos, pos, size, header, name, user, extent, written, taken, data) == goal
        decreases size - pos
      {
        var more;
        more, ok, spos, pos, header, extent, written, taken, data :=
          AddPass(stream, spos, pos, header, size, filename, extension, name, user, extent, written, taken, data);
        if !more {
          return;
        }
      }
      ok := true;
    }

    // -------------------------------------------------------------------
    // The add operations. The source file is given by what stat reports
    // (`fileSize`, None when stat fails or the file is not a regular file)
    // and by its contents (`stream`).

    /** add_file_checks: the size to add, or None when the add is refused. */
    method AddFileChecks(name: seq<byte>, user: byte, fileSize: Option<nat>) returns (size: Option<nat>)
      requires Valid()
      modifies disk.cache
      ensures Valid()
      ensures (St(), size) == AddFileChecksSpec(old(St()), name, user, fileSize)
    {
      ScannedIdempotent(St());
      var found := ExistsFile(name, user);
      if found {
        return None;
      }
      if fileSize.None? {
        return None;
      }
      var free := FreeDirEntryCount();
      if fileSize.value > free * BLOCKS_PER_ENTRY * 1024 {
        return None;
      }
      return fileSize;
    }

    /** amsdos_add_file: the checks, then the file's bytes from the start, without a header. */
    method AddFile(name: seq<byte>, user: byte, fileSize: Option<nat>, stream: seq<byte>) returns (ok: bool)
      requires Valid()
      modifies this, disk.image, disk.cache
      ensures Valid()
      ensures var r := AddFileSpec(old(St()), sectors, name, user, fileSize, stream);
        ok == r.ok && St() == r.st
    {
      var size := AddFileChecks(name, user, fileSize);
      if size.None? {
        return false;
      }
      ok := AddFileInternal(None, size.value, stream, 0, name, user);
    }

    /**
     * amsdos_add_binary_file: read the first 128 bytes; unless they are a
     * header, count them in the size and rewind; then add the file behind a
     * new header for the name, the size, the user and the two addresses.
     */
    method AddBinaryFile(name: seq<byte>, user: byte, fileSize: Option<nat>, stream: seq<byte>,
                         load: nat, entry: nat) returns (ok: bool)
      requires Valid() && load < 65536 && entry < 65536
      modifies this, disk.image, disk.cache
      ensures Valid()
      ensures var r := AddBinaryFileSpec(old(St()), sectors, name, user, fileSize, stream, load, entry);
        ok == r.ok && St() == r.st
    {
      var size := AddFileChecks(name, user, fileSize);
      if size.None? {
        return false;
      }
      if |stream| < HEADER_SIZE {
        return false;
      }
      var first: HeaderBytes := stream[..HEADER_SIZE];
      var checksum := GetChecksum(first, CHECKSUM_SPAN);
      var total := size.value;
      var spos := HEADER_SIZE;
      if StoredChecksum(first) != checksum {
        total := total + HEADER_SIZE;
        spos := 0;
      }
      AddBinaryIs(old(St()), sectors, name, user, fileSize, stream, load, entry, St(), size.value,
                  StoredChecksum(first) == checksum, total, spos);
      var header := InitHeader(name, total % 65536, user, load, entry);
      ok := AddFileInternal(Some(header), total, stream, spos, name, user);
    }

    /**
     * amsdos_add_ascii_file: read the first 128 bytes; a header is dropped
     * from the size and the stream goes on after it, anything else is
     * rewound. Nothing is put in front of the data.
     */
    method AddAsciiFile(name: seq<byte>, user: byte, fileSize: Option<nat>, stream: seq<byte>) returns (ok: bool)
      requires Valid()
      modifies this, disk.image, disk.cache
      ensures Valid()
      ensures var r := AddAsciiFileSpec(old(St()), sectors, name, user, fileSize, stream);
        ok == r.ok && St() == r.st
    {
      var size := AddFileChecks(name, user, fileSize);
      if size.None? {
        return false;
      }
      if |stream| < HEADER_SIZE {
        return false;
      }
      var first: HeaderBytes := stream[..HEADER_SIZE];
      var checksum := GetChecksum(first, CHECKSUM_SPAN);
      var total := size.value;
      var spos := 0;
      if StoredChecksum(first) == checksum {
        total := total - HEADER_SIZE;
        spos := HEADER_SIZE;
      }
      ok := AddFileInternal(None, total, stream, spos, name, user);
    }

    // -------------------------------------------------------------------
    // Export, removal, used bytes, disk information and the empty directory.

    /** read_entry_sector: sector n, cut to MIN(512, remaining << 7) bytes. */
    method ReadEntrySector(n: byte, remaining: int) returns (kept: seq<byte>)
      requires Valid()
      modifies disk.cache
      ensures Valid()
      ensures kept == ReadSectorData(old(St()), n)[..SectorOut(remaining)]
      ensures St() == ReadSectorState(old(St()), n)
    {
      var buffer := disk.ReadSector(n);
      kept := buffer[..SectorOut(remaining)];
    }

    /** read_entry_blocks: the entry's sectors appended to `out0`, as the destination file receives them. */
    method ReadEntryBlocks(e: DirEntry, out0: seq<byte>) returns (out: seq<byte>)
      requires Valid() && e.WellSized()
      modifies disk.cache
      ensures Valid()
      ensures (St(), out) == AmsdosFiles.ReadEntryBlocks(old(St()), e, out0, false)
    {
      var blockCount := Min(BLOCKS_PER_ENTRY, CeilDiv(e.recordCount, RECORDS_PER_BLOCK));
      var remaining: int := e.recordCount;
      out := out0;
      for i := 0 to blockCount
        invariant Valid()
        invariant EntryBlocks(St(), e, i, blockCount, remaining, out, false) ==
                  AmsdosFiles.ReadEntryBlocks(old(St()), e, out0, false)
      {
        if e.blocks[i] > 0 && remaining > 0 {
          var sector: byte := (e.blocks[i] as int * 2) % 256;
          var d1 := ReadEntrySector(sector, remaining);
          remaining := remaining - 4;
          var d2 := ReadEntrySector((sector + 1) % 256, remaining);
          remaining := remaining - 4;
          out := out + d1 + d2;
        }
      }
    }

    /** The do-while of amsdos_get_file from the entry found at `index`. */
    method ExportChain(index0: nat, entry0: DirEntry, user: byte) returns (out: seq<byte>)
      requires Valid() && index0 < NUM_DIRENT && entry0 == EntryAt(disk.info, disk.image[..], index0)
      modifies disk.cache
      ensures Valid()
      ensures (St(), out) == ExportFrom(old(St()), index0, user, [])
    {
      var index := index0;
      var entry := entry0;
      var more := true;
      out := [];
      while more
        invariant Valid()
        invariant more ==> index < NUM_DIRENT && entry == EntryAt(disk.info, disk.image[..], index) &&
                           ExportFrom(St(), index, user, out) == ExportFrom(old(St()), index0, user, [])
        invariant !more ==> (St(), out) == ExportFrom(old(St()), index0, user, [])
        decreases NUM_DIRENT - index, more
      {
        out := ReadEntryBlocks(entry, out);
        index := index + 1;
        var next := GetDir(index);
        if next.Some? && next.value.extentLow != 0 && next.value.user == user {
          entry := next.value;
        } else {
          more := false;
        }
      }
    }

    /**
     * amsdos_get_file: false when the file is not found; otherwise true and
     * the bytes written to the destination file.
     */
    method GetFile(name: seq<byte>, user: byte) returns (ok: bool, out: seq<byte>)
      requires Valid()
      modifies disk.cache
      ensures Valid()
      ensures (St(), ok, out) == GetFileSpec(old(St()), name, user)
    {
      var index, entry := GetDirEntryForFile(name, user);
      if index < 0 {
        return false, [];
      }
      out := ExportChain(index, entry, user);
      ok := true;
    }

    /** The do-while of amsdos_remove_file from the entry found at `index`. */
    method RemoveChain(index0: nat, entry0: DirEntry, user: byte)
      requires Valid() && index0 < NUM_DIRENT && entry0 == EntryAt(disk.info, disk.image[..], index0)
      modifies disk.image, disk.cache
      ensures Valid()
      ensures St() == RemoveFrom(old(St()), index0, user)
    {
      var index := index0;
      var entry := entry0;
      var more := true;
      while more
        invariant Valid()
        invariant more ==> index < NUM_DIRENT && entry == EntryAt(disk.info, disk.image[..], index) &&
                           RemoveFrom(St(), index, user) == RemoveFrom(old(St()), index0, user)
        invariant !more ==> St() == RemoveFrom(old(St()), index0, user)
        decreases NUM_DIRENT - index, more
      {
        entry := entry.(user := AMSDOS_USER_DELETED);
        UpdateDir(entry, index);
        index := index + 1;
        var next := GetDir(index);
        if next.Some? && next.value.extentLow != 0 && next.value.user == user {
          entry := next.value;
        } else {
          more := false;
        }
      }
    }

    /** amsdos_remove_file: false, with the image unchanged, when the file is not found. */
    method RemoveFile(name: seq<byte>, user: byte) returns (ok: bool)
      requires Valid()
      modifies disk.image, disk.cache
      ensures Valid()
      ensures (St(), ok) == RemoveFileSpec(old(St()), name, user)
    {
      var index, entry := GetDirEntryForFile(name, user);
      if index < 0 {
        return false;
      }
      RemoveChain(index, entry, user);
      ok := true;
    }

    /** amsdos_get_used_bytes: record_count << 7 summed over the live entries. */
    method GetUsedBytes() returns (bytes: nat)
      requires Valid()
      modifies disk.cache
      ensures Valid()
      ensures bytes == UsedBytes(Dir(old(St())), NUM_DIRENT)
      ensures St() == Scanned(old(St()))
    {
      ghost var s0 := St();
      ghost var d := Dir(s0);
      ScannedIdempotent(s0);
      bytes := 0;
      for i := 0 to NUM_DIRENT
        invariant Valid()
        invariant bytes == UsedBytes(d, i)
        invariant St() == if i == 0 then s0 else Scanned(s0)
      {
        var entry := GetDir(i);
        if !IsDeleted(entry.value) {
          bytes := bytes + entry.value.recordCount * RECORD_SIZE;
        }
      }
    }

    /** amsdos_get_info: the disk type read from the first sector id, and the used bytes. */
    method GetInfo() returns (diskType: DiskType, used: nat)
      requires Valid()
      modifies disk.cache
      ensures Valid()
      ensures (St(), diskType, used) == GetInfoSpec(old(St()))
    {
      ScannedIdempotent(St());
      var first := disk.FirstSectorId();
      used := GetUsedBytes();
      if first == BASE_SECTOR_DATA {
        diskType := Data;
      } else if first == BASE_SECTOR_IBM {
        diskType := Ibm;
      } else if first == BASE_SECTOR_SYS {
        diskType := System;
      } else {
        diskType := Unknown;
      }
    }

    /** The directory loop of amsdos_new_empty: each of the 64 entries read, then overwritten with 0xE5. */
    method WipeDirectory()
      requires Valid()
      modifies disk.image, disk.cache
      ensures Valid()
      ensures St() == WipeFrom(old(St()), 0)
    {
      for i := 0 to NUM_DIRENT
        invariant Valid()
        invariant WipeFrom(St(), i) == WipeFrom(old(St()), 0)
      {
        var entry := GetDir(i);
        UpdateDir(BlankEntry(), i);
      }
    }
  }
}
