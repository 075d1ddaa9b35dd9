/**
 * Properties of whole file operations of src/amsdos.c, stated over the
 * specification functions of AmsdosFiles: what an add stores, what the
 * export of an entry yields, and which bytes removal and the directory
 * wipe may change.
 */
module AmsdosProps {
  import opened Common
  import opened DskLayout
  import opened Dsk
  import opened AmsdosName
  import opened AmsdosHeader
  import opened AmsdosDir
  import opened AmsdosFiles

  // ---------------------------------------------------------------------
  // add_file_internal from the start.

  /**
   * An add from the start stores the pending header followed by the
   * stream, one 1 KiB block per block taken.
   */
  lemma AddStoresPayload(s: State, sectors: nat, header: Option<HeaderBytes>, size: int,
                         stream: seq<byte>, spos: nat, name: seq<byte>, user: byte)
    requires sectors < 512
    ensures var r := AddFileInternalSpec(s, sectors, header, size, stream, spos, name, user);
      r.data == Payload(header, stream, spos, BLOCK_SIZE * |r.taken|)
  {
    AddWritesPayload(s, sectors, stream, spos, 0, size, header, name, user, 0, [], [], []);
  }

  /** The blocks of an add are taken in strictly increasing order, so none is taken twice. */
  lemma AddTakesIncreasing(s: State, sectors: nat, header: Option<HeaderBytes>, size: int,
                           stream: seq<byte>, spos: nat, name: seq<byte>, user: byte)
    requires sectors < 512
    ensures Increasing(AddFileInternalSpec(s, sectors, header, size, stream, spos, name, user).taken)
  {
    AddIncreasing(s, sectors, stream, spos, 0, size, header, name, user, 0, [], [], []);
  }

  /**
   * The entries of an add carry extents 0, 1, 2, ... (in uint8_t), each
   * with the name, the user and the records of the 16 KiB piece it covers.
   */
  lemma AddNumbersFromZero(s: State, sectors: nat, header: Option<HeaderBytes>, size: int,
                           stream: seq<byte>, spos: nat, name: seq<byte>, user: byte)
    requires sectors < 512
    ensures ExtentsAt(name, user, size, AddFileInternalSpec(s, sectors, header, size, stream, spos, name, user).written, 0, 0, 0)
  {
    AddNumbersExtents(s, sectors, stream, spos, 0, size, header, name, user, 0, [], [], []);
  }

  /** A successful add writes SHIFTH(size, 14) entries that cover SHIFTH(size, 7) records. */
  lemma AddCoversSize(s: State, sectors: nat, header: Option<HeaderBytes>, size: int,
                      stream: seq<byte>, spos: nat, name: seq<byte>, user: byte)
    requires sectors < 512
    ensures var r := AddFileInternalSpec(s, sectors, header, size, stream, spos, name, user);
      r.ok ==>
        |r.written| == CeilDiv(Max(0, size), EXTENT_SIZE) &&
        RecordSum(r.written) == CeilDiv(Max(0, size), RECORD_SIZE)
  {
    AddAccountsForSize(s, sectors, stream, spos, 0, size, header, name, user, 0, [], [], []);
    ExtentsForIsCeil(size);
    RecordsForIsCeil(size);
  }

  /** The entries of a successful add list exactly the blocks taken, in the order taken. */
  lemma AddListsItsBlocks(s: State, sectors: nat, header: Option<HeaderBytes>, size: int,
                          stream: seq<byte>, spos: nat, name: seq<byte>, user: byte)
    requires sectors < 512
    ensures var r := AddFileInternalSpec(s, sectors, header, size, stream, spos, name, user);
      r.ok ==> Listing(r.written) == r.taken
  {
    var r := AddExtents(s, sectors, stream, spos, 0, size, header, name, user, 0, [], [], []);
    AddListsTaken(s, sectors, stream, spos, 0, size, header, name, user, 0, [], [], []);
    ListingFromStart(r, [], []);
  }

  lemma ListingFromStart(r: Added, written: seq<DirEntry>, taken: seq<nat>)
    requires written == [] && taken == []
    requires r.ok ==> |r.taken| >= |taken| && Listing(r.written) == Listing(written) + r.taken[|taken|..]
    ensures r.ok ==> Listing(r.written) == r.taken
  {
    assert r.taken[0..] == r.taken;
  }

  /** A payload headed by h is h, then the stream from spos. */
  lemma HeadedPayload(h: HeaderBytes, stream: seq<byte>, spos: nat, k: nat)
    requires k > 0
    ensures var p := Payload(Some(h), stream, spos, BLOCK_SIZE * k);
      p[..HEADER_SIZE] == h && p[HEADER_SIZE..] == Slice(stream, spos, BLOCK_SIZE * k - HEADER_SIZE)
  {
  }

  // ---------------------------------------------------------------------
  // add_file_checks and the three adds.

  /**
   * The checks pass exactly when the name is new for the user, the size is
   * known and it fits in 16 KiB per free directory entry; they pass on the
   * size given.
   */
  lemma AddFileChecksIff(s: State, name: seq<byte>, user: byte, fileSize: Option<nat>)
    ensures var size := AddFileChecksSpec(s, name, user, fileSize).1;
      (size.Some? <==>
        !Exists(Dir(s), name, user) && fileSize.Some? &&
        fileSize.value <= FreeEntries(Dir(s), NUM_DIRENT) * EXTENT_SIZE) &&
      (size.Some? ==> size == fileSize)
  {
  }

  /** amsdos_add_file stores the source from its first byte, with nothing in front; a refused add writes nothing. */
  lemma AddFileStoresSource(s: State, sectors: nat, name: seq<byte>, user: byte, fileSize: Option<nat>,
                            stream: seq<byte>)
    requires sectors < 512
    ensures var r := AddFileSpec(s, sectors, name, user, fileSize, stream);
      r.data == Slice(stream, 0, BLOCK_SIZE * |r.taken|) &&
      (AddFileChecksSpec(s, name, user, fileSize).1.None? ==> r == Refused(Scanned(s)))
  {
    var (s1, size) := AddFileChecksSpec(s, name, user, fileSize);
    if size.Some? {
      AddStoresPayload(s1, sectors, None, size.value, stream, 0, name, user);
    }
  }

  /**
   * amsdos_add_binary_file: whenever a block is written, the first sector
   * starts with the header built from the name, the size (plus 128 when the
   * source had no header), the user and the addresses, which the
   * corrected check recognises (InitHeaderIsHeader); the source follows it,
   * past its own header if it had one.
   */
  lemma AddBinaryStoresHeader(s: State, sectors: nat, name: seq<byte>, user: byte, fileSize: Option<nat>,
                              stream: seq<byte>, load: nat, entry: nat)
    requires sectors < 512
    ensures var r := AddBinaryFileSpec(s, sectors, name, user, fileSize, stream, load, entry);
      r.taken != [] ==>
        |stream| >= HEADER_SIZE && |r.data| == BLOCK_SIZE * |r.taken| &&
        var found := IsHeader(stream[..HEADER_SIZE]);
        var total := if found then AddFileChecksSpec(s, name, user, fileSize).1.value
                     else AddFileChecksSpec(s, name, user, fileSize).1.value + HEADER_SIZE;
        r.data[..HEADER_SIZE] == InitHeader(name, total % 65536, user, load, entry) &&
        r.data[HEADER_SIZE..] == Slice(stream, if found then HEADER_SIZE else 0, BLOCK_SIZE * |r.taken| - HEADER_SIZE)
  {
    var (s1, size) := AddFileChecksSpec(s, name, user, fileSize);
    if size.Some? && |stream| >= HEADER_SIZE {
      var found := IsHeader(stream[..HEADER_SIZE]);
      var total := if found then size.value else size.value + HEADER_SIZE;
      var spos := if found then HEADER_SIZE else 0;
      var h := InitHeader(name, total % 65536, user, load, entry);
      var r := AddFileInternalSpec(s1, sectors, Some(h), total, stream, spos, name, user);
      assert AddBinaryFileSpec(s, sectors, name, user, fileSize, stream, load, entry) == r;
      AddStoresPayload(s1, sectors, Some(h), total, stream, spos, name, user);
      if r.taken != [] {
        HeadedPayload(h, stream, spos, |r.taken|);
      }
    }
  }

  /**
   * Corrected, a source that starts with a header this add builds has that
   * header replaced: what follows the new header is the source from byte
   * 128.
   */
  lemma AddBinaryReplacesOwnHeader(s: State, sectors: nat, name: seq<byte>, user: byte, fileSize: Option<nat>,
                                   stream: seq<byte>, load: nat, entry: nat,
                                   name0: seq<byte>, size0: nat, user0: byte, load0: nat, entry0: nat)
    requires sectors < 512 && size0 < 65536
    requires |stream| >= HEADER_SIZE && stream[..HEADER_SIZE] == InitHeader(name0, size0, user0, load0, entry0)
    ensures var r := AddBinaryFileSpec(s, sectors, name, user, fileSize, stream, load, entry);
      r.taken != [] ==>
        |r.data| == BLOCK_SIZE * |r.taken| &&
        r.data[HEADER_SIZE..] == Slice(stream, HEADER_SIZE, BLOCK_SIZE * |r.taken| - HEADER_SIZE)
  {
    InitHeaderIsHeader(name0, size0, user0, load0, entry0);
    AddBinaryStoresHeader(s, sectors, name, user, fileSize, stream, load, entry);
  }

  /**
   * amsdos_add_binary_file as written: the same layout as the corrected
   * add, with the 67-byte check deciding whether the source had a header
   * and the 67-byte sum in the new one.
   */
  lemma AddBinaryAsWrittenStoresHeader(s: State, sectors: nat, name: seq<byte>, user: byte, fileSize: Option<nat>,
                                       stream: seq<byte>, load: nat, entry: nat)
    requires sectors < 512
    ensures var r := AddBinaryFileAsWritten(s, sectors, name, user, fileSize, stream, load, entry);
      r.taken != [] ==>
        |stream| >= HEADER_SIZE && |r.data| == BLOCK_SIZE * |r.taken| &&
        var found := IsHeaderAsWritten(stream[..HEADER_SIZE]);
        var total := if found then AddFileChecksSpec(s, name, user, fileSize).1.value
                     else AddFileChecksSpec(s, name, user, fileSize).1.value + HEADER_SIZE;
        r.data[..HEADER_SIZE] == InitHeaderAsWritten(name, total % 65536, user, load, entry) &&
        r.data[HEADER_SIZE..] == Slice(stream, if found then HEADER_SIZE else 0, BLOCK_SIZE * |r.taken| - HEADER_SIZE)
  {
    var (s1, size) := AddFileChecksSpec(s, name, user, fileSize);
    if size.Some? && |stream| >= HEADER_SIZE {
      var found := IsHeaderAsWritten(stream[..HEADER_SIZE]);
      var total := if found then size.value else size.value + HEADER_SIZE;
      var spos := if found then HEADER_SIZE else 0;
      var h := InitHeaderAsWritten(name, total % 65536, user, load, entry);
      var r := AddFileInternalSpec(s1, sectors, Some(h), total, stream, spos, name, user);
      assert AddBinaryFileAsWritten(s, sectors, name, user, fileSize, stream, load, entry) == r;
      AddStoresPayload(s1, sectors, Some(h), total, stream, spos, name, user);
      if r.taken != [] {
        HeadedPayload(h, stream, spos, |r.taken|);
      }
    }
  }

  /**
   * As written, a source whose first 128 bytes are the header the add
   * itself builds for "A", user 0, size 0 and addresses 0 is taken to have
   * none: those 128 bytes are stored as data right after the new header.
   */
  lemma AddBinaryAsWrittenKeepsOwnHeader(s: State, sectors: nat, user: byte, fileSize: Option<nat>,
                                         stream: seq<byte>, load: nat, entry: nat, n: seq<byte>)
    requires sectors < 512 && n == [0x41]
    requires |stream| >= HEADER_SIZE && stream[..HEADER_SIZE] == InitHeaderAsWritten(n, 0, 0, 0, 0)
    ensures var r := AddBinaryFileAsWritten(s, sectors, n, user, fileSize, stream, load, entry);
      r.taken != [] ==>
        |r.data| >= 2 * HEADER_SIZE && r.data[HEADER_SIZE..2 * HEADER_SIZE] == stream[..HEADER_SIZE]
  {
    InitHeaderAsWrittenRejected(n);
    AddBinaryAsWrittenStoresHeader(s, sectors, n, user, fileSize, stream, load, entry);
    var r := AddBinaryFileAsWritten(s, sectors, n, user, fileSize, stream, load, entry);
    if r.taken != [] {
      var rest := Slice(stream, 0, BLOCK_SIZE * |r.taken| - HEADER_SIZE);
      SliceAt(stream, 0, BLOCK_SIZE * |r.taken| - HEADER_SIZE);
      assert rest[..HEADER_SIZE] == stream[..HEADER_SIZE];
    }
  }

  /**
   * amsdos_add_ascii_file, corrected: the stored bytes are the source past
   * its header if it had one, from its first byte otherwise, with nothing
   * in front.
   */
  lemma AddAsciiStoresSource(s: State, sectors: nat, name: seq<byte>, user: byte, fileSize: Option<nat>,
                             stream: seq<byte>)
    requires sectors < 512
    ensures var r := AddAsciiFileSpec(s, sectors, name, user, fileSize, stream);
      r.taken != [] ==>
        |stream| >= HEADER_SIZE &&
        r.data == Slice(stream, if IsHeader(stream[..HEADER_SIZE]) then HEADER_SIZE else 0, BLOCK_SIZE * |r.taken|)
  {
    var (s1, size) := AddFileChecksSpec(s, name, user, fileSize);
    if size.Some? && |stream| >= HEADER_SIZE {
      var found := IsHeader(stream[..HEADER_SIZE]);
      AddStoresPayload(s1, sectors, None, if found then size.value - HEADER_SIZE else size.value,
                           stream, if found then HEADER_SIZE else 0, name, user);
    }
  }

  /**
   * amsdos_add_ascii_file as written: when the source has no header the
   * stream is rewound, yet its first 128 bytes still head the first sector,
   * so they are stored twice in a row.
   */
  lemma AddAsciiAsWrittenRepeatsStart(s: State, sectors: nat, name: seq<byte>, user: byte, fileSize: Option<nat>,
                                      stream: seq<byte>)
    requires sectors < 512
    ensures var r := AddAsciiFileAsWritten(s, sectors, name, user, fileSize, stream);
      |stream| >= HEADER_SIZE && r.taken != [] && !IsHeaderAsWritten(stream[..HEADER_SIZE]) ==>
        |r.data| >= 2 * HEADER_SIZE &&
        r.data[..HEADER_SIZE] == stream[..HEADER_SIZE] &&
        r.data[HEADER_SIZE..2 * HEADER_SIZE] == stream[..HEADER_SIZE]
  {
    var (s1, size) := AddFileChecksSpec(s, name, user, fileSize);
    if size.Some? && |stream| >= HEADER_SIZE && !IsHeaderAsWritten(stream[..HEADER_SIZE]) {
      var h: HeaderBytes := stream[..HEADER_SIZE];
      var r := AddFileInternalSpec(s1, sectors, Some(h), size.value, stream, 0, name, user);
      assert AddAsciiFileAsWritten(s, sectors, name, user, fileSize, stream) == r;
      AddStoresPayload(s1, sectors, Some(h), size.value, stream, 0, name, user);
      if r.taken != [] {
        HeadedPayload(h, stream, 0, |r.taken|);
        var rest := Slice(stream, 0, BLOCK_SIZE * |r.taken| - HEADER_SIZE);
        SliceAt(stream, 0, BLOCK_SIZE * |r.taken| - HEADER_SIZE);
        assert rest[..HEADER_SIZE] == h;
      }
    }
  }

  // ---------------------------------------------------------------------
  // Export of one entry (read_entry_blocks).

  /**
   * Over slots i..n that all hold a block, the export keeps 128 bytes per
   * remaining record, up to 8 records per block.
   */
  lemma {:induction false} EntryBlocksLength(s: State, e: DirEntry, i: nat, n: nat, remaining: int, out: seq<byte>)
    requires e.WellSized() && i <= n <= BLOCKS_PER_ENTRY
    requires forall j :: i <= j < n ==> e.blocks[j] > 0
    ensures |EntryBlocks(s, e, i, n, remaining, out, false).1| ==
      |out| + RECORD_SIZE * Min(Max(0, remaining), RECORDS_PER_BLOCK * (n - i))
    decreases n - i
  {
    if i < n {
      if remaining > 0 {
        var s2, out1 := EntryBlockRead(s, e, i, n, remaining, out);
        EntryBlocksLength(s2, e, i + 1, n, remaining - 8, out1);
        BlockKeeps(remaining, n - i, |out|, |out1|);
      } else {
        EntryBlocksLength(s, e, i + 1, n, remaining, out);
      }
    }
  }

  /** One pass of read_entry_blocks over a slot holding a block while records remain. */
  lemma EntryBlockRead(s: State, e: DirEntry, i: nat, n: nat, remaining: int, out: seq<byte>)
    returns (s2: State, out1: seq<byte>)
    requires e.WellSized() && i < n <= BLOCKS_PER_ENTRY && e.blocks[i] > 0 && remaining > 0
    ensures EntryBlocks(s, e, i, n, remaining, out, false) == EntryBlocks(s2, e, i + 1, n, remaining - 8, out1, false)
    ensures |out1| == |out| + Kept(remaining, false) + Kept(remaining - 4, false)
  {
    var sector: byte := (e.blocks[i] as int * 2) % 256;
    var d1 := ReadSectorData(s, sector);
    var s1 := ReadSectorState(s, sector);
    var d2 := ReadSectorData(s1, (sector + 1) % 256);
    s2 := ReadSectorState(s1, (sector + 1) % 256);
    out1 := out + d1[..Kept(remaining, false)] + d2[..Kept(remaining - 4, false)];
  }

  /** A block with records left keeps 128 bytes for each of up to 8 of them. */
  lemma BlockKeeps(remaining: int, m: nat, a: nat, b: nat)
    requires remaining > 0 && m >= 1
    requires b == a + Kept(remaining, false) + Kept(remaining - 4, false)
    ensures b + RECORD_SIZE * Min(Max(0, remaining - 8), RECORDS_PER_BLOCK * (m - 1)) ==
      a + RECORD_SIZE * Min(Max(0, remaining), RECORDS_PER_BLOCK * m)
  {
  }

  /**
   * The export of an entry whose used slots all hold a block is 128 bytes
   * per record: record_count records, at most the 128 an entry can list.
   */
  lemma ExportLength(s: State, e: DirEntry, out: seq<byte>)
    requires e.WellSized()
    requires forall j :: 0 <= j < BlockSlots(e) ==> e.blocks[j] > 0
    ensures |ReadEntryBlocks(s, e, out, false).1| == |out| + RECORD_SIZE * Min(e.recordCount, RECORDS_PER_ENTRY)
  {
    EntryBlocksLength(s, e, 0, BlockSlots(e), e.recordCount, out);
  }

  /**
   * As written, an entry of one record in one block exports 640 bytes: the
   * second sector's count of -3 records reads as 253 through uint8_t and
   * keeps the whole sector. With the count kept signed it exports 128.
   */
  lemma ExportAsWrittenOverreads(s: State, e: DirEntry)
    requires e.WellSized() && e.recordCount == 1 && e.blocks[0] > 0
    ensures |ReadEntryBlocks(s, e, [], true).1| == SECTOR_SIZE + RECORD_SIZE
    ensures |ReadEntryBlocks(s, e, [], false).1| == RECORD_SIZE
  {
    assert BlockSlots(e) == 1;
    assert SectorOutAsWritten(-3) == SECTOR_SIZE;
    ExportLength(s, e, []);
  }

  // ---------------------------------------------------------------------
  // Removal and the directory wipe write only the deleted marker.

  /** b differs from a only in bytes set to 0xE5. */
  predicate OnlyMarked(a: seq<byte>, b: seq<byte>)
  {
    |a| == |b| && forall k :: 0 <= k < |a| ==> b[k] == a[k] || b[k] == AMSDOS_USER_DELETED
  }

  lemma OnlyMarkedTrans(a: seq<byte>, b: seq<byte>, c: seq<byte>)
    requires OnlyMarked(a, b) && OnlyMarked(b, c)
    ensures OnlyMarked(a, c)
  {
  }

  /** Serialising an entry with another user changes byte 0 only. */
  lemma SerializeUser(e: DirEntry, u: byte)
    requires e.WellSized()
    ensures SerializeDirEntry(e.(user := u)) == SerializeDirEntry(e)[0 := u]
  {
    var rest := e.name + e.extension + [e.extentLow, e.extentHigh, e.unused, e.recordCount] + e.blocks;
    assert SerializeDirEntry(e) == [e.user] + rest;
    assert SerializeDirEntry(e.(user := u)) == [u] + rest;
  }

  /**
   * One step of amsdos_remove_file: writing back the entry read at `index`
   * with user 0xE5 sets the entry's first byte and nothing else (or nothing
   * at all when the entry does not lie inside the image).
   */
  lemma MarkDeletedSetsUserByte(s: State, index: nat)
    requires index < NUM_DIRENT
    ensures var o := DirOffset(s.info, s.img, index);
      var t := UpdateDirSpec(s, EntryAt(s.info, s.img, index).(user := AMSDOS_USER_DELETED), index);
      (o + DIR_ENTRY_SIZE <= |s.img| ==> t.img == s.img[o := AMSDOS_USER_DELETED]) &&
      (o + DIR_ENTRY_SIZE > |s.img| ==> t.img == s.img)
  {
    var o := DirOffset(s.info, s.img, index);
    var e := EntryAt(s.info, s.img, index);
    var t := UpdateDirSpec(s, e.(user := AMSDOS_USER_DELETED), index);
    var data := SerializeDirEntry(e.(user := AMSDOS_USER_DELETED));
    if o + DIR_ENTRY_SIZE <= |s.img| {
      var b := s.img[o..o + DIR_ENTRY_SIZE];
      assert Slice(s.img, o, DIR_ENTRY_SIZE) == b;
      DirEntryRoundTrip(e, b);
      SerializeUser(e, AMSDOS_USER_DELETED);
      OverwriteAt(s.img, o, data);
      assert forall k :: 0 <= k < |s.img| ==> t.img[k] == s.img[o := AMSDOS_USER_DELETED][k];
    } else {
      OverwriteAt(s.img, o, data);
    }
  }

  /** The do-while of amsdos_remove_file only ever writes the deleted marker. */
  lemma {:induction false} RemoveFromOnlyMarks(s: State, index: nat, user: byte)
    requires index < NUM_DIRENT
    ensures OnlyMarked(s.img, RemoveFrom(s, index, user).img)
    decreases NUM_DIRENT - index
  {
    var next, more := RemoveStep(s, index, user);
    if more {
      RemoveFromOnlyMarks(next, index + 1, user);
      OnlyMarkedTrans(s.img, next.img, RemoveFrom(next, index + 1, user).img);
    }
  }

  /** One pass of the do-while of amsdos_remove_file: the slot marked, and whether the chain goes on. */
  lemma RemoveStep(s: State, index: nat, user: byte) returns (next: State, more: bool)
    requires index < NUM_DIRENT
    ensures OnlyMarked(s.img, next.img)
    ensures more ==> index + 1 < NUM_DIRENT && RemoveFrom(s, index, user) == RemoveFrom(next, index + 1, user)
    ensures !more ==> RemoveFrom(s, index, user) == next
  {
    var s1 := UpdateDirSpec(s, EntryAt(s.info, s.img, index).(user := AMSDOS_USER_DELETED), index);
    MarkDeletedSetsUserByte(s, index);
    next := if index + 1 == NUM_DIRENT then s1 else Scanned(s1);
    more := index + 1 < NUM_DIRENT && Continues(EntryAt(s1.info, s1.img, index + 1), user);
  }

  /**
   * amsdos_remove_file changes no byte except to 0xE5: block data is never
   * rewritten, and a name that is not found leaves the image as it was.
   */
  lemma RemoveFileOnlyMarks(s: State, name: seq<byte>, user: byte)
    ensures OnlyMarked(s.img, RemoveFileSpec(s, name, user).0.img)
  {
    DirWellSized(s);
    var index := Lookup(Dir(s), name, user);
    if index >= 0 {
      RemoveFromOnlyMarks(Scanned(s), index, user);
    }
  }

  /** The blank entry is 32 bytes of 0xE5. */
  lemma BlankEntryBytes()
    ensures SerializeDirEntry(BlankEntry()) == seq(DIR_ENTRY_SIZE, _ => AMSDOS_USER_DELETED)
  {
    var x := AMSDOS_USER_DELETED;
    assert SerializeDirEntry(BlankEntry()) ==
      [x] + seq(AMSDOS_NAME_LEN, _ => x) + seq(AMSDOS_EXT_LEN, _ => x) + [x, x, x, x] + seq(BLOCKS_PER_ENTRY, _ => x);
  }

  /** The directory loop of amsdos_new_empty only ever writes 0xE5. */
  lemma {:induction false} WipeFromOnlyMarks(s: State, i: nat)
    requires i <= NUM_DIRENT
    ensures OnlyMarked(s.img, WipeFrom(s, i).img)
    decreases NUM_DIRENT - i
  {
    if i < NUM_DIRENT {
      var s1 := UpdateDirSpec(Scanned(s), BlankEntry(), i);
      BlankEntryBytes();
      OverwriteAt(s.img, DirOffset(s.info, s.img, i), SerializeDirEntry(BlankEntry()));
      assert OnlyMarked(s.img, s1.img);
      WipeFromOnlyMarks(s1, i + 1);
      OnlyMarkedTrans(s.img, s1.img, WipeFrom(s1, i + 1).img);
    }
  }

  /** The offsets of the 64 directory entries of an image. */
  function DirOffsets(info: Header, img: seq<byte>): (o: seq<nat>)
    ensures |o| == NUM_DIRENT
  {
    seq(NUM_DIRENT, j requires 0 <= j < NUM_DIRENT => DirOffset(info, img, j))
  }

  lemma DirOffsetsAt(info: Header, img: seq<byte>, j: nat)
    requires j < NUM_DIRENT
    ensures DirOffsets(info, img)[j] == DirOffset(info, img, j)
  {
  }

  /** 64 entries of 32 bytes at offsets o lie inside n bytes and apart from one another. */
  predicate LaidOut(o: seq<nat>, n: nat)
  {
    |o| == NUM_DIRENT &&
    (forall j :: 0 <= j < NUM_DIRENT ==> o[j] + DIR_ENTRY_SIZE <= n) &&
    (forall j, k :: 0 <= j < k < NUM_DIRENT ==> o[j] + DIR_ENTRY_SIZE <= o[k] || o[k] + DIR_ENTRY_SIZE <= o[j])
  }

  /** No write of the wipe from slot i on moves an entry (the writes stay off the track headers). */
  predicate WipeKeepsOffsets(s: State, i: nat)
    decreases NUM_DIRENT - i
  {
    i >= NUM_DIRENT ||
    var s1 := UpdateDirSpec(Scanned(s), BlankEntry(), i);
    DirOffsets(s.info, s1.img) == DirOffsets(s.info, s.img) && WipeKeepsOffsets(s1, i + 1)
  }

  /** Entry j of the image is the blank entry. */
  predicate BlankAt(info: Header, img: seq<byte>, j: nat)
  {
    EntryAt(info, img, j) == BlankEntry()
  }

  lemma BlankKept(info: Header, a: seq<byte>, b: seq<byte>, j: nat)
    requires BlankAt(info, a, j) && EntryAt(info, b, j) == EntryAt(info, a, j)
    ensures BlankAt(info, b, j)
  {
  }

  /** One pass of the wipe at slot i keeps the offsets and blanks slot i, leaving the earlier slots blank. */
  lemma WipeStep(s: State, i: nat, o: seq<nat>) returns (s1: State)
    requires i < NUM_DIRENT && LaidOut(o, |s.img|) && o == DirOffsets(s.info, s.img) && WipeKeepsOffsets(s, i)
    requires forall j :: 0 <= j < i ==> BlankAt(s.info, s.img, j)
    ensures s1.info == s.info && |s1.img| == |s.img| && WipeFrom(s, i) == WipeFrom(s1, i + 1)
    ensures o == DirOffsets(s1.info, s1.img) && WipeKeepsOffsets(s1, i + 1)
    ensures forall j :: 0 <= j < i + 1 ==> BlankAt(s1.info, s1.img, j)
  {
    var t := Scanned(s);
    s1 := UpdateDirSpec(t, BlankEntry(), i);
    DirOffsetsAt(s.info, s.img, i);
    DirOffsetsAt(s.info, s1.img, i);
    UpdateDirReadBack(t, BlankEntry(), i);
    forall j | 0 <= j < i
      ensures BlankAt(s1.info, s1.img, j)
    {
      DirOffsetsAt(s.info, s.img, j);
      DirOffsetsAt(s.info, s1.img, j);
      UpdateDirKeepsOthers(t, BlankEntry(), i, j);
      BlankKept(s.info, s.img, s1.img, j);
    }
  }

  lemma BlanksAgree(info: Header, a: seq<byte>, b: seq<byte>)
    requires forall j :: 0 <= j < NUM_DIRENT ==> BlankAt(info, a, j)
    requires a == b
    ensures forall j :: 0 <= j < NUM_DIRENT ==> BlankAt(info, b, j)
  {
  }

  /**
   * From slot i on, the wipe leaves every entry blank, given that the
   * entries before i already are.
   */
  lemma {:induction false} WipeFromBlanks(s: State, i: nat, o: seq<nat>)
    requires i <= NUM_DIRENT && LaidOut(o, |s.img|) && o == DirOffsets(s.info, s.img) && WipeKeepsOffsets(s, i)
    requires forall j :: 0 <= j < i ==> BlankAt(s.info, s.img, j)
    ensures forall j :: 0 <= j < NUM_DIRENT ==> BlankAt(s.info, WipeFrom(s, i).img, j)
    decreases NUM_DIRENT - i
  {
    if i < NUM_DIRENT {
      var s1 := WipeStep(s, i, o);
      WipeFromBlanks(s1, i + 1, o);
      BlanksAgree(s.info, WipeFrom(s1, i + 1).img, WipeFrom(s, i).img);
    } else {
      BlanksAgree(s.info, s.img, WipeFrom(s, i).img);
    }
  }

  /**
   * The directory loop of amsdos_new_empty leaves all 64 entries blank
   * (32 bytes of 0xE5 each), as long as the entries lie apart inside the
   * image and the writes do not move them.
   */
  lemma WipeBlanksAll(s: State)
    requires LaidOut(DirOffsets(s.info, s.img), |s.img|) && WipeKeepsOffsets(s, 0)
    ensures Dir(WipeFrom(s, 0)) == seq(NUM_DIRENT, _ => BlankEntry())
  {
    WipeFromBlanks(s, 0, DirOffsets(s.info, s.img));
    var w := WipeFrom(s, 0);
    forall j | 0 <= j < NUM_DIRENT
      ensures Dir(w)[j] == BlankEntry()
    {
      assert BlankAt(w.info, w.img, j);
    }
    AllBlank(Dir(w));
  }

  lemma AllBlank(d: seq<DirEntry>)
    requires |d| == NUM_DIRENT && forall j :: 0 <= j < NUM_DIRENT ==> d[j] == BlankEntry()
    ensures d == seq(NUM_DIRENT, _ => BlankEntry())
  {
  }
}
