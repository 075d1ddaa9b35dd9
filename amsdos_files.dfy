/**
 * The file operations of src/amsdos.c as functions of the file-system
 * state: adding a file extent by extent, the checks before an add, the
 * binary and ASCII variants, export and removal along a chain of
 * directory slots, and the directory wipe of a new image. A source file
 * is a byte sequence read from a position that `fread` advances.
 */
module AmsdosFiles {
  import opened Common
  import opened DskLayout
  import opened Dsk
  import opened AmsdosName
  import opened AmsdosHeader
  import opened AmsdosDir

  // ---------------------------------------------------------------------
  // Reading the source stream into a sector (read_sector).

  /** The stream position after an fread of n bytes from spos. */
  function Advance(stream: seq<byte>, spos: nat, n: nat): (r: nat)
    ensures r >= spos
  {
    Max(spos, Min(|stream|, spos + n))
  }

  /**
   * The 512 bytes read_sector writes: the header followed by 384 stream
   * bytes, or 512 stream bytes. Bytes past the end of the stream are left
   * indeterminate by C; the model reads them as 0.
   */
  function SectorData(header: Option<HeaderBytes>, stream: seq<byte>, spos: nat): (r: seq<byte>)
    ensures |r| == SECTOR_SIZE
  {
    match header
    case Some(h) => h + Slice(stream, spos, SECTOR_SIZE - HEADER_SIZE)
    case None => Slice(stream, spos, SECTOR_SIZE)
  }

  function SectorConsumed(header: Option<HeaderBytes>, stream: seq<byte>, spos: nat): nat
  {
    Advance(stream, spos, if header.Some? then SECTOR_SIZE - HEADER_SIZE else SECTOR_SIZE)
  }

  /** The header bytes put ahead of the stream, if any. */
  function Prefix(header: Option<HeaderBytes>): (r: seq<byte>)
    ensures |r| <= HEADER_SIZE
  {
    if header.Some? then header.value else []
  }

  /**
   * What n bytes of sector writes hold when they start with the pending
   * header followed by the stream from spos: the header, then the stream,
   * read as 0 past its end.
   */
  function Payload(header: Option<HeaderBytes>, stream: seq<byte>, spos: nat, n: nat): (r: seq<byte>)
    requires n == 0 || n >= |Prefix(header)|
    ensures |r| == n
  {
    if n == 0 then []
    else match header
      case None => Slice(stream, spos, n)
      case Some(h) => h + Slice(stream, spos, n - |h|)
  }

  // ---------------------------------------------------------------------
  // add_file_internal

  /** 1024 bytes per block: two sectors. */
  const BLOCK_SIZE: nat := 1024

  /** 16 KiB per directory entry: 128 records of 128 bytes. */
  const EXTENT_SIZE: nat := 16384

  lemma Sizes()
    ensures BLOCK_SIZE == 2 * SECTOR_SIZE == RECORDS_PER_BLOCK * RECORD_SIZE
    ensures EXTENT_SIZE == RECORDS_PER_ENTRY * RECORD_SIZE == BLOCKS_PER_ENTRY * BLOCK_SIZE
  {
  }

  /**
   * An entry under construction and what filling its blocks has done so
   * far; `data` collects the sector contents written, in order.
   */
  datatype Fill = Fill(st: State, spos: nat, pos: int, header: Option<HeaderBytes>,
                       entry: DirEntry, ok: bool, taken: seq<nat>, data: seq<byte>)

  /**
   * One pass of the inner loop of add_file_internal at block slot i:
   * allocate a block (a failed allocation ends the fill with an error),
   * record it in the entry, write its two sectors from the stream (the
   * header, if still pending, at the start of the first one), and advance
   * `pos` by 1024.
   */
  function FillStep(sectors: nat, stream: seq<byte>, f: Fill, i: nat): (r: Fill)
    requires sectors < 512 && f.entry.WellSized() && i < BLOCKS_PER_ENTRY
    ensures r.entry.WellSized()
    ensures r.ok ==> r.pos == f.pos + BLOCK_SIZE
  {
    var (s1, b) := GetFreeBlockSpec(f.st, sectors);
    if b < 0 then f.(st := s1, ok := false)
    else
      var sector := (b * 2) % 256;
      var d1 := SectorData(f.header, stream, f.spos);
      var p2 := SectorConsumed(f.header, stream, f.spos);
      var d2 := SectorData(None, stream, p2);
      var s3 := WriteSectorSpec(WriteSectorSpec(s1, sector, d1), (sector + 1) % 256, d2);
      Fill(s3, SectorConsumed(None, stream, p2), f.pos + BLOCK_SIZE, None,
           f.entry.(blocks := f.entry.blocks[i := b]), true, f.taken + [b], f.data + d1 + d2)
  }

  /**
   * The inner loop of add_file_internal over block slots 0 to n - 1,
   * stopping at the first failed allocation: the fill after its last pass.
   */
  function FillBlocks(sectors: nat, stream: seq<byte>, f: Fill, n: nat): (r: Fill)
    requires sectors < 512 && f.entry.WellSized() && n <= BLOCKS_PER_ENTRY
    ensures r.entry.WellSized()
    ensures r.ok ==> r.pos == f.pos + BLOCK_SIZE * n
    decreases n, 1
  {
    if n == 0 then f else FillLastPass(sectors, stream, f, n)
  }

  /** The passes over slots 0 to n - 2, then, unless one failed, the pass over slot n - 1. */
  function FillLastPass(sectors: nat, stream: seq<byte>, f: Fill, n: nat): (r: Fill)
    requires sectors < 512 && f.entry.WellSized() && 0 < n <= BLOCKS_PER_ENTRY
    ensures r.entry.WellSized()
    ensures r.ok ==> r.pos == f.pos + BLOCK_SIZE * n
    decreases n, 0
  {
    var p := FillBlocks(sectors, stream, f, n - 1);
    if !p.ok then p else FillStep(sectors, stream, p, n - 1)
  }

  /** The new entry of an extent: zeroed, then user, extent number, name fields and record count. */
  function NewEntry(name: seq<byte>, user: byte, extent: byte, records: byte): (e: DirEntry)
    ensures e.WellSized()
  {
    DirEntry(user, NameField(name), ExtField(name), extent, 0, 0, records, seq(BLOCKS_PER_ENTRY, _ => 0))
  }

  /** The records of the extent starting at pos: MIN(128, SHIFTH(size - pos, 7)). */
  function ExtentRecords(size: int, pos: int): (r: byte)
    requires pos < size
    ensures 1 <= r <= RECORDS_PER_ENTRY
  {
    Min(RECORDS_PER_ENTRY, CeilDiv(size - pos, RECORD_SIZE))
  }

  /**
   * The outcome of adding a file: the final state, success, the entries
   * written, the blocks taken and the sector contents written, in order.
   */
  datatype Added = Added(st: State, ok: bool, written: seq<DirEntry>, taken: seq<nat>, data: seq<byte>)

  /**
   * The outer loop of add_file_internal while pos < size: take the lowest
   * free directory slot (an error when there is none) and add the next
   * extent in it.
   */
  function AddExtents(s: State, sectors: nat, stream: seq<byte>, spos: nat, pos: int, size: int,
                      header: Option<HeaderBytes>, name: seq<byte>, user: byte, extent: byte,
                      written: seq<DirEntry>, taken: seq<nat>, data: seq<byte>): (r: Added)
    requires sectors < 512
    decreases size - pos, 1
  {
    if pos >= size then Added(s, true, written, taken, data)
    else
      var index := NextFree(Dir(s), 0);
      if index < 0 then Added(Scanned(s), false, written, taken, data)
      else
        var records := ExtentRecords(size, pos);
        var f := FillBlocks(sectors, stream, Fill(Scanned(s), spos, pos, header, NewEntry(name, user, extent, records), true, taken, data),
                            CeilDiv(records, RECORDS_PER_BLOCK));
        AddFilled(sectors, stream, pos, size, name, user, extent, written, f, index)
  }

  /**
   * The rest of a pass of the outer loop once the blocks of the extent that
   * started at pos are filled: a failed fill ends the add with an error;
   * otherwise the entry is written into its free slot `index` and the add
   * goes on with the next extent. Extent numbers count up in uint8_t.
   */
  function AddFilled(sectors: nat, stream: seq<byte>, pos: int, size: int, name: seq<byte>, user: byte,
                     extent: byte, written: seq<DirEntry>, f: Fill, index: nat): (r: Added)
    requires sectors < 512 && pos < size && f.entry.WellSized() && (f.ok ==> f.pos > pos)
    decreases size - pos, 0
  {
    if !f.ok then Added(f.st, false, written, f.taken, f.data)
    else
      AddExtents(UpdateDirSpec(f.st, f.entry, index), sectors, stream, f.spos, f.pos, size, f.header,
                 name, user, (extent + 1) % 256, written + [f.entry], f.taken, f.data)
  }

  /** add_file_internal from the start: extent 0, pos 0. */
  function AddFileInternalSpec(s: State, sectors: nat, header: Option<HeaderBytes>, size: int,
                               stream: seq<byte>, spos: nat, name: seq<byte>, user: byte): Added
    requires sectors < 512
  {
    AddExtents(s, sectors, stream, spos, 0, size, header, name, user, 0, [], [], [])
  }

  // ---------------------------------------------------------------------
  // add_file_checks and the three add operations.

  /**
   * add_file_checks: an error when the name exists for the user, when the
   * size cannot be determined (`fileSize` is None when stat fails or the
   * source is not a regular file), or when the size exceeds 16 KiB per free
   * directory entry. The image is not changed.
   */
  function AddFileChecksSpec(s: State, name: seq<byte>, user: byte, fileSize: Option<nat>): (r: (State, Option<nat>))
    ensures r.0 == Scanned(s)
  {
    ScannedIdempotent(s);
    if Exists(Dir(s), name, user) then (Scanned(s), None)
    else if fileSize.None? then (Scanned(s), None)
    else if fileSize.value > FreeEntries(Dir(s), NUM_DIRENT) * BLOCKS_PER_ENTRY * 1024 then (Scanned(s), None)
    else (Scanned(s), fileSize)
  }

  /** The outcome of an add refused before anything is written. */
  function Refused(s: State): Added
  {
    Added(s, false, [], [], [])
  }

  /** amsdos_add_file: the checks, then the file's bytes from the start, without a header. */
  function AddFileSpec(s: State, sectors: nat, name: seq<byte>, user: byte, fileSize: Option<nat>,
                       stream: seq<byte>): (r: Added)
    requires sectors < 512
  {
    var (s1, size) := AddFileChecksSpec(s, name, user, fileSize);
    if size.None? then Refused(s1)
    else AddFileInternalSpec(s1, sectors, None, size.value, stream, 0, name, user)
  }

  /**
   * amsdos_add_binary_file with the corrected 66-byte checksum: after the
   * checks, the first 128 bytes of the source are read (an error if there
   * are fewer). If they are not a header the size grows by 128 and the
   * stream is rewound; either way a new header is built from the name, the
   * size (as uint16_t), the user and the addresses, and it heads the first
   * sector.
   */
  function AddBinaryFileSpec(s: State, sectors: nat, name: seq<byte>, user: byte, fileSize: Option<nat>,
                             stream: seq<byte>, load: nat, entry: nat): (r: Added)
    requires sectors < 512
  {
    var (s1, size) := AddFileChecksSpec(s, name, user, fileSize);
    if size.None? then Refused(s1)
    else if |stream| < HEADER_SIZE then Refused(s1)
    else
      var found := IsHeader(stream[..HEADER_SIZE]);
      var total := if found then size.value else size.value + HEADER_SIZE;
      AddFileInternalSpec(s1, sectors, Some(InitHeader(name, total % 65536, user, load, entry)), total,
                          stream, if found then HEADER_SIZE else 0, name, user)
  }

  /**
   * amsdos_add_binary_file as written: the test of the first 128 bytes and
   * the new header both use the 67-byte sum of is_amsdos_header and
   * init_amsdos_header.
   */
  function AddBinaryFileAsWritten(s: State, sectors: nat, name: seq<byte>, user: byte, fileSize: Option<nat>,
                                  stream: seq<byte>, load: nat, entry: nat): (r: Added)
    requires sectors < 512
  {
    var (s1, size) := AddFileChecksSpec(s, name, user, fileSize);
    if size.None? then Refused(s1)
    else if |stream| < HEADER_SIZE then Refused(s1)
    else
      var found := IsHeaderAsWritten(stream[..HEADER_SIZE]);
      var total := if found then size.value else size.value + HEADER_SIZE;
      AddFileInternalSpec(s1, sectors, Some(InitHeaderAsWritten(name, total % 65536, user, load, entry)), total,
                          stream, if found then HEADER_SIZE else 0, name, user)
  }

  /**
   * amsdos_add_ascii_file with the header stripped: a source that starts
   * with a header is stored from byte 128 with its size reduced by 128,
   * any other source from the start, and nothing is put in front.
   */
  function AddAsciiFileSpec(s: State, sectors: nat, name: seq<byte>, user: byte, fileSize: Option<nat>,
                            stream: seq<byte>): (r: Added)
    requires sectors < 512
  {
    var (s1, size) := AddFileChecksSpec(s, name, user, fileSize);
    if size.None? then Refused(s1)
    else if |stream| < HEADER_SIZE then Refused(s1)
    else
      var found := IsHeader(stream[..HEADER_SIZE]);
      AddFileInternalSpec(s1, sectors, None, if found then size.value - HEADER_SIZE else size.value,
                          stream, if found then HEADER_SIZE else 0, name, user)
  }

  /**
   * amsdos_add_ascii_file as written: the 128 bytes first read are passed
   * on as the header whether or not they were one, so they head the first
   * sector even after the stream has been rewound.
   */
  function AddAsciiFileAsWritten(s: State, sectors: nat, name: seq<byte>, user: byte, fileSize: Option<nat>,
                                 stream: seq<byte>): (r: Added)
    requires sectors < 512
  {
    var (s1, size) := AddFileChecksSpec(s, name, user, fileSize);
    if size.None? then Refused(s1)
    else if |stream| < HEADER_SIZE then Refused(s1)
    else
      var found := IsHeaderAsWritten(stream[..HEADER_SIZE]);
      AddFileInternalSpec(s1, sectors, Some(stream[..HEADER_SIZE]),
                          if found then size.value - HEADER_SIZE else size.value,
                          stream, if found then HEADER_SIZE else 0, name, user)
  }

  // ---------------------------------------------------------------------
  // Export (read_entry_sector, read_entry_blocks, amsdos_get_file).

  /** The bytes read_entry_sector keeps of a sector: MIN(512, records * 128), records never negative. */
  function SectorOut(remaining: int): (r: nat)
    ensures r <= SECTOR_SIZE
    ensures remaining <= 0 ==> r == 0
  {
    Min(SECTOR_SIZE, Max(0, remaining) * RECORD_SIZE)
  }

  /** As written: the int32_t remaining count is narrowed to uint8_t before the shift. */
  function SectorOutAsWritten(remaining: int): (r: nat)
    ensures r <= SECTOR_SIZE
  {
    Min(SECTOR_SIZE, (remaining % 256) * RECORD_SIZE)
  }

  function Kept(remaining: int, asWritten: bool): (r: nat)
    ensures r <= SECTOR_SIZE
  {
    if asWritten then SectorOutAsWritten(remaining) else SectorOut(remaining)
  }

  /**
   * The loop of read_entry_blocks from slot i to n: each non-zero block,
   * while records remain, gives its two sectors (block << 1 in uint8_t and
   * the one after), each cut to what the remaining records cover; then the
   * count drops by 4 per sector.
   */
  function EntryBlocks(s: State, e: DirEntry, i: nat, n: nat, remaining: int, out: seq<byte>,
                       asWritten: bool): (r: (State, seq<byte>))
    requires e.WellSized() && i <= n <= BLOCKS_PER_ENTRY
    ensures r.0.info == s.info && r.0.img == s.img && r.0.cursor == s.cursor
    decreases n - i
  {
    if i == n then (s, out)
    else if e.blocks[i] > 0 && remaining > 0 then
      var sector: byte := (e.blocks[i] as int * 2) % 256;
      var d1 := ReadSectorData(s, sector);
      var s1 := ReadSectorState(s, sector);
      var d2 := ReadSectorData(s1, (sector + 1) % 256);
      var s2 := ReadSectorState(s1, (sector + 1) % 256);
      EntryBlocks(s2, e, i + 1, n, remaining - 8,
                  out + d1[..Kept(remaining, asWritten)] + d2[..Kept(remaining - 4, asWritten)], asWritten)
    else EntryBlocks(s, e, i + 1, n, remaining, out, asWritten)
  }

  /** read_entry_blocks: SHIFTH(record_count, 3) slots, starting with record_count records. */
  function ReadEntryBlocks(s: State, e: DirEntry, out: seq<byte>, asWritten: bool): (r: (State, seq<byte>))
    requires e.WellSized()
    ensures r.0.info == s.info && r.0.img == s.img && r.0.cursor == s.cursor
  {
    EntryBlocks(s, e, 0, BlockSlots(e), e.recordCount, out, asWritten)
  }

  /** A slot continues the chain of a file of `user` when its extent_low is non-zero and its user matches. */
  predicate Continues(e: DirEntry, user: byte)
  {
    e.extentLow != 0 && e.user == user
  }

  /**
   * The do-while of amsdos_get_file from slot `index`: export the slot's
   * blocks, read the next slot, and go on while there is one and it
   * continues the chain.
   */
  function ExportFrom(s: State, index: nat, user: byte, out: seq<byte>): (r: (State, seq<byte>))
    requires index < NUM_DIRENT
    ensures r.0.info == s.info && r.0.img == s.img && r.0.cursor == s.cursor
    decreases NUM_DIRENT - index
  {
    var (s1, out1) := ReadEntryBlocks(s, EntryAt(s.info, s.img, index), out, false);
    if index + 1 == NUM_DIRENT then (s1, out1)
    else
      var s2 := Scanned(s1);
      if Continues(EntryAt(s.info, s.img, index + 1), user) then ExportFrom(s2, index + 1, user, out1)
      else (s2, out1)
  }

  /** amsdos_get_file: an error when the name is not found, otherwise the bytes of its chain. */
  function GetFileSpec(s: State, name: seq<byte>, user: byte): (r: (State, bool, seq<byte>))
    ensures r.0.img == s.img
  {
    DirWellSized(s);
    var index := Lookup(Dir(s), name, user);
    if index < 0 then (Scanned(s), false, [])
    else
      var (t, out) := ExportFrom(Scanned(s), index, user, []);
      (t, true, out)
  }

  // ---------------------------------------------------------------------
  // Removal (amsdos_remove_file).

  /**
   * The do-while of amsdos_remove_file from slot `index`: write the slot
   * back with user 0xE5, read the next slot from the updated image, and go
   * on while there is one and it continues the chain.
   */
  function RemoveFrom(s: State, index: nat, user: byte): (r: State)
    requires index < NUM_DIRENT
    ensures r.info == s.info && r.cursor == s.cursor && |r.img| == |s.img|
    decreases NUM_DIRENT - index
  {
    var e := EntryAt(s.info, s.img, index);
    var s1 := UpdateDirSpec(s, e.(user := AMSDOS_USER_DELETED), index);
    if index + 1 == NUM_DIRENT then s1
    else if Continues(EntryAt(s1.info, s1.img, index + 1), user) then RemoveFrom(Scanned(s1), index + 1, user)
    else Scanned(s1)
  }

  /** amsdos_remove_file: an error, with the image unchanged, when the name is not found. */
  function RemoveFileSpec(s: State, name: seq<byte>, user: byte): (r: (State, bool))
    ensures !r.1 ==> r.0.img == s.img
  {
    DirWellSized(s);
    var index := Lookup(Dir(s), name, user);
    if index < 0 then (Scanned(s), false) else (RemoveFrom(Scanned(s), index, user), true)
  }

  // ---------------------------------------------------------------------
  // The directory of a new image (amsdos_new_empty).

  /** A directory entry of 32 bytes of 0xE5. */
  function BlankEntry(): (e: DirEntry)
    ensures e.WellSized() && IsDeleted(e)
  {
    var x := AMSDOS_USER_DELETED;
    DirEntry(x, seq(AMSDOS_NAME_LEN, _ => x), seq(AMSDOS_EXT_LEN, _ => x), x, x, x, x, seq(BLOCKS_PER_ENTRY, _ => x))
  }

  /** The loop of amsdos_new_empty from slot i: read the slot, then write 32 bytes of 0xE5 over it. */
  function WipeFrom(s: State, i: nat): (r: State)
    requires i <= NUM_DIRENT
    ensures r.info == s.info && r.cursor == s.cursor && |r.img| == |s.img|
    decreases NUM_DIRENT - i
  {
    if i == NUM_DIRENT then s else WipeFrom(UpdateDirSpec(Scanned(s), BlankEntry(), i), i + 1)
  }

  // ---------------------------------------------------------------------
  // Used bytes and disk information.

  /** amsdos_get_info: the disk type from the first sector id, and the used bytes. */
  function GetInfoSpec(s: State): (r: (State, DiskType, nat))
  {
    ScannedIdempotent(s);
    (Scanned(s), Classify(FirstSectorIdOf(s.info, s.img)), UsedBytes(Dir(s), NUM_DIRENT))
  }

  // ---------------------------------------------------------------------
  // Properties of the add operations.

  lemma AppendAssoc(a: seq<byte>, b: seq<byte>, c: seq<byte>)
    ensures (a + b) + c == a + (b + c)
  {
  }

  lemma AppendEmpty(a: seq<byte>)
    ensures a + [] == a
  {
  }

  /** Reading a bytes then b bytes from a stream reads the same as reading c = a + b bytes. */
  lemma SliceAdvance(stream: seq<byte>, p: nat, a: nat, b: nat, c: nat)
    requires c == a + b
    ensures Slice(stream, p, a) + Slice(stream, Advance(stream, p, a), b) == Slice(stream, p, c)
    ensures Advance(stream, Advance(stream, p, a), b) == Advance(stream, p, c)
  {
    var q := Advance(stream, p, a);
    var l := Slice(stream, p, a) + Slice(stream, q, b);
    var w := Slice(stream, p, c);
    SliceAt(stream, p, a);
    SliceAt(stream, q, b);
    SliceAt(stream, p, c);
    forall k | 0 <= k < c
      ensures l[k] == w[k]
    {
      if k >= a {
        assert l[k] == At(stream, q + (k - a));
      }
    }
    assert l == w;
  }

  /** Two consecutive reads after a common prefix are one read after it. */
  lemma ReadsJoin(P: seq<byte>, stream: seq<byte>, spos: nat, a: nat, b: nat, c: nat)
    requires c == a + b
    ensures (P + Slice(stream, spos, a)) + Slice(stream, Advance(stream, spos, a), b) == P + Slice(stream, spos, c)
  {
    SliceAdvance(stream, spos, a, b, c);
    AppendAssoc(P, Slice(stream, spos, a), Slice(stream, Advance(stream, spos, a), b));
  }

  /** Payload written in two runs, the header (if any) in the first, is the payload of c = a + b bytes written at once. */
  lemma PayloadSplit(header: Option<HeaderBytes>, stream: seq<byte>, spos: nat, a: nat, b: nat, c: nat)
    requires a > 0 && a >= |Prefix(header)| && c == a + b
    ensures Payload(header, stream, spos, a) + Payload(None, stream, Advance(stream, spos, a - |Prefix(header)|), b)
            == Payload(header, stream, spos, c)
  {
    if b > 0 {
      PayloadJoin(header, stream, spos, a, b, c);
    } else {
      assert c == a;
      AppendEmpty(Payload(header, stream, spos, a));
    }
  }

  /** PayloadSplit when the second run is not empty. */
  lemma PayloadJoin(header: Option<HeaderBytes>, stream: seq<byte>, spos: nat, a: nat, b: nat, c: nat)
    requires a > 0 && a >= |Prefix(header)| && b > 0 && c == a + b
    ensures Payload(header, stream, spos, a) + Payload(None, stream, Advance(stream, spos, a - |Prefix(header)|), b)
            == Payload(header, stream, spos, c)
  {
    var q := Advance(stream, spos, a - |Prefix(header)|);
    PayloadOfNone(stream, q, b);
    PayloadThenStream(header, stream, spos, a, b, c);
    ConcatRight(Payload(header, stream, spos, a), Payload(None, stream, q, b), Slice(stream, q, b), Payload(header, stream, spos, c));
  }

  /** Without a header the payload is the stream alone. */
  lemma PayloadOfNone(stream: seq<byte>, spos: nat, n: nat)
    ensures Payload(None, stream, spos, n) == Slice(stream, spos, n)
  {
  }

  /** A payload of a bytes followed by the next b bytes of stream is the payload of a + b bytes. */
  lemma PayloadThenStream(header: Option<HeaderBytes>, stream: seq<byte>, spos: nat, a: nat, b: nat, c: nat)
    requires a > 0 && a >= |Prefix(header)| && c == a + b
    ensures Payload(header, stream, spos, a) + Slice(stream, Advance(stream, spos, a - |Prefix(header)|), b)
            == Payload(header, stream, spos, c)
  {
    match header
    case None => NoHeaderThenStream(stream, spos, a, b, c);
    case Some(h) => HeaderThenStream(h, stream, spos, a, b, c);
  }

  /** PayloadThenStream without a pending header. */
  lemma NoHeaderThenStream(stream: seq<byte>, spos: nat, a: nat, b: nat, c: nat)
    requires a > 0 && c == a + b
    ensures Payload(None, stream, spos, a) + Slice(stream, Advance(stream, spos, a), b) == Payload(None, stream, spos, c)
  {
    SliceAdvance(stream, spos, a, b, c);
  }

  /** PayloadThenStream with the header pending. */
  lemma HeaderThenStream(h: HeaderBytes, stream: seq<byte>, spos: nat, a: nat, b: nat, c: nat)
    requires a >= |h| && c == a + b
    ensures Payload(Some(h), stream, spos, a) + Slice(stream, Advance(stream, spos, a - |h|), b) == Payload(Some(h), stream, spos, c)
  {
    ReadsJoin(h, stream, spos, a - |h|, b, c - |h|);
  }

  /** Equal right-hand parts make equal concatenations. */
  lemma ConcatRight(x: seq<byte>, y: seq<byte>, y1: seq<byte>, z: seq<byte>)
    requires y == y1 && x + y1 == z
    ensures x + y == z
  {
  }

  /** One block's two sectors hold 1024 bytes of payload and leave the stream 1024 bytes (less the header) on. */
  lemma BlockPayload(header: Option<HeaderBytes>, stream: seq<byte>, spos: nat)
    ensures var p2 := SectorConsumed(header, stream, spos);
      SectorData(header, stream, spos) + SectorData(None, stream, p2) == Payload(header, stream, spos, BLOCK_SIZE) &&
      SectorConsumed(None, stream, p2) == Advance(stream, spos, BLOCK_SIZE - |Prefix(header)|)
  {
    var P := Prefix(header);
    SliceAdvance(stream, spos, SECTOR_SIZE - |P|, SECTOR_SIZE, BLOCK_SIZE - |P|);
    ReadsJoin(P, stream, spos, SECTOR_SIZE - |P|, SECTOR_SIZE, BLOCK_SIZE - |P|);
    assert SectorData(header, stream, spos) == P + Slice(stream, spos, SECTOR_SIZE - |P|);
  }

  /**
   * What one pass at slot i did after p: either it handed out one block,
   * recorded it in slot i, moved pos on by 1024 and wrote the next 1024
   * bytes of payload, or it failed and changed nothing but the file-system
   * state.
   */
  predicate Passed(stream: seq<byte>, p: Fill, r: Fill, i: nat)
  {
    Stepped(p, r, i) && Wrote(stream, p, r)
  }

  /** The slots, blocks and position part of Passed. */
  predicate Stepped(p: Fill, r: Fill, i: nat)
  {
    if r.ok then
      i < |p.entry.blocks| &&
      |r.taken| == |p.taken| + 1 && r.taken[..|p.taken|] == p.taken && r.taken[|p.taken|] < 256 &&
      r.pos == p.pos + BLOCK_SIZE &&
      r.entry == p.entry.(blocks := p.entry.blocks[i := r.taken[|p.taken|]])
    else
      r.taken == p.taken && r.pos == p.pos && r.entry == p.entry
  }

  /** The payload part of Passed. */
  predicate Wrote(stream: seq<byte>, p: Fill, r: Fill)
  {
    if r.ok then
      |r.taken| == |p.taken| + 1 &&
      r.header == None && r.spos == Advance(stream, p.spos, BLOCK_SIZE - |Prefix(p.header)|) &&
      r.data == p.data + Payload(p.header, stream, p.spos, BLOCK_SIZE)
    else
      r.taken == p.taken && r.data == p.data && r.header == p.header && r.spos == p.spos
  }

  lemma FillStepFacts(sectors: nat, stream: seq<byte>, f: Fill, i: nat)
    requires sectors < 512 && f.entry.WellSized() && i < BLOCKS_PER_ENTRY
    ensures Passed(stream, f, FillStep(sectors, stream, f, i), i)
  {
    BlockPayload(f.header, stream, f.spos);
    var r := FillStep(sectors, stream, f, i);
    if r.ok {
      var d1 := SectorData(f.header, stream, f.spos);
      var d2 := SectorData(None, stream, SectorConsumed(f.header, stream, f.spos));
      AppendAssoc(f.data, d1, d2);
    }
  }

  /** The fill through slot n - 1 is the fill through slot n - 2 followed, unless that failed, by one pass. */
  lemma FillPassFacts(sectors: nat, stream: seq<byte>, f: Fill, n: nat)
    requires sectors < 512 && f.entry.WellSized() && 0 < n <= BLOCKS_PER_ENTRY
    ensures var p := FillBlocks(sectors, stream, f, n - 1);
      var r := FillBlocks(sectors, stream, f, n);
      (!p.ok ==> r == p) && (p.ok ==> Passed(stream, p, r, n - 1))
  {
    var p := FillBlocks(sectors, stream, f, n - 1);
    assert FillBlocks(sectors, stream, f, n) == FillLastPass(sectors, stream, f, n);
    if p.ok {
      FillStepFacts(sectors, stream, p, n - 1);
    }
  }

  /** The slots part of FillPassFacts. */
  lemma FillPassSteps(sectors: nat, stream: seq<byte>, f: Fill, n: nat)
    requires sectors < 512 && f.entry.WellSized() && 0 < n <= BLOCKS_PER_ENTRY
    ensures var p := FillBlocks(sectors, stream, f, n - 1);
      var r := FillBlocks(sectors, stream, f, n);
      Stepped(p, r, n - 1) && (r.ok ==> p.ok)
  {
    FillPassFacts(sectors, stream, f, n);
  }

  /** The payload part of FillPassFacts. */
  lemma FillPassWrites(sectors: nat, stream: seq<byte>, f: Fill, n: nat)
    requires sectors < 512 && f.entry.WellSized() && 0 < n <= BLOCKS_PER_ENTRY
    ensures var p := FillBlocks(sectors, stream, f, n - 1);
      var r := FillBlocks(sectors, stream, f, n);
      (!p.ok ==> r == p) && (p.ok ==> Wrote(stream, p, r))
  {
    FillPassFacts(sectors, stream, f, n);
  }

  /** Since f, blocks were only appended to the list, and pos moved on by 1024 per block. */
  predicate Took(f: Fill, r: Fill)
  {
    |r.taken| >= |f.taken| && r.taken[..|f.taken|] == f.taken &&
    r.pos == f.pos + BLOCK_SIZE * (|r.taken| - |f.taken|)
  }

  /** A successful pass after p appends one block to what was taken since f. */
  lemma TookPass(f: Fill, p: Fill, r: Fill, n: nat)
    requires n > 0
    requires Took(f, p) && |p.taken| - |f.taken| <= n - 1 && (p.ok <==> f.ok && |p.taken| - |f.taken| == n - 1)
    requires Stepped(p, r, n - 1) && (r.ok ==> p.ok)
    ensures Took(f, r) && |r.taken| - |f.taken| <= n && (r.ok <==> f.ok && |r.taken| - |f.taken| == n)
  {
    if r.ok {
      assert r.taken[..|f.taken|] == r.taken[..|p.taken|][..|f.taken|];
    }
  }

  /**
   * Filling n slots hands out at most n blocks and keeps the blocks handed
   * out before; it succeeds exactly when it started well and handed out
   * all n; pos moves on by 1024 per block.
   */
  lemma {:induction false} FillTakes(sectors: nat, stream: seq<byte>, f: Fill, n: nat)
    requires sectors < 512 && f.entry.WellSized() && n <= BLOCKS_PER_ENTRY
    ensures var r := FillBlocks(sectors, stream, f, n);
      Took(f, r) && |r.taken| - |f.taken| <= n && (r.ok <==> f.ok && |r.taken| - |f.taken| == n)
  {
    if n > 0 {
      FillTakes(sectors, stream, f, n - 1);
      FillPassSteps(sectors, stream, f, n);
      TookPass(f, FillBlocks(sectors, stream, f, n - 1), FillBlocks(sectors, stream, f, n), n);
    }
  }

  /** What filling has written since f: the payload of k blocks, k the blocks handed out since. */
  predicate WrotePayload(stream: seq<byte>, f: Fill, r: Fill)
  {
    var k := |r.taken| - |f.taken|;
    k >= 0 &&
    r.data == f.data + Payload(f.header, stream, f.spos, BLOCK_SIZE * k) &&
    (k == 0 ==> r.header == f.header && r.spos == f.spos) &&
    (k > 0 ==> r.header == None && r.spos == Advance(stream, f.spos, BLOCK_SIZE * k - |Prefix(f.header)|))
  }

  /** One more block of payload after p extends what was written since f. */
  lemma WrotePayloadExtend(stream: seq<byte>, f: Fill, p: Fill, r: Fill)
    requires WrotePayload(stream, f, p)
    requires |r.taken| == |p.taken| + 1 && r.header == None &&
             r.spos == Advance(stream, p.spos, BLOCK_SIZE - |Prefix(p.header)|) &&
             r.data == p.data + Payload(p.header, stream, p.spos, BLOCK_SIZE)
    ensures WrotePayload(stream, f, r)
  {
    var kp := |p.taken| - |f.taken|;
    if kp == 0 {
      WrotePayloadFirst(stream, f, p, r);
    } else {
      WrotePayloadMore(stream, f, p, r, kp);
    }
  }

  lemma WrotePayloadFirst(stream: seq<byte>, f: Fill, p: Fill, r: Fill)
    requires |p.taken| == |f.taken| && |r.taken| == |p.taken| + 1
    requires p.data == f.data + Payload(f.header, stream, f.spos, 0)
    requires p.spos == f.spos && p.header == f.header
    requires r.spos == Advance(stream, p.spos, BLOCK_SIZE - |Prefix(p.header)|) && r.header == None
    requires r.data == p.data + Payload(p.header, stream, p.spos, BLOCK_SIZE)
    ensures WrotePayload(stream, f, r)
  {
    AppendEmpty(f.data);
    assert BLOCK_SIZE * (|r.taken| - |f.taken|) == BLOCK_SIZE;
  }

  lemma WrotePayloadMore(stream: seq<byte>, f: Fill, p: Fill, r: Fill, kp: nat)
    requires kp > 0 && kp == |p.taken| - |f.taken| && |r.taken| == |p.taken| + 1
    requires p.data == f.data + Payload(f.header, stream, f.spos, BLOCK_SIZE * kp)
    requires p.spos == Advance(stream, f.spos, BLOCK_SIZE * kp - |Prefix(f.header)|) && p.header == None
    requires r.spos == Advance(stream, p.spos, BLOCK_SIZE) && r.header == None
    requires r.data == p.data + Payload(None, stream, p.spos, BLOCK_SIZE)
    ensures WrotePayload(stream, f, r)
  {
    assert |r.taken| - |f.taken| == kp + 1;
    var a := BLOCK_SIZE * kp;
    assert a + BLOCK_SIZE == BLOCK_SIZE * (kp + 1);
    PayloadAppend(f.header, stream, f.spos, a, BLOCK_SIZE, BLOCK_SIZE * (kp + 1), f.data, p.data, r.data);
    SliceAdvance(stream, f.spos, a - |Prefix(f.header)|, BLOCK_SIZE, BLOCK_SIZE * (kp + 1) - |Prefix(f.header)|);
  }

  /** A payload of a bytes followed by b more bytes of stream is the payload of a + b bytes. */
  lemma PayloadAppend(header: Option<HeaderBytes>, stream: seq<byte>, spos: nat, a: nat, b: nat, c: nat,
                      d0: seq<byte>, d1: seq<byte>, d2: seq<byte>)
    requires a > 0 && a >= |Prefix(header)| && c == a + b
    requires d1 == d0 + Payload(header, stream, spos, a)
    requires d2 == d1 + Payload(None, stream, Advance(stream, spos, a - |Prefix(header)|), b)
    ensures d2 == d0 + Payload(header, stream, spos, c)
  {
    var q := Advance(stream, spos, a - |Prefix(header)|);
    PayloadSplit(header, stream, spos, a, b, c);
    AppendAssoc(d0, Payload(header, stream, spos, a), Payload(None, stream, q, b));
  }

  /**
   * Filling writes, in order, the pending header followed by the stream from
   * spos, 1024 bytes per block handed out, and consumes the header with the
   * first block.
   */
  lemma {:induction false} FillWritesPayload(sectors: nat, stream: seq<byte>, f: Fill, n: nat)
    requires sectors < 512 && f.entry.WellSized() && n <= BLOCKS_PER_ENTRY
    ensures WrotePayload(stream, f, FillBlocks(sectors, stream, f, n))
  {
    if n == 0 {
      AppendEmpty(f.data);
    } else {
      FillWritesPayload(sectors, stream, f, n - 1);
      var p := FillBlocks(sectors, stream, f, n - 1);
      FillPassWrites(sectors, stream, f, n);
      if p.ok {
        WrotePass(stream, f, p, FillBlocks(sectors, stream, f, n));
      }
    }
  }

  /** A failed pass writes nothing. */
  lemma WrotePayloadSame(stream: seq<byte>, f: Fill, p: Fill, r: Fill)
    requires WrotePayload(stream, f, p)
    requires r.taken == p.taken && r.data == p.data && r.header == p.header && r.spos == p.spos
    ensures WrotePayload(stream, f, r)
  {
  }

  /** One pass after p extends what was written since f, or leaves it as it was. */
  lemma WrotePass(stream: seq<byte>, f: Fill, p: Fill, r: Fill)
    requires WrotePayload(stream, f, p) && Wrote(stream, p, r)
    ensures WrotePayload(stream, f, r)
  {
    if r.ok {
      WrotePayloadExtend(stream, f, p, r);
    } else {
      WrotePayloadSame(stream, f, p, r);
    }
  }

  /**
   * Since f the entry changed only in its block slots: the k blocks handed
   * out since sit in slots 0 to k - 1, in order, and the other slots are as
   * they were.
   */
  predicate SameButBlocks(a: DirEntry, b: DirEntry)
  {
    a.user == b.user && a.name == b.name && a.extension == b.extension && a.extentLow == b.extentLow &&
    a.extentHigh == b.extentHigh && a.unused == b.unused && a.recordCount == b.recordCount
  }

  predicate Listed(f: Fill, r: Fill)
  {
    var k := |r.taken| - |f.taken|;
    0 <= k <= |f.entry.blocks| && |r.entry.blocks| == |f.entry.blocks| &&
    SameButBlocks(r.entry, f.entry) &&
    (forall j :: k <= j < |f.entry.blocks| ==> r.entry.blocks[j] == f.entry.blocks[j]) &&
    (forall j :: 0 <= j < k ==> r.entry.blocks[j] == r.taken[|f.taken| + j])
  }

  /** A successful pass after p records the block it hands out in the next slot. */
  lemma ListedExtend(f: Fill, p: Fill, r: Fill, i: nat, b: byte)
    requires Listed(f, p) && i == |p.taken| - |f.taken| && i < |f.entry.blocks|
    requires |r.taken| == |p.taken| + 1 && r.taken[..|p.taken|] == p.taken && r.taken[|p.taken|] == b
    requires r.entry == p.entry.(blocks := p.entry.blocks[i := b])
    ensures Listed(f, r)
  {
    forall j | 0 <= j < i
      ensures r.entry.blocks[j] == r.taken[|f.taken| + j]
    {
      assert r.taken[|f.taken| + j] == r.taken[..|p.taken|][|f.taken| + j];
    }
  }

  /** A failed pass changes no slot. */
  lemma ListedSame(f: Fill, p: Fill, r: Fill)
    requires Listed(f, p) && r.taken == p.taken && r.entry == p.entry
    ensures Listed(f, r)
  {
  }

  /** One pass at the next free slot after p keeps the slots listing what was handed out since f. */
  lemma ListedPass(f: Fill, p: Fill, r: Fill, n: nat)
    requires 0 < n <= |f.entry.blocks|
    requires Listed(f, p) && (p.ok ==> |p.taken| - |f.taken| == n - 1)
    requires Stepped(p, r, n - 1) && (r.ok ==> p.ok)
    ensures Listed(f, r) && (r.ok ==> |r.taken| - |f.taken| == n)
  {
    if r.ok {
      ListedExtend(f, p, r, n - 1, r.taken[|p.taken|]);
    } else {
      ListedSame(f, p, r);
    }
  }

  /**
   * Filling leaves every field of the entry but its blocks as they were, and
   * slot j of the entry holds the j-th block handed out.
   */
  lemma {:induction false} FillListsItsBlocks(sectors: nat, stream: seq<byte>, f: Fill, n: nat)
    requires sectors < 512 && f.entry.WellSized() && n <= BLOCKS_PER_ENTRY
    ensures var r := FillBlocks(sectors, stream, f, n);
      Listed(f, r) && (r.ok ==> |r.taken| - |f.taken| == n)
  {
    if n > 0 {
      FillListsItsBlocks(sectors, stream, f, n - 1);
      FillPassSteps(sectors, stream, f, n);
      ListedPass(f, FillBlocks(sectors, stream, f, n - 1), FillBlocks(sectors, stream, f, n), n);
    }
  }

  /** Filling changes no field of the entry but its block slots. */
  lemma FillKeepsFields(sectors: nat, stream: seq<byte>, f: Fill, n: nat)
    requires sectors < 512 && f.entry.WellSized() && n <= BLOCKS_PER_ENTRY
    ensures var r := FillBlocks(sectors, stream, f, n); r.entry == f.entry.(blocks := r.entry.blocks)
  {
    FillListsItsBlocks(sectors, stream, f, n);
    var r := FillBlocks(sectors, stream, f, n);
    assert SameButBlocks(r.entry, f.entry);
  }

  /** Strictly increasing block numbers. */
  predicate Increasing(taken: seq<nat>)
  {
    forall j, k :: 0 <= j < k < |taken| ==> taken[j] < taken[k]
  }

  /** The cursor is set and lies past every block handed out. */
  predicate Behind(taken: seq<nat>, cursor: byte)
  {
    taken != [] ==> cursor != 0 && taken[|taken| - 1] < cursor
  }

  /** Appending a block past the last one keeps the list increasing. */
  lemma IncreasingAppend(taken: seq<nat>, b: nat)
    requires Increasing(taken) && (taken != [] ==> taken[|taken| - 1] < b)
    ensures Increasing(taken + [b])
  {
    forall j, k | 0 <= j < k < |taken| + 1
      ensures (taken + [b])[j] < (taken + [b])[k]
    {
      if k == |taken| && j < |taken| - 1 {
        assert taken[j] < taken[|taken| - 1];
      }
    }
  }

  /**
   * One pass hands out a block past the cursor, which lies past every block
   * handed out before, and leaves the cursor just past it.
   */
  lemma FillPassIncreasing(sectors: nat, stream: seq<byte>, f: Fill, n: nat)
    requires sectors < 512 && f.entry.WellSized() && 0 < n <= BLOCKS_PER_ENTRY
    requires var p := FillBlocks(sectors, stream, f, n - 1);
      p.ok && Increasing(p.taken) && Behind(p.taken, p.st.cursor)
    ensures var r := FillBlocks(sectors, stream, f, n);
      Increasing(r.taken) && (r.ok ==> Behind(r.taken, r.st.cursor))
  {
    var p := FillBlocks(sectors, stream, f, n - 1);
    assert FillBlocks(sectors, stream, f, n) == FillLastPass(sectors, stream, f, n);
    StepIncreasing(sectors, stream, p, n - 1);
  }

  /** One step hands out a block past the cursor, which lies past every block handed out before. */
  lemma StepIncreasing(sectors: nat, stream: seq<byte>, p: Fill, i: nat)
    requires sectors < 512 && p.entry.WellSized() && i < BLOCKS_PER_ENTRY
    requires Increasing(p.taken) && Behind(p.taken, p.st.cursor)
    ensures var r := FillStep(sectors, stream, p, i);
      Increasing(r.taken) && (r.ok ==> Behind(r.taken, r.st.cursor))
  {
    GetFreeBlockFree(p.st, sectors);
    var g := GetFreeBlockSpec(p.st, sectors);
    var b := g.1;
    if b >= 0 {
      IncreasingAppend(p.taken, b);
      var r := FillStep(sectors, stream, p, i);
      assert r.taken == p.taken + [b];
      assert r.st.cursor == g.0.cursor;
    }
  }

  /**
   * The blocks a fill hands out are strictly increasing and, when it
   * succeeds, stay behind the cursor, because each allocation starts at the
   * cursor the previous one left and nothing else moves it.
   */
  lemma {:induction false} FillIncreasing(sectors: nat, stream: seq<byte>, f: Fill, n: nat)
    requires sectors < 512 && f.entry.WellSized() && n <= BLOCKS_PER_ENTRY
    requires Increasing(f.taken) && Behind(f.taken, f.st.cursor)
    ensures var r := FillBlocks(sectors, stream, f, n);
      Increasing(r.taken) && (r.ok ==> Behind(r.taken, r.st.cursor))
  {
    if n > 0 {
      FillIncreasing(sectors, stream, f, n - 1);
      var p := FillBlocks(sectors, stream, f, n - 1);
      if p.ok {
        FillPassIncreasing(sectors, stream, f, n);
      }
    }
  }

  /** Prefixes compose. */
  lemma PrefixTrans<T>(a: seq<T>, b: seq<T>, c: seq<T>)
    requires |a| <= |b| <= |c| && b[..|a|] == a && c[..|b|] == b
    ensures c[..|a|] == a
  {
    assert c[..|a|] == c[..|b|][..|a|];
  }

  /** The payload of kf blocks followed by that of k2 more blocks is the payload of k = kf + k2 blocks. */
  lemma PayloadBlocksJoin(header: Option<HeaderBytes>, stream: seq<byte>, spos: nat, kf: nat, k2: nat, k: nat,
                          d0: seq<byte>, d1: seq<byte>, d2: seq<byte>)
    requires kf > 0 && k == kf + k2
    requires d1 == d0 + Payload(header, stream, spos, BLOCK_SIZE * kf)
    requires d2 == d1 + Payload(None, stream, Advance(stream, spos, BLOCK_SIZE * kf - |Prefix(header)|), BLOCK_SIZE * k2)
    ensures d2 == d0 + Payload(header, stream, spos, BLOCK_SIZE * k)
  {
    var a, b, c := BLOCK_SIZE * kf, BLOCK_SIZE * k2, BLOCK_SIZE * k;
    assert a >= BLOCK_SIZE && c == a + b;
    PayloadAppend(header, stream, spos, a, b, c, d0, d1, d2);
  }

  /** What a later add writes after a fill that handed out blocks continues what the fill wrote. */
  lemma WrittenJoin(stream: seq<byte>, f0: Fill, f: Fill, rt: seq<nat>, rd: seq<byte>)
    requires WrotePayload(stream, f0, f) && |f.taken| > |f0.taken|
    requires |rt| >= |f.taken| && rd == f.data + Payload(f.header, stream, f.spos, BLOCK_SIZE * (|rt| - |f.taken|))
    ensures rd == f0.data + Payload(f0.header, stream, f0.spos, BLOCK_SIZE * (|rt| - |f0.taken|))
  {
    var kf := |f.taken| - |f0.taken|;
    var q := Advance(stream, f0.spos, BLOCK_SIZE * kf - |Prefix(f0.header)|);
    assert f.header == None && f.spos == q;
    assert rd == f.data + Payload(None, stream, q, BLOCK_SIZE * (|rt| - |f.taken|));
    PayloadBlocksJoin(f0.header, stream, f0.spos, kf, |rt| - |f.taken|, |rt| - |f0.taken|, f0.data, f.data, rd);
  }

  /**
   * rt extends taken, and rd is data followed by the payload of 1024 bytes
   * for each block rt added.
   */
  predicate WroteFrom(stream: seq<byte>, header: Option<HeaderBytes>, spos: nat, taken: seq<nat>, data: seq<byte>,
                      rt: seq<nat>, rd: seq<byte>)
  {
    |rt| >= |taken| && rt[..|taken|] == taken &&
    rd == data + Payload(header, stream, spos, BLOCK_SIZE * (|rt| - |taken|))
  }

  /** What an add wrote after its first fill continues what that fill wrote. */
  lemma AddWritesJoin(stream: seq<byte>, f0: Fill, f: Fill, rt: seq<nat>, rd: seq<byte>,
                      header: Option<HeaderBytes>, spos: nat, taken: seq<nat>, data: seq<byte>)
    requires f0.header == header && f0.spos == spos && f0.taken == taken && f0.data == data
    requires Took(f0, f) && WrotePayload(stream, f0, f) && (f.ok ==> |f.taken| > |f0.taken|)
    requires |rt| >= |f.taken| && rt[..|f.taken|] == f.taken
    requires f.ok ==> WroteFrom(stream, f.header, f.spos, f.taken, f.data, rt, rd)
    requires !f.ok ==> rt == f.taken && rd == f.data
    ensures WroteFrom(stream, header, spos, taken, data, rt, rd)
  {
    PrefixTrans(f0.taken, f.taken, rt);
    if f.ok {
      WrittenJoin(stream, f0, f, rt, rd);
    }
  }

  /** Writing no block writes nothing. */
  lemma NothingWritten(header: Option<HeaderBytes>, stream: seq<byte>, spos: nat, data: seq<byte>)
    ensures data + Payload(header, stream, spos, BLOCK_SIZE * 0) == data
  {
    AppendEmpty(data);
  }

  /** An extent's record count needs at least one block. */
  lemma ExtentBlocks(size: int, pos: int)
    requires pos < size
    ensures 1 <= CeilDiv(ExtentRecords(size, pos), RECORDS_PER_BLOCK) <= BLOCKS_PER_ENTRY
  {
  }

  /**
   * Adding from pos writes, in order, the header followed by the stream
   * from spos into the blocks handed out, 1024 bytes per block, whether the
   * add succeeds or stops early; the blocks handed out before are kept.
   */
  lemma {:induction false} AddWritesPayload(s: State, sectors: nat, stream: seq<byte>, spos: nat, pos: int, size: int,
      header: Option<HeaderBytes>, name: seq<byte>, user: byte, extent: byte,
      written: seq<DirEntry>, taken: seq<nat>, data: seq<byte>)
    requires sectors < 512
    ensures var r := AddExtents(s, sectors, stream, spos, pos, size, header, name, user, extent, written, taken, data);
      WroteFrom(stream, header, spos, taken, data, r.taken, r.data)
    decreases size - pos, 1
  {
    var r := AddExtents(s, sectors, stream, spos, pos, size, header, name, user, extent, written, taken, data);
    var index := NextFree(Dir(s), 0);
    if pos < size && index >= 0 {
      var records := ExtentRecords(size, pos);
      var n := CeilDiv(records, RECORDS_PER_BLOCK);
      ExtentBlocks(size, pos);
      var f0 := Fill(Scanned(s), spos, pos, header, NewEntry(name, user, extent, records), true, taken, data);
      var f := FillBlocks(sectors, stream, f0, n);
      assert r == AddFilled(sectors, stream, pos, size, name, user, extent, written, f, index);
      FillTakes(sectors, stream, f0, n);
      FillWritesPayload(sectors, stream, f0, n);
      FilledWritesPayload(sectors, stream, pos, size, name, user, extent, written, f, index);
      AddWritesJoin(stream, f0, f, r.taken, r.data, header, spos, taken, data);
    } else {
      assert r.taken == taken && r.data == data;
      NothingWritten(header, stream, spos, data);
    }
  }

  lemma {:induction false} FilledWritesPayload(sectors: nat, stream: seq<byte>, pos: int, size: int, name: seq<byte>, user: byte,
      extent: byte, written: seq<DirEntry>, f: Fill, index: nat)
    requires sectors < 512 && pos < size && f.entry.WellSized() && (f.ok ==> f.pos > pos)
    ensures var r := AddFilled(sectors, stream, pos, size, name, user, extent, written, f, index);
      |r.taken| >= |f.taken| && r.taken[..|f.taken|] == f.taken &&
      (f.ok ==> WroteFrom(stream, f.header, f.spos, f.taken, f.data, r.taken, r.data)) &&
      (!f.ok ==> r.taken == f.taken && r.data == f.data)
    decreases size - pos, 0
  {
    if f.ok {
      var r := AddExtents(UpdateDirSpec(f.st, f.entry, index), sectors, stream, f.spos, f.pos, size, f.header, name, user, (extent + 1) % 256, written + [f.entry], f.taken, f.data);
      AddWritesPayload(UpdateDirSpec(f.st, f.entry, index), sectors, stream, f.spos, f.pos, size, f.header, name, user, (extent + 1) % 256, written + [f.entry], f.taken, f.data);
      assert AddFilled(sectors, stream, pos, size, name, user, extent, written, f, index) == r;
    } else {
      assert f.taken[..|f.taken|] == f.taken;
    }
  }

  /**
   * The blocks handed out are strictly increasing, so no block is handed
   * out twice: every allocation starts at the cursor the previous one left,
   * and neither the directory reads nor the entry writes move it.
   */
  lemma {:induction false} AddIncreasing(s: State, sectors: nat, stream: seq<byte>, spos: nat, pos: int, size: int,
      header: Option<HeaderBytes>, name: seq<byte>, user: byte, extent: byte,
      written: seq<DirEntry>, taken: seq<nat>, data: seq<byte>)
    requires sectors < 512
    requires Increasing(taken) && Behind(taken, s.cursor)
    ensures var r := AddExtents(s, sectors, stream, spos, pos, size, header, name, user, extent, written, taken, data);
      Increasing(r.taken)
    decreases size - pos, 1
  {
    var r := AddExtents(s, sectors, stream, spos, pos, size, header, name, user, extent, written, taken, data);
    var index := NextFree(Dir(s), 0);
    if pos < size && index >= 0 {
      var records := ExtentRecords(size, pos);
      var n := CeilDiv(records, RECORDS_PER_BLOCK);
      ExtentBlocks(size, pos);
      var f0 := Fill(Scanned(s), spos, pos, header, NewEntry(name, user, extent, records), true, taken, data);
      var f := FillBlocks(sectors, stream, f0, n);
      assert r == AddFilled(sectors, stream, pos, size, name, user, extent, written, f, index);
      FillIncreasing(sectors, stream, f0, n);
      FilledIncreasing(sectors, stream, pos, size, name, user, extent, written, f, index);
    } else {
    }
  }

  lemma {:induction false} FilledIncreasing(sectors: nat, stream: seq<byte>, pos: int, size: int, name: seq<byte>, user: byte,
      extent: byte, written: seq<DirEntry>, f: Fill, index: nat)
    requires sectors < 512 && pos < size && f.entry.WellSized() && (f.ok ==> f.pos > pos)
    requires Increasing(f.taken) && (f.ok ==> Behind(f.taken, f.st.cursor))
    ensures var r := AddFilled(sectors, stream, pos, size, name, user, extent, written, f, index);
      Increasing(r.taken)
    decreases size - pos, 0
  {
    if f.ok {
      var r := AddExtents(UpdateDirSpec(f.st, f.entry, index), sectors, stream, f.spos, f.pos, size, f.header, name, user, (extent + 1) % 256, written + [f.entry], f.taken, f.data);
      AddIncreasing(UpdateDirSpec(f.st, f.entry, index), sectors, stream, f.spos, f.pos, size, f.header, name, user, (extent + 1) % 256, written + [f.entry], f.taken, f.data);
      assert AddFilled(sectors, stream, pos, size, name, user, extent, written, f, index) == r;
    }
  }

  /**
   * The j-th extent added from pos with extent number `extent`: it starts
   * 16384 * j bytes on, before the end, and apart from its block slots it
   * is the new entry with extent number extent + j (in uint8_t) and the
   * records of that extent.
   */
  predicate ExtentAt(name: seq<byte>, user: byte, size: int, e: DirEntry, pos: int, extent: byte, j: nat)
  {
    pos + EXTENT_SIZE * j < size &&
    e == NewEntry(name, user, (extent + j) % 256, ExtentRecords(size, pos + EXTENT_SIZE * j)).(blocks := e.blocks)
  }

  /** Entries `from` on are the extents added from pos, in order. */
  predicate ExtentsAt(name: seq<byte>, user: byte, size: int, es: seq<DirEntry>, from: nat, pos: int, extent: byte)
  {
    forall k :: from <= k < |es| ==> ExtentAt(name, user, size, es[k], pos, extent, k - from)
  }

  /** An extent that does not end the file is 16384 bytes long, so the next one starts where it ends. */
  lemma NextExtent(size: int, pos: int, n: nat)
    requires pos < size && n == CeilDiv(ExtentRecords(size, pos), RECORDS_PER_BLOCK)
    ensures pos + BLOCK_SIZE * n >= size || pos + BLOCK_SIZE * n == pos + EXTENT_SIZE
  {
    var records := ExtentRecords(size, pos);
    if records < RECORDS_PER_ENTRY {
      assert records * RECORD_SIZE >= size - pos;
      assert n * RECORDS_PER_BLOCK >= records;
    }
  }

  /** The entry of the first extent followed by the extents after it are the extents from pos. */
  lemma ExtentsExtend(name: seq<byte>, user: byte, size: int, written: seq<DirEntry>, e: DirEntry,
                      rw: seq<DirEntry>, pos: int, extent: byte, fpos: int)
    requires pos < size && (fpos >= size || fpos == pos + EXTENT_SIZE)
    requires e == NewEntry(name, user, extent, ExtentRecords(size, pos)).(blocks := e.blocks)
    requires |rw| >= |written| + 1 && rw[..|written| + 1] == written + [e]
    requires ExtentsAt(name, user, size, rw, |written| + 1, fpos, (extent + 1) % 256)
    ensures ExtentsAt(name, user, size, rw, |written|, pos, extent)
  {
    forall k | |written| <= k < |rw|
      ensures ExtentAt(name, user, size, rw[k], pos, extent, k - |written|)
    {
      if k == |written| {
        assert rw[k] == rw[..|written| + 1][k];
        ExtentFirst(name, user, size, rw[k], pos, extent);
      } else {
        ExtentShift(name, user, size, rw[k], pos, extent, fpos, k - |written|);
      }
    }
  }

  /** The entry of the extent at pos is extent number 0 from pos. */
  lemma ExtentFirst(name: seq<byte>, user: byte, size: int, e: DirEntry, pos: int, extent: byte)
    requires pos < size
    requires e == NewEntry(name, user, extent, ExtentRecords(size, pos)).(blocks := e.blocks)
    ensures ExtentAt(name, user, size, e, pos, extent, 0)
  {
    assert (extent + 0) % 256 == extent;
  }

  /** Extent j - 1 from the next extent's start is extent j from pos. */
  lemma ExtentShift(name: seq<byte>, user: byte, size: int, e: DirEntry, pos: int, extent: byte, fpos: int, j: nat)
    requires j > 0 && (fpos >= size || fpos == pos + EXTENT_SIZE)
    requires ExtentAt(name, user, size, e, fpos, (extent + 1) % 256, j - 1)
    ensures ExtentAt(name, user, size, e, pos, extent, j)
  {
    assert fpos == pos + EXTENT_SIZE;
    assert fpos + EXTENT_SIZE * (j - 1) == pos + EXTENT_SIZE * j;
    ExtentNumberShift(extent, j);
  }

  lemma ExtentNumberShift(extent: byte, j: nat)
    requires j > 0
    ensures ((extent + 1) % 256 + (j - 1)) % 256 == (extent + j) % 256
  {
  }

  /**
   * Adding from pos numbers the new entries as the extents from pos, each
   * with its own extent number and record count, and keeps the entries
   * written before.
   */
  lemma {:induction false} AddNumbersExtents(s: State, sectors: nat, stream: seq<byte>, spos: nat, pos: int, size: int,
      header: Option<HeaderBytes>, name: seq<byte>, user: byte, extent: byte,
      written: seq<DirEntry>, taken: seq<nat>, data: seq<byte>)
    requires sectors < 512
    ensures var r := AddExtents(s, sectors, stream, spos, pos, size, header, name, user, extent, written, taken, data);
      |r.written| >= |written| && r.written[..|written|] == written &&
      ExtentsAt(name, user, size, r.written, |written|, pos, extent)
    decreases size - pos, 1
  {
    var r := AddExtents(s, sectors, stream, spos, pos, size, header, name, user, extent, written, taken, data);
    var index := NextFree(Dir(s), 0);
    if pos < size && index >= 0 {
      var records := ExtentRecords(size, pos);
      var n := CeilDiv(records, RECORDS_PER_BLOCK);
      ExtentBlocks(size, pos);
      var f0 := Fill(Scanned(s), spos, pos, header, NewEntry(name, user, extent, records), true, taken, data);
      var f := FillBlocks(sectors, stream, f0, n);
      assert r == AddFilled(sectors, stream, pos, size, name, user, extent, written, f, index);
      FillKeepsFields(sectors, stream, f0, n);
      NextExtent(size, pos, n);
      FilledNumbers(sectors, stream, pos, size, name, user, extent, written, f, index);
      if f.ok {
        PrefixTrans(written, written + [f.entry], r.written);
        ExtentsExtend(name, user, size, written, f.entry, r.written, pos, extent, f.pos);
      }
    } else {
      assert r.written == written;
    }
  }

  lemma {:induction false} FilledNumbers(sectors: nat, stream: seq<byte>, pos: int, size: int, name: seq<byte>, user: byte,
      extent: byte, written: seq<DirEntry>, f: Fill, index: nat)
    requires sectors < 512 && pos < size && f.entry.WellSized() && (f.ok ==> f.pos > pos)
    ensures var r := AddFilled(sectors, stream, pos, size, name, user, extent, written, f, index);
      (!f.ok ==> r.written == written) &&
      (f.ok ==> |r.written| >= |written| + 1 && r.written[..|written| + 1] == written + [f.entry] &&
                ExtentsAt(name, user, size, r.written, |written| + 1, f.pos, (extent + 1) % 256))
    decreases size - pos, 0
  {
    if f.ok {
      var r := AddExtents(UpdateDirSpec(f.st, f.entry, index), sectors, stream, f.spos, f.pos, size, f.header, name, user, (extent + 1) % 256, written + [f.entry], f.taken, f.data);
      AddNumbersExtents(UpdateDirSpec(f.st, f.entry, index), sectors, stream, f.spos, f.pos, size, f.header, name, user, (extent + 1) % 256, written + [f.entry], f.taken, f.data);
      assert AddFilled(sectors, stream, pos, size, name, user, extent, written, f, index) == r;
    }
  }

  /** The records of a list of entries. */
  function RecordSum(es: seq<DirEntry>): (r: nat)
    ensures es == [] ==> r == 0
  {
    if es == [] then 0 else RecordSum(es[..|es| - 1]) + es[|es| - 1].recordCount
  }

  lemma RecordSumAppend(es: seq<DirEntry>, e: DirEntry)
    ensures RecordSum(es + [e]) == RecordSum(es) + e.recordCount
  {
    assert (es + [e])[..|es|] == es;
  }

  /**
   * An extent covers min(128, SHIFTH(x, 7)) records and SHIFTH of those
   * by 3 blocks; what is left after it needs the rest of the records and
   * one extent less, and a short extent leaves nothing.
   */
  lemma CeilDivSteps(x: int, records: nat)
    requires x > 0 && records == Min(RECORDS_PER_ENTRY, CeilDiv(x, RECORD_SIZE))
    ensures var rest := x - BLOCK_SIZE * CeilDiv(records, RECORDS_PER_BLOCK);
      CeilDiv(x, RECORD_SIZE) == records + CeilDiv(Max(0, rest), RECORD_SIZE) &&
      CeilDiv(x, EXTENT_SIZE) == 1 + CeilDiv(Max(0, rest), EXTENT_SIZE) &&
      (records < RECORDS_PER_ENTRY ==> rest <= 0)
  {
    var n := CeilDiv(records, RECORDS_PER_BLOCK);
    if records == RECORDS_PER_ENTRY {
      assert n == BLOCKS_PER_ENTRY;
    } else {
      assert records * RECORD_SIZE >= x;
      assert n * RECORDS_PER_BLOCK >= records;
    }
  }

  /** The 16 KiB extents x bytes need, counted one extent at a time. */
  function ExtentsFor(x: int): (r: nat)
    decreases x
  {
    if x <= 0 then 0 else 1 + ExtentsFor(x - EXTENT_SIZE)
  }

  /** The 128-byte records x bytes need, counted one record at a time. */
  function RecordsFor(x: int): (r: nat)
    decreases x
  {
    if x <= 0 then 0 else 1 + RecordsFor(x - RECORD_SIZE)
  }

  /** Counting extents one at a time is SHIFTH by 14. */
  lemma {:induction false} ExtentsForIsCeil(x: int)
    ensures ExtentsFor(x) == CeilDiv(Max(0, x), EXTENT_SIZE)
    decreases x
  {
    if x > 0 {
      ExtentsForIsCeil(x - EXTENT_SIZE);
      CeilDivShift(x, EXTENT_SIZE);
    }
  }

  /** Counting records one at a time is SHIFTH by 7. */
  lemma {:induction false} RecordsForIsCeil(x: int)
    ensures RecordsFor(x) == CeilDiv(Max(0, x), RECORD_SIZE)
    decreases x
  {
    if x > 0 {
      RecordsForIsCeil(x - RECORD_SIZE);
      CeilDivShift(x, RECORD_SIZE);
    }
  }

  lemma CeilDivShift(x: int, d: nat)
    requires x > 0 && (d == RECORD_SIZE || d == EXTENT_SIZE)
    ensures CeilDiv(x, d) == 1 + CeilDiv(Max(0, x - d), d)
  {
  }

  /** One extent of the first x bytes, n blocks long, leaves one extent less for what is left. */
  lemma ExtentsJoin(x: int, records: nat, n: nat, rest: int)
    requires x > 0 && records == Min(RECORDS_PER_ENTRY, CeilDiv(x, RECORD_SIZE))
    requires n == CeilDiv(records, RECORDS_PER_BLOCK) && rest == x - BLOCK_SIZE * n
    ensures ExtentsFor(x) == 1 + ExtentsFor(rest)
  {
    CeilDivSteps(x, records);
    ExtentsForIsCeil(x);
    ExtentsForIsCeil(rest);
  }

  /** One extent of the first x bytes holds records records and leaves the rest for what is left. */
  lemma RecordsJoin(x: int, records: nat, n: nat, rest: int)
    requires x > 0 && records == Min(RECORDS_PER_ENTRY, CeilDiv(x, RECORD_SIZE))
    requires n == CeilDiv(records, RECORDS_PER_BLOCK) && rest == x - BLOCK_SIZE * n
    ensures RecordsFor(x) == records + RecordsFor(rest)
  {
    CeilDivSteps(x, records);
    RecordsForIsCeil(x);
    RecordsForIsCeil(rest);
  }

  /** The counts of a successful add after one more extent. */
  lemma CountsJoin(x: int, records: nat, n: nat, pos: int, fpos: int, size: int,
                   written: seq<DirEntry>, e: DirEntry, rw: seq<DirEntry>)
    requires x == size - pos && x > 0 && records == Min(RECORDS_PER_ENTRY, CeilDiv(x, RECORD_SIZE))
    requires n == CeilDiv(records, RECORDS_PER_BLOCK) && fpos == pos + BLOCK_SIZE * n && e.recordCount == records
    requires |rw| == |written + [e]| + ExtentsFor(size - fpos)
    requires RecordSum(rw) == RecordSum(written + [e]) + RecordsFor(size - fpos)
    ensures |rw| == |written| + ExtentsFor(size - pos)
    ensures RecordSum(rw) == RecordSum(written) + RecordsFor(size - pos)
  {
    ExtentsJoin(x, records, n, size - fpos);
    RecordsJoin(x, records, n, size - fpos);
    RecordSumAppend(written, e);
  }

  /**
   * A successful add from pos writes one entry per 16 KiB of what is left
   * of the file and records one 128-byte record per started 128 bytes of
   * it.
   */
  lemma {:induction false} AddAccountsForSize(s: State, sectors: nat, stream: seq<byte>, spos: nat, pos: int, size: int,
      header: Option<HeaderBytes>, name: seq<byte>, user: byte, extent: byte,
      written: seq<DirEntry>, taken: seq<nat>, data: seq<byte>)
    requires sectors < 512
    ensures var r := AddExtents(s, sectors, stream, spos, pos, size, header, name, user, extent, written, taken, data);
      r.ok ==>
        |r.written| == |written| + ExtentsFor(size - pos) &&
        RecordSum(r.written) == RecordSum(written) + RecordsFor(size - pos)
    decreases size - pos, 2
  {
    var r := AddExtents(s, sectors, stream, spos, pos, size, header, name, user, extent, written, taken, data);
    var index := NextFree(Dir(s), 0);
    if pos < size && index >= 0 {
      var records := ExtentRecords(size, pos);
      var n := CeilDiv(records, RECORDS_PER_BLOCK);
      ExtentBlocks(size, pos);
      var f0 := Fill(Scanned(s), spos, pos, header, NewEntry(name, user, extent, records), true, taken, data);
      var f := FillBlocks(sectors, stream, f0, n);
      assert r == AddFilled(sectors, stream, pos, size, name, user, extent, written, f, index);
      FillKeepsFields(sectors, stream, f0, n);
      FilledAccounts(sectors, stream, pos, size, name, user, extent, written, f, index);
    } else {
      assert pos >= size ==> r.written == written;
    }
  }

  lemma {:induction false} FilledAccounts(sectors: nat, stream: seq<byte>, pos: int, size: int, name: seq<byte>, user: byte,
      extent: byte, written: seq<DirEntry>, f: Fill, index: nat)
    requires sectors < 512 && pos < size && f.entry.WellSized() && (f.ok ==> f.pos > pos)
    requires f.entry.recordCount == ExtentRecords(size, pos)
    requires f.ok ==> f.pos == pos + BLOCK_SIZE * CeilDiv(ExtentRecords(size, pos), RECORDS_PER_BLOCK)
    ensures var r := AddFilled(sectors, stream, pos, size, name, user, extent, written, f, index);
      r.ok ==>
        |r.written| == |written| + ExtentsFor(size - pos) &&
        RecordSum(r.written) == RecordSum(written) + RecordsFor(size - pos)
    decreases size - pos, 1
  {
    if f.ok {
      FollowAccounts(UpdateDirSpec(f.st, f.entry, index), sectors, stream, f.spos, pos, f.pos, size, f.header, name, user,
                     (extent + 1) % 256, written, f.entry, f.taken, f.data);
      assert AddFilled(sectors, stream, pos, size, name, user, extent, written, f, index) ==
        AddExtents(UpdateDirSpec(f.st, f.entry, index), sectors, stream, f.spos, f.pos, size, f.header, name, user,
                   (extent + 1) % 256, written + [f.entry], f.taken, f.data);
    }
  }

  /** The counts after an extent of ExtentRecords(size, pos) records that ends at fpos. */
  lemma {:induction false} FollowAccounts(s: State, sectors: nat, stream: seq<byte>, spos: nat, pos: int, fpos: int, size: int,
      header: Option<HeaderBytes>, name: seq<byte>, user: byte, extent: byte,
      written: seq<DirEntry>, e: DirEntry, taken: seq<nat>, data: seq<byte>)
    requires sectors < 512 && pos < size && e.recordCount == ExtentRecords(size, pos)
    requires fpos == pos + BLOCK_SIZE * CeilDiv(ExtentRecords(size, pos), RECORDS_PER_BLOCK)
    ensures var r := AddExtents(s, sectors, stream, spos, fpos, size, header, name, user, extent, written + [e], taken, data);
      r.ok ==>
        |r.written| == |written| + ExtentsFor(size - pos) &&
        RecordSum(r.written) == RecordSum(written) + RecordsFor(size - pos)
    decreases size - pos, 0
  {
    ExtentBlocks(size, pos);
    var r := AddExtents(s, sectors, stream, spos, fpos, size, header, name, user, extent, written + [e], taken, data);
    AddAccountsForSize(s, sectors, stream, spos, fpos, size, header, name, user, extent, written + [e], taken, data);
    if r.ok {
      CountsJoin(size - pos, ExtentRecords(size, pos), CeilDiv(ExtentRecords(size, pos), RECORDS_PER_BLOCK),
                 pos, fpos, size, written, e, r.written);
    }
  }

  /** The blocks an entry lists: its first SHIFTH(record_count, 3) slots, at most 16. */
  function SlotsOf(e: DirEntry): (r: seq<nat>)
    ensures |r| == Min(BlockSlots(e), |e.blocks|)
    ensures forall j :: 0 <= j < |r| ==> r[j] == e.blocks[j]
  {
    seq(Min(BlockSlots(e), |e.blocks|), j requires 0 <= j < Min(BlockSlots(e), |e.blocks|) => e.blocks[j] as nat)
  }

  /** The blocks a list of entries lists, entry by entry. */
  function Listing(es: seq<DirEntry>): (r: seq<nat>)
    ensures es == [] ==> r == []
  {
    if es == [] then [] else Listing(es[..|es| - 1]) + SlotsOf(es[|es| - 1])
  }

  lemma ListingAppend(es: seq<DirEntry>, e: DirEntry)
    ensures Listing(es + [e]) == Listing(es) + SlotsOf(e)
  {
    assert (es + [e])[..|es|] == es;
  }

  /** An entry filled with n blocks lists exactly those n blocks. */
  lemma SlotsOfFilled(f0: Fill, f: Fill, n: nat)
    requires Listed(f0, f) && |f.taken| - |f0.taken| == n && BlockSlots(f.entry) == n
    ensures SlotsOf(f.entry) == f.taken[|f0.taken|..]
  {
  }

  lemma TailJoin(a: seq<nat>, b: seq<nat>, c: seq<nat>, i: nat)
    requires i <= |b| <= |c| && c[..|b|] == b
    ensures (a + b[i..]) + c[|b|..] == a + c[i..]
  {
    assert b[i..] + c[|b|..] == c[i..];
  }

  /**
   * A successful add lists in its entries, in order, exactly the blocks it
   * handed out.
   */
  lemma {:induction false} AddListsTaken(s: State, sectors: nat, stream: seq<byte>, spos: nat, pos: int, size: int,
      header: Option<HeaderBytes>, name: seq<byte>, user: byte, extent: byte,
      written: seq<DirEntry>, taken: seq<nat>, data: seq<byte>)
    requires sectors < 512
    ensures var r := AddExtents(s, sectors, stream, spos, pos, size, header, name, user, extent, written, taken, data);
      r.ok ==> |r.taken| >= |taken| && Listing(r.written) == Listing(written) + r.taken[|taken|..]
    decreases size - pos, 1
  {
    var r := AddExtents(s, sectors, stream, spos, pos, size, header, name, user, extent, written, taken, data);
    var index := NextFree(Dir(s), 0);
    if pos < size && index >= 0 {
      var records := ExtentRecords(size, pos);
      var n := CeilDiv(records, RECORDS_PER_BLOCK);
      ExtentBlocks(size, pos);
      var f0 := Fill(Scanned(s), spos, pos, header, NewEntry(name, user, extent, records), true, taken, data);
      var f := FillBlocks(sectors, stream, f0, n);
      assert r == AddFilled(sectors, stream, pos, size, name, user, extent, written, f, index);
      FillTakes(sectors, stream, f0, n);
      FillListsItsBlocks(sectors, stream, f0, n);
      assert f.entry.recordCount == records;
      FilledListsTaken(sectors, stream, pos, size, name, user, extent, written, f, index);
      if r.ok {
        SlotsOfFilled(f0, f, n);
        FilledWritesPayload(sectors, stream, pos, size, name, user, extent, written, f, index);
        ListingAppend(written, f.entry);
        TailJoin(Listing(written), f.taken, r.taken, |taken|);
      }
    } else {
      if pos >= size {
        assert r.taken == taken && r.written == written;
        assert r.taken[|taken|..] == [];
      }
    }
  }

  lemma {:induction false} FilledListsTaken(sectors: nat, stream: seq<byte>, pos: int, size: int, name: seq<byte>, user: byte,
      extent: byte, written: seq<DirEntry>, f: Fill, index: nat)
    requires sectors < 512 && pos < size && f.entry.WellSized() && (f.ok ==> f.pos > pos)
    ensures var r := AddFilled(sectors, stream, pos, size, name, user, extent, written, f, index);
      r.ok ==> f.ok && |r.taken| >= |f.taken| && Listing(r.written) == Listing(written + [f.entry]) + r.taken[|f.taken|..]
    decreases size - pos, 0
  {
    if f.ok {
      var r := AddExtents(UpdateDirSpec(f.st, f.entry, index), sectors, stream, f.spos, f.pos, size, f.header, name, user, (extent + 1) % 256, written + [f.entry], f.taken, f.data);
      AddListsTaken(UpdateDirSpec(f.st, f.entry, index), sectors, stream, f.spos, f.pos, size, f.header, name, user, (extent + 1) % 256, written + [f.entry], f.taken, f.data);
      assert AddFilled(sectors, stream, pos, size, name, user, extent, written, f, index) == r;
    }
  }
}
