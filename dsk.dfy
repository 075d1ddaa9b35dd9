/**
 * The disk-image container (src/dsk.c): offset arithmetic over one in-memory
 * image buffer holding every track (its 256-byte header followed by its
 * sector payloads), plus the lazily filled table of track-header views.
 *
 * The specification functions below compute, from the disk header `info`,
 * the image bytes `img` and the view cache, exactly what the C functions
 * compute; the `Disk` class carries the buffers and its methods are proved
 * to agree with them.
 *
 * Where the C dereferences a track view without checking it for NULL
 * (first_sector_id, get_sector_offset, dsk_get_total_blocks) the model reads
 * the track header at the track's offset, which is what the C reads whenever
 * it does not crash.
 */
module Dsk {
  import opened Common
  import opened DskLayout

  /** is_dsk_image: the first 8 header bytes are "MV - CPC". */
  predicate IsDsk(info: Header) { info[..8] == DskMagic() }

  /** is_edsk_image: the first 21 header bytes are "EXTENDED CPC DSK File". */
  predicate IsEdsk(info: Header) { info[..21] == EdskMagic() }

  /**
   * get_track_size: the header's 16-bit little-endian size for a plain image,
   * the track's entry of the size table times 256 for an extended one, and 0
   * for any other magic. The table starts right after the plain header's
   * fields (byte 52); entries past the 256-byte header read as 0.
   */
  function TrackSize(info: Header, track: byte): (r: nat)
    ensures r < 65536
  {
    if IsDsk(info) then LE16(info[HDR_TRACK_SIZE], info[HDR_TRACK_SIZE + 1])
    else if IsEdsk(info) then At(info, HDR_PADDING + track) * 256
    else 0
  }

  /**
   * The sizes of tracks 0..n-1 summed the way the C loops do it: the loop
   * index is passed to get_track_size as a uint8_t.
   */
  function SizesBefore(info: Header, n: nat): nat
  {
    if n == 0 then 0 else SizesBefore(info, n - 1) + TrackSize(info, (n - 1) % 256)
  }

  /** Below 256 tracks the uint8_t index does not wrap. */
  lemma SizesBeforeStep(info: Header, n: nat)
    requires n < 256
    ensures SizesBefore(info, n + 1) == SizesBefore(info, n) + TrackSize(info, n)
  {
    assert (n + 1 - 1) % 256 == n;
  }

  /** get_image_size */
  function ImageSize(info: Header): nat
  {
    if IsDsk(info) then Tracks(info) * TrackSize(info, 0)
    else if IsEdsk(info) then SizesBefore(info, Tracks(info) * Sides(info))
    else 0
  }

  /** get_track_offset */
  function TrackOffset(info: Header, track: byte): nat
  {
    if IsDsk(info) then TrackSize(info, 0) * track
    else if IsEdsk(info) then SizesBefore(info, track)
    else 0
  }

  /** A plain image gives every track the size stored in its header. */
  lemma {:induction false} PlainSizesBefore(info: Header, n: nat)
    requires IsDsk(info)
    ensures SizesBefore(info, n) == n * LE16(info[HDR_TRACK_SIZE], info[HDR_TRACK_SIZE + 1])
  {
    if n > 0 {
      PlainSizesBefore(info, n - 1);
      var size := LE16(info[HDR_TRACK_SIZE], info[HDR_TRACK_SIZE + 1]);
      assert TrackSize(info, (n - 1) % 256) == size;
      assert (n - 1) * size + size == n * size;
    }
  }

  /**
   * For every format a track starts where the tracks before it end: its
   * offset is the sum of the sizes of the tracks before it.
   */
  lemma TrackOffsetIsPrefixSum(info: Header, t: byte)
    ensures TrackOffset(info, t) == SizesBefore(info, t)
  {
    if IsDsk(info) {
      PlainSizesBefore(info, t);
    } else if !IsEdsk(info) {
      UnknownSizesBefore(info, t);
    }
  }

  /** Track 0 starts the image and each next track starts where the previous one ends. */
  lemma TrackOffsetStep(info: Header, t: byte)
    requires t < 255
    ensures TrackOffset(info, 0) == 0
    ensures TrackOffset(info, t + 1) == TrackOffset(info, t) + TrackSize(info, t)
  {
    TrackOffsetIsPrefixSum(info, 0);
    TrackOffsetIsPrefixSum(info, t);
    TrackOffsetIsPrefixSum(info, t + 1);
    SizesBeforeStep(info, t);
  }

  lemma {:induction false} UnknownSizesBefore(info: Header, n: nat)
    requires !IsDsk(info) && !IsEdsk(info)
    ensures SizesBefore(info, n) == 0
  {
    if n > 0 {
      UnknownSizesBefore(info, n - 1);
    }
  }

  /**
   * The image size is the sum of the track sizes: over tracks x sides for an
   * extended image, but over `tracks` only for a plain one (its sides are
   * ignored); an unknown magic gives 0.
   */
  lemma ImageSizeIsSum(info: Header)
    ensures IsDsk(info) ==> ImageSize(info) == SizesBefore(info, Tracks(info))
    ensures IsEdsk(info) ==> ImageSize(info) == SizesBefore(info, Tracks(info) * Sides(info))
    ensures !IsDsk(info) && !IsEdsk(info) ==> ImageSize(info) == 0
  {
    MagicsDiffer(info);
    if IsDsk(info) {
      PlainSizesBefore(info, Tracks(info));
    }
  }

  /** No header carries both magics: they differ in their first byte. */
  lemma MagicsDiffer(info: Header)
    ensures IsDsk(info) ==> info[0] == 'M' as int
    ensures IsEdsk(info) ==> info[0] == 'E' as int
    ensures !(IsDsk(info) && IsEdsk(info))
  {
    if IsDsk(info) {
      assert info[..8][0] == DskMagic()[0];
    }
    if IsEdsk(info) {
      assert info[..21][0] == EdskMagic()[0];
    }
  }

  // Fields of the track header that starts at `off`.
  function TrackNumberAt(img: seq<byte>, off: nat): byte { At(img, off + TI_TRACK_NUMBER) }
  function SideNumberAt(img: seq<byte>, off: nat): byte { At(img, off + TI_SIDE_NUMBER) }
  function SectorSizeAt(img: seq<byte>, off: nat): byte { At(img, off + TI_SECTOR_SIZE) }
  function SectorCountAt(img: seq<byte>, off: nat): byte { At(img, off + TI_SECTOR_COUNT) }
  function SectorIdAt(img: seq<byte>, off: nat, k: nat): byte { At(img, off + DescriptorField(k, SI_SECTOR_ID)) }
  function SizeCodeAt(img: seq<byte>, off: nat, k: nat): byte { At(img, off + DescriptorField(k, SI_SIZE)) }

  /** `128 << size`: the byte size of a sector with size code `code`. */
  function SectorBytes(code: byte): nat { 128 * Pow2(code) }

  /** is_track_in_offset: the 13-byte track magic sits at `off`. */
  predicate MagicAt(img: seq<byte>, off: nat)
  {
    off + 13 <= |img| && img[off..off + 13] == TrackMagic()
  }

  /**
   * The loop of first_sector_id over the first n descriptors of the track at
   * `off`: the smallest sector id, starting from 0xFF.
   */
  function MinSectorId(img: seq<byte>, off: nat, n: nat): byte
  {
    if n == 0 then 0xFF
    else
      var m := MinSectorId(img, off, n - 1);
      var id := SectorIdAt(img, off, n - 1);
      if id < m then id else m
  }

  /**
   * The loop's result is 0xFF for no descriptors and otherwise the id of one
   * of them, and no listed id is smaller.
   */
  lemma {:induction false} MinSectorIdIsMinimum(img: seq<byte>, off: nat, n: nat)
    ensures forall k :: 0 <= k < n ==> MinSectorId(img, off, n) <= SectorIdAt(img, off, k)
    ensures n == 0 ==> MinSectorId(img, off, n) == 0xFF
    ensures n > 0 ==> exists k :: 0 <= k < n && MinSectorId(img, off, n) == SectorIdAt(img, off, k)
  {
    if n > 0 {
      MinSectorIdIsMinimum(img, off, n - 1);
      if n > 1 && SectorIdAt(img, off, n - 1) >= MinSectorId(img, off, n - 1) {
        var k :| 0 <= k < n - 1 && MinSectorId(img, off, n - 1) == SectorIdAt(img, off, k);
        assert MinSectorId(img, off, n) == SectorIdAt(img, off, k);
      }
    }
  }

  /** first_sector_id: the minimum sector id among track 0's descriptors. */
  function FirstSectorIdOf(info: Header, img: seq<byte>): byte
  {
    var off := TrackOffset(info, 0);
    MinSectorId(img, off, SectorCountAt(img, off))
  }

  /** base_track_index: the reserved-track count implied by the first sector id. */
  function BaseTrackOf(firstId: byte): byte
  {
    if firstId == BASE_SECTOR_IBM then 1
    else if firstId == BASE_SECTOR_SYS then 2
    else 0
  }

  /** sectors_per_track: the sector count of track 0. */
  function SectorsPerTrackOf(info: Header, img: seq<byte>): byte
  {
    SectorCountAt(img, TrackOffset(info, 0))
  }

  /**
   * The index, among the first n descriptors of the track at `off`, of the
   * first one carrying sector id `id`.
   */
  function FindSector(img: seq<byte>, off: nat, id: byte, n: nat): Option<nat>
  {
    if n == 0 then None
    else
      match FindSector(img, off, id, n - 1)
      case Some(k) => Some(k)
      case None => if SectorIdAt(img, off, n - 1) == id then Some(n - 1) else None
  }

  /** FindSector finds the first descriptor with the id, and None means no descriptor has it. */
  lemma {:induction false} FindSectorIsFirst(img: seq<byte>, off: nat, id: byte, n: nat)
    ensures var r := FindSector(img, off, id, n);
      r.Some? ==> r.value < n && SectorIdAt(img, off, r.value) == id &&
                  forall j :: 0 <= j < r.value ==> SectorIdAt(img, off, j) != id
    ensures FindSector(img, off, id, n).None? <==> forall j :: 0 <= j < n ==> SectorIdAt(img, off, j) != id
  {
    if n > 0 {
      FindSectorIsFirst(img, off, id, n - 1);
    }
  }

  /** The payload bytes of the first k sectors listed in the track at `off`. */
  function SectorBytesBefore(img: seq<byte>, off: nat, k: nat): nat
  {
    if k == 0 then 0 else SectorBytesBefore(img, off, k - 1) + SectorBytes(SizeCodeAt(img, off, k - 1))
  }

  /**
   * get_sector_offset_in_track: the track header (256 bytes) plus the sizes
   * of the sectors listed before the first one with id `id`; 0 when no
   * descriptor carries that id.
   */
  function SectorOffsetInTrack(img: seq<byte>, off: nat, id: byte): nat
  {
    match FindSector(img, off, id, SectorCountAt(img, off))
    case Some(k) => TRACK_HEADER_SIZE + SectorBytesBefore(img, off, k)
    case None => 0
  }

  /** A first match within n descriptors is the first match within any larger bound. */
  lemma {:induction false} FindSectorFirst(img: seq<byte>, off: nat, id: byte, i: nat, n: nat)
    requires i < n && FindSector(img, off, id, i) == None && SectorIdAt(img, off, i) == id
    ensures FindSector(img, off, id, n) == Some(i)
  {
    if n > i + 1 {
      FindSectorFirst(img, off, id, i, n - 1);
    }
  }

  /** The in-track offset of a sector is 0 exactly when its id is not listed, and then at least 256. */
  lemma SectorOffsetInTrackFound(img: seq<byte>, off: nat, id: byte)
    ensures SectorOffsetInTrack(img, off, id) == 0 <==>
      forall j :: 0 <= j < SectorCountAt(img, off) ==> SectorIdAt(img, off, j) != id
    ensures SectorOffsetInTrack(img, off, id) != 0 ==> SectorOffsetInTrack(img, off, id) >= TRACK_HEADER_SIZE
  {
    var r := FindSector(img, off, id, SectorCountAt(img, off));
    FindSectorIsFirst(img, off, id, SectorCountAt(img, off));
    if r.Some? {
      assert SectorIdAt(img, off, r.value) == id;
    }
  }

  // ---------------------------------------------------------------------
  // The table of track-header views (dsk->track_info). A track's entry is
  // filled the first time dsk_get_track_info finds its magic, and from then
  // on the view is returned without looking at the image again. The view
  // stored is always the image at the track's offset, which depends only on
  // the disk header, so the model records which entries are filled.

  type Cache = seq<bool>

  /** What dsk_get_track_info(t) returns: the track's offset, or None for NULL. */
  function View(info: Header, img: seq<byte>, cache: Cache, t: byte): Option<nat>
  {
    if t < Tracks(info) && t < |cache| && (cache[t] || MagicAt(img, TrackOffset(info, t)))
    then Some(TrackOffset(info, t))
    else None
  }

  /** The cache after dsk_get_track_info(t): a track with valid magic gets its view. */
  function Cached(info: Header, img: seq<byte>, cache: Cache, t: nat): (r: Cache)
    ensures |r| == |cache|
  {
    if t < Tracks(info) && t < |cache| && !cache[t] && MagicAt(img, TrackOffset(info, t))
    then cache[t := true]
    else cache
  }

  /** The cache after dsk_get_track_info has been called on tracks 0, 1, ..., n-1. */
  function Touch(info: Header, img: seq<byte>, cache: Cache, n: nat): (r: Cache)
    ensures |r| == |cache|
  {
    if n == 0 then cache else Cached(info, img, Touch(info, img, cache, n - 1), n - 1)
  }

  /** Entry i of the cache once tracks 0..n-1 have been looked up. */
  predicate TouchedEntry(info: Header, img: seq<byte>, cache: Cache, n: nat, i: nat)
    requires i < |cache|
  {
    cache[i] || (i < n && i < Tracks(info) && MagicAt(img, TrackOffset(info, i)))
  }

  /** Looking tracks 0..n-1 up fills in exactly the unfilled ones among them that carry the magic. */
  lemma {:induction false} TouchAt(info: Header, img: seq<byte>, cache: Cache, n: nat)
    ensures forall i :: 0 <= i < |cache| ==> Touch(info, img, cache, n)[i] == TouchedEntry(info, img, cache, n, i)
  {
    if n > 0 {
      TouchAt(info, img, cache, n - 1);
    }
  }

  /**
   * The cache only ever gains entries, each for a track whose magic was
   * present, so looking tracks up never changes what a later lookup returns
   * while the image is unchanged.
   */
  lemma CachedKeepsViews(info: Header, img: seq<byte>, cache: Cache, u: nat, t: byte)
    ensures View(info, img, Cached(info, img, cache, u), t) == View(info, img, cache, t)
  {
  }

  lemma TouchKeepsViews(info: Header, img: seq<byte>, cache: Cache, n: nat, t: byte)
    ensures View(info, img, Touch(info, img, cache, n), t) == View(info, img, cache, t)
  {
    TouchAt(info, img, cache, n);
  }

  /** Looking up a track a second time leaves the cache as it is. */
  lemma CachedTwice(info: Header, img: seq<byte>, cache: Cache, t: nat)
    ensures Cached(info, img, Cached(info, img, cache, t), t) == Cached(info, img, cache, t)
  {
  }

  /** Scanning tracks 0..a-1 and then 0..b-1 is scanning 0..max(a, b)-1. */
  lemma TouchTwice(info: Header, img: seq<byte>, cache: Cache, a: nat, b: nat)
    ensures Touch(info, img, Touch(info, img, cache, a), b) == Touch(info, img, cache, Max(a, b))
  {
    var c1 := Touch(info, img, cache, a);
    TouchAt(info, img, cache, a);
    TouchAt(info, img, c1, b);
    TouchAt(info, img, cache, Max(a, b));
    assert Touch(info, img, c1, b) == Touch(info, img, cache, Max(a, b));
  }

  // ---------------------------------------------------------------------
  // Logical sectors (get_block_offset).

  /** The track holding logical sector n: base track + n / sectors-per-track, in uint8_t. */
  function LogicalTrack(info: Header, img: seq<byte>, n: byte): byte
    requires SectorsPerTrackOf(info, img) > 0
  {
    (BaseTrackOf(FirstSectorIdOf(info, img)) + n / SectorsPerTrackOf(info, img)) % 256
  }

  /** The sector id of logical sector n: first id + n mod sectors-per-track, in uint8_t. */
  function LogicalSectorId(info: Header, img: seq<byte>, n: byte): byte
    requires SectorsPerTrackOf(info, img) > 0
  {
    (FirstSectorIdOf(info, img) + n % SectorsPerTrackOf(info, img)) % 256
  }

  /**
   * get_block_offset: the offset of logical sector n inside the image, or 0
   * when its track has no valid header. Track 0 listing no sector is a
   * division by zero in C; the model gives 0 then.
   */
  function BlockOffset(info: Header, img: seq<byte>, cache: Cache, n: byte): nat
  {
    if SectorsPerTrackOf(info, img) == 0 then 0
    else
      var t := LogicalTrack(info, img, n);
      if View(info, img, cache, t).Some? then
        SizesBefore(info, t) + SectorOffsetInTrack(img, TrackOffset(info, t), LogicalSectorId(info, img, n))
      else 0
  }

  /** The cache after get_block_offset(n). */
  function BlockOffsetCache(info: Header, img: seq<byte>, cache: Cache, n: byte): Cache
  {
    var c0 := Cached(info, img, cache, 0);
    if SectorsPerTrackOf(info, img) == 0 then c0
    else Cached(info, img, c0, LogicalTrack(info, img, n))
  }

  /**
   * Logical sector n sits in track base + n / spt at the position of sector
   * id first + n mod spt: the prefix sum of the track sizes the C loop adds
   * up is that track's offset.
   */
  lemma BlockOffsetIsTrackPlusSector(info: Header, img: seq<byte>, cache: Cache, n: byte)
    requires SectorsPerTrackOf(info, img) > 0
    ensures var t := LogicalTrack(info, img, n);
      BlockOffset(info, img, cache, n) ==
        if View(info, img, cache, t).Some? then
          TrackOffset(info, t) + SectorOffsetInTrack(img, TrackOffset(info, t), LogicalSectorId(info, img, n))
        else 0
  {
    TrackOffsetIsPrefixSum(info, LogicalTrack(info, img, n));
  }

  // ---------------------------------------------------------------------
  // (track, side, sector id) addressing (get_sector_offset).

  /** The first of tracks 0..n-1 whose header carries this track and side number. */
  function FindTrack(info: Header, img: seq<byte>, track: byte, side: byte, n: nat): (r: Option<nat>)
    requires n <= Tracks(info)
    ensures r.Some? ==> r.value < n
  {
    if n == 0 then None
    else
      match FindTrack(info, img, track, side, n - 1)
      case Some(i) => Some(i)
      case None => if TrackMatches(info, img, track, side, n - 1) then Some(n - 1) else None
  }

  predicate TrackMatches(info: Header, img: seq<byte>, track: byte, side: byte, i: nat)
    requires i < 256
  {
    var off := TrackOffset(info, i);
    TrackNumberAt(img, off) == track && SideNumberAt(img, off) == side
  }

  /**
   * get_sector_offset: the sizes of the tracks scanned before the first one
   * numbered (track, side), plus the sector's offset inside it; when no track
   * matches, the sizes of all `tracks` tracks scanned.
   */
  function SectorOffset(info: Header, img: seq<byte>, track: byte, side: byte, id: byte): nat
  {
    match FindTrack(info, img, track, side, Tracks(info))
    case Some(i) => SizesBefore(info, i) + SectorOffsetInTrack(img, TrackOffset(info, i), id)
    case None => SizesBefore(info, Tracks(info))
  }

  /** FindTrack finds the first matching track, and None means no track of the n matches. */
  lemma {:induction false} FindTrackIsFirst(info: Header, img: seq<byte>, track: byte, side: byte, n: nat)
    requires n <= Tracks(info)
    ensures var r := FindTrack(info, img, track, side, n);
      r.Some? ==> TrackMatches(info, img, track, side, r.value) &&
                  forall j :: 0 <= j < r.value ==> !TrackMatches(info, img, track, side, j)
    ensures FindTrack(info, img, track, side, n).None? <==>
      forall j :: 0 <= j < n ==> !TrackMatches(info, img, track, side, j)
  {
    if n > 0 {
      FindTrackIsFirst(info, img, track, side, n - 1);
    }
  }

  /** One step of the get_sector_offset scan, past tracks that did not match. */
  lemma ScanStep(info: Header, img: seq<byte>, track: byte, side: byte, id: byte, i: nat)
    requires i < Tracks(info) && FindTrack(info, img, track, side, i) == None
    ensures TrackMatches(info, img, track, side, i) ==>
      ScanEnd(info, img, track, side) == i + 1 &&
      SectorOffset(info, img, track, side, id) == SizesBefore(info, i) + SectorOffsetInTrack(img, TrackOffset(info, i), id)
    ensures !TrackMatches(info, img, track, side, i) ==> FindTrack(info, img, track, side, i + 1) == None
    ensures !TrackMatches(info, img, track, side, i) && i + 1 == Tracks(info) ==>
      ScanEnd(info, img, track, side) == Tracks(info) &&
      SectorOffset(info, img, track, side, id) == SizesBefore(info, Tracks(info))
  {
    FindTrackFirst(info, img, track, side, i, Tracks(info));
  }

  /** A first match within n tracks is the first match within any larger bound. */
  lemma {:induction false} FindTrackFirst(info: Header, img: seq<byte>, track: byte, side: byte, i: nat, n: nat)
    requires i < n <= Tracks(info) && FindTrack(info, img, track, side, i) == None
    ensures TrackMatches(info, img, track, side, i) ==> FindTrack(info, img, track, side, n) == Some(i)
    ensures !TrackMatches(info, img, track, side, i) ==> FindTrack(info, img, track, side, i + 1) == None
  {
    if n > i + 1 {
      FindTrackFirst(info, img, track, side, i, n - 1);
    }
  }

  /** How many tracks get_sector_offset looks at. */
  function ScanEnd(info: Header, img: seq<byte>, track: byte, side: byte): nat
  {
    match FindTrack(info, img, track, side, Tracks(info))
    case Some(i) => i + 1
    case None => Tracks(info)
  }

  // ---------------------------------------------------------------------
  // The directory (dsk_get_dir_entry).

  /** The directory starts on the first non-reserved track, side 0. */
  function DirTrack(info: Header, img: seq<byte>): byte
  {
    BaseTrackOf(FirstSectorIdOf(info, img))
  }

  /** Entry `index` lives in the sector with id first + index / 16 (uint8_t). */
  function DirSectorId(info: Header, img: seq<byte>, index: nat): byte
  {
    (FirstSectorIdOf(info, img) + index / 16) % 256
  }

  /** The image offset of directory entry `index`. */
  function DirOffset(info: Header, img: seq<byte>, index: nat): nat
  {
    SectorOffset(info, img, DirTrack(info, img), 0, DirSectorId(info, img, index)) + (index % 16) * DIR_ENTRY_SIZE
  }

  /** Directory entry `index` as read from the image. */
  function EntryAt(info: Header, img: seq<byte>, index: nat): (e: DirEntry)
    ensures e.WellSized()
  {
    ParseDirEntry(Slice(img, DirOffset(info, img, index), DIR_ENTRY_SIZE))
  }

  /** The cache after one (or more) directory-entry lookups on an unchanged image. */
  function DirCache(info: Header, img: seq<byte>, cache: Cache): Cache
  {
    Touch(info, img, cache, Max(1, ScanEnd(info, img, DirTrack(info, img), 0)))
  }

  /** A directory lookup after another sees the same cache. */
  lemma DirCacheIdempotent(info: Header, img: seq<byte>, cache: Cache)
    ensures DirCache(info, img, DirCache(info, img, cache)) == DirCache(info, img, cache)
    ensures DirCache(info, img, Cached(info, img, cache, 0)) == DirCache(info, img, cache)
  {
    var e := Max(1, ScanEnd(info, img, DirTrack(info, img), 0));
    TouchTwice(info, img, cache, e, e);
    assert Touch(info, img, cache, 1) == Cached(info, img, cache, 0);
    TouchTwice(info, img, cache, 1, e);
  }

  /** A directory lookup has looked track 0 up, so a further dsk_get_info leaves the cache as it is. */
  lemma DirCacheCoversTrackZero(info: Header, img: seq<byte>, cache: Cache)
    ensures Cached(info, img, DirCache(info, img, cache), 0) == DirCache(info, img, cache)
  {
    var e := Max(1, ScanEnd(info, img, DirTrack(info, img), 0));
    var d := Touch(info, img, cache, e);
    assert Touch(info, img, d, 1) == Cached(info, img, d, 0);
    TouchTwice(info, img, cache, e, 1);
  }

  /** Entries 16k..16k+15 share a sector and sit 32 bytes apart in it. */
  lemma DirEntriesOfOneSector(info: Header, img: seq<byte>, index: nat)
    requires index % 16 < 15
    ensures DirOffset(info, img, index + 1) == DirOffset(info, img, index) + DIR_ENTRY_SIZE
  {
    assert (index + 1) / 16 == index / 16;
    assert (index + 1) % 16 == index % 16 + 1;
  }

  /** is_dir_entry_deleted */
  predicate IsDeleted(e: DirEntry) { e.user == AMSDOS_USER_DELETED }

  /** The 64 directory entries as read from the image. */
  function Directory(info: Header, img: seq<byte>): (d: seq<DirEntry>)
    ensures |d| == NUM_DIRENT
    ensures forall i :: 0 <= i < NUM_DIRENT ==> d[i] == EntryAt(info, img, i)
  {
    seq(NUM_DIRENT, i requires 0 <= i < NUM_DIRENT => EntryAt(info, img, i))
  }

  /** Sum of record counts of the non-deleted entries among the first n (dsk_get_used_blocks). */
  function UsedRecords(entries: seq<DirEntry>, n: nat): nat
    requires n <= |entries|
  {
    if n == 0 then 0
    else UsedRecords(entries, n - 1) + (if IsDeleted(entries[n - 1]) then 0 else entries[n - 1].recordCount)
  }

  /** Sum over tracks 0..n-1 of sector count times size code (dsk_get_total_blocks). */
  function TotalBlocks(info: Header, img: seq<byte>, n: nat): nat
    requires n <= Tracks(info)
  {
    if n == 0 then 0
    else
      TotalBlocks(info, img, n - 1) + TrackBlocks(img, TrackOffset(info, n - 1))
  }

  /** A track's contribution to dsk_get_total_blocks. */
  function TrackBlocks(img: seq<byte>, off: nat): nat
  {
    SectorCountAt(img, off) * SectorSizeAt(img, off)
  }

  // ---------------------------------------------------------------------
  // dir_entry_get_size: file size from a run of directory slots.

  /** The first slot after `index` whose extent_low is 0, or the end. */
  function RunEnd(entries: seq<DirEntry>, index: nat): (r: nat)
    requires index < |entries|
    ensures index < r <= |entries|
    ensures forall j :: index < j < r ==> entries[j].extentLow != 0
    ensures r < |entries| ==> entries[r].extentLow == 0
    decreases |entries| - index
  {
    if index + 1 == |entries| || entries[index + 1].extentLow == 0 then index + 1
    else RunEnd(entries, index + 1)
  }

  /** Record counts of the slots in [from, to) that belong to `user`. */
  function UserRecords(entries: seq<DirEntry>, from: nat, to: nat, user: byte): nat
    requires from <= to <= |entries|
  {
    if from == to then 0
    else UserRecords(entries, from, to - 1, user) + (if entries[to - 1].user == user then entries[to - 1].recordCount else 0)
  }

  /**
   * dir_entry_get_size: 128 bytes per record over the start slot and the
   * following slots while their extent_low is non-zero, counting only the
   * slots of the start slot's user. The C reads slot 64 before testing the
   * bound, so the run must end inside the directory.
   */
  method DirEntryGetSize(entries: seq<DirEntry>, index: nat) returns (size: nat)
    requires |entries| == NUM_DIRENT && index < NUM_DIRENT
    requires RunEnd(entries, index) < NUM_DIRENT
    ensures size == RECORD_SIZE * UserRecords(entries, index, RunEnd(entries, index), entries[index].user)
  {
    var blocks := 0;
    var fileUser := entries[index].user;
    var lookahead := index;
    ghost var stop := RunEnd(entries, index);
    while true
      invariant index <= lookahead < stop
      invariant blocks == UserRecords(entries, index, lookahead, fileUser)
      decreases stop - lookahead
    {
      if entries[lookahead].user == fileUser {
        blocks := blocks + entries[lookahead].recordCount;
      }
      lookahead := lookahead + 1;
      if !(entries[lookahead].extentLow != 0 && lookahead < NUM_DIRENT) {
        break;
      }
    }
    size := blocks * RECORD_SIZE;
  }

  /**
   * One disk image held in memory (dsk_type): the header, the track data and
   * the view table, with one entry per track.
   */
  class Disk {
    const info: Header
    const image: array<byte>
    const cache: array<bool>

    ghost predicate Valid()
      reads this, cache
    {
      cache.Length == Tracks(info)
    }

    /** A loaded image (dsk_new): nothing is cached yet. */
    constructor (header: Header, data: seq<byte>)
      ensures Valid()
      ensures info == header && image[..] == data
      ensures cache[..] == seq(Tracks(header), _ => false)
      ensures fresh(image) && fresh(cache)
    {
      info := header;
      image := new byte[|data|](i requires 0 <= i < |data| => data[i]);
      cache := new bool[Tracks(header)](_ => false);
    }

    method GetImageSize() returns (size: nat)
      ensures size == ImageSize(info)
    {
      if IsDsk(info) {
        size := Tracks(info) * TrackSize(info, 0);
      } else if IsEdsk(info) {
        size := 0;
        var trackCount := Tracks(info) * Sides(info);
        var i := 0;
        while i < trackCount
          invariant 0 <= i <= trackCount
          invariant size == SizesBefore(info, i)
        {
          size := size + TrackSize(info, i % 256);
          i := i + 1;
        }
      } else {
        size := 0;
      }
    }

    method GetTrackOffset(track: byte) returns (offset: nat)
      ensures offset == TrackOffset(info, track)
    {
      if IsDsk(info) {
        offset := TrackSize(info, 0) * track;
      } else if IsEdsk(info) {
        offset := 0;
        var i := 0;
        while i < track
          invariant 0 <= i <= track
          invariant offset == SizesBefore(info, i)
        {
          SizesBeforeStep(info, i);
          offset := offset + TrackSize(info, i);
          i := i + 1;
        }
      } else {
        offset := 0;
      }
    }

    /**
     * dsk_get_track_info: None for a track index beyond `tracks` or when the
     * track magic is missing at the track's offset; otherwise the view, which
     * is cached so that later calls return it without checking again.
     */
    method GetTrackInfo(track: byte) returns (view: Option<nat>)
      requires Valid()
      modifies cache
      ensures Valid()
      ensures view == View(info, image[..], old(cache[..]), track)
      ensures view.Some? ==> view.value == TrackOffset(info, track)
      ensures cache[..] == Cached(info, image[..], old(cache[..]), track)
    {
      if track < Tracks(info) {
        if !cache[track] {
          var offset := GetTrackOffset(track);
          if MagicAt(image[..], offset) {
            cache[track] := true;
          } else {
            view := None;
            return;
          }
        }
        // The stored view: the image at the track's offset.
        view := Some(TrackOffset(info, track));
      } else {
        view := None;
      }
    }

    method SectorsPerTrack() returns (n: byte)
      requires Valid()
      modifies cache
      ensures Valid()
      ensures n == SectorsPerTrackOf(info, image[..])
      ensures cache[..] == Cached(info, image[..], old(cache[..]), 0)
    {
      var track0 := GetTrackInfo(0);
      n := SectorCountAt(image[..], TrackOffset(info, 0));
    }

    method FirstSectorId() returns (min: byte)
      requires Valid()
      modifies cache
      ensures Valid()
      ensures min == FirstSectorIdOf(info, image[..])
      ensures cache[..] == Cached(info, image[..], old(cache[..]), 0)
    {
      var track0 := GetTrackInfo(0);
      var off := TrackOffset(info, 0);
      var count := SectorCountAt(image[..], off);
      min := 0xFF;
      var i := 0;
      while i < count
        invariant 0 <= i <= count
        invariant min == MinSectorId(image[..], off, i)
      {
        var id := SectorIdAt(image[..], off, i);
        if id < min {
          min := id;
        }
        i := i + 1;
      }
    }

    method BaseTrackIndex() returns (base: byte)
      requires Valid()
      modifies cache
      ensures Valid()
      ensures base == DirTrack(info, image[..])
      ensures cache[..] == Cached(info, image[..], old(cache[..]), 0)
    {
      var minSectorId := FirstSectorId();
      if minSectorId == BASE_SECTOR_IBM {
        base := 1;
      } else if minSectorId == BASE_SECTOR_SYS {
        base := 2;
      } else {
        base := 0;
      }
    }

    method GetSectorOffsetInTrack(track: nat, sectorId: byte) returns (offset: nat)
      ensures offset == SectorOffsetInTrack(image[..], track, sectorId)
    {
      offset := 0;
      var count := SectorCountAt(image[..], track);
      var i := 0;
      while i < count
        invariant 0 <= i <= count
        invariant FindSector(image[..], track, sectorId, i) == None
        invariant offset == SectorBytesBefore(image[..], track, i)
      {
        if SectorIdAt(image[..], track, i) == sectorId {
          FindSectorFirst(image[..], track, sectorId, i, count);
          offset := offset + TRACK_HEADER_SIZE;
          return;
        } else {
          offset := offset + SectorBytes(SizeCodeAt(image[..], track, i));
        }
        i := i + 1;
      }
      return 0;
    }

    method GetBlockOffset(sector: byte) returns (offset: nat)
      requires Valid()
      modifies cache
      ensures Valid()
      ensures offset == BlockOffset(info, image[..], old(cache[..]), sector)
      ensures cache[..] == BlockOffsetCache(info, image[..], old(cache[..]), sector)
    {
      ghost var c0 := cache[..];
      var trackIndex := BaseTrackIndex();
      var sectorsInTrack := SectorsPerTrack();
      CachedTwice(info, image[..], c0, 0);
      if sectorsInTrack == 0 {
        // A division by zero in C.
        return 0;
      }
      trackIndex := (trackIndex + sector / sectorsInTrack) % 256;
      var sectorId := FirstSectorId();
      CachedTwice(info, image[..], c0, 0);
      sectorId := (sectorId + sector % sectorsInTrack) % 256;
      offset := 0;
      var i := 0;
      while i < trackIndex
        invariant 0 <= i <= trackIndex
        invariant offset == SizesBefore(info, i)
        invariant cache[..] == Cached(info, image[..], c0, 0)
      {
        SizesBeforeStep(info, i);
        offset := offset + TrackSize(info, i);
        i := i + 1;
      }
      assert trackIndex == LogicalTrack(info, image[..], sector);
      assert sectorId == LogicalSectorId(info, image[..], sector);
      var track := GetTrackInfo(trackIndex);
      CachedKeepsViews(info, image[..], c0, 0, trackIndex);
      if track.Some? {
        var inTrack := GetSectorOffsetInTrack(track.value, sectorId);
        offset := offset + inTrack;
      } else {
        offset := 0;
      }
    }

    method GetSectorOffset(trackId: byte, side: byte, sectorId: byte) returns (offset: nat)
      requires Valid()
      modifies cache
      ensures Valid()
      ensures offset == SectorOffset(info, image[..], trackId, side, sectorId)
      ensures cache[..] == Touch(info, image[..], old(cache[..]), ScanEnd(info, image[..], trackId, side))
    {
      ghost var c0 := cache[..];
      ghost var img := image[..];
      offset := 0;
      var i := 0;
      while i < Tracks(info)
        invariant 0 <= i <= Tracks(info)
        invariant Valid()
        invariant FindTrack(info, img, trackId, side, i) == None
        invariant offset == SizesBefore(info, i)
        invariant cache[..] == Touch(info, img, c0, i)
      {
        var track := GetTrackInfo(i);
        ScanStep(info, img, trackId, side, sectorId, i);
        if TrackMatches(info, image[..], trackId, side, i) {
          var inTrack := GetSectorOffsetInTrack(TrackOffset(info, i), sectorId);
          offset := offset + inTrack;
          return;
        } else {
          SizesBeforeStep(info, i);
          offset := offset + TrackSize(info, i);
        }
        i := i + 1;
      }
    }

    /**
     * dsk_get_dir_entry: None for an index of 64 or more; otherwise the 32
     * bytes at the entry's offset in sector first + index / 16 of the
     * directory track, side 0.
     */
    method GetDirEntry(index: nat) returns (entry: Option<DirEntry>)
      requires Valid()
      modifies cache
      ensures Valid()
      ensures index >= NUM_DIRENT ==> entry.None? && cache[..] == old(cache[..])
      ensures index < NUM_DIRENT ==> entry == Some(EntryAt(info, image[..], index)) &&
                                     cache[..] == DirCache(info, image[..], old(cache[..]))
    {
      if index < NUM_DIRENT {
        ghost var c0 := cache[..];
        var sectorId := FirstSectorId();
        sectorId := (sectorId + index / 16) % 256;
        var track := BaseTrackIndex();
        CachedTwice(info, image[..], c0, 0);
        var offset := GetSectorOffset(track, 0, sectorId);
        assert Touch(info, image[..], c0, 1) == Cached(info, image[..], c0, 0);
        TouchTwice(info, image[..], c0, 1, ScanEnd(info, image[..], track, 0));
        offset := offset + (index % 16) * DIR_ENTRY_SIZE;
        assert offset == DirOffset(info, image[..], index) by {
          assert sectorId == DirSectorId(info, image[..], index);
          assert track == DirTrack(info, image[..]);
        }
        entry := Some(ParseDirEntry(Slice(image[..], offset, DIR_ENTRY_SIZE)));
      } else {
        entry := None;
      }
    }

    /** dsk_get_total_blocks: sector count times size code, summed over the tracks. */
    method GetTotalBlocks() returns (blocks: nat)
      requires Valid()
      modifies cache
      ensures Valid()
      ensures blocks == TotalBlocks(info, image[..], Tracks(info))
      ensures cache[..] == Touch(info, image[..], old(cache[..]), Tracks(info))
    {
      ghost var c0 := cache[..];
      blocks := 0;
      var i := 0;
      while i < Tracks(info)
        invariant 0 <= i <= Tracks(info)
        invariant Valid()
        invariant blocks == TotalBlocks(info, image[..], i)
        invariant cache[..] == Touch(info, image[..], c0, i)
      {
        var track := GetTrackInfo(i);
        var off := TrackOffset(info, i);
        blocks := blocks + TrackBlocks(image[..], off);
        i := i + 1;
      }
    }

    /** dsk_get_used_blocks: the record counts of the non-deleted entries, summed. */
    method GetUsedBlocks() returns (blocks: nat)
      requires Valid()
      modifies cache
      ensures Valid()
      ensures blocks == UsedRecords(Directory(info, image[..]), NUM_DIRENT)
      ensures cache[..] == DirCache(info, image[..], old(cache[..]))
    {
      ghost var c0 := cache[..];
      ghost var scanned := DirCache(info, image[..], c0);
      ghost var dir := Directory(info, image[..]);
      DirCacheIdempotent(info, image[..], c0);
      blocks := 0;
      var i := 0;
      while i < NUM_DIRENT
        invariant 0 <= i <= NUM_DIRENT
        invariant blocks == UsedRecords(dir, i)
        invariant i == 0 ==> cache[..] == c0
        invariant i > 0 ==> cache[..] == scanned
      {
        var entry := GetDirEntry(i);
        assert entry.value == dir[i];
        if !IsDeleted(entry.value) {
          blocks := blocks + entry.value.recordCount;
        }
        i := i + 1;
      }
    }

    /** A `memcpy` of `data` into the image at `offset`; one that would overrun the image is skipped. */
    method WriteBytes(offset: nat, data: seq<byte>)
      modifies image
      ensures image[..] == Overwrite(old(image[..]), offset, data)
    {
      if offset + |data| <= image.Length {
        var k := 0;
        while k < |data|
          invariant 0 <= k <= |data|
          invariant forall j :: 0 <= j < image.Length && !(offset <= j < offset + k) ==> image[j] == old(image[j])
          invariant forall j :: 0 <= j < k ==> image[offset + j] == data[j]
        {
          image[offset + k] := data[k];
          k := k + 1;
        }
      }
    }

    /** dsk_read_sector: the 512 bytes at logical sector n's offset. */
    method ReadSector(n: byte) returns (data: seq<byte>)
      requires Valid()
      modifies cache
      ensures Valid()
      ensures data == Slice(image[..], BlockOffset(info, image[..], old(cache[..]), n), SECTOR_SIZE)
      ensures cache[..] == BlockOffsetCache(info, image[..], old(cache[..]), n)
    {
      var offset := GetBlockOffset(n);
      data := Slice(image[..], offset, SECTOR_SIZE);
    }

    /** dsk_write_sector: 512 bytes copied to logical sector n's offset. */
    method WriteSector(n: byte, data: seq<byte>)
      requires Valid() && |data| == SECTOR_SIZE
      modifies image, cache
      ensures Valid()
      ensures image[..] == Overwrite(old(image[..]), BlockOffset(info, old(image[..]), old(cache[..]), n), data)
      ensures cache[..] == BlockOffsetCache(info, old(image[..]), old(cache[..]), n)
    {
      var offset := GetBlockOffset(n);
      WriteBytes(offset, data);
    }
  }
}
