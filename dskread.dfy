/**
 * The image-building side of the raw-disk reader (src/dskread.c): the
 * in-memory track and disk headers it fills before writing an image, the
 * rotation that puts a track's lowest sector id first, and the order in
 * which tracks and sides are stored. The device commands and file writes
 * around them are not modelled.
 */
module DskRead {
  import opened Common
  import opened DskLayout
  import Dsk

  // Constants of src/common.h.
  const MAX_TRACKS: nat := 82
  const MAX_SIDES: nat := 2
  const DISK_MAGIC_SIZE: nat := 34
  const TRACK_MAGIC_SIZE: nat := 13
  const DEFAULT_SIZE_CODE: byte := 2
  const DEFAULT_GAP3: byte := 82
  const DEFAULT_FILLER: byte := 0xFF

  /** MAGIC_TRACK: "Track-Info", without the CR LF the container format adds. */
  function TrackInfoText(): (r: seq<byte>)
    ensures |r| == 10
  {
    [0x54, 0x72, 0x61, 0x63, 0x6B, 0x2D, 0x49, 0x6E, 0x66, 0x6F]
  }

  /** MAGIC_DISK_WRITE: "MV - CPCEMU / 27 Dec 01 01:11", the plain-image magic and a creator text. */
  function DiskWriteText(): (r: seq<byte>)
    ensures |r| == 29
  {
    DskMagic() + [0x45, 0x4D, 0x55, 0x20, 0x2F, 0x20,
                  0x32, 0x37, 0x20, 0x44, 0x65, 0x63, 0x20, 0x30, 0x31, 0x20, 0x30, 0x31, 0x3A, 0x31, 0x31]
  }

  /** The byte string spells the text. */
  lemma TrackInfoTextIsAscii()
    ensures TrackInfoText() == Ascii("Track-Info")
  {
  }

  /**
   * `strncpy(dst, src, n)` for a source without NUL bytes: the source's
   * first n bytes, padded with NULs up to n.
   */
  function StrNCopy(src: seq<byte>, n: nat): (r: seq<byte>)
    ensures |r| == n
  {
    if |src| >= n then src[..n] else src + Zeros(n - |src|)
  }

  lemma StrNCopyAt(src: seq<byte>, n: nat)
    ensures forall k :: 0 <= k < n ==> StrNCopy(src, n)[k] == (if k < |src| then src[k] else 0)
  {
  }

  /** A descriptor after `memset(…, 0, …)`. */
  const BLANK_SECTOR: SectorInfo := SectorInfo(0, 0, 0, 0, 0, 0, 0, 0)

  /** The bytes of consecutive descriptors, 8 each. */
  function DescriptorBytes(s: seq<SectorInfo>): (r: seq<byte>)
    ensures |r| == SECTOR_INFO_SIZE * |s|
  {
    if s == [] then [] else DescriptorBytes(s[..|s| - 1]) + SerializeSectorInfo(s[|s| - 1])
  }

  /** Field f of descriptor k sits at byte 8k + f. */
  lemma {:induction false} DescriptorBytesAt(s: seq<SectorInfo>, k: nat, f: nat)
    requires k < |s| && f < SECTOR_INFO_SIZE
    ensures DescriptorBytes(s)[SECTOR_INFO_SIZE * k + f] == SerializeSectorInfo(s[k])[f]
  {
    if k < |s| - 1 {
      DescriptorBytesAt(s[..|s| - 1], k, f);
      assert s[..|s| - 1][k] == s[k];
    }
  }

  /** Blank descriptors serialise as zero bytes. */
  lemma {:induction false} BlankDescriptorBytes(n: nat)
    ensures DescriptorBytes(seq(n, _ => BLANK_SECTOR)) == Zeros(SECTOR_INFO_SIZE * n)
  {
    if n > 0 {
      assert seq(n, _ => BLANK_SECTOR)[..n - 1] == seq(n - 1, _ => BLANK_SECTOR);
      BlankDescriptorBytes(n - 1);
      assert Zeros(SECTOR_INFO_SIZE * (n - 1)) + Zeros(SECTOR_INFO_SIZE) == Zeros(SECTOR_INFO_SIZE * n);
    }
  }

  // ---------------------------------------------------------------------
  // The track header, Trackinfo.

  /**
   * The 256 bytes init_trackinfo leaves: the zero-padded magic, the track
   * and head numbers truncated to a byte, size code 2, no sectors, gap 82,
   * filler 0xFF, and zeros everywhere else.
   */
  function InitTrackHeader(track: int, side: int): (r: seq<byte>)
    ensures |r| == TRACK_HEADER_SIZE
  {
    StrNCopy(TrackInfoText(), TRACK_MAGIC_SIZE) + Zeros(3) + [track % 256, side % 256] + Zeros(2)
      + [DEFAULT_SIZE_CODE, 0, DEFAULT_GAP3, DEFAULT_FILLER]
      + Zeros(TI_SECTOR_SLOTS * SECTOR_INFO_SIZE)
  }

  /**
   * Read through the container's accessors, a fresh track header names
   * the given track and head, 512-byte sectors and no sectors at all; its
   * gap and filler are 82 and 0xFF and every descriptor slot is zero.
   */
  lemma InitTrackHeaderFields(track: int, side: int)
    ensures var h := InitTrackHeader(track, side);
      Dsk.TrackNumberAt(h, 0) == track % 256 && Dsk.SideNumberAt(h, 0) == side % 256 &&
      Dsk.SectorSizeAt(h, 0) == DEFAULT_SIZE_CODE && Dsk.SectorBytes(Dsk.SectorSizeAt(h, 0)) == SECTOR_SIZE &&
      Dsk.SectorCountAt(h, 0) == 0 && h[TI_GAP3_LENGTH] == DEFAULT_GAP3 && h[TI_GAP3_LENGTH + 1] == DEFAULT_FILLER
    ensures var h := InitTrackHeader(track, side);
      forall k :: TI_SECTOR_INFO <= k < TRACK_HEADER_SIZE ==> h[k] == 0
  {
    assert Dsk.SectorBytes(2) == 128 * Pow2(2);
  }

  /**
   * The magic init_trackinfo writes starts with the 10 bytes "Track-Info"
   * that the image writer compares, but is not the 13-byte
   * "Track-Info\r\n" the container's own track check asks for.
   */
  lemma InitTrackMagic(track: int, side: int)
    ensures InitTrackHeader(track, side)[..10] == TrackMagic()[..10]
    ensures !Dsk.MagicAt(InitTrackHeader(track, side), 0)
  {
    var h := InitTrackHeader(track, side);
    assert h[10] == 0 && TrackMagic()[10] == 0x0D;
    assert h[..13][10] == h[10];
  }

  /** The in-memory Trackinfo record, with its 29 descriptor slots. */
  class TrackInfo {
    var magic: seq<byte>
    var track: byte
    var head: byte
    var sizeCode: byte
    var sectorCount: byte
    var gap3: byte
    var filler: byte
    const sectors: array<SectorInfo>

    ghost predicate Valid()
      reads this
    {
      |magic| == TRACK_MAGIC_SIZE && sectors.Length == TI_SECTOR_SLOTS
    }

    /**
     * The record's 256 bytes in the layout of src/common.h; the unused
     * bytes are not fields of the model and read as 0.
     */
    function Bytes(): (r: seq<byte>)
      requires Valid()
      reads this, sectors
    {
      magic + Zeros(3) + [track, head] + Zeros(2) + [sizeCode, sectorCount, gap3, filler]
        + DescriptorBytes(sectors[..])
    }

    /** A record with blank fields (the declaration of one). */
    constructor()
      ensures Valid() && fresh(sectors)
      ensures Bytes() == Zeros(TRACK_HEADER_SIZE)
    {
      magic := Zeros(TRACK_MAGIC_SIZE);
      track, head, sizeCode, sectorCount, gap3, filler := 0, 0, 0, 0, 0, 0;
      sectors := new SectorInfo[TI_SECTOR_SLOTS](_ => BLANK_SECTOR);
      new;
      assert sectors[..] == seq(TI_SECTOR_SLOTS, _ => BLANK_SECTOR);
      BlankDescriptorBytes(TI_SECTOR_SLOTS);
    }

    /** init_trackinfo: clear the record, then set the defaults for a track. */
    method Init(trackNumber: int, side: int)
      requires Valid()
      modifies this, sectors
      ensures Valid()
      ensures magic == StrNCopy(TrackInfoText(), TRACK_MAGIC_SIZE)
      ensures track == trackNumber % 256 && head == side % 256
      ensures sizeCode == DEFAULT_SIZE_CODE && sectorCount == 0
      ensures gap3 == DEFAULT_GAP3 && filler == DEFAULT_FILLER
      ensures forall i :: 0 <= i < TI_SECTOR_SLOTS ==> sectors[i] == BLANK_SECTOR
      ensures Bytes() == InitTrackHeader(trackNumber, side)
    {
      forall i | 0 <= i < sectors.Length {
        sectors[i] := BLANK_SECTOR;
      }
      magic := StrNCopy(TrackInfoText(), TRACK_MAGIC_SIZE);
      track := trackNumber % 256;
      head := side % 256;
      sizeCode := DEFAULT_SIZE_CODE;
      sectorCount := 0;
      gap3 := DEFAULT_GAP3;
      filler := DEFAULT_FILLER;
      assert sectors[..] == seq(TI_SECTOR_SLOTS, _ => BLANK_SECTOR);
      BlankDescriptorBytes(TI_SECTOR_SLOTS);
    }

    /**
     * rotateleft_sectorids: the first spt descriptors are rotated left by
     * pos places, so descriptor i becomes the old descriptor (i + pos) mod
     * spt (RotatedLeftAt); the other slots stay.
     */
    method RotateLeft(pos: nat)
      requires Valid() && sectorCount as nat <= TI_SECTOR_SLOTS
      modifies sectors
      ensures sectors[..sectorCount] == RotatedLeft(old(sectors[..sectorCount]), pos)
      ensures forall i :: sectorCount <= i < TI_SECTOR_SLOTS ==> sectors[i] == old(sectors[i])
    {
      // the temporary copy of the 29 slots
      var saved := sectors[..];
      var spt := sectorCount as nat;
      ghost var target := RotatedLeft(saved[..spt], pos);
      for i := 0 to spt
        invariant forall j :: 0 <= j < i ==> sectors[j] == target[j]
        invariant forall j :: i <= j < TI_SECTOR_SLOTS ==> sectors[j] == saved[j]
      {
        RotatedLeftAtOne(saved[..spt], pos, i);
        sectors[i] := saved[(i + pos) % spt];
      }
      assert sectors[..spt] == target;
    }

    /**
     * The search loop of rotate_sectorids: the first index holding the
     * lowest sector id among the first spt descriptors (0 when there are
     * none). The record is not changed.
     */
    method LowestIndex() returns (pos: nat)
      requires Valid() && sectorCount as nat <= TI_SECTOR_SLOTS
      ensures pos == Lowest(sectors[..sectorCount]).1
      ensures sectorCount > 0 ==> (pos < sectorCount as nat &&
        (forall j :: 0 <= j < sectorCount ==> sectors[pos].sectorId <= sectors[j].sectorId) &&
        (forall j :: 0 <= j < pos ==> sectors[j].sectorId > sectors[pos].sectorId))
      ensures sectorCount == 0 ==> pos == 0
    {
      ghost var s := sectors[..sectorCount];
      var low := 0xFF;
      pos := 0;
      for i := 0 to sectorCount
        invariant low == Lowest(s[..i]).0 && pos == Lowest(s[..i]).1
      {
        LowestStep(s, i);
        var sector := sectors[i].sectorId;
        if sector < low {
          low := sector;
          pos := i;
        }
      }
      assert s[..sectorCount] == s;
      if sectorCount > 0 {
        LowestIsFirstMinimum(s);
      }
    }

    /**
     * rotate_sectorids: rotate so that the first of the lowest sector ids
     * among the first spt descriptors comes first.
     */
    method RotateToLowest()
      requires Valid() && sectorCount as nat <= TI_SECTOR_SLOTS
      modifies sectors
      ensures sectors[..sectorCount] == RotatedLeft(old(sectors[..sectorCount]), Lowest(old(sectors[..sectorCount])).1)
      ensures forall j :: 0 <= j < sectorCount ==> sectors[0].sectorId <= sectors[j].sectorId
      ensures forall i :: sectorCount <= i < TI_SECTOR_SLOTS ==> sectors[i] == old(sectors[i])
    {
      ghost var s := sectors[..sectorCount];
      var pos := LowestIndex();
      RotateLeft(pos);
      RotatedToLowest(s);
      ghost var r := RotatedLeft(s, pos);
      assert forall j :: 0 <= j < sectorCount ==> sectors[j] == r[j];
    }
  }

  // ---------------------------------------------------------------------
  // Rotation and the lowest sector id.

  /** s rotated left by pos places (the empty sequence stays empty). */
  function RotatedLeft<T>(s: seq<T>, pos: nat): (r: seq<T>)
    ensures |r| == |s|
  {
    if |s| == 0 then [] else s[pos % |s|..] + s[..pos % |s|]
  }

  /** Element i of the rotation is element (i + pos) mod |s| of s. */
  lemma RotatedLeftAt<T>(s: seq<T>, pos: nat)
    ensures forall i :: 0 <= i < |s| ==> RotatedLeft(s, pos)[i] == s[(i + pos) % |s|]
  {
    forall i | 0 <= i < |s|
      ensures RotatedLeft(s, pos)[i] == s[(i + pos) % |s|]
    {
      RotatedLeftAtOne(s, pos, i);
    }
  }

  lemma RotatedLeftAtOne<T>(s: seq<T>, pos: nat, i: nat)
    requires i < |s|
    ensures RotatedLeft(s, pos)[i] == s[(i + pos) % |s|]
  {
    RotateIndex(i, pos, |s|);
  }

  /** (i + pos) mod n is i + pos mod n, or that minus n once it reaches n. */
  lemma RotateIndex(i: nat, pos: nat, n: nat)
    requires i < n
    ensures i + pos % n < n ==> (i + pos) % n == i + pos % n
    ensures i + pos % n >= n ==> (i + pos) % n == i + pos % n - n
  {
    var q := pos / n;
    assert pos == q * n + pos % n;
    assert i + pos == q * n + (i + pos % n);
    if i + pos % n < n {
      ModOfMultiplePlus(q, n, i + pos % n);
    } else {
      assert i + pos == (q + 1) * n + (i + pos % n - n);
      ModOfMultiplePlus(q + 1, n, i + pos % n - n);
    }
  }

  /** A rotation is a permutation. */
  lemma RotatedLeftPermutes<T>(s: seq<T>, pos: nat)
    ensures multiset(RotatedLeft(s, pos)) == multiset(s)
  {
    if |s| > 0 {
      var p := pos % |s|;
      assert s == s[..p] + s[p..];
    }
  }

  /** Rotating by a multiple of the length changes nothing. */
  lemma RotatedLeftFull<T>(s: seq<T>, k: nat)
    ensures RotatedLeft(s, k * |s|) == s
  {
    if |s| > 0 {
      ModOfMultiplePlus(k, |s|, 0);
    }
  }

  /**
   * The loop of rotate_sectorids over the given descriptors: the lowest
   * id seen, starting from 0xFF, and the index where it was first seen
   * (0 when none is lower than 0xFF).
   */
  function Lowest(s: seq<SectorInfo>): (r: (int, nat))
  {
    if s == [] then (0xFF, 0)
    else
      var p := Lowest(s[..|s| - 1]);
      if s[|s| - 1].sectorId < p.0 then (s[|s| - 1].sectorId, |s| - 1) else p
  }

  /** One more descriptor: it becomes the lowest when it is below the lowest so far. */
  lemma LowestStep(s: seq<SectorInfo>, i: nat)
    requires i < |s|
    ensures Lowest(s[..i + 1]) == if s[i].sectorId < Lowest(s[..i]).0 then (s[i].sectorId, i) else Lowest(s[..i])
  {
    assert s[..i + 1][..i] == s[..i];
  }

  /**
   * For a non-empty list, Lowest gives the first index of a minimal
   * sector id, together with that id.
   */
  lemma {:induction false} LowestIsFirstMinimum(s: seq<SectorInfo>)
    requires |s| > 0
    ensures var (low, pos) := Lowest(s);
      pos < |s| && low == s[pos].sectorId &&
      (forall j :: 0 <= j < |s| ==> s[pos].sectorId <= s[j].sectorId) &&
      (forall j :: 0 <= j < pos ==> s[j].sectorId > s[pos].sectorId)
  {
    LowestBounds(s);
  }

  /**
   * The invariant of the loop: the lowest value is at most 0xFF and at
   * most every id seen; it is the id at pos when it is below 0xFF, and no
   * earlier id reaches it.
   */
  lemma {:induction false} LowestBounds(s: seq<SectorInfo>)
    ensures var (low, pos) := Lowest(s);
      low <= 0xFF && (forall j :: 0 <= j < |s| ==> low <= s[j].sectorId) &&
      (low < 0xFF ==> pos < |s| && low == s[pos].sectorId) &&
      (forall j :: 0 <= j < pos && j < |s| ==> s[j].sectorId > low) &&
      (low == 0xFF ==> pos == 0)
  {
    if s != [] {
      var t := s[..|s| - 1];
      LowestBounds(t);
      assert forall j :: 0 <= j < |t| ==> t[j] == s[j];
    }
  }

  /** After rotate_sectorids the first descriptor carries the lowest id, and nothing is lost. */
  lemma RotatedToLowest(s: seq<SectorInfo>)
    ensures var r := RotatedLeft(s, Lowest(s).1);
      multiset(r) == multiset(s) &&
      forall j :: 0 <= j < |r| ==> r[0].sectorId <= r[j].sectorId
  {
    var pos := Lowest(s).1;
    RotatedLeftPermutes(s, pos);
    if |s| > 0 {
      LowestIsFirstMinimum(s);
      RotatedLeftAt(s, pos);
      var r := RotatedLeft(s, pos);
      assert r[0] == s[pos % |s|];
      ModOfMultiplePlus(0, |s|, pos);
      forall j | 0 <= j < |r|
        ensures r[0].sectorId <= r[j].sectorId
      {
        assert r[j] == s[(j + pos) % |s|];
      }
    }
  }

  // ---------------------------------------------------------------------
  // The disk header, Diskinfo.

  /** The two bytes init_diskinfo stores: `(char) len` and `(char) (len >> 8)`. */
  function TrackLengthBytes(tracklen: int): (r: seq<byte>)
    ensures |r| == 2
  {
    [tracklen % 256, (tracklen / 256) % 256]
  }

  /**
   * Decoding the two bytes low byte first gives the length modulo 65536,
   * so any length below 65536 comes back unchanged.
   */
  lemma TrackLengthRoundTrip(tracklen: int)
    ensures var b := TrackLengthBytes(tracklen); LE16(b[0], b[1]) == tracklen % 65536
    ensures 0 <= tracklen < 65536 ==>
      var b := TrackLengthBytes(tracklen); LE16(b[0], b[1]) == tracklen
  {
    var q := tracklen / 256;
    var lo := tracklen % 256;
    assert tracklen == 256 * q + lo;
    var hi := q % 256;
    var top := q / 256;
    assert q == 256 * top + hi;
    assert tracklen == 65536 * top + (lo + 256 * hi);
    DivModUnique(tracklen, 65536, top, lo + 256 * hi);
  }

  /**
   * The 256 bytes init_diskinfo leaves: the zero-padded writer magic, the
   * track and head counts truncated to a byte, the track length low byte
   * first, and zeros everywhere else.
   */
  function InitDiskHeader(tracks: int, heads: int, tracklen: int): (r: Header)
  {
    StrNCopy(DiskWriteText(), DISK_MAGIC_SIZE) + Zeros(HDR_TRACKS - HDR_CREATOR)
      + [tracks % 256, heads % 256] + TrackLengthBytes(tracklen)
      + Zeros(DISK_HEADER_SIZE - HDR_PADDING)
  }

  /** A header from init_diskinfo is read as a plain image, not an extended one. */
  lemma InitDiskHeaderMagic(tracks: int, heads: int, tracklen: int)
    ensures var h := InitDiskHeader(tracks, heads, tracklen); Dsk.IsDsk(h) && !Dsk.IsEdsk(h)
  {
    var h := InitDiskHeader(tracks, heads, tracklen);
    var m := StrNCopy(DiskWriteText(), DISK_MAGIC_SIZE);
    InitDiskHeaderStartsWithMagic(tracks, heads, tracklen);
    WriterMagicPrefix();
    assert h[..8] == h[..DISK_MAGIC_SIZE][..8];
    assert h[..21][8] == h[..DISK_MAGIC_SIZE][8];
  }

  lemma InitDiskHeaderStartsWithMagic(tracks: int, heads: int, tracklen: int)
    ensures InitDiskHeader(tracks, heads, tracklen)[..DISK_MAGIC_SIZE] == StrNCopy(DiskWriteText(), DISK_MAGIC_SIZE)
  {
  }

  /** The writer magic starts with the plain-image magic and differs from the extended one at byte 8. */
  lemma WriterMagicPrefix()
    ensures StrNCopy(DiskWriteText(), DISK_MAGIC_SIZE)[..8] == DskMagic()
    ensures StrNCopy(DiskWriteText(), DISK_MAGIC_SIZE)[8] != EdskMagic()[8]
  {
    var t := DiskWriteText();
    assert StrNCopy(t, DISK_MAGIC_SIZE)[..8] == t[..8];
    assert t[..8] == DskMagic();
    assert t[8] == 0x45;
  }

  /**
   * Read by the container, a header from init_diskinfo has the given
   * track and side counts and every track of the given length modulo
   * 65536.
   */
  lemma InitDiskHeaderGeometry(tracks: int, heads: int, tracklen: int)
    ensures var h := InitDiskHeader(tracks, heads, tracklen);
      Tracks(h) == tracks % 256 && Sides(h) == heads % 256
    ensures var h := InitDiskHeader(tracks, heads, tracklen);
      forall t: byte :: Dsk.TrackSize(h, t) == tracklen % 65536
  {
    var h := InitDiskHeader(tracks, heads, tracklen);
    InitDiskHeaderMagic(tracks, heads, tracklen);
    TrackLengthRoundTrip(tracklen);
    assert h[HDR_TRACK_SIZE] == TrackLengthBytes(tracklen)[0];
    assert h[HDR_TRACK_SIZE + 1] == TrackLengthBytes(tracklen)[1];
  }

  /** The creator field and the size table of a header from init_diskinfo are zero. */
  lemma InitDiskHeaderZeros(tracks: int, heads: int, tracklen: int)
    ensures var h := InitDiskHeader(tracks, heads, tracklen);
      (forall k :: HDR_CREATOR <= k < HDR_TRACKS ==> h[k] == 0) &&
      (forall k :: HDR_PADDING <= k < DISK_HEADER_SIZE ==> h[k] == 0)
  {
  }

  /** The in-memory Diskinfo record. */
  class DiskInfo {
    var magic: seq<byte>
    var tracks: byte
    var heads: byte
    var trackLength: seq<byte>

    ghost predicate Valid()
      reads this
    {
      |magic| == DISK_MAGIC_SIZE && |trackLength| == 2
    }

    /**
     * The record's 256 bytes in the layout of src/common.h; the creator
     * and padding bytes are not fields of the model and read as 0.
     */
    function Bytes(): (r: Header)
      requires Valid()
      reads this
    {
      var b := magic + Zeros(HDR_TRACKS - HDR_CREATOR) + [tracks, heads] + trackLength
        + Zeros(DISK_HEADER_SIZE - HDR_PADDING);
      assert |b| == DISK_HEADER_SIZE;
      b
    }

    constructor()
      ensures Valid() && Bytes() == Zeros(DISK_HEADER_SIZE)
    {
      magic := Zeros(DISK_MAGIC_SIZE);
      tracks, heads := 0, 0;
      trackLength := Zeros(2);
    }

    /** init_diskinfo: clear the record, then set the writer magic and the geometry. */
    method Init(trackCount: int, headCount: int, tracklen: int)
      modifies this
      ensures Valid()
      ensures magic == StrNCopy(DiskWriteText(), DISK_MAGIC_SIZE)
      ensures tracks == trackCount % 256 && heads == headCount % 256
      ensures trackLength == TrackLengthBytes(tracklen)
      ensures Bytes() == InitDiskHeader(trackCount, headCount, tracklen)
    {
      magic := StrNCopy(DiskWriteText(), DISK_MAGIC_SIZE);
      tracks := trackCount % 256;
      heads := headCount % 256;
      trackLength := [tracklen % 256, (tracklen / 256) % 256];
    }
  }

  // ---------------------------------------------------------------------
  // The order of tracks in the image.

  /** readdsk's linear index of track i, side k: sides of a track are adjacent. */
  function TrackIndex(i: nat, k: nat, sides: nat): nat
  {
    i * sides + k
  }

  /** readdsk's physical side for the k-th side read, starting at startside. */
  function PhysicalSide(startSide: nat, k: nat): (r: nat)
  {
    (startSide + k) % MAX_SIDES
  }

  /**
   * Every (track, side) pair of an image gets its own slot of the
   * MAX_TRACKS * MAX_SIDES record array, and the slot gives the pair back.
   */
  lemma TrackIndexSlots(i: nat, k: nat, tracks: nat, sides: nat)
    requires i < tracks <= MAX_TRACKS && k < sides <= MAX_SIDES
    ensures TrackIndex(i, k, sides) < tracks * sides <= MAX_TRACKS * MAX_SIDES
    ensures TrackIndex(i, k, sides) / sides == i && TrackIndex(i, k, sides) % sides == k
  {
    assert i * sides + k < (i + 1) * sides <= tracks * sides;
    assert tracks * sides <= MAX_TRACKS * sides <= MAX_TRACKS * MAX_SIDES;
    ModOfMultiplePlus(i, sides, k);
    assert (i * sides + k) / sides == i;
  }

  /** Distinct pairs get distinct slots. */
  lemma TrackIndexInjective(i: nat, k: nat, i': nat, k': nat, sides: nat)
    requires k < sides && k' < sides
    requires TrackIndex(i, k, sides) == TrackIndex(i', k', sides)
    ensures i == i' && k == k'
  {
    ModOfMultiplePlus(i, sides, k);
    ModOfMultiplePlus(i', sides, k');
    assert (i * sides + k) / sides == i;
    assert (i' * sides + k') / sides == i';
  }

  /**
   * The sides read alternate: always 0 or 1, the start side first, and
   * the other side next on a two-sided disk.
   */
  lemma PhysicalSides(startSide: nat, k: nat)
    ensures PhysicalSide(startSide, k) < MAX_SIDES
    ensures PhysicalSide(startSide, 0) == startSide % MAX_SIDES
    ensures PhysicalSide(startSide, k + 1) != PhysicalSide(startSide, k)
  {
  }
}
