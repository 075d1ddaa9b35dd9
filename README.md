# dsktools core in Dafny

This project models the core of dsktools, a set of tools for Amstrad CPC disk images.

**The container (`src/dsk.c`, layouts in `src/dsk.h`).** A disk image is a 256-byte disk header followed by the tracks. There are two formats:
- the plain "MV - CPC" format, where every track has the size stored in the header;
- the "EXTENDED CPC DSK File" format, with one size byte per track.

Each track starts with a 256-byte track header. It holds 24 bytes of fields and 29 sector descriptors of 8 bytes. The container computes:
- track sizes and offsets, and the image size;
- the first sector id of the disk and the reserved-track count it implies;
- the offset of a sector inside a track;
- the mapping from a logical sector number to a byte offset;
- the (track, side, sector id) lookup.

It keeps a lazily filled table of validated track headers, and fetches the 32-byte directory entries.

**The AMSDOS file system (`src/amsdos.c`, layouts in `src/amsdos.h`).** The file system owns the container and a one-byte `last_free_block` cursor. It covers:
- 8.3 name normalisation;
- the 128-byte binary-file header and its checksum;
- the 64-entry directory: lookup, free-entry scans, used bytes and disk-type classification;
- the block allocator;
- extent-by-extent file addition;
- export of a file's chain of entries;
- logical deletion;
- wiping the directory of a new image.

**The bounded error stack (`src/error.c`).** It holds at most eight messages. Adding to a full stack evicts the oldest, and the combined message joins them newest first.

**Helpers from `src/dskread.c`.** They cover:
- rotation of a track's sector descriptors so that the lowest id comes first;
- the defaults of a fresh track header and disk header, including the little-endian track length;
- the track/side index arithmetic of the image reader.

**Module layout.**
- `Common`: bytes, C arithmetic and slices.
- `DskLayout`: binary layouts and constants.
- `Dsk`: the container. Specification functions, plus class `Disk` over an `array<byte>` image and an `array<bool>` cache.
- `AmsdosName` and `AmsdosHeader`: names and headers.
- `AmsdosDir` and `AmsdosFiles`: the file system as specification functions over a `State` value (header, image, cache and cursor).
- `Amsdos`: class `Amsdos`. Its methods update the image, cache and cursor in place. Each is proved to leave exactly the state the specification functions describe.
- `AmsdosProps`: the whole-operation properties of those functions.
- `ErrorStack`: class `Stack`.
- `DskRead`: classes `TrackInfo` and `DiskInfo`.

**Modelling choices.**
- Bytes are integers 0..255. Every uint8_t, uint16_t and int8_t narrowing in the source is written out explicitly. Two int and size_t computations are not (see "## Left out").
- `SHIFTH(x, n)` is taken to be ceiling division by 2^n, that is `(x + 2^n - 1) >> n`. Its definition is not part of this model. The explicit `(x + 7) >> 3` in `is_block_in_use` agrees with it.
- Names are split at the first dot, as `strstr` does.
- Some names the core uses are defined in headers that are not part of this model. The model assumes:
  - `EDSK_HEADER` is "EXTENDED CPC DSK File", compared on its 21 bytes;
  - `DSK_TRACK_HEADER` is "Track-Info\r\n" followed by a NUL, compared on 13 bytes;
  - `track_size_high`, which `dsk_info_type` in src/dsk.h:38-45 does not declare, is the per-track size table at byte 52, where `padding` starts;
  - `dsk_get_track_size` (src/amsdos.c:309) is `get_track_size`;
  - `dsk_read_sector` and `dsk_write_sector` copy the 512 bytes at `get_block_offset` of the logical sector.
- The header layout follows the C struct with its natural alignment. The checksum therefore sits at bytes 66-67, and the 67-byte sum in `get_amsdos_checksum` covers its own low byte.

## Model

| member | source | states |
|---|---|---|
| DskLayout.MagicTexts | src/dsk.h:25 | The plain magic bytes spell "MV - CPC"; the extended and the 13-byte track magic spell their texts. |
| DskLayout.SectorInfoRoundTrip | src/dsk.h:47-55 | The 8-byte sector descriptor layout is a bijection: parse after serialise and serialise after parse are identities. |
| DskLayout.TrackHeaderLayout | src/dsk.h:57-68 | 24 bytes of fields plus 29 descriptors of 8 bytes fill the 256-byte track header exactly; every descriptor field lies inside it. |
| DskLayout.DirEntryRoundTrip | src/dsk.h:70-79 | The 32-byte directory-entry layout is a bijection between entries and 32 bytes, in both directions. |
| DskLayout.DirEntryFieldOffsets | src/amsdos.h:55-64 | The AMSDOS entry puts user at byte 0, extent_low at 12, record_count at 15 and block j at 16 + j, the same order as the container's entry. |
| DskLayout.EntryCapacity | src/amsdos.h:27-33 | An entry holds 16 blocks of 8 records, 128 records of 128 bytes, 16 KiB; a block is two 512-byte sectors. |
| Dsk.TrackSize | src/dsk.c:83-93 | A track size always fits in 16 bits. |
| Dsk.SizesBefore | src/dsk.c:95-126 | The sizes of tracks 0..n-1 summed as the C loops do, with the loop index passed to get_track_size as a uint8_t. |
| Dsk.ImageSize | src/dsk.c:95-111 | get_image_size: `tracks` times the header size for a plain image, the size table over tracks x sides for an extended one, 0 otherwise (its partner is ImageSizeIsSum). |
| Dsk.TrackOffset | src/dsk.c:113-126 | get_track_offset: the track number times the header size when plain, the sizes of the tracks before it when extended, 0 otherwise (its partners are TrackOffsetIsPrefixSum and TrackOffsetStep). |
| Dsk.PlainSizesBefore | src/dsk.c:83-93 | On a plain image every track has the header's little-endian size, so n tracks take n times it. |
| Dsk.UnknownSizesBefore | src/dsk.c:83-93 | With neither magic, every track has size 0. |
| Dsk.MagicsDiffer | src/dsk.c:59-81 | No header carries both magics. |
| Dsk.TrackOffsetIsPrefixSum | src/dsk.c:113-126 | A track's offset is the sum of the sizes of the tracks before it. |
| Dsk.TrackOffsetStep | src/dsk.c:113-126 | Track 0 starts at 0 and each next track starts where the previous one ends. |
| Dsk.ImageSizeIsSum | src/dsk.c:95-111 | The image size is the sum over tracks x sides when extended, over `tracks` only (sides ignored) when plain, and 0 for an unknown magic. |
| Dsk.MinSectorIdIsMinimum | src/dsk.c:136-147 | The first sector id is no larger than any listed id and is one of them; it is 0xFF when track 0 lists no sector. |
| Dsk.FindSectorIsFirst | src/dsk.c:161-181 | The descriptor search finds the first descriptor carrying the id, and finding none means no descriptor carries it. |
| Dsk.SectorOffsetInTrackFound | src/dsk.c:161-181 | The in-track offset is 0 exactly when no descriptor carries the id, and otherwise at least the 256 header bytes. |
| Dsk.SectorOffsetInTrack | src/dsk.c:161-181 | The descriptor walk: 256 plus the sizes of the sectors before the first descriptor with the id, 0 when none carries it (partner: SectorOffsetInTrackFound). |
| Dsk.BlockOffset | src/dsk.c:184-209 | get_block_offset: the uint8_t track base + n / spt and id first + n mod spt, 0 when that track has no valid header (partner: BlockOffsetIsTrackPlusSector). |
| Dsk.BlockOffsetIsTrackPlusSector | src/dsk.c:184-209 | Logical sector n lies in track base + n / spt at the in-track offset of id first + n mod spt, both in uint8_t; the result is 0 when that track has no valid header. |
| Dsk.FindTrackIsFirst | src/dsk.c:211-231 | The track scan finds the first track whose header carries the track and side numbers; no result means none of the scanned tracks does. |
| Dsk.ScanStep | src/dsk.c:211-231 | At the matching track the sector offset is the sizes of the tracks before it plus the in-track offset; with no match it is the sizes of all scanned tracks. |
| Dsk.SectorOffset | src/dsk.c:211-231 | get_sector_offset: the scan over `tracks` for the track and side numbers, summing sizes (partners: FindTrackIsFirst and ScanStep). |
| Dsk.CachedKeepsViews | src/dsk.c:277-301 | Looking up a track never changes what a later lookup of any track returns. |
| Dsk.TouchAt | src/dsk.c:277-301 | Looking up tracks 0..n-1 fills exactly the unfilled entries among them whose track magic is present. |
| Dsk.CachedTwice | src/dsk.c:277-301 | A second lookup of the same track leaves the cache as it was. |
| Dsk.DirCacheIdempotent | src/dsk.c:354-369 | A directory fetch after another, or after dsk_get_info, leaves the cache as the first fetch left it. |
| Dsk.DirEntriesOfOneSector | src/dsk.c:354-369 | Entries 16k to 16k + 15 share a sector and sit 32 bytes apart. |
| Dsk.RunEnd | src/dsk.c:264-275 | The end of a run lies after its start; every slot before it has a non-zero extent_low, and the slot at it has extent_low 0. |
| Dsk.DirEntryGetSize | src/dsk.c:264-275 | The size is 128 bytes per record of the run's slots that belong to the start slot's user (amsdos_get_dir_size, src/amsdos.c:458-470, is the same loop over AMSDOS entries). |
| Dsk.Disk.constructor | src/dsk.c:321-351 | A loaded image keeps its header and bytes; no track view is cached yet. |
| Dsk.Disk.GetImageSize | src/dsk.c:95-111 | Its loop returns the image size (see ImageSizeIsSum). |
| Dsk.Disk.GetTrackOffset | src/dsk.c:113-126 | Its loop returns the track offset (see TrackOffsetIsPrefixSum). |
| Dsk.Disk.GetTrackInfo | src/dsk.c:277-301 | No view for an index at or beyond `tracks` or without the 13-byte track magic; otherwise the view at the track's offset, which is cached. |
| Dsk.Disk.SectorsPerTrack | src/dsk.c:128-134 | The sector count of track 0; only track 0's cache entry may change. |
| Dsk.Disk.FirstSectorId | src/dsk.c:136-147 | The minimum id among track 0's descriptors (see MinSectorIdIsMinimum). |
| Dsk.Disk.BaseTrackIndex | src/dsk.c:149-159 | The reserved tracks implied by the first sector id: 1 for 0x01, 2 for 0x41, otherwise 0. |
| Dsk.Disk.GetSectorOffsetInTrack | src/dsk.c:161-181 | Its descriptor walk returns the in-track offset (see SectorOffsetInTrackFound). |
| Dsk.Disk.GetBlockOffset | src/dsk.c:184-209 | Its track-size loop returns the offset of the logical sector (see BlockOffsetIsTrackPlusSector). |
| Dsk.Disk.GetSectorOffset | src/dsk.c:211-231 | Its scan returns the (track, side, id) offset; every track scanned is looked up in the cache. |
| Dsk.Disk.GetDirEntry | src/dsk.c:354-369 | No entry for an index of 64 or more, with the cache unchanged; otherwise the 32 bytes at the entry's offset, parsed. |
| Dsk.Disk.GetTotalBlocks | src/dsk.c:372-381 | The sector count times the size code, summed over all tracks. |
| Dsk.Disk.GetUsedBlocks | src/dsk.c:383-394 | The record counts of the entries not marked 0xE5, summed. |
| Dsk.Disk.WriteBytes | src/amsdos.c:585-586 | A memcpy into the image; one that would overrun the image changes nothing. |
| Dsk.Disk.ReadSector | src/dsk.c:184-209 | The 512 bytes at the logical sector's offset. |
| Dsk.Disk.WriteSector | src/dsk.c:184-209 | The image with the 512 bytes copied to the logical sector's offset, and nothing else changed. |
| AmsdosName.FindByteIsFirst | src/amsdos.c:66-82 | strstr with a one-character needle finds the first position holding it; no result means there is none. |
| AmsdosName.BasenameIsLastSegment | src/amsdos.c:66-82 | The base name is a suffix of the path, holds no '/', and follows the last '/'. |
| AmsdosName.GetBasename | src/amsdos.c:66-82 | The returned position starts the base name. |
| AmsdosName.NameField | src/amsdos.c:84-100 | The name field has 8 characters and no lower-case letter. |
| AmsdosName.ExtField | src/amsdos.c:102-117 | The extension field has 3 characters and no lower-case letter. |
| AmsdosName.GetAmsdosFilename | src/amsdos.c:84-100 | The buffer filled one character at a time is the name field. |
| AmsdosName.GetAmsdosExtension | src/amsdos.c:102-117 | The buffer filled one character at a time is the extension field. |
| AmsdosName.FieldsShape | src/amsdos.c:84-117 | The name field holds no dot and no slash; the extension field holds no slash. |
| AmsdosName.NormaliseIdempotent | src/amsdos.c:84-117 | Normalising an already normalised 8.3 name gives the same fields. |
| AmsdosName.EightThreeNameKept | src/amsdos.c:84-117 | An upper-case 8.3 name gives back its own characters, space-padded. |
| AmsdosName.NoDotNoExtension | src/amsdos.c:102-117 | A name without a dot has an all-space extension. |
| AmsdosName.DirExtension | src/amsdos.c:166-174 | The stored extension with bit 7 of its first two bytes cleared, 3 bytes long. |
| AmsdosName.StrnEqWithoutNul | src/amsdos.c:219-242 | Against a string with no NUL in its first n bytes, strncmp equality is equality of those bytes. |
| AmsdosName.NameMatchesIsEquality | src/amsdos.c:219-242 | For a C-string name, the lookup's comparison is equality of name field, extension (attributes cleared) and user. |
| AmsdosHeader.HeaderLayout | src/amsdos.h:66-84 | The header fields follow one another with natural alignment in 128 bytes; the checksum field lies inside the 67 summed bytes. |
| AmsdosHeader.LE16BytesRoundTrip | src/amsdos.h:66-84 | A 16-bit field stored little-endian reads back as its value. |
| AmsdosHeader.GetChecksum | src/amsdos.c:119-125 | The wrapping 16-bit sum of the first `span` header bytes. |
| AmsdosHeader.Checksum | src/amsdos.c:119-125 | The corrected checksum: the 16-bit sum of the 66 bytes before the checksum field. |
| AmsdosHeader.IsHeaderAsWritten | src/amsdos.c:156-158 | is_amsdos_header as written: the stored checksum equals the 67-byte sum. |
| AmsdosHeader.IsHeader | src/amsdos.c:156-158 | The corrected is_amsdos_header: the stored checksum equals the 66-byte sum. |
| AmsdosHeader.ChecksumsOf | src/amsdos.c:119-129 | For stored checksum c, the corrected checksum is the sum of the 66 field bytes; the as-written one adds c's low byte. |
| AmsdosHeader.InitHeaderFields | src/amsdos.c:131-154 | The built header carries the user, the name and extension fields, type 2, data length 0, the addresses' low bytes, and the size in both length fields. |
| AmsdosHeader.InitHeaderAsWritten | src/amsdos.c:127-154 | init_amsdos_header as written: the fields, then the 67-byte sum taken while the checksum field is 0 (partner: InitHeaderAsWrittenRecognisedIff). |
| AmsdosHeader.InitHeader | src/amsdos.c:127-154 | The corrected init_amsdos_header: the fields, then the 66-byte sum (partner: InitHeaderIsHeader). |
| AmsdosHeader.InitHeaderIsHeader | src/amsdos.c:131-158 | Every header the corrected init builds passes the corrected check. |
| AmsdosHeader.InitHeaderAsWrittenRecognisedIff | src/amsdos.c:119-158 | As written, a fresh header passes is_amsdos_header exactly when its field bytes sum to a multiple of 256. |
| AmsdosHeader.AsWrittenCheckOf | src/amsdos.c:156-158 | As written, stored checksum c passes exactly when c equals the sum of the fields plus c's own low byte. |
| AmsdosHeader.InitHeaderAsWrittenRejected | src/amsdos.c:131-158 | As written, the header for "A", user 0, size 0 and addresses 0 is rejected. |
| AmsdosHeader.RejectedUnlessRoundSum | src/amsdos.c:131-158 | As written, every header whose field sum is not a multiple of 256 is rejected. |
| AmsdosDir.Dir | src/amsdos.c:562-575 | The directory the image holds has 64 entries. |
| AmsdosDir.ScannedIdempotent | src/amsdos.c:562-575 | Repeated directory reads and dsk_get_info calls on an unchanged image leave the same cache. |
| AmsdosDir.FreeEntriesZero | src/amsdos.c:176-188 | The free count is 0 exactly when no entry is marked 0xE5. |
| AmsdosDir.FreeEntries | src/amsdos.c:176-188 | get_free_dir_entry_count: the number of entries marked 0xE5 among the first n (partner: FreeEntriesZero). |
| AmsdosDir.NextFreeIsFirst | src/amsdos.c:190-201 | The next free entry is the lowest deleted one, and -1 means there is none. |
| AmsdosDir.NextFree | src/amsdos.c:190-201 | get_next_free_dir_entry: the lowest entry marked 0xE5, or -1 (partners: NextFreeIsFirst and NextFreeAgreesWithCount). |
| AmsdosDir.NextFreeAgreesWithCount | src/amsdos.c:176-201 | The free-entry scan fails exactly when the free count is 0. |
| AmsdosDir.LookupFromIsFirst | src/amsdos.c:219-242 | Lookup returns the lowest matching index, deleted or not and whatever its extent_low; -1 means nothing matches. |
| AmsdosDir.LookupFrom | src/amsdos.c:219-242 | The lookup loop: the lowest index whose name, extension and user match, or -1 (partners: LookupFromIsFirst and ExistsIff). |
| AmsdosDir.ExistsIff | src/amsdos.c:653-656 | amsdos_exists_file holds exactly when some entry matches. |
| AmsdosDir.BlockSlots | src/amsdos.c:278-296 | The slots looked at, (record_count + 7) >> 3, never exceed 16. |
| AmsdosDir.FreeFromIsFirst | src/amsdos.c:304-333 | The search returns the first block not in use, at or after the start and below the limit; -1 means all are in use. |
| AmsdosDir.DirBlocks | src/amsdos.c:304-333 | The directory takes 2 blocks: 64 entries of 32 bytes, rounded up to KiB. |
| AmsdosDir.Int8 | src/amsdos.c:304-333 | A uint8_t block read through int8_t is negative exactly from 128 up, and unchanged below. |
| AmsdosDir.GetFreeBlockSpec | src/amsdos.c:304-333 | Allocation leaves header and image alone and never moves the cursor back before the search start. |
| AmsdosDir.GetFreeBlockFree | src/amsdos.c:304-333 | A block returned is not in use, lies in [start, sectors / 2), is below 128, and moves the cursor just past it; a negative result means there is none or it does not fit int8_t. |
| AmsdosDir.GetFreeBlockIncreasing | src/amsdos.c:304-333 | After a successful allocation, the next successful one, whatever happened in between except cursor moves, returns a larger block. |
| AmsdosDir.UpdateDirSpec | src/amsdos.c:577-590 | amsdos_update_dir: the 32 bytes of the entry copied to its offset, nothing for an index of 64 or more; header, cursor and image size kept (partners: UpdateDirReadBack and UpdateDirKeepsOthers). |
| AmsdosDir.UpdateDirReadBack | src/amsdos.c:577-590 | Reading the entry back after amsdos_update_dir gives the entry written. |
| AmsdosDir.UpdateDirKeepsOthers | src/amsdos.c:577-590 | Every entry whose 32 bytes do not overlap the written ones reads as before. |
| AmsdosDir.WriteSectorSpec | src/amsdos.c:335-348 | dsk_write_sector as read_sector calls it: 512 bytes at the logical sector's offset, header, cursor and image size kept (partner: SectorReadBack). |
| AmsdosDir.SectorReadBack | src/amsdos.c:335-348 | A sector written and read back gives the 512 bytes written. |
| AmsdosDir.UsedBytesAreRecords | src/amsdos.c:528-540 | The used bytes are 128 times the used records dsk_get_used_blocks counts. |
| AmsdosDir.UsedBytesBound | src/amsdos.c:528-540 | The used bytes stay below 64 x 255 x 128, so the uint32_t sum cannot wrap. |
| AmsdosDir.ClassifyInvertsBaseSector | src/amsdos.c:542-560 | The classification inverts base_sector on DATA, IBM and SYSTEM; any other first id is UNKNOWN; each type has 0, 1 or 2 reserved tracks. |
| AmsdosFiles.SectorData | src/amsdos.c:335-348 | read_sector writes 512 bytes. |
| AmsdosFiles.Sizes | src/amsdos.h:41 | A block is two 512-byte sectors of 8 records; an extent is 128 records, 16 blocks. |
| AmsdosFiles.ExtentRecords | src/amsdos.c:395-445 | An extent holds 1 to 128 records. |
| AmsdosFiles.NewEntry | src/amsdos.c:203-206 | A new entry has its declared field widths. |
| AmsdosFiles.AddFileChecksSpec | src/amsdos.c:365-393 | The checks only scan the directory; the image is not changed. |
| AmsdosFiles.FillStep | src/amsdos.c:427-441 | One pass of the inner loop: allocate a block (failure ends the fill), record it, write its two sectors with the pending header first, advance pos by 1024. |
| AmsdosFiles.AddExtents | src/amsdos.c:401-444 | The outer loop: take the lowest free slot (an error when none), fill MIN(128, SHIFTH(size - pos, 7)) records' blocks, write the entry, count extents in uint8_t. |
| AmsdosFiles.AddFileInternalSpec | src/amsdos.c:395-445 | add_file_internal from extent 0 and pos 0 (partners: the AmsdosProps Add lemmas). |
| AmsdosFiles.AddFileSpec | src/amsdos.c:659-678 | amsdos_add_file: the checks, then the source from byte 0 with no header (partner: AddFileStoresSource). |
| AmsdosFiles.AddBinaryFileSpec | src/amsdos.c:680-720 | The corrected binary add: the 66-byte check decides whether the source had a header; a new corrected header heads the data (partners: AddBinaryStoresHeader and AddBinaryReplacesOwnHeader). |
| AmsdosFiles.AddBinaryFileAsWritten | src/amsdos.c:680-720 | amsdos_add_binary_file as written: the 67-byte is_amsdos_header decides, and the new header carries the 67-byte sum (partners: AddBinaryAsWrittenStoresHeader and AddBinaryAsWrittenKeepsOwnHeader). |
| AmsdosFiles.AddAsciiFileSpec | src/amsdos.c:722-759 | The corrected ASCII add: a header found by the 66-byte check is skipped and nothing is put in front (partner: AddAsciiStoresSource). |
| AmsdosFiles.AddAsciiFileAsWritten | src/amsdos.c:722-759 | amsdos_add_ascii_file as written: the 128 bytes read are passed on as a header in both branches (partner: AddAsciiAsWrittenRepeatsStart). |
| AmsdosFiles.SectorOut | src/amsdos.c:244-250 | The corrected sector cut keeps at most 512 bytes, and none once no records remain. |
| AmsdosFiles.SectorOutAsWritten | src/amsdos.c:244-250 | The as-written cut, through uint8_t, still keeps at most 512 bytes. |
| AmsdosFiles.EntryBlocks | src/amsdos.c:252-276 | Exporting an entry's blocks never changes the header, image or cursor. |
| AmsdosFiles.ExportFrom | src/amsdos.c:593-625 | Exporting a chain never changes the header, image or cursor. Its sector cut is the corrected one (SectorOut). |
| AmsdosFiles.GetFileSpec | src/amsdos.c:593-625 | amsdos_get_file never changes the image. The export uses the corrected sector cut. |
| AmsdosFiles.RemoveFrom | src/amsdos.c:627-650 | Removing a chain keeps the header, the cursor and the image size. |
| AmsdosFiles.RemoveFileSpec | src/amsdos.c:627-650 | A name not found leaves the image unchanged. |
| AmsdosFiles.BlankEntry | src/amsdos.c:509-515 | The blank entry is marked deleted. |
| AmsdosFiles.WipeFrom | src/amsdos.c:509-515 | Wiping keeps the header, the cursor and the image size. |
| AmsdosFiles.FillTakes | src/amsdos.c:427-441 | Filling n slots hands out at most n blocks and keeps earlier ones; it succeeds exactly when all n were handed out. |
| AmsdosFiles.FillWritesPayload | src/amsdos.c:427-441 | Filling writes the pending header then the stream, 1024 bytes per block handed out, and the header only with the first block. |
| AmsdosFiles.FillListsItsBlocks | src/amsdos.c:427-441 | Slot j of the entry holds the j-th block handed out; the other slots and fields are kept. |
| AmsdosFiles.FillIncreasing | src/amsdos.c:427-441 | The blocks a fill hands out are strictly increasing and stay behind the cursor. |
| AmsdosFiles.AddWritesPayload | src/amsdos.c:395-445 | An add writes the header then the stream into the blocks it hands out, in order, whether it succeeds or stops early. |
| AmsdosFiles.AddIncreasing | src/amsdos.c:395-445 | The blocks an add hands out are strictly increasing, so no block is handed out twice. |
| AmsdosFiles.AddNumbersExtents | src/amsdos.c:395-445 | The entries written are the successive extents: numbers counting up in uint8_t, each with its own record count, earlier entries kept. |
| AmsdosFiles.AddAccountsForSize | src/amsdos.c:395-445 | A successful add writes one entry per 16 KiB of the size and as many records as the size needs. |
| AmsdosFiles.AddListsTaken | src/amsdos.c:395-445 | The blocks listed by the written entries, in order, are the blocks handed out. |
| AmsdosProps.AddStoresPayload | src/amsdos.c:395-445 | add_file_internal writes the header, if any, then the stream from its position, 1024 bytes per block handed out. |
| AmsdosProps.AddTakesIncreasing | src/amsdos.c:395-445 | add_file_internal never hands out a block twice: its blocks are strictly increasing. |
| AmsdosProps.AddNumbersFromZero | src/amsdos.c:395-445 | The entries add_file_internal writes are extents 0, 1, 2, ..., each with MIN(128, ceil((size - pos) / 128)) records. |
| AmsdosProps.AddCoversSize | src/amsdos.c:395-445 | A successful add writes ceil(size / 16 KiB) entries whose record counts add up to ceil(size / 128). |
| AmsdosProps.AddListsItsBlocks | src/amsdos.c:395-445 | The entries written list exactly the blocks handed out, in order. |
| AmsdosProps.AddFileChecksIff | src/amsdos.c:365-393 | The checks pass exactly when the name is new for the user, the size is known, and it fits in 16 KiB per free entry; that size is returned. |
| AmsdosProps.AddFileStoresSource | src/amsdos.c:659-678 | amsdos_add_file stores the source from its first byte; a refused add changes nothing but the cache. |
| AmsdosProps.AddBinaryStoresHeader | src/amsdos.c:680-720 | The corrected binary add (66-byte header check, the intended half of the Findings rows for src/amsdos.c:119-158 and 680-720): a new header for the name, the size, the user and the addresses heads the data, followed by the source past any header the corrected check finds. |
| AmsdosProps.AddBinaryReplacesOwnHeader | src/amsdos.c:705-717 | Corrected, a source that starts with a header this add builds has it replaced: what follows the new header is the source from byte 128. |
| AmsdosProps.AddBinaryAsWrittenStoresHeader | src/amsdos.c:680-720 | As written: the new 67-byte-sum header heads the data, followed by the source past its header only when the 67-byte is_amsdos_header accepts it, with the size grown by 128 otherwise. |
| AmsdosProps.AddBinaryAsWrittenKeepsOwnHeader | src/amsdos.c:705-717 | As written, a source starting with the header the add builds for "A", user 0, size 0, addresses 0 is judged headerless: those 128 bytes are stored as data right after the new header. |
| AmsdosProps.AddAsciiStoresSource | src/amsdos.c:722-759 | The corrected ASCII add stores the source after its header, if it had one, and puts nothing in front. |
| AmsdosProps.AddAsciiAsWrittenRepeatsStart | src/amsdos.c:747-756 | As written, a source without a header has its first 128 bytes stored twice. |
| AmsdosProps.EntryBlocksLength | src/amsdos.c:252-276 | With the corrected cut, an entry's export adds 128 bytes per record its slots cover. |
| AmsdosProps.ExportLength | src/amsdos.c:252-276 | An entry with non-zero blocks exports exactly 128 x MIN(record_count, 128) bytes. |
| AmsdosProps.ExportAsWrittenOverreads | src/amsdos.c:244-276 | As written, an entry of one record exports 640 bytes; corrected, 128. |
| AmsdosProps.SerializeUser | src/amsdos.c:627-650 | Changing only the user changes only byte 0 of the entry's 32 bytes. |
| AmsdosProps.MarkDeletedSetsUserByte | src/amsdos.c:627-650 | Marking one entry deleted sets its byte 0 to 0xE5 and leaves every other image byte alone. |
| AmsdosProps.RemoveFromOnlyMarks | src/amsdos.c:627-650 | Removing a chain changes no image byte except to 0xE5. |
| AmsdosProps.RemoveFileOnlyMarks | src/amsdos.c:627-650 | amsdos_remove_file changes no image byte except to write 0xE5, so block data is untouched. |
| AmsdosProps.BlankEntryBytes | src/amsdos.c:509-515 | The blank entry is 32 bytes of 0xE5. |
| AmsdosProps.WipeFromOnlyMarks | src/amsdos.c:509-515 | Wiping the directory changes no image byte except to 0xE5. |
| AmsdosProps.WipeFromBlanks | src/amsdos.c:509-515 | From slot i on, the wipe leaves every entry reading as the blank entry, given that the entries before i already are. |
| AmsdosProps.WipeBlanksAll | src/amsdos.c:509-515 | After the directory loop of amsdos_new_empty all 64 entries read back as 32 bytes of 0xE5. |
| Amsdos.Amsdos.constructor | src/amsdos.c:472-482 | The file system owns the loaded image, with the cursor zeroed. |
| Amsdos.Amsdos.GetDirEntryOffset | src/amsdos.c:209-217 | The entry's offset in sector first + index / 16 of the directory track. |
| Amsdos.Amsdos.GetDir | src/amsdos.c:562-575 | Entry `index` of the directory, or none for 64 or more with nothing changed. |
| Amsdos.Amsdos.UpdateDir | src/amsdos.c:577-590 | The new state is the image with the entry's 32 bytes written at its offset (see UpdateDirReadBack and UpdateDirKeepsOthers). |
| Amsdos.Amsdos.FreeDirEntryCount | src/amsdos.c:176-188 | The counting loop returns the number of deleted entries. |
| Amsdos.Amsdos.NextFreeDirEntry | src/amsdos.c:190-201 | The scan returns the lowest deleted entry, or -1. |
| Amsdos.Amsdos.GetDirEntryForFile | src/amsdos.c:219-242 | The lowest matching index, or -1, with the matching entry. |
| Amsdos.Amsdos.ExistsFile | src/amsdos.c:653-656 | Whether some entry matches the name and user. |
| Amsdos.Amsdos.SlotsHold | src/amsdos.c:278-296 | The inner loop finds the block among the entry's used slots. |
| Amsdos.Amsdos.IsBlockInUse | src/amsdos.c:278-296 | Whether some live entry lists the block among its used slots. |
| Amsdos.Amsdos.BlockCount | src/amsdos.c:298-302 | Half the disk's sectors. |
| Amsdos.Amsdos.InitialBlock | src/amsdos.c:304-333 | The uint8_t sum of the reserved tracks' blocks and the 2 directory blocks. |
| Amsdos.Amsdos.FindFreeBlock | src/amsdos.c:304-333 | The search loop returns the first block from the start, below sectors / 2, not in use, or -1. |
| Amsdos.Amsdos.GetFreeBlock | src/amsdos.c:304-333 | The block and the new cursor are those of the allocation specification (see GetFreeBlockFree and GetFreeBlockIncreasing). |
| Amsdos.Amsdos.ReadSector | src/amsdos.c:335-348 | One sector written from the header and 384 stream bytes, or from 512 stream bytes; returns the stream position after it. |
| Amsdos.Amsdos.WriteBlock | src/amsdos.c:435-438 | The two read_sector calls of one block: the first sector with the pending header, the second without, and the stream position after both. |
| Amsdos.Amsdos.FillBlock | src/amsdos.c:434-441 | One successful allocation and block write leaves the state and entry of FillStep. |
| Amsdos.Amsdos.FillNext | src/amsdos.c:427-441 | One pass of the inner loop, success or failure, leaves the state of the fill after the next slot. |
| Amsdos.Amsdos.FillEntry | src/amsdos.c:427-441 | The inner loop leaves the state and entry of the fill specification (see FillTakes, FillWritesPayload and FillListsItsBlocks). |
| Amsdos.Amsdos.AddExtent | src/amsdos.c:407-442 | The extent's blocks are filled, then its entry is written to the free slot, unless a fill failed. |
| Amsdos.Amsdos.AddPass | src/amsdos.c:401-444 | The outer loop from a given pos and extent leaves the state of AddExtents. |
| Amsdos.Amsdos.AddFileInternal | src/amsdos.c:395-445 | The outer loop leaves the state of the add specification (see the AmsdosProps Add lemmas). |
| Amsdos.Amsdos.AddFileChecks | src/amsdos.c:365-393 | The size, or none when the add is refused (see AddFileChecksIff). |
| Amsdos.Amsdos.AddFile | src/amsdos.c:659-678 | The state of amsdos_add_file's specification (see AddFileStoresSource). |
| Amsdos.Amsdos.AddBinaryFile | src/amsdos.c:680-720 | The state of the corrected binary add's specification AddBinaryFileSpec; its as-written partner is AddBinaryFileAsWritten (see the Findings row for src/amsdos.c:680-720). |
| Amsdos.Amsdos.AddAsciiFile | src/amsdos.c:722-759 | The state of the corrected ASCII add's specification (see AddAsciiStoresSource). |
| Amsdos.Amsdos.ReadEntrySector | src/amsdos.c:244-250 | The sector's 512 bytes cut to MIN(512, records x 128), never negative. |
| Amsdos.Amsdos.ReadEntryBlocks | src/amsdos.c:252-276 | The entry's sectors appended to the output (see ExportLength). The sector cut is the corrected one. |
| Amsdos.Amsdos.ExportChain | src/amsdos.c:605-612 | The do-while returns the chain's export. The sector cut is the corrected one. |
| Amsdos.Amsdos.GetFile | src/amsdos.c:593-625 | False for a name not found; otherwise true and the chain's bytes. The sector cut is the corrected one (see the Findings row for src/amsdos.c:244-273). |
| Amsdos.Amsdos.RemoveChain | src/amsdos.c:636-644 | The do-while leaves the chain's entries marked 0xE5 (see RemoveFromOnlyMarks). |
| Amsdos.Amsdos.RemoveFile | src/amsdos.c:627-650 | False with the image unchanged for a name not found (see RemoveFileOnlyMarks). |
| Amsdos.Amsdos.GetUsedBytes | src/amsdos.c:528-540 | record_count x 128 summed over the live entries (see UsedBytesAreRecords). |
| Amsdos.Amsdos.GetInfo | src/amsdos.c:542-560 | The disk type classified from the first sector id, and the used bytes. |
| Amsdos.Amsdos.WipeDirectory | src/amsdos.c:509-515 | The state of WipeFrom from slot 0, so the 64 entries read back blank (WipeBlanksAll) and only 0xE5 bytes are written (WipeFromOnlyMarks). |
| ErrorStack.UpToNul | src/error.c:80-81 | strdup keeps the characters before the first NUL. |
| ErrorStack.StoredBounds | src/error.c:76-81 | A stored message has at most 255 characters, is a prefix of the text, and equals a short text without NUL. |
| ErrorStack.PushedKeepsOrder | src/error.c:68-82 | After error_add the new message is last and there are min(count + 1, 8); the ones kept are the newest old ones, in order. |
| ErrorStack.Pushed | src/error.c:59-82 | The messages after error_add: a full stack drops its oldest first, then the stored text is appended (partner: PushedKeepsOrder). |
| ErrorStack.JoinedLength | src/error.c:99-118 | The combined message is the messages plus one separator between each two. |
| ErrorStack.Joined | src/error.c:99-118 | The combined message: newest first, one newline between two messages (partners: JoinedLength and JoinedFront). |
| ErrorStack.JoinedFront | src/error.c:99-118 | The oldest message comes last, after a separator. |
| ErrorStack.WrittenFromAll | src/error.c:102-116 | What the loop has written once it reaches the oldest message is the combined message. |
| ErrorStack.OutputSizeAsWrittenBound | src/error.c:103-104 | As written, each message adds at most 1 to output_size. |
| ErrorStack.OutputSizeAsWritten | src/error.c:103-104 | The size error_get computes as written, with `+ (i > 0) ? 1 : 0` parsed as C parses it (partners: OutputSizeAsWrittenBound and OverflowAsWritten). |
| ErrorStack.CapacityAsWrittenKept | src/error.c:105-110 | As written, while there are no more messages than the buffer has bytes, the buffer never grows. |
| ErrorStack.OverflowAsWritten | src/error.c:99-118 | As written, two 255-character messages need 512 bytes in a buffer that stays 256 bytes. |
| ErrorStack.Stack.constructor | src/error.c:27 | Before first use there is no stack and no message. |
| ErrorStack.Stack.Init | src/error.c:40-48 | error_init creates the empty stack and a 256-byte buffer once; later calls change nothing. |
| ErrorStack.Stack.Reset | src/error.c:50-57 | No messages afterwards; nothing else changes. |
| ErrorStack.Stack.ShiftMessages | src/error.c:59-66 | The oldest message is dropped and the others keep their order. |
| ErrorStack.Stack.Add | src/error.c:68-82 | The messages become the old ones pushed with eviction (see PushedKeepsOrder). |
| ErrorStack.Stack.HasError | src/error.c:84-90 | True exactly when a message is stored, false before first use. |
| ErrorStack.Stack.Get | src/error.c:99-118 | The messages newest first, separated by newlines, in a buffer that holds them and the terminator (corrected growth); the messages are not changed. |
| DskRead.TrackInfoTextIsAscii | src/dskread.c:327 | The track magic init_trackinfo copies spells "Track-Info". |
| DskRead.StrNCopyAt | src/dskread.c:327 | strncpy keeps the source's bytes and pads with NULs to n. |
| DskRead.DescriptorBytesAt | src/common.h:83-105 | Field f of descriptor k sits at byte 8k + f of the descriptor table. |
| DskRead.InitTrackHeaderFields | src/dskread.c:323-341 | A fresh track header has the track and head as bytes, size code 2 (512-byte sectors), no sectors, gap 82, filler 0xFF and zero descriptors. |
| DskRead.InitTrackHeader | src/dskread.c:323-341 | The 256 bytes init_trackinfo leaves (partners: InitTrackHeaderFields and InitTrackMagic). |
| DskRead.InitTrackMagic | src/dskread.c:323-341 | Its magic starts with "Track-Info" but is not the 13-byte magic the container checks. |
| DskRead.TrackInfo.constructor | src/common.h:94-105 | A declared record reads as 256 zero bytes. |
| DskRead.TrackInfo.Init | src/dskread.c:323-341 | The record's fields are the defaults, and its bytes are the fresh track header. |
| DskRead.TrackInfo.RotateLeft | src/dskread.c:38-49 | The first spt descriptors become their left rotation by pos; the slots past spt stay. |
| DskRead.TrackInfo.LowestIndex | src/dskread.c:51-62 | The first index holding the minimum id among the first spt descriptors, or 0 when there are none. |
| DskRead.TrackInfo.RotateToLowest | src/dskread.c:51-66 | After rotation, descriptor 0 carries the minimum id; the rest are rotated and the slots past spt stay. |
| DskRead.RotatedLeft | src/dskread.c:38-49 | The rotation rotateleft_sectorids performs: element i is the old element (i + pos) mod length (partners: RotatedLeftAt, RotatedLeftPermutes, RotatedLeftFull). |
| DskRead.RotatedLeftAt | src/dskread.c:38-49 | Element i of the rotation is element (i + pos) mod spt. |
| DskRead.RotatedLeftPermutes | src/dskread.c:38-49 | A rotation is a permutation. |
| DskRead.RotatedLeftFull | src/dskread.c:38-49 | Rotating by a multiple of the length changes nothing. |
| DskRead.Lowest | src/dskread.c:51-62 | The search of rotate_sectorids: the lowest id below 0xFF and the index where it is first seen (partner: LowestIsFirstMinimum). |
| DskRead.LowestIsFirstMinimum | src/dskread.c:51-62 | The search gives the first index of a minimal id. |
| DskRead.RotatedToLowest | src/dskread.c:51-66 | After rotating to the lowest, the first descriptor's id is minimal and nothing is lost. |
| DskRead.TrackLengthRoundTrip | src/dskread.c:343-354 | Decoding the two length bytes low byte first gives the length modulo 65536, and any length below 65536 exactly. |
| DskRead.InitDiskHeaderMagic | src/dskread.c:343-354 | A header from init_diskinfo reads as a plain image, not an extended one. |
| DskRead.InitDiskHeader | src/dskread.c:343-354 | The 256 bytes init_diskinfo leaves (partners: InitDiskHeaderMagic, InitDiskHeaderGeometry, InitDiskHeaderZeros). |
| DskRead.InitDiskHeaderGeometry | src/dskread.c:343-354 | The container reads back the track and side counts as bytes and every track length modulo 65536. |
| DskRead.InitDiskHeaderZeros | src/dskread.c:343-354 | The creator field and the size table are zero. |
| DskRead.DiskInfo.Init | src/dskread.c:343-354 | The record holds the writer magic, the counts as bytes and the length bytes, and its bytes are the fresh disk header. |
| DskRead.TrackIndexSlots | src/dskread.c:412 | Every (track, side) pair of an image gets a slot of the record array, and the slot gives the pair back. |
| DskRead.TrackIndex | src/dskread.c:412 | readdsk's record index i x nsides + k (partners: TrackIndexSlots and TrackIndexInjective). |
| DskRead.TrackIndexInjective | src/dskread.c:412 | Distinct pairs get distinct slots. |
| DskRead.PhysicalSides | src/dskread.c:413 | The physical side is 0 or 1, starts at the start side, and alternates on a two-sided disk. |
| DskRead.PhysicalSide | src/dskread.c:413 | The side read for the k-th pass, (startside + k) mod 2 (partner: PhysicalSides). |

## Left out

- File and stream I/O (`stat`, `fopen`, `fread`, `fwrite`, `rewind`) is not modelled. Sources are byte sequences read from a position. The size `stat` reports is a parameter, None when it cannot be determined. Exported files are output byte sequences.
- The `fopen` failures of `amsdos_get_file` and the add operations are not modelled: opening always succeeds.
- Logging (`LOG`), `printf`-style formatting of error messages, and memory management (`malloc`, `free`, `realloc`, `atexit`) are left out. Messages are already-formatted strings.
- The image loader is replaced by the `Disk` constructor over a header and bytes. The reading of the file is not modelled.
- Bytes read beyond the end of the image or header read as 0. In C they are out-of-bounds reads.
- A `memcpy` or sector write that would overrun the image does nothing. In C it is an overrun.
- Stream bytes past the end of a source read as 0. C leaves them indeterminate.
- `dsk_get_info` is not part of this model. Its total sector count is the `sectors` parameter of `Amsdos`. It is assumed below 512, so that the uint8_t block loop of `get_free_block` ends. Its first sector id is `first_sector_id`.
- `dsk_new_empty`, `dsk_init_track_info` and the 3-argument `dsk_get_track_info` are not part of this model, nor is the track-initialisation loop of `amsdos_new_empty` (src/amsdos.c:489-508), which depends on them. Only the directory wipe of `amsdos_new_empty` is modelled.
- A track whose header lists no sector is a division by zero in `get_block_offset`. The model returns offset 0 there.
- The NULL track views that `first_sector_id`, `sectors_per_track`, `get_sector_offset` and `dsk_get_total_blocks` (src/dsk.c:374-376) dereference are read at the track's computed offset.
- `128 << sinfo->size` in `get_sector_offset_in_track` (src/dsk.c:175) is an int shift that overflows for size codes of 24 and more. The model computes 128 x 2^size unbounded.
- In `get_free_block` (src/amsdos.c:309-310) a track size below 256 makes the unsigned subtraction wrap. The model counts 0 blocks for such a track.
- AmsdosProps.AddStoresPayload: the add properties are stated over what the add writes (the sector contents, the blocks taken and the entries written), not over the final image. No lemma reads the new entries back from the directory slots the add took. No frame states that bytes outside those slots and the taken blocks' sectors are unchanged. Such a read-back needs every sector write of the add to leave the directory and the track headers in place, a condition over each intermediate image.
- Amsdos.Amsdos.AddFileInternal: its contract ties the new state to AddFileInternalSpec, so it inherits the gap of the line above: no directory read-back and no frame over the final image.
- AmsdosProps.AddBinaryStoresHeader: states the corrected binary add, whose header check sums 66 bytes. The C's 67-byte check is stated by AddBinaryAsWrittenStoresHeader, and the difference is the Findings row for src/amsdos.c:680-720.
- AmsdosProps.WipeFromBlanks: needs the same condition as WipeBlanksAll on the next line.
- AmsdosProps.WipeBlanksAll: holds when the 64 entries lie apart inside the image and no write of the wipe moves an entry. This is the same condition as AmsdosDir.UpdateDirReadBack.
- Dsk.DirEntryGetSize: requires the run to end inside the directory, because the C reads slot 64 before testing the bound.
- AmsdosDir.BlockSlots: for a record_count above 128, C reads block slots past the 16 of the entry. The model stops at slot 16.
- AmsdosDir.UpdateDirReadBack: holds only when the write does not move the entry's own position. The entry's position depends on the directory track's header, which a write over it could change.
- AmsdosProps.RemoveFileOnlyMarks: states that remove only ever writes 0xE5 bytes. Which slots change is the chain traversal of `RemoveFrom`, stated per step by MarkDeletedSetsUserByte rather than as one set of offsets.
- AmsdosProps.AddTakesIncreasing: states that the blocks one add hands out are distinct and free when each is taken (GetFreeBlockFree). It does not state them disjoint from the blocks the original directory lists as a whole-operation property.
- The variants in src/dsk.c:396-514 (a second `get_amsdos_filename`/`get_amsdos_extension` without base-name stripping, `get_dir_entry_for_file`, `write_entry_*`, `dsk_dump_file`) are outside the modelled core. So are `dir_entry_get_basename`/`dir_entry_get_name` (src/dsk.c:241-261) and `amsdos_get_dir_basename`/`amsdos_get_dir_name` (src/amsdos.c:160-164, 451-456), which only format names for display.
- The device side of src/dskread.c (`seek`, `read_ids`, `read_sect`, the file writes of `readdsk`) and `timestamp_diskinfo`, which reads the clock, are left out.
- The extra 30th descriptor that `rotateleft_sectorids` copies into its 29-entry temporary is not modelled. The model rotates the 29 slots of the record.

## Findings

| source | as written | input that shows it | evidently intended | confidence | as-written member | corrected member |
|---|---|---|---|---|---|---|
| src/amsdos.c:119-158 | The 67-byte checksum covers the low byte of the checksum field at bytes 66-67. `init_amsdos_header` computes it while the field is 0, so `is_amsdos_header` recognises a fresh header only when that low byte is 0. | File "A", user 0, size 0, addresses 0: the sum is 387, low byte 131, and the header is rejected. | Every header init_amsdos_header builds passes is_amsdos_header (sum over the 66 bytes before the field). | not executed | AmsdosHeader.InitHeaderAsWrittenRejected | AmsdosHeader.InitHeaderIsHeader |
| src/amsdos.c:244-273 | `remaining_records` goes negative after a block and is narrowed to uint8_t, so a sector past the file's records keeps MIN(512, 253 << 7) = 512 bytes. | An entry with record_count 1 and block 2 exports 640 bytes instead of 128. | Each sector keeps MIN(512, remaining x 128) bytes, none once no records remain. | not executed | AmsdosProps.ExportAsWrittenOverreads | AmsdosProps.ExportLength |
| src/amsdos.c:735-756 | `amsdos_add_ascii_file` passes the 128 bytes it read to `add_file_internal` as a header even after rewinding a source that had none, and also when it "strips" a real header. | Any source of 128 bytes or more without a header: its first 128 bytes are stored twice. | The header is stripped and nothing is put in front of the data. | not executed | AmsdosProps.AddAsciiAsWrittenRepeatsStart | AmsdosProps.AddAsciiStoresSource |
| src/amsdos.c:680-720 | `amsdos_add_binary_file` decides whether the source already has a header with the 67-byte `is_amsdos_header`, which rejects most headers that `init_amsdos_header` builds. | A source whose first 128 bytes are the header built for "A", user 0, size 0, addresses 0: the size grows by 128, the stream is rewound, and the old header is stored as data after the new one. | A header this tool wrote is recognised and replaced, so the data after the new header is the source from byte 128. | not executed | AmsdosProps.AddBinaryAsWrittenKeepsOwnHeader | AmsdosProps.AddBinaryReplacesOwnHeader |
| src/error.c:103-110 | `output_size += strlen(m) + (i > 0) ? 1 : 0` parses as `(strlen(m) + (i > 0)) ? 1 : 0`, so output_size grows by at most 1 per message and the 256-byte buffer never grows. | Two messages of 255 characters: 512 bytes are written into 256. | The buffer grows to hold the combined message and its terminator. | not executed | ErrorStack.OverflowAsWritten | ErrorStack.Stack.Get |
