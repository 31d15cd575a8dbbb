# A verified model of the core of ps3netsrv-go

The server offers files over the network to a console: it builds a disc image out of a directory on the fly, opens compressed and encrypted images as if they were plain ones, answers a binary request protocol, and admits clients by address range. This project models the parts of it where a mistake would be silent, and proves what each of them is for.

**The virtual image** (`pkg/fs/viso`, `internal/iso9660`). A breadth-first scan lists the directories and places the files; one pass per hierarchy builds the directory records and patches them into their parents; path tables, sector positions and descriptors are computed, everything is shifted, and only then is anything encoded. `Volume` is the specification of such an image as one value, `VirtualISO` is the object with its mutable fields, and its methods are proved against that value. `Walk` is an independent reader in the sense of ECMA-119: it knows sectors 16 and 17, decodes records byte by byte, follows extents, and knows nothing about how the image was made. The main theorem says that what it reads is the source tree exactly if no subdirectory shares its identifier with a sibling, and nothing otherwise.

- Modules, from bottom to top: `Wrappers`, `Arithmetic`, `Bits`, `Bytes`, `Blocks`, `Sectors`, `Records` (formats and their decoders), `Encoding` (the growing buffer), `SourceTree`, `Scan`, `ScanOrder`, `Build` (one pass as a function), `Links`, `Clashes` (when links are right, said about the tree), `Layout`, `Volumes`, `Positions` (what lies where), `Walk`, `Descriptors` (what the first sectors say, byte by byte), `Consistency`, `PathTables` (path tables read back), `Recovery` (what the reader finds when identifiers clash), `Serving` (the list of files, the search in it, and what a read does file by file), `VirtualIso` (the object), `EndToEnd` (clients that read the served image).

**Readers that stand for a flat image.** `Cso` decompresses blocks inside the caller's buffer, with a block cache and a sliding index cache; `EncryptedIso` decrypts sectors in place with a mutable chaining value; `Chd` serves hunks through a cache and strips sub-code from CD sectors. Decompression and the block cipher are function-valued fields about which nothing but lengths (or, where ciphertext is to come out plain, invertibility) is assumed. Every `Read` is specified by one fixed image and by the exact condition under which it fails or panics. `Files` holds what they share: outcomes, seek targets, copies.

**State machines.** `Shutdown` interleaves the steps of any number of `Serve` and `Close` calls over the mutex, the flag, the listener set and the wait group. `Commands` says what every command of a session means for what the session holds, for the file system and for the client, and states laws of that; `Session` is the object that runs one connection's commands against a file system that may answer anything, is proved against those meanings, and keeps a ledger of handles. `Proto` is the request stream between client and server.

**Address ranges.** `IpRange` connects byte-wise masking and lexicographic comparison with prefixes (section 3.1 of RFC 4632).

A Go panic is an outcome (`OutOfRange`, or a flag) and not a precondition, wherever the code can reach it.

## Where the code does less than one would expect

Each of these is proved, with the exact condition or with a concrete case.

- Two sibling directories whose identifiers coincide, for instance after upper-casing, get wrong links, and the image cannot be read any more: `LinksHoldIffUnambiguous`, `RecoveredIffUnambiguous`, `ClashExample`.
- A record of more than 255 bytes, a path-table identifier of 256 bytes or more, or a volume identifier of more than 32 does not survive encoding or panics: `RecordRoundTrip`, `PathTableSizes`, `EncodePathTable`, `Init`.
- `VirtualISO.Read` fails exactly if it has to pass an empty file, and panics exactly if it would end inside the padding of a file. Where a file's padding is written it is written whole, whatever part of it is left, so that a read which begins inside padding loses the beginning of the next contents: `LeadOutcome`, `Masked`.
- `Cso.File.Read`: `ReadOutcome` says when a read fails or panics. Among these are unaligned reads near the end of the file, whole-block reads that include a short last block or go past it, and zero-length unaligned reads. A small read of a short last block delivers what the cache held before (`ShortBlockOverreads`, `Behind`). The index lookup accepts the entry behind the last one and panics on it.
- `Chd.ChdFile.Read` can deliver bytes from behind the logical end (`OverreadsExactly`); `Seek` then refuses to stay there.
- `EncryptedIso.EncryptedISO.Read` panics exactly if a read begins inside an encrypted sector that others of its region follow, or ends inside one that the buffer has no room for. Where the buffer has room, the incomplete cipher block at the end is decrypted together with stale bytes of the buffer: `Torn`, `PartlyRead`, `ShortReadExample`, `StaleBytesShow`.
- A directory handle is dropped open if `Stat` on it fails; handles whose `Close` fails are kept and closed again later.
- The sector-size probe looks for the descriptor one sector's difference behind its place for 2048-byte sectors, although sixteen sectors lie in front of it and `internal/handler/handler.go:514-518` describes the probe as general. Of the seven sizes only 2048 is found and only 2352 is right by default: `RightSizes`, `MissedDisc`.
- A buffered read is not answered at all if it asks for nothing or for something behind the end of the open file, so that the client goes on waiting: `UnansweredRead`.
- `WriteFile` of the client sends nothing and still succeeds with a chunk size of zero: `ChunksCover`.

## Model

| member | source | states |
|---|---|---|
| EndToEnd.ServedImageRecoversTree | pkg/fs/viso/virtual_iso.go:111-136 | What a constructed image serves shows, to a reader that only follows volume descriptor, directory records and extents, exactly the source tree, in either hierarchy, if identifiers do not clash and everything fits the format |
| EndToEnd.ReadTree | pkg/fs/viso/virtual_iso.go:653-783 | A client that reads the volume in any sequence of sector reads has the source tree in its hands if the tree is unambiguous, and bytes that no reader accepts as a volume if it is not |
| EndToEnd.ReadRun | pkg/fs/viso/virtual_iso.go:653-783 | Seek to a sector and any run of sector reads: the pieces concatenate to the image, if no file is empty |
| Walk.ImageRecoversTree | pkg/fs/viso/virtual_iso.go:161-212 | For every source tree and both hierarchies, `ReadVolume` started at sector 16 or 17 of the image yields the whole tree: names, stamps, and every file byte for byte, files over 4 GiB included |
| Recovery.RecoveredIffUnambiguous | pkg/fs/viso/virtual_iso.go:161-212 | For every tree that fits the format, `ReadVolume` yields the tree exactly if no subdirectory is spelled like a sibling or "..", and nothing at all otherwise |
| Recovery.PassPassed | pkg/fs/viso/virtual_iso.go:290-446 | With or without clashes: what a whole pass leaves of every record; subdirectory records that are not the first with their identifier are never filled in |
| Recovery.EveryDirReads | pkg/fs/viso/virtual_iso.go:433-443 | If the root of an image can be read, so can every directory of the tree |
| Recovery.AlwaysRepresentable | pkg/fs/viso/virtual_iso.go:293-410 | Also with clashes every final record survives its fields |
| Walk.HierarchiesAgree | pkg/fs/viso/virtual_iso.go:168-178 | What the reader finds in the ISO and in the Joliet hierarchy of one image denotes the same files and directories, up to the spelling of names |
| Walk.ReadsBack | pkg/fs/viso/virtual_iso.go:290-446 | Every directory extent, read at its predicted location, denotes its part of the source tree |
| Walk.ReadFileFrom | pkg/fs/viso/virtual_iso.go:344-381 | Following the multi-extent chain of a file and concatenating its extents gives the file's bytes and stops after its last record |
| Walk.FinalRepresentable | pkg/fs/viso/virtual_iso.go:293-410 | Under the limits of the format every final record survives its fields: locations and lengths fit 32 bits, record lengths one byte |
| VirtualIso.VirtualISO.Read | pkg/fs/viso/virtual_iso.go:653-760 | From any offset: ends as `ServeOutcome` says and delivers what `ServedRight` says. Outside file padding this means: fails exactly if it crosses an empty file, panics exactly if it ends inside a file's padding, otherwise delivers the image and then zeros; from inside padding, the zeros that are too many cover the beginning of the next contents. The offset moves by what was read, and only on success |
| VirtualIso.VirtualISO.ServeFiles | pkg/fs/viso/virtual_iso.go:685-741 | The files zone of a read from any position, over any number of files: the outcome of `LeadOutcome`, and the image but for what is lost under padding |
| VirtualIso.VirtualISO.ServeFile | pkg/fs/viso/virtual_iso.go:688-740 | One file, as `FileAnswer`: error iff it does not own the position, panic iff the buffer ends inside the padding that is due, else contents and the whole padding, whatever part of it is left |
| VirtualIso.VirtualISO.ServeFs | pkg/fs/viso/virtual_iso.go:672-680 | The encoded structures are served as the beginning of the image |
| VirtualIso.VirtualISO.ServePad | pkg/fs/viso/virtual_iso.go:743-757 | The padding area, and whatever the buffer has room for behind it, reads as zeros |
| Serving.AlignedReadsAreClean | pkg/fs/viso/virtual_iso.go:726-739 | Sector-aligned bounds are never inside padding, and without empty files nothing is crossed |
| Serving.CleanReads | pkg/fs/viso/virtual_iso.go:686-741 | A read that does not begin inside padding loses nothing, and its outcome is decided by empty files in the way and by where it ends |
| VirtualIso.VirtualISO.Seek | pkg/fs/viso/virtual_iso.go:762-783 | Moves to exactly the targets between 0 and the size, refuses all others and unknown origins |
| Files.SeekLaws | pkg/fs/viso/virtual_iso.go:762-783 | A seek goes to every position up to the end; from the current position and from the end it goes as many bytes further as it is told |
| VirtualIso.VirtualISO.Init | pkg/fs/viso/virtual_iso.go:86-136 | Refuses all but directories; panics exactly if a volume name, path-table identifier or game code does not fit its field; otherwise the object serves the specified image |
| VirtualIso.VirtualISO.WriteFSStructures | pkg/fs/viso/virtual_iso.go:564-651 | Encodes exactly the specified blocks in front of the files, or panics exactly if something does not fit |
| VirtualIso.VirtualISO.BuildFSStructures | pkg/fs/viso/virtual_iso.go:161-212 | Scan, both passes, path tables, positions and shifts leave the fields of the specified volume |
| VirtualIso.VirtualISO.ScanDirectory | pkg/fs/viso/virtual_iso.go:214-288 | The breadth-first queue ends with every directory listed once, in the order of `Pushed`, and files placed one behind the other |
| VirtualIso.VirtualISO.PlaceEntries | pkg/fs/viso/virtual_iso.go:250-272 | Sorted entries: files get consecutive sectors, directories are queued |
| VirtualIso.VirtualISO.FileExtents | pkg/fs/viso/virtual_iso.go:340-381 | Emits the extents of one file and predicts the size they will take |
| VirtualIso.VirtualISO.MakeDirEntries | pkg/fs/viso/virtual_iso.go:290-446 | Records of one directory and the patches to its parent, as one build step; the parent always has its records already |
| VirtualIso.VirtualISO.MakePathTable | pkg/fs/viso/virtual_iso.go:448-477 | One entry per directory up to the table limit, with parent number and location |
| VirtualIso.VirtualISO.CalculateSizes | pkg/fs/viso/virtual_iso.go:479-496 | The volume is padded by at least 32 sectors to a multiple of 32 |
| VirtualIso.VirtualISO.MakeVolumeDescriptors | pkg/fs/viso/virtual_iso.go:498-562 | Both descriptors, with table positions; the root record is a pointer |
| VirtualIso.VirtualISO.EncodeDescriptors | pkg/fs/viso/virtual_iso.go:596-599 | The bytes are those of the descriptors, of which `DescriptorTells` and `DescriptorEnds` say what they hold; the root record that is encoded is the one fixed after the descriptors were made |
| VirtualIso.VirtualISO.FixAllLBA | pkg/fs/viso/virtual_iso_items.go:87-96 | Every record of both hierarchies and every file is shifted once, by the base that belongs to it |
| VirtualIso.VirtualISO.EncodePathTable | internal/iso9660/iso9660.go:268-285 | Encodes the table, or panics exactly if an identifier has 256 bytes or more |
| VirtualIso.CollectedInOrder | pkg/fs/viso/virtual_iso_items.go:150-169 | Sorting the collected files by location changes nothing: the scan order is the order of locations |
| VirtualIso.FilesContiguous | pkg/fs/viso/virtual_iso_items.go:150-169 | The files tile the area from the first file sector to the padding without gap or overlap |
| VirtualIso.VolumeIsFlat | pkg/fs/viso/virtual_iso.go:190-209 | The image is the encoded structures, then each file padded to a sector, then zeros |
| Serving.FindFile | pkg/fs/viso/virtual_iso_items.go:174-194 | The binary search finds the only file that owns a sector, whenever there is one |
| Serving.OwnerExists | pkg/fs/viso/virtual_iso_items.go:173-194 | Every position of the files zone has an owner |
| Serving.Iteration | pkg/fs/viso/virtual_iso_items.go:196-205 | One file ends a read or hands it on; the offset that the iteration tracks falls behind the buffer by the zeros that were too many, and less so with each file that these cover |
| Serving.MaskGoesOn | pkg/fs/viso/virtual_iso.go:725-739 | What is lost behind a file is what is lost from the next file on |
| Links.LinksHoldIffClashFree | pkg/fs/viso/virtual_iso.go:433-443 | After a pass every child record agrees with the child's own '.' exactly if no directory identifier repeats an earlier identifier of its parent |
| Clashes.LinksHoldIffUnambiguous | pkg/fs/viso/virtual_iso.go:433-443 | The same in terms of the source tree, which a caller can check: exactly if no subdirectory is spelled like ".", ".." or another entry of its directory |
| Clashes.ClashFreeIffUnambiguous | pkg/fs/viso/virtual_iso.go:214-288 | Identifiers clash in the record lists of a scan exactly if they clash in the tree that was scanned |
| Links.PassLinks | pkg/fs/viso/virtual_iso.go:168-178 | Without clashes the pass leaves for every directory exactly the linked records: '.', '..', files, children |
| Links.StepLocation | pkg/fs/viso/virtual_iso.go:297 | The running size of the list is the location of the next directory |
| Links.ListSizeIs | pkg/fs/viso/virtual_iso_items.go:98-116 | The size of any built prefix of the list is the location of the directory behind it |
| Clashes.ClashExample | pkg/fs/viso/virtual_iso_items.go:48-63 | A tree with sibling directories "A" and "a", under upper-casing: however it is scanned, the links come out wrong |
| Consistency.DirectoriesCrossLink | pkg/fs/viso/virtual_iso.go:422-443 | In the final image a child record equals the child's '.', and the child's '..' equals the directory's '.' |
| Consistency.DotDecodes | pkg/fs/viso/virtual_iso.go:632-648 | The extent that a final '.' denotes decodes to exactly that directory's records |
| Consistency.RootIsItsOwnParent | pkg/fs/viso/virtual_iso.go:422-432 | '..' of the root, '.' of the root and the descriptor's root record give the same extent |
| Consistency.PathTableDescribesTree | pkg/fs/viso/virtual_iso.go:448-477 | Parents have smaller numbers, parent numbers and levels never decrease, and locations are those of the final '.' records of the same hierarchy |
| PathTables.ImageTableDescribesTree | pkg/fs/viso/virtual_iso.go:604-630 | What a reader finds who takes place and size of a path table from the bytes of the descriptor in the image (132 to 152 of sector 16 or 17, in the table's byte order): for each of the first 65536 directories the sector of its own '.', the unsigned number of its parent, and its identifier |
| PathTables.TableReadsBack | internal/iso9660/iso9660.go:268-285 | Decoding an encoded table gives its entries, as far as their fields keep them |
| Consistency.ParentNumberEncoded | pkg/fs/viso/virtual_iso.go:465 | The signed 16-bit conversion of a parent number keeps its encoding for every number the table can hold |
| ScanOrder.ParentIsPusher | pkg/fs/viso/virtual_iso_items.go:77-85 | The parent found by searching paths is the directory whose processing queued the item |
| ScanOrder.ParentsNonDecreasing | pkg/fs/viso/virtual_iso.go:214-288 | Later directories never have an earlier parent |
| ScanOrder.LevelsNonDecreasing | pkg/fs/viso/virtual_iso.go:214-288 | The list is ordered by depth |
| ScanOrder.KidsAreSubPaths | pkg/fs/viso/virtual_iso.go:384-391 | The child records of a directory are its subdirectories, all of them, in sorted order |
| Scan.QueueShrinks | pkg/fs/viso/virtual_iso.go:278-285 | The scan ends: each processed directory takes more weight from the queue than its subdirectories add |
| Scan.ScanStep | pkg/fs/viso/virtual_iso.go:278-285 | One turn of the scan keeps list plus queue equal to everything pushed so far, without repetition |
| Clashes.EveryDirListed | pkg/fs/viso/virtual_iso.go:278-285 | The scan reaches every directory of the tree |
| SourceTree.SortedOrderUnique | pkg/fs/viso/virtual_iso.go:246-248 | The order of the enumeration does not matter: two sorted arrangements of the same entries are equal |
| SourceTree.SortKeepsEntries | pkg/fs/viso/virtual_iso.go:246-248 | Sorting loses and invents no entry |
| SourceTree.LexIs | pkg/fs/viso/virtual_iso.go:246-248 | The order of names: by the first byte in which they differ, a prefix first |
| Build.ExtentsTile | pkg/fs/viso/virtual_iso.go:344-381 | Extents tile the file from its first sector to its last byte, lengths fit 32 bits, exactly the non-final ones announce another |
| Build.HowManyExtents | pkg/fs/viso/virtual_iso.go:344-381 | One extent if the size fits 32 bits; else as few as it takes of 2^32 - 2048 bytes; all under the name with its version |
| Positions.DirectoryInImage | pkg/fs/viso/virtual_iso.go:632-648 | Every directory of both hierarchies lies in the image at its computed location, whole |
| Positions.TableInImage | pkg/fs/viso/virtual_iso.go:604-630 | Each of the four path tables lies where the descriptor values say; `ImageTableDescribesTree` takes place and size from the encoded descriptors |
| Positions.DescriptorInImage | pkg/fs/viso/virtual_iso.go:593-602 | The two descriptors are sectors 16 and 17 |
| Positions.FileInImage | pkg/fs/viso/virtual_iso.go:262-271 | Every file lies at its predicted sector, zero-padded |
| Positions.FsSize | pkg/fs/viso/virtual_iso.go:190-196 | The encoded structures end exactly where the files were expected to begin |
| Positions.ImageSize | pkg/fs/viso/virtual_iso.go:479-496 | The image is exactly as long as the volume size says |
| Positions.Padding | pkg/fs/viso/virtual_iso.go:479-496 | Behind the files there are between 32 and 63 sectors of padding, up to a multiple of 32 |
| Descriptors.DescriptorTells | pkg/fs/viso/virtual_iso.go:505-551 | Byte by byte, what sectors 16 and 17 of the image say: type, block size 2048 and the image's size in blocks in both byte orders, path table size, the sector of the little-endian table at 140 and of the big-endian one at 148, the volume's name, and the escape sequences of Joliet |
| Descriptors.DescriptorEnds | internal/iso9660/iso9660.go:305-326 | The rest of those sectors: the root record, the name, the time of creation in its field and no other times, version 1 |
| Descriptors.TerminatorInImage | pkg/fs/viso/virtual_iso.go:554-561 | Sector 18 ends the descriptors |
| Descriptors.SystemAreaTells | pkg/fs/viso/virtual_iso.go:565-594 | Read back from a PS3 image: one range, from sector 0 to the last sector of the image, then the console's name and the game code with its hyphen, then zeros; the system area of a plain image is empty |
| EndToEnd.Ps3ChangesTwoSectors | pkg/fs/viso/virtual_iso.go:565-594 | PS3 mode changes the first two sectors and moves nothing |
| Layout.PathTableSizes | internal/iso9660/iso9660.go:255-285 | The predicted table size is at most the encoded one, and equal exactly if every identifier has fewer than 256 bytes |
| Records.PackedSize | internal/iso9660/iso9660.go:240-246 | Folding AddSize over any records predicts exactly the position that folding Encode reaches, from any start |
| Records.NoCrossing | internal/iso9660/iso9660.go:221-238 | No record crosses a sector boundary |
| Records.WhereRecordsGo | internal/iso9660/iso9660.go:221-246 | A record goes where the last one ends if it stays clear of the end of that sector, and else to the next sector, even if it would just fit |
| Records.RecordLayout | internal/iso9660/iso9660.go:177-238 | The positions of all fields of an encoded record, numbers in both byte orders |
| Records.RecordRoundTrip | internal/iso9660/iso9660.go:221-238 | A record is read back exactly if its fields fit, that is, if it has at most 255 bytes and its numbers 32 bits |
| Records.RootRoundTrip | internal/iso9660/iso9660.go:199-210 | The same, in both directions, for the record inside a descriptor |
| Records.ExtentRoundTrip | internal/iso9660/iso9660.go:221-238 | A directory's extent decodes to exactly its records, padding skipped |
| Encoding.Encoder.EncodeRecord | internal/iso9660/iso9660.go:221-238 | Appends the record, in a new sector if it would reach the end of this one; the size check never panics |
| Encoding.Encoder.EncodeDirectory | pkg/fs/viso/virtual_iso.go:633-639 | Appends the whole extent of a directory |
| Encoding.Encoder.PadLastSector | internal/iso9660/iso9660_encoder.go:18-22 | Zero-fills to the next sector boundary, and not beyond |
| Encoding.Encoder.AppendString | internal/iso9660/iso9660_encoder.go:80-101 | Pads to the field's length, or panics exactly if the string is longer |
| Sectors.MaskIsAlignUp | internal/iso9660/iso9660.go:92-96 | The bit mask computes what its comment promises, the size in whole sectors |
| Cso.File.Read | pkg/fs/cso/cso.go:106-202 | For every offset and buffer length, and a last block of any size or none: the outcome is `ReadOutcome` (done, failed or panic), and what is delivered agrees with the decompressed image as far as that goes; behind a short last block it is what the cached block holds there. What that image is made of says `ImageIsMadeOf` |
| Cso.ImageIsMadeOf | pkg/fs/cso/cso.go:52-67 | What the image holds for each block, by the bytes of the file: the stored bytes themselves if the entry's top bit is set in version 1 or ZSO, or if they are no fewer than a block in version 2; else what LZ4 makes of them in ZSO or with the top bit in version 2, and what DEFLATE makes of them otherwise |
| Cso.OpenSource | pkg/fs/cso/cso.go:37-71 | Takes exactly the files with magic CISO and version 1, or version 2 and a header size of 24, or ZISO, version 1 and a header size of 24, with the header's fields from their places |
| Cso.BlocksCover | pkg/fs/cso/cso_items.go:43-49 | There are just as many blocks as the uncompressed size takes |
| Cso.File.DecompressInPlace | pkg/fs/cso/cso.go:162-180 | Writing decoded block i into the caller's buffer never overwrites compressed bytes of later blocks at its end; it fails exactly if the block cannot be decompressed |
| Cso.File.ReadBlocks | pkg/fs/cso/cso.go:141-201 | The loop ends as `BlocksOutcome` says: done exactly if the buffer holds whole blocks of which the last is not short, or less than one block but no less than its compressed size |
| Cso.File.DecompressWhole | pkg/fs/cso/cso.go:149-180 | Over any number of blocks: fails exactly at a last block that cannot be decompressed, panics exactly where the buffer is not used up, else delivers the image |
| Cso.File.UpdateCachedBlock | pkg/fs/cso/cso.go:215-264 | Afterwards the cached block is the numbered block, and behind a short one what was cached before; it fails exactly if a whole buffer does not fit between the block's position and the end of the file, or the block cannot be decompressed |
| Cso.File.SelectDecompressor | pkg/fs/cso/cso.go:291-304 | The codec is that of the variant, the index's top bit and, in version 2, the stored size |
| Cso.File.Seek | pkg/fs/cso/cso.go:319-340 | Moves to exactly the targets between 0 and the uncompressed size |
| Cso.IndexEntryCache.ValueOf | pkg/fs/cso/cso_items.go:97-121 | In any order of lookups the result is the entry on disk; the entry one behind the last is not refused but panics, and the window stays the file's window |
| Cso.IndexEntryCache.OffsetOf | pkg/fs/cso/cso_items.go:132-139 | The stored position without its top bit, shifted in 64 bits |
| Cso.Source.StoredIsSmaller | pkg/fs/cso/cso.go:141-143 | Any run of compressed blocks is no larger than the blocks it decompresses to |
| Cso.Source.ExtendByBlock | pkg/fs/cso/cso.go:170-180 | A part of the image that ends where a block begins goes on with that block |
| Cso.ShortBlockPanics | pkg/fs/cso/cso.go:149-158 | Whole blocks can be read up to a short last block, but a read that includes it panics |
| Cso.ShortBlockOverreads | pkg/fs/cso/cso.go:187-197 | A smaller read of a short last block succeeds, also where it delivers more than the image has |
| EncryptedIso.EncryptedISO.Read | pkg/fs/encryptediso/encrypted_iso.go:147-159 | Panics exactly if the read cuts through an encrypted sector that its buffer cannot hold (`Torn`); else the buffer ends up as `Decrypted` says, and every wholly covered sector is that of one fixed image, whatever was read before. `SectorComesOutPlain` says that this image is the plain disc |
| EncryptedIso.SectorComesOutPlain | pkg/fs/encryptediso/encrypted_iso.go:181-201 | A sector between clear regions that was encrypted under a vector of twelve zeros and its own number comes out plain, by any cipher that decryption undoes; other sectors come out as they are |
| EncryptedIso.CbcBlockIs | pkg/fs/encryptediso/encrypted_iso.go:192 | Every block of a chain: the decrypted block, combined with the encrypted block before it or the vector |
| EncryptedIso.ClearedIs | pkg/fs/encryptediso/encrypted_iso.go:171-179 | What is zeroed is the header of eight bytes and eight more for each region, iff that is wanted |
| EncryptedIso.EncryptedISO.DecryptData | pkg/fs/encryptediso/encrypted_iso.go:181-195 | Each sector that begins among the bytes read and that the buffer can hold is decrypted once, with its own number as initial vector, iff some region holds it; slices are bounded by the buffer and not by what was read |
| EncryptedIso.PartlyRead | pkg/fs/encryptediso/encrypted_iso.go:190-193 | An encrypted sector that the file ends in: the whole cipher blocks that were read come out right, the incomplete one is decrypted together with what the buffer held behind it |
| EncryptedIso.ShortReadExample | pkg/fs/encryptediso/encrypted_iso.go:157 | The same short read panics into a buffer of its own size and not into one with room for whole sectors |
| EncryptedIso.StaleBytesShow | pkg/fs/encryptediso/encrypted_iso.go:190-193 | Two such reads into buffers that differ behind the file's end deliver different bytes |
| EncryptedIso.EncryptedISO.ClearRegionsData | pkg/fs/encryptediso/encrypted_iso.go:171-179 | The part of the region map that was read is zeroed iff that is wanted |
| EncryptedIso.EncryptedISO.SetIVForSector | pkg/fs/encryptediso/encrypted_iso.go:197-201 | Read as a big-endian number, the last four bytes of the vector are the sector number and the others are zero, independent of all earlier state |
| EncryptedIso.EncryptedISO.Seek | pkg/fs/encryptediso/encrypted_iso.go:161-169 | The tracked offset stays the position of the file |
| EncryptedIso.ParseRegions | pkg/fs/encryptediso/encrypted_iso.go:77-124 | Accepts exactly the maps with two or more ordered, non-empty regions from sector 0 on; the list has as many empty regions in front as real ones |
| EncryptedIso.MapIs | pkg/fs/encryptediso/encrypted_iso.go:77-124 | Where the numbers of a region map lie, and what holds of an accepted one |
| EncryptedIso.MapIsValid | pkg/fs/encryptediso/encrypted_iso.go:94-124 | Every map that begins at sector 0, with two or more regions in order and none empty, is accepted |
| EncryptedIso.HeldByRegion | pkg/fs/encryptediso/encrypted_iso.go:101-124 | A sector is held by the list exactly if it lies strictly between two consecutive clear regions below sector 2^31 |
| EncryptedIso.BetweenOnce | pkg/fs/encryptediso/encrypted_iso.go:103-113 | No sector lies between two different pairs of clear regions |
| EncryptedIso.AlignedIsWhole | pkg/fs/encryptediso/encrypted_iso.go:181-195 | Sector-aligned reads never cut a sector, so all of them return slices of the one image |
| EncryptedIso.ReadRun | pkg/fs/encryptediso/encrypted_iso.go:147-169 | Seek to a sector and any run of sector reads: the pieces concatenate to the one image |
| EncryptedIso.TornByRegion | pkg/fs/encryptediso/encrypted_iso.go:184-192 | The panic condition in terms of the map equals the one in terms of the region list |
| EncryptedIso.CbcRoundTrip | pkg/fs/encryptediso/encrypted_iso.go:192 | Chained decryption undoes chained encryption under the same key and vector |
| EncryptedIso.CbcMode.CryptBlocks | pkg/fs/encryptediso/encrypted_iso.go:192 | Decrypts in place and only there, whatever the chaining value was used for before |
| Chd.CDFile.Read | pkg/fs/chd/libchdr_cd.go:25-56 | Delivers exactly the requested slice of the concatenated sector data, up to its end |
| Chd.CDFile.Seek | pkg/fs/chd/libchdr_cd.go:58-79 | Moves to exactly the targets between 0 and the size |
| Chd.CDFile.PositionIsUnit | pkg/fs/chd/libchdr_cd.go:9-23 | A position maps into an existing hunk, inside its bounds, to the bytes of the view at that position |
| Chd.Content.SectorIsUnit | pkg/fs/chd/libchdr_cd.go:9-23 | Each sector of the view is the beginning of the unit of that number in the decompressed file |
| Chd.CDFile.ViewSize | pkg/fs/chd/libchdr_common.go:339-344 | The view is as long as its declared size if all counted sectors exist |
| Chd.Content.UnitInImage | pkg/fs/chd/libchdr_cd.go:9-23 | When units divide hunks, unit u lies at u times the unit size of the decompressed file |
| Chd.Content.AllSectorsExist | pkg/fs/chd/libchdr.go:92-110 | What is checked when a CD is opened makes every counted sector exist |
| Chd.AsCD | pkg/fs/chd/libchdr_common.go:314-345 | Accepts exactly CD codecs with tracks of one sector size, and sums their frames |
| Chd.CodesOnly | pkg/fs/chd/libchdr_common.go:129-134 | Codecs are those of a CD if the first begins with "cd" and so does each other that is there |
| Chd.SectorDataSize | pkg/fs/chd/libchdr_common.go:207-238 | The size is one of the five known ones |
| Chd.SizesByType | pkg/fs/chd/libchdr_common.go:207-238 | Which track types have which size |
| Chd.NamedSize | pkg/fs/chd/libchdr_common.go:207-238 | A type that names a sector size has that size, in either case, except two sizes that mode 1 does not know |
| Chd.ChdFile.Read | pkg/fs/chd/libchdr.go:200-250 | Delivers the decompressed file up to the end of the last readable hunk, by direct or cached hunks |
| Chd.ChdFile.LoadHunk | pkg/fs/chd/libchdr.go:180-198 | Afterwards the cached hunk is the numbered hunk |
| Chd.ChdFile.Seek | pkg/fs/chd/libchdr.go:252-273 | Moves to exactly the targets between 0 and the logical size |
| Chd.Content.OverreadsExactly | pkg/fs/chd/libchdr.go:211-246 | A read delivers bytes from behind the logical end exactly if it asks for them and hunks do not divide that end; a read that delivers less than it asks for ends with the last readable hunk |
| Shutdown.RunsAreSafe | pkg/server/server.go:41-62 | In every interleaving of any number of Serve and Close calls: the group counts the tracked listeners outside critical sections, is never negative, and no listener is closed twice |
| Shutdown.NothingAfterClose | pkg/server/server.go:181-200 | Once a Close has passed the wait group, the listener set is empty and never grows again |
| Shutdown.StepInv | pkg/server/server.go:145-162 | Every step of every thread keeps the invariant behind the safety statements |
| Shutdown.ServeStepInv | pkg/server/server.go:41-62 | Steps of Serve, deferred calls included; `DeniedMeansShutdown`, `ServeGetsToAccept` and `LateServeNeverAccepts` say who is let in |
| Shutdown.CloseStepInv | pkg/server/server.go:181-210 | Steps of Close, with listeners swept in any order |
| Shutdown.DeniedMeansShutdown | pkg/server/server.go:145-157 | In every state reached, a listener is only denied if the shutdown flag is set |
| Shutdown.ServeGetsToAccept | pkg/server/server.go:41-49 | A call of Serve that finds the mutex free and no shutdown gets to accept by its own steps alone, with its listener in the set and the group one higher |
| Shutdown.LateServeNeverAccepts | pkg/server/server.go:145-157 | A call that has not looked at the flag when it is set never accepts and its listener never enters the set, whatever happens |
| Shutdown.CloseLocksTwice | pkg/server/server.go:181-200 | A Close that waits has had the mutex once, and one that has returned twice |
| Shutdown.NoDeadlock | pkg/server/server.go:181-200 | With at least one Close some step is due, accepting connections aside, until all calls have returned |
| Shutdown.MovesAreBounded | pkg/server/server.go:41-62 | A run can only take a bounded number of steps other than accepting connections |
| Shutdown.EveryCallReturns | pkg/server/server.go:41-62 | Every run with a Close takes a bounded number of steps other than accepting; a due step of that kind exists exactly as long as some call has not returned; and from every state reached all calls can finish |
| Session.Session.Serve | pkg/server/server.go:80-143 | Over a connection, changes and answers are those of the commands that were handled, one after the other; afterwards every handle has been closed once more than in vain, unless Stat failed on it when its directory was opened; without such mishaps exactly once; without write access nothing is changed |
| Session.Session.Handle | pkg/server/server.go:212-247 | Each command makes the changes, leaves the handles held and gives the answer of its `Meaning`, or ends the connection, and keeps the handle ledger right, whatever the file system answers |
| Session.Session.HandleOpenDir | internal/handler/handler.go:43-75 | The new directory replaces the old one, which is closed, and two slashes at the end of its path ask for two levels; if Stat fails the new handle is dropped open |
| Session.Session.HandleReadDirEntry | internal/handler/handler.go:77-118 | The first entry that is not "." or ".." and that Stat finds; an error of ReadDir ends it; at the end the directory is closed and forgotten, or kept if that fails |
| Commands.FirstKeptAt | internal/handler/handler.go:87-117 | The entry that is reported is the first that is not passed over |
| Session.Session.HandleReadDir | internal/handler/handler.go:192-209 | Reports exactly the specified names of one or two levels; nested handles are all closed |
| Session.Session.ReadDir | internal/handler/handler.go:129-190 | Every subdirectory that is opened is closed once, also when the listing fails |
| Session.Session.HandleOpenFile | internal/handler/handler.go:227-267 | The old file is closed, the new one held even if Stat fails, with the sector size `AssumedSize` |
| Session.Session.HandleCloseFile | internal/handler/handler.go:269-284 | Closes the file; keeps it if Close fails |
| Session.Session.HandleCreateFile | internal/handler/handler.go:362-397 | Creates and holds a file, or closes the old one for a directory; refuses without write access before touching anything |
| Session.Session.HandleWriteFile | internal/handler/handler.go:399-421 | Writes only to the held file and only with write access |
| Session.Session.HandleRemove | internal/handler/handler.go:423-472 | Deletes only with write access |
| Session.Session.HandleMkdir | internal/handler/handler.go:440-455 | Creates only with write access |
| Session.Session.HandleGetDirSize | internal/handler/handler.go:474-503 | The sizes of the files in the order of the walk up to the first on which Stat fails, passing over what cannot be opened; every directory it opens is closed |
| Session.Session.HandleReadFile | internal/handler/handler.go:286-311 | A buffered read answers what `Meaning` says |
| Session.Session.HandleReadFileCritical | internal/handler/handler.go:313-327 | A direct read sends what there is and ends the connection if that is less than asked for |
| Session.Session.HandleReadCD2048Critical | internal/handler/handler.go:329-360 | Sectors are sent one by one until one is not there |
| Commands.ChangesBy | pkg/server/server.go:212-247 | Which commands change what: MadeDir exactly for Mkdir, Removed exactly for DeleteFile and Rmdir, Created exactly for CreateFile where Stat lets it, Written exactly for WriteFile with the held handle and the data; nothing else and nothing without write access |
| Commands.CwdBy | internal/handler/handler.go:43-118 | The directory that is held and how deep it is listed change only when one is opened or read to its end |
| Commands.RoBy | internal/handler/handler.go:227-284 | The file that is held, its contents and its sector size change only when one is opened or closed |
| Commands.WoBy | internal/handler/handler.go:362-397 | The file to write changes only with an attempt to create one |
| Commands.AnswersBy | pkg/server/server.go:249-482 | Success is reported exactly of what has been done |
| Commands.ReadsBy | internal/handler/handler.go:286-327 | What a read delivers lies in the open file where it was asked for, and is as long as asked or up to the end of the file |
| Commands.UnansweredRead | pkg/server/server.go:340-384 | Exactly when a buffered read is not answered at all: a file is open and nothing is asked for, or something behind its end |
| Commands.SectorsBy | internal/handler/handler.go:348-358 | A run of CD sectors is delivered whole exactly if the last is there; each is the first 2048 bytes of its sector behind the prefix of 24 |
| Commands.WritesGoToCreated | internal/handler/handler.go:362-421 | Over a whole connection, data to write go to the file that was created last |
| Commands.ListedOne | internal/handler/handler.go:129-190 | The names of a flat listing are those of all entries whose Info or Stat works |
| Commands.ListedTwo | internal/handler/handler.go:129-190 | The names of a deep listing are the files of the directory and of its subdirectories; it fails exactly if a directory on either level cannot be opened or one on the first cannot be read |
| Commands.SizeStops | internal/handler/handler.go:474-503 | The size ends at the first file on which Stat fails |
| Commands.SizeOfAll | internal/handler/handler.go:474-503 | If Stat works, every file counts once, wherever it is |
| Session.Session.Close | internal/handler/state.go:18-54 | Nothing is held afterwards, whatever Close answers |
| Commands.DetermineSectorSize | internal/handler/handler.go:505-540 | The smallest known size at whose probed place a magic string appears, or none |
| Commands.DetectedSize | internal/handler/handler.go:249-264 | The sector size that is assumed, for every file, by the places of the magic strings in it: the smallest size that shows one that many bytes behind 32792, and 2352 if none does or the file is shorter or longer than such discs are |
| Commands.RightSizes | internal/handler/handler.go:253-264 | Of the discs of probed size with their descriptor in place and nothing like one elsewhere, the session assumes the right sector size exactly for 2048, which it finds, and 2352, which is the default |
| Commands.MissedDisc | internal/handler/handler.go:505-540 | For each of the five other sizes, a disc of two megabytes with its descriptor in place that the session takes for one with 2352 byte sectors |
| Proto.StreamRoundTrip | pkg/proto/read.go:17-24 | Any list of requests with fitting lengths, concatenated as the client encodes it, is read as the same list |
| Proto.RequestRoundTrip | pkg/client/client.go:558-618 | A request is read back and nothing else consumed exactly if its path has fewer than 2^16 bytes, its data fewer than 2^32 |
| Proto.AnnouncedLength | pkg/client/client.go:370-396 | The length that the server sees is that of the trailer, cut to its field |
| Proto.WireFormat | pkg/proto/types.go:13-62 | The bytes of every request: opcode, fields at their places, trailer |
| Proto.AnyStream | pkg/proto/read.go:17-217 | What the server makes of any byte stream: which beginnings are requests and which not, which request it is by its second byte, how many bytes it takes and what its path or data are; a path cut short is an error, data to write are taken as far as they go |
| Proto.Client.WriteRequest | pkg/client/client.go:558-618 | Sends opcode, zero-filled command and trailer |
| Proto.Client.Send | pkg/client/client.go:76-519 | Each request method sends its encoding |
| Proto.Client.WriteFileInChunks | pkg/client/client.go:370-407 | Sends one write request per chunk, in order |
| Proto.ChunksCover | pkg/client/client.go:380-387 | The chunks are the data exactly if the chunk size is not zero or there are no data; none is empty or too big |
| Proto.WrittenInChunks | pkg/client/client.go:370-407 | What the server reads of a file sent in chunks is the file |
| Proto.Reader.ReadCommand | pkg/proto/read.go:17-24 | Consumes sixteen bytes or fails |
| Proto.Reader.ReadStringN | pkg/proto/read.go:208-217 | Consumes exactly the announced bytes, or fails if the stream is shorter |
| Proto.Reader.ReadShort | pkg/server/server.go:212-247 | The commands without a trailer, read field by field |
| Proto.Reader.ReadRequest | pkg/server/server.go:108-142 | One round of the command loop reads what `Decode` specifies |
| Proto.Reader.ReadAll | pkg/server/server.go:108-142 | The loop reads exactly the requests of the stream |
| IpRange.ParseCIDROrMask | pkg/iprange/iprange.go:72-127 | Accepts exactly valid prefixes and contiguous IPv4 masks; the range contains exactly the addresses with the same prefix, minus the lowest and highest if two host bits remain; left is never above right |
| IpRange.IntervalIsPrefix | pkg/iprange/iprange.go:112-113 | The lexicographic interval from the masked to the filled address holds exactly the addresses with the same masked prefix |
| IpRange.SizeOfMask | pkg/iprange/iprange.go:98-103 | A mask has a size exactly if it is the mask of that prefix length |
| IpRange.BoundsHold | pkg/iprange/iprange.go:115-121 | Changing the last bits of the bounds leaves out exactly the lowest and the highest address |
| IpRange.BoundsOrdered | pkg/iprange/iprange.go:115-121 | The bounds are in order for every address and prefix length |
| IpRange.RangeIsNetwork | pkg/iprange/iprange.go:123-126 | Back in IPv6 form the bounds still hold exactly the network |
| IpRange.NetworkIsInterval | pkg/iprange/iprange.go:112-121 | As numbers: the addresses with the same quotient by two to the number of host bits, without the first and the last if there are four or more |
| IpRange.MaskOrNumber | pkg/iprange/iprange.go:91-106 | A prefix length and the mask that is the number 2^32 - 2^(32 - n) mean the same network of an IPv4 address, and no other mask does; IPv6 takes no mask |
| IpRange.BadPrefixLength | pkg/iprange/iprange.go:104-110 | The numbers that are refused: below 0, above 128, and above 32 for IPv4 |
| IpRange.LastByMask | pkg/iprange/iprange.go:129-136 | Sets every bit outside the mask |
| IpRange.V4RangeIsV4 | pkg/iprange/iprange.go:138-154 | A range between two IPv4 addresses holds IPv4 addresses only, in their own order |
| IpRange.TwoEnds | pkg/iprange/iprange.go:138-160 | Two ends make a range exactly if they are of one family and in numeric order, and it holds exactly the addresses between them, ends included |
| IpRange.MappedForm | pkg/iprange/iprange.go:138-154 | An IPv4 address in IPv6 form, and back |
| IpRange.LeqIsNumeric | pkg/iprange/iprange.go:157-160 | The lexicographic comparison is the comparison of big-endian numbers |

## Left out

- VirtualIso.VirtualISO.Read: says nothing about the buffer's contents after a failure.
- EndToEnd.ServedImageRecoversTree: requires that every field fits its format and that identifiers do not clash; `RecoveredIffUnambiguous` states what happens with a clash, the round-trip lemmas what happens to an oversized field.
- Recovery.RecoveredIffUnambiguous: requires that no directory is spelled like ".", the single byte zero, which no file system allows in a name.
- Commands.DetermineSectorSize: the probe's reads are modelled on the bytes of the file; a read error, which the code reports like a missing magic string, is not.
- Encoding of volume timestamps, recording timestamps and the mangling of names: identifiers and stamps are opaque byte strings that a `Naming` spells per hierarchy.
- The order of entries with equal names: `slices.SortFunc` is modelled as a stable insertion sort; names in one directory are distinct, for which `SortedOrderUnique` shows that the algorithm does not matter.
- The file system's answers during a scan: the tree is a value that does not change between scan and read, so errors of `Open`, `Stat` and `ReadDir`, and files that grow or shrink, are not modelled; `Stat` returns the name that was enumerated.
- The cache of open file handles behind an image (`openOnDemand`, `closeOpened`): contents are read by path.
- The record lists of the directory items are two sequences parallel to the list of items, and the descriptor's pointer to the root record is a reference to that place, followed when descriptors are encoded; aliasing beyond that is not modelled.
- The generated random bytes of the PS3 information sector are parameters.
- Integer width: sizes and sector numbers are unbounded, except where a field is encoded or decoded, where 32-bit and 16-bit truncation is explicit; images of 2^31 sectors and more and offsets of 2^63 and more are not covered.
- EncryptedIso.EncryptedISO.Read: the file must have fewer than 2^31 sectors, so that the signed sector arithmetic does not wrap; `HeldByRegion` gives the same bound for the region map. The underlying file delivers all that is left up to the buffer's length, and leaves the rest of the buffer alone.
- AES, DEFLATE, LZ4, libchdr and the seekable zstd reader: uninterpreted functions.
- Errors of the underlying reader in the three image readers: a failed refill leaves a cache tag that disagrees with its data (`pkg/fs/cso/cso_items.go:112-118`, `pkg/fs/chd/libchdr.go:186-196`), so no invariant survives it.
- Cso.File.Read: assumes that positions in the index increase by at most the block size and stay in the file, and that every block but the last decompresses to a whole block; the branch that grows the temporary buffer for larger blocks is unreachable then.
- Buffers with spare capacity: the capacity of a caller's buffer is its length. Slices of such a buffer that the code makes itself keep its capacity.
- CHD headers and metadata as text, the checks of `NewFile` other than the ones that make every sector exist, and the missing reset of the handle in `Close`.
- The closing of connections that are accepted but not tracked yet, idle timers and contexts; the shutdown model is about listeners.
- Answers are values and not bytes: the encoding of results, file times in them, errors while the open file is read (its contents are a byte string that does not change) and errors of the connection are not modelled.
- The session starts from commands and not from the stream: that a refused or failed write leaves its data in the stream, where they are read as the next commands, is not modelled; `Proto.Reader` reads all data of a write.
- Cleaning of paths and the special name of `OpenFile` that closes the file (a command of its own in the model).
- Parsing of addresses as text, single addresses and the choice between the notations: `ParseCIDROrMask` starts from parsed addresses.
- Openers and their chaining, redump keys, 3k3y masking, SFO lookup, command line, configuration, service integration: thin or mostly constants.
