# A verified model of prodosfs

prodosfs mounts an Apple II ProDOS 8 disk image as a read-only file system. This project
models its in-memory volume reader and proves what the reader is for: an image is brought
into one normal form when it is opened, directories list exactly their active entries, a
path resolves to the first match at every level, a read delivers the file's bytes. The two
text converters in `util/` are modelled as well.

An image is a sequence of bytes (`Bytes.bytes`, values 0 to 255). The objects that the
program updates in place are classes over an `array<byte>` (`Disks.Disk`,
`Directories.DirectoryHandle`, `Files.FileHandle`, `Volumes.Volume`); their methods do what
the C++ methods do, step by step, and are proved against functions of the image. Properties
of many calls are lemmas about these functions:

- `TrackOrder.ToBlockOrder`, `Obfuscation.Deobfuscated`, `Discovery.Discover` and
  `Mounting.Mount` say what an image file becomes in memory.
- `DirectoryListing.DirectoryView` is everything a directory cursor will deliver, how the
  listing ends included. It is defined for every directory, also for malformed ones whose
  block chain runs in a circle; `Circles` shows that its limit on the blocks entered is none.
- `Lookup.Resolve` is the recursive meaning of a path; `Lookup.Explains` states it once
  more, without recursion over entries, as a walk of first matches.
- `FileContents.Locate` finds the block of one position through the index blocks;
  `FileContents.Contents` is the whole file laid out, block after block.
- `Renaming.Renamed`, `Bitmap.PopSum`, `Paths.Split`, `Fuse.Fill`, `AppleWorks.Chained`,
  `MultiScribe.Runs` and `Cleaning.Cleaned` are the same for the other operations.

What these functions rest on is stated apart from them. `OnDisk` writes directory entries,
headers and index blocks out field by field and proves that the accessors read them back;
`Characters` says what case mapping and exclusive or do, letter by letter and bit by bit;
and `Samples` describes a volume of 320 blocks byte by byte, with a two-block root, a
two-block subdirectory, a seedling, a sapling, a tree, and block numbers above 255 in every
kind of pointer. `SampleRuns` runs the operations on it and states their results in figures.

Exceptions are `Outcome` values with a `Failure`. `OutOfBounds` stands for an access behind
the end of the image, which the source does not check. It is not always one behind the
mapping: the rest of the last page is mapped too and reads as zeros, and on pages of 4096
bytes that is all that a conversion reads behind a partial track. `Endless` stands for an
operation that never ends. The thread-local `error` is an object of class
`Errors.ThreadError`. What was read of the password file, and the memory behind a new volume
name, are parameters.

## Where the code does not do what it means to

Each of these is modelled as the code has it, with the exact condition under which the result
is right, and with a volume, path, file or body for which it is wrong.

- `S_SplitPath` passes a position where a length belongs, so only unseparated paths and
  rooted paths of two components come apart rightly (`Paths.SplitIsExactOnShortPaths`;
  "/a/b/c" does not, `Paths.DeepPathComesApartWrongly`). As long as no first-level directory
  lists a name with a slash, no path of three or more components is ever found
  (`Names.DeepPathsAreNotFound`).
- `CountBlocksUsed` counts with `sizeof(uint8_t)` for 8 and so visits one byte, not one bit,
  per block; it is right exactly when all the other bits it visits are clear
  (`Bitmap.CountIsRightIffRestClear`), and wrong on `Counterexamples.PADDED`.
- A sapling of exactly 131072 bytes throws on every read that reaches its end, and on no
  other (`FileTheorems.FullSaplingReads`), such as the file in
  `Counterexamples.FULL_SAPLING`.
- A seek that throws leaves the position and the cached blocks in disagreement, as the seek
  to the end of that same file; the next good seek mends it (`Files.FileHandle.Seek`).
- `Read` does not stop at the end of the file, so `prodosfs_read` reports the full size for
  every read that goes beyond it, and the last block comes over and over again behind the
  end (`Files.FileHandle.Read`); the file in `Counterexamples.SHORT` is one of 100 bytes of
  which 562 can be read.
- `_Next` moves the cursor to slot 13, which begins at a block's unused last byte. Listing is
  right exactly if, besides a right file count, this byte looks like an inactive entry in
  every block with active entries behind it (`DirectoryListing.ListsExactlyIff`); it is wrong
  on `Counterexamples.SENTINEL`.
- Where these bytes are clear, a file count above the number of active entries ends in an
  exception, not in an end of file (`DirectoryListing.RegularDirectoryLists`), as on
  `Counterexamples.OVERLONG`.
- A listing never ends exactly if its blocks lead into a circle without a slot in use, and
  fewer slots are in use before the circle than the file count says
  (`Circles.ListingNeverEndsIff`), as on `Counterexamples.CIRCLE`; a lookup never ends
  exactly if first matches lead it into such a directory that lists no match
  (`EndingLookups.LookupNeverEndsIff`).
- `Convert` does not set the dirty flag, so `diskutil normalize` refuses plain images in
  track-and-sector order (`Mounting.DirtyMeansModifiedIff`, `Mounting.ConvertedButNotDirty`).
- `Convert` stays inside the image only for whole tracks (`Disks.SourcesWithinImage`), not
  for `Counterexamples.PartialTrack`, which is taken for a track-and-sector image.
- The off-by-one in the password loop, which the source's comment admits, makes the last
  character of every password irrelevant (`Obfuscation.LastCharacterIsIgnored`).
- The MultiScribe loop recognises a code that begins with 0x02 only at the start of a body,
  and takes all the rest for text behind an empty text (`MultiScribe.RunsRecoverIff`,
  `MultiScribe.LaterRunsBeginWithOne`, `MultiScribe.SecondCodeIsLost`).

## Model

| member | source | states |
|---|---|---|
| Files.FileHandle.Seek | source/file.cxx:76-103 | a seek out of range changes nothing but the error; one in range moves position and cached blocks together to those of the offset, whatever they were before, or throws what the lookup of that offset throws |
| Files.FileHandle.MoveTo | source/file.cxx:91-100 | the cached index and data block become those of the given position, through one or two levels of pointers |
| Files.FileHandle.FollowPointer | source/file.cxx:21-30 | an index block's i-th pointer leads to a block, to the zero block, or to an exception for i above 255 or a block outside the volume |
| Files.FileHandle.ReadPiece | source/file.cxx:110-120 | one round of the read loop copies the file's bytes up to the end of the cached block, stays within that block, and then seeks on |
| Files.FileHandle.Read | source/file.cxx:105-123 | returns size exactly if all positions passed map to blocks; every byte delivered, the file's up to its end and its last block's again and again behind it; position and error afterwards |
| Files.FileHandle.ReadPieces | source/file.cxx:110-120 | the loop delivers all these bytes or meets a position that maps to no block |
| Files.ProgressStep | source/file.cxx:111-119 | one more piece leaves the position at the next block boundary, or stuck in the block of the end of file |
| Files.FileHandle.Eof | source/file.cxx:70-74 | true exactly at the end-of-file mark |
| Files.FileHandle.Type | source/file.cxx:64-68 | the type of the entry the handle was opened on |
| Files.FileHandle.Close | source/file.cxx:53-62 | drops entry, cached blocks and position |
| Files.OpenFileHandle | source/file.cxx:32-51 | a handle at position 0 with the blocks of position 0 cached, or the exception for another storage type or a pointer out of range |
| Files.CopyFromBlock | source/volume.cxx:298-303 | bytes copied out of a block, zeros for pointer 0, and nothing else in the buffer changes |
| Files.BlockIsFile | source/file.cxx:111-113 | the block cached for a position holds the file's bytes from there to the block's end |
| Files.DescriptionIsUnique | source/file.cxx:76-103 | the map and contents that a handle carries are exactly those of its entry |
| FileContents.LookupFindsContents | source/file.cxx:91-100 | the two-level lookup of a position finds the byte at this place of the file laid out block after block |
| FileContents.ContentsLength | source/file.cxx:32-51 | the laid-out file has end-of-file many bytes exactly if the storage type can hold them |
| OnDisk.IndexRoundTrip | include/prodos/block.hxx:107-117 | 256 block numbers written as low bytes and then high bytes are the pointers that are read |
| OnDisk.PointerBytes | source/file.cxx:21-30 | pointer i is the number p whose remainder by 256 is byte i and whose quotient is byte 256 + i |
| OnDisk.EntryRoundTrip | include/prodos/block.hxx:63-81 | an entry written field by field reads back: type, name, file type, key pointer and end of file |
| OnDisk.EntryNumbers | source/entry.cxx:199-211 | key pointer and end of file, by the places of their bytes |
| OnDisk.EntryKinds | source/entry.cxx:144-167 | inactive, seedling, sapling, tree and subdirectory by the value of the first byte |
| OnDisk.KeyBlockRoundTrip | include/prodos/block.hxx:27-61 | a key block written field by field reads back: next block, name, version, entry length, entries per block, counts, bit map pointer and total blocks |
| OnDisk.HeaderNumbers | include/prodos/block.hxx:27-61 | the 16-bit numbers of a directory block, by the places of their bytes |
| OnDisk.LinkRoundTrip | source/directory.cxx:75 | the next block of any directory block, from 0 to 65535 |
| OnDisk.VolumeBytes | source/volume.cxx:118-130 | the images that mount as they are, by the bytes that the checks look at |
| OnDisk.HeaderProblems | source/volume.cxx:119-130 | which check fails first, by the same bytes |
| OnDisk.MountFailures | source/volume.cxx:113-116 | files of a wrong size, without a block 2, or without a volume directory, and their exceptions |
| Samples.SaplingSample | source/file.cxx:97-100 | bytes of a 600-byte sapling whose second data block is block 301 |
| Samples.TreeSample | source/file.cxx:92-100 | bytes of a 131594-byte tree, from both index blocks and from a sparse block |
| Samples.SeedlingSamples | source/file.cxx:36-38 | the contents of two seedlings, byte for byte |
| FileTheorems.AllSeeksSucceedIff | source/file.cxx:76-103 | every seek in a file succeeds exactly if the pointers needed are in range and it is no sapling of 131072 bytes |
| FileTheorems.SaplingMaps | source/file.cxx:97-100 | the same for saplings, pointer by pointer |
| FileTheorems.TreeMaps | source/file.cxx:92-100 | the same for trees, for both levels of pointers |
| FileTheorems.FullSaplingReads | source/file.cxx:21-26 | a read of a 131072-byte sapling succeeds exactly if it ends before the end of file |
| FileTheorems.FileIsItsContents | source/file.cxx:76-123 | what positions map to, taken together, is the file laid out block after block |
| FileTheorems.WellFormedFileReads | source/file.cxx:105-123 | on a well-formed file no read throws, from any position and of any length, and the bytes to read are the file laid out |
| Directories.DirectoryHandle.NextEntry | source/directory.cxx:25-43 | delivers the first entry still to be listed and leaves the rest; at the end reports end of file and stays there; or throws, and then throws the same or reports the end on further calls |
| Directories.DirectoryHandle.Next | source/directory.cxx:68-83 | the cursor moves one slot, or to slot 0 of the next block of the chain, or throws and does not move |
| Directories.DirectoryHandle.SkipInactive | source/directory.cxx:34-38 | skipping ends on an active entry and passes over inactive ones only, or throws |
| Directories.DirectoryHandle.AtActive | source/entry.cxx:163-167 | whether the slot under the cursor is in use; with 13 entries per block the byte looked at lies in the current block |
| Directories.DirectoryHandle.Open | source/directory.cxx:54-66 | the whole listing is ahead after opening a key block; any other block is refused and changes nothing |
| Directories.DirectoryHandle.Close | source/directory.cxx:45-52 | forgets header, block and position |
| Directories.OpenDirectoryHandle | source/directory.cxx:19-23 | a handle at the start of the listing, or the exception |
| DirectoryListing.ListsExactlyIff | source/directory.cxx:25-83 | the listing is exactly the active entries and then the end of file, if and only if the file count is their number and byte 511 is clear in every block with active entries behind it |
| DirectoryListing.RegularDirectoryLists | source/directory.cxx:25-83 | for any file count, the active entries in chain order as far as the count goes, and an exception exactly if it is larger than their number |
| DirectoryListing.WellFormedDirectoryLists | source/directory.cxx:25-43 | a directory with a right file count lists exactly its active entries and then ends without an exception |
| DirectoryListing.ScanFindsActiveIff | source/directory.cxx:34-40 | from any slot on, as many entries as are active are the active ones exactly if these bytes are clear |
| DirectoryListing.ScanFindsActive | source/directory.cxx:34-40 | the cursor, its stops at slot 13 included, meets exactly the active entries ahead and then the end of the chain |
| DirectoryListing.ActiveExactly | source/directory.cxx:34-38 | an entry is listed exactly if it is an active slot 0 to 12 of a block of the chain, behind the header |
| DirectoryListing.ActiveOrdered | source/directory.cxx:68-83 | entries come in order of block, then slot, so none comes twice |
| DirectoryListing.ActiveCount | source/directory.cxx:68-83 | a chain has at most 13 entries per block, less the slots before the first |
| DirectoryListing.FileCountFits | source/volume.cxx:323-337 | a well-formed directory's file count is at most 13 per block less one, and its blocks at most those of the volume |
| DirectoryListing.ChainIsUnique | source/directory.cxx:75-80 | the next pointers give one chain only |
| DirectoryListing.ChainHasNoRepeats | source/directory.cxx:75-80 | a chain that ends meets no block twice |
| DirectoryListing.ChainFitsVolume | source/volume.cxx:328-334 | a chain is no longer than the volume has blocks |
| Samples.RootListing | source/directory.cxx:25-83 | a root of blocks 2 and 305 lists three entries of the first and one of the second |
| Samples.DirectoryListed | source/directory.cxx:25-83 | a subdirectory of blocks 3 and 300 lists one entry of each |
| Circles.SearchNeverEndsIff | source/directory.cxx:34-38 | skipping inactive slots never ends exactly if it runs into a circle of blocks without one in use |
| Circles.ListingIsSettled | source/directory.cxx:25-83 | a listing does not change however many blocks the cursor may enter |
| Circles.ListingNeverEndsIff | source/directory.cxx:25-83 | a listing never ends exactly if the next pointers lead into a circle without a slot in use and fewer slots are in use before it than the file count says, for any entries per block |
| Circles.ScanIntoCircle | source/directory.cxx:34-40 | a cursor on its way into such a circle delivers as many entries as slots are in use before it |
| Circles.HasChainIff | source/volume.cxx:328-334 | following the next pointers ends exactly if there is a chain, which is what CountRootDirectoryBlocks asks of the root |
| Circles.EndingChainsAreListed | source/directory.cxx:68-83 | a listing ends if its chain does, whatever else the header says |
| Volumes.Volume.GetEntry | source/volume.cxx:222-257 | "/" is the root; any other path gives the entry, the error or the exception that the recursive resolver gives, on every volume where it ends |
| Volumes.WalkTree | source/volume.cxx:236-256 | the loop over one handle, re-opened in place, computes the recursive search and ends even if directories contain each other |
| Volumes.Round | source/volume.cxx:236-252 | one round of this loop keeps the outcome of the search that is left |
| Volumes.Descend | source/volume.cxx:246-248 | re-opening the handle on a subdirectory continues the lookup there, or throws |
| Lookup.LookupIsExplained | source/volume.cxx:222-257 | in a well-formed tree every lookup follows first matches, one per level, and never throws |
| Lookup.ExplanationDecides | source/volume.cxx:236-256 | conversely a walk of first matches determines the result, the kind of error included |
| Lookup.ShapeOfWalk | source/volume.cxx:237-249 | found exactly if every component has its match; directory-not-found exactly if the walk stops at an entry that is no directory |
| Lookup.DeadEnds | source/volume.cxx:246-248 | a matching directory entry whose key pointer is out of range, or leads to a block that begins no directory, raises the exception |
| Lookup.FoundIsWithin | source/volume.cxx:237-240 | what is found lies in the image |
| Samples.FirstFileIsFound | source/volume.cxx:236-249 | "/DIR/F", in capitals or small letters, is slot 1 of block 3 |
| Samples.SecondFileIsFound | source/volume.cxx:236-249 | "/DIR/G" is slot 0 of block 300 |
| Samples.LastIsFound | source/volume.cxx:236-252 | "/last" is found behind three entries that do not match, in block 305 |
| Characters.SameIgnoringCaseIff | source/entry.cxx:175-179 | names match exactly if they are equally long and agree letter by letter, up to the two cases of one letter |
| EndingLookups.LookupNeverEndsIff | source/volume.cxx:236-252 | a lookup never ends exactly if first matches lead it into a directory that goes round for ever and lists no match |
| EndingLookups.LookupEnds | source/volume.cxx:236-252 | a lookup ends if no directory met goes round for ever |
| EndingLookups.LookupEndsIfChainsDo | source/volume.cxx:236-252 | a lookup ends if the chains of the directories met do, whatever else is wrong with them |
| Volumes.Volume.OpenFile | source/volume.cxx:259-272 | the handle of the file found; errors for what is missing or no regular file; exceptions of the lookup or of the constructor |
| Volumes.Volume.OpenDirectory | source/volume.cxx:274-296 | a handle at the start of the directory found; errors for what is missing or no directory; exceptions |
| Paths.SplitPath | source/volume.cxx:206-220 | the loop cuts the path as the specification function does |
| Paths.SplitIsExactOnShortPaths | source/volume.cxx:206-220 | the components are the right ones exactly for paths without separator and rooted paths with one |
| Paths.SplitCount | source/volume.cxx:213-217 | one component more than separators, and the last one is what follows the last slash |
| Paths.FirstComponent | source/volume.cxx:211-214 | the first component is what comes before the first separator exactly for rooted paths and paths without one |
| Paths.MiddleComponents | source/volume.cxx:214 | every component between the first and the last contains a slash |
| Paths.SplitNames | source/volume.cxx:206-220 | "/a" splits into a, "/a/b" into a and b |
| Paths.DeepPathComesApartWrongly | source/volume.cxx:214 | "/a/b/c" splits into "a", "b/c" and "c" |
| Names.DeepPathsAreNotFound | source/volume.cxx:206-257 | no path of three or more components is found in any volume whose first-level directories list no name with a slash; if two levels are well formed it ends in an error |
| Names.SlashMatchesNothing | source/entry.cxx:175-179 | a component with a slash matches no name without one |
| Names.ListedInRootIsFound | main.cxx:148-167 | the displayed name of every root entry, given back as a path, finds this entry, with and without extensions |
| Names.ListedInSubdirectoryIsFound | main.cxx:148-167 | the same for the entries of first-level directories |
| Names.ExtensionComesOff | main.cxx:159-167 | displaying a name and cutting its extension off gives the name up to a NUL back, behind any path without colon |
| Names.LastColon | main.cxx:163 | the last colon before a position, or none |
| Fuse.ReadFile | main.cxx:327-348 | for files of the volume, every byte served, translated for text files; the result is the size, an error number or an exception, and when; earlier exceptions on the handle make no difference |
| Fuse.TranslateInPlace | main.cxx:338-346 | the loop translates the first n bytes of the buffer and leaves the others |
| Fuse.TranslateTwice | main.cxx:341-344 | translating again changes nothing, and translated text is 7-bit without CR |
| Fuse.Translations | main.cxx:341-344 | what becomes of every byte: 13 and 141 become 10, the others lose the high bit |
| Fuse.ReadInPieces | main.cxx:327-348 | however a span of a file is cut into successive reads on one handle, they all succeed exactly if all its positions map to blocks, and then give the bytes of the span, translated for text files |
| FileSystem.Open | main.cxx:303-310 | a handle on the file that the path without extension finds, the error number, or the exception |
| FileSystem.ReadPath | main.cxx:288-349 | opening a well-formed file by its path and reading a span of it, in pieces of any sizes, gives its data blocks laid out one after the other, translated for text files |
| FileSystem.ReadListedFile | main.cxx:288-349 | so for every well-formed file of a well-formed root, under the name it is listed with |
| SampleRuns.ReadHello | main.cxx:288-349 | "/dir/f" of the sample reads HELLO |
| SampleRuns.ReadText | main.cxx:288-349 | "/last:TXT", with extensions and translation on, reads HI and an LF |
| Fuse.ServedTwice | main.cxx:338-346 | text that was served translates to itself |
| Fuse.ReadDirectory | main.cxx:495-519 | ".", "..", then the names of the entries in order, up to a NUL; the result is 0 at the end of the listing, the last error if the buffer is full |
| Fuse.FillLists | main.cxx:505-512 | the buffer gets the first entries' exported names, all of them if there is room, and how that ends |
| Fuse.WellFormedDirectoryIsShown | main.cxx:495-519 | a well-formed directory is shown completely and without error |
| SampleRuns.ListDirectory | main.cxx:495-519 | "/DIR" of the sample lists ".", "..", "F" and "G" |
| Fuse.ToErrno | main.cxx:88-106 | only no error and end of file become 0 |
| Fuse.ErrorNumbers | main.cxx:88-106 | the number for each error |
| Disks.Disk.constructor | source/disk.cxx:30-56 | the mapped image is the file, neither converted nor dirty |
| Disks.Disk.ReadBlock | source/disk.cxx:68-76 | a block number in range, or the exception |
| Disks.Disk.WriteBlock | source/disk.cxx:78-88 | overwrites one block and no other byte, and sets dirty; or throws and changes nothing |
| Disks.Disk.ReadTrackSector | source/disk.cxx:90-103 | the sector's offset, or the exception for track or sector |
| Disks.Disk.ReadRwtsBlock | source/disk.cxx:105-122 | both halves of the block come from their sectors and nothing else in the target changes; outside the image exactly if one sector is |
| Disks.Disk.Convert | source/disk.cxx:124-139 | the image in block order, in a new buffer, dirty unchanged; it leaves the image exactly for a size that is no multiple of a track |
| Disks.Disk.Save | source/disk.cxx:153-173 | what is written is the image in memory |
| Disks.SourcesWithinImage | source/disk.cxx:105-122 | all sources of all blocks lie in the image exactly if it has whole tracks |
| TrackOrder.TablesAreInverse | source/disk.cxx:108-109 | the two tables pair every sector of a track with one half-block |
| TrackOrder.SectorOrder | source/disk.cxx:108-109 | the sectors of a track in the order of its half-blocks |
| TrackOrder.PositionsAreABijection | source/disk.cxx:105-122 | the conversion permutes byte positions within each track |
| TrackOrder.ConversionRoundTrips | source/disk.cxx:124-139 | converting and converting back, either way round, restores the image |
| TrackOrder.SectorElevenIsHalfOfBlockTwo | source/volume.cxx:163 | sector 11 of track 0 is the first half of the converted block 2 |
| Obfuscation.Deobfuscate | source/volume.cxx:70-103 | the pointer-resetting loop computes the keystream exclusive-or, inside the password buffer, whenever there is a usable password |
| Obfuscation.KeyBuffer | source/volume.cxx:70-90 | a usable password leaves a 32-byte buffer that ends in a NUL |
| Obfuscation.UsablePasswords | source/volume.cxx:70-90 | a password of two characters or more, a newline at the end aside, is copied into the buffer, and no other is used |
| Obfuscation.Period | source/volume.cxx:94-102 | the pointer is reset after 1 to 30 characters |
| Obfuscation.DeobfuscatedTwice | source/volume.cxx:95-103 | the operation is its own inverse |
| Characters.XorFlips | source/volume.cxx:96 | exclusive or flips exactly the bits that are set in the second byte |
| Characters.BitsMakeByte | source/volume.cxx:96 | these bits make up the byte |
| Obfuscation.LastCharacterIsIgnored | source/volume.cxx:81-102 | for n NUL-free characters, with or without a newline behind them, byte i is combined with character i mod (n-1); the last character makes no difference |
| Discovery.GetVolumeDirectoryBlock | source/volume.cxx:145-183 | the four branches in order: which is taken, the image left in memory, both flags, or the exception |
| Discovery.TryTrackAndSector | source/volume.cxx:163-182 | the same for the two track-and-sector branches |
| Discovery.DiscoveryIsSound | source/volume.cxx:145-183 | whatever is found is a volume directory in block 2; the image differs from the file only by conversion and recovered block 2; dirty exactly if block 2 was rewritten |
| Discovery.ReopeningChangesNothing | source/volume.cxx:145-152 | the image found, saved and opened again with any password, takes the first branch |
| Discovery.FirstSectorDecides | source/volume.cxx:163-171 | testing sector 11 before conversion is testing block 2 after it, plain or obfuscated |
| Discovery.TrackOrderOpensTheSame | source/volume.cxx:163-168 | a track-and-sector image opens as the same bytes as its block-ordered form exactly if its raw block 2 passes neither check |
| Discovery.ProtectedVolumeOpensTheSame | source/volume.cxx:154-180 | the same for an obfuscated volume, in either order |
| SampleRuns.CipherMounts | source/volume.cxx:154-161 | an obfuscated image, written out, mounts as the small volume with the password ABC and does not mount without |
| Discovery.DiscoveryInBounds | source/volume.cxx:163-180 | discovery stays inside the image exactly under this condition on size and sector 11 |
| Mounting.MountingNormalises | source/volume.cxx:110-131 | a mounted image passes all checks and mounts again unchanged, with any password |
| Mounting.VolumesMountUnchanged | source/volume.cxx:118-130 | the images that pass all checks are exactly those that mount unchanged |
| Mounting.AllFormsMountAlike | source/volume.cxx:145-183 | block order, track order, and the obfuscated form of either mount as the same bytes |
| Mounting.DirtyMeansModifiedIff | source/disk.cxx:124-139 | dirty says that memory differs from the file, except exactly for plain track-and-sector images |
| Mounting.ConvertedButNotDirty | source/disk.cxx:124-139 | an eight-block volume in track order that opens converted but not dirty |
| Volumes.OpenVolume | source/volume.cxx:110-131 | the volume with the image, flags and checks that mounting specifies, or the first failure |
| Samples.SampleMounts | source/volume.cxx:118-130 | the sample volume mounts as it is |
| Samples.SampleExists | include/prodos/block.hxx:27-117 | there is a volume with all the bytes that the samples name |
| SampleRuns.OpenSample | source/volume.cxx:110-131 | opening it leaves it unchanged, neither converted nor dirty |
| Volumes.Normalize | util/diskutil.cxx:14-34 | writes the image in memory if it counts as modified and refuses otherwise |
| Volumes.Volume.CountBlocksUsed | source/volume.cxx:305-321 | the number of clear bits among the volume's own exactly if every other bit visited is clear; the exception exactly if the bytes visited do not all exist |
| Volumes.CountInBlock | source/volume.cxx:314-317 | the inner loop adds 1 less the population count for every byte |
| Bitmap.CountIsRightIffRestClear | source/volume.cxx:305-321 | this is the number of clear bits among the first n exactly if no other visited bit is set, and by how much it falls short |
| Bitmap.ClearAndSet | source/volume.cxx:305-321 | used and free bits add up to all |
| Bitmap.PopSumCountsBits | source/volume.cxx:314-317 | the population counts of n bytes add up to the set bits of 8n |
| Bitmap.BitOrder | source/volume.cxx:314-317 | block j's bit is bit 7 - j mod 8, by place value, of byte j / 8 |
| SampleRuns.CountSample | source/volume.cxx:305-337 | the sample has 312 blocks in use and two root blocks |
| Counterexamples.PaddingIsCounted | source/volume.cxx:315 | a volume of eight blocks for which the count is wrong |
| Counterexamples.SentinelIsListed | source/directory.cxx:71 | a volume that lists slot 13 of its first directory block and not its only entry |
| Counterexamples.OverlongCountThrows | source/directory.cxx:75-78 | a volume whose root listing throws at once |
| Counterexamples.CircleNeverEnds | source/directory.cxx:34-38 | a volume whose root listing never ends |
| Counterexamples.FullSaplingThrows | source/file.cxx:24-26 | a volume with a file that is found and has all its pointers, and that cannot be read whole |
| Counterexamples.ShortFileIsReadOn | source/file.cxx:105-123 | a file of 100 bytes of which 562 can be read, and where that leaves the position |
| Counterexamples.PartialTrackLeavesImage | source/disk.cxx:131-134 | an image of one and a half tracks that discovery converts, reading behind its end |
| Volumes.Volume.CountRootDirectoryBlocks | source/volume.cxx:323-337 | the length of the root's chain, or the exception for a chain that leaves the volume |
| Volumes.Volume.Name | source/volume.cxx:185-190 | the name stored in the header |
| Volumes.Volume.Rename | source/volume.cxx:394-411 | a legal name rewrites name and length in block 2 and sets dirty; any other changes nothing; the volume stays valid |
| Volumes.Volume.Save | source/disk.cxx:153-173 | what is written is the image in memory |
| Layout.IsValidName | source/entry.cxx:32-50 | accepts exactly a letter followed by up to 14 letters, digits and dots |
| Characters.LegalNames | source/entry.cxx:32-50 | the legal names, by their letters |
| Characters.CapitalLetters | source/volume.cxx:401-402 | toupper takes every small letter to its capital and leaves everything else |
| Renaming.NameReadsBack | source/volume.cxx:400-407 | the volume name reads back character by character, with small letters 0x20 lower, and the storage type is kept |
| Renaming.RenamedMounts | source/volume.cxx:118-130 | the renamed image passes every constructor check |
| Renaming.ListingKept | source/volume.cxx:404-407 | every directory, well formed or not, lists the same entries and ends the same way |
| Renaming.LookupKept | source/volume.cxx:404-407 | every lookup that meets no entry overlapping the new name gives the same result |
| Renaming.TreeIsClear | source/volume.cxx:404-407 | in a well-formed tree none lists an entry over the new name, if block 2 comes in no chain behind its first block |
| Renaming.FileKept | source/volume.cxx:404-407 | every file whose blocks are not block 2 has the same map and bytes |
| RenamedVolumes.RenamedVolumeMounts | source/volume.cxx:394-411 | the renamed image has the new name, character by character in upper case, and opens again from what is saved, unmodified |
| SampleRuns.RenameSample | source/volume.cxx:394-411 | renamed to "1up", which is refused, and to "hello.1", the sample is HELLO.1 |
| RenamedVolumes.RenamingIsInvisible | source/volume.cxx:394-411 | on a well-formed volume every lookup gives the same result, every directory found shows the same names, and every file found that is not in block 2 reads the same |
| AppleWorks.TranslateLine | util/awp2txt:116-139 | the line after all substitutions in the script's order |
| Substitution.Substitute | util/awp2txt:116 | one global substitution, character by character |
| AppleWorks.ChainIsSimultaneous | util/awp2txt:116-139 | successive substitutions amount to replacing every character once, if no replacement contains a code |
| AppleWorks.RulesAreInert | util/awp2txt:116-139 | no replacement text of the script contains a character that is replaced |
| AppleWorks.TranslatedLine | util/awp2txt:116-139 | with either palette every code of the line becomes its own text, by a table ordered by code, everything else stays, and no byte 0x01 to 0x18 is left |
| AppleWorks.ImagesByCode | util/awp2txt:116-139 | the text for every code |
| AppleWorks.Palettes | util/awp2txt:12-24 | the escape sequences of the two palettes |
| MultiScribe.Translate | util/wpf2txt:92-115 | the loop takes the body apart into runs and cleans every text |
| MultiScribe.TakeRun | util/wpf2txt:93-105 | one round takes a non-empty run off the front |
| MultiScribe.IndexOfOne | util/wpf2txt:104 | the first place of 0x01, or -1 |
| MultiScribe.RunsConserve | util/wpf2txt:92-105 | codes and texts joined are the body |
| MultiScribe.RunsRecoverIff | util/wpf2txt:92-105 | a document is taken apart into its own runs exactly if all codes but the first begin with 0x01 and all texts but the last are not empty |
| MultiScribe.LaterRunsBeginWithOne | util/wpf2txt:94-105 | a code that begins with 0x02 is seen only at the start of a body |
| MultiScribe.SecondCodeIsLost | util/wpf2txt:94-105 | a document of two runs whose second code is lost |
| MultiScribe.TwoRuns | util/wpf2txt:92-105 | a body of two runs, character by character, is taken apart into these two |
| Cleaning.Clean | util/wpf2txt:107-115 | the four rewritings give the text cleaned with one round of each loop |
| Cleaning.DeleteAllPairs | util/wpf2txt:112 | the NUL-pair loop ends with the result of its first round |
| Cleaning.DeleteAllControls | util/wpf2txt:115 | the same for the loop over control codes |
| Cleaning.PairsAreDeletedAtOnce | util/wpf2txt:112 | one round leaves no pair |
| Cleaning.ControlsAreDeletedAtOnce | util/wpf2txt:115 | one round leaves no control code |
| Cleaning.CleanedIsOneReading | util/wpf2txt:108-115 | the four rewritings equal one left-to-right reading in which a NUL takes the next character, but no line end, and of a tab one blank |
| Cleaning.CleanedIsPrintable | util/wpf2txt:108-115 | no CR, tab, 0x00-0x08 or 0x0E-0x1F is left |
| Cleaning.CleanedCharacter | util/wpf2txt:108-115 | what becomes of every single character, by its code |
| Cleaning.NulTakesNext | util/wpf2txt:112 | a NUL takes the next character with it |
| Cleaning.CleanedIsItselfIff | util/wpf2txt:108-115 | cleaning keeps exactly the text without such codes, and cleaning twice is cleaning once |

## Left out

- Volumes.Volume.GetEntry: promises nothing of a lookup that never ends; the same holds for Directories.DirectoryHandle.NextEntry and Fuse.ReadDirectory on a listing that never ends, and for Volumes.Volume.CountRootDirectoryBlocks on a root chain that runs in a circle, where the source never returns.
- Lookup.Search: an entry that lies partly outside the image counts as an access outside it, although the source may happen to read only the part inside.
- Volumes.Volume.Rename: the bytes that the source copies from behind a short name are a parameter.
- Discovery.GetVolumeDirectoryBlock: without a usable password the source tests an uninitialised block; here no recovery succeeds then.
- RenamedVolumes.RenamingIsInvisible: asks that no chain comes to block 2 behind its first block, since such a directory would list the root's header as an entry, and leaves open what a file in block 2 reads.
- Names.ListedInRootIsFound: asks for names that are not empty, hold no slash (and, with extensions on, no colon) up to a NUL, and differ in more than case, and for type names without colon; the file type table itself is not part of this model.
- Files.FileHandle.Read: asks for a handle whose last seek did not throw, as every caller in the source does; a read without a seek after an exception delivers bytes of a block left over.
- Fuse.ReadFile: virtual files, whose text is generated, are not part of this model; the same holds for FileSystem.Open.
- Fuse.ToErrno: the second entry for err_position_out_of_range in the source's table never takes effect and is not modelled.
- AppleWorks.TranslateLine: the record loop around it, with sections, alignment and page width, is left out.
- MultiScribe.Translate: header test, fonts, sizes and styles are left out.
- Opening, mapping, writing and renaming of files, and the release of memory: a disk is made from the bytes of a file, and saving returns bytes.
- Mounting, unmounting, options, logging, attributes, timestamps, the catalog and file type names: operating system plumbing and formatting.
- Character classes and case mapping follow the "C" locale.
