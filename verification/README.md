# A verified model of the mount tools

This project models the parts of the repository that do real work on data and state, and proves what they promise:

- `tools/mkfatimg.py`: the FAT32 image writer (`create`) and its independent reader (`inspect`), which follow the
  Microsoft FAT32 File System Specification (sections 3.2, 5.4 and 7.2).
- `MountPkg/Drivers/LoopDxe/LoopDxe.c` and the loop part of `MountPkg/Application/Mount/LoopDisk.c`: the resident loop
  device factory, which follows the UEFI Specification 2.10 (sections 13.9 and 13.10).
- `MountPkg/Application/Mount/MapReport.c`: the refresh of the Shell's mapping table and the volume diff.
- `MountPkg/Application/Mount/FsDriver.c`: finding, joining and deduplicating driver paths.

`dafny verify dfyconfig.toml` checks everything.

## The main results

**Create, then inspect.** `create` writes a tree through one growing and shrinking buffer; `inspect` parses the bytes by
another route. For every tree whose names the long-name codec keeps and whose *directory* writes land, the reader
recovers the geometry, lists exactly that tree in order, finds every allocated cluster claimed once and no conflict; it
looks at no file byte. The tree itself, read back by following each file's chain, is the tree given if and only if
*every* write lands (`WholeProgram.ListingUndoesCreate`, `WholeProgram.ContentsIff`, `WholeProgram.CreateThenInspect`).
So `inspect` may print the whole tree and no conflict over an image that has lost a file
(`WholeProgram.CrowdedOutcome`). On an image that ends before each directory cluster whose write missed, `inspect` fails
if and only if some directory write missed (`LostDirectories.RaisesIff`). The listing is the same behind a partition
table (`WholeProgram.PartitionedImageListed`). With names of 1 to 819 characters without NUL, the names that do not come
back are exactly the dot names and those with a character above 0xFFFE (`KeptNames.NamesIff`). On any image, whoever
made it, whose inspection ends, a cluster is reported as a conflict exactly when two different walked chains share it
(`Chains.ConflictsAreSharedClusters`).

**When the writes land.** The writer has no capacity check, and the last slice of every directory is shorter than its
cluster, so the buffer shrinks while it is being filled. The finished image represents the tree *if and only if* every
slice assignment starts inside the buffer at its turn (`Splices.HoldsIffLands`, `FormatImage.Create`). One spare cluster
per directory is enough (`WholeProgram.SpareClustersSuffice`); fitting alone is not (`WholeProgram.FittingIsNotEnough`).
Each region whose own assignment landed is in place at the end, whatever the others do (`Splices.LandedHolds`). When the
writes land, the length of the image has a closed form (`Splices.LandedLength`), and every byte of the data region that
nobody writes is zero (`Splices.LandingPads`): each cluster of a directory or file is its bytes padded with zeros
(`ReadBack.RegionPadded`).

**The bytes on disk.** What the writer puts where is stated field by field, apart from the functions that build it: the
whole boot sector (`Geometry.BpbBytes`), every byte of a directory entry and of a long-name record
(`RecordBytes.ChildRecordsAre`, `RecordBytes.RecordsAre`), the checksum as a rotation and an addition
(`RecordBytes.ChecksumSteps`), and the eleven characters of an 8.3 field in terms of the name's own
(`NameFields.FieldOfName`). So is what the reader takes from any image (`RecordBytes.ParsedAs`,
`RecordBytes.UnitsDecoded`, `WalkLaws.EntryLine`, `Partition.BpbIs`).

**Loop devices.** Over every run of mounts, creates, destroys, reads, closes and file changes, no backing file is left
open without a holder as long as destroys ask for their file, device nodes repeat only a multiple of 256 creations
apart, nothing leaks from the pool, a destroy hands back exactly the disk's file, open unless somebody closed it, and
every proper read through a disk returns exactly the image's bytes, whatever happened to the cursor and whoever shares
it, until the disk is destroyed or its file closed or rewritten (`LoopDevice.EveryRun`, `LoopDevice.RunLosesNone`,
`LoopDevice.NodesCollideEvery256`, `LoopDevice.DestroyReturnsFile`, `LoopDevice.MountedImageReads`). That each disk's
file is open and held by that disk alone is up to the callers, as the factory takes any file it is given
(`MountPkg/Drivers/LoopDxe/LoopDxe.c:248`): a step keeps it so if and only if it neither succeeds in giving a disk a
file that is closed or that a live disk holds, nor closes a live disk's file (`LoopDevice.StepKeepsIff`), and every run
of such steps does (`LoopDevice.RunKeeps`). Careless runs reach a disk over a closed file (`LoopDevice.ClosedFileTaken`)
and two disks over one file (`LoopDevice.SharedFile`). What each call answers on each failing path is stated in
`LoopAnswers`.

**Shell map and drivers.** A refresh ends, touches no existing row, gives each unnamed volume the least free `fsN:` name
at its turn, and is idempotent; the alias scan is token splitting; the driver test is a suffix test on path components;
over requests with untruncated paths no driver path is loaded twice, and a driver that Secure Boot refused once is
reported as a success after any run of further requests, with nothing loaded for it (`FsDriver.ReportedEverAfter`).

## Where the code and its own words differ

The model follows the code.

- The volume label literal has twelve bytes for an eleven-byte field (`tools/mkfatimg.py:107`), so each boot sector copy
  makes the image one byte longer, while each directory makes it shorter. When the writes land, the finished length is
  the larger of two numbers: the nominal length plus two minus the directories' shortfall, and the end of the last
  written byte (`FormatImage.MadeImage`). It is `tot_sec * 512` if and only if the last written byte is the volume's
  last byte (`FormatImage.NominalLengthIff`), as in `WholeProgram.NominalLengthReached`.
- `fat_sz_for` is described as iterating to the fixed point (`tools/mkfatimg.py:66-69`). It moves at most once. Its
  result is always sufficient, and the least sufficient size if and only if it is 1 or one sector less is not sufficient
  (`Geometry.FatSzFor`); for 257 MB it gives 514 where 513 would do.
- `short_name` is described as free of collisions within the directory (`tools/mkfatimg.py:175-177`). The names in use
  start out empty (`tools/mkfatimg.py:298`), so a child such as "..." or ".. ." below the root gets the 8.3 field of the
  ".." entry. All fields of a directory differ if and only if it is the root or no child's name is one or two dots and
  spaces, a dot, and at most three spaces (`Directory.FieldsDifferIff`).
- `lfn_decode` is described as falling back to the 8.3 name on a checksum mismatch (`tools/mkfatimg.py:436-437`). It
  returns at the first 0xFFFF without looking at the checksum, so it falls back exactly for names without 0xFFFF
  padding.
- `short_name` tries 999 numbers (`tools/mkfatimg.py:191`), but the cut to eight characters leaves a six-character
  prefix with nine different candidates.
- The writer checks no capacity, and a tree that fits the volume to the last cluster may still lose its last file, which
  the reader does not notice (`WholeProgram.FittingIsNotEnough`, `WholeProgram.CrowdedOutcome`), or a directory, on
  which the reader fails (`LostDirectories.FittingLosesDirectory`, `LostDirectories.LosingOutcome`): the slices assigned
  for directories shorten the buffer (`tools/mkfatimg.py:351-352`). The exact condition is `Splices.Lands`.
- `LOOP_MIN_SIZE` is said to make the descriptor at LBA 16 fit (`MountPkg/Application/Mount/LoopDisk.c:39`). Sixteen
  blocks are LBA 0 to 15; what the check gives is that `FileSize / 2048 - 1` does not underflow.
- The device nodes of the loop driver are said to stay unique across any number of mount.efi processes
  (`MountPkg/Drivers/LoopDxe/LoopDxe.c:18-19`). A node is the low byte of the counter, so two live disks share one if
  and only if their creations, failed ones counted, lie a multiple of 256 apart (`LoopDevice.NodesCollideEvery256`); one
  mount, 255 that fail at the device path and one more get there (`LoopDevice.NodesRepeat`).
- `MountLoadDriver` promises success once the entry point has run (`MountPkg/Application/Mount/FsDriver.c:316-322`).
  LoadImage answers EFI_SECURITY_VIOLATION with the image loaded (UEFI Specification 2.10, section 7.4), the code leaves
  it loaded, and later requests take it for a loaded driver. On an untruncated path a request answers success with the
  driver not running if and only if an unstarted image of the driver was lying there before (`FsDriver.FalseSuccess`;
  `FsDriver.FalseSuccessIff` for all paths), and from a state without one a request leaves one if and only if it is
  refused (`FsDriver.RefusalIff`).
- `MountDriverLoaded` is said to find every path the flow loads (`MountPkg/Application/Mount/FsDriver.c:255-258`). That
  holds for every path joined without truncation; where no directory begins with the driver's file name, for no other.

## How the model is laid out

`ByteStrings`, `Results` and `Tokens` hold the common ground: Python slices and slice assignment, packing, outcomes,
splitting. `Splices` is the theory of a run of slice assignments over a buffer that changes length. `Geometry`,
`ShortNames`, `LongNames` and `Directory` are the on-disk formats with their readers, `NameFields` and `RecordBytes`
their bytes field by field; `Layout` is the allocator and `Schedule` the list of slice assignments a laid-out tree
causes. `Writer`, `CreateImage` and `FormatImage` are the writer itself, step by step over mutable nodes, buffer and
FAT, proved against those. `Inspect` says what the reader computes and `Occupancy` is the reader with its mutable books;
`Chains` says what its conflict list means, `WalkLaws` what it prints for one entry and where it stops. `ReadBack`,
`RoundTrip`, `Partition`, `WholeProgram`, `LostDirectories` and `KeptNames` connect the two sides. `LoopDevice` is the
state machine of the loop driver and its laws, `LoopAnswers` its answers path by path, `LoopDriver` the driver step by
step; `ShellMap`, `MapRefresh` and `FsDriver` are the rest of the mount command.

Where the source changes state, a class has those fields and each method's contract equates the new state with a
function of the old one; the laws are proved about that function.

## Model

| member | source | states |
|---|---|---|
| `WholeProgram.InspectUndoesCreate` | tools/mkfatimg.py:420-524 | On any image that carries a covered tree, the reader recovers the geometry, reports exactly that tree in order, claims each allocated cluster once without conflict, and the tree read back, file contents included, is the tree given |
| `WholeProgram.ListingUndoesCreate` | tools/mkfatimg.py:420-524 | On any image that carries the directories of a covered tree, whatever its file bytes, the reader recovers the geometry, reports exactly that tree in order, and claims each allocated cluster once without conflict |
| `WholeProgram.ContentsIff` | tools/mkfatimg.py:341-371 | Where the directory writes land, the tree read back, file contents included, is the tree given if and only if every write lands |
| `WholeProgram.CreateThenInspect` | tools/mkfatimg.py:538-551 | Running `create` and then `inspect`: for every covered tree whose FAT fits and whose directory writes land, the lines printed are the tree's and the conflict list is empty; the tree reads back if and only if every write lands |
| `WholeProgram.PartitionedImageListed` | tools/mkfatimg.py:394-402 | An image that carries a covered tree's directories lists the same tree behind a partition table |
| `WholeProgram.RepresentedIsGood` | tools/mkfatimg.py:251-383 | An image that carries a tree carries its directories, holds every file byte, and pads every written cluster with zeros |
| `WholeProgram.CarriedIsGood` | tools/mkfatimg.py:251-358 | An image that carries a tree's directories holds every directory byte and every chain of the tree, with the clusters tiled from 2 on, and the laid-out tree is the tree given |
| `WholeProgram.SpareClustersSuffice` | tools/mkfatimg.py:283-292 | Used clusters plus directories within the cluster count: the FAT holds the tree, every write lands, and the image is shorter by exactly the directories' shortfall |
| `WholeProgram.FittingIsNotEnough` | tools/mkfatimg.py:341-371 | A tree that fills a 257 MB volume exactly: it fits, and its last file's write does not land |
| `WholeProgram.CrowdedOutcome` | tools/mkfatimg.py:420-524 | On the image made of that tree `inspect` prints the whole tree and an empty conflict list, while the tree read back differs and the last file comes back empty |
| `LostDirectories.RaisesIff` | tools/mkfatimg.py:420-524 | For every covered tree whose image ends before each directory cluster whose write missed, `inspect` raises if and only if some directory write missed, and otherwise succeeds |
| `LostDirectories.FittingLosesDirectory` | tools/mkfatimg.py:341-352 | A tree that fills a 257 MB volume exactly: it fits, and the write of its second directory does not land |
| `LostDirectories.LosingOutcome` | tools/mkfatimg.py:475-481 | `inspect` raises on the image made of that tree |
| `KeptNames.NamesIff` | tools/mkfatimg.py:141-169 | With names of 1 to 819 characters without NUL and directories that land, the tree reads back if and only if every write lands and no name at any level is a dot name or has a character above 0xFFFE |
| `KeptNames.TreeNames` | tools/mkfatimg.py:435-451 | On any image, no name of a tree read back is a dot name or has a character above 0xFFFE |
| `WholeProgram.NominalLengthReached` | tools/mkfatimg.py:266-272 | A tree whose last file ends at the last byte of a 258 MB volume lands, and its image has exactly the nominal length |
| `Splices.HoldsIffLands` | tools/mkfatimg.py:341-371 | After an orderly run of slice assignments every written region is in place if and only if every assignment started inside the buffer |
| `Splices.LandingHolds` | tools/mkfatimg.py:341-371 | Shrinking assignments never move data written before |
| `Splices.MissShows` | tools/mkfatimg.py:351-352 | If some assignment starts past the end, some region runs past the end of the result |
| `Splices.InsideIffLands` | tools/mkfatimg.py:351-352 | Every assignment started inside the buffer if and only if the result reaches to the end of the highest region |
| `Splices.LandedHolds` | tools/mkfatimg.py:341-371 | Each region whose own assignment started inside the buffer is in place at the end, whether or not the others did |
| `Splices.LandsIsEach` | tools/mkfatimg.py:341-371 | A run lands if and only if each of its assignments does at its own turn |
| `Splices.LenAllIs` | tools/mkfatimg.py:351-352 | The length after any run, landing or not, is a function of offsets and sizes alone |
| `Splices.LandedLength` | tools/mkfatimg.py:351-352 | After every landing run the buffer is shorter by exactly the summed slack, unless its highest written byte lies beyond that |
| `Splices.LandingPads` | tools/mkfatimg.py:341-371 | A landing run over zeros leaves zeros wherever it does not write: shrinking moves nothing but zeros |
| `Splices.ApplyAllPrefix` | tools/mkfatimg.py:341-371 | Bytes below every write are untouched, landing or not |
| `ByteStrings.SpliceCases` | tools/mkfatimg.py:351-352 | A slice assignment replaces its part of the buffer, or the tail where it runs past the end; one that starts past the end appends |
| `ByteStrings.SliceClamps` | tools/mkfatimg.py:428-430 | Slice bounds past the end are cut to it, negative ones count from it |
| `Geometry.FatSzFor` | tools/mkfatimg.py:65-76 | The guess changes at most once; the result covers all clusters and the two reserved entries, the geometry fits the volume, the result is least if and only if one sector less is not sufficient, and its overshoot over any sufficient size is bounded |
| `Geometry.NearlyLeast` | tools/mkfatimg.py:65-76 | The overshoot over a sufficient size f is at most the sectors for the clusters that f - 1 more FAT sectors would cost |
| `Geometry.ClustersShrink` | tools/mkfatimg.py:72 | A larger FAT leaves no more clusters, and loses a bounded number |
| `Geometry.NotAlwaysLeast` | tools/mkfatimg.py:65-76 | At 257 MB the result is 514, which is not the least: 513 is sufficient |
| `Geometry.LeastIff` | tools/mkfatimg.py:65-76 | A sufficient size is the least one if and only if it is 1 or one sector less is not sufficient |
| `Geometry.SufficientUpward` | tools/mkfatimg.py:72-75 | Every size above a sufficient one is sufficient |
| `Geometry.BpbBytes` | tools/mkfatimg.py:79-110 | The boot sector has 513 bytes, the last of them 0; every field of it, fixed ones included, has its value at its offset, and the rest is zero |
| `FormatImage.NamedSectors` | tools/mkfatimg.py:101-102 | FSInfo and the backup boot sector lie in the sectors 1 and 6 that the boot sector names |
| `FormatImage.AcceptedSizes` | tools/mkfatimg.py:256-262 | Exactly the volumes of 257 MB up to 2^32 sectors are accepted; the least size is 525258 sectors |
| `Schedule.OffIs` | tools/mkfatimg.py:349-350 | Cluster c lies behind 32 reserved sectors, two FATs and c - 2 clusters of eight sectors |
| `Geometry.FsInfoBytes` | tools/mkfatimg.py:113-122 | The FSInfo sector has its three signatures and both hints unknown |
| `Geometry.BpbReadBack` | tools/mkfatimg.py:394-417 | From such a sector the reader takes the volume as unpartitioned and recovers exactly the writer's geometry |
| `Partition.PartitionIs` | tools/mkfatimg.py:394-402 | Which images are taken for partitioned, and where the volume starts |
| `Partition.BpbIs` | tools/mkfatimg.py:405-417 | Which boot sectors are refused, and every field taken from the others, 16-bit sizes included |
| `Partition.ClusterIs` | tools/mkfatimg.py:428-430 | The bytes of a cluster are those of the image at its place, as far as it has them |
| `ShortNames.TakeShortName` | tools/mkfatimg.py:172-196 | The loop returns the field that `NameFields.FieldOfName` describes, adds it to the names in use, and leaves them alone on failure |
| `NameFields.FieldOfName` | tools/mkfatimg.py:179-195 | The field shows the characters of stem and extension in upper case where both are ASCII, at most eight and three, and that form is free; otherwise it shows six characters of the stem filled up to three with underscores, or GUNAME where a part is not ASCII, a tilde, the least number that is free, and three characters of the extension |
| `NameFields.FoldsEach` | tools/mkfatimg.py:182-183 | Folding goes character by character: lower-case ASCII letters in upper case, other ASCII characters as they are, the rest dropped |
| `NameFields.StemAndExtension` | tools/mkfatimg.py:179-181 | A name is its stem and its extension around the last dot, or all stem |
| `NameFields.BootField` | tools/mkfatimg.py:185-189 | boot.efi becomes BOOT EFI in eight and three characters |
| `NameFields.LongField` | tools/mkfatimg.py:190-195 | documents.text becomes DOCUME~1TEX |
| `NameFields.ForeignField` | tools/mkfatimg.py:190-195 | A CJK character and .efi become GUNAME~1EFI |
| `ShortNames.FailsIffExhausted` | tools/mkfatimg.py:172-196 | Generation fails if and only if the direct form is unusable and each of the first 9, 99 or 999 candidates (by prefix length) is taken |
| `ShortNames.TriesYieldLimit` | tools/mkfatimg.py:190-195 | The 999 tries give exactly 9, 99 or 999 different names: nine for a six-character prefix |
| `ShortNames.CandidatesDiffer` | tools/mkfatimg.py:192 | Candidates within that limit differ |
| `ShortNames.FewNamesSuffice` | tools/mkfatimg.py:172-196 | With fewer than nine names in use generation never fails |
| `ShortNames.SmallDirectory` | tools/mkfatimg.py:298-305 | A directory of at most nine entries never runs out of names |
| `ShortNames.ShortNameFresh` | tools/mkfatimg.py:187-195 | The chosen field is new among the fields in use and never reads as deleted or as the end of the directory |
| `ShortNames.ShortsDistinct` | tools/mkfatimg.py:298-305 | The fields of a directory's children are pairwise different |
| `ShortNames.FoldsToDotsIff` | tools/mkfatimg.py:179-189 | The direct form of a name is that of "." or ".." if and only if the name is one or two dots and spaces, a dot, and at most three spaces |
| `Directory.FieldsDifferIff` | tools/mkfatimg.py:294-312 | All 8.3 fields of a directory, "." and ".." included, differ if and only if it is the root or no child has such a name |
| `Directory.ThreeDots` | tools/mkfatimg.py:298-305 | Children "..." and ".. ." below the root repeat the field of ".." |
| `ShortNames.DirectNameReads` | tools/mkfatimg.py:125-129 | A name that gets the 8.3 form of its own parts reads back without the white space at their ends; it is itself again, and so goes without long-name records, if and only if it has no lower-case letter, no such white space and no dot at its end |
| `NameFields.ReadsAs` | tools/mkfatimg.py:125-129 | Any field reads as its first eight bytes, and a dot and its last three if anything is left of them, white space at the end of each stripped |
| `LongNames.LfnChecksum` | tools/mkfatimg.py:132-138 | The loop computes the checksum that `RecordBytes.ChecksumSteps` describes |
| `RecordBytes.ChecksumSteps` | tools/mkfatimg.py:132-138 | The checksum of no bytes is 0; a further byte is added, modulo 256, to the checksum rotated right by one bit |
| `RecordBytes.ReadmeChecksum` | tools/mkfatimg.py:132-138 | The checksum of README TXT is 0x73 |
| `LongNames.ChecksumDetects` | tools/mkfatimg.py:132-138 | Changing any one byte changes the checksum |
| `LongNames.LfnEntries` | tools/mkfatimg.py:141-169 | The encoder raises exactly on characters from 0xD800 to 0xDFFF and on names over 3315 characters, and otherwise returns the specified records, last chunk first |
| `RecordBytes.RecordsAre` | tools/mkfatimg.py:149-169 | A BMP name has as many records as chunks of thirteen, the last first; each has its number, bit 6 set in the last, attribute 0x0F, type 0, the checksum, first cluster 0, and its characters at their offsets, then NUL, then 0xFFFF |
| `RecordBytes.RecordCarries` | tools/mkfatimg.py:157-168 | A record of any encodable name carries the first 26 bytes of its filled-up chunk in UTF-16 |
| `RecordBytes.UtfUnits` | tools/mkfatimg.py:158 | A character is one unit, or beyond the BMP the surrogate pair that stands for it |
| `RecordBytes.UtfEach` | tools/mkfatimg.py:158 | A text in UTF-16 is its characters one after the other |
| `LongNames.DecodeLongName` | tools/mkfatimg.py:435-451 | The decoder loop computes the specified result on any records, raising included |
| `LongNames.DecodeUnitLoop` | tools/mkfatimg.py:441-447 | The unit loop over one record |
| `RecordBytes.UnitsDecoded` | tools/mkfatimg.py:439-447 | Any record adds the text of its units before the first 0xFFFF without NULs, and stops the decoder exactly if there is a 0xFFFF |
| `RecordBytes.RecordsDecoded` | tools/mkfatimg.py:439-447 | Record after record, the first one with a 0xFFFF ends the text, whatever follows |
| `RecordBytes.TakenInOrder` | tools/mkfatimg.py:438 | Records are taken in the order of the low six bits of their numbers, each once |
| `RecordBytes.BelievedIff` | tools/mkfatimg.py:448-451 | Where nothing stops the decoder, the text is believed if and only if the checksum in the record with the least number is that of the field |
| `LongNames.SortSorts` | tools/mkfatimg.py:438 | The sort by masked ordinal yields ascending keys (its contract: a permutation) |
| `LongNames.DecodeRecord` | tools/mkfatimg.py:152-168 | One record gives back its thirteen-character chunk, and stops the decoder exactly when 0xFFFF padding follows |
| `LongNames.LfnRoundTrip` | tools/mkfatimg.py:435-451 | Every name of 1 to 819 BMP characters without NUL, 0xFFFF and surrogates survives encoding and decoding |
| `LongNames.RoundTripIffInRange` | tools/mkfatimg.py:141-169 | Among the names that encode into at most 63 records, exactly those without NUL, 0xFFFF and characters beyond the BMP survive |
| `LongNames.AstralNameLost` | tools/mkfatimg.py:158 | U+1F600 is encoded and not read back |
| `LongNames.LfnDecodeAny` | tools/mkfatimg.py:444-451 | What the decoder says of one entry's records beside any other entry |
| `LongNames.StaleRecordsRefused` | tools/mkfatimg.py:435-451 | Records of another entry are refused if and only if the name has no 0xFFFF padding and the checksums differ |
| `LongNames.StaleRecordsAccepted` | tools/mkfatimg.py:444-445 | A concrete name believed beside an entry with a different checksum |
| `Directory.DirEntryFields` | tools/mkfatimg.py:199-214 | First cluster and size read back from a directory entry |
| `RecordBytes.EntryIs` | tools/mkfatimg.py:199-214 | Every byte of a directory entry: field, attribute, 12:00:00 on 1 August 2026, first cluster, size |
| `RecordBytes.ChildRecordsAre` | tools/mkfatimg.py:302-310 | A child's records: long-name records exactly where its field does not read as its name, then its entry, attribute 0x10 for a directory and 0x20 for a file, first cluster 0 for an empty file |
| `RecordBytes.DotRecordsAre` | tools/mkfatimg.py:298-301 | Below the root, "." with the directory's own cluster and ".." with its parent's, 0 for the root; in the root, neither |
| `RecordBytes.DirectoryAttributes` | tools/mkfatimg.py:294-312 | Every record of a directory has attribute 0x0F, 0x10 or 0x20 |
| `Directory.DirBytesSize` | tools/mkfatimg.py:294-312 | The length of a directory depends on its names alone, so both passes agree whatever the cluster numbers |
| `Directory.ParseShortEntry` | tools/mkfatimg.py:491-498 | One short entry with the records collected before it |
| `RecordBytes.ParsedAs` | tools/mkfatimg.py:490-498 | What any short entry is taken for: its long name or else its field, bit 4 of its attribute, its first cluster and its size |
| `RecordBytes.CutShort` | tools/mkfatimg.py:480-497 | Data that ends inside a record raises, unless the record is an end mark, deleted, or a long-name record that still shows its attribute |
| `RecordBytes.LongKept` | tools/mkfatimg.py:488-490 | A long-name record is kept for the short entry to come, even one cut short behind its attribute |
| `Directory.ScanClusterLoop` | tools/mkfatimg.py:479-498 | The record loop over one cluster, on any bytes |
| `Directory.ScanRecords` | tools/mkfatimg.py:479-498 | A cluster that holds given records scans as those records fed one by one |
| `Directory.DeletedInvisible` | tools/mkfatimg.py:485-487 | A deleted record, with the long-name records before it, does not change the listing |
| `Directory.FeedDirectory` | tools/mkfatimg.py:294-312 | Scanning a written directory gives ".", ".." and then every child in order with its name, kind, first cluster and size |
| `Layout.LayoutTheorem` | tools/mkfatimg.py:280-334 | The chains of a laid-out tree lie end to end from cluster 2 on; the FAT has exactly those clusters as keys and holds every chain, ended by the end mark; each chain is just long enough; the tree is the tree given |
| `Layout.ClustersOfTiled` | tools/mkfatimg.py:283-292 | All chains in order are one run of clusters without gap or overlap |
| `Layout.FatOfTiled` | tools/mkfatimg.py:283-292 | The FAT of a laid-out subtree has its clusters as keys and every chain in it |
| `Schedule.AllWritesOrderly` | tools/mkfatimg.py:341-371 | Directory clusters ascend, files follow, no two regions overlap, and all lie in the tree's own clusters |
| `Schedule.DirSlack` | tools/mkfatimg.py:348-352 | The writes shrink the buffer by exactly the bytes by which directories fall short of whole clusters, at most a cluster each |
| `Schedule.LandedTreeLength` | tools/mkfatimg.py:341-371 | Whenever the writes land, the image is shorter by the directories' shortfall unless the last written byte lies beyond that |
| `Schedule.ShortfallAtLeast` | tools/mkfatimg.py:315-317 | A directory leaves at least 31 bytes of its last cluster unwritten |
| `Schedule.TailUntouched` | tools/mkfatimg.py:341-371 | No write reaches into the rest of another one's last cluster |
| `Schedule.ChainLength` | tools/mkfatimg.py:315-318 | A directory's chain has exactly the clusters its bytes need, so the end mark is in the last one |
| `Writer.Node.constructor` | tools/mkfatimg.py:217-228 | A node stands for its tree; cluster fields start at 0 |
| `Writer.BuildDirEntries` | tools/mkfatimg.py:294-312 | The loop yields the specified directory bytes, and raises exactly when some name or size cannot be encoded |
| `Writer.ChildBytes` | tools/mkfatimg.py:305-310 | One child's records, long-name records only where the 8.3 form is not the name; the last 32 bytes begin with the field and have attribute 0x10 for a directory and 0x20 for a file |
| `CreateImage.ImageWriter.AllocRun` | tools/mkfatimg.py:283-292 | The next run of clusters and its chain are added to the FAT; a size of 0 takes none |
| `CreateImage.ImageWriter.LayoutDir` | tools/mkfatimg.py:314-334 | The recursive layout numbers the nodes in place as specified and extends the FAT by exactly the subtree's chains |
| `CreateImage.ImageWriter.PlanDir` | tools/mkfatimg.py:315-317 | The first pass fixes the chain length from the directory's bytes |
| `CreateImage.ImageWriter.LayoutChildren` | tools/mkfatimg.py:319-323 | The loop over the children, files and directories |
| `CreateImage.ImageWriter.WriteClusters` | tools/mkfatimg.py:348-352 | The slice assignments of one directory |
| `CreateImage.ImageWriter.WriteDirEntries` | tools/mkfatimg.py:341-352 | The second pass gives as many clusters as the first: the drift error is never raised |
| `CreateImage.ImageWriter.WriteAllDirEntries` | tools/mkfatimg.py:354-358 | All directories in tree order |
| `CreateImage.ImageWriter.WriteFiles` | tools/mkfatimg.py:363-371 | All files in tree order, empty ones left out |
| `FormatImage.FatBytes` | tools/mkfatimg.py:376-380 | The packed FAT holds every link and the two reserved entries and marks all other clusters free; it raises exactly when the clusters overrun it |
| `FormatImage.BootImageShape` | tools/mkfatimg.py:266-272 | Boot sector, FSInfo and backup leave the image two bytes longer, each in its sector, and everything else zero |
| `FormatImage.MetadataInPlace` | tools/mkfatimg.py:381-383 | The reserved sectors and both FATs, free clusters included, are in the finished image, and writing the FATs moves no data |
| `FormatImage.FinishedImage` | tools/mkfatimg.py:341-383 | The finished image carries the tree, with zeros in the rest of the data region, if and only if every data write lands |
| `FormatImage.FinishedDirectories` | tools/mkfatimg.py:341-358 | Where the directory writes land, the finished image carries the directories, whatever becomes of the files |
| `FormatImage.FinishedRegions` | tools/mkfatimg.py:341-383 | Every directory cluster and file whose own write landed is in the finished image |
| `FormatImage.Create` | tools/mkfatimg.py:251-383 | `create` fails exactly on a bad volume size, a name or file size that cannot be encoded, or an overrun FAT; otherwise the image is formatted, holds every region whose own write landed, hence the directories if all theirs land, carries the tree (and zeros elsewhere) if and only if every write lands, and has exactly the stated length, in closed form where every write lands |
| `FormatImage.NominalLengthIff` | tools/mkfatimg.py:266-272 | The finished length is the nominal one if and only if the last written byte is the volume's last byte |
| `FormatImage.Sizes` | tools/mkfatimg.py:256-264 | The data region and all FAT entries fit the chosen geometry |
| `Inspect.WalkChainSpec` | tools/mkfatimg.py:457-466 | On any image the chain walk ends, and visits the linked data clusters up to the chain's end or its first repetition, none twice |
| `Inspect.WalkDirFuel` | tools/mkfatimg.py:468-522 | The step bound of the tree walk is only a bound: a larger one never changes an answer |
| `Chains.ReadDirRuns` | tools/mkfatimg.py:475-503 | On any image a directory's clusters are its chain's, link by link, up to an end mark, a link of 0x0FFFFFF8 or more, or a directory on the way |
| `WalkLaws.EntryLine` | tools/mkfatimg.py:515-518 | On any image the first line for an entry shows its kind, its 8.3 form, its name, its size and its first cluster at its depth |
| `WalkLaws.FileEntry` | tools/mkfatimg.py:521-522 | A file's entry prints nothing else; from cluster 2 on its chain is claimed under its path |
| `WalkLaws.DirEntryWalked` | tools/mkfatimg.py:519-520 | A directory's entry is followed by the walk of that directory under its path; one on the way from the root is not walked again |
| `WalkLaws.NoReentry` | tools/mkfatimg.py:468-522 | On any image no directory is walked again below itself |
| `WalkLaws.BackToStart` | tools/mkfatimg.py:499-503 | A directory whose chain leads back to its start is read once |
| `Partition.PartitionReads` | tools/mkfatimg.py:394-424 | A volume without a partition table of its own, whose first data sector leaves room for cluster numbers 0 and 1, gives the same report behind a partition table as on its own |
| `Occupancy.MarkAllAccounts` | tools/mkfatimg.py:453-466 | On any walk each claimed cluster is filed under its first claimant, and the conflicts are exactly the later claims |
| `Occupancy.ConflictFreeIffDistinct` | tools/mkfatimg.py:453-466 | The conflict list is empty if and only if no cluster is claimed twice |
| `Chains.ConflictsAreSharedClusters` | tools/mkfatimg.py:453-522 | On any inspection that ends, a cluster is reported once for every walked chain through it but the first; the reported clusters are exactly those two different chains share; the list is empty if and only if the walked chains are pairwise disjoint |
| `Chains.WalkDirOnce` | tools/mkfatimg.py:468-522 | On any image no walked chain of an inspection that ends visits a cluster twice |
| `Chains.RunOnce` | tools/mkfatimg.py:475-503 | A directory chain that repeated a cluster would not end |
| `Occupancy.Inspector.MarkCluster` | tools/mkfatimg.py:462-465 | One claim: filed, or reported with the first claimant |
| `Occupancy.Inspector.WalkChainMark` | tools/mkfatimg.py:457-466 | The chain loop claims exactly the walked chain, on any image |
| `Occupancy.Inspector.MarkChain` | tools/mkfatimg.py:505-509 | A directory's chain is claimed in order |
| `Occupancy.Inspector.WalkDirMark` | tools/mkfatimg.py:468-522 | The recursive walk prints and claims what is specified, on any image |
| `Occupancy.Inspector.WalkEntryMark` | tools/mkfatimg.py:515-522 | One listed entry: a line with its kind, names, size and first cluster, then its subtree or its data chain |
| `Occupancy.Inspector.WalkEntriesMark` | tools/mkfatimg.py:515-522 | The loop over the entries of one directory |
| `Occupancy.ReadDirLoop` | tools/mkfatimg.py:475-503 | The chain loop of one directory, on any image |
| `Occupancy.InspectImage` | tools/mkfatimg.py:420-524 | `inspect` as a whole: the lines of the walk and its books |
| `ReadBack.ChainReads` | tools/mkfatimg.py:457-466 | Following the written FAT from inside a chain visits exactly the rest of it |
| `ReadBack.DirReadsFrom` | tools/mkfatimg.py:475-503 | Reading a directory visits exactly its allocated chain and yields the entries of its records |
| `ReadBack.DirReads` | tools/mkfatimg.py:468-510 | A written directory reads back as its chain and its children in order |
| `ReadBack.OwnDirReads` | tools/mkfatimg.py:475-510 | A directory whose own clusters are in place reads back as its chain and its children, whatever becomes of others |
| `ReadBack.DirLostFrom` | tools/mkfatimg.py:479-503 | Reading a directory one of whose clusters lies past the end of the image raises there |
| `ReadBack.RegionPadded` | tools/mkfatimg.py:341-371 | The clusters of every directory and file hold its bytes and then zeros |
| `ReadBack.DirClusterPadded` | tools/mkfatimg.py:428-430 | The reader fetches each directory cluster as its part of the entries followed by zeros |
| `RoundTrip.WalkReads` | tools/mkfatimg.py:468-522 | Walking a written directory, whatever the file bytes, reports it and everything below it |
| `RoundTrip.BooksOfTree` | tools/mkfatimg.py:504-522 | The walk over a written tree finds no conflict and claims every allocated cluster |
| `RoundTrip.FileReads` | tools/mkfatimg.py:363-383 | A file's chain, cut at the recorded size, gives back its bytes |
| `RoundTrip.TreeReads` | tools/mkfatimg.py:468-522 | The tree below a written directory reads back, contents included, if the image holds the files; and if it does, the image reaches to their ends |
| `RoundTrip.FileBounded` | tools/mkfatimg.py:363-383 | A file gives no more bytes than the image has from its first cluster on |
| `LoopDevice.EveryRun` | MountPkg/Drivers/LoopDxe/LoopDxe.c:236-365 | After every run each disk's file is known, serial numbers differ, nodes are their low bytes, and two pool blocks belong to each disk; after every careful run each disk's file is also open, and held by that disk alone |
| `LoopDevice.StepKeepsIff` | MountPkg/Drivers/LoopDxe/LoopDxe.c:236-365 | A single step keeps each disk's file open and held by that disk alone if and only if it is careful: no closed file and no file of a live disk is given to a disk, and no file of a live disk is closed |
| `LoopDevice.CreateKeepsIff` | MountPkg/Drivers/LoopDxe/LoopDxe.c:236-321 | A create keeps that if and only if it fails, or the file is open and no live disk holds it; the factory does not check |
| `LoopDevice.StepSound` | MountPkg/Drivers/LoopDxe/LoopDxe.c:236-365 | Every single step, careful or not, keeps numbering and pool |
| `LoopDevice.RunKeeps` | MountPkg/Drivers/LoopDxe/LoopDxe.c:236-365 | Every careful run keeps each disk's file open and held by that disk alone |
| `LoopDevice.ClosedFileTaken` | MountPkg/Application/Mount/LoopDisk.c:250-268 | A mount that fails in the factory closes its file, and a create then puts a disk over the closed file |
| `LoopDevice.SharedFile` | MountPkg/Drivers/LoopDxe/LoopDxe.c:248-256 | A create puts a second live disk over the open file of a first |
| `LoopDevice.NodesCollideEvery256` | MountPkg/Drivers/LoopDxe/LoopDxe.c:289-303 | In every reachable state two disks share a device node if and only if their creations, failed ones counted, lie a multiple of 256 apart |
| `LoopDevice.NodesRepeat` | MountPkg/Drivers/LoopDxe/LoopDxe.c:289-303 | One mount, 255 mounts that fail at the device path and one more: two live disks with the same node |
| `LoopDevice.MountOutcome` | MountPkg/Application/Mount/LoopDisk.c:178-273 | A mount succeeds exactly when no call fails and the file has sixteen blocks; failing leaves disks, pool and other files alone and the opened file closed; succeeding exposes exactly the whole blocks |
| `LoopDevice.FactoryOutcome` | MountPkg/Drivers/LoopDxe/LoopDxe.c:236-321 | A factory create succeeds exactly when pool, path and install do; failing leaves everything but the counter, succeeding takes the file |
| `LoopAnswers.CreateAnswers` | MountPkg/Drivers/LoopDxe/LoopDxe.c:236-321 | What a create answers and changes on each path: out of resources before or after the counter, the answer of the install, or the new disk with its number and node |
| `LoopAnswers.DestroyAnswers` | MountPkg/Drivers/LoopDxe/LoopDxe.c:326-365 | What a destroy answers and changes on each path: not found, the answer of the uninstall, or success with the file handed over if asked for |
| `LoopAnswers.MountAnswers` | MountPkg/Application/Mount/LoopDisk.c:178-273 | What a mount answers, by the first step that fails |
| `LoopAnswers.MountedDisk` | MountPkg/Application/Mount/LoopDisk.c:255 | A mounted disk's last block is the size divided by 2048, less one |
| `LoopAnswers.ErrorBits` | MountPkg/Application/Mount/LoopDisk.c:262 | Every status but success and the three STATUS_ values is an EFI error |
| `LoopDevice.PvdFitsIff` | MountPkg/Application/Mount/LoopDisk.c:39 | A mounted disk has block 16 if and only if the file has seventeen blocks |
| `LoopDevice.SmallestMount` | MountPkg/Application/Mount/LoopDisk.c:231-235 | A file of sixteen blocks is accepted, and its last block is block 15 |
| `LoopDevice.RunSpares` | MountPkg/Drivers/LoopDxe/LoopDxe.c:236-365 | Over any run that does not destroy a disk, the disk stays as it is; its file is open at the end if and only if it was open and nobody closed it, and has the same bytes unless somebody rewrote it |
| `LoopDevice.DestroyReturnsFile` | MountPkg/Drivers/LoopDxe/LoopDxe.c:326-365 | However long a mount has lived, destroying it hands back exactly its file, open if and only if it was open and nobody closed it; after a careful run no other disk holds it |
| `LoopDevice.RunLosesNone` | MountPkg/Drivers/LoopDxe/LoopDxe.c:326-365 | Over any run whose destroys ask for the file, every open file is in a caller's hand or held by a live disk |
| `LoopDevice.DestroyLosesIff` | MountPkg/Drivers/LoopDxe/LoopDxe.c:359-361 | In any reachable state that has lost no file, a destroy loses one if and only if it succeeds without asking for the file, while the file is open, in no caller's hand and held by no other disk |
| `LoopDevice.ReadExact` | MountPkg/Drivers/LoopDxe/LoopDxe.c:86-121 | A read succeeds exactly when it is proper, the firmware calls succeed and the file reaches that far; it returns the file's bytes there whatever the cursor was; improper requests touch nothing; a shrunken file is a device error |
| `LoopAnswers.ReadAnswers` | MountPkg/Drivers/LoopDxe/LoopDxe.c:86-121 | Status, cursor and data of a block read on every path |
| `LoopAnswers.ReadChanges` | MountPkg/Drivers/LoopDxe/LoopDxe.c:86-121 | A read through a disk moves its file's cursor and changes nothing else |
| `LoopDevice.NoWrapIff` | MountPkg/Drivers/LoopDxe/LoopDxe.c:103-111 | The 64-bit expressions are exact for every block of a disk if and only if it has at most 2^53 blocks |
| `LoopDevice.HugeDiskWraps` | MountPkg/Drivers/LoopDxe/LoopDxe.c:108-111 | Past that limit block 2^53 reads as block 0 |
| `LoopDevice.AdjacentReads` | MountPkg/Drivers/LoopDxe/LoopDxe.c:86-121 | Two adjacent reads succeed if and only if the one larger read does, with the same bytes |
| `LoopDevice.MountedImageReads` | MountPkg/Application/Mount/LoopDisk.c:250-258 | From the mount on, through any run that neither destroys the disk nor closes or rewrites its file, every proper read returns the image's bytes, whoever shares the file and its cursor |
| `LoopDriver.CompleteToken` | MountPkg/Drivers/LoopDxe/LoopDxe.c:154-168 | The status is recorded; the event is signalled once, on success only |
| `LoopDriver.Driver.LoopReadBlocks` | MountPkg/Drivers/LoopDxe/LoopDxe.c:86-121 | The driver's steps are the specified read |
| `LoopDriver.Driver.LoopReadBlocksEx` | MountPkg/Drivers/LoopDxe/LoopDxe.c:184-199 | The same read, completed through the token |
| `LoopDriver.Driver.LoopFactoryCreate` | MountPkg/Drivers/LoopDxe/LoopDxe.c:236-321 | The driver's steps are the specified create; null arguments change nothing |
| `LoopDriver.Driver.LoopFactoryDestroy` | MountPkg/Drivers/LoopDxe/LoopDxe.c:326-365 | The driver's steps are the specified destroy |
| `LoopDriver.Driver.Sniff` | MountPkg/Application/Mount/LoopDisk.c:116-149 | The flags say which descriptors the image has; the cursor is back at 0 on every path, and nothing else changes |
| `LoopDriver.DescriptorsAre` | MountPkg/Application/Mount/LoopDisk.c:134-148 | An ISO 9660 image shows CD001 in sector 16, a UDF image BEA01 in sector 16 or 17, or NSR02 or NSR03 in sector 18 or 19, each behind one byte |
| `LoopDriver.Driver.LoopCreateIso` | MountPkg/Application/Mount/LoopDisk.c:178-273 | The command's steps are the specified mount; the factory is never given a last block that underflowed |
| `Tokens.SplitJoin` | MountPkg/Application/Mount/MapReport.c:132-135 | Splitting undoes joining |
| `Tokens.JoinSplit` | MountPkg/Application/Mount/FsDriver.c:156-167 | Joining undoes splitting |
| `ShellMap.FindFsAlias` | MountPkg/Application/Mount/MapReport.c:145-163 | The pointer loop computes the specified offset, NULL included |
| `ShellMap.FsLikeIs` | MountPkg/Application/Mount/MapReport.c:152-157 | A token looks like an fs name if and only if it begins with fs, in either case of each letter |
| `ShellMap.ScanIsSplit` | MountPkg/Application/Mount/MapReport.c:145-163 | That offset is where the first ';'-separated token beginning with "fs" in either case starts; there is none if and only if no token does |
| `ShellMap.CopyAlias` | MountPkg/Application/Mount/MapReport.c:166-181 | The first token, cut to the buffer |
| `ShellMap.ShownName` | MountPkg/Application/Mount/MapReport.c:309-314 | Find, then copy: the first fs token, else the first token, cut to the buffer |
| `MapRefresh.FsNamesDiffer` | MountPkg/Application/Mount/MapReport.c:229 | Different indices give names that differ even without regard to case |
| `MapRefresh.FsNameIs` | MountPkg/Application/Mount/MapReport.c:229 | The name for a number is "fs", the number in decimal without leading zeros, and a colon |
| `MapRefresh.FirstNames` | MountPkg/Application/Mount/MapReport.c:228-229 | The first names are fs0: and fs1: |
| `MapRefresh.SameNameIff` | MountPkg/Application/Mount/MapReport.c:226-227 | Two names are the same if and only if they differ at most in the case of ASCII letters |
| `MapRefresh.TakenBound` | MountPkg/Application/Mount/MapReport.c:228-233 | A table of n rows holds at most n fs names: the search ends |
| `MapRefresh.AliasCheck` | MountPkg/Application/Mount/MapReport.c:221-225 | The scan of the joined alias string tells exactly whether the path has an fs name |
| `MapRefresh.Shell.FirstFreeFs` | MountPkg/Application/Mount/MapReport.c:228-233 | The search loop ends at the least number whose name, as `MapRefresh.FsNameIs` describes it, is free |
| `MapRefresh.Shell.Refresh` | MountPkg/Application/Mount/MapReport.c:183-245 | The refresh loop computes the specified table and counts the rows added |
| `MapRefresh.RefreshKeeps` | MountPkg/Application/Mount/MapReport.c:183-245 | No existing row changes, names stay one-to-one, and every new row is the least free fs name at its turn for a handle that had none |
| `MapRefresh.NewRow` | MountPkg/Application/Mount/MapReport.c:183-245 | The name of every new row is "fs", the least number free at its turn, and a colon |
| `MapRefresh.FirstVolume` | MountPkg/Application/Mount/MapReport.c:183-245 | An empty table and one willing handle give the row fs0: |
| `MapRefresh.RefusedRefresh` | MountPkg/Application/Mount/MapReport.c:234-238 | Where the Shell takes no name, nothing changes |
| `MapRefresh.FirstFsRow` | MountPkg/Application/Mount/MapReport.c:145-163 | The fs name found for a path is that of its first such row in the table |
| `MapRefresh.RefreshCovers` | MountPkg/Application/Mount/MapReport.c:183-245 | If the Shell accepts, every handle with a device path ends up with an fs name |
| `MapRefresh.SecondRefreshIdle` | MountPkg/Application/Mount/MapReport.c:183-245 | A second refresh assigns nothing |
| `MapRefresh.IsInSnapshot` | MountPkg/Application/Mount/MapReport.c:61-76 | True exactly for the handles in the snapshot |
| `MapRefresh.NewVolumes` | MountPkg/Application/Mount/MapReport.c:277-291 | The loop reports the specified handles in order |
| `MapRefresh.NotInSpec` | MountPkg/Application/Mount/MapReport.c:277-291 | Those are the handles not in the snapshot, each as often as it is listed now |
| `FsDriver.GetSelfDir` | MountPkg/Application/Mount/FsDriver.c:156-168 | The directory is the path without its last component; EFI_NOT_FOUND exactly without a path or a backslash |
| `FsDriver.MatchIsSuffix` | MountPkg/Application/Mount/FsDriver.c:298-308 | The test accepts a path if and only if the driver's components are a suffix of the path's |
| `FsDriver.JoinedPathMatches` | MountPkg/Application/Mount/FsDriver.c:176-187 | Every path joined without truncation passes the test for its own driver |
| `FsDriver.JoinedComponents` | MountPkg/Application/Mount/FsDriver.c:170-187 | The joined path has the directory's components and then the file's, cut at 255 characters |
| `FsDriver.LoadAnswers` | MountPkg/Application/Mount/FsDriver.c:323-376 | What a request answers and which image it leaves on each path |
| `FsDriver.JoinedMatchesIff` | MountPkg/Application/Mount/FsDriver.c:176-187 | Where no directory on the way begins with the driver's file name, a joined path passes if and only if it was not truncated |
| `FsDriver.TruncatedPathLost` | MountPkg/Application/Mount/FsDriver.c:176-187 | A path cut off by a 254-character directory does not |
| `FsDriver.DriverLoaded` | MountPkg/Application/Mount/FsDriver.c:259-314 | The loop finds a loaded image by component suffix if and only if there is one |
| `FsDriver.Firmware.LoadDriverFile` | MountPkg/Application/Mount/FsDriver.c:323-376 | The steps are the specified load: an image whose start fails is unloaded, one that Secure Boot refuses stays loaded |
| `FsDriver.FalseSuccessIff` | MountPkg/Application/Mount/FsDriver.c:323-376 | A request answers success with the driver not running if and only if an unstarted image of the driver was there before, or the driver is started under a path cut so short that it is no path of the driver |
| `FsDriver.FalseSuccess` | MountPkg/Application/Mount/FsDriver.c:323-376 | On an untruncated path, if and only if an unstarted image of the driver was there before |
| `FsDriver.RefusalIff` | MountPkg/Application/Mount/FsDriver.c:335-358 | From a state without one, an untruncated request leaves an unstarted image of its driver if and only if it is refused, which it is exactly when the driver is not loaded, loading is reached and Secure Boot objects |
| `FsDriver.ReportedEverAfter` | MountPkg/Application/Mount/FsDriver.c:323-376 | Once an untruncated request was refused, the driver is reported as a success after any run of further requests, and nothing is loaded for it |
| `FsDriver.NeverStarted` | MountPkg/Application/Mount/FsDriver.c:323-376 | However often a refused driver is asked for again, it is never started |
| `FsDriver.RefusedThenReported` | MountPkg/Application/Mount/FsDriver.c:335-358 | Of two untruncated requests in a row that find no unstarted image of the driver, the second answers success with nothing started if and only if the first was refused |
| `FsDriver.RefusedForGood` | MountPkg/Application/Mount/FsDriver.c:354-358 | A refused driver asked for again, on a platform that would now start it, is reported as a success and never started |
| `FsDriver.NewImageFound` | MountPkg/Application/Mount/FsDriver.c:281-308 | An image recorded under an untruncated path counts as loaded, started or not |
| `FsDriver.LoadedOnce` | MountPkg/Application/Mount/FsDriver.c:323-376 | After a successful untruncated load, asking again succeeds and loads nothing |
| `FsDriver.NeverLoadedTwice` | MountPkg/Application/Mount/FsDriver.c:323-376 | Over any run of requests from one directory no path is loaded twice |

## Left out

Of the FAT image tool:

- The scan of the host directory (`scan_tree`): listing, sorting and file types. A tree is given, in order, with contents that match the scanned sizes; file I/O and arguments are left out.
- The text of the report: a line is a record of its parts. Encoding of the output and the "leftovers" line are left out.
- Python's recursion and memory limits.
- Names with NUL, empty names and names over 819 characters are outside the round trip; among the others `KeptNames.NamesIff` says exactly which are lost.
- LostDirectories.RaisesIff: where file bytes were put in the place of a directory cluster whose write missed, what `inspect` prints depends on those bytes.
- WholeProgram.InspectUndoesCreate: needs the clusters to stay below 0x0FFFFFF8, where the reader takes numbers for end marks; only images of about a terabyte reach that.
- Inspect.WalkDirFuel: the tree walk takes a bound on its steps, because the program need not end on a cyclic directory chain (it remembers first clusters only). The bound is passed in; every result holds for all bounds at least the number of used clusters.
- FormatImage.Create: gives the length as a function of the offsets and sizes of the writes; the closed form is for trees whose writes land.

Of the loop device:

- Write, flush and reset, which answer with a constant; the printed messages.
- Handles, protocols and pool as the firmware keeps them: a create is given the firmware's answers and a new handle, live pool allocations are counted.
- Reading through a closed file, or closing it again: the firmware leaves that undefined, so runs contain neither.
- LoopDriver.Driver.Sniff: takes the restoring SetPosition(0) to succeed, as the code does, which ignores its status.
- Loading the resident driver image (`MountLoopFactoryGet`): one answer of the environment.
- The run of `mount -ISO` around `LoopCreate` (connecting controllers, warnings, printing).

Of the mapping and driver code:

- The Shell's own behaviour: names of a path come ';'-separated in table order, names are looked up without regard to ASCII case, and SetMap on a free name adds a row or fails.
- Mapping indices past 2^32, where `%u` would wrap, and name buffers too short for an index of eleven digits.
- `MapConnectAllControllers`, volume labels, and the order of handles, which is given.
- Device paths, except as text: the text of a loaded image's path is the joined path it was loaded under.
- `StrnCpyS` on a directory that does not fit leaves the buffer empty, as EDK2's version does; `UnicodeSPrint` cuts at the buffer.

Left out as a whole: command dispatch, the self-test, the build and QEMU scripts, and `test_images/mkext4img.py`, which
builds one fixed image from no input.