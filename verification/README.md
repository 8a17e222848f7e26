# Models of the FatFs volume and file layer, three Lisp stores and the kforth compiler

This project models five components of the repository and proves what their documentation promises.

* **FatFs R0.14** (`pus/exp/fatfs/ff.c`), for FAT12, FAT16 and FAT32 with 512-byte sectors, no exFAT and one
  single-byte code page. `FatVolume` is the one-sector write-back window and the FAT entries read and written through
  it; `FatAlloc`, `FatChain` and `FatFree` are the cluster allocator, its chains and its free count; `FatFile` is an
  open file with its own dirty sector; `FatLinkMap` is the cluster link map; `FatSync` is FSINFO. `LongName` and
  `LfnDirectory` are long names and the directory scans over them, `Wildcard` the wildcard matcher, and `FatLayout`
  the agreement between what `f_mkfs` plans and what `mount_volume` accepts. The code that `ffconf.h` switches off
  (`FF_USE_MKFS`, `FF_USE_FIND`, `FF_USE_FASTSEEK`) is modelled as if it were switched on. `FF_FS_NOFSINFO`, which is 1
  there and keeps `mount_volume` from the saved free count, is a parameter of the model.
* **The copying collector of lkbasic** (`pus/exp/lkbasic/lisp1.c`): `CopyGc`.
* **kforth** (`pus/exp/kforth`): `ForthSource` is the structured meaning of a word, `ForthMachine` the inner
  interpreter, `ForthCorrect` the proof that they agree, `ForthCompiler` the one-pass compiler and the interpreter loop on the context
  they change, and `ForthLaws` what words and loops leave on the stack.
* **The cell store of tinylisp** (`pus/exp/lkbasic/lisp2.c`): `TinyStore` is the store,
  `TinyMeaning` the language as a relation on trees, `TinyLaws` what its programs mean, and `TinyEval` the evaluator on the
  store.
* **JL** (`pus/app/lisp`): `JlHeap` is the node pool and who owns what in it, `JlScope` the trees of bindings,
  `JlContext` the free list and the counts, `JlBindings` values, scopes and definitions, `JlNumber` how numbers are read
  and written, `JlReader` the language of the reader, `JlParser` the reader on the pool, and `JlRun` whole runs.

Check the whole project with `dafny verify dfyconfig.toml`.

## How the model reads

* `Device.Disk` is `disk_read` and `disk_write`: an array of sectors whose requests may fail. A device is *healthy* when
  no request inside it fails; every error result of the file layer is shown to come from an unhealthy device or from a
  FAT that holds the entry 1.
* The volume's ghost field `raw` is the first FAT as window and device hold it together, `fat` the cluster map it
  encodes, and `rest` the sectors outside the FATs. An open file's `Content()` is what its chain holds, cut at
  `objsize`, with the dirty buffer in place of its sector.
* Bit operations are written as arithmetic: `x & (csize - 1)` is `x % csize`, since cluster sizes are powers of two;
  flag bits are tested by division. Unsigned subtraction is taken modulo 2^32 where it can wrap.
* A JL context has a ghost `view` of its nodes in which a node that is being taken apart is nobody's, and ghost `held`,
  the references the C program owns. The invariant is that every count is the number of owners in the view and outside.
* JL's numbers are real numbers, an infinity and a NaN; the two zeros are one number. `strtod`, rounding to a double and to
  a float and the conversion to `int16_t` are parameters. Of these it is only supposed (`JlNumber.Sane`) that `strtod`
  gives the double nearest to what a decimal numeral says and reads `nan`, that whole numbers up to 2^24 are exact, and
  that the conversion gives some `int16_t`, and the right one if there is one. How digits are written is not a parameter.
* kforth programs and tinylisp expressions need not terminate, so their interpreters take a number of steps; the
  theorems compare the model and its meaning for every such number, in both directions.

## What turned out not to hold

* `f_getfree` on FAT12 (4809-4815, 4859): a scan that meets an entry of 1 stops but still stores the partial count as
  the cached one. `FatFree.StoppedCount` says exactly when that count is true.
* `f_getfree` on FAT16 and FAT32 counts entries 0 and 1. `FatFree.WideCount` says exactly when the count is true,
  and `FatFree.WrongCounts` gives inputs for both.
* `f_mkfs` checks the volume size before it takes the alignment into account (6175), so it can accept a FAT12 volume without a
  single cluster, which `mount_volume` refuses. `FatLayout.MountsAsPlanned` gives the exact condition,
  `FatLayout.AcceptedButEmpty` an input.
* `CREATE_LINKMAP` fails on a sound chain that ends in the last cluster of the volume when the end mark is the number
  after it (4441): `FatLinkMap.EdgeFails` is one. The end marks the module itself writes are larger.
* `sync_fs` writes FSINFO to the sector after the boot sector whatever the number of reserved sectors; with one
  reserved sector that is the FAT. `FatSync.SyncFs` says exactly when the FAT survives, `FatSync.OneReservedSector` is a
  volume on which it does not. It also ignores the result of that write (1143-1144): `FatSync.IgnoredFailure`.
* In kforth `elif` does not test anything: the parts of a chain alternate, so after a true flag the first, third, fifth
  part run and after any other flag the second, fourth and so on.
* JL's comment promises string escapes as in C, but a hexadecimal or octal escape adds no character (297-328):
  `JlReader.HexVanishes`, `JlReader.OctalVanishes`; `JlReader.ReadAsMeant` says for which strings that matters. An octal
  escape of C that does not start with 0 is read as its digits: `JlReader.DigitStays`.
* What `JLPrint` writes is not always read as what it was. It does not escape, so a string with a quotation mark or a
  backslash is not read back: `JlReader.TextReadsBack`. It writes a whole number through `int16_t` and any other with six
  digits behind the point (545-550), so 40000 and 1e-7 are not: `JlNumber.NumbersLost`, and `JlNumber.NumberReadsBack`
  for exactly which are. `JlReader.ReadsBackExactly` joins the two conditions for whole expressions.
* A comment that ends a JL text without a new line makes the reader step over the terminating zero (454-466):
  `JlReader.PastEndExactly` says exactly when, `JlReader.OpenCommentLost` gives texts. The reader's results then depend
  on what lies in memory; the model reports this and ends the run.

## Model

| member | source | states |
|---|---|---|
| FatCodec.EntryAfterSet | pus/exp/fatfs/ff.c:1179-1305 | put_fat then get_fat on one cluster gives the value cut to 12, 16 or 28 bits, in all three encodings |
| FatCodec.EntryElsewhere | pus/exp/fatfs/ff.c:1179-1305 | put_fat changes no other entry, packed FAT12 neighbours that share a byte included |
| FatCodec.ReservedBitsKept | pus/exp/fatfs/ff.c:1290-1301 | the upper four bits of a FAT32 entry survive an update |
| FatCodec.EocCut | pus/exp/fatfs/ff.c:1466-1466 | 0xFFFFFFFF stored in an entry reads back as the largest value of the type |
| FatCodec.EntryPair | pus/exp/fatfs/ff.c:1196-1203 | two neighbouring FAT12 entries are the little-endian number in three bytes |
| FatCodec.EntryBytes | pus/exp/fatfs/ff.c:1205-1217 | a FAT16 entry is the little-endian number in its two bytes, a FAT32 entry that in its four without the top four bits |
| FatVolume.Volume.WriteBack | pus/exp/fatfs/ff.c:1079-1086 | a flush stores the window and, for a sector of the first FAT, its twin; nothing else changes |
| FatVolume.Volume.SyncWindow | pus/exp/fatfs/ff.c:1072-1090 | flushing loses nothing the module has written, on success leaves the window clean, and reports a failure only on a faulty device |
| FatVolume.Volume.MoveWindow | pus/exp/fatfs/ff.c:1094-1115 | moving the window flushes it first; the image formed by window and device stays the same |
| FatVolume.Volume.SecondFatIsCopy | pus/exp/fatfs/ff.c:1083-1085 | with two FATs that agreed at mount, the second equals the first whenever the window is clean |
| FatVolume.Volume.GetFat12 | pus/exp/fatfs/ff.c:1196-1203 | a FAT12 entry is read right even when its two bytes lie in two sectors |
| FatVolume.Volume.GetFat | pus/exp/fatfs/ff.c:1179-1246 | get_fat reads the cluster map through the window: 1 out of range, 0xFFFFFFFF only after a failed request |
| FatVolume.Volume.PutFat12 | pus/exp/fatfs/ff.c:1269-1281 | a FAT12 update in two steps; if the second sector cannot be reached, exactly the first byte has changed |
| FatVolume.Volume.PutFat | pus/exp/fatfs/ff.c:1256-1305 | put_fat is an update of one key of the cluster map; out of range nothing changes |
| FatVolume.Volume.Clst2Sect | pus/exp/fatfs/ff.c:1162-1170 | the first sector of a cluster, 0 out of range |
| FatSync.FsInfoRoundTrip | pus/exp/fatfs/ff.c:1135-1141 | the free count and hint saved in FSINFO are what mount_volume loads (3551-3572), as far as FF_FS_NOFSINFO lets it |
| FatSync.FsInfoPlaces | pus/exp/fatfs/ff.c:1133-1141 | where signatures, count and hint lie in the FSINFO sector, byte by byte, and that all else is zero |
| FatSync.FsInfoAsFat | pus/exp/fatfs/ff.c:1135-1141 | FSINFO read as the first sector of a FAT32 has the signature for entry 0 and free clusters behind it |
| FatSync.OneReservedSector | pus/exp/fatfs/ff.c:1132-1144 | a FAT32 volume with one reserved sector on which sync_fs reports success, destroys entry 0 and frees the cluster of a chain |
| FatSync.IgnoredFailure | pus/exp/fatfs/ff.c:1143-1144 | on a FAT32 volume whose device cannot write the FSINFO sector sync_fs reports success and takes FSINFO for saved |
| FatSync.SyncFs | pus/exp/fatfs/ff.c:1125-1152 | sync_fs leaves the window clean; its FSINFO write leaves the first FAT as it was if and only if there is a reserved sector for it or the FAT already held those bytes, and its result has no influence on the answer |
| FatChain.ChainDistinct | pus/exp/fatfs/ff.c:1541-1632 | a chain that ends in an end mark visits no cluster twice |
| FatChain.FreeClusters | pus/exp/fatfs/ff.c:4803-4861 | the free count of a map is the number of clusters whose entry is zero |
| FatChain.RemoveFreesOnlyReached | pus/exp/fatfs/ff.c:1471-1503 | on any FAT, cyclic or cross-linked ones included, removal only zeroes entries, and only of clusters reached from clst |
| FatChain.RemoveChainZeroes | pus/exp/fatfs/ff.c:1471-1503 | removal from the head of a chain frees exactly its clusters and counts them |
| FatChain.RemoveSuffixZeroes | pus/exp/fatfs/ff.c:1465-1503 | removal behind pclst frees exactly the rest of the chain and leaves pclst as its end |
| FatChain.ForestNew | pus/exp/fatfs/ff.c:1617-1625 | a new chain of one free cluster leaves all other chains and takes one off the free count |
| FatChain.ForestStretched | pus/exp/fatfs/ff.c:1617-1625 | stretching one chain by a free cluster leaves all other chains |
| FatChain.ForestCut | pus/exp/fatfs/ff.c:1465-1503 | cutting one chain leaves all other chains and the first part |
| FatChain.ForestRemoved | pus/exp/fatfs/ff.c:1471-1503 | removing one chain leaves all other chains |
| FatChain.RemoveFreesAll | pus/exp/fatfs/ff.c:1471-1503 | removal leaves no cluster in use if and only if it reaches every cluster in use and none holds the entry 1 |
| FatChain.RemovedCount | pus/exp/fatfs/ff.c:1465-1487 | a known, true count stays true through remove_chain if and only if pclst is 0 or was in use, or the removal reaches every cluster in use |
| FatChain.CallsKeepCount | pus/exp/fatfs/ff.c:1446-1532 | as the source calls remove_chain, without pclst or with what follows pclst (3761, 3776, 4889, 4897, 4997), a true or unknown count stays so, whatever the FAT and the result |
| FatChain.CountTooLarge | pus/exp/fatfs/ff.c:1465-1487 | where that condition fails, on calls no caller makes: a FAT on which a free pclst makes the count one too large, and one on which it does not |
| FatChain.NextFree | pus/exp/fatfs/ff.c:1591-1616 | the first free cluster: upwards from the hint, then from 2 on, none before it is free |
| FatChain.TakenEntries | pus/exp/fatfs/ff.c:1617-1625 | the cluster taken ends its chain, the one before leads to it, and no other entry changes |
| FatChain.ZeroMeansFull | pus/exp/fatfs/ff.c:1563-1616 | with a true or unknown count create_chain answers 0 if and only if no cluster is free |
| FatChain.CreateKeeps | pus/exp/fatfs/ff.c:1541-1632 | create_chain on a sound state appends one free cluster to one chain, or starts one, or changes nothing, and the state stays sound |
| FatChain.RemoveKeeps | pus/exp/fatfs/ff.c:1446-1532 | remove_chain on a sound state succeeds, frees exactly a suffix of one chain, and the state stays sound |
| FatChain.ScanKeeps | pus/exp/fatfs/ff.c:4803-4861 | f_getfree on a sound state succeeds and answers the number of free clusters |
| FatChain.RunKeeps | pus/exp/fatfs/ff.c:1446-1632 | every run of create_chain, remove_chain and f_getfree keeps the FAT a set of disjoint, acyclic, end-marked chains with a true free count, and the two reserved entries |
| FatAlloc.RemoveLoop | pus/exp/fatfs/ff.c:1471-1503 | the loop over the window computes the removal of the map and terminates on every FAT, since each turn zeroes a non-free entry |
| FatAlloc.RemoveChain | pus/exp/fatfs/ff.c:1446-1532 | remove_chain as a change of map and count, with its error cases |
| FatAlloc.SearchFree | pus/exp/fatfs/ff.c:1604-1615 | the wrap-around search finds the first free cluster in search order, gives 0 only if none is free, and terminates |
| FatAlloc.PickFree | pus/exp/fatfs/ff.c:1591-1616 | the next cluster is taken if it is free, else the first free one after the last allocated |
| FatAlloc.CreateChain | pus/exp/fatfs/ff.c:1541-1632 | create_chain as a change of map, count and hint, which cluster it takes, and its error cases |
| FatFree.Scan12 | pus/exp/fatfs/ff.c:4808-4815 | the FAT12 scan counts the free clusters if no entry is 1, and else stops at the first such entry with the count up to it |
| FatFree.ScanWide | pus/exp/fatfs/ff.c:4838-4856 | the FAT16/FAT32 scan, sector by sector, counts all zero entries, 0 and 1 included |
| FatFree.GetFree | pus/exp/fatfs/ff.c:4784-4865 | f_getfree answers the cached count or sets it by a scan, and fails on a working device if and only if it scans a FAT12 with an entry of 1 |
| FatFree.WideCount | pus/exp/fatfs/ff.c:4838-4856 | the sector-wise count is the number of free clusters if and only if entries 0 and 1 are not zero |
| FatFree.WrongCounts | pus/exp/fatfs/ff.c:4809-4856 | a FAT12 and a FAT16 on which f_getfree leaves a wrong count |
| FatFree.StoppedCount | pus/exp/fatfs/ff.c:4809-4815 | the count stored by a FAT12 scan that stops at an entry of 1 is true if and only if nothing behind it is free |
| FileLayout.SecsDisjoint | pus/exp/fatfs/ff.c:1162-1170 | chains without a common cluster have no common sector |
| FileLayout.RunInCluster | pus/exp/fatfs/ff.c:3930-3935 | a run of sectors inside one cluster is contiguous on the device |
| FileLayout.PieceWritten | pus/exp/fatfs/ff.c:4080-4090 | a piece put into the cached sector is exactly that overwrite of the file's bytes |
| FileLayout.SectorsWritten | pus/exp/fatfs/ff.c:4046-4066 | whole sectors written directly are exactly that overwrite of the file's bytes |
| FatFile.DirectRead | pus/exp/fatfs/ff.c:3930-3948 | a direct read, with the dirty cached sector copied over it, is what the file holds |
| FatFile.DirectWritten | pus/exp/fatfs/ff.c:4051-4062 | a direct write refreshes the cache if it shows one of the sectors written |
| FatFile.OtherFileKept | pus/exp/fatfs/ff.c:3984-4097 | whatever a write or seek did to one file, another file keeps its chain and all its bytes |
| FatFile.File.ByteOnDevice | pus/exp/fatfs/ff.c:1162-1170 | byte b of sector r of cluster q of a file is on the device at database + csize * (cluster - 2) + r, or in the dirty cache if that holds the sector |
| FatFile.File.LoadCache | pus/exp/fatfs/ff.c:3951-3961 | loading the cache writes a dirty sector back first and changes no byte of the file |
| FatFile.File.FollowRead | pus/exp/fatfs/ff.c:3908-3929 | at a sector boundary the cursor moves to the cluster of the next byte |
| FatFile.File.ReadStep | pus/exp/fatfs/ff.c:3908-3970 | one turn of f_read copies the next bytes of the file, directly or through the cache |
| FatFile.File.Read | pus/exp/fatfs/ff.c:3883-3974 | f_read returns exactly the bytes [fptr, fptr + br), br cut at the end of the file; the file does not change |
| FatFile.File.Extend | pus/exp/fatfs/ff.c:4013-4028 | one call of create_chain follows or grows the file's chain |
| FatFile.File.WriteAligned | pus/exp/fatfs/ff.c:4011-4090 | one turn of f_write at a sector boundary: a new cluster if needed, then whole sectors or a cached piece |
| FatFile.File.WriteStep | pus/exp/fatfs/ff.c:4010-4092 | one turn of f_write overwrites exactly the next bytes |
| FatFile.File.Write | pus/exp/fatfs/ff.c:3984-4097 | overwrites exactly the bytes from the file pointer on and no others, all of them unless the disk is full or the file reaches 4 GiB - 1, with the answers for errors and modes |
| FatFile.File.FullMeans | pus/exp/fatfs/ff.c:1563-1616 | with a true or unknown count the disk counts as full exactly if no cluster is free |
| FatFile.File.SeekStart | pus/exp/fatfs/ff.c:4486-4506 | a seek starts at the current cluster when that is not past the target, else at the first one, created if need be |
| FatFile.File.SeekFollow | pus/exp/fatfs/ff.c:4507-4528 | following the chain cluster by cluster, stretched in write mode, stops on the target or at the end of the chain when the disk is full |
| FatFile.File.Lseek | pus/exp/fatfs/ff.c:4402-4556 | after f_lseek the cursor is at the clipped offset with exactly the clusters needed, or at the end of a chain that cannot grow; clust and the cached sector are the cursor's, so resuming agrees with restarting |
| FatFile.File.SoughtMeans | pus/exp/fatfs/ff.c:4498-4550 | a seek ends at its target, or at the end of a chain that cannot grow, and adds no cluster more than it needs |
| FatLinkMap.ExpandAppend | pus/exp/fatfs/ff.c:4442-4444 | a pair appended to the table appends its run of clusters |
| FatLinkMap.FirstFragment | pus/exp/fatfs/ff.c:4427-4452 | the table's second and third item are the length and the first cluster of the first run of the chain |
| FatLinkMap.Fragment | pus/exp/fatfs/ff.c:4434-4441 | one fragment is a maximal run of consecutive clusters; the scan fails only on a chain that ends at the edge of the volume with the number after it |
| FatLinkMap.EdgeFails | pus/exp/fatfs/ff.c:4441-4441 | a sound FAT12 volume of one cluster on which CREATE_LINKMAP fails |
| FatLinkMap.CreateLinkMap | pus/exp/fatfs/ff.c:4427-4452 | CREATE_LINKMAP stores the run-length form of the chain in the given length or says how much is needed, and writes nowhere else |
| FatLinkMap.ClmtClust | pus/exp/fatfs/ff.c:1644-1662 | clmt_clust gives the (ofs / cluster bytes)-th cluster of the chain, 0 past its end |
| FatLinkMap.FastSeek | pus/exp/fatfs/ff.c:4453-4474 | a seek by the table ends in the same state as a seek along the chain inside the file |
| LongName.PutLfn | pus/exp/fatfs/ff.c:1975-2000 | put_lfn writes entry ord of the name: its thirteen units, zero and filler, order with the last flag, checksum |
| LongName.EntryPlaces | pus/exp/fatfs/ff.c:1975-2000 | byte by byte, what a long-name entry holds: order and last flag, attribute 15, checksum, zeros, and the thirteen characters in their places |
| LongName.PickLfn | pus/exp/fatfs/ff.c:1937-1966 | pick_lfn on any entry: what it accepts and what it leaves in the buffer, never past its end |
| LongName.CmpLfn | pus/exp/fatfs/ff.c:1901-1929 | cmp_lfn on any entry: exactly when it matches, never reading past the buffer |
| LfnDirectory.SumSfn | pus/exp/fatfs/ff.c:2070-2081 | the checksum of a short name |
| LfnDirectory.Checksum | pus/exp/fatfs/ff.c:2070-2081 | the checksum is eleven times a rotation to the right and an addition on eight bits |
| LfnDirectory.Marks | pus/exp/fatfs/ff.c:2392-2402 | what first byte and attribute say of an entry: deleted, long name, volume label, short entry |
| LfnDirectory.LastFlag | pus/exp/fatfs/ff.c:1901-1929 | bit 6 of the order marks the last part of a name |
| LfnDirectory.FewestEntries | pus/exp/fatfs/ff.c:2582-2618 | a name takes as few entries as hold it |
| LfnDirectory.ShortHits | pus/exp/fatfs/ff.c:2500-2504 | a short name is a hit if all eleven characters are the sought ones and nothing was lost |
| LfnDirectory.ShortNamesOnly | pus/exp/fatfs/ff.c:2442-2513 | sought without long names, dir_find gives the first short entry that is a hit |
| LfnDirectory.RegisterName | pus/exp/fatfs/ff.c:2582-2618 | dir_register stores a name in ceil(n/13) entries, highest first, before the short entry, and touches no other entry |
| LfnDirectory.DirFind | pus/exp/fatfs/ff.c:2442-2513 | dir_find's scan, as a function of the directory bytes |
| LfnDirectory.DirRead | pus/exp/fatfs/ff.c:2364-2432 | dir_read's scan, as a function of the directory bytes and the buffer |
| LfnDirectory.MatchPart | pus/exp/fatfs/ff.c:1901-1929 | cmp_lfn matches an entry exactly when that part of the name is in the buffer but for case |
| LfnDirectory.AllParts | pus/exp/fatfs/ff.c:1901-1929 | all parts match exactly when the names are the same but for case, whatever follows the sought name in the buffer |
| LfnDirectory.FindAtFile | pus/exp/fatfs/ff.c:2485-2504 | met in any state, a file is the one found exactly when its long name equals the sought one but for case or its short name does |
| LfnDirectory.FindInDirectory | pus/exp/fatfs/ff.c:2442-2513 | dir_find on a well-formed directory finds the first file of the sought name and nothing else |
| LfnDirectory.PickPart | pus/exp/fatfs/ff.c:1937-1966 | pick_lfn adds one part to the tail of the name picked before |
| LfnDirectory.ReadAtFile | pus/exp/fatfs/ff.c:2401-2418 | met in any state and with any buffer, a file's long name is read back exactly |
| LfnDirectory.ReadInDirectory | pus/exp/fatfs/ff.c:2364-2432 | dir_read passes over deleted entries, dot entries and labels and gives the first file, with its long name or none; the next call starts behind it |
| Wildcard.UpCase | pus/exp/fatfs/ff.c:2794-2800 | get_achar maps only the terminator to zero |
| Wildcard.UpCaseOfAscii | pus/exp/fatfs/ff.c:2794-2800 | ASCII characters are alike exactly if they are the two forms of a letter, all but small letters stay, and nothing is converted twice |
| Wildcard.LiteralPattern | pus/exp/fatfs/ff.c:2812-2849 | without wildcards a pattern matches exactly the names that are the same but for case |
| Wildcard.WildPattern | pus/exp/fatfs/ff.c:2812-2849 | a star lets anything stand in its place, a question mark one character |
| Wildcard.BlockGrouped | pus/exp/fatfs/ff.c:2832-2837 | grouping wildcards into a count and a flag loses no match and adds none |
| Wildcard.NoLaterStart | pus/exp/fatfs/ff.c:2845-2846 | once the name is used up no later start can match |
| Wildcard.TryFrom | pus/exp/fatfs/ff.c:2830-2844 | one branch decides the match from one start |
| Wildcard.PatternMatching | pus/exp/fatfs/ff.c:2812-2849 | pattern_matching decides the glob relation from the skipped place on, and its recursion terminates |
| Wildcard.WholeName | pus/exp/fatfs/ff.c:2812-2849 | called with 0 and 0 it decides whether the pattern matches the whole name |
| FatLayout.DraftAligned | pus/exp/fatfs/ff.c:6160-6172 | the gap to the next erase block goes to the reserved sectors or evenly to the FATs, and the data area is aligned |
| FatLayout.AutomaticSizes | pus/exp/fatfs/ff.c:6131-6150 | the automatic cluster size for every volume size |
| FatLayout.AcceptedWhen | pus/exp/fatfs/ff.c:6128-6210 | a choice is accepted if and only if the volume has room for 16 clusters before alignment and the cluster number suits the sub-type |
| FatLayout.AcceptFits | pus/exp/fatfs/ff.c:6175-6176 | in an accepted layout the 32-bit subtraction has not passed below zero, although it can in a refused one |
| FatLayout.AcceptSound | pus/exp/fatfs/ff.c:6131-6203 | an accepted layout has FATs large enough, no 16-bit field cut, and a cluster number in the range of its sub-type |
| FatLayout.PlanVolume | pus/exp/fatfs/ff.c:6131-6203 | the retry loop terminates, what it accepts is sound, and it gives up only after a choice that lacks what AcceptedWhen asks for |
| FatLayout.MountsAsPlanned | pus/exp/fatfs/ff.c:3497-3547 | mount_volume reads back the same sub-type, cluster number and areas; it refuses an accepted layout if and only if alignment has left no room for one cluster |
| FatLayout.AcceptedButEmpty | pus/exp/fatfs/ff.c:6175-6199 | an accepted layout without a cluster: 32773 sectors, 32768-sector blocks, 128-sector clusters |
| FatLayout.MountedGeometry | pus/exp/fatfs/ff.c:3497-3547 | a volume mount_volume takes has the sub-type its cluster number gives, FATs that hold every entry, and areas in order inside its sectors: the geometry all other modules start from |
| FatLayout.SmallAlignmentMounts | pus/exp/fatfs/ff.c:6174-6176 | an alignment of at most 15 clusters and a sector leaves room |
| CopyGc.SumWithin | pus/exp/lkbasic/lisp1.c:288-339 | distinct objects of the old space take no more bytes than all of them |
| CopyGc.AllCopied | pus/exp/lkbasic/lisp1.c:304-330 | a finished scan has copied every reachable object |
| CopyGc.FieldsMoved | pus/exp/lkbasic/lisp1.c:306-329 | what the copies are, field by field: same kind, size and content, and each reference moved in its own place |
| CopyGc.NothingDangles | pus/exp/lkbasic/lisp1.c:288-339 | whatever a kept object or a root refers to in the old space has been moved |
| CopyGc.ReachedFrom | pus/exp/lkbasic/lisp1.c:288-339 | nothing else is kept: a kept object is a root or is referred to by a kept object |
| CopyGc.RoomForFields | pus/exp/lkbasic/lisp1.c:66-103 | a kind with references has room for each of them |
| CopyGc.Lisp.TotalLeast | pus/exp/lkbasic/lisp1.c:196-203 | alloc takes the least number of whole words for header and content |
| CopyGc.TombstoneRoom | pus/exp/lkbasic/lisp1.c:192-202 | what alloc rounds to leaves room for a tombstone if and only if any content is asked for |
| CopyGc.Lisp.TombstonesApart | pus/exp/lkbasic/lisp1.c:192-202 | a tombstone reaches no other object and not the free space |
| CopyGc.Lisp.Forward | pus/exp/lkbasic/lisp1.c:248-270 | forward gives the new address, copying an object at most once; the copy stays inside the used size of the old space |
| CopyGc.Lisp.ForwardRoots | pus/exp/lkbasic/lisp1.c:278-284 | Symbols and every root slot are forwarded |
| CopyGc.Lisp.ScanObject | pus/exp/lkbasic/lisp1.c:306-329 | one turn of the scan forwards the references of one copy |
| CopyGc.Lisp.Scan | pus/exp/lkbasic/lisp1.c:304-330 | the scan terminates and leaves every copy complete |
| CopyGc.Lisp.Gc | pus/exp/lkbasic/lisp1.c:288-339 | gc moves exactly the reachable objects, by an injective map that keeps kind, size and payload and commutes with every reference and root; their sizes add up to the bytes in use, at most as many as before |
| CopyGc.Lisp.Alloc | pus/exp/lkbasic/lisp1.c:196-232 | alloc gives a fresh, aligned block inside the space or fails only when even a collection leaves no room; what was reachable is unchanged or moved by one map |
| CopyGc.Lisp.Cons | pus/exp/lkbasic/lisp1.c:351-356 | cons holds the values its slots have after a possible collection |
| CopyGc.Lisp.Acons | pus/exp/lkbasic/lisp1.c:387-391 | acons builds ((x . y) . a) although either allocation may move everything, the inner cell included |
| ForthCompiler.Context.CompileToken | pus/exp/kforth/kforth.c:319-442 | one token of the compiler: items appended, a waiting branch patched through the data stack |
| ForthCompiler.BlockCompiles | pus/exp/kforth/kforth.c:310-452 | compiling a block appends its code and leaves the data stack as it was, in any context |
| ForthCompiler.ChainCompiles | pus/exp/kforth/kforth.c:347-376 | every branch of an if, elif, endif chain gets its offset, nested ones included |
| ForthCompiler.Context.CompileWord | pus/exp/kforth/kforth.c:310-452 | kforth_compile_word produces the code of a well-nested statement with the data stack unchanged |
| ForthLaws.Sums | pus/exp/kforth/dictionary_1.c:74-106 | +, -, * and 1+ leave the 32-bit int that differs from the exact result by a multiple of 2^32 |
| ForthLaws.MinusThenPlus | pus/exp/kforth/dictionary_1.c:74-106 | x y - y + gives x back |
| ForthLaws.Comparisons | pus/exp/kforth/dictionary_1.c:115-186 | each comparison leaves -1 if its relation holds between second and top, else 0 |
| ForthLaws.Maximum | pus/exp/kforth/dictionary_1.c:212-218 | max leaves one of its operands, not below either |
| ForthLaws.StackWords | pus/exp/kforth/dictionary_1.c:187-239 | dup, drop, swap, over, tuck and rot, element by element |
| ForthLaws.SwapTwice | pus/exp/kforth/dictionary_1.c:232-239 | swap twice changes nothing |
| ForthLaws.RotThrice | pus/exp/kforth/dictionary_1.c:187-195 | rot three times changes nothing |
| ForthLaws.PickAndRoll | pus/exp/kforth/dictionary_1.c:240-268 | k pick copies the element with k others above it, k roll brings it up and only permutes |
| ForthLaws.TooFew | pus/exp/kforth/dictionary_1.c:187-268 | exactly when a word reads outside the stack |
| ForthLaws.IfElse | pus/exp/kforth/dictionary_1.c:368-388 | the first part runs after -1, the second after anything else |
| ForthLaws.DoCounts | pus/exp/kforth/dictionary_1.c:269-313 | limit index do I loop leaves the numbers from index up to limit - 1, and one if the index starts at the limit |
| ForthLaws.LoopValues | pus/exp/kforth/dictionary_1.c:269-274 | I and A inside do and for loops, and outside of loops |
| ForthLaws.ForStops | pus/exp/kforth/dictionary_1.c:323-341 | a for loop ends when the limit lies between the counter and the next one |
| ForthLaws.ForCounts | pus/exp/kforth/dictionary_1.c:314-353 | a b c for A forloop leaves a and the numbers in steps of c before b, up or down |
| ForthLaws.Spelled | pus/exp/kforth/kforth.c:310-400 | how statements are spelled in tokens |
| ForthLaws.BranchSpelled | pus/exp/kforth/kforth.c:347-376 | how branches are spelled in tokens |
| ForthCorrect.ChainAgrees | pus/exp/kforth/dictionary_1.c:368-387 | the branch offsets make the parts of a conditional alternate, whatever the nesting |
| ForthCorrect.DoAgrees | pus/exp/kforth/dictionary_1.c:275-295 | a do loop runs its body with index and limit on the loop stack until the index reaches the limit, and leaves the loop stack as it was |
| ForthCorrect.ForAgrees | pus/exp/kforth/dictionary_1.c:314-340 | a for loop steps its counter and leaves the loop stack as it was |
| ForthCorrect.BlockAgrees | pus/exp/kforth/kforth.c:162-203 | running the code of any block does what the block means: result, failure and non-termination agree |
| ForthCorrect.WordRuns | pus/exp/kforth/kforth.c:162-203 | a word that means a stack is run to that stack, with the loop stack restored |
| ForthCorrect.RunsMean | pus/exp/kforth/kforth.c:162-203 | a run that ends has done what the word means |
| ForthCorrect.RunMore | pus/exp/kforth/kforth.c:162-203 | more fuel changes only what is left of it |
| ForthCompiler.Context.FnLoop | pus/exp/kforth/dictionary_1.c:283-295 | fn_loop on the loop stack |
| ForthCompiler.Context.FnForLoop | pus/exp/kforth/dictionary_1.c:323-340 | fn_for_loop on the loop stack |
| ForthCompiler.Context.ExecuteWord | pus/exp/kforth/kforth.c:162-203 | the interpreter loop is the machine of the model |
| ForthCompiler.Context.ExecuteStatement | pus/exp/kforth/kforth.c:560-565 | compile and run: if the run ends, the data stack is what the line means and the loop stack is as it was |
| TinyStore.TreeFrame | pus/exp/lkbasic/lisp2.c:109-116 | what a value stands for depends only on cells at or above it |
| TinyStore.AtomsDiffer | pus/exp/lkbasic/lisp2.c:87-97 | two atoms have one place exactly when they have one name |
| TinyStore.SameName | pus/exp/lkbasic/lisp2.c:87-97 | two zero-terminated strings at one place are the same |
| TinyStore.BoxBytes | pus/exp/lkbasic/lisp2.c:68-72 | the tag is in the top sixteen bits of the double, the ordinal in the low thirty-two |
| TinyStore.Store.Atom | pus/exp/lkbasic/lisp2.c:87-97 | atom interns: the place of the name, appended only if it is new and fits below the stack |
| TinyStore.Store.Cons | pus/exp/lkbasic/lisp2.c:100-106 | cons adds a pair below everything it refers to, or ends the run exactly when it meets the names |
| TinyStore.Store.ConsTree | pus/exp/lkbasic/lisp2.c:100-106 | the new pair stands for the pair of what its parts stood for |
| TinyStore.Store.Gc | pus/exp/lkbasic/lisp2.c:453-455 | sp = ord(env) keeps every cell reachable from the environment and what it stands for |
| TinyStore.Store.Start | pus/exp/lkbasic/lisp2.c:461-466 | the start-up of lisp establishes the invariant and the environment of #t and the primitives; the atom ERR is the NaN without a payload |
| TinyEval.Assoc | pus/exp/lkbasic/lisp2.c:129-133 | assoc terminates and finds the first binding, or the error atom |
| TinyEval.Bind | pus/exp/lkbasic/lisp2.c:319-323 | bind extends an environment by a parameter list, dotted tails included |
| TinyEval.Define | pus/exp/lkbasic/lisp2.c:286-289 | f_define puts the name with its value in front of the global environment its evaluation has left |
| TinyEval.Eval | pus/exp/lkbasic/lisp2.c:338-342 | eval gives a value and a global environment that the language of trees gives, keeps the invariant and every existing pair, through all primitives and closures |
| TinyEval.Fold | pus/exp/lkbasic/lisp2.c:199-233 | the arithmetic loops fold their arguments from the left |
| TinyMeaning.EvalsGrow | pus/exp/lkbasic/lisp2.c:286-289 | whatever is evaluated, the global environment only gains bindings in front |
| TinyLaws.FoundFirst | pus/exp/lkbasic/lisp2.c:128-133 | a name means the value of its first binding; without one, ERR |
| TinyLaws.Truths | pus/exp/lkbasic/lisp2.c:232-250 | true is #t and false is () |
| TinyLaws.OthersKept | pus/exp/lkbasic/lisp2.c:318-323 | a name that is no parameter means what it did |
| TinyLaws.ParametersBound | pus/exp/lkbasic/lisp2.c:318-323 | inside a closure each parameter means its argument |
| TinyLaws.RestBound | pus/exp/lkbasic/lisp2.c:318-323 | the name behind a dot means the arguments that are left |
| TinyLaws.Quote | pus/exp/lkbasic/lisp2.c:177-179 | (quote x) is x |
| TinyLaws.If | pus/exp/lkbasic/lisp2.c:273-275 | (if c x y) is x if the value of c is not (), else y |
| TinyLaws.Define | pus/exp/lkbasic/lisp2.c:287-290 | (define s x) binds s to the value of x in front of the global environment and gives s |
| TinyLaws.Lambda | pus/exp/lkbasic/lisp2.c:283-285 | (lambda ps b) is the closure of parameters, body and environment |
| TinyLaws.LetOne | pus/exp/lkbasic/lisp2.c:277-281 | (let* (s x) b) is b with s bound to the value of x |
| TinyLaws.OrAnd | pus/exp/lkbasic/lisp2.c:252-264 | (or x y) and (and x y): which value decides |
| TinyLaws.CondTwo | pus/exp/lkbasic/lisp2.c:266-270 | (cond (c x) (d y)): the body of the first clause whose test is not () |
| TinyLaws.CallClosure | pus/exp/lkbasic/lisp2.c:326-328 | a closure of one parameter runs its body with the parameter bound to the argument, in its own environment or the global one |
| TinyLaws.OfTwoValues | pus/exp/lkbasic/lisp2.c:181-250 | cons, < and eq? on values evaluated from left to right |
| TinyLaws.OfOneValue | pus/exp/lkbasic/lisp2.c:173-250 | eval, car, cdr and not on a value |
| TinyLaws.ArithmeticExact | pus/exp/lkbasic/lisp2.c:195-230 | the result of arithmetic is the floating-point unit's if that is a number, and exactly when an operand is passed through |
| TinyLaws.OperatorValue | pus/exp/lkbasic/lisp2.c:195-230 | (+ x1 .. xk), and so -, * and /: on numbers with numbers for partial results, what the floating-point unit makes of them from left to right |
| TinyEval.Turn | pus/exp/lkbasic/lisp2.c:467-471 | one turn of the loop: the value of what was typed, and after the collection a valid store with the environment the evaluation left |
| TinyEval.Build | pus/exp/lkbasic/lisp2.c:381-417 | the reader's atoms and pairs stand for what was typed, every name for the place of that name |
| TinyEval.Session | pus/exp/lkbasic/lisp2.c:456-472 | from the start, every turn of a session gives a value the language gives, and the environment grows from the initial one |
| JlHeap.NoGarbage | pus/app/lisp/jl.c:35-62 | with true counts and no cycles, whatever is live is reached from the roots: releasing loses nothing |
| JlHeap.Conservation | pus/app/lisp/jl-context.c:31-56 | free and live nodes together are the nodes of all blocks |
| JlContext.Context.GetFree | pus/app/lisp/jl-context.c:31-49 | hands out a node nobody refers to, from the free list or from a new block whose other nodes go on the list |
| JlContext.Context.PutFree | pus/app/lisp/jl-context.c:51-56 | puts a node in front of the free list; no node is on it twice |
| JlContext.Context.JLRelease | pus/app/lisp/jl.c:35-62 | gives up one reference; every count stays the number of owners, values without owners go back to the pool, and nothing outside what the value reaches changes; it terminates on every pool with true counts |
| JlBindings.CreateValue | pus/app/lisp/jl-value.c:10-18 | a new value with one owner |
| JlBindings.CopyValue | pus/app/lisp/jl-value.c:20-43 | a new value with the content of another; its list is shared and gains an owner |
| JlScope.PutMap | pus/app/lisp/jl.c:91-112 | a binding put into the tree rebinds exactly that name |
| JlBindings.JLDefineValue | pus/app/lisp/jl.c:86-113 | binds the name in the innermost scope and nothing else, overwriting included, also with the value it already has; counts stay true |
| JlBindings.JLEnterScope | pus/app/lisp/jl-scope.c:44-51 | a new innermost scope without bindings; live nodes are not touched |
| JlBindings.ReleaseBindings | pus/app/lisp/jl-scope.c:33-42 | every binding of the tree is freed, once, and every value loses the owners it had there |
| JlBindings.JLLeaveScope | pus/app/lisp/jl-scope.c:53-70 | the next scope is innermost again, and the pool has exactly what is still owned |
| JlBindings.Lookup | pus/app/lisp/jl-scope.c:72-91 | the value the innermost scope that binds the name binds it to, or an error |
| JlRun.SeenInnermost | pus/app/lisp/jl-scope.c:72-91 | what Lookup sees is the first hit in the scopes from the innermost outwards |
| JlReader.StringBody | pus/app/lisp/jl.c:284-381 | the loop over a string reads the characters and escapes it is specified to read |
| JlReader.PastEndExactly | pus/app/lisp/jl.c:452-466 | the skip over blanks steps over the end of the text if and only if the text is blanks and comments, with a last comment that no new line ends |
| JlReader.StaysInside | pus/app/lisp/jl.c:417-477 | a text in which every semicolon has a new line behind it is never left |
| JlReader.OpenCommentLost | pus/app/lisp/jl.c:454-466 | two texts that take the reader over their end |
| JlReader.ReadAsMeant | pus/app/lisp/jl.c:297-328 | a string is read as its escapes are meant if and only if the reader meets no hexadecimal and no octal one |
| JlReader.HexVanishes | pus/app/lisp/jl.c:297-317 | a hexadecimal escape, with two, one or no digits, adds no character |
| JlReader.OctalVanishes | pus/app/lisp/jl.c:318-328 | nor does an octal one, 0 with up to three digits |
| JlReader.DigitStays | pus/app/lisp/jl.c:360-362 | an escape with another digit is that digit |
| JlReader.EscapeReads | pus/app/lisp/jl.c:332-361 | each escape of one letter is the character written out here, any other character but x and 0 is itself |
| JlReader.DigitsOfEscapes | pus/app/lisp/jl.c:297-328 | which characters are digits of escapes |
| JlReader.Ignored | pus/app/lisp/jl.c:450-466 | white space and a closed comment before an expression do not matter |
| JlReader.TokenRead | pus/app/lisp/jl.c:372-410 | a token reaches to the first white space, parenthesis or semicolon, and is a number if strtod takes all of it |
| JlReader.Unbalanced | pus/app/lisp/jl.c:417-488 | what parentheses without a partner do |
| JlReader.Printed | pus/app/lisp/jl.c:537-587 | lists are printed in parentheses with single spaces, strings in quotation marks, names as they are |
| JlReader.ErrorsAtEnd | pus/app/lisp/jl.c:437-441 | an expression is in error only if the text ends inside a list |
| JlNumber.NumberReadsBack | pus/app/lisp/jl.c:545-550 | strtod takes all of what JLPrint writes for a number, and gives that number if and only if it is whole and an int16_t, or not whole and the double nearest to itself rounded to six digits behind the point |
| JlNumber.IntForm | pus/app/lisp/jl.c:545-548 | a whole number is printed as its digits without leading zeros, with a minus sign if it is negative |
| JlNumber.FixedForm | pus/app/lisp/jl.c:548-550 | any other number is printed with a point and six digits, at most half a millionth off |
| JlNumber.SixDigits | pus/app/lisp/jl.c:545-550 | a number typed with at most six digits behind the point survives, unless it counts as whole, if it is represented closely enough |
| JlNumber.NumbersLost | pus/app/lisp/jl.c:545-550 | 40000 and a ten-millionth do not survive |
| JlReader.ReadIsTyped | pus/app/lisp/jl.c:270-488 | in everything the reader makes no variable has the name of a number |
| JlReader.ReadsBackExactly | pus/app/lisp/jl.c:537-587 | what JLPrint writes for anything the reader makes is read as that same expression, whatever follows it, if and only if all its numbers survive and no string has a quotation mark or a backslash |
| JlRun.PrintedBack | pus/app/lisp/jl.c:479-587 | whatever a run prints of an expression is read as that expression with nothing left over, exactly under that condition |
| JlReader.TextReadsBack | pus/app/lisp/jl.c:553-555 | a printed string is read back, whatever follows it, if and only if it has no quotation mark and no backslash |
| JlParser.ParseLiteral | pus/app/lisp/jl.c:270-415 | a literal becomes one new value |
| JlParser.ParseList | pus/app/lisp/jl.c:417-448 | a list becomes new values in its shape; after an error every node taken is back in the pool |
| JlParser.ParseExpression | pus/app/lisp/jl.c:450-477 | the value built stands for the expression read, old values are not touched and ownership has no cycle; a reader that has stepped over the end of the text is reported, and the run ends there |
| JlParser.JLParse | pus/app/lisp/jl.c:479-488 | one expression, read as specified; on nothing or an error the live nodes are those from before; astray exactly when the specification says so, and never on a text whose comments are all closed |
| JlParser.JLPrint | pus/app/lisp/jl.c:537-587 | prints what the value stands for, numbers as "%d" of an int16_t or "%f" |
| JlRun.NothingLost | pus/app/lisp/jl.c:35-62 | in every state a program can reach, live nodes are reached from the current scope or from what it holds |
| JlRun.PerformScope | pus/app/lisp/jl-scope.c:44-70 | entering, leaving and defining act on the scopes as on a stack of maps |
| JlRun.Play | pus/app/lisp/jl.c:64-113 | every run of parsing, defining, looking up, copying, releasing and scopes ends with the scopes, held values and error flag that a pure fold over its commands gives |
| JlRun.Scoped | pus/app/lisp/jl-scope.c:44-91 | a definition is what is found until its scope is left, then what was there before is; other names are not touched |
| JlRun.Missing | pus/app/lisp/jl-scope.c:72-91 | a name nothing binds is found as null, with an error; nil is bound from the start |
| JlRun.HeldValues | pus/app/lisp/jl.c:479-488 | what reading, copying and releasing do to the values held |
| JlRun.Run | pus/app/lisp/jl.c:64-84 | what such a run prints in the end, formatted numbers included, is a function of its commands, and afterwards the whole pool is free |

## Left out

- FatFs: exFAT, GPT, file locks, re-entrancy, time stamps, validation of object ids, paths and drive numbers.
- FatFs: `f_truncate`, `f_sync`, `f_close` and directory growth; one file is open at a time, and the window is not on
  its data sectors, as the source's separate sector buffer intends.
- FatFile.File.Write: nothing is promised about the file after a failed request beyond a valid volume.
- FatSync.SyncFs: after a failed FSINFO write the window is not known to match the device, so validity is promised for
  a healthy device with a reserved sector for FSINFO only.
- FatVolume.Volume.WriteBack: a failed write to the second FAT is not noticed by the source; the copy is promised for a
  healthy device only.
- LfnDirectory.DirFind: the directory is one array of entries; moving from sector to sector through the window and
  cluster to cluster is not modelled. The up-case conversion `ff_wtoupper` is a parameter of which only "zero for zero
  and for nothing else" is used.
- LfnDirectory.RegisterName: numbered short names (`gen_numname`) and the search for free entries.
- Wildcard.PatternMatching: double-byte and Unicode code pages.
- FatLayout.PlanVolume: writing the areas, partitioning, and the fields of the boot sector that `mount_volume` does not
  read.
- CopyGc: the reader, printer and evaluator; `make_int`, `make_symbol`, `make_primitive`, `make_function` and
  `make_env`, which use `alloc` the way `cons` does. References of an object whose content has not been set are taken
  to be null. The address of a new semi-space is a parameter that nothing refers to.
- ForthCompiler.Context.CompileWord: tokenizing, string and floating-point literals, `&`, `while`, redefinition of
  words; the 100-item limit is a precondition, and stacks have no upper bound.
- ForthWords: `mod`, which no dictionary entry names, and printing; integer overflow wraps.
- TinyEval.Eval: `eq?` on two pairs and the test for the global environment in `lambda` compare addresses, so for equal
  trees the relation admits both answers; so it does for `<` on values that are not both leaves. Floating-point results
  are a parameter: a number, the NaN without a payload, or an operand passed through. That NaN, which many processors give
  for 0 / 0, is the atom `ERR`. No other NaN whose bits are those of an atom, primitive, pair or () is made. Arguments of
  C calls are evaluated from left to right.
- TinyEval.Build: tokens; what is typed is given as a tree.
- TinyStore.Store.Atom: the copy that precedes the abort is not modelled when the run ends.
- JL: evaluation, lambdas and the scope counts they need (`CountScopeBindings`), predefined functions, line numbers.
  Counts are unbounded.
- JlBindings.JLLeaveScope: a scope that closures keep alive; without lambdas nothing but the chain of scopes owns one.
- JlReader.ReadExpr: `strtod` is asked for the token alone; the source lets it see what follows, which matters for a token
  such as `nan` before a parenthesis.
- JlParser.JLPrint: lambdas and specials, which the reader does not make, and negative zero.
- Networking, console, drivers and tools of the repository: input and output over libraries that are not part of this model.
