# SoCeteer firmware: a verified model

This project models the parts of the SoCeteer boot ROM and bare-metal programs that carry state and have something to
promise, and proves what they promise. Run `dafny verify dfyconfig.toml` (Dafny 4.11).

| module | what it models |
|---|---|
| `Bytes`, `Chains` | integers as bytes and words; cluster chains as lists |
| `Volume` | FatFs' one-sector window over the medium, packed FAT entries of all four types, the exFAT bitmap |
| `ExFat` | exFAT allocation: the bitmap, and chains whose links reach the FAT only when they can no longer be derived |
| `FatAlloc` | create_chain and remove_chain on FAT12, FAT16 and FAT32 |
| `FileIo` | f_read and f_lseek in the ROM's read-only, tiny-buffer configuration |
| `LinkMap` | the fast-seek cluster link map |
| `Lfn` | long file names: entry sets, their checksum and order automaton |
| `Mount` | volume geometry from the boot sector |
| `Loader`, `SdCard` | the ELF loader of the boot ROM and its chunked card reads |
| `HelloHart` | sense-reversing barrier, print lock and wake-up of n harts, as interleaved atomic steps |
| `EventRing` | the xHCI event ring, with a controller that stores word by word |
| `Mixer`, `MemTest`, `RamMap` | the DRAM test: its pattern, its suites, its RAM map |
| `Raster` | the incremental triangle rasteriser |
| `Display` | double buffering on a design whose frame fetch bypasses the caches |
| `Nms` | non-maximum suppression |

Reading guide. A class has the source's fields; its methods are stated against functions of the old state, and what the
source promises is proved about those functions. `Volume.FatFs.Valid` ties the concrete window and medium to three ghost
views (the bytes of the first FAT, the value of every entry, the allocation bits); everything above the window reasons
about these views alone. Disk errors, evictions, frame boundaries, controller stores and hart scheduling are
nondeterministic. A failed sector write leaves that sector with unknown contents; `FatFs.health` remembers that an access
failed, and an operation reports a disk error only then.

Where the code does less than one might expect, the project says exactly when it is right:

- The loader's RAM test adds in 64 bits; a program header passes and still lies outside RAM exactly when its end wraps
  (`Loader.CheckMeansInRam`, `Loader.WrapPassesCheck`). The loader's other promises are stated for headers that do not wrap.
- The mount code adds sector counts in 32 bits; the FATs, the root directory and all clusters of an accepted volume are
  disjoint and inside it exactly when that sum does not wrap (`Mount.AreasDisjoint`, `Mount.WrapIsAccepted`). After a
  wrap the areas may still happen to be disjoint, but then they leave the volume (`Mount.SystemAreaInside`,
  `Mount.WrapMayStayApart`).
- The command argument of a card read is 32 bits wide (`SdCard.AddressableExactly`, `SdCard.ByteAddressWraps`).
- CREATE_LINKMAP follows an end mark that is the number after the volume's last cluster and then reports an internal
  error (`LinkMap.RunsOn`, `LinkMap.RunsOnOnLargestVolume`).
- A pass of the DRAM test over a window that reaches into the last step of the address space never ends
  (`MemTest.StopsExactly`, `MemTest.TopWindowDoesNotStop`, `MemTest.NeverEnds`).
- The RAM map computes range ends in 64 bits, so a range that runs past the top of the address space counts as empty
  (`RamMap.EndIsReal`).
- The window test of the DRAM test adds in 64 bits (`RamMap.KeptMeansLong`, `RamMap.ShortWindowKept`).

The allocator and fast-seek code is compiled out of this ROM (`FF_FS_READONLY 1`, `FF_USE_FASTSEEK 0` in ffconf.h); it is
in the same source file and is modelled from there. The comment above the tree placement in bootrom.c takes an end address
below the RAM base as "no segment"; that needs a RAM base above 0, as `Loader.Bootable` says.

## Model

| member | source | states |
|---|---|---|
| Volume.FatFs.constructor | binaries/bootroms/sd-boot/ff.c:3498-3547 | a volume whose geometry fits is left consistent and ready to use: nothing cached, hints unknown, entry values and bitmap are what the medium holds |
| Volume.FatFs.SyncWindow | binaries/bootroms/sd-boot/ff.c:1072-1090 | the dirty sector reaches the medium and, inside the first FAT, the second copy; no sector looks different to a reader |
| Volume.FatFs.MoveWindow | binaries/bootroms/sd-boot/ff.c:1094-1115 | on success the window caches exactly the requested sector; what every sector looks like to a reader is kept, failure included |
| Volume.FatFs.MoveClean | binaries/bootroms/sd-boot/ff.c:1094-1115 | with nothing to write back the medium is untouched and the window equals the sector |
| Volume.FatFs.GetFat | binaries/bootroms/sd-boot/ff.c:1179-1246 | for all four FAT types and all exFAT allocation states: the link of the cluster, 1 for a bad cluster number, or a disk error |
| Volume.ClustersBelowIs | binaries/bootroms/sd-boot/ff.c:1218-1218 | the quotient get_fat computes counts the whole clusters before the last byte |
| Volume.FatFs.Classify | binaries/bootroms/sd-boot/ff.c:1215-1238 | the exFAT branches give exactly the links that are not on the FAT: contiguous chain, first fragment, growing edge |
| Volume.FatFs.GetFat12 | binaries/bootroms/sd-boot/ff.c:1189-1201 | a 12-bit entry read through the window across byte and sector boundaries is the packed entry |
| Volume.FatFs.PutFat | binaries/bootroms/sd-boot/ff.c:1256-1305 | the entry takes the value at its width, every other entry keeps its own, and sectors outside the FATs look unchanged |
| Volume.FatFs.PutFat12 | binaries/bootroms/sd-boot/ff.c:1267-1281 | both halves of a 12-bit store, which may lie in different sectors, change that entry only |
| Volume.FatFs.SetEntry | binaries/bootroms/sd-boot/ff.c:1256-1305 | put then get: afterwards the entry reads back as the value (masked only if it is not a cluster number), all others as before |
| Volume.Fat12RoundTrip | binaries/bootroms/sd-boot/ff.c:1195-1201 | merging a value into two bytes and extracting it again gives the value, and the neighbour sharing a nibble keeps its own |
| Volume.Stores12 | binaries/bootroms/sd-boot/ff.c:1267-1281 | storing an odd or even 12-bit entry leaves every neighbouring packed entry as it was |
| Volume.Stores32 | binaries/bootroms/sd-boot/ff.c:1288-1300 | a 32-bit store keeps the reserved top four bits of a FAT32 entry |
| Volume.FatFs.MirrorAgrees | binaries/bootroms/sd-boot/ff.c:1082-1084 | with two FATs and no failed write, every sector of the copies agrees except a dirty one in the window |
| Volume.FatFs.FlipWindowBit | binaries/bootroms/sd-boot/ff.c:1361-1390 | one bit of the allocation bitmap flips and no other |
| Volume.FlippedBitmap | binaries/bootroms/sd-boot/ff.c:1372-1388 | flipping a bit of a cached bitmap sector flips the matching cluster in the abstract map only |
| Chains.NoRepeats | binaries/bootroms/sd-boot/ff.c:1179-1246 | a list of distinct clusters is no longer than the FAT |
| Chains.WalkFrom | binaries/bootroms/sd-boot/ff.c:1179-1246 | walking the FAT from a cluster of a chain lists the rest of the chain and stops |
| ExFat.ScanSector | binaries/bootroms/sd-boot/ff.c:1331-1352 | the scan of one bitmap sector stops at a free cluster, or only after every bit it passed was in use |
| ExFat.FindBitmap | binaries/bootroms/sd-boot/ff.c:1321-1354 | the cluster found is free; 0 is returned only when every cluster of the volume is in use |
| ExFat.ChangeBitmap | binaries/bootroms/sd-boot/ff.c:1361-1390 | the bit must hold the opposite value, is flipped alone, and the internal-error case changes nothing |
| ExFat.FillFirstFrag | binaries/bootroms/sd-boot/ff.c:1397-1413 | after it the first fragment is on the FAT, the object denotes the same clusters and entries of other clusters are kept |
| ExFat.FillLastFrag | binaries/bootroms/sd-boot/ff.c:1420-1435 | after it the last fragment is on the FAT and ends in the given term; entries of other clusters are kept |
| ExFat.AppendContiguous | binaries/bootroms/sd-boot/ff.c:1567-1587 | a cluster right after a contiguous chain extends what stat and the start cluster denote |
| ExFat.AppendToFragment | binaries/bootroms/sd-boot/ff.c:1564-1587 | a cluster right after the growing fragment extends it without a FAT write |
| ExFat.AppendFragment | binaries/bootroms/sd-boot/ff.c:1564-1587 | a cluster elsewhere starts a new fragment and the denoted list grows by exactly that cluster |
| ExFat.NewFragment | binaries/bootroms/sd-boot/ff.c:1564-1587 | create_chain on a chain that breaks: the previous fragment is sealed and linked to the new cluster |
| ExFat.NoFreeBit | binaries/bootroms/sd-boot/ff.c:1562-1562 | a free-cluster count of 0 means that every cluster is in use |
| ExFat.CreateChain | binaries/bootroms/sd-boot/ff.c:1541-1632 | exFAT: a free cluster is taken, its bit set, and the object with it appended denotes the old list plus it; 0 only when nothing is free, leaving all as it was; the free count stays unknown or exact |
| ExFat.SyncedIsOnDisk | binaries/bootroms/sd-boot/ff.c:1216-1236 | once no fragment is pending, the run from the start cluster (stat 2) or the FAT walk is the denoted list |
| ExFat.Sync | binaries/bootroms/sd-boot/ff.c:4126-4132 | the two fill calls of f_sync: afterwards the medium alone yields exactly the clusters in allocation order |
| ExFat.TakenMeans | binaries/bootroms/sd-boot/ff.c:1361-1390 | clusters taken one after the other were free before, are in use after, and no other bit moved |
| ExFat.GrowAndSync | binaries/bootroms/sd-boot/ff.c:1397-1435 | from an empty object or one that denotes any list: any run of appends with seeks in between, to its end or to a full volume, then a sync: the object denotes the old list and then the new clusters in the order in which they were taken from the bitmap, the medium alone yields just that list, FAT entries of other objects are untouched, and nothing fails but an access to the medium |
| ExFat.FullClusters | binaries/bootroms/sd-boot/ff.c:1216-1218 | the cluster count get_fat derives from the object size is exact for full clusters |
| FatAlloc.FindFree | binaries/bootroms/sd-boot/ff.c:1598-1612 | the circular scan returns a free entry, and 0 only when no entry is free |
| FatAlloc.CreateChain | binaries/bootroms/sd-boot/ff.c:1551-1631 | FAT volumes: either the existing successor, or a free cluster marked last and linked; 0 only on a full volume; the free count stays unknown or exact |
| FatAlloc.FreeLinks | binaries/bootroms/sd-boot/ff.c:1475-1503 | terminates on every FAT content, cyclic ones included; entries are only ever freed; a known chain is freed from the cut to its end exactly |
| FatAlloc.RemoveChain | binaries/bootroms/sd-boot/ff.c:1446-1532 | a chain cut at any cluster: the tail is freed, the rest ended, nothing else touched, the free count kept |
| FatAlloc.NewChain | binaries/bootroms/sd-boot/ff.c:1551-1631 | a one-cluster chain on a free cluster keeps all chains acyclic and disjoint |
| FatAlloc.Stretched | binaries/bootroms/sd-boot/ff.c:1551-1631 | appending a free cluster to one chain keeps all chains acyclic and disjoint and the others as they were |
| FatAlloc.Removed | binaries/bootroms/sd-boot/ff.c:1475-1503 | cutting one chain keeps all others as they were |
| FatAlloc.Serve | binaries/bootroms/sd-boot/ff.c:1446-1632 | one create or remove changes just the chain named; "full" is said of a full volume only, a new cluster was free, and a failure is a disk error or an impossible entry |
| FatAlloc.EachServed | binaries/bootroms/sd-boot/ff.c:1446-1632 | every request inside a run is served as a single one is |
| FatAlloc.LeftIsReplay | binaries/bootroms/sd-boot/ff.c:1446-1632 | the chains a run leaves are those that replaying its requests on lists gives |
| FatAlloc.RunAllocator | binaries/bootroms/sd-boot/ff.c:1446-1632 | every run of creates and removes: each step is a served one from where the last ended, the FAT then holds the replayed chains, acyclic and disjoint, and the free count is unknown or exact; it stops early only on a disk error or an FAT entry of 1 |
| FatAlloc.ZerosUpdate | binaries/bootroms/sd-boot/ff.c:1614-1630 | storing one entry changes the number of free entries by exactly that entry |
| FileIo.RunInCluster | binaries/bootroms/sd-boot/ff.c:1162-1170 | file sectors within one cluster are consecutive on the medium |
| FileIo.File.Locate | binaries/bootroms/sd-boot/ff.c:3908-3930 | on a sector boundary the cluster is followed or kept so that the sector is the one the byte at the cursor lies in |
| FileIo.File.ReadDirect | binaries/bootroms/sd-boot/ff.c:3931-3948 | whole sectors read past the window are the next bytes of the file, never beyond the cluster |
| FileIo.File.ReadPartial | binaries/bootroms/sd-boot/ff.c:3963-3971 | a partial sector read through the shared window is the next bytes of the file |
| FileIo.File.Read | binaries/bootroms/sd-boot/ff.c:3899-3971 | f_read returns the bytes at the cursor, as many as asked for or left, and moves it by as many; only the medium can make it fail |
| FileIo.SameOrLater | binaries/bootroms/sd-boot/ff.c:4488-4492 | seeking to the same or a later cluster starts from the first byte of the current cluster |
| FileIo.File.Follow | binaries/bootroms/sd-boot/ff.c:4509-4533 | following the chain keeps the pair of file position and cluster right and never meets an internal error |
| FileIo.File.Land | binaries/bootroms/sd-boot/ff.c:4534-4539 | the sector chosen mid-sector is the one of the target byte |
| FileIo.File.Seek | binaries/bootroms/sd-boot/ff.c:4478-4552 | f_lseek moves the cursor to the offset or to the end of the file, with cluster and sector right for the next read |
| FileIo.ChainHasLayout | binaries/bootroms/sd-boot/ff.c:1162-1170 | every chain that covers a file gives it a layout, whatever its allocation state |
| FileIo.RunFile | binaries/bootroms/sd-boot/ff.c:3883-3974 | every run of f_read and f_lseek returns what a cursor over one byte string returns, and only a failed access to the medium can end it early |
| LinkMap.LookupIsWalk | binaries/bootroms/sd-boot/ff.c:1644-1662 | looking an index up in the list of runs gives the cluster the chain has there, 0 past its end |
| LinkMap.ClmtClust | binaries/bootroms/sd-boot/ff.c:1644-1662 | the table lookup equals the lookup in the list of runs for every offset |
| LinkMap.Fragment | binaries/bootroms/sd-boot/ff.c:4434-4442 | the inner loop measures the run at a cluster and returns what the chain continues with, unless the end mark is the number after the last cluster |
| LinkMap.CreateLinkMap | binaries/bootroms/sd-boot/ff.c:4427-4452 | made exactly when the table is large enough; the first item reports the size needed either way; the table then holds all runs; besides failed accesses to the medium it fails exactly when the end mark runs on from the last cluster |
| LinkMap.RunsOnOnLargestVolume | binaries/bootroms/sd-boot/ff.c:4434-4442 | a concrete one-cluster object on the largest exFAT volume whose link map cannot be made |
| LinkMap.RunsOnOnSmallVolume | binaries/bootroms/sd-boot/ff.c:4434-4442 | a concrete FAT12 chain whose link map cannot be made |
| LinkMap.FastSeek | binaries/bootroms/sd-boot/ff.c:1644-1662 | through a map that was made, every offset finds the cluster that walking the chain finds |
| Lfn.PutLfn | binaries/bootroms/sd-boot/ff.c:1975-2000 | the entry is the part of the name at that order: units, terminator, padding, order and checksum |
| Lfn.PickLfn | binaries/bootroms/sd-boot/ff.c:1937-1966 | a part of a name is accepted and puts exactly its units, and at the last part a terminator, into the buffer |
| Lfn.MatchedIsSame | binaries/bootroms/sd-boot/ff.c:1901-1929 | all parts matching a buffer means equal names up to case, whatever stale units follow the terminator |
| Lfn.CmpLfn | binaries/bootroms/sd-boot/ff.c:1901-1929 | a part matches exactly when all later units already matched and its own units up-case alike |
| Lfn.SumSfn | binaries/bootroms/sd-boot/ff.c:2070-2081 | the checksum is the rotate-and-add of the eleven name bytes |
| Lfn.DirRegister | binaries/bootroms/sd-boot/ff.c:2582-2617 | the free entries become the complete entry set of the name and no other entry changes |
| Lfn.PartInOrder | binaries/bootroms/sd-boot/ff.c:2393-2419 | the automaton expects the parts of a set in the order they were written |
| Lfn.DirRead | binaries/bootroms/sd-boot/ff.c:2364-2432 | scanning up to a written set returns its short entry with exactly the name in the buffer |
| Lfn.FindLong | binaries/bootroms/sd-boot/ff.c:2484-2494 | over the parts of a set the automaton keeps track of whether everything so far matched |
| Lfn.DirFind | binaries/bootroms/sd-boot/ff.c:2442-2513 | the short entry of a written set is taken for the long name exactly when the names agree up to case |
| Mount.TypeDetermination | binaries/bootroms/sd-boot/ff.c:3526-3532 | the FAT type follows from the cluster count, and the stored all-ones mark reads back as no cluster number and no error code |
| Mount.EntriesInFirstFat | binaries/bootroms/sd-boot/ff.c:3539-3547 | all bytes of an entry of a valid cluster lie in the first FAT |
| Mount.DataInside | binaries/bootroms/sd-boot/ff.c:3516-3524 | all clusters lie inside the volume |
| Mount.UnsignedTest | binaries/bootroms/sd-boot/ff.c:1162-1170 | the single unsigned comparison of clst2sect rejects exactly the cluster numbers below 2 and from n_fatent on |
| Mount.AreasInOrder | binaries/bootroms/sd-boot/ff.c:3514-3541 | the data area starts right behind FATs and root directory exactly when the 32-bit sum of their sizes does not wrap; the root directory follows the FAT area as 32 bits hold it |
| Mount.SystemAreaInside | binaries/bootroms/sd-boot/ff.c:3514-3541 | what precedes the data area ends inside the volume exactly when that sum does not wrap |
| Mount.AreasDisjoint | binaries/bootroms/sd-boot/ff.c:3498-3547 | for every accepted boot sector: FATs, root directory and all clusters are pairwise disjoint and inside the volume if and only if the sum does not wrap |
| Mount.WrapIsAccepted | binaries/bootroms/sd-boot/ff.c:3514-3520 | a concrete accepted boot sector whose sum wraps, so that its first cluster overlaps its first FAT |
| Mount.WrapMayStayApart | binaries/bootroms/sd-boot/ff.c:3514-3520 | a concrete accepted boot sector whose sum wraps while its areas stay apart, outside the volume |
| Mount.ClusterSectorsValid | binaries/bootroms/sd-boot/ff.c:1162-1170 | clst2sect is non-zero exactly on valid clusters |
| Mount.MountedIsSound | binaries/bootroms/sd-boot/ff.c:3498-3547 | an accepted boot sector without wrap gives the geometry everything else relies on, the data area included |
| Mount.MountVolume | binaries/bootroms/sd-boot/ff.c:3498-3590 | an accepted volume inside the medium is mounted consistently with all of its geometry, ready to be read and written; a rejected one is not mounted |
| Loader.NumberOfPart | binaries/bootroms/sd-boot/bootrom.c:392-408 | a number read from the bytes at the cursor is the little-endian number at that place of the file |
| Loader.Rom.ReadNum | binaries/bootroms/sd-boot/bootrom.c:392-408 | the little-endian number at the cursor, or an error; an earlier error sticks and reads nothing |
| Loader.Rom.ReadElfHeader | binaries/bootroms/sd-boot/bootrom.c:430-456 | succeeds only on a 64-bit little-endian ELF, with the four header fields of the System V gABI |
| Loader.Rom.ReadProgramHeader | binaries/bootroms/sd-boot/bootrom.c:457-475 | the fields of program header i, wherever e_phoff and e_phentsize put it |
| Loader.CheckMeansInRam | binaries/bootroms/sd-boot/bootrom.c:476-481 | for a header that passes, the test means "inside RAM" if and only if its end does not wrap 64 bits |
| Loader.WrapPassesCheck | binaries/bootroms/sd-boot/bootrom.c:476-481 | a concrete wrapping header that passes the test although it lies outside RAM |
| Loader.TargetIsPhys | binaries/bootroms/sd-boot/bootrom.c:486-495 | a chunk inside RAM never reaches the low RAM and lands where its addresses are kept until the copy-back |
| Loader.ChunkPlaced | binaries/bootroms/sd-boot/bootrom.c:486-505 | storing a chunk extends the placed part of the segment and disturbs no other address of the image |
| Loader.Rom.CopyChunk | binaries/bootroms/sd-boot/bootrom.c:486-505 | one turn of the file loop: progress, no store into the low RAM, short reads and end of file handled |
| Loader.Rom.LoadSegment | binaries/bootroms/sd-boot/bootrom.c:482-522 | a segment is placed wholly, file bytes then zeros, or an error is reported; the low RAM is untouched |
| Loader.Rom.LoadAll | binaries/bootroms/sd-boot/bootrom.c:457-523 | after all headers the diverted image agrees with a direct load wherever a segment put something |
| Loader.LaterSegmentWins | binaries/bootroms/sd-boot/bootrom.c:457-523 | under a direct load the last segment covering an address decides its byte |
| Loader.GrownTotal | binaries/bootroms/sd-boot/bootrom.c:558-566 | the stored big-endian totalsize reads back as the old one plus 4 KiB in 32 bits |
| Loader.TreeWritten | binaries/bootroms/sd-boot/bootrom.c:556-566 | the three stores leave the blob, 4 KiB of zeros and the grown totalsize, and nothing outside them |
| Loader.Rom.PlaceTree | binaries/bootroms/sd-boot/bootrom.c:539-569 | the tree is placed exactly when there was a segment (or RAM starts at 0) and none reaches the place; otherwise nothing is stored |
| Loader.Rom.CopyBack | binaries/bootroms/sd-boot/bootrom.c:594-609 | the eight-byte loop copies the scratch area over the low RAM and ends exactly there |
| Loader.ImageReady | binaries/bootroms/sd-boot/bootrom.c:577-611 | with or without the copy-back, the diverted image becomes the directly loaded one, clear of the tree |
| Loader.Rom.Prepare | binaries/bootroms/sd-boot/bootrom.c:416-569 | whatever the outcome, if no header wraps, no store before the copy-back hits the low RAM and its bytes are as before |
| Loader.Rom.Download | binaries/bootroms/sd-boot/bootrom.c:416-616 | at the jump, memory equals the direct load at every covered address, the grown tree is in place and overlaps no segment |
| SdCard.ReachedExactly | binaries/bootroms/sd-boot/bootrom.c:372-377 | a command reaches the sector meant exactly below 2^32 sectors (block addresses) or 2^23 (byte addresses) |
| SdCard.ByteAddressWraps | binaries/bootroms/sd-boot/bootrom.c:372-374 | a byte-addressed card asked for the sector at 4 GiB answers with sector 0 |
| SdCard.NextArg | binaries/bootroms/sd-boot/bootrom.c:379-379 | the running 64-bit address keeps the 32-bit argument right from chunk to chunk |
| SdCard.AddressableExactly | binaries/bootroms/sd-boot/bootrom.c:368-386 | a read comes from the sectors asked for if and only if the start of its last chunk can be addressed |
| SdCard.Card.DiskRead | binaries/bootroms/sd-boot/bootrom.c:368-386 | the sectors asked for, in order, for every count and both addressing modes; exactly which sectors are read when the address wraps; all error codes |
| HelloHart.StepKeepsCount | binaries/baremetal/hello-hart/main.c:71-88 | the arrival count is the number of waiting harts, and the hart that completes a round is alone |
| HelloHart.StepKeepsLock | binaries/baremetal/hello-hart/main.c:44-52 | the lock is taken exactly while one hart is inside, never two |
| HelloHart.StepKeepsInv | binaries/baremetal/hello-hart/main.c:44-129 | every atomic step of every hart keeps the barrier, lock and counter invariant |
| HelloHart.BarrierSafety | binaries/baremetal/hello-hart/main.c:71-88 | for every n and every interleaving: no hart leaves a round before all have entered it, rounds differ by at most one, and hart 0 leaves only after every hart printed |
| HelloHart.PrintsDoNotOverlap | binaries/baremetal/hello-hart/main.c:44-63 | in every reachable state at most one hart prints |
| HelloHart.ReleaseIsStable | binaries/baremetal/hello-hart/main.c:82-84 | a released hart stays released, whatever the others do, even into the next round, until it leaves |
| HelloHart.StepKeepsWake | binaries/baremetal/hello-hart/main.c:91-129 | no secondary hart starts before hart 0 woke it, and none that waits is forgotten |
| HelloHart.NoDeadlock | binaries/baremetal/hello-hart/main.c:112-190 | as long as some hart has not passed the barrier, some hart can move |
| EventRing.CycleTells | binaries/baremetal/usb-test/xhci.c:160-163 | the cycle bit alone tells a new event from a stale one, on every pass over the ring |
| EventRing.LastTakenStays | binaries/baremetal/usb-test/xhci.c:164-172 | the event taken last is still in its slot although the dequeue pointer has passed it |
| EventRing.ControlPosts | binaries/baremetal/usb-test/xhci.c:152-159 | storing the control word last turns the slot into the newest event, also where the producer cycle toggles |
| EventRing.RoomTest | binaries/baremetal/usb-test/xhci.c:166-171 | the producer test against the dequeue pointer leaves exactly one slot free (section 4.9.4 of the xHCI specification) |
| EventRing.Ring.constructor | binaries/baremetal/usb-test/xhci.c:122-141 | a zeroed ring with expected cycle 1 holds no event |
| EventRing.Ring.Controller | binaries/baremetal/usb-test/xhci.c:152-159 | any controller activity only adds events at the end |
| EventRing.Ring.EventPop | binaries/baremetal/usb-test/xhci.c:160-172 | the oldest event not yet taken, or nothing exactly when there is none |
| EventRing.Ring.Fetch | binaries/baremetal/usb-test/xhci.c:160-172 | reading through the returned pointer gives all four words of that event |
| EventRing.Ring.Run | binaries/baremetal/usb-test/xhci.c:160-172 | over every interleaving of word stores and pops the driver gets exactly the next events, in order |
| EventRing.NoopRound | binaries/baremetal/usb-test/xhci.c:189-239 | one turn of the loop: go on after a port change or an empty ring, stop with the right verdict otherwise |
| EventRing.NoopRoundtrip | binaries/baremetal/usb-test/xhci.c:174-245 | success exactly when the first event taken that is no port change is the successful completion of the own command |
| Mixer.XorShift | binaries/baremetal/mem-test/main.c:71-75 | x ^= x >> 33 undoes itself |
| Mixer.UnmixMix | binaries/baremetal/mem-test/main.c:70-77 | mix64 has an inverse on all 64-bit words |
| Mixer.PatInjective | binaries/baremetal/mem-test/main.c:79-81 | two addresses share a pattern exactly when they are equal |
| MemTest.LastWriterWins | binaries/baremetal/mem-test/main.c:555-567 | after a writing pass each cell holds what the last address mapped to it put there |
| MemTest.VerifyCounts | binaries/baremetal/mem-test/main.c:563-565 | a verifying pass reports each bad address once |
| MemTest.LineTestExact | binaries/baremetal/mem-test/main.c:583-610 | for every mapping: mismatches = lines minus distinct cells hit |
| MemTest.CellsTellAliasing | binaries/baremetal/mem-test/main.c:583-610 | there are as many cells as lines exactly when no two lines alias |
| MemTest.AliasIsReported | binaries/baremetal/mem-test/main.c:626-663 | of the addresses in one cell, the first to be verified finds the value of the last |
| MemTest.SweepExact | binaries/baremetal/mem-test/main.c:665-690 | the three-phase sweep reports zero exactly when the mapping is injective on the words visited |
| MemTest.StopsExactly | binaries/baremetal/mem-test/main.c:559-559 | a pass comes to its end if and only if the window, rounded up to whole steps, stays below 2^64 |
| MemTest.TopWindowDoesNotStop | binaries/baremetal/mem-test/main.c:559-559 | a concrete window at the top of the address space over which the line pass never ends |
| MemTest.NeverEnds | binaries/baremetal/mem-test/main.c:559-559 | otherwise every turn of the loop, for ever, finds its wrapped address below the end |
| MemTest.Dram.PassWindow | binaries/baremetal/mem-test/main.c:555-581 | the loop over one window, where it ends at all, visits its addresses once each, in order |
| MemTest.Dram.TestLineEdges | binaries/baremetal/mem-test/main.c:583-610 | the suite over all windows: exact count, and failure exactly on aliasing |
| MemTest.Dram.TestFullSweep | binaries/baremetal/mem-test/main.c:665-690 | the suite over all windows fails exactly when two words share a cell |
| RamMap.Insert | binaries/baremetal/mem-test/main.c:118-126 | the inner loop moves one range down to its place and keeps the order of the others |
| RamMap.Sort | binaries/baremetal/mem-test/main.c:117-126 | ascending by base and a permutation; ranges past the count are untouched |
| RamMap.MergedGapped | binaries/baremetal/mem-test/main.c:127-136 | merging sorted ranges leaves strict gaps |
| RamMap.MergedCovers | binaries/baremetal/mem-test/main.c:127-136 | merging sorted ranges loses and gains no address |
| RamMap.Merge | binaries/baremetal/mem-test/main.c:127-137 | the in-place merge computes the merged ranges |
| RamMap.EndIsReal | binaries/baremetal/mem-test/main.c:129-130 | the 64-bit end the code computes is the real one if and only if the range does not run past the top of the address space |
| RamMap.SortAndMerge | binaries/baremetal/mem-test/main.c:117-137 | ascending ranges with strict gaps covering exactly the addresses of the input |
| RamMap.ReservedIsAbove | binaries/baremetal/mem-test/main.c:228-242 | the reserved end lies above stacks and heap if and only if neither ends in the last 4 MiB of the address space, and then by less than 4 MiB |
| RamMap.KeptMeansLong | binaries/baremetal/mem-test/main.c:256-256 | the length test means "at least 4 MiB" if and only if the window does not start in the last 4 MiB of the address space |
| RamMap.ShortWindowKept | binaries/baremetal/mem-test/main.c:256-256 | a concrete one-page range at the top of the address space that becomes a window |
| RamMap.WindowsSound | binaries/baremetal/mem-test/main.c:247-260 | every window lies in one range, above the program, below the limit, is long exactly when it does not start in the last 4 MiB, and the windows are in order and apart |
| RamMap.WindowsComplete | binaries/baremetal/mem-test/main.c:247-260 | with room in the table no range that passes the test is lost |
| RamMap.ComputeWindows | binaries/baremetal/mem-test/main.c:226-261 | the loop with its table limit delivers those windows |
| RamMap.Suites | binaries/baremetal/mem-test/main.c:696-750 | from the ranges of the device tree to the two verdicts: unless a pass never ends, each fails exactly when two visited addresses of the sound windows share a cell |
| RamMap.EndlessIsEndless | binaries/baremetal/mem-test/main.c:559-632 | the windows for which no verdict is promised are those over which the loop never ends |
| Raster.EdgeSteps | binaries/baremetal/dp-test/render.c:157-163 | the per-step deltas are the differences of the direct edge functions |
| Raster.EdgesSumToArea | binaries/baremetal/dp-test/render.c:122-163 | the edge functions sum to the area at every pixel |
| Raster.InsideIsInBounds | binaries/baremetal/dp-test/render.c:143-155 | no covered pixel lies outside the bounding box |
| Raster.SignTestMeansAll | binaries/baremetal/dp-test/render.c:189-189 | the sign of the or of the three edge values is non-negative exactly when all three are |
| Raster.NearIsEnough | binaries/baremetal/dp-test/render.c:118-163 | vertices within 16383 pixels overflow neither area nor edge values |
| Raster.Quotient | binaries/baremetal/dp-test/render.c:168-170 | the truncated quotient is off by less than one, on either side |
| Raster.FixedPointBound | binaries/baremetal/dp-test/render.c:157-215 | the accumulated depth is within 1 + (x - minx) + (y - miny) of 256 times the exact plane depth |
| Raster.CoversBothWindings | binaries/baremetal/dp-test/render.c:118-140 | a face covers a pixel exactly when all edge functions agree with the sign of its area, whichever way round its vertices come |
| Raster.FinalPixel | binaries/baremetal/dp-test/render.c:189-199 | the final depth is the minimum of 0xFFFF and the depths of all covering faces, and the colour is of the first face to reach it |
| Raster.Plot | binaries/baremetal/dp-test/render.c:188-199 | the body of the inner loop paints exactly when the pixel is inside and nearer, and writes that pixel only, in depth buffer and framebuffer |
| Raster.StepRight | binaries/baremetal/dp-test/render.c:200-203 | the increments carry edge values and depth to the next pixel |
| Raster.FillFace | binaries/baremetal/dp-test/render.c:181-215 | after the loops the face has been painted wherever it covers the box and nowhere else |
| Raster.Render | binaries/baremetal/dp-test/render.c:107-217 | after all faces every pixel of the box is what folding the faces over a fresh pixel gives; the framebuffer stores cover the box and never leave it |
| Display.RowInStore | binaries/baremetal/dp-test/render.c:73-78 | every row of the teapot box lies in the frame store |
| Display.PutInRow | binaries/baremetal/dp-test/render.c:185-197 | every rendering store lands in its row of the box |
| Display.Board.FlushRange | binaries/baremetal/soctfb/video.c:110-116 | afterwards DRAM holds every byte of the range, with evictions going on all the time |
| Display.Board.FlushBox | binaries/baremetal/soctfb/video.c:129-138 | afterwards DRAM holds every byte of the box |
| Display.Board.ParkWait | binaries/baremetal/soctfb/video.c:180-200 | it returns only once the VDMA scans the wanted store, or gives up |
| Display.Board.FbFlip | binaries/baremetal/soctfb/video.c:52-57 | the hidden store, wholly in DRAM, becomes the shown one, and the other becomes the draw target |
| Display.Board.BlankAndBaseline | binaries/baremetal/dp-test/main.c:147-164 | both stores end all zero and in DRAM without a store into the scanned one |
| Display.Board.RenderInto | binaries/baremetal/dp-test/render.c:107-199 | carrying out the stores of the rasteriser dirties the box of the hidden store only |
| Display.Board.Frame | binaries/baremetal/dp-test/main.c:241-254 | rasterise any faces, flush the box, flip: the next frame starts in the same state with the stores exchanged |
| Display.Board.AnimLive | binaries/baremetal/dp-test/main.c:230-255 | for any number of frames of any faces: no CPU store hits the scanned store, whenever the VDMA changes stores every byte of the new one is in DRAM as last written, and around the teapot both stay black |
| Nms.Iou | binaries/baremetal/gemmini-detect/main.c:106-114 | between 0 and 1 |
| Nms.IouSymmetric | binaries/baremetal/gemmini-detect/main.c:106-114 | symmetric |
| Nms.IouSelf | binaries/baremetal/gemmini-detect/main.c:106-114 | 1 for equal windows |
| Nms.Sort | binaries/baremetal/gemmini-detect/main.c:117-126 | descending by confidence and a permutation |
| Nms.SelectedApart | binaries/baremetal/gemmini-detect/main.c:131-144 | no two kept boxes overlap beyond the limit |
| Nms.DroppedForBetter | binaries/baremetal/gemmini-detect/main.c:131-144 | every dropped candidate exceeds the limit with a kept one of at least its confidence |
| Nms.KeptAreSelected | binaries/baremetal/gemmini-detect/main.c:131-144 | the kept boxes are the greedily selected candidates with votes added |
| Nms.VotesConserved | binaries/baremetal/gemmini-detect/main.c:136-138 | merging conserves the total vote of each class |
| Nms.Suppress | binaries/baremetal/gemmini-detect/main.c:131-144 | the loops compute the greedy result in place |
| Nms.Relabel | binaries/baremetal/gemmini-detect/main.c:145-154 | the label is the first largest class and the confidence its share of the votes |
| Nms.GreedyKeepsPromise | binaries/baremetal/gemmini-detect/main.c:116-155 | the relabelled greedy result is apart, justifies its drops, conserves the votes and carries the promised labels and confidences |
| Nms.Nms | binaries/baremetal/gemmini-detect/main.c:116-155 | the whole function: sorted permutation, kept boxes apart, drops justified, votes conserved, labels and confidences those of the merged votes |

## Left out

- Bit masks: `&`, `|` and shifts by constants are written as `%`, `/` and `*`; where an or or exclusive or matters itself (`Raster.Or`, `Mixer.Xor`) it is defined bit by bit.
- Volume.FatFs.PutFat: after a failed disk write the medium's copy of that sector is unknown, so only the reader's view of other entries is promised.
- FatFs on several volumes, locking, timestamps, labels, formatting, string I/O, GPT and path parsing.
- exFAT mounting, exFAT directory entries, `remove_chain` on exFAT volumes, and contiguous allocation of more than one cluster (`f_expand`), where the run counter is not reset at the wrap.
- ExFat.GrowAndSync: the object grows by whole clusters, as a writer does that fills each cluster before asking for the next.
- ExFat.Sync: models the two fill calls of f_sync; rewriting the directory entry is left out.
- FatAlloc.RunAllocator: what a call that fails on a disk error leaves on the FAT is stated by that call's own contract only.
- FileIo.RunFile: f_open, access modes and the fast-seek branch of f_read are left out; the medium is assumed not to be written while a file is open, as in the read-only configuration.
- Lfn.DirFind: a directory is a sequence of entries (stepping through its sectors is left out), the search name has its long form (no NS_NOLFN flag), up-casing is an abstract function mapping only 0 to 0; the code-page conversions and short-name generation are left out.
- Mount.MountFat: FAT volumes only; the FSInfo hints and the partition scan are left out.
- Loader.Rom.Download: RV64 only; the instruction fence, hart number and register hand-over of the final jump are left out, and f_read may come up short at any point, which is more than FatFs allows itself.
- Loader.Rom.Prepare: RAM, scratch area and tree are assumed to leave room for each other (`Loader.RoomForTree`), and the blob's totalsize not to exceed the blob.
- SdCard.Card.DiskRead: card initialisation, buffer alignment and the DMA registers are left out; any command may fail.
- HelloHart.Step: each shared access is one atomic step; weak memory order, syscall handling and the exit message are left out.
- EventRing.Ring.Run: command rings, doorbells, port reset and the scratchpad set-up are left out; word widths are not bounded, as no word is computed with.
- MemTest.Dram.TestFullSweep: RV64 words only (on RV32 the pattern is truncated and not injective); suites 1 to 4, the cache scrub and the progress output are left out.
- RamMap.SortAndMerge: reading the ranges from the device tree is left out, as is the diagnostic byte total of clipped ranges.
- Raster.Render: vertices are inputs (the floating-point transforms are left out) whose area and edge values fit 32 bits (`Raster.NoOverflow`); the fixed-point planes are unbounded integers, reduced to 32 bits where the code casts them; pixel colours are left out, only which face painted a pixel is kept.
- Display.Board.AnimLive: single-buffer and precalculated modes, coherent designs, statistics and recovery are left out; a frame boundary is any moment the environment picks, the VDMA then takes the parked store.
- RamMap.Suites: the capacity, marker, width and burst suites between the RAM map and these two are left out.
- Nms.Nms: confidences and votes are real numbers, so rounding is left out; running the classifier, the ink gate and drawing are left out.
- Drivers and plumbing (SD, DisplayPort, VTC, UART, sockets, Verilator glue) and programs without algorithmic content.
