# A verified model of the esdumanOS kernel

This project models the parts of the esdumanOS kernel whose correctness depends on state kept
across many calls, and proves what those parts promise: that the block cache never loses a
write, that the file system never loses or shares a cluster and finds under every name what was
last put there, that undo gives back exactly the text it should, that the USB controller's rings
are queues, that what is on the screen is what the terminal holds, that encrypted files open to
what was sealed, that dates survive being counted and that the PCI walk finds what can be found.
`dafny verify dfyconfig.toml` checks all of it.

Code that works in place is modelled in place: classes with the fields the C code keeps, arrays
where it has arrays, loops where it loops. Each such method is proved equal to, or bounded by, a
function of its inputs, and the properties are proved of those functions. 32-bit wrap-around is
written out; what is not is named under "Left out". Where a property the code is meant to have is
false, the code is kept as it is, a lemma gives the failing input, and the exact condition under which the
property holds is proved.

| file | what it models |
|---|---|
| `BlockCache.dfy` | the write-back sector cache and the block layer's admission rules |
| `Fat.dfy`, `Directory.dfy`, `FileData.dfy` | cluster chains and who owns them; the directory tree; where a file's bytes lie |
| `FileSystem.dfy`, `FileHistory.dfy`, `Permissions.dfy` | the mounted volume: allocate, create, read, delete, rename, mkdir, atomic update; any run of them, as the names see it; who may do what with an entry |
| `LittleEndian.dfy`, `DiskLayout.dfy` | packed records; partition table, superblock and the layout arithmetic of a format |
| `EditBuffer.dfy`, `UndoHistory.dfy`, `UndoGroups.dfy`, `UndoLog.dfy` | the flat edit buffer as a list of lines; undo as a bounded view of history; undo as a return to the marks where groups began; the arrays that store it |
| `CycleRing.dfy`, `PollGuard.dfy` | cycle-bit rings under every interleaving of single memory accesses; the flag around the event drain |
| `Terminal.dfy`, `TerminalText.dfy`, `TerminalDevice.dfy` | the terminal one byte at a time; whole texts and sequences as a reader expects them; its buffers, the console and deferred repaints |
| `PixelMemory.dfy`, `Framebuffer.dfy` | the bytes pixels occupy, and which share them; glyphs, shadow and cursor drawn into them |
| `AesTables.dfy`, `Aes.dfy`, `AesStandard.dfy`, `EncryptedFiles.dfy` | the cipher and its inverse, block chaining; the cipher as FIPS 197 defines it; the stored form of an encrypted file |
| `EncryptedVolume.dfy` | encrypted files on the volume, from plaintext to disk and back |
| `Calendar.dfy` | day counts, epochs and timezone shifts |
| `PciWalk.dfy` | the bus walk over an arbitrary configuration space |

Devices, the controller and the configuration space are adversaries: a device may refuse any
write and damage the sector it refused, the controller reads at any moment, a bridge may lead
anywhere, and any sector of the file system's data region may be refused when it is read or
written. What each access is answered is fixed before the call that makes it, so the results say
beforehand which answers lose what. The two tables are saved whole and cannot be refused.

Clocks, keys, hashes and random vectors are parameters.

## Findings

Sixteen places do not do what the surrounding code or comments promise; each has its exact condition.

- An atomic update of a file whose name is its own temporary name (63 characters ending in
  `.tmp`) deletes the file: `FileSystem.TmpNameCollides`, `FileSystem.Volume.AtomicUpdate`.
- Creating a file of more than 2^32 - 4096 bytes asks for no clusters at all:
  `FileData.ClustersNeededExact`.
- A read whose end passes 2^32 is not cut off at the end of the file:
  `FileData.ReadCountExact`, and the same for encrypted files in `EncryptedFiles.ReadLengthExact`.
- A sector write that is refused goes unnoticed (fs/vfs.c:1574), so a create or an atomic update
  answers that all is well, and the update has freed the old bytes, while part of the new ones is
  missing. Every other file stays as it was. The new one goes on the first free clusters, and is on
  the disk exactly if each of their sectors whose write will be refused already holds its share, so
  always when none will be: `FileSystem.Volume.CreateFileRaw`, `FileSystem.Volume.AtomicUpdate`,
  `FileSystem.WrittenIsStored`;
  one lost byte: `FileSystem.LostByte`. A refused read (fs/vfs.c:1300) goes unnoticed too, and its
  sector shows zeros or whatever the buffer held: `FileSystem.Volume.ReadRaw`.
- The superblock check looks at where the regions start, not at how long they are. An accepted one
  can lay the directory over the allocation table and the data; it gives every sector one use
  exactly when each table ends before the next region starts: `DiskLayout.RegionsApartExact`,
  `DiskLayout.OverlapAccepted`.
- It also adds in 32 bits, so it bounds the data region exactly when the sum does
  not wrap: `DiskLayout.ReadableFits`.
- The comment at include/editbuf.h:449 says part of a group is never dropped. The group being
  typed is, exactly when it and the next change do not fit the log together, a change larger than
  the whole arena included: `UndoHistory.PushKeepsGroup`, `UndoHistory.HalfAGroup`.
- Cursor counts near 2^32 wrap: up moves the cursor below the buffer (`Terminal.PutStaysInside`,
  `Terminal.UpGoesDown`), down moves it up and right moves it left
  (`Terminal.LargestCountTurnsBack`); `Terminal.MotionIsClamped` has the exact counts.
- A framebuffer is accepted whose pixels share bytes: lines on top of each other
  (`Framebuffer.LinesOnTop`), or a line 2^27 that is line 0 again (`Framebuffer.LineWrapsOntoFirst`).
  On the first, one white cell cannot be shown whatever is stored (`Framebuffer.OneCellSpoils`); on
  the second only the border shares bytes, and every drawing comes out right
  (`Framebuffer.BordersMayShare`). The screen shows what the shadow says, whatever is drawn, exactly
  when no console pixel spoils another pixel: `Framebuffer.DrawableExact`,
  `Framebuffer.Display.Draw`. Any value can be stored in any pixel without touching another exactly
  when two lines are always a line's length apart around 4 GB: `PixelMemory.LocalExactly`,
  `PixelMemory.PixelsApartExact`; with no address that wraps, exactly when a line fits its pitch and
  the last pixel ends within 4 GB: `PixelMemory.ScreenFits`.
- The loop that looks for the largest scale gets past every scale that fits on exactly the screens
  of `Framebuffer.ScaleTestExact`, and does not end on exactly those of `Framebuffer.ScaleStopsExact`.
- A timezone shift moves the instant by what its narrow fields lose, and each keeps it exactly when
  it fits: the offset in eight bits, the year in sixteen: `Calendar.ShiftKeepsInstant`.
- A timestamp since 1970 loses its epoch, though not its instant, when a shift takes the local clock
  back before 1970, and then only: the first hour of 1970 shifted an hour west has epoch zero
  (`Calendar.FirstHourLost`, `Calendar.EpochKeptExactly`).
- Opening a stored file whose ciphertext is not whole blocks decrypts, and rewrites, up to fifteen
  bytes of memory behind it; it stays within the file exactly when the length less sixteen is a
  multiple of sixteen: `EncryptedFiles.OverrunExact`, `EncryptedBuffers.OpenInPlace`; a file of a
  hundred bytes: `EncryptedFiles.HundredBytesOverrun`. Nothing between fs/vfs.c:1333 and
  fs/crypto_fs.c:246 keeps such a file away.
- The block loops count in 32 bits by sixteen, and for lengths above 2^32 - 16 never end:
  `Chaining.CounterArrives`. No caller reaches that: padded lengths stop at 2^32 - 16, and stored
  files at 2^30.
- The size of the buffer an encrypted file is built in wraps, so the copy stays within it exactly
  up to 2^32 - 72 bytes of data: `EncryptedFiles.StoredLengthExact`, `EncryptedBuffers.SealFile`.
- A blob of 2 GB or more in memory opens to a negative length, which its callers take for a
  failure: `EncryptedFiles.OpenUndoesSeal`. No file on a volume is that long: 2^18 clusters hold
  2^30 bytes.

## Model

| member | source | states |
|---|---|---|
| `BlockCache.UncachedIsOnMedium` | fs/bcache.c:159-203 | a sector no slot holds is on the medium exactly as last accepted |
| `BlockCache.CleanMeansDurable` | fs/bcache.c:275-304 | with no slot dirty, the medium is everything ever accepted |
| `BlockCache.ReleasedIsDurable` | fs/bcache.c:315-351 | a device none of whose sectors is cached holds everything ever accepted for it |
| `BlockCache.WriteBackKeeps` | fs/bcache.c:275-304 | a write the device took leaves the invariant: unique keys, dirty implies valid, clean implies equal to the medium |
| `BlockCache.RefusalKeeps` | fs/bcache.c:103-140 | a refused write that damaged its sector leaves the invariant, because the slot stays dirty |
| `BlockCache.FillKeeps` | fs/bcache.c:159-203 | refilling a slot that is not dirty with an uncached sector leaves the invariant |
| `BlockCache.AcceptKeeps` | fs/bcache.c:217-261 | accepting a write into the slot that holds its sector, or one not dirty, leaves the invariant |
| `BlockCache.DropKeeps` | fs/bcache.c:315-351 | dropping a slot that is not dirty loses nothing |
| `BlockCache.ReadReturnsLastWrite` | fs/bcache.c:159-261 | in any honest history a read returns the last accepted write to that device and sector, or what was there at first |
| `BlockCache.ReplayIsLastWrite` | fs/bcache.c:217-261 | the store a history leaves holds the last accepted write of every sector it wrote |
| `BlockCache.ReplayUntouched` | fs/bcache.c:217-261 | and is unchanged at every sector it did not |
| `BlockCache.Cache.DeviceWrite` | drivers/blockdev.c:163-185 | a write the checks refuse changes nothing; one the device refuses may damage that one sector and is logged |
| `BlockCache.Cache.MarkDirty` | fs/bcache.c:46-52 | a slot is marked once, the count stays the number of dirty slots, and the oldest-dirty time is set only by the first |
| `BlockCache.Cache.MarkClean` | fs/bcache.c:57-62 | and unmarked once |
| `BlockCache.Cache.WriteBack` | fs/bcache.c:275-304 | one dirty slot offered to its device: clean if taken, unchanged if not, nothing else touched |
| `BlockCache.Cache.GetLruSlot` | fs/bcache.c:103-140 | empty slots first, then the oldest clean one, then dirty ones strictly oldest first; fails only when all are dirty and every one of their devices has just refused |
| `BlockCache.Cache.ReadSector` | fs/bcache.c:159-203 | a successful read returns the last accepted write and changes no contents; refused requests touch nothing; an admitted read of a cached sector succeeds, and of another fails only when its device says so or every slot is dirty and just refused |
| `BlockCache.Cache.WriteSector` | fs/bcache.c:217-261 | a write is accepted whole, changing one sector, or refused whole, changing none; an admitted write is refused only when every slot is dirty and just refused. An accepted one stamps its slot the newest and leaves fewer dirty slots than the high-water mark, or only ones whose devices have just refused |
| `BlockCache.Cache.WriteBehind` | fs/bcache.c:256-258 | at the high-water mark everything is flushed; below it nothing is touched |
| `BlockCache.FewOffMedium` | fs/bcache.c:217-261 | no more sectors differ from their medium than slots are dirty |
| `BlockCache.AdmittedExactly` | drivers/blockdev.c:147-185 | exactly which reads and writes are admitted, and which of the errors the others are told |
| `BlockCache.Cache.FlushReporting` | fs/bcache.c:275-304 | succeeds exactly when nothing is left dirty, and then the medium is the contents; whatever stays dirty was refused in this call |
| `BlockCache.Cache.FlushDev` | fs/bcache.c:315-351 | succeeds exactly when nothing of the device is left cached; whatever stays was refused; other devices are untouched |
| `BlockCache.Cache.FlushIfDue` | fs/bcache.c:369-373 | does nothing before the interval has passed and a full flush after it |
| `BlockCache.Cache.Run` | fs/bcache.c:103-373 | after any run of reads, writes, flushes and unmounts, over devices that refuse anything, the requests answered Ok are an honest history and the contents are that history replayed; a request that is not admitted answers why, and when the devices serve every access every other one answers Ok and at most 31 accepted sectors are ever not on their medium; the medium of a device that takes no writes stays as it was |
| `BlockCache.Cache.Serve` | fs/bcache.c:103-373 | one request of a run: Ok adds its event to the history, anything else leaves the contents alone; a flush answered Ok has put everything on the media it was asked for, and a yield leaves no flush due when the devices oblige |
| `Fat.ChainsDisjoint` | fs/vfs.c:274-307 | no cluster is on two chains, nor twice on one |
| `Fat.ChainUnique` | fs/vfs.c:1245-1323 | the table alone determines the chain from a cluster |
| `Fat.FormattedIsOwned` | fs/vfs.c:94-122 | a formatted table owns nothing |
| `Fat.FirstFree` | fs/vfs.c:274-307 | the clusters a first-fit scan takes are free, different and in order |
| `Fat.AllocateKeeps` | fs/vfs.c:274-307 | linking free clusters for a new owner keeps every chain finite, disjoint and exactly the clusters in use |
| `Fat.ReleaseKeeps` | fs/vfs.c:1741-1752 | freeing an owner's chain keeps it too |
| `Fat.SwapOwnersKeeps` | fs/vfs.c:1873-1900 | exchanging two owners' chains keeps it too |
| `Fat.Conservation` | fs/vfs.c:274-307 | free clusters, held clusters and the two reserved ones are the whole table |
| `Directory.ReachBound` | fs/vfs.c:713-763 | an entry reaches the root at all exactly when it does within as many hops as there are slots |
| `Directory.WalkToRoot` | fs/vfs.c:713-763 | the validator's bounded walk says yes exactly when the parent chain ends at the root |
| `Directory.ValidateDirectoryTable` | fs/vfs.c:713-763 | accepts a table exactly when every used entry sits in its own slot, has a valid type and start cluster and hangs from the root |
| `Directory.AddKeepsTable` | fs/vfs.c:1994-2047 | filling a free slot under an existing parent keeps the tree |
| `Directory.RemoveKeepsTable` | fs/vfs.c:1675-1762 | clearing a slot that is nobody's parent keeps the tree |
| `Directory.RewriteKeepsTable` | fs/vfs.c:1771-1810 | changing what an entry says but not where it hangs keeps the tree |
| `Directory.EmptyTableOk` | fs/vfs.c:94-122 | an empty table is a tree with unique names |
| `Directory.ParentsOk` | fs/vfs.c:713-763 | in an accepted table every parent is the root or a directory |
| `Directory.ResolvesUnique` | fs/vfs.c:1975-1986 | with sibling names unique, a name in a directory means one slot |
| `Directory.GetEntryIdx` | fs/vfs.c:1975-1986 | finds the entry of a name in a directory, or says there is none |
| `Directory.DirExists` | fs/vfs.c:181-192 | says whether an id is the root or an existing directory |
| `Directory.FreeSlot` | fs/vfs.c:1479-1600 | finds a free slot other than the root's, or says there is none |
| `FileData.SectorIsOnChain` | include/fs.h:438-440 | a sector of a chain lies in its own cluster and no other |
| `FileData.SectorsDistinct` | include/fs.h:438-440 | different positions of a chain are different sectors |
| `FileData.StoredElsewhere` | include/fs.h:438-440 | writing to one chain changes no byte of a file on a disjoint one |
| `FileData.ShowsIsSlice` | fs/vfs.c:1245-1323 | within a file's length, what a read all of whose accesses are served shows is that slice of its contents |
| `FileData.ServedShowsAll` | fs/vfs.c:1288-1306 | a read whose accesses are all served shows every byte |
| `FileData.AccessesAdd` | fs/vfs.c:1288-1306 | two reads one after the other make the accesses of both |
| `FileData.ClustersNeededExact` | fs/vfs.c:1537-1544 | the cluster count is the true one exactly up to 2^32 - 4096 bytes, and zero above |
| `FileData.ReadCountExact` | fs/vfs.c:1245-1323 | a read returns what is left of the file, up to the request, exactly when the end of the request does not wrap or there is nothing to expose |
| `FileData.WrappedReadOverruns` | fs/vfs.c:1245-1323 | a wrapped request for one byte of file returns a cluster less one |
| `FileSystem.FormattedTables` | fs/vfs.c:498-580 | the tables of a fresh format satisfy every invariant |
| `FileSystem.CreateKeeps` | fs/vfs.c:1537-1600 | entering a file on free clusters keeps ownership, tree, names and sizes |
| `FileSystem.RemoveKeeps` | fs/vfs.c:1675-1762 | clearing an entry and freeing its chain keeps them |
| `FileSystem.RewriteKeeps` | fs/vfs.c:1771-1810 | renaming onto a name nobody has keeps them |
| `FileSystem.MkdirKeeps` | fs/vfs.c:1994-2047 | making a directory keeps them |
| `FileSystem.SwapKeeps` | fs/vfs.c:1873-1900 | exchanging the chains and sizes of two entries keeps them |
| `FileSystem.IntactAfterCreate` | fs/vfs.c:1537-1579 | whatever part of a create is refused, every other file is on the disk exactly if it was, byte for byte |
| `FileSystem.IntactAfterRemove` | fs/vfs.c:1741-1752 | deleting takes one file, and no other, from those on the disk |
| `FileSystem.SwapKeepsIntact` | fs/vfs.c:1873-1900 | exchanging two entries exchanges whether the disk holds their files |
| `FileSystem.WrittenIsStored` | fs/vfs.c:1549-1579 | a chain written over holds the contents exactly if each refused sector already held its share |
| `FileSystem.LostByte` | fs/vfs.c:1571-1576 | one refused sector: everything else is written and the only byte is not there |
| `FileSystem.FollowChain` | fs/vfs.c:1277-1286 | along a chain the links lead from each cluster to the next, then to the end mark, then nowhere |
| `FileSystem.UpdateSteps` | fs/vfs.c:1820-1902 | remove, create, swap, remove: together an update, with every other entry as it was |
| `FileSystem.UpdateKeepsIntact` | fs/vfs.c:1820-1902 | an update whose new bytes reached the disk leaves every file on it |
| `FileSystem.TmpNameCollides` | fs/vfs.c:1820-1902 | a name is its own temporary name exactly when it has 63 characters and ends in .tmp |
| `FileSystem.ItsOwnTmpName` | fs/vfs.c:1820-1902 | one such name |
| `FileSystem.Volume.Format` | fs/vfs.c:498-580 | a formatted volume satisfies every invariant and holds nothing |
| `FileSystem.Volume.AllocateChain` | fs/vfs.c:274-307 | succeeds exactly when enough clusters are free, taking the first ones in order; a failure leaves the table as it was |
| `FileSystem.Volume.LinkFree` | fs/vfs.c:274-307 | links as many of the first free clusters as there are, up to the number wanted |
| `FileSystem.Volume.Rollback` | fs/vfs.c:274-307 | undoes a short allocation exactly |
| `FileSystem.Volume.FreeChain` | fs/vfs.c:1741-1752 | ends on every table, cyclic ones included; on a chain it frees exactly that chain |
| `FileSystem.Volume.WriteCluster` | fs/vfs.c:1549-1579 | makes eight accesses; each sector then holds its share of the contents, padded with zeros, exactly if its access is answered yes, and otherwise what it had; no other sector changes |
| `FileSystem.Volume.WriteContent` | fs/vfs.c:1549-1579 | the same for every sector of a chain, in order, so the disk after any answers is known before the call |
| `FileSystem.Volume.SkipClusters` | fs/vfs.c:1245-1323 | follows any table past the clusters an offset skips, and gives up exactly where the links do |
| `FileSystem.Volume.ReadRaw` | fs/vfs.c:1245-1323 | advances by the bytes it returns and makes exactly the accesses they span; of a file on the disk every byte whose access is answered yes is its own |
| `FileSystem.Volume.ReadInChunks` | fs/vfs.c:1245-1323 | from a store that serves every access, reads of any sizes concatenate to one run of the storage, and when none of their ends wraps, to the contents |
| `FileSystem.Volume.ReadChain` | fs/vfs.c:1288-1321 | the clusters from any place in a chain, each byte as its access is answered |
| `FileSystem.Volume.CreateFileRaw` | fs/vfs.c:1479-1600 | the status is the first failing check; success adds one entry on the first free clusters, with the given bytes on the disk exactly if each sector whose write is answered no already holds its share, and leaves every other file as it was; failure changes nothing |
| `FileSystem.Volume.CreateFile` | fs/vfs.c:1610-1625 | the same for every size, with the volume's immutability and the payload's own refusal in front |
| `FileSystem.Volume.Delete` | fs/vfs.c:1675-1762 | removes exactly one entry and frees exactly its chain, or says why not and changes nothing |
| `FileSystem.Volume.Rename` | fs/vfs.c:1771-1810 | changes one name, or says why not and changes nothing |
| `FileSystem.Volume.Mkdir` | fs/vfs.c:1994-2047 | adds one empty directory, or says why not and changes nothing |
| `FileSystem.Volume.SwapEntries` | fs/vfs.c:1873-1900 | exchanges two entries' chains, sizes, contents and whether the disk holds them, and nothing else of them |
| `FileSystem.Volume.UpdateExisting` | fs/vfs.c:1820-1902 | answers what making the temporary file answers; all or nothing: the new bytes under the same id, owner, mode and creation time with the old chain freed, or the old bytes; between its locks it leaves exactly the states of its four steps, in which the name is there with the old bytes until the exchange and the new ones from then on; the new bytes are on the disk exactly if each sector whose write is answered no held its share, and every other file is as it was |
| `FileSystem.Volume.AtomicUpdate` | fs/vfs.c:1820-1902 | the same for any name that is not its own temporary name; creates a missing file; a name that is deletes the file and no other; from a store that serves every access every file stays on the disk |
| `FileSystem.Volume.Run` | fs/vfs.c:1479-2047 | any run of creates, deletes, renames, mkdirs and updates from a valid volume ends in one; every answer is the one its checks give in the moment it is asked, and every request did what it answered and nothing else; from a store that serves every access every file stays on the disk whole |
| `FileSystem.Volume.Step` | fs/vfs.c:1479-2047 | one request of a run answers what its checks give, and does what it answered and nothing else |
| `FileHistory.RunOnNames` | fs/vfs.c:1479-2047 | after any run a lookup of any name finds what the requests answered Ok, replayed on names alone, leave there, unless an update uses the name for its temporary file |
| `FileHistory.EffectOnNames` | fs/vfs.c:1479-2047 | a request changes what is found under the names it is about, as it answered, and under no other |
| `FileHistory.CreatesOnNames` | fs/vfs.c:1479-1625 | a create answered Ok puts its bytes under its name |
| `FileHistory.RemovesOnNames` | fs/vfs.c:1675-1762 | a delete takes its name away |
| `FileHistory.RenamesOnNames` | fs/vfs.c:1771-1810 | a rename moves what is under one name to the other |
| `FileHistory.MkdirsOnNames` | fs/vfs.c:1994-2047 | a mkdir puts a directory under its name |
| `FileHistory.UpdatesOnNames` | fs/vfs.c:1820-1902 | an update puts the new bytes under its name, or leaves the old ones |
| `FileSystem.Volume.ValidMeans` | fs/vfs.c:713-763 | on a valid volume every cluster is accounted for, the mount check accepts the directory, and every parent walk ends |
| `LittleEndian.EncodeRoundTrip` | include/fs.h:274-318 | a number that fits its bytes is read back from them |
| `LittleEndian.DecodeRoundTrip` | include/fs.h:274-318 | and bytes are written back as they were read |
| `LittleEndian.ByteAt` | include/fs.h:274-318 | byte k of a number has the weight 256 to the k |
| `LittleEndian.FieldRoundTrip` | include/fs.h:274-318 | every field of a packed record is read back from its offset, whatever follows |
| `DiskLayout.SettleIsIdempotent` | fs/vfs.c:498-580 | one pass of the settling loop is already at its fixed point |
| `DiskLayout.EntriesForPartition` | fs/vfs.c:488-496 | the entry count is doubled while the directory stays under a twentieth of the partition, and no further |
| `DiskLayout.SettlePass` | fs/vfs.c:498-580 | the data starts at the first sector that leaves the table room, and the count is the largest, up to the one tried, that ends inside the partition |
| `DiskLayout.TablesCover` | fs/vfs.c:470-473 | the directory and allocation tables hold every entry and cluster |
| `DiskLayout.RoomForTables` | fs/vfs.c:498-580 | for every accepted size some clusters are left and the data region ends inside the partition |
| `DiskLayout.FormatGeometry` | fs/vfs.c:498-580 | for every accepted size the regions are disjoint, in order and inside the partition, the layout is settled, and short of the cluster cap fewer than 208 sectors are in no region |
| `DiskLayout.NoKeySlotYet` | fs/vfs.c:552-566 | a new superblock is all zeros behind its layout, so it has no key slot yet |
| `DiskLayout.LoadPartition` | fs/vfs.c:645-685 | finds the first usable partition, or none exactly when there is none |
| `DiskLayout.MbrRoundTrip` | fs/vfs.c:435-449 | the partition table a format writes leads back to its partition |
| `DiskLayout.SuperRoundTrip` | fs/vfs.c:352-359 | a superblock is read back as it was written |
| `DiskLayout.FormatThenLoad` | fs/vfs.c:592-634 | the superblock of a new file system is accepted with the geometry it was given |
| `DiskLayout.AcceptedExactly` | fs/vfs.c:592-634 | which sectors are accepted as a superblock: the bytes of the signature and of the agreed sizes, the caps on entries and clusters, the order of the regions and the end of the data in 32 bits |
| `DiskLayout.SuperLayout` | include/fs.h:289-318 | where each field of a superblock lies, byte by byte |
| `DiskLayout.PartitionLayout` | include/fs.h:274-281 | and of a partition entry |
| `DiskLayout.ReadableFits` | fs/vfs.c:592-634 | an accepted superblock keeps its data inside the partition exactly when its end does not wrap |
| `DiskLayout.WrappedSuperAccepted` | fs/vfs.c:592-634 | a superblock far outside its partition that is accepted |
| `DiskLayout.RegionsApartExact` | fs/vfs.c:607-619 | an accepted superblock gives every sector one use exactly when each table ends before the next region starts |
| `DiskLayout.OverlapAccepted` | fs/vfs.c:607-619 | an accepted superblock whose directory lies over the allocation table and the data |
| `DiskLayout.FormatThenMount` | fs/vfs.c:963-974 | formatting any accepted disk and mounting it gives back one geometry |
| `EditBuffer.JoinOfLines` | include/editbuf.h:48-72 | a text is its lines joined |
| `EditBuffer.LinesOfJoin` | include/editbuf.h:48-72 | and joined lines split into themselves |
| `EditBuffer.LineIndexSpec` | include/editbuf.h:48-72 | the line of an offset contains it |
| `EditBuffer.LineIndexUnique` | include/editbuf.h:48-72 | and no other line does |
| `EditBuffer.BoundariesAreLines` | include/editbuf.h:48-72 | the start and end scans stop at the boundaries of that line |
| `EditBuffer.SpanRemovesLine` | include/editbuf.h:328-351 | cutting a line's span removes that element of the list, or leaves one empty line |
| `EditBuffer.CursorLands` | include/editbuf.h:364-375 | after a deletion the cursor is at the start of the line now in its place |
| `EditBuffer.NearestIsUnique` | include/editbuf.h:238-280 | the nearest cyclic match in a direction is one offset |
| `EditBuffer.CountIsLines` | include/editbuf.h:156-163 | a text has one more line than newlines |
| `EditBuffer.EditBuf.LineStart` | include/editbuf.h:48-54 | the start of the line |
| `EditBuffer.EditBuf.LineEnd` | include/editbuf.h:66-72 | the end of the line |
| `EditBuffer.EditBuf.NextLine` | include/editbuf.h:92-99 | the start of the next line of the list, or -1 on the last |
| `EditBuffer.EditBuf.PrevLine` | include/editbuf.h:108-113 | the start of the previous one, or -1 on the first |
| `EditBuffer.EditBuf.LineCount` | include/editbuf.h:156-163 | the length of the list |
| `EditBuffer.EditBuf.GotoLine` | include/editbuf.h:172-182 | the start of the n-th line, clamped |
| `EditBuffer.EditBuf.MatchesAt` | include/editbuf.h:218-225 | true exactly when the pattern stands there |
| `EditBuffer.EditBuf.FindNext` | include/editbuf.h:238-255 | the nearest match after an offset, around the end; -1 exactly when the pattern occurs nowhere |
| `EditBuffer.EditBuf.FindPrev` | include/editbuf.h:265-280 | the nearest match before an offset, around the start; -1 exactly when it occurs nowhere |
| `EditBuffer.EditBuf.Insert` | include/editbuf.h:290-298 | puts one character in, or nothing exactly when there is no room or no such offset |
| `EditBuffer.EditBuf.Delete` | include/editbuf.h:307-313 | takes one character out, or nothing exactly when there is none there |
| `EditBuffer.EditBuf.LineSpan` | include/editbuf.h:328-351 | the span whose removal removes the line |
| `EditBuffer.EditBuf.DeleteLine` | include/editbuf.h:364-375 | removes exactly that line of the list and lands the cursor |
| `Permissions.AllowsExactly` | include/fs.h:769-783 | root may do anything, and anyone else exactly what the bits of their own class, the first that matches, show |
| `Permissions.FirstClassDecides` | include/fs.h:751-783 | an owner without a right is refused it though the group has it |
| `Permissions.NewFileRights` | include/fs.h:167-168 | a file just created: anyone may read it, its creator alone may write it, nobody but root may execute it |
| `Permissions.NewDirRights` | include/fs.h:167-168 | a directory just made: anyone may list and search it, its maker alone may write in it |
| `Permissions.NewFileClass` | include/fs.h:769-783 | the creator of a file is judged as its owner, others of the creator's group as its group, and everyone else as others |
| `UndoHistory.ToDropMakesRoom` | include/editbuf.h:487-497 | dropping whole groups, oldest first, makes room |
| `UndoHistory.GrownExplains` | include/editbuf.h:515-526 | a record grown by what was typed right after it still takes the text back |
| `UndoHistory.RecordKeeps` | include/editbuf.h:509-551 | every retained record explains one real step of the text, however it was coalesced or what was dropped |
| `UndoHistory.UndoKeeps` | include/editbuf.h:621-640 | undo keeps that |
| `UndoHistory.OneBackKeeps` | include/editbuf.h:621-640 | and so does taking back one record |
| `UndoHistory.UndoAllIsExact` | include/editbuf.h:621-640 | undoing to the end gives the text before the oldest retained record, and with nothing lost the text at the last reset |
| `UndoHistory.StepKeeps` | include/editbuf.h:427-640 | every edit, group mark, undo and reset keeps the history faithful |
| `UndoHistory.RunKeeps` | include/editbuf.h:427-640 | and so does any run of them |
| `UndoHistory.DropSparesCurrentGroup` | include/editbuf.h:447-478 | making room takes records of the group being typed exactly when it and the new record do not fit the log together |
| `UndoHistory.PushKeepsGroup` | include/editbuf.h:509-551 | recording any change keeps the current group whole exactly when they fit together; a change larger than the arena empties the log in mid-group |
| `UndoHistory.OneRecordForgets` | include/editbuf.h:447-478 | a one-record log forgets the first record of a group of two |
| `UndoHistory.HalfAGroup` | include/editbuf.h:447-478 | so that undo gives back half of what was done at once |
| `UndoGroups.UndoIsLastMark` | include/editbuf.h:440-640 | after any run from an empty log, an undo that does anything gives back the text and cursor at the last group mark before the newest change, whenever the log could hold the group; with nothing lost every mark can be gone back to |
| `UndoGroups.RunAgrees` | include/editbuf.h:427-640 | after any run the retained records begin groups exactly where the edits, marks and undos alone say, and typing on is taken on for exactly the runs of typing they say |
| `UndoGroups.GroupComesBack` | include/editbuf.h:440-551 | a new group and one edit: undo gives the text at the mark exactly when the log takes records and the edit takes out no more than its arena |
| `UndoGroups.TypingCostsOneRecord` | include/editbuf.h:515-526 | a string typed in one group leaves the text with it in place and costs no more records than its first character |
| `UndoGroups.DropsGroups` | include/editbuf.h:458-497 | room is made a whole group at a time |
| `UndoGroups.DropsNoMore` | include/editbuf.h:487-497 | and with any whole group fewer gone there would be none |
| `UndoLog.PackedUsed` | include/editbuf.h:399-420 | the arena holds exactly the removed characters of the retained records |
| `UndoLog.WithoutOldest` | include/editbuf.h:458-478 | sliding both arrays down over the oldest group drops it from the history and nothing else |
| `UndoLog.Journal.Reset` | include/editbuf.h:427-434 | empties the history |
| `UndoLog.Journal.NewGroup` | include/editbuf.h:441-444 | starts a group and changes no record |
| `UndoLog.Journal.DropOldest` | include/editbuf.h:458-478 | drops exactly the oldest group |
| `UndoLog.Journal.Room` | include/editbuf.h:487-497 | makes room by dropping whole groups, and fails exactly when nothing could ever fit |
| `UndoLog.Journal.PushRecord` | include/editbuf.h:509-551 | records a change as the history does, which UndoGroups.UndoIsLastMark and TypingCostsOneRecord say the meaning of |
| `UndoLog.Journal.InsertChar` | include/editbuf.h:563-568 | the buffer and the log after a recorded insertion |
| `UndoLog.Journal.DeleteChar` | include/editbuf.h:582-587 | and a recorded deletion |
| `UndoLog.Journal.DeleteLine` | include/editbuf.h:601-608 | and a recorded line deletion, with the cursor it returns |
| `UndoLog.Journal.TakeBackOne` | include/editbuf.h:621-640 | takes back one record without ever running out of buffer |
| `UndoLog.Journal.TakeBack` | include/editbuf.h:621-640 | leaves exactly the text before the oldest retained record of the newest group, and the cursor it was made at |
| `CycleRing.FreshKeeps` | drivers/xhci.c:2172-2182 | a zeroed segment with its Link set satisfies the invariant |
| `CycleRing.BeginKeeps` | drivers/xhci.c:484-500 | starting a record while fewer than a lap are pending keeps it |
| `CycleRing.StoreKeeps` | drivers/xhci.c:822-840 | every single store of a push keeps it, the Link's included |
| `CycleRing.TurnKeeps` | drivers/xhci.c:484-492 | turning the Link over starts a lap in which nothing reads as new |
| `CycleRing.CompleteKeeps` | drivers/xhci.c:494-501 | the store of the control word makes exactly one whole record visible |
| `CycleRing.PollKeeps` | drivers/xhci.c:385-390 | a look at the control word follows a Link, starts a fetch of the next record, or finds nothing, and keeps it |
| `CycleRing.ReadKeeps` | drivers/xhci.c:434-452 | reading the words one at a time, in any order, reads the record that was sent |
| `CycleRing.DeliverKeeps` | drivers/xhci.c:395-414 | stepping past a record keeps it |
| `CycleRing.Front` | drivers/xhci.c:385-390 | the cycle bit where the reader stands matches exactly when a record is pending, and then that record lies there whole |
| `CycleRing.RingIsQueue` | drivers/xhci.c:1196-1214 | under every interleaving, through any number of laps, what was delivered is what was sent, each record once, whole and in order; a reader that finds nothing has everything |
| `CycleRing.EverythingArrives` | drivers/xhci.c:395-414 | left alone the reader gets everything within two looks a record |
| `CycleRing.FullRingBreaks` | drivers/xhci.c:1562-1582 | a push started with a whole lap pending spoils the oldest record |
| `CycleRing.FinishSends` | drivers/xhci.c:822-840 | the stores of a push, together, send exactly that record |
| `CycleRing.Sender.Push` | drivers/xhci.c:1562-1582 | the driver's push is those stores in that order |
| `CycleRing.EventRing.NextEvent` | drivers/xhci.c:385-390 | returns the oldest undelivered event, or none exactly when there is none |
| `CycleRing.EventRing.ConsumeEvent` | drivers/xhci.c:395-414 | stepping on takes exactly the oldest pending event from the ring and keeps the invariant |
| `CycleRing.EventRing.Drain` | drivers/xhci.c:1434-1492 | a poll takes the oldest events, each once and in order, up to sixteen |
| `PollGuard.ApplyKeeps` | drivers/xhci.c:1410-1494 | every instruction, interrupt and switch keeps the flag up exactly while one context holds it |
| `PollGuard.OneDrains` | drivers/xhci.c:1410-1494 | no two contexts are ever in the drain together |
| `PollGuard.LeavesFlagAsFound` | drivers/xhci.c:1412-1428 | a call leaves the interrupt flag as it found it |
| `Terminal.PutStaysInside` | drivers/tty.c:564-668 | every byte keeps cursor, window, region and parameters in bounds, except exactly one family of cursor-up counts |
| `Terminal.TextStaysInside` | drivers/tty.c:586-653 | text, backspace and newline always do |
| `Terminal.DispatchStaysInside` | drivers/tty.c:386-477 | every control sequence does, with that exception |
| `Terminal.TameStaysInside` | drivers/tty.c:564-668 | so does every stream whose cursor-up counts stay 76 below 2^32 |
| `Terminal.UpGoesDown` | drivers/tty.c:400-404 | the sequence ESC [ 4294967295 A from the last row leaves the buffer |
| `Terminal.DigitsCollect` | drivers/tty.c:521-528 | a run of digits is collected as the number it spells, in 32 bits |
| `Terminal.CursorGoesThere` | drivers/tty.c:393-398 | for every terminal, even mid-sequence, and every row and column on the screen, the positioning sequence puts the cursor there and changes nothing drawn |
| `Terminal.RegionOnly` | drivers/tty.c:314-348 | inserting and deleting lines touches no row outside the scroll region |
| `Terminal.RowsMoveInOrder` | drivers/tty.c:314-348 | inside it rows keep their order and the opened rows are blank |
| `Terminal.DeleteUndoesInsert` | drivers/tty.c:314-348 | deleting inserted lines restores all but what was pushed out |
| `Terminal.PrintedIsVisible` | drivers/tty.c:636-654 | what is printed is left inside the window |
| `Terminal.MotionSequences` | drivers/tty.c:400-420 | relative motion is the distance asked for, stopped at the window's edges, and changes nothing else, exactly when its count does not wrap |
| `Terminal.MotionIsClamped` | drivers/tty.c:400-416 | the exact counts for which up, down and right are what they say, wherever the cursor is |
| `Terminal.LargestCountTurnsBack` | drivers/tty.c:406-416 | down by 2^32 - 1 is up by one and right by it is left by one |
| `Terminal.ErasesExactly` | drivers/tty.c:422-433 | erasing blanks exactly the cells before the cursor, after it, or all, and no other, wherever the cursor is |
| `TerminalText.TextStream` | drivers/tty.c:586-667 | any text on any terminal: every byte printed stands where lines broken every 80 cells and started at column 0 put it, less the rows scrolled off; every other cell is as it was, rows scrolled in are blank, the cursor is behind the text, and the window has followed it |
| `TerminalText.WhereBytesStand` | drivers/tty.c:603-654 | one cell of the buffer after a text: the byte that stands there, or what was there before |
| `TerminalText.MovesOn` | drivers/tty.c:603-654 | no two bytes stand in one place: each is printed strictly behind the ones before it |
| `TerminalText.RubOut` | drivers/tty.c:586-601 | any number of backspaces puts the cursor that many places back, or at the first, and blanks exactly those cells |
| `TerminalText.TypedThenRubbed` | drivers/tty.c:586-654 | typing on a line and rubbing all of it out puts the cursor back and leaves blanks where the text was |
| `TerminalText.SavedCursorReturns` | drivers/tty.c:439-447 | whatever text comes between, restoring brings the cursor back to where it was saved, and the text is there |
| `TerminalText.ParametersAre` | drivers/tty.c:521-537 | any list of parameters, however spelt and whichever are empty, is read as the numbers it spells, in 32 bits, the digits of a ninth and later ones running on in the eighth |
| `TerminalText.ColourSequence` | drivers/tty.c:353-378 | a colour sequence on any terminal with any parameters: ink and paper are what the parameters ask for in order, beam by beam, and nothing else changes |
| `TerminalText.ColoursAsAsked` | drivers/tty.c:353-378 | and none at all is a zero |
| `TerminalText.PositionSequence` | drivers/tty.c:393-398 | positioning on any terminal with any parameters: the nearest row and column of the screen, and nothing else changes |
| `TerminalText.RegionGoesThere` | drivers/tty.c:449-463 | setting the region on any terminal with any parameters: the rows asked for, or the whole screen if they are fewer than two, with the cursor at the start of the first and nothing drawn |
| `TerminalDevice.VirtualTerminal.BlankSpan` | drivers/tty.c:296-306 | blanks exactly the span |
| `TerminalDevice.VirtualTerminal.InsertLinesAt` | drivers/tty.c:314-330 | moves the rows of the buffer as the specification does |
| `TerminalDevice.VirtualTerminal.DeleteLinesAt` | drivers/tty.c:335-348 | and back |
| `TerminalDevice.VirtualTerminal.ApplySgr` | drivers/tty.c:353-378 | folds the colour parameters |
| `TerminalDevice.VirtualTerminal.DispatchCsi` | drivers/tty.c:386-477 | carries out every sequence as specified |
| `TerminalDevice.VirtualTerminal.EscapeFeed` | drivers/tty.c:488-543 | parses as specified, and changes nothing drawn before the sequence is complete |
| `TerminalDevice.VirtualTerminal.Settle` | drivers/tty.c:622-654 | scrolls and follows as specified, and reports whenever other rows are in view |
| `TerminalDevice.Tty.constructor` | drivers/tty.c:224-245 | three blank terminals, the first on the screen |
| `TerminalDevice.Tty.UpdateScreen` | drivers/tty.c:183-198 | the text rows are the window and the cursor is the terminal's; the status row is untouched |
| `TerminalDevice.Tty.Refresh` | drivers/tty.c:164-167 | repaints, or in a batch owes a repaint and makes none |
| `TerminalDevice.Tty.RefreshCursor` | drivers/tty.c:175-178 | moves the cursor, or owes a repaint |
| `TerminalDevice.Tty.PutBackspace` | drivers/tty.c:586-601 | keeps the console showing the window without a repaint |
| `TerminalDevice.Tty.PutOther` | drivers/tty.c:603-667 | so do printed bytes, unless a repaint is made or owed; what they leave in the buffer is Text, which TerminalText.TextStream says the meaning of |
| `TerminalDevice.Tty.PutCharOn` | drivers/tty.c:564-668 | one byte does to the terminal what the specification says and keeps the screen invariant, visible or not |
| `TerminalDevice.Tty.WriteTo` | drivers/tty.c:686-689 | byte by byte, the console ends showing the terminal the bytes make |
| `TerminalDevice.Tty.WriteBatch` | drivers/tty.c:799-810 | a batch ends with the same terminal and the same text rows as byte by byte, having repainted the window at most once, and not at all inside another batch; nested batches restore the flag |
| `TerminalDevice.Tty.SwitchTo` | drivers/tty.c:204-208 | the other terminal is shown |
| `TerminalDevice.Tty.ScrollBack` | drivers/tty.c:815-822 | the window moves up one row and is shown |
| `TerminalDevice.Tty.ScrollForward` | drivers/tty.c:827-838 | and down, no further than the cursor's |
| `Framebuffer.LinesFit` | drivers/console.c:268-279 | the check tells that a line fits its pitch exactly below 2^30 pixels |
| `Framebuffer.LinesOnTop` | drivers/console.c:268-279 | a width and a pitch of zero that are accepted, with pixels that share bytes |
| `Framebuffer.LineWrapsOntoFirst` | drivers/console.c:268-318 | an accepted screen whose line 2^27 is line 0 again |
| `PixelMemory.PixelsApartExact` | drivers/console.c:135-143 | no two pixels share a byte exactly when any two lines are a line apart, around the end of 32 bits too |
| `PixelMemory.InPlaceExact` | drivers/console.c:135-143 | no pixel address wraps exactly when the last pixel ends within 4 GB |
| `PixelMemory.ScreenFits` | drivers/console.c:268-318 | both hold exactly when a line fits its pitch and the last pixel ends within 4 GB |
| `Framebuffer.WrapsIntoTheGaps` | drivers/console.c:135-143 | addresses that wrap into the space between lines and share no byte |
| `PixelMemory.LocalExactly` | drivers/console.c:135-143 | storing any pixel leaves every other as it was exactly when no two share a byte |
| `PixelMemory.ShownAgree` | drivers/console.c:135-143 | two pixels a memory shows at once agree on the bytes they share |
| `PixelMemory.PokeSpares` | drivers/console.c:135-143 | and storing one of two that agree leaves the other shown |
| `Framebuffer.ScaleTestExact` | drivers/console.c:241-254 | the wrapped test passes a scale that does not fit on exactly one family of screens |
| `Framebuffer.ScaleStopsExact` | drivers/console.c:241-254 | the loop over scales ends exactly unless the width is within 128 and the height within 16 of 2^32 |
| `Framebuffer.LargestScale` | drivers/console.c:241-254 | wherever the loop ends, the first scale whose next one fails the test; outside the family above, the largest that fits the console, or one |
| `Framebuffer.ComputeLayout` | drivers/console.c:241-266 | wherever the loop ends, the cells are whole, inside the screen, as many as fit and centred to a pixel; outside the family above, all eighty by twenty-five of them when they fit |
| `Framebuffer.CellsAreApart` | drivers/console.c:120-148 | cell rectangles are inside the screen and share no pixel |
| `Framebuffer.CellsShareNoByte` | drivers/console.c:120-148 | and, when lines are apart, no byte of memory |
| `Framebuffer.GlyphOnScreen` | drivers/console.c:120-148 | every pixel of a cell is ink exactly where its column's bit, highest first, is set in its row's byte of the font, magnified |
| `Framebuffer.PaletteMixes` | drivers/console.c:66-71 | the sixteen pixel values are mixed from the red, green, blue and bright bits of the colour, dark yellow alone being brown |
| `Framebuffer.ShownIsConsistent` | drivers/console.c:120-181 | a memory can show a scene only if no two pixels ask for different things of one byte |
| `Framebuffer.DrawableIsConsistent` | drivers/console.c:120-181 | on a drawable screen no scene asks for that |
| `Framebuffer.DrawableExact` | drivers/console.c:120-208 | the screen is drawable exactly when no run of calls on a blank console asks for it, and when it is not, one call does |
| `Framebuffer.ApartIsDrawable` | drivers/console.c:120-181 | a screen no two of whose pixels share a byte is drawable |
| `Framebuffer.OneCellSpoils` | drivers/console.c:183-194 | with the lines on top of each other, after one white cell no memory shows the screen |
| `Framebuffer.BordersMayShare` | drivers/console.c:268-318 | the screen whose line 2^27 is line 0 again is drawable |
| `Framebuffer.LastStrokeStays` | drivers/console.c:183-208 | after any run of calls the last cell put at a place is there, and the cursor is where it was last sent |
| `Framebuffer.Display.constructor` | drivers/console.c:306-335 | clears every pixel through its address; on every screen that is what the blank shadow renders to |
| `Framebuffer.Display.SetPixel` | drivers/console.c:140-143 | stores the four bytes of one pixel, and keeps every other pixel of a consistent scene |
| `Framebuffer.UseFramebuffer` | drivers/console.c:268-339 | refuses what it should, and otherwise the memory is a rendering of the blank shadow, on every screen |
| `Framebuffer.Display.BlitCell` | drivers/console.c:120-148 | every pixel of one cell is the scene's, and every other that was still is, when the scene is consistent |
| `Framebuffer.Display.PaintCursor` | drivers/console.c:158-181 | the same for the two bottom glyph rows of one cell |
| `Framebuffer.Display.PutCell` | drivers/console.c:183-194 | the shadow has the new cell, on a drawable screen every pixel is still a from-scratch rendering, whether the cell is drawn or skipped |
| `Framebuffer.Display.SetCursor` | drivers/console.c:196-208 | and of the new cursor, or of none off the console |
| `Framebuffer.Display.Draw` | drivers/console.c:183-208 | any run of calls ends in the scene they ask for, and on a drawable screen the memory shows it |
| `SubstitutionTables.TablesInvert` | crypto/aes.c:83-120 | the second table undoes the first on every byte |
| `ByteField.XTimeIsReduction` | crypto/aes.c:317-320 | doubling is the shift with the reduction by 0x1b |
| `ByteField.XTimeAdds` | crypto/aes.c:317-320 | doubling distributes over addition |
| `ByteField.MixIsMatrix` | crypto/aes.c:323-336 | the shortened column arithmetic is the matrix product of section 5.1.3 of FIPS 197 |
| `ByteField.MultiplyBy` | crypto/aes.c:343-366 | the bitwise product with 9, 11, 13 and 14 is the sum of the selected doublings |
| `ByteField.UnmixUndoesMix` | crypto/aes.c:323-389 | unmixing a column undoes mixing it |
| `Aes.UnsubUndoesSub` | crypto/aes.c:274-284 | substitution is undone byte by byte |
| `Aes.UnsubBlock` | crypto/aes.c:394-404 | and block by block |
| `Aes.UnshiftBlock` | crypto/aes.c:406-432 | shifting rows is undone |
| `Aes.UnmixBlock` | crypto/aes.c:373-389 | mixing columns is undone |
| `Aes.RoundsUndone` | crypto/aes.c:462-484 | the inverse rounds, counted down, undo the rounds counted up |
| `Aes.InverseCipherUndoes` | crypto/aes.c:436-484 | decrypting a block undoes encrypting it, for every array of round keys |
| `AesField.MultiplyIsProduct` | crypto/aes.c:343-350 | the multiplication by shifts is the product of the field for every factor below 32 |
| `AesField.Associates` | crypto/aes.c:343-350 | that product is associative, as section 4.2 of FIPS 197 has it |
| `AesEntries.EveryEntry` | crypto/aes.c:83-100 | every entry of the substitution table is the affine image of an inverse, as section 5.1.1 of FIPS 197 computes it |
| `AesStandard.SubIsStandard` | crypto/aes.c:83-120 | substitution is the inverse in the field followed by the affine transformation of section 5.1.1 |
| `AesStandard.ShiftIsStandard` | crypto/aes.c:289-315 | row r of the shifted state is row r r places to the left, the formula of section 5.1.2 of FIPS 197 |
| `AesStandard.UnshiftIsStandard` | crypto/aes.c:406-432 | and to the right in the inverse, section 5.3.1 |
| `AesStandard.MixIsStandard` | crypto/aes.c:323-336 | each column is multiplied by the matrix of section 5.1.3 of FIPS 197 |
| `AesStandard.UnmixIsStandard` | crypto/aes.c:373-389 | and by that of section 5.3.3 |
| `AesStandard.CipherIsStandard` | crypto/aes.c:436-459 | encrypting a block is the cipher of section 5.1 of FIPS 197, byte by byte, for every array of round keys |
| `Chaining.CbcEncryptBlock` | crypto/aes.c:543-556 | block k of a chained encryption is the cipher of block k of the plaintext added to block k - 1 of the ciphertext, or to the vector: section 6.2 of NIST SP 800-38A |
| `Chaining.CbcDecryptBlock` | crypto/aes.c:565-578 | and block k of the decryption is the inverse cipher added to the same |
| `Aes.AddRoundKey` | crypto/aes.c:260-270 | adds the key to one block of the buffer |
| `Aes.SubBytes` | crypto/aes.c:274-284 | substitutes one block of the buffer, either way |
| `Aes.ShiftRows` | crypto/aes.c:289-315 | rotates the rows of one block as Shift does, which AesStandard.ShiftIsStandard gives the standard's formula for |
| `Aes.UnshiftRows` | crypto/aes.c:406-432 | and back as Unshift does, with AesStandard.UnshiftIsStandard |
| `Aes.MixColumn` | crypto/aes.c:323-336 | mixes one column, each byte from its neighbours as they were |
| `Aes.UnmixColumn` | crypto/aes.c:373-389 | unmixes one column by the products |
| `Aes.Encrypt` | crypto/aes.c:436-459 | the block at an offset becomes its encryption, and nothing else changes |
| `Aes.Decrypt` | crypto/aes.c:462-484 | and its decryption |
| `Chaining.CbcRoundTrip` | crypto/aes.c:543-578 | chaining is undone for every vector and every whole number of blocks, over any invertible cipher |
| `Chaining.EncryptSplits` | crypto/aes.c:543-556 | encrypting in two calls is encrypting in one |
| `Chaining.DecryptSplits` | crypto/aes.c:565-578 | and so is decrypting |
| `Chaining.ReachExact` | crypto/aes.c:543-578 | the block loops stay within the bytes they are given exactly when those are whole blocks |
| `Chaining.CounterArrives` | crypto/aes.c:543-578 | their counter gets to the end exactly up to 2^32 - 16 bytes |
| `Aes.DecryptUndoesEncrypt` | crypto/aes.c:543-578 | decrypting a buffer under AES undoes encrypting it |
| `Aes.Context.EncryptBuffer` | crypto/aes.c:543-556 | for any length its 32-bit counter arrives at, the blocks it reaches into become their chained encryption in place, nothing else changes, and the context carries the last block |
| `Aes.Context.DecryptBuffer` | crypto/aes.c:565-578 | and their decryption, past the end of the bytes if they are not whole blocks, carrying the last ciphertext |
| `EncryptedFiles.StoredLengthExact` | fs/crypto_fs.c:93-97 | the buffer is as long as what is written to it, and holds the copy, exactly up to 2^32 - 72 bytes of data |
| `EncryptedFiles.PayloadFields` | fs/crypto_fs.c:112-124 | magic, length, hash and data lie where they are read |
| `EncryptedFiles.OverrunExact` | fs/crypto_fs.c:256-261 | decryption keeps within a stored file exactly when what follows its vector is whole blocks |
| `EncryptedFiles.HundredBytesOverrun` | fs/crypto_fs.c:256-261 | for a file of a hundred bytes it goes on to byte 112 |
| `EncryptedFiles.OpenUndoesSeal` | fs/crypto_fs.c:246-284 | opening what was sealed returns the data for every length, whatever lies behind it; the length it reports is right exactly below 2 GB |
| `EncryptedFiles.OpenExact` | fs/crypto_fs.c:246-284 | a blob opens to some data exactly when it is long enough to decrypt and its decryption begins with that data's payload: magic, length, hash and bytes |
| `EncryptedFiles.RefusedExact` | fs/crypto_fs.c:246-284 | and which of the three errors it gives otherwise: too short, not starting with the magic, a length that does not fit, or a hash that is another |
| `EncryptedFiles.OneLength` | fs/crypto_fs.c:262-284 | every header gives exactly one length, so that the answer is given for every file |
| `EncryptedFiles.AlteredIsRefused` | fs/crypto_fs.c:246-284 | data of the same length with another hash does not open |
| `EncryptedFiles.SizeExact` | fs/crypto_fs.c:163-209 | the one-block size is the length exactly when the first block decrypts to the magic and that length |
| `EncryptedFiles.FirstBlockAlone` | fs/crypto_fs.c:163-209 | the first block can be decrypted alone |
| `EncryptedFiles.SizeAgreesWithOpen` | fs/crypto_fs.c:163-224 | whenever the whole file opens, of whole blocks or not, the one-block size is its length |
| `EncryptedFiles.ReadLengthExact` | fs/crypto_fs.c:380-386 | a read stays within the plaintext exactly when its end does not wrap |
| `EncryptedFiles.WrappedReadRunsOn` | fs/crypto_fs.c:380-386 | a wrapped request for one byte of plaintext copies the whole request |
| `EncryptedFiles.ReadsConcatenate` | fs/crypto_fs.c:345-396 | reads of any sizes none of whose ends wraps concatenate to the plaintext |
| `EncryptedBuffers.AesKeyIsSound` | fs/crypto_fs.c:246-284 | an AES key is one the results hold for |
| `EncryptedBuffers.SealFile` | fs/crypto_fs.c:93-133 | for every length, builds the stored form within the bytes allocated for it exactly up to 2^32 - 72 bytes of data |
| `EncryptedBuffers.OpenInPlace` | fs/crypto_fs.c:246-284 | for every length, opens it in place to what the specification does, which OpenExact and RefusedExact say the meaning of, and rewrites exactly the blocks reached into |
| `EncryptedBuffers.ReadEncrypted` | fs/crypto_fs.c:345-396 | one read returns the plaintext from the offset, at offsets that wrap, or nothing with the offset left alone |
| `EncryptedVolume.CreateEncrypted` | fs/crypto_fs.c:93-133 | what is created holds exactly the sealed form, on the disk exactly if each sector whose write is answered no held its share, and every other file is as it was |
| `EncryptedVolume.ReadFile` | fs/crypto_fs.c:345-396 | one read makes the accesses of the whole stored form, and when they are all served returns what it opens to from the offset, or nothing |
| `EncryptedVolume.ReadInChunks` | fs/crypto_fs.c:345-396 | from a store that serves every access, successive reads of any sizes that do not wrap return the data in order and without a gap |
| `EncryptedVolume.StoreAndRead` | fs/crypto_fs.c:93-396 | from such a store, data encrypted, created, looked up and read back in pieces comes back as it was |
| `Calendar.YearOfEraBrackets` | include/esdtime.h:125-136 | the year found for a day of a 400-year era is the one it falls in |
| `Calendar.DaysOfCivil` | include/esdtime.h:125-136 | every day count is taken to a valid date that counts the same |
| `Calendar.CivilOfDays` | include/esdtime.h:101-111 | every valid date is taken back from its day count |
| `Calendar.DaysAre` | include/esdtime.h:101-111 | the count by eras is the count by years |
| `Calendar.ToEpoch` | include/esdtime.h:149-166 | the carry loops compute the instant |
| `Calendar.EpochRoundTrip` | include/esdtime.h:178-192 | every 32-bit epoch survives being broken down and put together |
| `Calendar.EpochDay` | include/esdtime.h:101-136 | the count is zero on 1970-01-01 |
| `Calendar.NextDayCounts` | drivers/rtc.c:90-107 | the day after, by the table of month lengths, counts one more |
| `Calendar.PreviousDayCounts` | drivers/rtc.c:90-107 | the day before counts one less |
| `Calendar.ApplyTimezone` | drivers/rtc.c:339-368 | the carry loops arrive at the shifted date and hour, for every offset |
| `Calendar.ShiftKeepsInstant` | drivers/rtc.c:339-368 | a shift moves the instant by what the offset's eight bits and the year's sixteen lose, and each keeps it exactly when it fits |
| `Calendar.OffsetWraps` | drivers/rtc.c:339-368 | an offset that wraps moves the instant by 256 hours |
| `Calendar.ShiftKeepsEpoch` | drivers/rtc.c:339-368 | whether a shift keeps the epoch, for every time and offset: of two times since 1970, exactly when what is lost is a multiple of 2^32 seconds; of one, exactly when its epoch is zero |
| `Calendar.EpochKeptExactly` | drivers/rtc.c:339-368 | where nothing is lost, exactly when the shift does not take the local clock back before 1970, or the epoch is zero anyway |
| `Calendar.FirstHourLost` | include/esdtime.h:149-166 | the first hour of 1970 shifted an hour west: the same instant, and epoch zero |
| `PciWalk.AtMost` | drivers/pci.c:65-71 | distinct bus numbers are no more than 256 |
| `PciWalk.RoomForOne` | drivers/pci.c:65-71 | so the queue always has room for a bus not seen |
| `PciWalk.ClosedHoldsAll` | drivers/pci.c:226-245 | a set of buses closed under bridges holds every reachable one |
| `PciWalk.MovePast` | drivers/pci.c:155-199 | recording a function and queueing its bus leaves nothing behind the walk missed |
| `PciWalk.AllFound` | drivers/pci.c:226-245 | at the end of the queue nothing reachable is missed |
| `PciWalk.Walk.Enqueue` | drivers/pci.c:65-71 | a bus is queued once and never dropped |
| `PciWalk.Walk.Record` | drivers/pci.c:155-199 | records the function and queues its bus, or reports the table full |
| `PciWalk.Walk.ScanDevice` | drivers/pci.c:210-224 | asks about the other seven functions exactly when the first says there are several |
| `PciWalk.Walk.Enumerate` | drivers/pci.c:226-260 | ends on every configuration space, bridge cycles included; records only reachable functions, each once; is truncated exactly when it missed one |

## Left out

- Byte images of the in-memory tables: the directory and the allocation table are saved as whole values, and a save cannot be refused, though fs/vfs.c:258-260 and fs/vfs.c:330 would not notice.
- Power-loss atomicity and hardware write caches, which the code disclaims.
- Interleaving between the lock sections of an atomic update: the states in between are exposed, other operations in them are not.
- Open files that outlive a delete or a swap; buffered writes and their commit; chmod and chown, and where along a path the permission rules are applied.
- Directory entries whose used mark is neither zero nor one; null pointers, except where a null device or buffer has its own status.
- Tick wrap-around in cache ages beyond one full wrap.
- Calendar.DaysFromCivil: does not model the overflow of `int` beyond five million years.
- Editing without an undo log, which is the same calls on a null log.
- Terminal cells are a pair of character and colour rather than one 16-bit word; the terminal is modelled at byte granularity, not inside one repaint.
- TerminalDevice.Tty.WriteBatch: does not promise the cursor's place when a backspace has left it above the window; there the code leaves the last position until the next repaint.
- Framebuffer.UseFramebuffer: is about screens on which the scale loop ends, as are LargestScale and ComputeLayout; ScaleStopsExact gives the others, where the code does not return.
- The key schedule, SHA-256, HMAC and PBKDF2: the results hold for every array of round keys and every hash function. No claim is made about cryptographic strength.
- Aes.Context.EncryptBuffer: is about lengths up to 2^32 - 16, as is DecryptBuffer; CounterArrives says that above them the code does not return.
- FileSystem.Volume.AtomicUpdate: payloads above 2^32 - 4096 bytes are outside it; CreateFileRaw says what becomes of the table then.
- FileSystem.Volume.Run: the same payloads are outside it.
- FileHistory.RunOnNames: does not say what is found under a name some update uses for its temporary file; there a leftover may go, or stay when it is a directory in use.
- EncryptedVolume.CreateEncrypted: allocations that fail and vectors that cannot be derived are left out; they return before anything is touched.
- The stronger counter mode of the cipher, the key slots of the superblock and their wrapping.
- CycleRing.RingIsQueue: control words are taken without their cycle bit set, as every caller passes them; xHCI timeouts, doorbells and bring-up are not modelled.
- PollGuard.OneDrains: is about xhci_poll alone, not about control transfers issued beside it.
- PciWalk.Walk.Enumerate: the visited bitmap is an array of booleans; the registers recorded for each function beyond its address are not kept.
- RTC registers, the scheduler, memory management, the network of system calls and the applications.
