# A verified model of the FAT32 file layer and its sector transport

The driver mounts the SD card of a MEGA65 over Ethernet. Files live on a FAT32 volume that the
driver reads and writes sector by sector through a remote program. This project models the four
layers between a file call and the wire, and the printer of Intel HEX files, and proves what each
layer promises to the one above it.

1. **Allocator and volume** (`Chains`, `Volume`, `Allocator`, `SearchRounds`, `Linking`,
   `VolumeRuns`). `Volume.Disk` is the flat disk; its FAT calls work on the bytes of both FATs. The
   ghost fields `fat`, `clusters` and `chains` are the same disk seen as FAT entries, data clusters
   and owners' chains, tied to the bytes by `Valid`. `Chains.WellFormed` is the volume invariant:
   chains are finite, in range and ended by a marker, chains of different owners are disjoint, and
   every used cluster lies on one. Because both FATs hold the same entries under `Valid`, FAT1 and
   FAT2 are equal after every call. `VolumeRuns` has the whole operations as steps on FAT and chains;
   the methods of the file layer and of the directories say by `Became` and `Reaches` which steps
   they take, so that `VolumeRuns.ReachedKeepsVolume` holds of every run of them.
2. **File layer** (`DirFields`, `Contents`, `Splicing`, `Growing`, `FileLayer`, `Buffered`,
   `Sessions`, `Chainless`, `Landings`, `Workspaces`). `FileLayer.FileInfo` has the fields of the driver's
   descriptor. A buffered file is a buffer; a direct file is a chain whose bytes are
   `Contents.Content`. The main results are that runs of direct writes, truncations and reads on any
   number of open files behave as on separate byte strings (`Workspaces.JointSession`), as long as
   each call meets a condition on the descriptor that is exact (`Sessions.AllowedWritesExactly`,
   `Sessions.AllowedReadsExactly`), and go on after calls that fail, which change nothing; that a
   flush and the write that crosses the buffer limit are invisible to readers
   (`Buffered.ReadAcrossFlush`, `Buffered.Pwrite`); and that a growth is all or nothing, down to the
   descriptor's fields (`FileLayer.FileInfo.TruncateDirect`).
3. **Directories** (`LongNames`, `ShortNames`, `DirRecords`, `DirCursor`, `Directory`, `DirEntries`,
   `Deletion`).
   `DirCursor.Cursor` keeps cluster, sector, offset and sector buffer as the driver does and is
   proved to be an index into the directory's sequence of 32-byte slots. Creating an entry adds one
   file at the end of the walk, deleting removes one, and long and short names come back as they were
   written.
4. **Sector store and reply window** (`WriteBatches`, `SectorStore`, `FatTraffic`, `ReplyMatching`,
   `ReplyTimers`, `ReplyWindow`). Cache, write queue and read-ahead are one flat disk as long as no miss reads
   ahead over a pending write, which the sector numbers of a run decide
   (`SectorStore.TidyIsClean`); `FatTraffic` says for which chains and blocks the loops that free
   and link them are such runs. Below it, queued writes are grouped into batches, and the window of
   outstanding frames is a state machine over sends and arbitrary arrivals: no reply is stored
   outside its job, every reply that should match does, a lost request is sent again after a silence,
   and a read job whose sectors have all been answered in time is done.
5. **HEX printer** (`HexFile`), with a reader written from the Intel Hexadecimal Object File Format
   Specification, Revision A.

`Bytes` and `Arith` hold bytes, little-endian fields and the multiplication and division lemmas;
`Arith.QuotIsDiv` says that its quotient and remainder are those of the program.

The C program changes its state step by step, and so do the classes and methods here. Each method is
proved against a function of the old state (`SectorStore.Write`, `ReplyMatching.Reply`,
`DirRecords.ReadAt`, `Chains.LinkRun`, ...), and the lemmas are about those functions.

## Where the code does less than it seems to promise

Each of these is kept as the code has it, with a lemma or method that shows it and a condition under
which the promise holds.

- `find_contiguous_clusters` never returns when something is free but no run is long enough
  (`SearchRounds.EndlessExactly`, `EndlessExample`).
- Reads and writes on one descriptor share the last offset, but not the place in the chain that
  belongs to it. A write that starts at the last offset goes on from the sector in which the last
  *write* ended, rounded up, and lands on its offset if and only if that is the sector of the offset
  (`FileLayer.WritesAtOffsetExactly`). So a read can move the next write
  (`Landings.ReadThenWrite`), and a write that continues another inside a sector lands 512 bytes too
  far (`Landings.UnalignedWrites`). A write that starts more than a sector past the end of the chain
  is put right behind the chain. In the same way a read that starts at the last offset does not go
  back from a later cluster (`FileLayer.ReadsAtOffsetExactly`), which a write between two reads can
  cause (`Landings.WriteBetweenReads`).
- A truncation that makes a direct file longer does not zero the new bytes
  (`Landings.CutAndGrown`). It resizes the file with zeros if and only if the chain holds zeros
  there, or, on a new block, the rest of the last sector and of the block is zero
  (`Sessions.ResizedWhen`, ensured by `Sessions.TruncateCall`).
- A descriptor rewrites the whole directory sector from the copy it took when it was opened. Another
  open file whose entry is in that sector keeps a right entry on disk if and only if the copy names
  its present cluster and size (`Workspaces.PerformOn`); after an append to one file, a write to
  another puts the old size back (`Workspaces.OldSizeComesBack`). Without shared sectors every entry
  stays right (`Workspaces.JointSession`).
- A flush that fails after it has linked its clusters leaves them used and without an owner
  (`FileLayer.LeakedRun`).
- A direct write allocates only blocks of the first size it tries, a power of two from 2 to 64:
  the descending sizes and the single-cluster fallback are reached only when nothing is free
  (`FileLayer.FileInfo.Extend`, `FileLayer.FallbackFindsNothing`). When something is free but no
  block of that size is, the write never returns; so do a flush and a growing truncation
  (`FileLayer.FileInfo.PwriteDirect`, `FlushWriteBuffer`, `TruncateDirect`).
- A direct write to a file without a chain, as after a truncation to zero or on an empty file opened
  for writing, goes to the sectors where cluster 0 would lie, below the data area. The file gets a
  size but no cluster, and the two FATs agree afterwards if and only if no byte of a FAT was changed
  (`Chainless.WriteWithoutChain`, `Chainless.FatsAgreeExactly`, `Landings.WriteAfterTruncate`).
- The roll-back of a failed growth leaks clusters when one of its own updates fails: the volume stays
  well formed if and only if no cluster of the block is left used (`FileLayer.LeftUsed`,
  `FileLayer.DoubleFaultLeaks`).
- A cluster count near 4 GiB wraps in a flush and becomes 0 (`Buffered.FlushSizeExactly`).
- Bytes cut off a buffered file come back when a later write or truncation passes them; a buffered
  call acts on a byte string if and only if the buffer is zero between the end of the file and the
  new offset or length (`Buffered.PwriteBuffered`, `TruncateBuffered`, `StaleBytesExample`). A write
  that crosses the buffer limit from past the end of the file leaves what the disk held in the gap,
  and lands on its offset if and only if that is at most a sector past the flushed clusters
  (`Buffered.Pwrite`, `LandsAt`).
- Extending a directory on a full volume goes on with cluster 0: the directory's chain is lost, and
  unless a cluster is as large as both FATs together, zeroing that cluster wipes part of one FAT, so
  that the two copies differ (`DirCursor.Cursor.Extend`, `DirCursor.FullVolumeExtension`).
- Deleting an empty file clears FAT entry 0 (`Deletion.DeleteKeepsVolume`, `Deletion.DeleteFile`).
- A cache miss overwrites cached copies of pending writes with what the device still holds
  (`SectorStore.ReadExactly`, `StaleReadExample`). Freeing a chain that passes FAT sectors 40, 30 and
  40 again, on a fresh mount, so loses the first deallocation (`FatTraffic.LostFree`). Freeing is
  safe, whatever is cached, when the chain never goes back to a FAT sector less than 16 before one it
  has passed (`FatTraffic.FreeInOrder`); linking a block is safe when the cache has room for the FATs
  (`FatTraffic.LinkInRoom`), and the searches are when nothing is pending (`FatTraffic.ReadsTidy`).
- A leftover hello reply frees any outstanding read request (`ReplyMatching.HelloFreesReadRequest`);
  a slot of the batch is filled if and only if a sector reply freed its request
  (`ReplyMatching.ReadJobFills`).
- Shrinking the queue length drops outstanding frames from sight
  (`ReplyWindow.AckWindow.SetQueueLength`).
- HEX output loads at its address if and only if there is no input, or the address is 64 KB-aligned,
  or it lies in segment 0 and either is a multiple of 16 or the last data record starts below 64 KB
  (`HexFile.LoadsExactly`, `HexFile.UnalignedExample`).

## Model

| member | source | states |
|---|---|---|
| Volume.EntryWrittenTwice | lib/libm65ftp/mega65_ftp.c:2617-2676 | writing the patched FAT sector to both FATs changes one entry of both and no other, and keeps the FATs equal |
| Volume.EntryRead | lib/libm65ftp/mega65_ftp.c:2724-2740 | reading an entry number past the end of FAT1 gives the entry of FAT2 that it runs into |
| Volume.SectorWritten | lib/libm65ftp/mega65_ftp.c:1987-2027 | writing the sector at a place of a data cluster changes that sector of that cluster and no other |
| Volume.ClustersAdjoin | src/m65ftp_lib.c:711-714 | cluster 2 begins behind the second FAT and every cluster where the one before it ends; cluster 0 would begin two clusters before the data area |
| Volume.ClustersTile | src/m65ftp_lib.c:711-714 | the sectors of the data area are exactly the places of the clusters 2 and up, each the place of one cluster only |
| Volume.Disk.SetFatClusterPtr | lib/libm65ftp/mega65_ftp.c:2617-2676 | exactly one entry changes, in both FATs; a cluster past the FAT or a failing update changes nothing |
| Volume.Disk.ChainCluster | lib/libm65ftp/mega65_ftp.c:2556-2615 | the entry becomes the next cluster with its top nibble cleared |
| Volume.Disk.ChainedCluster | lib/libm65ftp/mega65_ftp.c:2688-2720 | the unmasked entry, or all ones for a cluster past the FAT |
| Volume.Disk.GetNextCluster | lib/libm65ftp/mega65_ftp.c:2154-2176 | the entry without its top nibble |
| Volume.Disk.IsFreeCluster | lib/libm65ftp/mega65_ftp.c:2724-2740 | free exactly when the entry is zero; one past FAT1 it judges entry 0 of FAT2 |
| Allocator.FindFreeCluster | lib/libm65ftp/mega65_ftp.c:2742-2791 | the cyclically first free cluster at or after max(c, 2), and 0 exactly when nothing is free |
| Allocator.CyclicFirstIsUnique | lib/libm65ftp/mega65_ftp.c:2742-2791 | that description fits one result only |
| Allocator.FindContiguousClusters | lib/libm65ftp/mega65_ftp.c:2893-2919 | the lowest start of a long enough free run inside FAT1; nothing free; or the endless search |
| SearchRounds.EndlessExactly | lib/libm65ftp/mega65_ftp.c:2893-2919 | the search goes round for ever if and only if something is free and no run is long enough |
| SearchRounds.EndlessExample | lib/libm65ftp/mega65_ftp.c:2893-2919 | a well-formed volume with one free cluster, on which the search for two or more never returns |
| Chains.ChainIsDistinct | src/m65ftp_lib.c:235-249 | a chain that ends cannot pass a cluster twice, so counting it terminates |
| Chains.ChainIsUnique | src/m65ftp_lib.c:235-249 | the FAT and the first cluster determine the chain |
| Chains.NewBlock | src/m65ftp_lib.c:172-182 | linking a free run as a new file keeps the volume well formed |
| Chains.Extended | src/m65ftp_lib.c:851-871 | linking a free run behind a chain keeps the volume well formed |
| Chains.Cut | src/m65ftp_lib.c:1122-1139 | freeing the tail of a chain and ending it keeps the volume well formed |
| Chains.Released | lib/libm65ftp/mega65_ftp.c:4185-4196 | freeing a whole chain keeps the volume well formed |
| Chains.Replaced | src/m65ftp_lib.c:1043-1121 | moving a file to a new run and freeing the old chain keeps the volume well formed |
| VolumeRuns.StepKeeps | src/m65ftp_lib.c:153-1162 | every whole operation keeps the volume well formed, entries 0 and 1, and the links and chains of all other owners |
| VolumeRuns.RunKeepsVolume | src/m65ftp_lib.c:153-1162 | over every run of flushes, extensions, truncations, moves and releases the volume stays well formed, entries 0 and 1 stay, and owners not named keep their chains |
| VolumeRuns.ReachedKeepsVolume | src/m65ftp_lib.c:153-1162 | the same of whatever state the methods say they have reached |
| Linking.LinkBlock | src/m65ftp_lib.c:176-182 | allocate and chain in turn leaves one linked and ended run, all else equal |
| Linking.LinkBehind | src/m65ftp_lib.c:852-860 | the order of the batch extension leaves the same run linked behind the last cluster |
| Linking.CountClusterChain | src/m65ftp_lib.c:235-249 | the length of the chain and its last cluster |
| Linking.FreeChain | src/m65ftp_lib.c:1110-1115 | all clusters of the chain become free and no other entry changes |
| DirFields.WithFirstCluster | src/m65ftp_lib.c:130-138 | both halves of the first cluster are set, and only those bytes change |
| DirFields.WithFileSize | src/m65ftp_lib.c:140-146 | the size field is set, and only those bytes change |
| DirFields.EntryLayout | src/m65ftp_lib.c:130-146 | size and first cluster are the numbers in bytes 28 to 31, and 26 to 27 with 20 to 21 above them |
| Bytes.FieldIsNumber | src/m65ftp_lib.c:119-127 | a packed field is the number of its bytes in base 256, the lowest first |
| Splicing.SplicedContent | src/m65ftp_lib.c:829-909 | bytes stored piece by piece along a growing chain are the old content with the data spliced in |
| Growing.LinkChecked | src/m65ftp_lib.c:1043-1056 | stops at the first error; allocatedCount covers every entry that has changed |
| Growing.CopyData | src/m65ftp_lib.c:1065-1105 | the new block holds the old sectors and otherwise what it held, and no other cluster changes |
| FileLayer.FileInfo.FlushWriteBuffer | src/m65ftp_lib.c:153-232 | the file gets the lowest free run of exactly ceil(size/cluster) clusters, holding the buffer and zeros past it; entry and positions are set; nothing else changes; without such a run it fails on a full volume and hangs otherwise; with one it fails only at an I/O error, leaking the linked run; every failure leaves the descriptor as it was |
| FileLayer.LeakedRun | src/m65ftp_lib.c:206-207 | a run that is linked without an owner breaks the volume invariant |
| FileLayer.FileInfo.WriteRun | src/m65ftp_lib.c:183-211 | every sector of the run holds its part of the buffer, padded with zeros |
| FileLayer.FileInfo.PreadBuffered | src/m65ftp_lib.c:648-667 | the bytes of the buffer, then zeros, up to the size |
| FileLayer.FileInfo.PreadDirect | src/m65ftp_lib.c:669-741 | as many bytes as the file has, each the byte at its place in the chain unless reading started behind it; -1 exactly when an I/O error comes before the first byte, otherwise the number of bytes read; the new last offset and chain index |
| FileLayer.ReadsAtOffsetExactly | src/m65ftp_lib.c:689-704 | a read within the file starts in the cluster of its offset if and only if it does not go on from a cluster behind it |
| FileLayer.ReadsContent | src/m65ftp_lib.c:694-735 | then what is read is the content of the file |
| FileLayer.FileInfo.ResolveStart | src/m65ftp_lib.c:801-827 | the cluster, sector and chain index at which a direct write begins, remembered or walked to |
| FileLayer.StartBatch | src/m65ftp_lib.c:833-841 | the largest power of two up to the wanted clusters, between 2 and 64 |
| FileLayer.FirstBatchExactly | src/m65ftp_lib.c:833-841 | the first size tried is at least p, a power of two from 2 to 64, if and only if the remaining bytes fill more than p - 2 clusters: one cluster more than is needed counts as wanted |
| FileLayer.FileInfo.Extend | src/m65ftp_lib.c:830-872 | it succeeds if and only if a run of the first batch size is free, and links the lowest one; it fails if and only if nothing is free, and hangs otherwise, changing nothing |
| FileLayer.FallbackFindsNothing | src/m65ftp_lib.c:861-871 | when the batch search returns 0, the single-cluster fallback finds nothing either |
| FileLayer.FileInfo.PwriteDirect | src/m65ftp_lib.c:789-927 | buf[..written] is spliced in at the write position, no other chain or cluster changes, size and positions follow; past its end the chain grows by the lowest free runs of the batch sizes that are tried, one after the other, each chosen by what is left to write, and by no others; without an I/O error everything is written, or the write stands at the end of the chain where no run of the batch size is free, and then ends by how much is free: it hangs, or stops short, or fails when nothing has been written; a failed write leaves the descriptor and all clusters outside the chain as they were |
| FileLayer.WriteIsDetermined | src/m65ftp_lib.c:829-909 | the FAT and the chains before a write, its place and its length decide which clusters it takes, how much it writes and how it ends |
| FileLayer.GrowsOnce | src/m65ftp_lib.c:829-909 | when the first run holds the rest, the write is complete on it and the chain has grown by just that many clusters; when none is free, only what fitted before is written and no cluster is taken |
| FileLayer.WritesAtOffsetExactly | src/m65ftp_lib.c:801-827 | a write lands on its offset if and only if the remembered sector is the offset's, when it resumes, and otherwise the offset is not more than a sector past the chain |
| FileLayer.FileInfo.CopyToBlock | src/m65ftp_lib.c:1038-1105 | success: a complete new block with the old bytes; failure: rolled back |
| FileLayer.FileInfo.GrowFile | src/m65ftp_lib.c:1027-1121 | success: the file has moved and the old chain is free; failure: chains and contents are as before, and the FAT is if and only if no cluster of the block is left used; it ends as the search for a run does, or at an error |
| FileLayer.RolledBack | src/m65ftp_lib.c:1057-1062 | freeing what was taken of the block restores the FAT |
| FileLayer.LeftUsed | src/m65ftp_lib.c:1038-1062 | after the roll-back the FAT is the old one, and the volume well formed, if and only if no cluster of the block is left used |
| FileLayer.DoubleFaultLeaks | src/m65ftp_lib.c:1043-1062 | one failing allocation and one failing deallocation leave a cluster used and without an owner |
| FileLayer.SwapCount | src/m65ftp_lib.c:1107-1121 | the number of free clusters changes by the difference of the chain lengths |
| FileLayer.FileInfo.ShrinkFile | src/m65ftp_lib.c:1122-1139 | the FAT with the chain cut after the needed clusters and the rest freed, and nothing else changed |
| FileLayer.FileInfo.ReleaseFile | src/m65ftp_lib.c:986-995 | truncation to zero frees the whole chain |
| FileLayer.FileInfo.TruncateDirect | src/m65ftp_lib.c:982-1162 | in all branches: exactly ceil(length/cluster) clusters, on the lowest free run when the file moves, the common prefix kept, free clusters balanced, and which sectors the clusters hold; shrinking always succeeds, growing does if a run is free and no call fails; a file without a chain cannot grow; a failure keeps chains, contents and every field of the descriptor |
| Sessions.AllowedWritesExactly | src/m65ftp_lib.c:801-827 | a write within the file is allowed if and only if the file has a chain and the write lands on its offset |
| Sessions.AllowedReadsExactly | src/m65ftp_lib.c:689-704 | a read within the file is allowed if and only if it starts in the cluster of its offset |
| Sessions.ResumeEqualsWalk | src/m65ftp_lib.c:801-827 | after a write that ended on a sector boundary, resuming and walking the chain give the same sector of the file, also at the chain's end |
| Sessions.TruncateCall | src/m65ftp_lib.c:982-1162 | the common prefix is kept, and the content is the old one cut or extended with zeros if and only if the bytes the file takes in were zero on its chain or on the new block; a failed one was to grow the file and changes neither content, descriptor nor FAT |
| Sessions.Session | src/m65ftp_lib.c:640-1162 | any run of allowed writes, truncations and reads, mixed on one descriptor and going on after calls that fail, changes the file as a byte string would change, answers from it, and keeps the entry on disk equal to the descriptor's copy; a call that fails changes nothing, and without I/O errors fails only on a full volume or, for a truncation, on an empty file; the run stops early only at a call that is not allowed or never returns |
| Sessions.ReadSession | src/m65ftp_lib.c:669-741 | any run of reads returns content[offset .. min(offset + count, size)] each time |
| Chainless.FatsAgreeExactly | src/m65ftp_lib.c:809-901 | bytes put where cluster 0 would lie leave two equal FATs if and only if no byte of a FAT has changed |
| Chainless.WriteWithoutChain | src/m65ftp_lib.c:789-927 | a write to a file without a chain: its bytes lie two clusters below the data area, the entry gets a size and keeps cluster 0, and when the FATs still agree |
| Landings.WriteAfterTruncate | src/m65ftp_lib.c:812-927 | a truncation to zero and a write of one byte: an entry with cluster 0 and size 1, and a byte of FAT2 or of what lies before the FATs is overwritten |
| Landings.ReadThenWrite | src/m65ftp_lib.c:737-805 | after a read of the first 512 bytes a write at 512 changes byte 0 |
| Landings.UnalignedWrites | src/m65ftp_lib.c:801-912 | 100 bytes at 0, then 100 bytes at 100: the second write lands at 612 |
| Landings.CutAndGrown | src/m65ftp_lib.c:1122-1162 | cut to one byte and grown to three, a direct file shows its old third byte |
| Landings.WriteBetweenReads | src/m65ftp_lib.c:689-805 | a far read, a write at the start, and a read behind it that answers from the second cluster |
| Workspaces.StillReady | src/m65ftp_lib.c:743-1162 | a call on one file leaves another open file usable and its bytes unchanged |
| Workspaces.EntryAfter | src/m65ftp_lib.c:914-922 | after a call on one file another file's entry on disk names it if and only if the caller's copy of a shared sector did, or, in another sector, it did before |
| Workspaces.PerformOn | src/m65ftp_lib.c:640-1162 | one call among open files: its own file follows the call, no other file's bytes change, what becomes of every other entry on disk, why it may fail, and that a failed call leaves contents and entries as they were |
| Workspaces.OldSizeComesBack | src/m65ftp_lib.c:914-922 | two entries in one sector: an append to one file, a write to the other, and the old size is on disk |
| Workspaces.JointSession | src/m65ftp_lib.c:640-1162 | any run of writes, truncations and reads on several open files: each call acts on its own byte string only, or fails and changes nothing; the volume goes through operations of these files only, with separate sectors all entries on disk stay up to date, and the run stops early only at a call that is not allowed or never returns |
| Buffered.PwriteBuffered | src/m65ftp_lib.c:752-788 | every byte of the new content; it is the old content zero-filled to the offset with the data over it if and only if the buffer is zero in the gap |
| Buffered.TruncateBuffered | src/m65ftp_lib.c:961-979 | the content is cut or zero-extended if and only if the length fits 32 bits and the buffer is zero from the old end to the new; the buffer's tail stays zero exactly when only zeros were cut off |
| Buffered.TruncateBufferedToZero | src/m65ftp_lib.c:939-960 | an empty buffered file with a cleared entry |
| Buffered.StaleBytesExample | src/m65ftp_lib.c:961-979 | a file of 7 7 7, cut to its first byte and written at 4, holds 7 7 7 0 9 where a byte string would hold 7 0 0 0 9 |
| Buffered.Flush | src/m65ftp_lib.c:153-232 | the direct content after a flush is the buffered content before it; one step of the volume; it ends as the search for a run does, or at an I/O error with what that leaves behind |
| Buffered.ReadAcrossFlush | src/m65ftp_lib.c:640-741 | for every offset and count a read after a flush returns what it returned before; the flush succeeds when a run is free and nothing fails |
| Buffered.Pwrite | src/m65ftp_lib.c:743-927 | a write on a buffered file, also one that crosses the buffer limit: where the data lands, what the file held stays, from within the file the content changes as a byte string, and why it may fail |
| Buffered.PwriteEmpty | src/m65ftp_lib.c:743-927 | the same on an empty buffered file: the flush leaves no chain, and the write starts at the place of cluster 0 |
| Buffered.FlushSizeExactly | src/m65ftp_lib.c:169-170 | the 32-bit cluster count is right if and only if size + cluster - 1 fits; otherwise it is 0 |
| LongNames.CopyFromChunk | lib/libm65ftp/mega65_ftp.c:5421-5438 | name bytes, one terminator, then 0xFFFF fill, in the given segment only |
| LongNames.BuildEntry | lib/libm65ftp/mega65_ftp.c:5440-5483 | all 32 bytes of the entry with a given number |
| LongNames.EntryIsUnique | lib/libm65ftp/mega65_ftp.c:5460-5483 | name, number and checksum determine the entry |
| LongNames.CopyOutOfEntry | lib/libm65ftp/mega65_ftp.c:2338-2354 | the 13 characters of an entry go to their place in the name and no other byte changes |
| LongNames.NameRoundTrip | lib/libm65ftp/mega65_ftp.c:2433-2473 | reading the entries n down to 1 of a name of 1 to 255 bytes gives the name back |
| ShortNames.ExtractName | lib/libm65ftp/mega65_ftp.c:2356-2392 | the two loops build the 8.3 name of the slot: zero bytes skipped, trailing blanks cut, lower case by the flags |
| ShortNames.NamedExactly | lib/libm65ftp/mega65_ftp.c:2356-2392 | a slot in use has a name if and only if one of its first nine bytes is neither zero nor blank |
| ShortNames.ShortNameRoundTrip | lib/libm65ftp/mega65_ftp.c:2356-2392 | base and extension, padded with blanks, come back with a dot between them, in lower case where the flags say so |
| DirRecords.ReadRecord | lib/libm65ftp/mega65_ftp.c:2394-2554 | one fat_readdir takes exactly one record, shows its file, and finds no used record free |
| DirRecords.ShownExactly | lib/libm65ftp/mega65_ftp.c:2475-2550 | a file is listed if and only if its slot is in use, neither volume name nor hidden, has a byte of a name in it, and its long name does not begin with a dot |
| DirRecords.WalkShowsRecords | lib/libm65ftp/mega65_ftp.c:2394-2554 | the walk over a well-formed directory shows its files in order |
| DirRecords.CreatedWalk | lib/libm65ftp/mega65_ftp.c:5485-5517 | an entry written over the first zero slots is shown behind all others |
| DirRecords.WipedWalk | lib/libm65ftp/mega65_ftp.c:4296-4324 | wiping an entry takes it out of the walk and keeps all others |
| DirCursor.Cursor.Advance | lib/libm65ftp/mega65_ftp.c:2281-2313 | the cursor moves to the next slot, across sectors and clusters, or past the end |
| DirCursor.Cursor.Put | lib/libm65ftp/mega65_ftp.c:5476-5477 | one slot of the directory is replaced on disk, nothing of other files |
| DirCursor.Cursor.Extend | lib/libm65ftp/mega65_ftp.c:4587-4624 | one free cluster is linked behind the directory and adds only zero slots; on a full volume the chain ends in cluster 0, entry 0 becomes an end mark and the sectors two clusters below the data area are zeroed |
| DirCursor.OneMore | lib/libm65ftp/mega65_ftp.c:4601-4609 | that extension keeps the volume well formed |
| DirCursor.FullVolumeExtension | lib/libm65ftp/mega65_ftp.c:4587-4612 | that breaks the volume, and the two FATs still agree if and only if a cluster is at least as large as both of them |
| Directory.ReadLongName | lib/libm65ftp/mega65_ftp.c:2433-2473 | the long-name loop reads the characters of all entries of the run and stops behind it |
| Directory.ReadDir | lib/libm65ftp/mega65_ftp.c:2394-2554 | the next entry: slot, kind, short and long name and where the long name started; or the end |
| Directory.ListDirectory | lib/libm65ftp/mega65_ftp.c:2394-2554 | repeated reads give exactly the listing |
| Directory.ReadNextAssureFree | lib/libm65ftp/mega65_ftp.c:5357-5369 | says whether the next entry is free; a directory that has run out is extended |
| DirEntries.FindContiguousFree | lib/libm65ftp/mega65_ftp.c:5371-5419 | stops before the first zero slot, having extended a full directory |
| DirEntries.WriteLongName | lib/libm65ftp/mega65_ftp.c:5485-5508 | the entries n down to 1 fill the next free slots |
| DirEntries.CreateEntry | lib/libm65ftp/mega65_ftp.c:4656-4685 | the directory keeps its form and the walk shows the old files, then the new one if and only if its slot and name are visible ones; it takes as many slots as the name needs; no other owner changes, and the volume goes through extensions of this directory only |
| DirEntries.WipeEntry | lib/libm65ftp/mega65_ftp.c:4296-4324 | exactly the slots of the entry just read become deleted slots |
| DirEntries.DeleteEntry | lib/libm65ftp/mega65_ftp.c:4296-4324 | the walk shows all other files, in their order |
| Deletion.ReleaseClusters | lib/libm65ftp/mega65_ftp.c:4185-4196 | the chain is freed; for first cluster 0, entry 0 is cleared |
| Deletion.DeleteKeepsVolume | lib/libm65ftp/mega65_ftp.c:4185-4196 | the volume stays well formed if and only if the file has a first cluster |
| Deletion.DeleteFile | lib/libm65ftp/mega65_ftp.c:4085-4199 | the first cluster is read out of the entry; the entry is gone from the walk, its clusters are free, other files untouched; the volume stays well formed if and only if the file has a first cluster |
| WriteBatches.BatchSize | lib/libm65ftp/mega65_ftp.c:1661-1680 | the longest run of consecutive sectors from job i, up to 257 |
| WriteBatches.ProcessJobs | lib/libm65ftp/mega65_ftp.c:1642-1688 | the packets' (start + slot, data) pairs are the queued jobs in order; every batch is consecutive, and there is one for each run of consecutive jobs, cut at 257 |
| WriteBatches.DeliveryIsIdempotent | lib/libm65ftp/mega65_ftp.c:1536-1563 | packets of a batch repeated and reordered leave the same device |
| WriteBatches.QueueDelivered | lib/libm65ftp/mega65_ftp.c:1536-1563 | the same for all batches of a queue |
| SectorStore.EnqueueUpdates | lib/libm65ftp/mega65_ftp.c:1798-1818 | queueing updates one sector of the flat disk, merged or appended, also when the queue is purged first |
| SectorStore.WriteRefines | lib/libm65ftp/mega65_ftp.c:1987-2027 | a write updates one sector of the flat disk and keeps the cache coherent |
| SectorStore.ReadRefines | lib/libm65ftp/mega65_ftp.c:1909-1975 | a hit, or a miss over a fresh window, returns the flat disk's sector and keeps coherence |
| SectorStore.ReadExactly | lib/libm65ftp/mega65_ftp.c:1941-1961 | a miss keeps coherence if and only if no pending write differs from the device in the part of its window that is still cached afterwards; with room in the cache that is all of it |
| SectorStore.NothingPendingIsFresh | lib/libm65ftp/mega65_ftp.c:1941-1961 | a window without pending writes is fresh |
| SectorStore.StoreIsFlatDisk | lib/libm65ftp/mega65_ftp.c:1767-2027 | in every clean run all reads return the last value written, and the final state agrees |
| SectorStore.TidyIsClean | lib/libm65ftp/mega65_ftp.c:1767-2027 | a run is clean if every read hits or has no pending sector in its window, which its sector numbers decide; when every write changes what the device holds, only such runs are |
| SectorStore.TidyRunIsFlat | lib/libm65ftp/mega65_ftp.c:1767-2027 | such a run from an empty cache and queue is a run of a flat disk |
| FatTraffic.FreeOnStore | lib/libm65ftp/mega65_ftp.c:2617-2720 | a clean free over the store follows the chain and leaves it free in both FATs |
| FatTraffic.FreeInOrder | lib/libm65ftp/mega65_ftp.c:2617-2720 | with nothing pending, freeing a chain is clean when it never goes back to a FAT sector less than a read-ahead before one it has passed |
| FatTraffic.LinkInRoom | lib/libm65ftp/mega65_ftp.c:2556-2686 | with nothing pending and room for the FATs, linking a block is clean and links it in both FATs |
| FatTraffic.ReadsTidy | lib/libm65ftp/mega65_ftp.c:2724-2791 | reads alone are clean when nothing is pending, as in the searches |
| FatTraffic.LostFree | lib/libm65ftp/mega65_ftp.c:1941-1961 | on a fresh mount, a chain that passes a FAT sector, one up to 15 before it, and the first again stays linked at its first cluster |
| SectorStore.StaleReadExample | lib/libm65ftp/mega65_ftp.c:1941-1961 | a write, a read of the sector before it, and a stale read |
| SectorStore.SectorCache.ExecuteWriteQueue | lib/libm65ftp/mega65_ftp.c:1767-1796 | the queue goes to the device through the packets and changes no visible value |
| SectorStore.SectorCache.QueueWriteSector | lib/libm65ftp/mega65_ftp.c:1798-1818 | the arrays follow the queue of the specification |
| SectorStore.SectorCache.WriteSector | lib/libm65ftp/mega65_ftp.c:1987-2027 | the arrays follow Write |
| SectorStore.SectorCache.ReadSector | lib/libm65ftp/mega65_ftp.c:1909-1975 | the arrays and the result follow Read |
| ReplyMatching.EmbedKeepsAddress | lib/libm65ftp/etherload/etherload_common.c:738-755 | the sequence number does not take part in the duplicate test |
| ReplyMatching.DuplicateExactly | lib/libm65ftp/etherload/etherload_common.c:738-745 | two load frames are duplicates if and only if they load to the same address; two sector frames never are |
| ReplyMatching.NumberRoundTrip | lib/libm65ftp/etherload/etherload_common.c:643-755 | the sequence number put into a payload is the one read from it, modulo 2^16 |
| ReplyMatching.PlaceKeeps | lib/libm65ftp/etherload/etherload_common.c:454-483 | placing a frame keeps: slots and log agree, no two outstanding frames are duplicates |
| ReplyMatching.ReplyKeeps | lib/libm65ftp/etherload/etherload_common.c:422-450 | a reply frees at most one slot and keeps the invariant |
| ReplyMatching.DrainedExactly | lib/libm65ftp/etherload/etherload_common.c:588-628 | nothing is outstanding if and only if every frame placed so far has been matched |
| ReplyMatching.RunKeeps | lib/libm65ftp/etherload/etherload_common.c:422-628 | over every run of sends and arrivals: at most queue_length outstanding, no duplicates, nothing lost from the log |
| ReplyMatching.LoadReplyIsUnique | lib/libm65ftp/etherload/etherload_common.c:714-745 | with the memory loader a reply matches one outstanding frame only |
| ReplyMatching.WriteReplyIsUnique | lib/libm65ftp/mega65_ftp.c:1426-1437 | within a write batch an acknowledgement names one packet |
| ReplyMatching.ReplyInBatch | lib/libm65ftp/mega65_ftp.c:1344-1358 | a sector reply that frees request k names sector start + k and is stored in slot k |
| ReplyMatching.ReadJobIsSafe | lib/libm65ftp/mega65_ftp.c:1344-1358 | no reply to a read job is stored outside the batch, whatever arrives |
| ReplyMatching.ReadJobFills | lib/libm65ftp/mega65_ftp.c:1565-1607 | once drained, slot k holds the bytes of the reply that freed request k if and only if it is a sector reply, which then names sector start + k; otherwise the slot is as before |
| ReplyMatching.ReadJobDelivers | lib/libm65ftp/mega65_ftp.c:1565-1607 | so without replies of other commands slot k holds a received copy of sector start + k, and the rest of the buffer is as before |
| ReplyMatching.AnswersFit | lib/libm65ftp/mega65_ftp.c:1414-1484 | for each command, the remote program's answer to a frame matches it, whatever numbers stand in the bytes that are not compared |
| ReplyMatching.CopyFrees | lib/libm65ftp/mega65_ftp.c:1438-1446 | a response naming sector start + k, whatever its other header bytes, frees exactly request k if that is outstanding, and its data goes to slot k |
| ReplyMatching.CopiesDrain | lib/libm65ftp/mega65_ftp.c:1565-1607 | once a copy of every sector of the job is among the arrivals, in any order and with anything else between, nothing is outstanding |
| ReplyMatching.AckFrees | lib/libm65ftp/mega65_ftp.c:1426-1437 | the acknowledgement of packet k of a batch frees exactly that packet |
| ReplyMatching.AcksDrain | lib/libm65ftp/mega65_ftp.c:1536-1563 | once every packet of a batch has been acknowledged, nothing is outstanding |
| ReplyMatching.HelloFreesReadRequest | lib/libm65ftp/mega65_ftp.c:1465-1471 | a leftover hello reply frees a read request without data |
| ReplyTimers.SilenceResends | lib/libm65ftp/etherload/etherload_common.c:410-586 | while something is outstanding and nothing is freed, a frame is sent again at least every second |
| ReplyTimers.ResendsApart | lib/libm65ftp/etherload/etherload_common.c:410-586 | two resends are more than 50 milliseconds apart |
| ReplyTimers.GivesUpAfterSilence | lib/libm65ftp/etherload/etherload_common.c:525-560 | the program gives up only when no packet with a sequence number has come for more than four seconds |
| ReplyWindow.AckWindow.CountUnacked | lib/libm65ftp/etherload/etherload_common.c:400-408 | the number of outstanding frames |
| ReplyWindow.AckWindow.CheckIfAck | lib/libm65ftp/etherload/etherload_common.c:422-450 | the arrays follow Reply, the clocks what has been heard; true exactly when a slot was freed |
| ReplyWindow.AckWindow.MaybeSendAck | lib/libm65ftp/etherload/etherload_common.c:525-586 | exactly after a quiet interval, one frame is sent again, an oldest unmatched one, and the interval grows; it gives up exactly when the silence is too long; else nothing is sent |
| ReplyWindow.AckWindow.ExpectAck | lib/libm65ftp/etherload/etherload_common.c:454-523 | the frame is placed exactly when a slot is free and it duplicates nothing; until then each turn takes its replies and sends again what is due; how it may end |
| ReplyWindow.AckWindow.WaitAckSlots | lib/libm65ftp/etherload/etherload_common.c:588-628 | it ends in the first turn that finds the time over or the asked-for slots free, or that finds the silence too long; the frames it has sent again, turn by turn, are exactly those due |
| ReplyWindow.AckWindow.SetQueueLength | lib/libm65ftp/etherload/etherload_common.c:785-796 | the invariant survives if and only if no outstanding frame sits past the new length |
| ReplyWindow.AckWindow.MatchPayloads | lib/libm65ftp/mega65_ftp.c:1414-1484 | the branches of the callback decide as Match does |
| ReplyWindow.AckWindow.RequestSectors | lib/libm65ftp/mega65_ftp.c:1565-1607 | the expected replies are placed and one frame goes out: the read request with the first sector and the number of sectors less one |
| ReplyWindow.AckWindow.ReadSectors | lib/libm65ftp/mega65_ftp.c:1565-1607 | a read job and its wait: one request for the range and its length, then only requests for single sectors of it, when due; success means every request was freed by something received, which fills its slot if and only if it is a sector reply, and nothing outside the batch is stored; once a copy of every sector has arrived in time, it succeeds |
| HexFile.ReadLine | lib/libm65ftp/bit2mcs.c:69-100 | a printed record reads back and its bytes sum to 0 modulo 256 |
| HexFile.PrintData | lib/libm65ftp/bit2mcs.c:91-100 | a data record reads back as its offset and bytes |
| HexFile.Bit2Mcs | lib/libm65ftp/bit2mcs.c:69-108 | the lines read as the records of the input in order; loaded, they are the input at the address if and only if LoadsRight holds |
| HexFile.LoadsExactly | lib/libm65ftp/bit2mcs.c:69-108 | for up to 4 GB the records load the input at start if and only if there is none, or the first segment is announced, or it is segment 0 and the rest is announced or not reached |
| HexFile.StayWithin | lib/libm65ftp/bit2mcs.c:91-100 | from a multiple of 16 on no data record leaves its segment |
| HexFile.ImageOf | lib/libm65ftp/bit2mcs.c:69-108 | up to 4 GB, byte i is at address + i modulo 4G and nothing is elsewhere |
| HexFile.UnalignedExample | lib/libm65ftp/bit2mcs.c:70-76 | one byte printed for address 0x10010 loads at 0x10 |

## Left out

- Volume.Disk.SetFatClusterPtr: a failing update changes nothing; a failure between the writes to FAT1 and FAT2, which leaves them different, is outside the fault model.
- FileLayer.FileInfo.FlushWriteBuffer: requires size + cluster - 1 below 2^32 and no failing FAT update; the first is the exact condition of `Buffered.FlushSizeExactly`, and the error codes of the second are ignored by the original.
- FileLayer.FileInfo.PwriteDirect: requires that FAT updates do not fail, because the original ignores their error codes; a file without a chain is `Chainless.WriteWithoutChain`.
- Chainless.WriteWithoutChain: without I/O errors, and up to the end of cluster 0; what the original does behind it, taking entry 0 of a FAT that may have been overwritten for the file's last link, is not described.
- FileLayer.FileInfo.TruncateDirect: failing FAT updates are covered in the growing branch only, under the fault model that a failing update changes nothing.
- Buffered.Pwrite: a single write past the buffer limit to an empty buffered file is `Buffered.PwriteEmpty`. The bytes between the end of the file and a later offset are whatever the disk held, and not described.
- Workspaces.JointSession: the files are direct and open before the run; flushes are single steps (`Buffered.Flush`).
- Allocator.FindContiguousClusters: a call that never returns is the outcome `Endless`, since a method must end; `SearchRounds` models the endless rounds themselves.
- DirCursor.Cursor.Advance: sector reads of directories do not fail in the model; the same holds for the other directory methods.
- Directory.ReadDir: the size and the time stamps are not taken out of the slot, which is returned whole.
- Directory.ReadNextAssureFree: on a full volume it is not called for an extension; `DirCursor.Cursor.Extend` says what would happen.
- DirEntries.FindContiguousFree: requires a directory in the form old entries, then zero slots, which creation and deletion keep, and room for the entry.
- DirEntries.CreateEntry: requires the same; the 8.3 slot, its name generation and its time stamps are a parameter.
- Deletion.DeleteFile: finding the entry by its name, and the recursive deletion of a directory.
- SectorStore.SectorCache.ReadSector: a read-ahead of more than 255 sectors, which makes the read job end the program, is excluded by its requires; the job itself is `ReplyWindow.AckWindow.ReadSectors`.
- SectorStore.TidyIsClean: only one way when a write puts back what the device holds, since then the bytes decide.
- ReplyWindow.AckWindow.ReadSectors: starts from a drained window; replies delayed from an earlier job are not told apart, as the original does not compare sequence numbers.
- ReplyMatching.Match: what replies to the commands 0x11 and 0x12 store is not modelled, only which frame they match.
- HexFile.Bit2Mcs: command line, the 120-byte header of bitstream files and file I/O; the input is a byte sequence.
- Failing reads of FAT sectors, failing allocations of memory, and the serial transport.
- The file layer works on a flat disk: `execute_write_queue` is the identity there, which is what `SectorStore.StoreIsFlatDisk` justifies for clean runs. `FatTraffic` carries it over for the loops that free and link clusters; whole file calls over the cached store are not composed, and with the chains of `FatTraffic.LostFree` they do not behave as on the flat disk.
- Geometry: the root directory is cluster 2, each FAT has 128 * sectors_per_fat entries, all for real clusters, with the top nibble zero, and entry 0 is not zero.
- Sockets, clocks and discovery: the network is a list of rounds with a clock reading and arbitrary packets; the exit on a timeout is the outcome `GaveUp`.
- FUSE callbacks, the shell, path splitting, wildcards, partition tables, flashing and the descriptor pool.
