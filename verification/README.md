# Verification of a small operating system's storage, link and kernel

This project models the parts of an Arduino-style system that are hardest to get right, and
proves what they promise. The system has a FAT and an exFAT file system, formatters for both, a
packet protocol over a serial line, and a kernel that runs byte-code programs from files in a
shared heap.

Each module models one component, in the component's own form: objects whose methods change
fields are classes with contracts over the old and the new state, pure computations are
functions, and what a component promises over many calls is a lemma, an invariant or a method
that performs a whole run.

| module | component | main results |
|---|---|---|
| `SectorMap`, `FileBytes` | cluster and sector arithmetic; bytes of a cluster list | the byte view of sectors, where on the device every byte lies, and how transfers change it |
| `FatTable`, `FatPartition` | the File Allocation Table as a heap of chains | every nonzero entry lies on exactly one acyclic, terminated chain; free clusters and chain lengths add up; freeing ends on every table, and exactly clears a chain on a good one; the exact range of every search |
| `FatFile`, `FatVolume` | files of a FAT volume | any run of reads, writes, seeks and truncations is a run of a byte sequence with a position, and so is any interleaving of runs on several open files |
| `FatSession`, `ExFatSession` | each file system as a whole | from a blank device to the bytes read back; a new file takes any bytes exactly when the free clusters suffice |
| `ExFatPartition`, `ExFatLists`, `ExFatFile`, `ExFatVolume` | the allocation bitmap; implicit ranges and chains | a bit is set exactly when its cluster is on exactly one file's list, through the conversion of a range into a chain; no cluster below the search start is free; exactly when the search returns; any run of reads, writes, seeks and truncations is a run of a byte sequence with a position |
| `PartitionTable`, `FatFormatter`, `ExFatFormatter` | formatting and mounting | exactly which devices can be formatted, sound layouts, and mounting recovers them as consistent volumes |
| `UpcaseTable` | the compressed up-case table | decoding gives back the case map exactly for the maps that can be coded |
| `LongNames`, `DirectorySearch` | long file names | names read back, comparison is equality without regard to case, the lookup finds the first file of that name |
| `Crc32`, `CrcDivision`, `StreamProtocol`, `Hal` | packets and their delivery | the checksum is the remainder of a division of polynomials; any burst of up to 32 flipped bits is detected; encode and parse are inverse; under any interleaving of arrivals and polls the packets come out whole and in order |
| `Kernel` | the shared heap and the task table | every set heap bit belongs to exactly one block of one task; waits never form a cycle and some task can always run |
| `VirtualMachine` | the byte-code machine and its code window | a machine that sees 32 bytes of its program at a time does what a machine with the whole program in memory does, and what each instruction does by its number |

Some results say when the code does not do what one would expect. Each states the exact
condition, and has an input for which it fails beside it: allocation above the search start
(`FreedClustersUsable`, `AllocationMissesFreeCluster`), the end of the bitmap search (`HaltsIff`,
`FullSearchNeverEnds`, and for a whole write `ExFatSession.StoreAndLoad`), the end of a program
(`EndOfCode`, `StaleByteIsExecuted`), the up-case table (`RoundTrip`, `MapsThatAreLost`), the
cluster size (`FindShift`, `MountsClusterSizeZero`) and names (`NameRoundTrip`, `NameThatIsLost`).

Where the sources disagree with their own comments the code is followed: a comment in
src/syscall/SysExec.h calls slot 0 the shell, but the code runs the communication daemon there
(src/Kernel.cpp, lines 39 to 50).

Conventions. Machine integers are unbounded numbers, with wrap-around written out where it can
happen; masks and shifts of the file systems are divisions and remainders by powers of two; the
CRC and the packet header are bit-vectors. A table, a bitmap or a task list that the source
changes in place is a field that methods reassign, or an array. Ghost fields (`chains`,
`ranges`, `owners`, `births`) carry the abstract structure that the concrete fields must match.

## Model

| member | source | states |
|---|---|---|
| FatTable.ChainAcyclic | lib/SdFat/src/FatLib/FatPartition.cpp:157-221 | a list of clusters that follows the links to an end mark visits no cluster twice |
| FatTable.SharedClusterSharesTail | lib/SdFat/src/FatLib/FatPartition.cpp:157-221 | two chains that meet in one cluster are the same from there on, so disjointness is decided by heads |
| FatTable.NewRun | lib/SdFat/src/FatLib/FatPartition.cpp:132-144 | linking a run of free clusters adds one chain to a well-formed table and disturbs no other |
| FatTable.AppendCluster | lib/SdFat/src/FatLib/FatPartition.cpp:71-82 | marking a free cluster as end and linking the last one to it appends exactly one cluster, and the table stays well formed |
| FatTable.CutChain | lib/SdFat/src/FatLib/FatFile.cpp:1331-1344 | an end mark in the middle of a chain makes two chains of it, and the table stays well formed |
| FatTable.RemoveChain | lib/SdFat/src/FatLib/FatPartition.cpp:301-327 | clearing the entries of one chain leaves all others well formed |
| FatTable.FreeOnlyClears | lib/SdFat/src/FatLib/FatPartition.cpp:301-327 | on any table, cyclic and cross-linked ones included, freeing changes an entry only to zero |
| FatTable.FreeChainClears | lib/SdFat/src/FatLib/FatPartition.cpp:301-327 | freeing the head of a chain succeeds and clears exactly that chain's entries |
| FatTable.FreeSucceedsIffChain | lib/SdFat/src/FatLib/FatPartition.cpp:301-327 | on any table, freeing reports success exactly when the start begins a chain that ends |
| FatTable.HintAfterFreeBounds | lib/SdFat/src/FatLib/FatPartition.cpp:317-319 | freeing only lowers the search start, and never below 1 |
| FatTable.ShortenChain | lib/SdFat/src/FatLib/FatFile.cpp:1331-1354 | an end mark and a free of the rest keep exactly the first clusters of the chain |
| FatTable.ReleaseChain | lib/SdFat/src/FatLib/FatFileLFN.cpp:517-520 | freeing a whole file's chain removes it, and only it, from the table |
| FatTable.Conservation | lib/SdFat/src/FatLib/FatPartition.cpp:329-391 | in every well-formed table free clusters and chain lengths add up to the clusters of the volume |
| FatTable.UsedAreChained | lib/SdFat/src/FatLib/FatPartition.cpp:329-391 | the nonzero entries are exactly the clusters of the chains |
| FatPartition.Partition.Init | lib/SdFat/src/FatLib/FatPartition.cpp:393-501 | any table mounts, with the search start at 1; a well-formed one gives a consistent volume |
| FatPartition.Partition.FatPut | lib/SdFat/src/FatLib/FatPartition.cpp:224-298 | writes one entry, the value modulo its width, or refuses a cluster outside the table |
| FatPartition.Partition.FatPutEoc | lib/SdFat/src/FatLib/FatPartition.h:233 | writes the end mark, 0xFFFF or 0x0FFFFFFF |
| FatPartition.Partition.SearchFree | lib/SdFat/src/FatLib/FatPartition.cpp:30-71 | the search ends; it succeeds exactly when a cluster above the search start is free; with the start below the current cluster it takes the next free one above that, and the lowest one above the start only when there is none |
| FatPartition.Partition.AllocateCluster | lib/SdFat/src/FatLib/FatPartition.cpp:30-89 | succeeds exactly when a cluster above the search start is free; with the start below the current cluster and a free one above that, the next one is taken and the start stays, otherwise the lowest one above the start, which moves there; the two entries written; nothing on failure |
| FatPartition.Partition.SearchRun | lib/SdFat/src/FatLib/FatPartition.cpp:92-127 | finds the lowest free run above the search start, or there is none |
| FatPartition.Partition.AllocContiguous | lib/SdFat/src/FatLib/FatPartition.cpp:92-154 | the lowest free run above the search start becomes linked and ended, and the start moves to its end exactly if every cluster between is in use; nothing on failure |
| FatPartition.Partition.LinkRun | lib/SdFat/src/FatLib/FatPartition.cpp:132-144 | links a run from its last cluster down and changes no other entry |
| FatPartition.Partition.FreeChain | lib/SdFat/src/FatLib/FatPartition.cpp:301-327 | ends on every table content, with the result, the entries and the search start given by a function of the old table |
| FatPartition.Partition.FreeClusterCount | lib/SdFat/src/FatLib/FatPartition.cpp:329-391 | the scan by sectors counts the zero entries |
| FatPartition.ZeroCountIsFree | lib/SdFat/src/FatLib/FatPartition.cpp:329-391 | that count is the number of free clusters plus the reserved entries that are zero |
| FatPartition.HintUnderFreed | lib/SdFat/src/FatLib/FatPartition.cpp:317-319 | after freeing a chain some freed cluster lies above the search start, but for the one-cluster chain at the start; no freed cluster lies below it, and a start that moved is the cluster in front of a freed one |
| FatPartition.FreedClustersUsable | lib/SdFat/src/FatLib/FatPartition.cpp:301-327 | after freeing a chain allocation succeeds exactly when it did before or the chain was not the one cluster at the search start |
| FatFile.File.Open | lib/SdFat/src/FatLib/FatFile.cpp:536-616 | an opened file stands at position 0, or at its end, with a valid cursor and the contiguous shortcut off |
| FatFile.OpenTruncated | lib/SdFat/src/FatLib/FatFile.cpp:595-602 | opening with truncation releases the chain of the entry, whatever its length, and gives an empty file |
| FatFile.File.NextReadCluster | lib/SdFat/src/FatLib/FatFile.cpp:799-824 | at a cluster boundary the cursor moves to the cluster of the position, by link or by the shortcut |
| FileBytes.LoadPiece | lib/SdFat/src/FatLib/FatFile.cpp:825-867 | each of the three transfer paths delivers exactly the bytes of the file at the position |
| FatFile.File.Read | lib/SdFat/src/FatLib/FatFile.cpp:765-874 | returns the bytes from the position to the requested count or the end, and moves the position by as many |
| FatFile.File.ContentsLie | lib/SdFat/src/FatLib/FatPartition.h:228-230 | byte o of sector k of the i-th cluster c of a file is byte o of device sector data start + (c - 2) * cluster size + k |
| FatFile.File.SeekSet | lib/SdFat/src/FatLib/FatFile.cpp:1170-1233 | succeeds exactly for positions up to the size, and leaves the cursor on the cluster of the position |
| FatFile.File.FollowTo | lib/SdFat/src/FatLib/FatFile.cpp:1200-1223 | the walk from the current cluster ends where the walk from the first one would |
| FatFile.File.Truncate | lib/SdFat/src/FatLib/FatFile.cpp:1321-1363 | keeps exactly the bytes before the position and the clusters they need, and frees the others |
| FatFile.File.ReleaseAfterCursor | lib/SdFat/src/FatLib/FatFile.cpp:1331-1354 | frees exactly the clusters behind the cursor |
| FatFile.File.AddCluster | lib/SdFat/src/FatLib/FatFile.cpp:30-51 | appends one cluster; the contiguous shortcut stays on only if it follows its predecessor |
| FatFile.File.NextWriteCluster | lib/SdFat/src/FatLib/FatFile.cpp:1391-1434 | moves to, or adds, the cluster of the position |
| FileBytes.StorePiece | lib/SdFat/src/FatLib/FatFile.cpp:1435-1490 | each of the three transfer paths writes the bytes at the position; only the rest of a sector that was not read first may change |
| FatFile.File.StoreChunk | lib/SdFat/src/FatLib/FatFile.cpp:1435-1490 | a transfer writes the bytes at the position, in clusters of the file only, and changes nothing of any other file |
| FatFile.File.Write | lib/SdFat/src/FatLib/FatFile.cpp:1365-1509 | overlays or extends the contents at the position or, for appending, at the end; changes no sector but those from data start + (c - 2) * cluster size to the next cluster's, for the clusters c of the file; it fails only when read-only, over 32 bits, or when the file's clusters are full and no other is in reach, and then the size stays and the bytes written so far are stored |
| FileBytes.FrontStays | lib/SdFat/src/FatLib/FatPartition.h:228-230 | whatever is done to a file, every sector in front of the data area stays |
| FatFile.File.Remove | lib/SdFat/src/FatLib/FatFileLFN.cpp:508-520 | the file's clusters become free and no others |
| FatFile.File.PreAllocate | lib/SdFat/src/FatLib/FatFile.cpp:738-763 | succeeds exactly for an empty file and a free run above the search start, and gives it that run |
| FatFile.File.ContiguousRange | lib/SdFat/src/FatLib/FatFile.cpp:134-170 | succeeds exactly on a nonempty file of consecutive clusters, and names their sectors, from data start + (first cluster - 2) * cluster size on |
| FatFile.Perform | lib/SdFat/src/FatLib/FatFile.cpp:765-1509 | one successful operation does to any file what it does to a byte sequence with a position; a write to a preallocated file that was not sought since leaves only the bytes behind it open |
| FatFile.PerformAll | lib/SdFat/src/FatLib/FatFile.cpp:765-1509 | any run of successful operations is a run of the byte sequence, and other files are kept throughout |
| FileBytes.OtherFileUnchanged | lib/SdFat/src/FatLib/FatFile.cpp:1365-1509 | keeping the other files means their clusters and every byte of them |
| FatVolume.PerformOn | lib/SdFat/src/FatLib/FatFile.cpp:765-1509 | with several files open, an operation on one moves it as a byte sequence and leaves the cursor and the bytes of every other |
| FatVolume.RunAll | lib/SdFat/src/FatLib/FatFile.cpp:765-1509 | any interleaving of successful operations on several open files is a history of independent byte sequences |
| FatVolume.OtherStays | lib/SdFat/src/FatLib/FatFile.cpp:30-51 | a file stays valid, with its bytes, while another one takes or releases clusters of the shared table |
| FatPartition.AllocationTakesOne | lib/SdFat/src/FatLib/FatPartition.cpp:30-89 | an allocation takes exactly one cluster out of the search's reach, whatever it does to the search start |
| FatSession.Fill | lib/SdFat/src/FatLib/FatFile.cpp:1365-1509 | an empty file takes any bytes exactly when their number fits 32 bits and the free clusters above the search start are as many as they need |
| FatSession.StoreAndLoad | lib/SdFat/src/FatLib/FatFile.cpp:765-1509 | on any device that can be formatted, a new file stores any bytes exactly when the volume has the clusters for them, and they are what is read back; every sector in front of the data area is as formatted |
| FatSession.AllocateAll | lib/SdFat/src/FatLib/FatPartition.cpp:30-89 | clusters taken one at a time come in order, each moves the search start to itself, until none is in reach |
| FatSession.AllocationMissesFreeCluster | lib/SdFat/src/FatLib/FatPartition.cpp:34-53 | on any device that can be formatted: with every cluster taken and the last one released, a cluster is free and none can be allocated |
| FileBytes.LoadsRun | lib/SdFat/src/FatLib/FatFile.cpp:843-855 | a transfer of several sectors delivers the bytes of consecutive logical sectors |
| FileBytes.WritePart | lib/SdFat/src/FatLib/FatFile.cpp:1438-1468 | a write inside a sector changes the bytes written and leaves the rest of the file |
| FileBytes.WriteRun | lib/SdFat/src/FatLib/FatFile.cpp:1470-1490 | a write of several sectors changes exactly those bytes of the file |
| FileBytes.AgreesAfterWrite | lib/SdFat/src/FatLib/FatFile.cpp:1365-1509 | after a transfer the device agrees with the overlaid contents up to the new position |
| SectorMap.Geometry.DeviceInjective | lib/SdFat/src/FatLib/FatPartition.h:225-231 | different logical sectors of a file lie on different device sectors |
| SectorMap.Geometry.ByteLies | lib/SdFat/src/FatLib/FatPartition.h:228-230 | where on the device byte o of sector k of the i-th cluster of a list lies |
| SectorMap.Geometry.PatchInside | lib/SdFat/src/FatLib/FatPartition.h:228-230 | writing sectors of a file writes inside its clusters and behind the data start |
| SectorMap.Geometry.ClusterBoundary | lib/SdFat/src/FatLib/FatPartition.h:225-231 | cluster index and sector of cluster agree about where clusters begin |
| SectorMap.StepIndex | lib/SdFat/src/FatLib/FatFile.cpp:1391-1434 | the cluster of the next byte is the cursor's or the one after it |
| ExFatPartition.ScanAdvances | lib/SdFat/src/ExFatLib/ExFatPartition.cpp:48-73 | one turn of the scan keeps a free stretch, finds the lowest run, wraps or has come full circle |
| ExFatPartition.HaltsIff | lib/SdFat/src/ExFatLib/ExFatPartition.cpp:41-74 | the search returns exactly when it starts above bit 0 or a run of the wanted length exists |
| ExFatPartition.FullSearchNeverEnds | lib/SdFat/src/ExFatLib/ExFatPartition.cpp:41-74 | on a full bitmap a search from bit 0 never ends |
| ExFatPartition.Partition.Init | lib/SdFat/src/ExFatLib/ExFatPartition.cpp:268-326 | mounting moves the search start to the first free cluster; a full volume is excluded because the search would not return |
| ExFatPartition.Partition.BitmapFind | lib/SdFat/src/ExFatLib/ExFatPartition.cpp:30-76 | finds the lowest free run from the start on, else the lowest below it, or there is none |
| ExFatPartition.Partition.BitmapModify | lib/SdFat/src/ExFatLib/ExFatPartition.cpp:78-126 | flips exactly the run when every bit of it has the other value, and says what is left otherwise; where the search start moves |
| ExFatPartition.Partition.FatPut | lib/SdFat/src/ExFatLib/ExFatPartition.cpp:189-207 | writes one 32-bit entry or refuses a cluster outside the table |
| ExFatPartition.Partition.FreeChain | lib/SdFat/src/ExFatLib/ExFatPartition.cpp:209-237 | the merged bitmap updates clear exactly the bits of the chain's clusters, for every pattern of links |
| ExFatPartition.ReleasedRun | lib/SdFat/src/ExFatLib/ExFatPartition.cpp:223-229 | one merged update releases exactly the clusters of one rising stretch |
| ExFatPartition.Partition.FreeClusterCount | lib/SdFat/src/ExFatLib/ExFatPartition.cpp:239-266 | counts the used bits by bytes, with the shortcut for full ones |
| ExFatPartition.CountIsFree | lib/SdFat/src/ExFatLib/ExFatPartition.cpp:239-266 | with clear padding the result is the number of free clusters |
| ExFatLists.ReplaceList | lib/SdFat/src/ExFatLib/ExFatFileWrite.cpp:67-114 | replacing one file's list, in either representation, keeps every bit in agreement with every list |
| ExFatLists.NoSpaceMeansFull | lib/SdFat/src/ExFatLib/ExFatPartition.cpp:50-64 | for one cluster, no space is reported only on a full bitmap |
| ExFatLists.ModifyKeepsHint | lib/SdFat/src/ExFatLib/ExFatPartition.cpp:90-98 | no cluster below the search start is free, before and after an update |
| ExFatLists.FindKeepsHint | lib/SdFat/src/ExFatLib/ExFatPartition.cpp:53-56 | moving the search start to the cluster found keeps that |
| ExFatLists.LowestIsNext | lib/SdFat/src/ExFatLib/ExFatPartition.cpp:30-76 | when nothing free lies behind it, the search finds the lowest free cluster of the volume |
| ExFatLists.ReleaseKeepsHint | lib/SdFat/src/ExFatLib/ExFatPartition.cpp:209-237 | freeing a chain keeps that |
| ExFatFile.File.Open | lib/SdFat/src/ExFatLib/ExFatFile.cpp:276-521 | an opened file's flag says which representation its list has |
| ExFatFile.File.Enter | lib/SdFat/src/ExFatLib/ExFatFile.cpp:399-420 | truncating on opening gives an empty file, if it is writable; opening at the end goes to the end of the valid bytes |
| ExFatFile.File.AddCluster | lib/SdFat/src/ExFatLib/ExFatFileWrite.cpp:67-114 | appends exactly one free cluster to the list, also when a range has to become a chain |
| ExFatFile.File.ConnectCluster | lib/SdFat/src/ExFatLib/ExFatFileWrite.cpp:85-106 | writes the links of a former range and links the new cluster behind the last |
| ExFatFile.File.LinkRange | lib/SdFat/src/ExFatLib/ExFatFileWrite.cpp:88-93 | links every cluster of a range to the next and changes no other entry |
| ExFatFile.File.TakeCluster | lib/SdFat/src/ExFatLib/ExFatFileWrite.cpp:67-76 | succeeds exactly when a cluster is free, and sets exactly its bit |
| ExFatFile.File.NextWriteCluster | lib/SdFat/src/ExFatLib/ExFatFileWrite.cpp:625-665 | moves to, or adds, the cluster of the position; otherwise the volume is full, and the search returns exactly if it does not start at bit 0 |
| ExFatFile.File.GrowAtEnd | lib/SdFat/src/ExFatLib/ExFatFileWrite.cpp:67-80 | on a full volume the search for a cluster never returns exactly if it starts at bit 0 |
| ExFatFile.File.StepInside | lib/SdFat/src/ExFatLib/ExFatFileWrite.cpp:627-664 | stepping by range or by link finds the next cluster exactly when there is one |
| ExFatFile.LastOfRangeIs | lib/SdFat/src/ExFatLib/ExFatFileWrite.cpp:630-638 | the last cluster of a range comes out right in 32 bits, also for an empty one |
| ExFatFile.File.NextReadCluster | lib/SdFat/src/ExFatLib/ExFatFile.cpp:596-619 | at a cluster boundary the cursor moves to the cluster of the position, by range or by link |
| ExFatFile.File.Read | lib/SdFat/src/ExFatLib/ExFatFile.cpp:576-668 | returns the bytes from the position to the requested count or the valid length, and moves the position by as many |
| ExFatFile.File.ContentsLie | lib/SdFat/src/ExFatLib/ExFatPartition.h:175-178 | byte o of sector k of the i-th cluster c of a file is byte o of device sector heap start + (c - 2) * cluster size + k |
| ExFatFile.File.StoreChunk | lib/SdFat/src/ExFatLib/ExFatFileWrite.cpp:666-722 | a transfer writes the bytes at the position, in clusters of the file only, leaves the valid bytes around it, and changes nothing of any other file |
| ExFatFile.File.Write | lib/SdFat/src/ExFatLib/ExFatFileWrite.cpp:598-745 | overlays or extends the valid bytes at the position or, for appending, at their end; changes no sector outside the file's clusters, from heap start + (c - 2) * cluster size on for each cluster c; it fails only when read-only or when the file's clusters are full and no cluster of the volume is free, and then returns exactly if the search does not start at bit 0; the bytes written so far are valid |
| ExFatFile.File.ExtentBounded | lib/SdFat/src/ExFatLib/ExFatFileWrite.cpp:723-732 | no position or length ever passes 64 bits |
| ExFatFile.Perform | lib/SdFat/src/ExFatLib/ExFatFile.cpp:576-735 | one successful operation does to the file what it does to a byte sequence with a position |
| ExFatFile.PerformAll | lib/SdFat/src/ExFatLib/ExFatFileWrite.cpp:539-745 | any run of successful operations, on preallocated files too, is a run of the byte sequence, and other files are kept throughout |
| ExFatSession.Fill | lib/SdFat/src/ExFatLib/ExFatFileWrite.cpp:598-745 | an empty file takes any bytes exactly when the volume has as many free clusters as they need; more than that returns exactly if the volume's last cluster was in use, or nothing was free and the search started above bit 0 |
| ExFatSession.StoreAndLoad | lib/SdFat/src/ExFatLib/ExFatFileWrite.cpp:598-745 | on any device that can be formatted, a new file stores any bytes exactly when the clusters behind bitmap, up-case table and root suffice, and they are what is read back; writing more never returns; every sector in front of the clusters is as formatted |
| ExFatSession.LastTaken | lib/SdFat/src/ExFatLib/ExFatPartition.cpp:30-36 | the clusters of a new file come in order; the last one is the volume's last exactly if that was free |
| ExFatVolume.PerformOn | lib/SdFat/src/ExFatLib/ExFatFile.cpp:576-735 | with several files open, an operation on one moves it as a byte sequence and leaves the cursor, the bytes and the representation of every other |
| ExFatVolume.RunAll | lib/SdFat/src/ExFatLib/ExFatFileWrite.cpp:539-745 | any interleaving of successful operations on several open files is a history of independent byte sequences |
| ExFatVolume.OtherStays | lib/SdFat/src/ExFatLib/ExFatFileWrite.cpp:67-114 | a file stays valid, with its bytes, while another one takes or releases clusters or becomes a chain |
| ExFatLists.ListsAndFreeAddUp | lib/SdFat/src/ExFatLib/ExFatPartition.cpp:239-266 | free clusters and the lengths of all lists, of either kind, add up to the clusters of the volume |
| ExFatFile.File.Truncate | lib/SdFat/src/ExFatLib/ExFatFileWrite.cpp:539-596 | keeps exactly the bytes before the position, and releases exactly the clusters behind it in either representation |
| ExFatFile.File.ReleaseRangeTail | lib/SdFat/src/ExFatLib/ExFatFileWrite.cpp:549-561 | the tail of a range is released by one update |
| ExFatFile.File.ReleaseChainTail | lib/SdFat/src/ExFatLib/ExFatFileWrite.cpp:562-588 | the tail of a chain is cut off and freed |
| ExFatFile.File.Remove | lib/SdFat/src/ExFatLib/ExFatFileWrite.cpp:251-291 | releases exactly the clusters of the list |
| ExFatFile.File.PreAllocate | lib/SdFat/src/ExFatLib/ExFatFileWrite.cpp:221-249 | gives an empty file a free run as its range, with no valid bytes yet; exactly when it is refused, finds no run, or never returns |
| ExFatFile.File.SeekSet | lib/SdFat/src/ExFatLib/ExFatFile.cpp:682-735 | succeeds exactly for positions up to the valid length, and leaves the cursor on the cluster of the position |
| ExFatLists.NewRange | lib/SdFat/src/ExFatLib/ExFatFileWrite.cpp:221-249 | a free run becomes the range of a file, and bits and lists still agree |
| ExFatLists.ExtendRange | lib/SdFat/src/ExFatLib/ExFatFileWrite.cpp:81-84 | a range grows by the cluster behind it, and bits and lists still agree |
| ExFatLists.GrowChain | lib/SdFat/src/ExFatLib/ExFatFileWrite.cpp:85-106 | a list that became or was a chain grows by a linked cluster, and bits and lists still agree |
| FatFormatter.Search16 | lib/SdFat/src/FatLib/FatFormatter.cpp:138-151 | the FAT16 search ends within five steps with 4085 to 65524 clusters, so its error branch is never taken |
| FatFormatter.Found32 | lib/SdFat/src/FatLib/FatFormatter.cpp:190-207 | where the FAT32 search ends the reserved count fits 16 bits, and there are enough clusters exactly from 4209984 sectors on |
| FatFormatter.Formatter.LayOut16 | lib/SdFat/src/FatLib/FatFormatter.cpp:138-147 | stops at the first aligned data start that leaves room for the tables |
| FatFormatter.Formatter.LayOut32 | lib/SdFat/src/FatLib/FatFormatter.cpp:189-197 | stops at the first aligned data start that leaves room for the tables |
| FatFormatter.Formatter.MakeFat16 | lib/SdFat/src/FatLib/FatFormatter.cpp:134-183 | always succeeds, with a sound layout: regions in order, inside the device, room for every cluster and two reserved entries; every number of the layout, the partition entry and the boot sector |
| FatFormatter.Formatter.MakeFat32 | lib/SdFat/src/FatLib/FatFormatter.cpp:185-256 | succeeds exactly from 4209984 sectors on, with a sound layout, and otherwise writes nothing; every number of the layout, the partition entry, the boot sector and its backup |
| FatFormatter.Formatter.InitFatDir | lib/SdFat/src/FatLib/FatFormatter.cpp:86-107 | writes two identical fresh tables and zeros behind them, byte by byte, and touches no other sector |
| FatFormatter.Formatter.Format | lib/SdFat/src/FatLib/FatFormatter.cpp:50-84 | succeeds exactly for devices of 12289 to 4194303 sectors, and of 4209984 to 2^32 - 2048; which cluster size, which partition type, which boot sector fields, and the backup of the boot sector at the sixth sector |
| FatFormatter.Describes16 | lib/SdFat/src/FatLib/FatFormatter.cpp:134-171 | the FAT16 layout in numbers: the first multiple of 128 sectors with room in front of it, the sizes that follow from it, and the fields of the boot sector |
| FatFormatter.Describes32 | lib/SdFat/src/FatLib/FatFormatter.cpp:185-236 | the same for FAT32, with multiples of 8192 |
| FatFormatter.FreshTableWellFormed | lib/SdFat/src/FatLib/FatFormatter.cpp:98-106 | a fresh table, read back as a mounted volume reads it, is well formed and empty but for the FAT32 root |
| FatFormatter.EntryReads | lib/SdFat/src/FatLib/FatPartition.cpp:157-221 | any entry of a table is the number whose two or four bytes lie at its place, the low one first |
| FatFormatter.FindShift | lib/SdFat/src/FatLib/FatPartition.cpp:440-448 | accepts exactly the powers of two up to 128, and takes 0 for 256 |
| FatFormatter.MountRecoversLayout | lib/SdFat/src/FatLib/FatPartition.cpp:449-492 | mounting recovers the type, the cluster count, the table start and the data start of every sound layout |
| FatFormatter.Mount | lib/SdFat/src/FatLib/FatPartition.cpp:393-501 | refuses exactly bad partition entries, missing boot sectors and cluster sizes that are no powers of two, and otherwise reads the volume off the boot sector; where nothing wraps around, the starts, the last cluster and the type, which is 16 below 65525 clusters and 32 from there on |
| FatFormatter.MountMeans | lib/SdFat/src/FatLib/FatPartition.cpp:449-492 | what a mounted volume is, in numbers, for every boot sector whose regions fit |
| FatFormatter.MountsClusterSizeZero | lib/SdFat/src/FatLib/FatPartition.cpp:437-448 | a boot sector that stores no sectors per cluster mounts, with clusters of 256 |
| PartitionTable.Select | lib/SdFat/src/FatLib/FatPartition.cpp:407-427 | a used partition with a boot flag of 0 or 0x80 is chosen, and its first sector; or the given sector when there is no partition table |
| FatFormatter.Formatter.FormatAndMount | lib/SdFat/src/FatLib/FatPartition.cpp:393-501 | a formatted device mounts as a consistent, empty volume |
| ExFatFormatter.Formatter.FindExponent | lib/SdFat/src/ExFatLib/ExFatFormatter.cpp:85-86 | finds the least power of two not below the size, also when the 32-bit counter wraps to zero |
| ExFatFormatter.LayoutIsSound | lib/SdFat/src/ExFatLib/ExFatFormatter.cpp:87-95 | for every size from 0x100000 sectors on: the table holds every entry, the bitmap fits one cluster, the volume ends inside the device |
| ExFatFormatter.Formatter.WriteTables | lib/SdFat/src/ExFatLib/ExFatFormatter.cpp:200-243 | the first table and bitmap are written; the bitmap always fits |
| ExFatFormatter.Formatter.Format | lib/SdFat/src/ExFatLib/ExFatFormatter.cpp:51-293 | succeeds exactly from 0x100000 sectors on, and leaves the partition entry, the boot record and its backup, the allocation table, the bitmap, the up-case table and the root directory in place; every number of the layout and of the boot record |
| ExFatFormatter.LayoutDescribed | lib/SdFat/src/ExFatLib/ExFatFormatter.cpp:85-125 | the layout in numbers: table size, cluster size and the starts of the regions for each range of device sizes |
| ExFatFormatter.BytesOfBitmap | lib/SdFat/src/ExFatLib/ExFatPartition.cpp:30-76 | a byte of the bitmap is the sum of its eight bits, the lowest one first |
| ExFatFormatter.Formatter.WriteUpcase | lib/SdFat/src/ExFatLib/ExFatFormatter.cpp:244-253 | the up-case table always fits its cluster, and the tables before it stay |
| ExFatFormatter.Formatter.WriteRoot | lib/SdFat/src/ExFatLib/ExFatFormatter.cpp:254-286 | the root directory names the bitmap and the up-case table, and what was written before it stays |
| ExFatFormatter.RootEntries | lib/SdFat/src/ExFatLib/ExFatFormatter.cpp:254-286 | the label, the entry of the bitmap and that of the up-case table, with its checksum, read back from the bytes of the root directory, and the rest is zero |
| ExFatFormatter.MountRecoversLayout | lib/SdFat/src/ExFatLib/ExFatPartition.cpp:299-318 | mounting recovers the table start, the heap start, the cluster count and the cluster size of every sound layout |
| ExFatFormatter.Mount | lib/SdFat/src/ExFatLib/ExFatPartition.cpp:268-326 | refuses exactly bad partition entries and boot sectors, and otherwise reads the volume off the boot sector; the starts as numbers where nothing wraps around |
| ExFatFormatter.FreshIsWellFormed | lib/SdFat/src/ExFatLib/ExFatFormatter.cpp:205-243 | a fresh volume has exactly the bitmap, the up-case table and the root allocated |
| ExFatFormatter.EntryReads | lib/SdFat/src/ExFatLib/ExFatPartition.cpp:166-187 | any entry of the table is the number whose four bytes lie at its place, the low one first |
| ExFatFormatter.Formatter.FormatAndMount | lib/SdFat/src/ExFatLib/ExFatPartition.cpp:268-326 | a formatted device mounts, from what its boot sector says, as a consistent volume whose search starts at its first free cluster |
| ExFatFormatter.Formatter.CheckUpcase | lib/SdFat/src/ExFatLib/ExFatDbg.cpp:291-357 | finds the up-case table through the root directory and reports exactly the units on which it disagrees with the case map |
| ExFatFormatter.Formatter.FormatAndCheck | lib/SdFat/src/ExFatLib/ExFatDbg.cpp:291-357 | formatting, mounting and checking: the table is found, and the check is silent for every map that can be coded |
| UpcaseTable.RoundTrip | lib/SdFat/src/ExFatLib/ExFatFormatter.cpp:321-367 | decoding the coded table gives the case map exactly when 0xFFFF is no other unit's upper case, is not lost at the end of a short run, and no run is longer than 65534 |
| UpcaseTable.MapsThatAreLost | lib/SdFat/src/ExFatLib/ExFatFormatter.cpp:321-367 | three maps that do not come back, one for each reason; a fourth, one place off the last of them, does |
| UpcaseTable.EncodedFrom | lib/SdFat/src/ExFatLib/ExFatFormatter.cpp:321-367 | what is written from any place on: a run of 512 or more unchanged units as 0xFFFF and its length, a shorter one unit by unit |
| UpcaseTable.UnitsOfBytes | lib/SdFat/src/ExFatLib/ExFatFormatter.cpp:317-319 | the units come back from their bytes, the low one first |
| UpcaseTable.SumTurns | lib/SdFat/src/common/FsStructs.h:303-305 | the checksum turns right by one bit of 32 and adds the next byte |
| UpcaseTable.EncodedLength | lib/SdFat/src/ExFatLib/ExFatFormatter.cpp:250-253 | the table is never longer than two bytes for each code unit, so it fits its cluster |
| UpcaseTable.Writer.WriteByte | lib/SdFat/src/ExFatLib/ExFatFormatter.cpp:306-315 | full sectors go to the device, the rest stays in the buffer, and the checksum follows |
| UpcaseTable.Writer.Sync | lib/SdFat/src/ExFatLib/ExFatFormatter.cpp:295-304 | the last, partly filled sector is padded with zeros and written |
| UpcaseTable.Writer.Write | lib/SdFat/src/ExFatLib/ExFatFormatter.cpp:321-367 | the device holds exactly the coded table, with its size and checksum |
| UpcaseTable.Check | lib/SdFat/src/ExFatLib/ExFatDbg.cpp:316-357 | reports exactly the units on which the stored table disagrees with the case map |
| UpcaseTable.SilentIffRight | lib/SdFat/src/ExFatLib/ExFatDbg.cpp:316-357 | the check is silent exactly when every decoded value is right |
| UpcaseTable.ReportsAreWrong | lib/SdFat/src/ExFatLib/ExFatDbg.cpp:316-357 | the reports about any table are the list of the values it decodes to that are wrong, in order, each with its unit and what the map has |
| UpcaseTable.SilentTableIsMap | lib/SdFat/src/ExFatLib/ExFatDbg.cpp:316-357 | a silent check over all units, of any table, proves the table |
| UpcaseTable.WriteThenCheck | lib/SdFat/src/ExFatLib/ExFatDbg.cpp:291-358 | what the formatter wrote passes the check, for every map that can be coded |
| LongNames.PutThenGet | lib/SdFat/src/FatLib/FatFileLFN.cpp:46-54 | each of the 13 places of an entry keeps its own character |
| LongNames.PieceBytes | lib/SdFat/src/FatLib/FatFileLFN.cpp:95-131 | every byte of a piece: its number with bit 6 in the last one, its attribute and checksum, and the two bytes of each of the 13 places |
| LongNames.Directory.CreateLfn | lib/SdFat/src/FatLib/FatFileLFN.cpp:95-131 | the entries in front of the file hold the name, padded by one zero and fillers, and no other entry changes |
| LongNames.Directory.CmpName | lib/SdFat/src/FatLib/FatFileLFN.cpp:56-93 | compares stored characters with a name, entry by entry |
| LongNames.CompareIffSame | lib/SdFat/src/FatLib/FatFileLFN.cpp:56-93 | against a name that needs as many entries, the comparison is equality without regard to ASCII case, with or without a terminator |
| LongNames.MatchesMeans | lib/SdFat/src/FatLib/FatFileLFN.cpp:56-93 | what the comparison finds of any stored characters: each has seven bits and is the character of the name, apart from the case of A to Z, and behind the name there is a zero if there is room for one |
| LongNames.SameUpToCase | lib/SdFat/src/FatLib/FatFileLFN.cpp:37 | the comparison ignores the case of A to Z and nothing else |
| LongNames.Directory.GetName7 | lib/SdFat/src/FatLib/FatName.cpp:52-97 | gives the stored name up to its terminator exactly when it fits, or is empty, and every entry that it reaches is a long entry with the right number |
| LongNames.ShownMeans | lib/SdFat/src/FatLib/FatName.cpp:52-97 | what any stored characters read back as: those in front of the first zero, with a question mark for each from 0x7F on |
| LongNames.NameRoundTrip | lib/SdFat/src/FatLib/FatName.cpp:52-97 | a created name reads back as itself exactly when it has no character 0x7F, and fits exactly the buffers longer than it |
| LongNames.NameThatIsLost | lib/SdFat/src/FatLib/FatName.cpp:52-97 | the name 0x7F reads back as a question mark |
| LongNames.CreateThenRead | lib/SdFat/src/FatLib/FatFileLFN.cpp:95-131 | creating and reading back gives the name, with 0x7F shown as a question mark |
| DirectorySearch.Find | lib/SdFat/src/FatLib/FatFileLFN.cpp:296-362 | the pass over the directory gives the search's result, with the note that the short name is taken; when the file is missing, the lowest run of as many free or deleted slots as are needed, up to the first free slot, or else all that are free at the end of the pass |
| DirectorySearch.NoteRoom | lib/SdFat/src/FatLib/FatFileLFN.cpp:307-321 | one slot more keeps the note of the lowest run, or of all the room in front |
| DirectorySearch.ChecksumTurns | lib/SdFat/src/FatLib/FatFile.h:1033-1039 | the checksum of a short name turns right by one bit of eight and adds the next byte |
| DirectorySearch.FirstMatchIs | lib/SdFat/src/FatLib/FatFileLFN.cpp:346-357 | nothing is found exactly when no file matches, and then the note says whether some file has the short name |
| DirectorySearch.SearchFindsFirst | lib/SdFat/src/FatLib/FatFileLFN.cpp:292-362 | in every directory of files and gaps the first file is found whose long name, ignoring case, or whose short name is the wanted one; it is never called corrupt |
| DirectorySearch.ReadOn | lib/SdFat/src/FatLib/FatFileLFN.cpp:325-343 | a long name of the right number of pieces is recognised exactly when it is the same name |
| DirectorySearch.PassOver | lib/SdFat/src/FatLib/FatFileLFN.cpp:327-332 | a long name of another number of pieces is passed over |
| DirectorySearch.StepLong | lib/SdFat/src/FatLib/FatFileLFN.cpp:325-343 | one long entry advances or resets the recognition |
| DirectorySearch.ShortBehindPieces | lib/SdFat/src/FatLib/FatFileLFN.cpp:325-357 | in any directory: pieces of a name that are not all there, or carry another checksum than the short entry behind them, make it corrupt; a whole name that is the wanted one is found; behind another one the short entry counts for itself |
| Crc32.Compute | lib/StreamProtocol/StreamProtocol.cpp:7-17 | computes the checksum of the first bytes of a buffer |
| Crc32.StepInjective | lib/StreamProtocol/StreamProtocol.cpp:12-13 | a shift of the register can be undone |
| Crc32.RegisterIsFeed | lib/StreamProtocol/StreamProtocol.cpp:7-17 | the checksum by bytes is the checksum by bits |
| Crc32.FlipMovesToRegister | lib/StreamProtocol/StreamProtocol.cpp:7-17 | flipping bits of the message is flipping bits of the register before it |
| Crc32.BurstChangesRegister | lib/StreamProtocol/StreamProtocol.cpp:7-17 | any burst of up to 32 flipped bits, anywhere in a message of any length, changes the register |
| Crc32.ChecksumIffResidue | lib/StreamProtocol/StreamProtocol.cpp:144-148 | a trailer is the right checksum exactly when the register over message and trailer shows a fixed residue |
| CrcDivision.RegisterIsRemainder | lib/StreamProtocol/StreamProtocol.cpp:7-17 | the register after any message is what long division leaves of the message times x^32, by the polynomial with the exponents 32, 26, 23, 22, 16, 12, 11, 10, 8, 7, 5, 4, 2, 1 and 0 |
| CrcDivision.ChecksumIsRemainder | lib/StreamProtocol/StreamProtocol.cpp:7-17 | the checksum is the complement of the remainder of the message with its first 32 bits complemented |
| Crc32.FourBytesAreABurst | lib/StreamProtocol/StreamProtocol.cpp:144-148 | messages that differ inside four consecutive bytes differ by a burst |
| StreamProtocol.NatRoundTrip | lib/StreamProtocol/StreamProtocol.cpp:61-70 | a 45-bit length survives its passage through the header word |
| StreamProtocol.UnpackPacked | lib/StreamProtocol/StreamProtocol.cpp:66-70 | every header field comes back out of its bits |
| StreamProtocol.HeaderRoundTrip | lib/StreamProtocol/StreamProtocol.cpp:72-74 | the eight header bytes give back the header word |
| StreamProtocol.HeaderFields | lib/StreamProtocol/StreamProtocol.cpp:114-122 | the fields of the header as sums of its eight bytes: version b0 mod 16, length b0 div 16 + 16 b1 + ... + 2^44 (b6 mod 2), fragment, type, and user b6 div 64 + 4 b7 |
| StreamProtocol.EncodedHeader | lib/StreamProtocol/StreamProtocol.cpp:61-75 | the first eight bytes of every packet that is written are those of its fields |
| StreamProtocol.ParsedHeader | lib/StreamProtocol/StreamProtocol.cpp:112-122 | the fields of every packet that is accepted are those of its first eight bytes |
| StreamProtocol.EncodePacket | lib/StreamProtocol/StreamProtocol.cpp:19-99 | writes exactly the packet into the caller's buffer and leaves the rest: version, length, fragment, type and user as numbers in the first eight bytes, the payload, and the checksum, low byte first; otherwise writes nothing, and says whether an argument is out of range or the buffer too small |
| StreamProtocol.ParsePacket | lib/StreamProtocol/StreamProtocol.cpp:101-160 | parses the packet at the front of a buffer; too short exactly when fewer than 12 bytes, or fewer than the length says, are there, or it says less than 12; corrupt exactly when the last four bytes are not the checksum; the fields and the payload are where the first eight bytes say |
| StreamProtocol.ParseMeans | lib/StreamProtocol/StreamProtocol.cpp:101-148 | the three outcomes of parsing any bytes, by the numbers in them |
| StreamProtocol.ParseEncoded | lib/StreamProtocol/StreamProtocol.cpp:101-160 | parsing what was encoded gives back every field and the payload, whatever bytes follow |
| StreamProtocol.ParseUnfinished | lib/StreamProtocol/StreamProtocol.cpp:108-135 | every proper beginning of a packet is too short, never corrupt |
| StreamProtocol.ParsedIsEncoded | lib/StreamProtocol/StreamProtocol.cpp:101-160 | the parser accepts nothing but what the encoder writes, up to the version number |
| StreamProtocol.BurstIsDetected | lib/StreamProtocol/StreamProtocol.cpp:137-148 | an accepted packet with any burst of up to 32 flipped bits, in header, payload or trailer, is refused as corrupt while its length field stays |
| StreamProtocol.AlterationIsDetected | lib/StreamProtocol/StreamProtocol.cpp:137-148 | the same for any alteration inside four consecutive bytes |
| Hal.PacketFillsBuffer | src/HAL.cpp:125-152 | whatever bytes arrive, a packet is recognised at its last byte, so nothing is ever moved down and no payload is cut |
| Hal.Hal.ProcessSerial | src/HAL.cpp:115-161 | takes bytes up to the end of one packet or of the queue, with both resets |
| Hal.Hal.Consume | src/HAL.cpp:143-150 | drops a packet from the front of the raw buffer and keeps what follows |
| Hal.Hal.Read | src/HAL.cpp:165-181 | gives the next byte of the current packet, or -1 |
| Hal.Hal.ReadPacket | src/HAL.cpp:184-202 | gives the whole current packet, cut to the caller's buffer, or -1 |
| Hal.PollDelivers | src/HAL.cpp:115-161 | a poll delivers the next packet exactly when all its bytes have arrived |
| Hal.SpoiledIsDropped | src/HAL.cpp:125-158 | a packet that arrives corrupt is dropped, wherever its bytes are when the poll comes, and the one behind it is delivered |
| Hal.BurstSpoils | src/HAL.cpp:125-158 | any burst of up to 32 flipped bits that leaves the length field alone makes such a packet |
| Hal.Delivery | src/HAL.cpp:184-202 | for every list of packets that fit and every interleaving of arrivals and polls, the polls answer as on a perfect link |
| Hal.DeliveredInOrder | src/HAL.cpp:184-202 | the packets come out whole, unchanged, without repetition and in order |
| Hal.AllDelivered | src/HAL.cpp:184-202 | once all bytes have arrived, one poll for each packet delivers the rest |
| Hal.ReadInOrder | src/HAL.cpp:165-181 | read one byte at a time the payloads come out in order, each byte once |
| Kernel.SetBitsAreOwned | src/Kernel.cpp:79-86 | a heap bit is set exactly when its cell lies in a block, and then in exactly one |
| Kernel.Kernel.constructor | src/Kernel.cpp:17-52 | task 0 runs with the first 128 cells as its allocation and its segment; all other slots are free |
| Kernel.Kernel.FindRun | src/Kernel.cpp:100-131 | finds the lowest run of the wanted length, or there is none |
| Kernel.Kernel.Malloc | src/Kernel.cpp:97-137 | takes the lowest fitting run and the first free table place, and fails only for want of a positive size, a run or a place |
| Kernel.Kernel.Free | src/Kernel.cpp:140-153 | frees exactly the allocation that starts at the pointer, if there is one |
| Kernel.Kernel.LoadTask | src/Kernel.cpp:155-285 | loads into the lowest fitting run as many cells as the third and fourth byte of the header ask for, with their sign; every failure changes nothing |
| Kernel.Kernel.Exec | src/syscall/SysExec.h:45-72 | uses the lowest free slot from 1 on; the parent waits exactly if asked to |
| Kernel.Kernel.FreeTable | src/Kernel.cpp:337-347 | releases exactly the allocations in the table |
| Kernel.Kernel.Terminate | src/Kernel.cpp:334-371 | releases exactly the cells of the task, frees its slot and wakes whoever waited for it |
| Kernel.Kernel.Run | src/Kernel.cpp:288-310 | every run of allocations, executions and endings: each does exactly what it is to do, and keeps ownership and waits in order |
| Kernel.Kernel.Perform | src/Kernel.cpp:97-137 | one operation: an allocation takes the lowest fitting run and the first free place, a start takes the lowest free slot and the lowest fitting run, an end releases exactly the cells of the task and wakes who waited for it, and an illegal one does nothing |
| Kernel.AllocateKeepsHeap | src/Kernel.cpp:118-129 | a free run given to an unused block keeps bits, blocks and owners in agreement |
| Kernel.ReleaseKeepsHeap | src/Kernel.cpp:146-150 | releasing a block keeps bits, blocks and owners in agreement |
| Kernel.PhysAddrIsOwn | src/Kernel.cpp:378-384 | an address reaches the task's own segment exactly when it is below its size or already the heap-wide address of one of its cells |
| Kernel.NoWaitCycle | src/Task.h:48-75 | waits never form a cycle |
| Kernel.EndOfWaits | src/Task.h:48-75 | following the waits ends at a task that can run |
| Kernel.SomeTaskRuns | src/Kernel.cpp:288-310 | some task can always run |
| Kernel.BirthKeepsWaits | src/syscall/SysExec.h:62-66 | a new child, waited for or not, keeps the waits acyclic |
| Kernel.EndKeepsWaits | src/Kernel.cpp:360-368 | ending a task leaves nobody waiting for it |
| VirtualMachine.FetchInside | src/VirtualMachine.cpp:38-44 | inside the code a fetch gives the byte at the program counter and moves one on |
| VirtualMachine.JumpReaches | src/Kernel.cpp:328-332 | a jump reaches its target exactly when it is a position of the file, or where the file stood anyway |
| VirtualMachine.EndOfCode | src/Kernel.cpp:319-326 | behind the code the machine stops exactly when the window is used up |
| VirtualMachine.StaleByteIsExecuted | src/VirtualMachine.cpp:38-44 | a program of one READ, loaded over a window left by other code, prints: its second step executes a stale byte |
| VirtualMachine.Machine.constructor | src/Kernel.cpp:269-277 | a loaded task stands at the first byte of its code with an empty stack, a window of 32 bytes and room for 64 values |
| VirtualMachine.Machine.RefillBuffer | src/Kernel.cpp:319-326 | reads the next window over the old one, or ends the task |
| VirtualMachine.Machine.Jump | src/Kernel.cpp:328-332 | moves the file behind the header and discards the window |
| VirtualMachine.Machine.FetchByte | src/VirtualMachine.cpp:38-44 | the next byte of the stream; inside the code it is the byte at the program counter |
| VirtualMachine.Machine.FetchInt | src/VirtualMachine.cpp:47-51 | a two-byte operand, the low byte first and with its sign, wherever it lies relative to the windows; cut off by the end of the stream it ends the task |
| VirtualMachine.Machine.ReadText | src/VirtualMachine.cpp:146-155 | copies text from the heap up to a zero, the heap's end or 127 characters |
| VirtualMachine.Machine.Disturb | src/VirtualMachine.cpp:164-169 | a system call, or another task, leaves any heap and any stack behind, and may end the task |
| VirtualMachine.Machine.StepBinary | src/VirtualMachine.cpp:70-90 | addition, subtraction and comparison in 16 bits |
| VirtualMachine.Machine.StepMemory | src/VirtualMachine.cpp:194-228 | loads and stores inside the heap, and ends the task outside |
| VirtualMachine.Machine.RunStep | src/VirtualMachine.cpp:56-230 | in every state, inside the program or behind it, one instruction of the stream; inside it does what it does in flat memory, and what the instruction of that number is to do |
| VirtualMachine.StepObeys | src/VirtualMachine.cpp:56-230 | the instruction set by its numbers: what each instruction takes, leaves, prints and changes, and when it ends the task |
| VirtualMachine.TextIsText | src/VirtualMachine.cpp:141-160 | the text printed is the low bytes of the heap up to the first one that is zero, the end of the heap, or 127 of them |
| VirtualMachine.StoredIsLoaded | src/VirtualMachine.cpp:194-228 | what is stored at an address of the segment is loaded from it, and exactly one cell of the heap has changed |
| VirtualMachine.Calculate | src/VirtualMachine.cpp:64-90 | a program that pushes any two numbers and adds, subtracts or compares them leaves their sum or difference in 16 bits, or 1 exactly when they are equal |
| VirtualMachine.Machine.Run | src/VirtualMachine.cpp:56-230 | any run through windows and jumps that stays inside the code is a run of the flat program, whatever others do to the heap and the stack between its steps |

## Left out

- Sectors of any other size than 512 bytes.
- ExFatFile.File.PreAllocate: assumes the clusters needed are fewer than 2^32, as the 32-bit count of the source does.
- FatFile.File.Open: takes a directory entry whose size matches the length of its chain; repairing damaged volumes is not modelled.
- FatFile.Perform: after a write to a preallocated file that was not sought since, nothing is said of the bytes behind the new position, because the source does not read what it overwrites.
- Directories as files of their own: growing and reading them, root directories and FAT12 volumes are not modelled; long names and the lookup are modelled over the slots of a directory.
- makeSFN, makeUniqueSfn and the short names they build are parameters; the character set of names is the seven-bit one of the default configuration.
- I/O errors and the states they leave behind: every sector can be read and written.
- The sector cache and the mirroring of the second table: a transparent store is assumed, and the formatter's two tables are written explicitly.
- Mounted volumes hold the device's data sectors and the decoded table as values; the sectors of a table are modelled where they are written, in the formatters.
- Dirty flags, time stamps, attributes, boot code, CHS fields and boot sector bytes: partition entries and boot sectors are records.
- The exFAT boot region's checksum and its extended boot sectors.
- FatFormatter.Mount: a device without a boot sector record at the wanted place is refused.
- UpcaseTable.CaseMap: the case map is any map of code units; the tables of `upcase.cpp` are not evaluated.
- UpcaseTable.Check: unit numbers wrap at 16 bits, as they do on the 16-bit target; the line printed for every run is not modelled.
- Sending packets (`send_packet`), the host side and null pointers; two buffers given to one call do not overlap.
- StreamProtocol.BurstIsDetected: nothing is claimed when the length field is altered, since then other bytes are taken for the checksum.
- Kernel.Kernel.LoadTask: path search, arguments and the task's strings are not modelled; whether and with which header a file was found is a parameter.
- Kernel.Kernel.Terminate: for the tasks that run programs; task 0 never ends.
- Kernel.Kernel.Exec: the arguments popped from the caller's stack are parameters.
- The `ls` call, which frees a slot when the directory cannot be opened again, and the other calls that move strings.
- VirtualMachine.Machine.RunStep: what a system call does is any change of the heap, the stack and the state of the task; the bytes typed and the addresses given by the allocator are the kernel's answers, which are parameters; sums that leave 16 bits wrap. A call that pops an empty stack is not modelled.
- The scheduler's order and sleeping times: any task that can run may be the next.
- Interrupts, pins, the SD and SPI drivers, and the ring buffer of the SD library.
