# Pintos kernel models

This project models the parts of the Pintos teaching kernel that carry its hard invariants, in Dafny 4.11, and
proves what they keep: the doubly linked list with its natural merge sort, the 64-bit division routines, heap sort
and binary search on raw bytes, the bitmap, inode data transfer, the file system's sector ownership, the chained
hash table, the sub-page allocator, the second-chance clock and demand paging, threads with semaphores, locks and
condition variables, the create/exit/wait protocol, the fixed-point feedback-queue arithmetic, ustar headers, and argument passing.

Code that updates state in place is modelled by classes, arrays and loops, each method tied to a specification
function or stating its property outright. State machines come with an invariant, a lemma that every step keeps it,
and a `Run` method over an arbitrary sequence of steps that returns the states passed through: the first and the
last are the object's, each follows from the one before by its step, and each is safe; lemmas about such traces
state what holds over whole runs. Interrupts-off sections are single steps. What the kernel gets from elsewhere (a
page from `palloc`, whether `malloc` or a disk write succeeds, bytes left in freed memory) is a parameter, so the
results hold for every outcome of the allocations and writes that the model names.

| file | models |
|---|---|
| `Basics.dfy` | bytes, optional values, lists without repetition |
| `KernelList.dfy` | `lib/kernel/list.c` on real prev/next nodes |
| `Arithmetic64.dfy` | `lib/arithmetic.c` |
| `HeapSort.dfy` | `sort` and `binary_search` of `lib/stdlib.c` |
| `BitOps.dfy`, `Bitmap.dfy` | `lib/kernel/bitmap.c` on 32-bit words |
| `InodeIO.dfy` | `inode_read_at`, `inode_write_at` |
| `FileSystem.dfy` | free map, inodes, directory, `filesys.c` |
| `DenyWrite.dfy` | the handles of `file.c` on one inode, denying and allowing writes |
| `HashTable.dfy` | `lib/kernel/hash.c` |
| `Malloc.dfy` | `threads/malloc.c` |
| `ClockFrames.dfy`, `Paging.dfy`, `StoreRaces.dfy` | `vm/frame.c`, `vm/swap.c`, `vm/page.c`, the fault path |
| `Scheduler.dfy` | `threads/thread.c`, `threads/synch.c` without the feedback queue |
| `Monitor.dfy` | the condition variables of `threads/synch.c` |
| `ExitWait.dfy` | `thread_exit`, `process_wait`, `syscall_exec` |
| `Mlfqs.dfy` | `lib/kernel/arith_fp.c`, `thread_tick` with the feedback queue |
| `Ustar.dfy` | `lib/ustar.c`, the octal conversion of `lib/stdio.c` |
| `ArgStack.dfy` | `strtok_r`, `parse_filename`, `construct_ESP` |

Where the code and its documentation differ, the model follows the code. Properties that do not hold of the code
are stated with the exact condition under which they do:

- `sdiv64` is truncating division except for the one pair whose quotient does not fit, and `umod64`/`smod64` are
  the remainder if and only if it fits their 32-bit result (`Arithmetic64.Sdiv64`, `Umod64`, `Smod64`).
- Deleting the page under the clock hand makes the clock pass over the page after it for a full round, unless the
  deleted page was last (`ClockFrames.Clock.Delete`).
- A page written to while it is evicted reads back right if and only if no byte is left changed by stores after its
  sector's copy or, for a clean file page, after its dirty bit was read (`Paging.Vm.UnmapAmid`,
  `StoreRaces.LateStoreLost`).
- The comment on `process_wait` promises -1 for a child killed by an exception. A wait for one returns -1 if and only
  if the exception was a page fault, which ends in `syscall_exit (-1)`; the others end in `kill`'s bare `thread_exit`,
  and wait returns 0 (`ExitWait.KilledReturns`, with a run in `KilledChild`).
- A directory whose entries cannot be read for want of a bounce buffer can get a name twice or lose an entry that is
  in use; exactly when is stated by `FileSystemSteps.AddKeepsNames`, `AddOverwrites` and, over whole runs,
  `TraceNames`, with a run from a new file system in `FileSystems.BounceRun`. Sector ownership survives these failures.
- A regular file with a negative size gets a header that cannot be read back (`UstarHeaders.RoundTrip`).
- The feedback-queue arithmetic can overflow. With at most n threads ready or running at each second, n at least 1, and
  niceness between -m and m, no run overflows if and only if `MlfqsBounds.Room` holds for n, m and 2^31 - 1: the decay
  factor at the highest load such runs reach leaves room for the second's 100 ticks and m
  (`Mlfqs.RunNeverStops`, `Mlfqs.OverflowingRun`). For m = 20 that is n ≤ 586, for n = 1 it is m ≤ 43804
  (`MlfqsBounds.RoomFor20`, `RoomForOne`).
- `thread_get_recent_cpu` and `thread_get_load_avg` overflow if and only if the value exceeds 21474754 in size, about
  1310.7 (`MlfqsBounds.ReportExact`). For m = 20 every recent_cpu can be reported on every run if and only if n ≤ 4
  (`Mlfqs.RunReports`, `Mlfqs.UnreportableRun`), and every load_avg up to its limit if and only if n ≤ 1315
  (`MlfqsBounds.LoadReports`).
- `thread_set_nice` stores any niceness. Its conversion fits 32 bits if and only if it is between -131072 and 131071,
  that of its double if and only if it is between -65536 and 65535, and the priority fits for every recent_cpu if and
  only if it is between -49120 and 49183 (`MlfqsBounds.NiceExact`, `PriorityExact`, with 65536 in `NiceTooLarge`).

## Model

| member | source | states |
|---|---|---|
| `KernelList.Insert` | pintos/src/lib/kernel/list.c:168-178 | the node is linked in before the given one, every other link of the list staying mutually inverse |
| `KernelList.Remove` | pintos/src/lib/kernel/list.c:248-255 | the list closes over the removed node, which keeps its own pointers; the node after it is returned |
| `KernelList.Splice` | pintos/src/lib/kernel/list.c:183-204 | a range moves between two well-formed lists, or within one, and both stay well formed with exactly that range moved |
| `KernelList.Reverse` | pintos/src/lib/kernel/list.c:325-337 | swapping all links in place yields the reverse sequence of the same nodes, well linked between the sentinels |
| `KernelList.FindEndOfRun` | pintos/src/lib/kernel/list.c:357-372 | the node found ends a maximal run without a descent |
| `KernelList.InplaceMerge` | pintos/src/lib/kernel/list.c:379-399 | two adjacent sorted runs become one, stably, with nodes outside them untouched and the list well linked throughout |
| `KernelList.MergeNextRuns` | pintos/src/lib/kernel/list.c:421-434 | one turn of a pass merges the next two natural runs, or finds that a last odd run remains |
| `KernelList.MergePass` | pintos/src/lib/kernel/list.c:420-435 | a pass over r natural runs counts and leaves at most half of them, rounded up |
| `KernelList.MergePasses` | pintos/src/lib/kernel/list.c:413-437 | repeated passes end, with a sorted, stable rearrangement |
| `KernelList.Sort` | pintos/src/lib/kernel/list.c:404-440 | for every strict weak order: the list is valid, holds the same nodes, is sorted, and equal elements keep their order |
| `ListOrder.StableSortUnique` | pintos/src/lib/kernel/list.c:404-440 | at most one sequence is a sorted stable permutation of a list, so the sort's result is determined |
| `ListOrder.MergeTakeSecond` | pintos/src/lib/kernel/list.c:391-398 | moving a smaller element of the second run to the front of the rest keeps the merge's invariant |
| `ListOrder.PassStep` | pintos/src/lib/kernel/list.c:421-434 | merging two runs advances a pass by one output run |
| `ListOrder.PassLast` | pintos/src/lib/kernel/list.c:427-430 | a lone last run ends a pass with an odd number of runs halved upward |
| `KernelList.InsertOrdered` | pintos/src/lib/kernel/list.c:445-459 | the element goes after everything it is not less than and before the first it is less than, and a sorted list stays sorted |
| `ListOrder.InsertKeepsSorted` | pintos/src/lib/kernel/list.c:445-459 | inserting at that place keeps any list sorted under any strict weak order |
| `Arithmetic64.Nlz` | pintos/src/lib/arithmetic.c:41-73 | shifting a nonzero word left by the result brings its highest one bit to the top |
| `Arithmetic64.SplitDivision` | pintos/src/lib/arithmetic.c:80-113 | dividing the two halves of a 64-bit number by a 32-bit one gives the quotient, and the second `divl` cannot trap |
| `Arithmetic64.DivideBySmall` | pintos/src/lib/arithmetic.c:80-113 | the two-step path returns the floor |
| `Arithmetic64.GapIsSmall` | pintos/src/lib/arithmetic.c:114-126 | dropping the divisor's low bits changes it too little to move the quotient by more than one |
| `Arithmetic64.EstimateIsClose` | pintos/src/lib/arithmetic.c:114-126 | such a truncated divisor estimates the quotient to within one, from above |
| `Arithmetic64.NoTrap` | pintos/src/lib/arithmetic.c:114-126 | for a divisor of 32 bits or more, the normalised `divl` quotient fits 32 bits and the shifted estimate is the quotient or one more |
| `Arithmetic64.Correction` | pintos/src/lib/arithmetic.c:121-126 | with 64-bit wrap-around, the final comparison turns that estimate into the exact quotient |
| `Arithmetic64.Udiv64` | pintos/src/lib/arithmetic.c:77-127 | the floor of n / d for every 64-bit n and nonzero d |
| `Arithmetic64.Umod64` | pintos/src/lib/arithmetic.c:131-135 | the remainder modulo 2^32; the remainder itself if and only if it fits |
| `Arithmetic64.Sdiv64` | pintos/src/lib/arithmetic.c:139-146 | truncating division, if and only if the pair is not INT64_MIN and -1 |
| `Arithmetic64.Smod64` | pintos/src/lib/arithmetic.c:150-154 | the remainder with the dividend's sign, if and only if it fits a signed word |
| `HeapSort.SwapBytes` | pintos/src/lib/stdlib.c:66-79 | two disjoint byte ranges change places and nothing else changes |
| `HeapSort.DoSwap` | pintos/src/lib/stdlib.c:66-79 | on the sequence of elements the bytes encode, it swaps exactly two elements |
| `HeapSort.LargestOfThree` | pintos/src/lib/stdlib.c:103-112 | the index found is a largest among an element and its children |
| `HeapSort.SiftStep` | pintos/src/lib/stdlib.c:103-122 | one swap moves the single heap violation down a level |
| `HeapSort.Heapify` | pintos/src/lib/stdlib.c:96-123 | restores the heap from start on, rearranging only the first cnt elements |
| `HeapSort.ExtractRoot` | pintos/src/lib/stdlib.c:146-151 | swapping the root behind the heap and re-heapifying leaves everything in the tail no smaller than the heap |
| `HeapSort.Sort` | pintos/src/lib/stdlib.c:131-152 | for every total preorder the array ends sorted and is a permutation of its elements |
| `HeapSort.BinarySearch` | pintos/src/lib/stdlib.c:184-207 | on a sorted array it finds a matching element if and only if there is one |
| `Bitmaps.WordUpdate` | pintos/src/lib/kernel/bitmap.c:157-195 | the or, and-not and xor masks of mark, reset and flip change one bit of a word and no other |
| `Bitmaps.Bitmap.Set` | pintos/src/lib/kernel/bitmap.c:145-154 | on the sequence of booleans it stands for, exactly one changes |
| `Bitmaps.Bitmap.Flip` | pintos/src/lib/kernel/bitmap.c:185-195 | exactly one boolean is negated |
| `Bitmaps.Bitmap.Test` | pintos/src/lib/kernel/bitmap.c:198-204 | the boolean at an index |
| `Bitmaps.Bitmap.SetMultiple` | pintos/src/lib/kernel/bitmap.c:218-229 | exactly a range of booleans takes a value |
| `Bitmaps.Bitmap.Contains` | pintos/src/lib/kernel/bitmap.c:251-264 | false if and only if the whole range holds the other value |
| `Bitmaps.Bitmap.Scan` | pintos/src/lib/kernel/bitmap.c:296-311 | the first group of cnt equal bits at or after start, or none if there is none |
| `Bitmaps.Bitmap.ScanAndFlip` | pintos/src/lib/kernel/bitmap.c:320-327 | that group, flipped, with every other bit unchanged |
| `Bits.SetRangeUndone` | pintos/src/filesys/free-map.c:27-50 | setting a uniform range and setting it back restores the bitmap: what rollback and release rely on |
| `InodeIO.WriteChunk` | pintos/src/filesys/inode.c:284-308 | a whole-sector write or a read-modify-write stores exactly the given bytes of one sector |
| `InodeIO.WriteAt` | pintos/src/filesys/inode.c:257-318 | the count is clipped at end of file, 0 while writes are denied, and exactly those bytes of the device change |
| `InodeIO.ReadChunk` | pintos/src/filesys/inode.c:223-240 | the part of the file in one sector |
| `InodeIO.ReadAt` | pintos/src/filesys/inode.c:200-250 | the clipped count of bytes of the file arrive in the buffer, the rest of it unchanged |
| `InodeIO.WriteIsSliceUpdate` | pintos/src/filesys/inode.c:257-318 | as one byte sequence of fixed length, the file after a write is the old one with a slice replaced |
| `InodeIO.ReadBack` | pintos/src/filesys/inode.c:200-318 | reading a slice just written returns what was written |
| `InodeIO.WriteLeavesOthers` | pintos/src/filesys/inode.c:257-318 | every other extent, and the tail of a partial last sector, is unchanged |
| `FileSystemState.FreeIsUnused` | pintos/src/filesys/free-map.c:27-41 | a range the free map calls free belongs to no named or open inode |
| `FileSystemState.AllocateKeepsInv` | pintos/src/filesys/free-map.c:27-41 | marking a range keeps ownership disjoint and marked |
| `FileSystemState.ReleaseKeepsInv` | pintos/src/filesys/free-map.c:44-50 | releasing an unowned range keeps it |
| `FileSystemState.CreateKeepsInv` | pintos/src/filesys/filesys.c:45-59 | naming a new inode whose sectors are marked and unused keeps it, even over an entry that is in use |
| `FileSystemState.OpenKeepsInv` | pintos/src/filesys/inode.c:111-142 | opening a named inode keeps it |
| `FileSystemState.CloseKeepsInv` | pintos/src/filesys/inode.c:163-186 | closing keeps it, and after the last close of a removed inode its sectors are unused |
| `FileSystemState.FreedKeepsInv` | pintos/src/filesys/inode.c:163-186 | after the last close of a removed inode, releasing its own sector and its extent keeps it |
| `FileSystemState.EraseKeepsInv` | pintos/src/filesys/directory.c:184-216 | erasing a name while the inode is open keeps it |
| `FileSystemState.WritesAreIsolated` | pintos/src/filesys/inode.c:257-318 | in every reachable state a write to one inode changes no other inode's sector or data |
| `FileSystemSteps.AddKeepsNames` | pintos/src/filesys/directory.c:141-179 | with unique names, adding one keeps them unique if and only if no entry beyond the reach of the failing lookup, other than the slot written, has the name |
| `FileSystemSteps.AddOverwrites` | pintos/src/filesys/directory.c:159-175 | the slot written is in use if and only if the scan runs out of memory at an entry before the first free one |
| `FileSystemSteps.AddLoses` | pintos/src/filesys/directory.c:159-175 | an inode loses its only entry if and only if the slot written was in use |
| `FileSystemSteps.CreateThenOpen` | pintos/src/filesys/filesys.c:45-77 | while names are unique, a created name opens the new inode, which has the requested length |
| `FileSystemSteps.RemoveThenOpen` | pintos/src/filesys/filesys.c:66-91 | while names are unique, a removed name opens nothing |
| `FileSystemSteps.CreateEffect` | pintos/src/filesys/filesys.c:45-59 | filesys_create succeeds if and only if root handle, memory, free sectors, map writes, a free slot and a new name of 1 to 14 characters are there; then the slot names a new inode of that size on sectors that were free; when only the name fails, the extent stays marked |
| `FileSystemSteps.OpenEffect` | pintos/src/filesys/filesys.c:66-77 | filesys_open succeeds if and only if the root opens, the first readable entry with the name has an inode to be had and there is memory for the file; exactly that inode gains an opener |
| `FileSystemSteps.CloseEffect` | pintos/src/filesys/inode.c:163-186 | a close takes one opener away, the last one closes the inode, and exactly the sectors of a removed one become free then |
| `FileSystemSteps.RemoveEffect` | pintos/src/filesys/filesys.c:83-91 | filesys_remove succeeds if and only if the root opens, a readable entry has the name, the first one's inode is open or there is memory, and the entry can be written; exactly that entry goes |
| `FileSystemSteps.StepOpeners` | pintos/src/filesys/inode.c:111-186 | in any call an inode's openers change only by opening and closing it, and a removed inode cannot be opened |
| `FileSystemSteps.TraceOpeners` | pintos/src/filesys/inode.c:111-186 | over any run an inode's openers are those it had, plus the opens, less the closes |
| `FileSystemSteps.RemovedStaysOpen` | pintos/src/filesys/inode.c:163-194 | over any run an inode removed while open stays open with its sectors marked until it has been closed as often as it was open |
| `FileSystemSteps.LastCloseFrees` | pintos/src/filesys/inode.c:163-194 | the last of those closes frees all its sectors |
| `FileSystemSteps.OpenThenRemove` | pintos/src/filesys/filesys.c:66-91 | over any run a file opened by name and removed by that name without faults is removed, keeps its sectors marked through every close but the last, and has them free right after it |
| `FileSystemSteps.StepFrees` | pintos/src/filesys/filesys.c:45-91 | in any call a marked sector becomes free if and only if it belongs to an inode closed for the last time after its removal, or removed while nobody has it open |
| `FileSystemSteps.TraceFrees` | pintos/src/filesys/filesys.c:45-91 | over any run a sector becomes free only by such a call |
| `FileSystemSteps.StepNames` | pintos/src/filesys/filesys.c:45-91 | a call keeps names unique if and only if it is not a creation whose lookup failed to reach the same name |
| `FileSystemSteps.TraceNames` | pintos/src/filesys/filesys.c:45-91 | over any run that starts with unique names they stay unique if and only if there is no such call |
| `FileSystemSteps.StepLoses` | pintos/src/filesys/filesys.c:45-91 | a call takes away some inode's name if and only if it is a successful removal or a creation that overwrites an entry in use |
| `FileSystems.FileSystem.Format` | pintos/src/filesys/filesys.c:94-103 | the formatted device satisfies the invariant, with an empty root directory of 16 slots and exactly the first sectors in use |
| `FileSystems.FileSystem.FreeMapAllocate` | pintos/src/filesys/free-map.c:27-41 | the lowest free group is marked, exactly if there is one and the map can be written back; otherwise nothing changes |
| `FileSystems.FileSystem.FreeMapRelease` | pintos/src/filesys/free-map.c:44-50 | exactly the range becomes free; if nothing owned it, the invariant is kept |
| `FileSystems.FileSystem.InodeCreate` | pintos/src/filesys/inode.c:72-106 | succeeds if and only if memory, a free group and the map write are there; then the sector holds an inode with that group as its extent, and otherwise nothing has changed; on a sector no owned inode uses, the invariant is kept |
| `FileSystems.FileSystem.InodeOpen` | pintos/src/filesys/inode.c:111-142 | an open inode gains an opener, a closed one is opened once with what its sector reads as; fails exactly without memory for a closed one, changing nothing |
| `FileSystems.FileSystem.InodeClose` | pintos/src/filesys/inode.c:163-186 | the free map changes only at the last close of a removed inode, and then exactly its sectors become free |
| `FileSystems.FileSystem.Lookup` | pintos/src/filesys/directory.c:91-112 | the first slot in use with that name among the entries that can be read, or none if none of them has it |
| `FileSystems.FileSystem.ScanSlots` | pintos/src/filesys/directory.c:159-169 | the first slot that is free or cannot be read, or the end of the directory |
| `FileSystems.FileSystem.DirAdd` | pintos/src/filesys/directory.c:141-179 | succeeds if and only if the name is well formed, lookup does not meet it, the scan stops inside the directory and the entry can be written; exactly that slot is then the new entry |
| `FileSystems.FileSystem.Create` | pintos/src/filesys/filesys.c:45-59 | succeeds if and only if root handle, inode sector, inode memory, extent, map writes and dir_add do; the whole new state is given for success and for every failure, with the extent left marked when only dir_add fails |
| `FileSystems.FileSystem.OpenFile` | pintos/src/filesys/filesys.c:66-77 | succeeds if and only if the handles have memory and a readable entry has the name; its inode, and only it, gains an opener, and failure changes nothing |
| `FileSystems.FileSystem.DirRemove` | pintos/src/filesys/directory.c:184-216 | succeeds if and only if the first readable entry with the name has an inode that can be opened and can itself be erased; then exactly that entry is gone, and its inode is marked removed if open and its sectors are free if not |
| `FileSystems.FileSystem.Remove` | pintos/src/filesys/filesys.c:83-91 | the same if the root directory can be opened, with every failure leaving the state alone |
| `FileSystems.FileSystem.Run` | pintos/src/filesys/filesys.c:45-91 | over every sequence of calls with any of the modelled failures: each state follows from the one before by its call and answer, and in each owned sectors are marked and pairwise disjoint |
| `FileSystems.BounceRun` | pintos/src/filesys/inode.c:228-237 | a run from a newly formatted device in which failed bounce buffers give a name twice and then lose an entry in use |
| `DenyWrite.CountsExact` | pintos/src/filesys/inode.c:322-338 | deny_write_cnt is at most open_cnt, and positive if and only if some open handle denies writes |
| `DenyWrite.DenyKeeps` | pintos/src/filesys/file.c:116-139 | denying counts a handle at most once |
| `DenyWrite.AllowKeeps` | pintos/src/filesys/file.c:130-139 | allowing undoes it, and only for a handle that denied, so the count was positive |
| `DenyWrite.SharedInode.CloseFile` | pintos/src/filesys/file.c:44-54 | closing a handle takes back its denial and leaves both counts exact |
| `DenyWrite.SharedInode.WriteFile` | pintos/src/filesys/inode.c:257-318 | the file changes in exactly the bytes written, none while a handle denies |
| `DenyWrite.SharedInode.Run` | pintos/src/filesys/file.c:14-139 | over every sequence of calls the assertions of the source hold, and each state follows from the one before |
| `DenyWrite.DeniedIsUnchanged` | pintos/src/filesys/inode.c:257-338 | over any run, while one handle denies writes the file keeps its bytes, whatever is done through other handles |
| `DenyWrite.StepFlags` | pintos/src/filesys/file.c:14-139 | a handle exists from its open to its close and denies from its deny to its allow, whatever other handles do |
| `DenyWrite.DeniesUntilAllowed` | pintos/src/filesys/file.c:116-139 | over any run the file keeps its bytes from a file_deny_write until that handle allows writes or is closed |
| `DenyWrite.WritesIffAllowed` | pintos/src/filesys/inode.c:257-318 | with memory, a write inside the file goes through if and only if no handle denies |
| `HashOrder.RoundDownToPowerOf2` | pintos/src/lib/kernel/hash.c:368-372 | clearing low bits until one is left gives the largest power of two not above x |
| `HashTables.Hash.FindElem` | pintos/src/lib/kernel/hash.c:314-326 | searching one bucket decides membership in the whole table |
| `HashTables.Hash.Find` | pintos/src/lib/kernel/hash.c:131-135 | the stored element equal to the key, if there is one |
| `HashTables.Hash.Insert` | pintos/src/lib/kernel/hash.c:98-110 | adds the element only if none is equal to it, and returns the one that was |
| `HashTables.Hash.Replace` | pintos/src/lib/kernel/hash.c:114-127 | the element is stored in place of the equal one, which is returned |
| `HashTables.Hash.Delete` | pintos/src/lib/kernel/hash.c:144-154 | the equal element is removed and returned |
| `HashTables.Hash.MoveAll` | pintos/src/lib/kernel/hash.c:394-410 | every element moves exactly once, to the bucket its hash names |
| `HashTables.Hash.Rehash` | pintos/src/lib/kernel/hash.c:351-413 | contents are the same whether or not memory is found; with memory, the bucket count is the power of two nearest below the ideal |
| `HashTables.Next` | pintos/src/lib/kernel/hash.c:218-235 | each step visits one more element, and the end means all were visited |
| `HashTables.Traverse` | pintos/src/lib/kernel/hash.c:199-235 | an iteration visits every element exactly once |
| `HashOrder.OperationsAreMapOperations` | pintos/src/lib/kernel/hash.c:98-154 | each operation acts on lookups as the finite-map operation, at its own key and at every other |
| `HashOrder.DoesKeepsUnique` | pintos/src/lib/kernel/hash.c:98-154 | no operation makes two stored elements equal |
| `HashOrder.LookupsAgree` | pintos/src/lib/kernel/hash.c:131-135 | a key has one answer |
| `HashTables.Run` | pintos/src/lib/kernel/hash.c:98-154 | every sequence of operations refines the map, element by element of the trace, with any allocation failures |
| `MallocState.GridFits` | pintos/src/threads/malloc.c:267-294 | a block lies behind its header inside its page, so rounding down finds its arena |
| `MallocState.GridApart` | pintos/src/threads/malloc.c:285-294 | blocks of one arena do not overlap |
| `MallocState.LiveBlocksApart` | pintos/src/threads/malloc.c:89-154 | in every consistent state live blocks overlap neither one another nor an arena header |
| `MallocState.FreeApart` | pintos/src/threads/malloc.c:89-154 | nor a free block |
| `MallocState.TakeKeeps` | pintos/src/threads/malloc.c:148-153 | taking the first free block keeps the counts and the partition of blocks into free and live |
| `MallocState.GiveKeeps` | pintos/src/threads/malloc.c:238-242 | returning a block keeps them, and its arena was not already entirely free |
| `MallocState.NewArenaKeeps` | pintos/src/threads/malloc.c:124-146 | cutting a fresh page into blocks keeps them |
| `MallocState.FullArena` | pintos/src/threads/malloc.c:241-246 | when an arena's count reaches its size, all its blocks are on the free list and none is live |
| `MallocState.ReleaseKeeps` | pintos/src/threads/malloc.c:241-253 | unlinking them all and giving the page back keeps the rest consistent |
| `MallocState.BigAllocKeeps` | pintos/src/threads/malloc.c:105-120 | a block of whole pages fits its request and keeps consistency |
| `MallocState.BigFreeKeeps` | pintos/src/threads/malloc.c:257-262 | a big block is the only live one in its pages, and freeing it keeps consistency |
| `MallocState.ArenaHasLive` | pintos/src/threads/malloc.c:241-253 | between operations every page held has a live block in it |
| `MallocState.LiveNotOwn` | pintos/src/threads/malloc.c:89-264 | the bytes the allocator writes for itself are never bytes of a live block |
| `MallocState.InvIsSafe` | pintos/src/threads/malloc.c:89-264 | the invariant gives callers disjoint blocks, exact counts, no idle page and no dangling free block |
| `Mallocs.Allocator.constructor` | pintos/src/threads/malloc.c:71-85 | seven descriptors, each twice the last, and an empty consistent state |
| `Mallocs.Allocator.FindDesc` | pintos/src/threads/malloc.c:100-104 | the smallest descriptor that fits, wasting less than half of a block over 16 bytes; none exactly above 1024 bytes |
| `Mallocs.Allocator.Malloc` | pintos/src/threads/malloc.c:89-154 | null exactly for size 0 or when a needed page is not to be had; otherwise a new live block from the best-fitting list, all live contents kept, and a page taken only when needed |
| `Mallocs.Allocator.Free` | pintos/src/threads/malloc.c:218-264 | the block is no longer live, other contents are kept, and pages go back exactly when no live block is left in them |
| `Mallocs.Allocator.Release` | pintos/src/threads/malloc.c:241-253 | only the arena's own page goes, with no live block in it |
| `Mallocs.Allocator.Copy` | pintos/src/lib/string.c:6-19 | copying between disjoint ranges writes exactly the target |
| `Mallocs.Allocator.Realloc` | pintos/src/threads/malloc.c:194-214 | on success the new block starts with the old one's bytes as far as both sizes go and the old one is free; on failure the old one stays; other blocks keep their bytes |
| `MallocState.CapacityKeeps` | pintos/src/threads/malloc.c:178-186 | a live block may be used up to its full capacity without breaking consistency |
| `Mallocs.Allocator.Run` | pintos/src/threads/malloc.c:71-294 | over every sequence of calls and stores up to one that breaks its contract: each state follows from the one before by its call, result and bytes, live blocks are disjoint and large enough, counts are exact, and a page is held if and only if a live block is in it |
| `Mallocs.BytesLast` | pintos/src/threads/malloc.c:71-294 | over any run a live block keeps its size and its bytes until its own caller changes them |
| `ClockFrames.RingFrom` | pintos/src/vm/frame.c:71-89 | with the hand on the k-th page of its circular order, that order starts just after it |
| `ClockFrames.Clock.Next` | pintos/src/vm/frame.c:71-89 | the hand moves to the next page of the circular order, from null, a page or the end |
| `ClockFrames.Clock.GetVictim` | pintos/src/vm/frame.c:91-120 | ends on every nonempty list; the victim is the first unaccessed page after the hand, or the first page if all are accessed, and exactly the bits passed are cleared |
| `ClockFrames.VictimIs` | pintos/src/vm/frame.c:91-120 | the victim and the bits left are determined by the circular order and the accessed bits |
| `ClockFrames.Clock.Add` | pintos/src/vm/frame.c:22-33 | a new page joins the end: a hand off the list meets it last, a hand on a page meets it after the pages behind that one |
| `ClockFrames.Clock.Delete` | pintos/src/vm/frame.c:56-69 | the hand stays null, a member or the end; off the hand the order only loses the page; under it the exact new order, with the next page moved last |
| `Swapping.SwapArea.SwapOut` | pintos/src/vm/swap.c:52-77 | the lowest free slot takes the page and no other slot changes; it panics exactly when that slot does not exist on the device |
| `Swapping.SwapArea.SwapIn` | pintos/src/vm/swap.c:18-39 | the slot's 4096 bytes come back and exactly its mark is cleared |
| `Swapping.SlotKept` | pintos/src/vm/swap.c:52-77 | writing one slot's eight sectors leaves every other slot's bytes |
| `PagingState.SwapOutKeeps` | pintos/src/vm/page.c:95-127 | swapping a page out keeps the paging invariant, the page being anonymous from then on |
| `PagingState.DropKeeps` | pintos/src/vm/page.c:95-127 | dropping a clean file page keeps it, since the executable still has its bytes |
| `PagingState.InstallKeeps` | pintos/src/userprog/process.c:665-700 | bringing a page in keeps it, and frees the slot no other page owns |
| `PagingState.StoreKeeps` | pintos/src/vm/page.c:95-127 | a store keeps it because the dirty bit is set |
| `PagingState.SwappedIff` | pintos/src/vm/page.c:95-127 | a page swapped out with a given copy while its frame ends up with given bytes reads back right if and only if the two agree |
| `PagingState.DroppedIff` | pintos/src/vm/page.c:105-127 | a clean file page dropped after its dirty bit was read reads back right if and only if it still has the bytes it had |
| `StoreRaces.CopyIsPage` | pintos/src/vm/swap.c:66-71 | eight sector copies with stores in between make up the final page if and only if no byte is left changed by stores after its sector's copy |
| `StoreRaces.UnchangedIff` | pintos/src/vm/page.c:105-124 | stores leave a page as it was if and only if the last one to each byte writes what was there |
| `StoreRaces.LateStoreLost` | pintos/src/vm/swap.c:66-71 | any store of a new value just after its sector's copy is not in the copy |
| `Paging.Vm.CopyAmid` | pintos/src/vm/swap.c:66-71 | the loop copies each sector as the page is at that moment, the stores between the copies reaching the page |
| `Paging.Vm.UnmapAmid` | pintos/src/vm/page.c:105-127 | eviction in steps, with any stores after the dirty test, after each sector's copy and before the unmapping: what a fault will bring back is what the process stored, and the invariant holds, if and only if no store is left changing a byte after its copy or after a false dirty test |
| `Paging.Vm.Replace` | pintos/src/vm/page.c:95-127 | the clock's victim, and only it, loses its frame; fails exactly with no page resident, or no swap room for a page that needs it |
| `Paging.Vm.AllocPage` | pintos/src/vm/page.c:129-150 | the retry loop ends with a free frame, or panics if and only if the pool is empty and no page is resident or the clock's victim needs swap and there is no room; at most the victim loses its frame |
| `Paging.Vm.Fault` | pintos/src/userprog/process.c:665-700 | succeeds if and only if a frame is to be had and the file is long enough; then the page is resident with the bytes it should hold and the whole new state is given |
| `Paging.Vm.UserLoad` | pintos/src/userprog/process.c:665-700 | succeeds if and only if the page is resident or its fault succeeds, and returns the byte last stored, wherever the page has been since |
| `Paging.Vm.UserStore` | pintos/src/userprog/process.c:665-700 | succeeds if and only if the page is writable and resident or brought in; then exactly one byte of one page changes |
| `Paging.SegmentPage` | pintos/src/userprog/process.c:547-605 | page k of a segment is the k-th slice of the file's bytes followed by zeros, and cannot be loaded exactly if the file ends before its share |
| `Paging.Vm.LoadSegment` | pintos/src/userprog/process.c:547-605 | fails exactly when memory for entries runs out; the pages so far have their entries, pages that had one keep it, and nothing else changes |
| `Paging.Vm.MapFile` | pintos/src/userprog/process.c:563-575 | a new entry for a page of the file, whose bytes are its part of the file followed by zeros |
| `Paging.Vm.GrowStack` | pintos/src/userprog/process.c:702-734 | succeeds if and only if a frame is to be had; the new page is writable and holds zeros |
| `Paging.StuckIff` | pintos/src/vm/page.c:129-150 | no frame is to be had if and only if the pool is empty and no page is resident or the clock's victim is only in memory and no slot can take it |
| `Paging.FailsIff` | pintos/src/userprog/process.c:665-734 | exactly when each step fails: a load of an absent page without a frame or file bytes, a store besides to a page that is not writable, growth without a frame |
| `Paging.EvictEffect` | pintos/src/vm/page.c:95-127 | eviction takes the frame of the clock's victim and no other: a clean file page is dropped, any other goes whole to the lowest free slot |
| `Paging.StepTouches` | pintos/src/userprog/process.c:665-734 | a grown page is resident, zero, writable and anonymous; a page read or written is resident and marked, as dirty if written; a mapped page has exactly its entry |
| `Paging.TraceKeepsPage` | pintos/src/vm/page.c:95-150 | over any run a page keeps its entry and whether it can be written, and an anonymous page stays so |
| `Paging.StackWorks` | pintos/src/userprog/process.c:702-734 | over any run, once a stack page has grown no load from it or store to it fails unless it is absent and no frame is to be had |
| `Paging.Vm.Run` | pintos/src/vm/page.c:80-150 | over every sequence of loads, stores, evictions, mappings and stack growth, loads return what a memory without paging would, and the run ends early exactly at a step with no frame to be had, a file too short or a page not writable |
| `ThreadState.InsertedFacts` | pintos/src/lib/kernel/list.c:445-459 | ordered insertion keeps a queue ordered, adding one thread |
| `ThreadState.MoveKeeps` | pintos/src/threads/thread.c:354-367 | moving one thread between queues as its status changes keeps every queue exact and ordered |
| `ThreadState.DispatchPicks` | pintos/src/threads/thread.c:652-659 | the next thread is a ready one of highest priority, and idle exactly if no other is ready |
| `ThreadState.UpPicks` | pintos/src/threads/synch.c:109-125 | a semaphore's first waiter has the highest priority of its waiters |
| `ThreadState.BlockKeeps` | pintos/src/threads/synch.c:60-77 | blocking on a zero semaphore keeps the invariant, no wakeup being lost |
| `ThreadState.DownKeeps` | pintos/src/threads/synch.c:60-77 | a completed down keeps it, also when a thread that was not woken takes the value first |
| `ThreadState.UpKeeps` | pintos/src/threads/synch.c:109-125 | an up keeps it: the woken thread accounts for the new value |
| `ThreadState.AgeKeeps` | pintos/src/threads/thread.c:839-860 | aging keeps the ready list ordered, because it is monotone even at the maximum |
| `ThreadState.OneQueue` | pintos/src/threads/thread.c:354-367 | a thread is on at most one queue |
| `ThreadState.InvIsSafe` | pintos/src/threads/synch.c:60-240 | the invariant gives exact queues in full order, one queue per thread, no lost wakeup and mutual exclusion |
| `Threads.Kernel.InsertOrdered` | pintos/src/lib/kernel/list.c:445-459 | the search finds the place the ordered insertion defines |
| `Threads.Kernel.Schedule` | pintos/src/threads/thread.c:714-728 | exactly one thread runs again, the one dispatched |
| `Threads.Kernel.YieldThread` | pintos/src/threads/thread.c:449-464 | the yielder is ready behind its equals, idle on no list, and the best ready thread runs |
| `Threads.Kernel.SemaDown` | pintos/src/threads/synch.c:60-77 | one turn of the loop completes if and only if the value was positive; else the thread waits in priority order and another runs |
| `Threads.Kernel.SemaTryDown` | pintos/src/threads/synch.c:84-103 | succeeds if and only if the value was positive, and otherwise changes nothing |
| `Threads.Kernel.SemaUp` | pintos/src/threads/synch.c:109-125 | the first waiter, if any, becomes ready and the value grows by one |
| `Threads.Kernel.SleepUntil` | pintos/src/threads/thread.c:777-784 | the thread waits on the sleeping list, in tick order, until exactly the tick it gave, and another runs |
| `Threads.Kernel.WakeSleepers` | pintos/src/threads/thread.c:790-803 | exactly the sleepers whose tick is at most now become ready, each taking its ordered place in the ready list |
| `Threads.Kernel.AgeThreads` | pintos/src/threads/thread.c:839-860 | exactly the ready threads gain one priority, up to 63, and no other thread's changes |
| `Threads.Kernel.CreateThread` | pintos/src/threads/thread.c:264-328 | the new thread has the given priority, waits for nothing and is ready in priority order |
| `Threads.Kernel.ExitThread` | pintos/src/threads/thread.c:436-444 | the thread is gone, whatever locks it holds, and another runs |
| `Threads.Kernel.HoldLock` | pintos/src/threads/synch.c:196-205 | the thread past the down becomes the holder, and no other is inside |
| `Threads.Kernel.UnholdLock` | pintos/src/threads/synch.c:232-240 | only the holder may give the lock up |
| `Threads.Kernel.LeaveLock` | pintos/src/threads/synch.c:232-240 | the lock's value is one again with nobody inside |
| `Threads.Kernel.Run` | pintos/src/threads/synch.c:60-240 | every interleaving up to an illegal step: each state follows from the one before by its step, with no lost wakeup, exact queues in full order and at most one thread in a lock |
| `Threads.StepThreads` | pintos/src/threads/thread.c:264-444 | only a creation adds a thread, with the next tid and the given priority, and only an exit takes one away |
| `Threads.StepPriority` | pintos/src/threads/thread.c:483-860 | a thread's priority changes only when it sets it, or by one up to 63 when it is ready and threads age, and its wake-up tick only when it sleeps |
| `Threads.StepWaiting` | pintos/src/threads/synch.c:60-77 | a thread waits for a semaphore from the turn that finds it zero to the one that finds it up |
| `Threads.StepLocks` | pintos/src/threads/synch.c:196-240 | a thread's part in a lock and the holder change only by the thread's own steps |
| `Threads.StepRuns` | pintos/src/threads/thread.c:652-728 | the running thread changes only when it blocks, yields or exits; then no ready thread has a higher priority than the next, and idle runs only if none is ready |
| `Threads.YieldMakesWay` | pintos/src/threads/thread.c:449-464 | a thread that yields makes way for a ready one of its own priority |
| `Threads.StepStatus` | pintos/src/threads/thread.c:337-367 | besides the running thread, a thread is blocked after a step if and only if the step blocks it, or it was and the step does not wake it |
| `Threads.SleepsUntil` | pintos/src/threads/thread.c:777-803 | over any run a thread that calls thread_sleep is on the sleeping list until the first thread_wake_up with its tick or a later one, and on the ready list right after that |
| `Threads.TraceCounts` | pintos/src/threads/synch.c:60-125 | over any run a semaphore's value is its first value plus the ups minus the completed downs |
| `MonitorState.SignalKeeps` | pintos/src/threads/synch.c:315-326 | a signal keeps the invariant: a waiter is on the list with its semaphore down or off it with its semaphore up |
| `MonitorState.StepKeeps` | pintos/src/threads/synch.c:291-342 | every step of entering, leaving, waiting, signalling and broadcasting keeps it, with at most one thread inside also between the steps of cond_wait |
| `MonitorState.PassesIffSignalled` | pintos/src/threads/synch.c:291-326 | over any run, a thread in cond_wait gets past its sema_down if and only if it was signalled since it joined the list, also between its lock_release and its sema_down |
| `MonitorState.WaitReturnsHolding` | pintos/src/threads/synch.c:291-308 | over any run cond_wait returns only after a signal since it joined the list, and holding the lock |
| `MonitorState.Fifo` | pintos/src/threads/synch.c:302-325 | over any run, of two threads waiting on a condition the later one is not signalled before the earlier |
| `Monitors.Monitor.SignalAll` | pintos/src/threads/synch.c:334-342 | signalling until the list is empty wakes everyone on it exactly once |
| `Monitors.Monitor.Run` | pintos/src/threads/synch.c:291-342 | every interleaving up to a step its thread is not at: each state follows from the one before and satisfies the invariant |
| `ExitState.ListedIsKept` | pintos/src/threads/thread.c:753-770 | a thread on its parent's child list is not freed and not yet waited for |
| `ExitState.LetGoKeeps` | pintos/src/threads/thread.c:420-429 | upping a child's sema_elim, by wait or by exit, happens once and only after it left the list |
| `ExitState.FreeKeeps` | pintos/src/threads/thread.c:677-705 | a freed thread is on no list and no parent is about to touch it |
| `ExitState.ReadKeeps` | pintos/src/userprog/process.c:207-222 | the status read is the one the child exits with, and the child still exists |
| `ExitState.InvIsSafe` | pintos/src/userprog/process.c:207-222 | what the protocol guarantees in every reachable state |
| `ExitWait.Processes.Create` | pintos/src/threads/thread.c:264-328 | the child is new and last on its creator's list |
| `ExitWait.Processes.FinishExec` | pintos/src/userprog/syscall.c:280-301 | reports the child's load result once it is there, on a child that still exists |
| `ExitWait.Processes.StartExit` | pintos/src/userprog/syscall.c:262-270 | the exit code is the value given to exit; -1 for a page fault and a bad argument; and 0 for a bare thread_exit |
| `ExitWait.Processes.ExitStep` | pintos/src/threads/thread.c:420-431 | children leave the list one by one, and only then is the parent told |
| `ExitWait.Processes.UpChild` | pintos/src/threads/thread.c:420-429 | a child's sema_elim goes from never upped to upped once |
| `ExitWait.Processes.Die` | pintos/src/threads/thread.c:433-444 | freed if and only if let go, and nobody refers to it any more |
| `ExitWait.Processes.GetChild` | pintos/src/threads/thread.c:753-770 | finds the tid exactly if it is on the list, touching only threads that exist |
| `ExitWait.Processes.BeginWait` | pintos/src/userprog/process.c:207-222 | -1 at once exactly if the tid is not on the list; always for a child already waited for |
| `ExitWait.Processes.WaitDown` | pintos/src/userprog/process.c:207-222 | proceeds if and only if the child has reported its exit |
| `ExitWait.Processes.ReadStatus` | pintos/src/userprog/process.c:207-222 | reads the exit code of a child that has stored it and still exists |
| `ExitWait.Processes.FinishWait` | pintos/src/userprog/process.c:207-222 | returns the child's exit code, once per child, and lets it go for the first time |
| `ExitWait.Processes.Run` | pintos/src/threads/thread.c:405-445 | every interleaving up to a step no thread is at: each state follows from the one before by its step and answer, and is safe |
| `ExitWait.CodesFromExits` | pintos/src/userprog/syscall.c:262-270 | over any run from the start a thread's exit code is v if and only if it started to exit with v |
| `ExitWait.WaitReturns` | pintos/src/userprog/process.c:207-222 | over any run from the start, wait returns -1 at once if and only if the tid is not on the list, and later if and only if the child called exit with -1, gave a system call a bad argument or was ended by a page fault |
| `ExitWait.WaitGivesCode` | pintos/src/userprog/process.c:207-222 | over any run a wait for a child that exited from some cause returns that cause's code |
| `ExitWait.WaitValue` | pintos/src/userprog/process.c:207-222 | over any run from the start a wait returns the value the child gave to exit, whatever it was; -1 for a bad argument or a page fault; 0 for another exception, a failed load or a kernel thread's return |
| `ExitWait.StepThreads` | pintos/src/threads/thread.c:264-445 | a thread exists from its creation, without children and with its semaphores zero, until it dies after it was let go |
| `ExitWait.StepSemas` | pintos/src/threads/thread.c:405-445 | when each of the three semaphores of a thread is upped and downed, and that is_loaded is what the thread reported |
| `ExitWait.StepChildren` | pintos/src/threads/thread.c:264-328 | a child joins its creator's list, and leaves it only when the wait for it ends or the parent exits |
| `ExitWait.ExecReturns` | pintos/src/userprog/syscall.c:280-301 | over any run from the start exec returns only after the child reported, with its tid if it was loaded and -1 if not |
| `ExitWait.ListedUntilWaited` | pintos/src/userprog/process.c:207-222 | over any run a wait for a thread one created, and has not waited for, does not return at once |
| `ExitWait.WaitedOnce` | pintos/src/userprog/process.c:207-222 | over any run a second wait for the same child returns -1 |
| `ExitWait.KilledReturns` | pintos/src/userprog/exception.c:78-171 | a wait for a child killed by an exception returns -1 if and only if it was a page fault, and otherwise, as after a failed load, 0 |
| `ExitWait.KilledChild` | pintos/src/userprog/exception.c:78-115 | a run in which a child divides by zero and wait returns 0 |
| `MlfqsBounds.NextLoadIs` | pintos/src/threads/thread.c:192-194 | the update is floor(16110 L / 2^14) + 273 r |
| `MlfqsBounds.LoadClimbs` | pintos/src/threads/thread.c:192-194 | load_avg never passes the limit of n threads, and with n ready it rises every second until it is there and then stays |
| `MlfqsBounds.LoadTrails` | pintos/src/threads/thread.c:177-195 | over runs of any length, load_avg stays between 0 and its limit and behind the exact recurrence by 0 to 60 (n + 1) units |
| `MlfqsBounds.FactorMonotone` | pintos/src/threads/thread.c:195-201 | the decay factor grows with load_avg |
| `MlfqsBounds.DecayStays` | pintos/src/threads/thread.c:197-204 | within room an update fits and brings recent_cpu back below the bound by a second of running |
| `MlfqsBounds.DecayGrows` | pintos/src/threads/thread.c:197-204 | without room an always running thread at the highest load and niceness m gains with every update |
| `MlfqsBounds.DecayIs` | pintos/src/threads/thread.c:195-204 | the update of recent_cpu is 2 load/(2 load + 1) of it plus niceness, to within one unit and one part in 2^14 of what it was |
| `MlfqsBounds.RoomFor20` | pintos/src/threads/thread.c:192-204 | for niceness up to 20 there is room in 32 bits if and only if n ≤ 586, and below the largest value that can be reported if and only if n ≤ 4 |
| `MlfqsBounds.RoomForOne` | pintos/src/threads/thread.c:192-204 | for one thread there is room in 32 bits if and only if m ≤ 43804 |
| `MlfqsBounds.NiceExact` | pintos/src/threads/thread.c:498-503 | exactly which niceness, and which double, fits when converted |
| `MlfqsBounds.PriorityExact` | pintos/src/threads/thread.c:207-221 | the priority can be computed for every recent_cpu if and only if niceness is between -49120 and 49183 |
| `MlfqsBounds.NiceTooLarge` | pintos/src/threads/thread.c:498-503 | with niceness 65536 it can be for none |
| `MlfqsBounds.PriorityMonotone` | pintos/src/threads/thread.c:207-221 | wherever it can be computed, the priority is in [0, 63] and never rises with recent_cpu or nice |
| `MlfqsBounds.PriorityClose` | pintos/src/threads/thread.c:207-221 | unclamped, it is within a half, and a rounding step, of 63 - cpu/4 - 2 nice |
| `MlfqsBounds.PriorityIs` | pintos/src/threads/thread.c:207-221 | the priority is 63 - cpu/4 - 2 nice to within a half and a rounding step if that lies in [0, 63], 0 if it is below and 63 if it is above |
| `MlfqsBounds.ReportExact` | pintos/src/threads/thread.c:520-524 | the reported value fits if and only if the number is at most 21474754 in size, and is then within a half of 100 times it |
| `MlfqsBounds.LoadReports` | pintos/src/threads/thread.c:511-517 | every load_avg up to the limit of n threads can be reported if and only if n ≤ 1315 |
| `Mlfqs.Accounts.CountReady` | pintos/src/threads/thread.c:182-189 | the number of ready or running threads other than idle |
| `Mlfqs.ReadyIs` | pintos/src/threads/thread.c:182-189 | on a list of distinct threads, that is the size of the set of those ready or running |
| `Mlfqs.TickAccounts` | pintos/src/threads/thread.c:150-225 | what one tick does to each thread, as `TimerTick` promises it |
| `Mlfqs.Accounts.TimerTick` | pintos/src/threads/thread.c:150-225 | if nothing it computes leaves 32 bits: the running thread is charged, on the second every recent_cpu decays by 2 load/(2 load + 1) and gains niceness, on every fourth tick every priority is 63 - cpu/4 - 2 nice, rounded and clamped, and nothing else changes |
| `Mlfqs.Accounts.Create` | pintos/src/threads/thread.c:598-632 | a new thread inherits its creator's niceness and recent_cpu |
| `Mlfqs.Accounts.Run` | pintos/src/threads/thread.c:150-225 | any sequence of ticks, creations, exits, switches and changes of niceness, up to exactly the first tick that overflows: each state follows from the one before |
| `Mlfqs.RunStays` | pintos/src/threads/thread.c:150-225 | on every run from boot within n and m, load_avg stays below its limit and recent_cpu within any bound there is room for |
| `Mlfqs.RunNeverStops` | pintos/src/threads/thread.c:150-225 | with room in 32 bits no such run overflows, however long it goes on |
| `Mlfqs.OverflowingRun` | pintos/src/threads/thread.c:150-225 | for any n and m without room, a run within them that overflows |
| `Mlfqs.RunReports` | pintos/src/threads/thread.c:519-524 | for n ≤ 4 and m = 20 every recent_cpu can be reported in every state of every run |
| `Mlfqs.TraceTrails` | pintos/src/threads/thread.c:177-195 | over any run from boot load_avg is the recurrence over the ready counts of its seconds, behind the exact average by 0 to 60 (n + 1) units |
| `Mlfqs.UnreportableRun` | pintos/src/threads/thread.c:519-524 | for any n and m with room in 32 bits but not below the largest value that can be reported, as n = 5 and m = 20, a run after which the running thread's recent_cpu cannot be reported |
| `OctalFields.FormatOctal` | pintos/src/lib/stdio.c:469-547 | the collected, reversed and padded digits are the number's w-digit octal form |
| `OctalFields.OctalValue` | pintos/src/lib/stdio.c:469-547 | those digits stand for the number, if it fits |
| `OctalFields.ValueOctal` | pintos/src/lib/ustar.c:129-162 | digits are determined by their count and the number they stand for |
| `OctalFields.ParseMeans` | pintos/src/lib/ustar.c:129-162 | a digit string ended by a space or null reads as its value, and exactly the values over 32 bits are refused |
| `OctalFields.OctalInverse` | pintos/src/lib/ustar.c:129-162 | printing and reading are inverse |
| `OctalFields.ParseOctalField` | pintos/src/lib/ustar.c:129-162 | the loop computes that reading |
| `UstarHeaders.StripIdempotent` | pintos/src/lib/ustar.c:65-73 | a stripped name has no dangerous prefix, is not empty or "..", and stripping again changes nothing |
| `UstarHeaders.StrippedIs` | pintos/src/lib/ustar.c:65-73 | a stripped name is what is left after the longest run of "/", "./" and "../" at its front, or "." if that is nothing or ".." |
| `UstarHeaders.Strip` | pintos/src/lib/ustar.c:65-73 | the loop computes the stripped name, which `StrippedIs` characterises |
| `UstarHeaders.SumIgnoresField` | pintos/src/lib/ustar.c:36-54 | the checksum does not depend on its own field |
| `UstarHeaders.Chksum` | pintos/src/lib/ustar.c:36-54 | the sum of the header's bytes with that field as spaces |
| `UstarHeaders.SumUpdate` | pintos/src/lib/ustar.c:36-54 | changing one byte outside its field changes the sum by the difference |
| `UstarHeaders.SumOfZeros` | pintos/src/lib/ustar.c:36-54 | the sum of an empty header is that of eight spaces |
| `UstarHeaders.HeaderAt` | pintos/src/lib/ustar.c:82-118 | every byte of a made header: modes 0644 and 0755, ids 0, names root, the fixed time, the octal size and checksum, magic and version, and zeros |
| `UstarHeaders.ParseExact` | pintos/src/lib/ustar.c:181-227 | 512 zeros end the archive; a header is read if and only if magic, version, checksum, name, prefix, type and, for a regular file, size are as required; anything else is refused |
| `UstarHeaders.CorruptionRefused` | pintos/src/lib/ustar.c:181-227 | a readable header is refused after a change of any one byte outside the chksum field |
| `UstarHeaders.MakeHeader` | pintos/src/lib/ustar.c:82-118 | fails, writing nothing, exactly for a stripped name over 99 bytes; else the buffer is the header of the name, type and size |
| `UstarHeaders.ParseHeader` | pintos/src/lib/ustar.c:181-227 | the result, or the first applicable error message, for any 512 bytes |
| `UstarHeaders.RoundTrip` | pintos/src/lib/ustar.c:82-227 | reading a made header gives the stripped name, the type and the size, 0 for a directory; a negative size of a regular file is refused |
| `Tokens.SpansAreRuns` | pintos/src/lib/string.c:234-275 | the words are maximal delimiter-free runs, in order and apart |
| `Tokens.SpansCover` | pintos/src/lib/string.c:234-275 | every other byte is in one of them |
| `Tokens.WordsAreSpans` | pintos/src/lib/string.c:234-275 | the words are the bytes of those runs |
| `Tokens.Strtok` | pintos/src/lib/string.c:234-275 | for any set of delimiters: the next word, terminated in place, with the rest of the buffer intact for the next call |
| `Tokens.ParseFilename` | pintos/src/userprog/process.c:47-79 | exactly the command line's words, in order |
| `ArgStack.WordInverse` | pintos/src/userprog/process.c:117-129 | a stored word reads back |
| `ArgStack.Stack.Push` | pintos/src/userprog/process.c:98-129 | bytes go right below the old pointer and nothing above it changes |
| `ArgStack.Stack.ConstructEsp` | pintos/src/userprog/process.c:87-135 | the stack below its old pointer is the frame of the words, and nothing above changes |
| `ArgStack.ReadBack` | pintos/src/userprog/process.c:87-135 | from the final pointer: a null return address, argc, argv, argc pointers each to its null-terminated word, and a null pointer; aligned, with no two pieces overlapping |
| `ArgStack.StartProcess` | pintos/src/userprog/process.c:47-135 | for every command line that fits, reading the initial stack gives back its words |

## Left out

- Device drivers, boot code, partition tables, interrupt stubs and the console: the block device is an array of sectors.
- System call dispatch, user-pointer checks and the rest of `printf`: plumbing around what is modelled.
- The list functions beside sort, splice, reverse and ordered insertion.
- Priority donation is not implemented in `synch.c` and is not modelled.
- `calloc`, and `malloc` sizes so large that adding the header wraps around 32 bits.
- Process exit in the paging model: an entry keeps its slot number after `swap_in` and destroying it clears whatever slot that is, so slot ownership is claimed for runs without exit.
- The branches of the fault path where installing a page fails: they hand the wrong pointer to `free_page_kaddr`.
- Faults and evictions are single steps in `Paging.Vm.Run`; `Paging.Vm.UnmapAmid` takes eviction apart for stores to the victim. Other races, such as two faults on one page, are not modelled.
- `struct page` and other small kernel allocations on the fault path are taken to succeed.
- The frame list, the child lists, the free lists of `malloc` and the scheduler's queues are sequences; that linked nodes behave as such is proved in `KernelList`.
- Exact conservation of sectors: when `dir_add` fails, `filesys_create` releases only the inode sector, so an owned sector is marked but not the converse.
- The contents of the device in the file system's ownership model: inodes and directory are values there, and `InodeIO` gives the bytes.
- The `memset` branch of `inode_write_at` that its loop condition never reaches.
- The monitor's lock is a holder taken and released in one step; the steps of a lock are in `Threads.Kernel`.
- Clearing and destroying a hash table, and hash functions: any hash that respects the order is allowed.
- The boot phase in which the idle thread itself is still on the ready list.
- Reuse of a freed thread's page by a later thread: threads are named by tid, which is not reused.
- Thread names, `process_execute`'s copy of the command line and the executable loader.
- Failures of the free map file's own writes beyond the two of `filesys_create`: `free_map_release` ignores them, and the map in memory is what counts.
- ExitWait.Processes.WaitDown: takes the sema_down and the list_remove of process_wait as one step, the list being private to the parent.
- Tokens.ParseFilename: does not bound the number of words by the 128 entries of the argument array; `ArgStack.StartProcess` does.
