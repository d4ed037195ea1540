# XBTOS kernel data structures, verified

XBTOS is a small 32-bit kernel. Its logic sits in a handful of hand-written structures that are
rewritten in place: a heap whose block headers lie inside the memory it manages, a page bitmap, a
file table, a text console, and a line editor with a command history. This project models these in
Dafny and proves what they keep over every run, what they compute, and where they stop doing what
one would expect.

`dafny verify dfyconfig.toml` checks everything.

## How the project is organised

Each structure is a class with the fields and loops of the original, proved equal, call by call, to
functions on mathematical values. What the structure is for is then proved about those functions.

| files | content |
|---|---|
| `HeapSpec`, `HeapRuns`, `HeapLists`, `HeapDiscipline`, `HeapCycles` | the heap as a table of blocks with one linked list: safety over all runs, termination, first fit, completeness, which frees are harmless, lost blocks, cycles |
| `HeapMemory`, `KernelHeap` | runs of calls and client stores; the allocator on bytes: headers read and written in little-endian words |
| `Words`, `PageRuns`, `PageAllocator` | C's bitwise operators, the set of frames in use and its runs, the page bitmap that stands for it |
| `CStrings` | NUL-terminated buffers and the kernel's string routines |
| `KeyedTable`, `FileStore`, `Vfs` | the file table, and the partial map from names to contents it stands for |
| `Terminal`, `Utf8`, `Console` | a terminal that never scrolls, the UTF-8 writer, and the 80x25 screen that shows its last 25 rows |
| `EditorSpec`, `EditorLaws`, `LineEditor` | the keyboard state machine, what each key does in numbers, the input buffer and the history rows |
| `ShellSpec`, `ShellLaws`, `Shell` | the file commands: parsing, execution, and what each line does |
| `Session` | the keyboard interrupt as a whole: the editor and the shell it hands its lines to |
| `Numbers` | the digit printers and `atoi` |
| `Basics` | shared definitions |

## What is worth knowing about the code

- A block that `kmalloc` takes by splitting stays in the free list. Freeing it while it is still
  there closes the list into a cycle: the blocks behind it are lost for good, and any later request
  that fits no block up to it is searched for without end. The shortest such run is one allocation
  and its `kfree` (`HeapDiscipline.FirstAllocationFreedHangs`). A list that has become a cycle stays one
  (`HeapCycles.RunKeepsAcyclicIff`). A pointer can be freed without harm exactly if it is held and the
  call that granted it did not split (`HeapDiscipline.FreeKeepsTidyIff`), and a run
  in which every call returns and no free block goes missing is exactly one that keeps to this
  (`HeapDiscipline.TidyThroughoutIff`). Memory safety survives all of it, double frees included.
- Memory safety ends with one call: a request for one of the last 12 sizes below 2^32 makes the sum
  of line 23 wrap, and any free block is then taken to be large enough
  (`HeapRuns.EveryRunIsSafeIff`). On a heap just booted, the size 0xFFFFFFF4 leaves one block of
  size 0 whose `next` is itself (`HeapSpec.WrapBreaksBootHeap`).
- `rec` and `append` cut a path to 31 characters, leading separators included, while `rdf` and
  `stat` do not. So what is written can be read back under the same path exactly when the path has
  at most 31 characters (`ShellSpec.CutKeepsNameIff`, `ShellSpec.RecThenRdf`); the shortest path that
  is lost is a separator and 31 letters (`ShellSpec.CutPathIsNotFound`).
- Backspace does not cross rows. Rubbing out n characters shows the right line exactly when all n
  stand in the row of the cursor (`Terminal.BackspacesIff`), so recalling a history line over one that
  has reached the end of its row leaves old characters on the screen, and so does the Backspace key at
  the start of a row (`EditorSpec.ScreenShowsLineIff`).
- When the number of pages is not a multiple of 32, the bitmap has bits for pages that do not exist,
  and the allocator hands them out once the others are taken (`PageRuns.EveryPageExistsIff`); with 257
  pages the second allocation does (`PageRuns.PageBeyondTheMemory`).
- The page bitmap lies at 1 MB, which is frame 256, and no bit is set for it. So the first page
  `pm_alloc_page` ever hands out is the one the bitmap lies in (`PageRuns.FirstPageHoldsBitmap`), and
  a client that changes any word of the bitmap there changes which pages are in use
  (`PageAllocator.OverwriteKeepsUsedIff`). The results about runs of the page allocator hold as long as
  clients do not write to those pages.
- The heap at 2 MB is not reserved either: allocations 257 to 512 hand out its pages, frames 512 to 767,
  to whoever asks (`PageRuns.HeapIsHandedOut`).

## Model

| member | source | states |
|---|---|---|
| KernelHeap.KernelHeap.HeapInit | kernel/memory/heap.cpp:14-19 | the header bytes written make the table one free block of 1 MB, linked alone |
| KernelHeap.KernelHeap.InitialBytes | kernel/memory/heap.cpp:6-19 | in bytes: size little-endian in bytes 0-3, a nonzero byte 4, a null link in bytes 8-11 |
| KernelHeap.KernelHeap.Search | kernel/memory/heap.cpp:24-28 | the walk over header bytes ends in the first round with a fit or a null pointer, with `prev` on the node before |
| KernelHeap.KernelHeap.Kmalloc | kernel/memory/heap.cpp:21-50 | every call that returns, for every 32-bit size, gives the pointer of `HeapSpec.Malloc`, leaves bytes that encode exactly its table, and changes only header bytes and bytes of free blocks; if the sum of line 23 wraps and the block is split all the same, it leaves a header that no table can hold |
| KernelHeap.KernelHeap.WriteSplit | kernel/memory/heap.cpp:30-36 | both headers of a split read back as intended, and no byte outside the two headers changes |
| KernelHeap.KernelHeap.TakeBySplit | kernel/memory/heap.cpp:29-38 | splitting turns the bytes into the table with the remainder linked behind the block taken |
| KernelHeap.KernelHeap.TakeWhole | kernel/memory/heap.cpp:39-43 | taking a block whole turns the bytes into the table with the block unlinked |
| KernelHeap.KernelHeap.Kfree | kernel/memory/heap.cpp:52-58 | freeing null changes nothing; freeing a block, in use or already free, puts it at the head, changing only header bytes and bytes of free blocks |
| KernelHeap.KernelHeap.Replay | kernel/memory/heap.cpp:21-58 | a run of calls and client stores on the bytes, none of which grants a wrapping size or writes what is not held, ends with the bytes encoding the table of the run and holding every value it relies on |
| HeapMemory.ActsAreRuns | kernel/memory/heap.cpp:21-58 | client stores into held memory make no difference to the allocator: the run is that of its calls alone |
| HeapMemory.LastStoreCounts | kernel/memory/heap.cpp:21-58 | in such a run a byte of a pointer held throughout has the value last stored there, whatever is called and stored in between |
| KernelHeap.KernelHeap.StorePayload | kernel/memory/heap.cpp:44 | a client writing into its payload changes that byte and no other, and leaves the table as it was |
| KernelHeap.PayloadIsNotAllocators | kernel/memory/heap.cpp:30-42 | no byte of a payload in use is one the allocator may write: other allocations never change |
| KernelHeap.LineSumDoesNotWrap | kernel/memory/heap.cpp:29 | the sum on line 29 does not wrap for a total that fits some block |
| HeapSpec.FitTestIsSound | kernel/memory/heap.cpp:23-28 | every block larger than a header and no larger than the heap that passes the size test holds header and payload, if and only if the sum of line 23 does not wrap |
| HeapSpec.GrantServesIff | kernel/memory/heap.cpp:21-50 | for every 32-bit size, a call that returns gives null or a block with room for header and payload, if and only if the sum of line 23 does not wrap or no free block can be reached |
| HeapSpec.WrapBreaksBootHeap | kernel/memory/heap.cpp:23-38 | on the heap of `heap_init` the size 0xFFFFFFF4 makes a total of 0, a non-null pointer, and one block of size 0 linked to itself |
| HeapSpec.BlocksSumToHeap | kernel/memory/heap.cpp:29-42 | walking the heap block by block meets every block and no other start, the sizes sum to the heap size, and there are at most HEAP_SIZE / 13 blocks |
| HeapSpec.StopIndex | kernel/memory/heap.cpp:27-28 | the round in which the loop is left is the first with a fit or the end |
| HeapRuns.TakeGrants | kernel/memory/heap.cpp:29-43 | the block taken fits, has less than 44 bytes to spare, and is the only one whose size or free flag changes; a new block is the free remainder |
| HeapRuns.StepKeepsSafeIff | kernel/memory/heap.cpp:21-58 | a call keeps the tiling, the pointers, and the match between blocks in use and pointers held, if and only if it is no allocation of a wrapping size that is granted |
| HeapRuns.EveryRunIsSafeIff | kernel/memory/heap.cpp:14-58 | over every run, cyclic lists and double frees included, the blocks tile the heap, list pointers are null or block starts, and `free == 0` exactly for blocks of held pointers, at all times if and only if no wrapping size is granted |
| HeapRuns.EveryRunIsSafe | kernel/memory/heap.cpp:14-58 | where such a run leads: a safe world with every block start there was |
| HeapRuns.WrapEndsSafety | kernel/memory/heap.cpp:21-50 | at boot one allocation of 0xFFFFFFF4 bytes returns and leaves a world that is not safe |
| HeapRuns.SmallRequestsAreCovered | kernel/memory/heap.cpp:23 | a run whose requests leave room for a header in 32 bits grants no wrapping size |
| HeapRuns.EveryRunFromBootIsSafe | kernel/memory/heap.cpp:14-58 | the same from `heap_init`, with the bound on the number of blocks |
| HeapRuns.HeldPayloadIsInHeap | kernel/memory/heap.cpp:44 | the bytes a client asked for lie inside the heap |
| HeapRuns.HeldPayloadsAreDisjoint | kernel/memory/heap.cpp:44 | two held payloads are disjoint, with a header between them |
| HeapLists.AcyclicIffList | kernel/memory/heap.cpp:24-48 | the walk reaches null if and only if the list is a finite sequence of blocks |
| HeapLists.ListHasNoDuplicates | kernel/memory/heap.cpp:46-47 | a finite list visits no block twice |
| HeapLists.ReturnsIff | kernel/memory/heap.cpp:27-49 | `kmalloc` returns if and only if the list is finite or some block on the walk fits |
| HeapLists.SearchIsFirstFit | kernel/memory/heap.cpp:27-28 | on a finite list the search ends, and takes the first node in list order that fits |
| HeapLists.TakeFromList | kernel/memory/heap.cpp:29-43 | taking a node leaves the same list with the remainder behind the node, or without the node |
| HeapLists.ReleaseUnlisted | kernel/memory/heap.cpp:54-57 | freeing an unlinked block puts it in front of the list |
| HeapLists.ReleaseListed | kernel/memory/heap.cpp:54-57 | freeing a linked block makes the list a cycle, and what can be reached is exactly the part up to that block |
| HeapCycles.MallocKeepsAcyclicIff | kernel/memory/heap.cpp:21-50 | from an acyclic list `kmalloc` of any 32-bit size returns, and leaves an acyclic list if and only if it does not split a block for a total of 0 (splits for a wrapped total of 1 to 11 excepted) |
| HeapCycles.CyclicNeverGivesNull | kernel/memory/heap.cpp:27-49 | on a cyclic list no call that returns gives null |
| HeapCycles.RunKeepsAcyclicIff | kernel/memory/heap.cpp:21-58 | over every run that grants no wrapping size the list is finite at the end if and only if it was at the start and no block was freed while it could be reached: once a cycle, always a cycle |
| HeapDiscipline.ReleaseKeepsAcyclicIff | kernel/memory/heap.cpp:52-58 | `kfree` leaves an acyclic list if and only if the block was not linked any more |
| HeapDiscipline.ReturnsAfterReleasingListed | kernel/memory/heap.cpp:27-48 | after a linked block was freed, a request comes back if and only if a block of the part up to it fits |
| HeapDiscipline.FirstAllocationFreedHangs | kernel/memory/heap.cpp:21-58 | on a fresh heap, after one allocation and its `kfree`, a later request of any 32-bit size comes back if and only if it is no larger or its sum on line 23 wraps |
| HeapCycles.FirstAllocationInNumbers | kernel/memory/heap.cpp:21-50 | for every size that does not wrap, the exact heap and pointer after the first call: a split if 44 bytes remain, the whole block if fewer do, null if it is larger |
| HeapDiscipline.LinkedIffFreeOrSplit | kernel/memory/heap.cpp:29-43 | where every block is tracked, a block can be reached if and only if it is free or was granted by a split |
| HeapDiscipline.FreeKeepsTidyIff | kernel/memory/heap.cpp:29-58 | freeing a block leaves a finite list with every free block if and only if its pointer is held and line 29 did not split when it was granted |
| HeapDiscipline.DisciplinedRunsStayTidy | kernel/memory/heap.cpp:21-58 | in every run that grants no wrapping size and frees only held pointers not granted by a split, each call returns, and after it the list is finite and holds exactly the free blocks and those granted by a split |
| HeapDiscipline.TidyThroughoutIff | kernel/memory/heap.cpp:21-58 | among runs that grant no wrapping size and free any blocks, double frees included, each call returns and no free block ever goes missing if and only if only held pointers not granted by a split are freed |
| HeapDiscipline.BootIsTidy | kernel/memory/heap.cpp:14-19 | `heap_init` starts such runs |
| HeapDiscipline.NullIffNothingFits | kernel/memory/heap.cpp:21-50 | with every free block listed, `kmalloc` gives null if and only if no free block anywhere holds header and payload, or, for a size whose sum wraps, if and only if no block is free |
| HeapDiscipline.ReleaseListedLoses | kernel/memory/heap.cpp:54-57 | freeing a linked block loses every free block behind it |
| HeapDiscipline.LostForEver | kernel/memory/heap.cpp:21-58 | a lost block stays free, unreachable and not handed out in every run from then on that grants no wrapping size and does not free it a second time |
| HeapDiscipline.SecondFreeFindsAgain | kernel/memory/heap.cpp:52-58 | a second `kfree` of a lost block makes it reachable again |
| Words.BitTest | kernel/memory/physmem.cpp:25 | the mask test is nonzero exactly for a set binary digit |
| Words.SetAndClear | kernel/memory/physmem.cpp:26-39 | `or` with a mask sets one digit and no other; `and not` clears one and no other |
| Words.SetThenClear | kernel/memory/physmem.cpp:17-39 | a clear digit set and cleared again restores the word |
| Words.FullWordHas | kernel/memory/physmem.cpp:23 | a word equal to 0xFFFFFFFF has no clear digit |
| Words.OtherWordLacks | kernel/memory/physmem.cpp:23 | every other word has one: the skip loses nothing |
| PageAllocator.PageAllocator.PmInit | kernel/memory/physmem.cpp:7-19 | for every memory size, the bitmap stands for the fresh set: the frames of the first megabyte that have a bit |
| PageAllocator.PageAllocator.PmAllocPage | kernel/memory/physmem.cpp:21-33 | takes the allocation step of the set: the address of the least unused frame, with its bit alone set; null with no change exactly when all are used; the address product does not wrap |
| PageAllocator.PageAllocator.PmFreePage | kernel/memory/physmem.cpp:35-40 | takes the free step of the set, for any 32-bit address: clears the bit of its frame, in the bitmap or behind it, and nothing else |
| PageAllocator.UsedAfter | kernel/memory/physmem.cpp:17-39 | setting adds one frame to the used set, clearing takes one away |
| PageAllocator.SetThenClearFrame | kernel/memory/physmem.cpp:26-39 | allocating and freeing a page restores the bitmap bit for bit |
| PageAllocator.FullWordFrames | kernel/memory/physmem.cpp:23 | a word is skipped if and only if its 32 frames are all used |
| PageAllocator.BitmapRefinesSet | kernel/memory/physmem.cpp:21-40 | the bitmap takes exactly the steps of "take the least missing frame" on a set |
| PageAllocator.OverwriteKeepsUsedIff | kernel/memory/physmem.cpp:10-11 | writing a word of the bitmap from outside changes the frames in use unless it writes the word that was there |
| PageRuns.EveryRunIsSound | kernel/memory/physmem.cpp:21-40 | over every run that frees no frame of the first megabyte, for every memory size, used frames are those of the first megabyte and the held pages, which are disjoint, and number as many |
| PageRuns.EveryRunIsSoundIff | kernel/memory/physmem.cpp:21-40 | that holds all through a run if and only if the run frees no frame of the first megabyte |
| PageRuns.AllocIsFreshAndComplete | kernel/memory/physmem.cpp:21-33 | an allocation fails exactly when the held pages fill the bitmap, and otherwise gives a page nobody holds, beyond frame 255 |
| PageRuns.AllocationsCountUp | kernel/memory/physmem.cpp:22-29 | from a fresh bitmap the n-th allocation gives frame 255 + n |
| PageRuns.GrantedPageExistsIff | kernel/memory/physmem.cpp:22-27 | the frame an allocation hands out is one of the memory if and only if some frame of the memory was not in use |
| PageRuns.EveryPageExistsIff | kernel/memory/physmem.cpp:7-33 | over all runs from `pm_init` that leave the first megabyte alone, only pages that exist are ever held, if and only if the number of pages is a multiple of 32 or below 256 |
| PageRuns.PageBeyondTheMemory | kernel/memory/physmem.cpp:8-9 | a memory of 257 pages, where two allocations hold frames 256 and 257 |
| PageRuns.OverlapsBitmapIff | kernel/memory/physmem.cpp:10-11 | page f shares bytes with the bitmap if and only if 256 <= f and f * 4096 lies below its end |
| PageRuns.FirstPageHoldsBitmap | kernel/memory/physmem.cpp:10-29 | the first page ever handed out is frame 256, in which the bitmap lies |
| PageRuns.OverlapsHeapIff | kernel/memory/heap.cpp:3-4 | page f shares bytes with the heap if and only if 512 <= f < 768 |
| PageRuns.HeapIsHandedOut | kernel/memory/physmem.cpp:13-29 | allocations 257 to 512 from `pm_init` on hand out the pages of the heap |
| PageRuns.HeapPageOfThisKernel | kernel/main.cpp:430-432 | with 128 MB there is such a run: its 257th allocation hands out frame 512 |
| CStrings.Kstrlen | kernel/include/string.h:31-40 | the number of characters before the first NUL, 0 for null |
| CStrings.Kstrcmp | kernel/include/string.h:23-29 | zero exactly for equal strings, otherwise the difference of the first characters that differ |
| CStrings.Kmemcpy | kernel/include/string.h:14-21 | the destination with one stretch replaced |
| CStrings.Kstrcpy | kernel/include/string.h:42-49 | the string and its terminator, with the bytes behind them left stale |
| FileStore.PathsAreSeparatorsThenName | kernel/fs/vfs.cpp:24-51 | a path denotes a file if and only if it is separators followed by that file's valid name, so two paths meet exactly when they agree behind the separators |
| FileStore.NamesInNumbers | kernel/fs/vfs.cpp:5-51 | a valid name has 1 to 31 characters, none of them NUL, 47 or 92, the first not 46; 47 and 92 are the separators; null denotes no file |
| FileStore.CreateCodes | kernel/fs/vfs.cpp:88-107 | invalid-name if and only if the path denotes no file, exists if and only if the file can be read, full if and only if it is new and there are 64 files; only success changes anything |
| FileStore.WriteCodes | kernel/fs/vfs.cpp:109-135 | each code of `write` if and only if name, room and size say so, with what is left in each case |
| FileStore.AppendCodes | kernel/fs/vfs.cpp:137-163 | each code of `append` likewise; a null content is never an error |
| FileStore.RemoveCodes | kernel/fs/vfs.cpp:227-247 | each code of `remove` likewise; success takes away one file, which restores the map if put back |
| FileStore.NameDenotesItself | kernel/fs/vfs.cpp:88-96 | normalising a normalised name changes nothing |
| FileStore.OnlyNamedFileChanges | kernel/fs/vfs.cpp:88-163 | no operation touches a file its path does not denote; a failing one changes nothing, except that a content too large leaves an empty new file |
| FileStore.UnnamedFileSurvives | kernel/fs/vfs.cpp:88-163 | over every run, a file no operation names keeps its content |
| FileStore.ReadAfterWrite | kernel/fs/vfs.cpp:109-168 | exactly when `write` succeeds, and that reading through any path to the file gives the content after any run on other files |
| FileStore.ReadAfterCreate | kernel/fs/vfs.cpp:88-107 | exactly when `create` succeeds, and that the file is then empty, through any run on other files |
| FileStore.AppendExtendsWrite | kernel/fs/vfs.cpp:109-163 | writing and appending equals writing the concatenation, or fails as too large and changes nothing |
| FileStore.RemoveUndoesCreate | kernel/fs/vfs.cpp:88-107 | removing a file just created restores the map |
| FileStore.EveryRunIsWellFormed | kernel/fs/vfs.cpp:88-163 | over every run there are at most 64 files, with valid names and contents that are strings below 1024 characters |
| Vfs.TableInvariant | kernel/fs/vfs.cpp:81-107 | used slots come first, with pairwise different valid names and `size` the length of the data string; all later slots are zero |
| Vfs.SlotsAreFiles | kernel/fs/vfs.cpp:59-63 | the map holds exactly the names of the used slots, each with its slot's content |
| Vfs.StoreIsDetermined | kernel/fs/vfs.cpp:59-63 | a table stands for one map only |
| Vfs.StoreIsWellFormed | kernel/fs/vfs.cpp:126-134 | the map of any valid table is well formed |
| Vfs.SwapDropsOne | kernel/fs/vfs.cpp:236-241 | swapping with the last slot drops exactly one file and keeps all others |
| Vfs.FileSystem.NormalizeName | kernel/fs/vfs.cpp:24-51 | succeeds exactly for paths that denote a file and fills the buffer with its name |
| Vfs.FileSystem.Find | kernel/fs/vfs.cpp:53-65 | finds the slot of the file, exactly if it exists |
| Vfs.FileSystem.AllocateSlot | kernel/fs/vfs.cpp:81-86 | the next slot, or none when 64 are used |
| Vfs.FileSystem.Create | kernel/fs/vfs.cpp:88-107 | result code and new map are those of `FileStore.Create` |
| Vfs.FileSystem.Write | kernel/fs/vfs.cpp:109-135 | result code and new map are those of `FileStore.Write`, so not-found and exists are never returned |
| Vfs.FileSystem.Append | kernel/fs/vfs.cpp:137-163 | result code and new map are those of `FileStore.Append`, so not-found and exists are never returned |
| Vfs.FileSystem.Read | kernel/fs/vfs.cpp:165-168 | a buffer that holds the content, or null exactly if there is no such file |
| Vfs.FileSystem.Exists | kernel/fs/vfs.cpp:170-172 | true exactly if the file can be read |
| Vfs.FileSystem.Stat | kernel/fs/vfs.cpp:174-189 | name and length of the content, or the exact error code with the output untouched |
| Vfs.FileSystem.Remove | kernel/fs/vfs.cpp:227-247 | result code and new map are those of `FileStore.Remove` |
| Vfs.FileSystem.Init | kernel/fs/vfs.cpp:16-22 | an empty map |
| Console.Console.VgaClear | kernel/hal/console.cpp:35-42 | the screen shows a cleared terminal |
| Console.Console.ScrollIfNeeded | kernel/hal/console.cpp:21-33 | the overlapping copy is a true move by one row: the picture shows the terminal one row further down |
| Console.Console.VgaPutChar | kernel/hal/console.cpp:44-64 | the screen stays the last 25 rows of the terminal fed the same character, with the cursor inside |
| Console.Console.VgaWrite | kernel/hal/console.cpp:66-73 | the terminal is fed the string, or "(null)" |
| Console.Console.VgaWriteUtf8 | kernel/hal/console.cpp:75-97 | the terminal is fed what the decoder makes of the buffer |
| Console.CharacterInPicture | kernel/hal/console.cpp:53-63 | on the 2000 cells: a character is stored at the cursor as 0x0F00 + c, no other cell changes, and the picture moves up by a row exactly if that was the last cell |
| Console.NewlineInPicture | kernel/hal/console.cpp:45-47 | a newline changes no cell, or in the last row moves the picture up over blanks 0x0F20 |
| Console.BackspaceInPicture | kernel/hal/console.cpp:48-52 | a backspace stores 0x0F20 to the left of the cursor, and does nothing in column 0 |
| Console.NullTextInNumbers | kernel/hal/console.cpp:67-69 | the text for null is "(null)" |
| Terminal.TextFillsRows | kernel/hal/console.cpp:53-61 | from column x on, character k of plain text stands in row (x + k) / 80, column (x + k) % 80, and what was above and to the left stays |
| Terminal.TextInNumbers | kernel/hal/console.cpp:53-61 | the cell of each character printed holds it in its low byte and 0x0F in its high byte |
| Terminal.BlanksInNumbers | kernel/hal/console.cpp:35-52 | cells at and behind the cursor, and all of a cleared terminal, hold 0x0F20 |
| Terminal.NewlineStartsAfresh | kernel/hal/console.cpp:45-47 | what follows a newline is laid out as on a cleared screen, below rows that no longer change |
| Terminal.BackspacesIff | kernel/hal/console.cpp:48-61 | n backspaces over a printed line show the line without its last n characters if and only if these stand in the row of the cursor, n <= (x + length) % 80 |
| Terminal.RewriteShowsIff | kernel/hal/console.cpp:48-61 | the same for erasing n characters and printing a text in their place |
| Terminal.EraseRestoresIff | kernel/hal/console.cpp:48-61 | backspacing over all of a printed text restores the terminal if and only if the text did not reach the end of its row |
| Terminal.FullRowIsNotErased | kernel/hal/console.cpp:48-61 | 80 characters on a cleared screen, which no number of backspaces takes back |
| Utf8.SkipByRange | kernel/hal/console.cpp:89-95 | the three mask tests recognise the lead bytes of 2, 3 and 4 byte characters |
| Utf8.AnyByte | kernel/hal/console.cpp:81-96 | for any byte, encoded text or not: what is printed and how many bytes are stepped over |
| Utf8.EncodeIsUtf8 | kernel/hal/console.cpp:81-96 | the encoding used is that of section 3 of RFC 3629: continuation bytes, shortest form, and the scalar value in the payload digits |
| Utf8.LeadByte | kernel/hal/console.cpp:81-96 | the decoder prints one character for an encoded scalar and steps exactly over its bytes |
| Utf8.DecodesEncoded | kernel/hal/console.cpp:75-97 | for encoded text the decoder meets every boundary, ends on the terminator, and prints the text with one question mark for each non-ASCII scalar |
| EditorSpec.StepKeepsGood | kernel/main.cpp:318-427 | every scancode keeps: terminated line of nonzero characters, `history_index` in range, a recalled line equal to its nonempty history entry |
| EditorSpec.HistoryIsLastTen | kernel/main.cpp:348-362 | after any run the history is the last ten submitted lines, added to what it was |
| EditorSpec.HistoryFromFresh | kernel/main.cpp:348-362 | from an empty history it is the last ten submitted lines in order |
| EditorSpec.SubmissionsAreEntries | kernel/main.cpp:364-376 | only nonempty lines of at most 255 characters are submitted |
| EditorSpec.UpsShow | kernel/main.cpp:323-345 | k Ups show entry count - k, or the oldest |
| EditorSpec.DownsShow | kernel/main.cpp:329-345 | k Downs move on by k, and past the newest give the empty line |
| EditorSpec.UpsThenDowns | kernel/main.cpp:318-346 | k Ups then k Downs end on the empty line with nothing recalled, so the line comes back if and only if it was empty |
| EditorSpec.ShiftedKeyAddsShifted | kernel/main.cpp:397-425 | a character key between pressing and releasing either shift key adds its shifted character and leaves shift off |
| EditorLaws.DigitRow | kernel/main.cpp:47-59 | keys 0x02 to 0x0D type 1234567890-= alone and !@#$%^&*()_+ with shift |
| EditorLaws.TopRow | kernel/main.cpp:47-59 | keys 0x10 to 0x1B type qwertyuiop[] alone and QWERTYUIOP{} with shift |
| EditorLaws.HomeRow | kernel/main.cpp:47-59 | keys 0x1E to 0x29 type the home row, alone and with shift |
| EditorLaws.BottomRow | kernel/main.cpp:47-59 | keys 0x2B to 0x35 type the bottom row, alone and with shift |
| EditorLaws.SingleKeys | kernel/main.cpp:47-59 | escape, Backspace, tab, Enter, star and blank |
| EditorLaws.DeadKeys | kernel/main.cpp:47-59 | the keys without a character |
| EditorLaws.LettersAreTyped | kernel/main.cpp:377-428 | on a fresh keyboard each letter 97 to 122 is typed by exactly one of the 256 scancodes, and that key types the letter minus 32 while either shift key is held |
| EditorLaws.DigitsAreTyped | kernel/main.cpp:377-428 | keys 0x02 to 0x0B type 1 to 9 and 0 |
| EditorLaws.OneEnterOneBackspace | kernel/main.cpp:409-425 | with or without shift, only 0x1C submits a line and only 0x0E shortens it |
| EditorLaws.CharacterKey | kernel/main.cpp:420-425 | a character key adds its character, prints it and ends a recall, up to 255 characters, and is ignored behind that |
| EditorLaws.EnterKey | kernel/main.cpp:348-376 | Enter submits the line, appends it to the last ten and prints a newline; on an empty line it only prints the newline |
| EditorLaws.BackspaceKey | kernel/main.cpp:412-419 | Backspace takes back one character, if there is one |
| EditorLaws.ShiftKeys | kernel/main.cpp:397-406 | the four shift scancodes |
| EditorLaws.OtherKeys | kernel/main.cpp:397-428 | every other scancode does nothing |
| EditorLaws.UpKey | kernel/main.cpp:318-345 | 0xE0 0x48, in full: entry shown, index, and what is printed |
| EditorLaws.DownKey | kernel/main.cpp:329-345 | 0xE0 0x50, in full |
| EditorLaws.OtherExtendedKey | kernel/main.cpp:380-395 | any other scancode behind 0xE0 does nothing and ends the prefix |
| EditorLaws.TypedText | kernel/main.cpp:420-425 | keys of a text that fits put it behind the line and on the screen |
| EditorLaws.TypedLineIsSubmitted | kernel/main.cpp:364-425 | a text of 1 to 255 characters typed on an empty line and ended by Enter is submitted as typed, becomes the newest of the last ten, and leaves an empty line with nothing recalled |
| EditorSpec.EchoStepIff | kernel/main.cpp:310-425 | after one key other than Enter the terminal shows the new line if and only if what the key takes back (one character for Backspace, the line for a recall) stands in the row of the cursor |
| EditorSpec.ScreenShowsLineIff | kernel/main.cpp:310-425 | over every run without Enter, lines of several rows included, the terminal shows exactly the line in the buffer at all times if and only if no key takes back more than stands in the row of the cursor |
| EditorSpec.ScreenShowsLine | kernel/main.cpp:310-425 | where such a run ends: everything it printed makes the terminal show the line |
| LineEditor.LineEditor.ClearInputBuffer | kernel/main.cpp:310-316 | an empty buffer, and one backspace printed for each character |
| LineEditor.LineEditor.ShowRow | kernel/main.cpp:338-345 | the whole history row arrives in the buffer: the copy guard never cuts it |
| LineEditor.LineEditor.RecallHistory | kernel/main.cpp:318-346 | buffer, index and output are those of the recall step |
| LineEditor.LineEditor.SaveHistory | kernel/main.cpp:348-362 | the rows hold the last ten lines, whatever stale bytes follow each |
| LineEditor.LineEditor.HandleEnter | kernel/main.cpp:364-376 | history, output and the line to execute are those of the enter step |
| LineEditor.LineEditor.KeyboardHandler | kernel/main.cpp:377-428 | one interrupt takes exactly one step of the state machine |
| Session.Session.KeyboardInterrupt | kernel/main.cpp:364-428 | one interrupt with the command it submits: the editor takes its step, and the files and outcomes are those of executing the line |
| Session.Session.Interrupts | kernel/main.cpp:377-428 | after any scancodes the files and outcomes are those of executing the submitted lines in their order |
| Session.TypeAtBoot | kernel/main.cpp:430-447 | the same from boot: editor, files and outcomes are functions of the scancodes typed |
| Session.TypedFilesAreWellFormed | kernel/main.cpp:377-428 | whatever is typed from boot on, there are at most 64 files, with valid names and contents below 1024 characters |
| Session.TypedLinesAreExecuted | kernel/main.cpp:364-428 | lines typed from boot on and ended by Enter are executed as typed, in their order |
| Session.TypedRecThenRdf | kernel/main.cpp:364-428 | once in scancodes: "rec a b" and "rdf a" typed at boot leave one file a with content b, and show it |
| ShellSpec.ParseRec | kernel/main.cpp:195-203 | "rec path text" is the path, cut to 31 characters, and the text |
| ShellSpec.CutKeepsNameIff | kernel/main.cpp:81-88 | the cut path denotes the same file if and only if nothing was cut |
| ShellSpec.CutPathIsNotFound | kernel/main.cpp:182-216 | a separator and 31 letters: the cut path names another file, and on an empty file system `rdf` does not find what `rec` wrote |
| ShellSpec.RecThenRdf | kernel/main.cpp:182-216 | "rec path text" makes "rdf path" show the text and "stat path" its length if the path fits the name buffer, and leaves "rdf path" as it was if not |
| ShellSpec.AppendThenRdf | kernel/main.cpp:218-235 | "append path text" extends what "rdf path" shows, new files included, or fails as full or too large and leaves the contents as they were; with a path too long for the name buffer "rdf path" is as before |
| ShellSpec.RmThenRdf | kernel/main.cpp:237-246 | "rm path" drops one file, and "rdf path" finds nothing |
| ShellSpec.StatShows | kernel/main.cpp:248-262 | "stat path" tells name and length, or not found |
| ShellLaws.CommandWords | kernel/main.cpp:164-262 | the command words, letter by letter |
| ShellLaws.PathCommands | kernel/main.cpp:170-246 | any number of blanks separates `touch`, `rdf`, `rm` and `stat` from the path |
| ShellLaws.TextCommands | kernel/main.cpp:195-230 | the same for `rec` and `append` and the blanks before the text; `rec` without a text is a usage error |
| ShellLaws.TouchThenRdf | kernel/main.cpp:170-180 | "touch path" in full: invalid name, exists, full, or a new empty file that `rdf` and `stat` then show |
| ShellLaws.InvalidNames | kernel/main.cpp:170-262 | what `touch`, `rm`, `rdf` and `stat` tell of a path that denotes no file |
| ShellLaws.MissingPaths | kernel/main.cpp:170-262 | what each command tells of a line without a path |
| ShellLaws.RecLaw | kernel/main.cpp:195-216 | "rec path text" in full: usage, invalid name, full, too large, or the content written |
| ShellLaws.AppendLaw | kernel/main.cpp:218-235 | "append path text" in full, with or without a text |
| ShellLaws.OtherLines | kernel/main.cpp:164-262 | `lst` lists, and any other line leaves the files alone |
| ShellSpec.TypedRecIsNeverTooLarge | kernel/main.cpp:195-213 | no line typed in any run makes `rec` fail for its size |
| Shell.StartsWithText | kernel/main.cpp:65-72 | true exactly if the string starts with the prefix |
| Shell.SkipSpaces | kernel/main.cpp:74-79 | the string behind its leading blanks |
| Shell.CopyToken | kernel/main.cpp:81-88 | the first word, cut to the buffer, with a terminator |
| Shell.Shell.ExecuteCommand | kernel/main.cpp:164-262 | the outcome and the files are those of parsing the line and executing the command |
| Numbers.GuardsNeverCut | kernel/memory/libc.cpp:16 | no 32-bit value has more than 32 digits in any base, nor more than 10 in base 10 |
| Numbers.PrintUnsigned | kernel/memory/libc.cpp:7-25 | the digits of the value, in any base from 2 |
| Numbers.PrintSigned | kernel/memory/libc.cpp:27-34 | a sign for negative values, then the digits |
| Numbers.PrintUint | kernel/main.cpp:108-122 | the same decimal digits |
| Numbers.FormatSize | kernel/fs/vfs.cpp:200-216 | the same decimal digits, terminated, in a 12-byte buffer |
| Numbers.Atoi | kernel/memory/libc.cpp:82-98 | the number the text denotes, with no overflow on the way |
| Numbers.ReadSigned | kernel/memory/libc.cpp:27-98 | reading what `print_signed` wrote gives the number back, for every `int` but the least |
| Numbers.ReadNumber | kernel/memory/libc.cpp:82-98 | the same behind any white space and before anything that is no digit |
| Numbers.NoNumberReadsAsZero | kernel/memory/libc.cpp:82-98 | a text without a number reads as 0 |
| Numbers.DigitsInBase | kernel/memory/libc.cpp:7-25 | in every base from 2 to 36 the digits printed are below the base, have the value printed, and do not begin with 0 unless it is 0 |

## Left out

- KernelHeap.KernelHeap.Kmalloc: covers calls that return; when a call does not return is `HeapLists.ReturnsIff`. Where a wrapped sum makes the two headers of a split overlap, it states the pointer, the header of the block taken and what is not written, but not the bytes of the new header that remain.
- KernelHeap.KernelHeap.Kfree: takes null or a pointer to some block; what the code does to memory for a pointer into the middle of a block is not modelled.
- HeapCycles.MallocKeepsAcyclicIff: says nothing of a split for a wrapped total of 1 to 11, whose headers overlap: the table then does not describe the bytes (`KernelHeap.KernelHeap.Kmalloc`).
- PageAllocator.PageAllocator.PmFreePage: takes the 128 KB from 1 MB on to be memory, which every frame number of a 32-bit address selects a word of.
- PageRuns.EveryRunIsSound: keeps the bitmap apart from the pages; a client that writes to a page in which the bitmap lies changes the frames in use without a call (`PageRuns.FirstPageHoldsBitmap`).
- Words.SetAndClear: words are numbers below 2^32 with the bitwise operators defined digit by digit, because the solver handles induction on digits better than wide bit-vectors.
- Vfs.FileSystem.Append: takes content buffers that leave 1024 addresses free, which any string beside the file table does; the 32-bit sum of line 155 then cannot wrap.
- Vfs.FileSystem: a slot is a record with its buffers as sequences, so copying a slot is copying a value; `kmemset` of a slot is the assignment of a zero record, and content that aliases a slot's own data is not modelled.
- Console.Console.VgaWriteUtf8: a text cut off in the middle of a character, whose decoding runs past the terminator and the buffer, is excluded.
- LineEditor.LineEditor.HandleEnter: returns the line instead of calling `execute_command`, which reads the buffer and never changes the editor; `Session.Session` calls it. Printed characters are collected in a field, without the prompt and what the command prints.
- LineEditor.LineEditor.KeyboardHandler: on Enter, likewise without the prompt and what the command prints.
- Numbers.PrintSigned: excludes the least `int`, whose negation overflows.
- Numbers.Atoi: takes texts whose number is an `int`; longer digit strings overflow.
- Shell.Shell.ExecuteCommand: the file branches; which message is printed is an outcome value, and the help, about, CPU, language and app branches are one outcome that leaves the files alone.
- The listing of `lst` beyond its size column, and `pwd`.
- `printf`, `kstrncpy`, the character class functions that only test ranges, and `stdlib.cpp`.
- Interrupt setup, port I/O, the hardware cursor, paging, boot code, message tables and the app registry.
- The duplicate sources under `hal/`, which the build does not use.
