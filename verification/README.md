# A verified model of the OS's file system, shell tree commands and terminal

The operating system keeps its files in a small FAT file system on a 4 MiB image: 2048 clusters of
2048 bytes, a boot block with a signature, a 512-cell cluster map in cluster 1 that is cached in
driver memory, the root directory in cluster 2, and directory tables of 64 slots of 32 bytes whose
slot 0 names the directory itself. Files are chains threaded through the map. On top of it sit a
shell that walks, searches and copies directory trees with driver calls only, a system call that
moves entries, a text screen that scrolls, and a keyboard interrupt routine that edits a line in a
buffer and on the screen at the same time.

This project models these parts in Dafny and proves what they are for.

## How the model is built

* **Two levels, connected.** Code that works step by step is imperative here too: `Storage.Image`,
  `Driver.FileSystem`, `Session.DirStack`, `Terminal.Screen` and `Keyboard.KeyboardDriver` are
  classes with the fields the C code has, their methods have its loops and branches, and each method
  is proved to equal a function of the old state (module `Calls` for the driver; `Cd`, `Print`, `Isr`
  elsewhere). The theorems are then proved about those functions, so that they hold of the methods.
* **The global invariant.** `Tree.Represents(s, t)` says that the cached map and the disk `s` store
  the directory tree `t`: every entry heads its own chain, ascending and ending in the end-of-file
  value; directories are single end-of-file cells whose slot 0 names them; no cell serves two
  purposes; and a cell from 2 up is in use exactly when the tree uses it, so nothing leaks.
  `Tree.Synced(s)` adds that cluster 1 holds the cached map and the boot block is signed.
* **The tree is the meaning.** A tree lists, per directory, its slots with names, sizes, chains and
  file contents. Operations are proved to be edits of one slot (`Edits.Edit`), and
  `Locality.EditChangesOneSlot` says what such an edit leaves alone: every other slot of every
  other directory. The tree of a state is unique (`Edits.TreeUnique`), so "the invariant is lost" is
  stated as "no tree fits". `Directories` says the same of whole calls and runs: every directory that is
  not deleted stays, with every slot no call names, and opens the same names.

* **Also in plain terms.** What the functions that methods and theorems share produce is stated once
  more without them: codes by the slots and cells a caller can look at (`Results`), bytes by offset and
  value (`Layout`, `OnDisk`), keys by the key tables (`Keyboard`, `LineInput`), printed cells by character
  and colour (`Terminal`), lines by a reader that takes them apart again (`SpelledLines`), the stack by
  round trips (`Session`), and a copy by what it delivers (`CopyMeans`).

| module | content |
|---|---|
| Layout, Chains, Memory, Storage | bytes, entries, tables and the map; chains in the map; byte loops over one memory; the image in blocks and clusters |
| Calls, Driver, Results | the driver's calls as functions of (map, disk), the driver itself as a class, and exactly when each code comes back |
| Tree, TreeFacts, Edits, Locality | trees, when they are stored, and edits of one slot |
| Refinement, Moving, Limits | what write, delete and move do to the tree, and exactly when they keep the invariant |
| Runs, OnDisk, ReadBack, Directories, Accounting | whole runs, the bytes on disk after each call, reading back files, what directories keep, conservation and undo |
| Copying, CopyReadiness, Shell, CopyMeans | copying a file and a whole directory tree, and what a copy delivers |
| CopyRuns, ExactFit | every way a tree copy can end, and what becomes of a directory that lists one with its own name |
| Paths, Session | the shell's directory stack |
| Search, SpelledLines, Trails, WhereIs | what a search should print, the walk over any state, and the search itself |
| Resolving, Walks, WalkCases | when directories can be opened by name, when the walk is right, and walks that are not |
| Terminal, Keyboard, LineInput | the screen, the interrupt routine, and reading a line under interrupts |

## Where the code and its intent part

The code is modelled as it is. In each of these places a lemma says when the intended property holds,
exactly where the text says so:

* `delete` frees a file with a do-while that tests the cell behind the one just freed, so it is right
  for chains of two cells or more and leaves the map's bounds on a file of one cluster. Exactly:
  `Chains.LoopFreesLongChains`, `Refinement.DeleteDefinedIff`.
* `write` does not look for duplicates, and in a full directory it overwrites slot 0, the
  directory's own entry. A new directory whose first free cell is 511 is refused after the cell
  has been marked, so the cell is lost. And slots 1 to 63 of a new directory come from an uninitialised
  local, which the model takes as the parameter `stack`: they must happen to be blank. Exactly:
  `Limits.WriteKeepsInvariantIff`.
* A move inside one directory duplicates the entry, and a move of a directory below itself detaches
  it. Exactly: `Moving.MoveKeepsInvariantIff`. A move of slot 0 overwrites the boot block
  (`Moving.MoveOfSelfEntry`).
* `read_directory` scans from slot 0, where a directory carries its own name, so a subdirectory named
  like its parent, or like an earlier sibling, cannot be opened by name. Exactly, for one lookup:
  `ReadBack.ResolvesIff`, and for all of a tree: `Resolving.FoldersResolveIff`. `write` makes such
  directories (`Resolving.HiddenAtBirth`), and `change_directory` then pushes the parent again
  (`Paths.CdKeepsPathIff`, exactly).
* `where_is` therefore lists some directories in place of others. Every call of its recursion compares
  exactly the entries of the directory on top of its stack iff no directory lists one with its own name,
  directories of one name side by side list the same, and none lies deeper than 254 levels
  (`Walks.WalkIsRightIff`). Then the search prints the right lines for every target
  (`Walks.WalkFindsAll`). The lines alone can be right by luck when calls are wrong
  (`WalkCases.LuckyWalk`), so the condition is exact for the calls, not for the lines. The smallest failing
  case prints an entry twice (`WalkCases.OwnNameListedTwice`). A line is built in 256 bytes: it fits on
  stacks of up to 27 levels and a file with full names overruns it at 28 (`WhereIs.ShallowLinesFit`,
  `WhereIs.DeepLineOverruns`).
* `copy_folder` calls itself with its own directories when a directory lists one with its own name, and
  never ends in a copy while a cell is to spare (`CopyRuns.OwnNameCopyFails`); running out of cells at the
  right moment can still save it (`ExactFit.ExactFitCopies`). For the other names the two scans of a copy
  can confuse, `Copying.Copyable` is proved to be enough, not to be needed.
* The interrupt routine's index is one byte. The 256th character wraps it to zero, an arrow moves the
  cursor off the line, and ESC wipes the buffer without resetting the index. Line buffer and screen stay
  together exactly as `Keyboard.CouplingKeptIff` says, `Keyboard.WrapLosesLine` shows the 256th character,
  and lines are delivered exactly as `LineInput.DeliveryIff` says: all but Enter and the arrow need fewer
  than 256 characters, and ESC is right only where the index is zero afterwards.
* `memcpy` on overlapping memory is right exactly when it moves bytes down, as scrolling does:
  `Memory.CopyUpCorrectIff`.

The header comments promise other return values than the code gives: `delete` returns -1, not 1, when
nothing is found; `write` never reports an existing name; `read` never returns 1 for a directory
entry, only for a zero buffer size. The model follows the code.

## Model

| member | source | states |
|---|---|---|
| Layout.U16RoundTrip | src/filesystem/fat32.c:52-57 | the high/low split of a 16-bit half of a cluster number loses nothing |
| Layout.U32RoundTrip | src/lib-header/fat32.h:59-61 | a map cell written as four bytes reads back the same |
| Layout.U32BytesRoundTrip | src/lib-header/fat32.h:59-61 | any four bytes survive being read as a cell and written back |
| Layout.DirEntry | src/filesystem/fat32.c:39-61 | the entry of a directory names its cluster through the high/low halves |
| Layout.FileEntry | src/filesystem/fat32.c:267-277 | the entry of a new file names the first cell of its chain through the high/low halves |
| Layout.EntryRoundTrip | src/lib-header/fat32.h:83-99 | an entry encoded in 32 packed bytes decodes to itself, all fields |
| Layout.EntryBytesRoundTrip | src/lib-header/fat32.h:83-99 | any 32 bytes are the encoding of the entry they decode to |
| Layout.EncodedSlot | src/lib-header/fat32.h:101-104 | slot i of a table is the 32 bytes from byte 32 i of its cluster |
| Layout.TableRoundTrip | src/lib-header/fat32.h:101-104 | a table stored in a cluster reads back with all 64 entries |
| Layout.TableBytesRoundTrip | src/lib-header/fat32.h:101-104 | reading a table and writing it back leaves the cluster byte for byte |
| Layout.EncodedCell | src/lib-header/fat32.h:54-61 | cell i of the map is the four bytes from byte 4 i of cluster 1 |
| Layout.FatRoundTrip | src/lib-header/fat32.h:54-61 | the map stored in cluster 1 reads back cell for cell |
| Layout.CellBytes | src/lib-header/fat32.h:59-61 | cell i of the map is stored at bytes 4 i to 4 i + 3 of cluster 1, the lowest byte first |
| Layout.LoadedCell | src/filesystem/fat32.c:105-105 | and loaded from them in that order |
| Layout.FieldBytes | src/lib-header/fat32.h:83-99 | the byte at which each field of an entry lies, 16-bit fields and the size with the lowest byte first |
| Layout.SlotBytes | src/lib-header/fat32.h:101-104 | byte j of slot i is byte 32 i + j of the table's cluster |
| Layout.DirEntryBytes | src/filesystem/fat32.c:39-61 | the 32 bytes of a directory's entry |
| Layout.FileEntryBytes | src/filesystem/fat32.c:267-330 | the 32 bytes of a file's entry |
| Layout.ReservedValues | src/lib-header/fat32.h:24-29 | the reserved map values, the root's name and the blank slot as numbers |
| Layout.SignatureRow0 | src/filesystem/fat32.c:9-16 | the first 16 bytes of the signature; SignatureRow1 to SignatureRow4 say the next 64 |
| Layout.SignatureEnd | src/filesystem/fat32.c:14-16 | zeroes, and the two letters at the end of the block |
| Chains.ChainUnique | src/filesystem/fat32.c:208-213 | a cell heads at most one chain |
| Chains.ChainSuffix | src/filesystem/fat32.c:208-226 | from any position, the rest of a chain is the chain of that cell, and the map links it to the next |
| Chains.ChainDistinct | src/filesystem/fat32.c:208-226 | a chain never visits a cell twice, so both walks of `read` end |
| Chains.ChainFrame | src/filesystem/fat32.c:208-226 | changing cells outside a chain does not change the chain |
| Chains.FreeCells | src/filesystem/fat32.c:305-314 | the cells picked are at most n, in range and free |
| Chains.FreeCellsAscend | src/filesystem/fat32.c:305-314 | they come in increasing order, so links always point upward |
| Chains.FirstFit | src/filesystem/fat32.c:305-314 | no free cell below a picked one is passed over, and none at all when fewer than n are found |
| Chains.FirstFitSucceeds | src/filesystem/fat32.c:316-319 | n cells are found iff at least n are free; otherwise all free cells are taken into account |
| Chains.LinkCells | src/filesystem/fat32.c:321-325 | linking sets each picked cell to the next one, the last to end of file, and nothing else |
| Chains.LinkMakesChain | src/filesystem/fat32.c:321-325 | linking makes one chain that visits the picked cells in that order and touches no other cell |
| Chains.FreesIsChain | src/filesystem/fat32.c:410-421 | whatever cells the do-while frees from a head other than cell 0 are the whole chain of that head |
| Chains.LoopFreesLongChains | src/filesystem/fat32.c:410-421 | the do-while frees exactly a given chain iff it has two cells or more; for a shorter one no run of it stops inside the map |
| Chains.Blocks | src/filesystem/fat32.c:332-337 | a buffer is cut into its consecutive clusters |
| Chains.ConcatBlocks | src/filesystem/fat32.c:222-226 | joining the clusters gives the buffer back |
| Chains.WrittenHolds | src/filesystem/fat32.c:332-337 | writing the clusters leaves each in its own cell's place and every other cluster alone |
| Memory.CopyUpMoves | src/stdmem.c:11-17 | the ascending byte loop moves a block that is disjoint from its source or lies below it |
| Memory.CopyUpFrame | src/stdmem.c:11-17 | it touches no byte outside the destination |
| Memory.CopyUpRepeats | src/stdmem.c:11-17 | when the destination lies inside the source, the first bytes are repeated with the distance as period |
| Memory.CopyUpCorrectIff | src/stdmem.c:11-17 | it is a correct move on every memory iff the destination starts no later than the source or after its end |
| Memory.CopyUpFails | src/stdmem.c:11-17 | for every other overlap there is a memory on which it is wrong |
| Memory.Memcpy | src/stdmem.c:11-17 | between different objects it copies n bytes and changes nothing else |
| Memory.MemcpyWithin | src/stdmem.c:11-17 | inside one memory the loop computes the ascending copy, whatever the overlap |
| Memory.Memmove | src/stdmem.c:32-44 | for every overlap the n old source bytes end up at the destination and nothing else changes |
| Memory.CopyDown | src/stdmem.c:38-41 | the descending loop is right when the destination lies above |
| Memory.Memset | src/stdmem.c:4-9 | n bytes become c, the rest is unchanged |
| Memory.Memcmp | src/stdmem.c:19-30 | 0 iff the first n bytes agree, otherwise the sign of the first difference |
| Memory.SpliceBytes | src/stdmem.c:11-17 | where each byte of a memory comes from after a copy into it |
| Storage.Image.ReadBlocks | src/inserter/external-inserter.c:42-45 | the buffer receives exactly the addressed blocks |
| Storage.Image.WriteBlocks | src/inserter/external-inserter.c:47-50 | exactly the addressed blocks of the image are replaced |
| Storage.Image.ReadCluster | src/filesystem/fat32.c:130-132 | the buffer receives one cluster |
| Storage.Image.WriteCluster | src/filesystem/fat32.c:118-120 | one cluster is replaced, all others stay |
| Storage.SpliceCluster | src/filesystem/fat32.c:118-120 | writing 2048 bytes at a cluster's offset is replacing that cluster in the list of clusters |
| Storage.ClusterBytes | src/filesystem/fat32.c:27-30 | cluster c is the 2048 bytes from byte 2048 c of the image |
| Calls.FindDir | src/filesystem/fat32.c:164-176 | the first slot from i with that name and the directory attribute, or 64 when there is none |
| Calls.FindEntry | src/filesystem/fat32.c:203-204 | the first slot from i with that name and extension, or 64 when there is none |
| Calls.FindFree | src/filesystem/fat32.c:258-265 | the first slot from i that is not live, or 64 when all are |
| Results.LookupCodes | src/filesystem/fat32.c:148-178 | exactly when `read_directory` gives -1, 1, 2 and 0, and which cluster it opens |
| Results.ReadCodes | src/filesystem/fat32.c:187-232 | exactly when `read` gives -1, 1, 3, 2 and 0, and with which clusters |
| Results.WriteCodes | src/filesystem/fat32.c:242-345 | exactly when `write` gives -1, 2, 1 and 0; on an error the disk and all cells below 511 are as they were |
| Results.FilledSlot | src/filesystem/fat32.c:258-265 | `write` fills the first slot that is not live, and slot 0 when all are |
| Results.DeleteCodes | src/filesystem/fat32.c:354-449 | exactly when `delete` gives -1, 2 and 0 |
| Driver.FileSystem.constructor | src/lib-header/fat32.h:112-123 | the driver starts with a zeroed map and directory buffer |
| Driver.FileSystem.IsEmptyStorage | src/filesystem/fat32.c:68-73 | true iff the boot block does not hold the signature |
| Driver.FileSystem.CreateFat32 | src/filesystem/fat32.c:80-91 | signature, three reserved cells, map and root table are written; the rest of the map and of the buffer is what memory held |
| Driver.FileSystem.Initialize | src/filesystem/fat32.c:101-108 | formats an unsigned disk, loads the map of a signed one; either way the directory buffer is the root's table |
| Driver.FileSystem.ReadDirectory | src/filesystem/fat32.c:148-178 | the result code of the lookup, the found cluster in the buffer iff it is 0, and nothing else changed |
| Driver.FileSystem.Read | src/filesystem/fat32.c:187-232 | the result code of `Calls.Read`; the delivered clusters fill the start of the buffer and the rest of it is untouched |
| Driver.FileSystem.CountChain | src/filesystem/fat32.c:209-213 | the counting walk returns the length of the chain |
| Driver.FileSystem.CopyChain | src/filesystem/fat32.c:220-226 | the copying walk lays the clusters of the chain end to end and touches nothing behind them |
| Driver.FileSystem.Write | src/filesystem/fat32.c:242-345 | map, disk and code are those of `Calls.Write`, of which the theorems below speak |
| Driver.FileSystem.SlotToFill | src/filesystem/fat32.c:258-265 | the first slot that is not live, slot 0 when all are |
| Driver.FileSystem.MakeDirectory | src/filesystem/fat32.c:279-301 | map, disk and code are those of `Calls.MakeDirectory`, with the full-map case after the marking |
| Driver.FileSystem.MakeFile | src/filesystem/fat32.c:302-342 | map, disk and code are those of `Calls.MakeFile` |
| Driver.FileSystem.FindCells | src/filesystem/fat32.c:305-314 | the scan returns the n lowest free cells, or all of them |
| Driver.FileSystem.LinkCells | src/filesystem/fat32.c:321-325 | the loop links the cells into the map and leaves the disk alone |
| Driver.FileSystem.StoreBlocks | src/filesystem/fat32.c:332-337 | the loop writes the k-th cluster of the buffer to the k-th cell's cluster |
| Driver.FileSystem.Delete | src/filesystem/fat32.c:354-449 | map, disk and code are those of `Calls.Delete`, of which the theorems below speak |
| Driver.FileSystem.DeleteAt | src/filesystem/fat32.c:366-445 | the branch for the entry found: 2 for a directory with entries, otherwise its cells freed and zeroed, its slot blanked, map and table stored |
| Driver.FileSystem.IsEmptyDirectory | src/filesystem/fat32.c:375-382 | true iff no slot from 1 up is live |
| Driver.FileSystem.FreeChain | src/filesystem/fat32.c:401-421 | the do-while and its epilogue free and zero exactly the cells of the chain, and stop |
| Driver.FileSystem.Move | src/interrupt/interrupt.c:93-138 | system call 8 on two table copies equals `Calls.Move`: entry carried over at the first free slot, source slot zeroed, both tables stored where their slot 0 says |
| TreeFacts.StoredFrame | src/filesystem/fat32.c:148-178 | a subtree is still stored when its own cells and its table slots are unchanged |
| TreeFacts.PutStored | src/filesystem/fat32.c:267-277 | replacing one slot of a table stores the slot list with that slot replaced |
| TreeFacts.GraftStored | src/filesystem/fat32.c:340-342 | rewriting one directory anywhere below stores the tree with that directory's slots replaced |
| Edits.SlotAtStored | src/filesystem/fat32.c:203-206 | each slot of a stored directory is the entry of what the tree has there, with its cells inside the tree's |
| Edits.EditStored | src/filesystem/fat32.c:340-342 | changing one table slot, with its new content already stored in cells of its own, stores the edited tree and no cell is shared |
| Edits.EditDirs | src/filesystem/fat32.c:340-342 | the directories of the edited tree are the old ones, less those of the old content, plus those of the new |
| Edits.TreeUnique | src/filesystem/fat32.c:148-178 | a map and a disk store at most one tree |
| Locality.EditChangesOneSlot | src/filesystem/fat32.c:340-342 | after an edit every other slot of every other directory shows the same name, size, chain and contents as before, and the edited one shows the new entry |
| Locality.ShownAlike | src/filesystem/fat32.c:267-277 | slots that show the same are one file with the same contents in the same cells, or one subdirectory |
| Refinement.DeltaEdits | src/filesystem/fat32.c:340-342 | a change of the state confined to one table slot and to the cells of its old and new content keeps the whole invariant, for the edited tree |
| Refinement.AllocationIsFresh | src/filesystem/fat32.c:305-314 | the cells first fit picks are distinct, in range and used by nothing in the tree |
| Refinement.MakeFileCells | src/filesystem/fat32.c:321-337 | the new file's chain, size and contents are stored, and all its cells are in use |
| Refinement.BlocksHeld | src/filesystem/fat32.c:332-342 | the contents survive the writing of the map and of the parent table |
| Refinement.MakeFileDelta | src/filesystem/fat32.c:302-342 | a file `write` changes only the target slot, the allocated cells and the stored map |
| Refinement.MakeFileRefines | src/filesystem/fat32.c:302-345 | with a free slot, a file `write` succeeds iff enough cells are free; it then adds exactly one file, with the buffer's clusters as contents, in a slot that was free; otherwise it returns 1 and changes nothing |
| Refinement.MakeDirectoryDelta | src/filesystem/fat32.c:279-301 | a directory `write` changes only the target slot, one cell and the stored map; the new table names itself in slot 0 |
| Refinement.MakeDirectoryRefines | src/filesystem/fat32.c:279-301 | with a free slot and a clean new table it adds exactly one empty directory; with a full map it returns 1 unchanged; with 511 the first free cell it returns 1 with that cell marked |
| Refinement.EmptyIffNoLiveSlot | src/filesystem/fat32.c:375-382 | the emptiness test of `delete` is true exactly of directories without entries |
| Refinement.ReleaseDelta | src/filesystem/fat32.c:426-443 | removing an entry changes only its slot, the freed cells and the stored map |
| Refinement.DeleteTarget | src/filesystem/fat32.c:364-366 | the entry `delete` finds is a file or directory of the tree with the requested name and extension |
| Refinement.DeleteDefinedIff | src/filesystem/fat32.c:354-449 | in a well-formed state `delete` stays within the map and stops iff what it finds is not a file of one cluster |
| Refinement.DeleteFileRefines | src/filesystem/fat32.c:401-424 | deleting a file frees its chain and empties its slot of the tree |
| Refinement.DeleteFolderRefines | src/filesystem/fat32.c:368-400 | an empty directory leaves the tree; a directory with entries gives 2 and changes nothing |
| Refinement.DeleteRefines | src/filesystem/fat32.c:354-449 | not found: -1 and unchanged; non-empty directory: 2 and unchanged; otherwise 0 and the tree loses exactly that slot's content |
| Moving.Unlink | src/interrupt/interrupt.c:117-131 | after the source table is stored, the entry and what lies below it are out of the tree, their cells intact |
| Moving.Relink | src/interrupt/interrupt.c:100-115 | after the destination table is stored, the entry is back at the first free slot with all it holds |
| Moving.MoveRefines | src/interrupt/interrupt.c:93-138 | a move to another directory not below the entry takes it from one slot to the other with all it holds; a full destination makes it a no-op; the map never changes |
| Moving.MoveConservesEntries | src/interrupt/interrupt.c:93-138 | the multiset of live entries over the two tables is the same before and after; no map cell and no other cluster changes |
| Moving.LiveEntriesCount | src/interrupt/interrupt.c:93-138 | what is counted: for each live entry the slots holding it |
| Moving.MoveOfSelfEntry | src/interrupt/interrupt.c:93-138 | a move of slot 0 to a directory with room stores the source table over the boot block, so that the next start finds no file system; to a full one it changes nothing |
| Moving.MoveWithinDirectory | src/interrupt/interrupt.c:93-138 | a move inside one directory leaves a state that stores no tree: the entry is there twice |
| Moving.MoveUnderItself | src/interrupt/interrupt.c:93-138 | a move of a directory to a place below itself leaves a state that stores no tree |
| Moving.MoveKeepsInvariantIff | src/interrupt/interrupt.c:93-138 | for a live entry, the invariant survives a move iff the destination is full, or is another directory outside the moved one |
| Limits.FullDirectoryLost | src/filesystem/fat32.c:258-277 | a successful `write` into a full directory leaves a state that stores no tree |
| Limits.LastCellLeaks | src/filesystem/fat32.c:281-294 | marking cell 511 and returning leaves a used cell that belongs to nothing |
| Limits.StackWasClean | src/filesystem/fat32.c:296-298 | if the invariant holds after a directory was made, slots 1 to 63 of the uninitialised table were blank |
| Limits.WriteKeepsInvariantIff | src/filesystem/fat32.c:242-345 | the invariant survives `write` iff the directory has a free slot, and for a new directory the first free cell is not 511 and the uninitialised slots are blank, or there was no room on the disk anyway |
| Runs.FormatRepresents | src/filesystem/fat32.c:80-91 | formatting from zeroed memory stores the tree with an empty root, map and signature on disk |
| Runs.RemountRestores | src/filesystem/fat32.c:101-108 | initialising from a synced disk gives the same map and disk, whatever memory held |
| Runs.LegalIsDefined | src/filesystem/fat32.c:242-449 | a call that meets what callers can check stays inside the map and the disk |
| Runs.StepRefines | src/filesystem/fat32.c:242-449 | each legal write, delete, move or reboot leads to the state that stores the tree after the abstract step, with cache and disk agreeing |
| Runs.RunKeepsInvariant | src/filesystem/fat32.c:242-449 | after every legal run the invariant and the agreement hold |
| Runs.RunFromFormat | src/filesystem/fat32.c:101-108 | from any unsigned disk: format, any legal run, restart with any memory contents gives exactly the state before the restart |
| OnDisk.StepStoresMap | src/filesystem/fat32.c:340-342 | after every legal write, delete, move or restart cluster 1 holds the cached map, four bytes a cell, the lowest first |
| OnDisk.InitializeLoads | src/filesystem/fat32.c:101-108 | a signed disk's cells are loaded from those bytes |
| OnDisk.FormatBytes | src/filesystem/fat32.c:80-91 | byte by byte: the signature, the three reserved cells, the root's own entry, all else as it was |
| OnDisk.FileBytes | src/filesystem/fat32.c:302-342 | after a file `write`: the 32 bytes of the new entry, the chain in the map, the buffer's clusters at its cells, and all else as it was |
| OnDisk.DirectoryBytes | src/filesystem/fat32.c:279-301 | after a directory `write`: the same 32 bytes in the parent and in the directory's own slot 0, one cell, and all else as it was |
| OnDisk.DeletedBytes | src/filesystem/fat32.c:368-443 | after a `delete`: the entry's slot, its cells and every byte of their clusters are zero, and all else is as it was |
| OnDisk.MovedBytes | src/interrupt/interrupt.c:93-138 | after a move: the 32 bytes in the destination's first free slot, zeroes in the old one, and all else as it was |
| ReadBack.ReadDelivers | src/filesystem/fat32.c:203-227 | `read` of the file found gives 0 and all its clusters in order iff the buffer holds that many clusters, otherwise 2 and nothing |
| ReadBack.ReadNotFoundIff | src/filesystem/fat32.c:203-231 | `read` gives 3 iff no slot of the directory has that name and extension |
| ReadBack.ResolvesIff | src/filesystem/fat32.c:148-178 | `read_directory` opens the directory in slot m under its name iff the parent's own name differs and no earlier subdirectory has that name |
| ReadBack.FilesAreDisjoint | src/filesystem/fat32.c:305-342 | files in different slots anywhere in the tree share no cell |
| ReadBack.FileIsNotADirectory | src/filesystem/fat32.c:305-342 | no cell of a file is a directory |
| ReadBack.FailedWriteChangesNothing | src/filesystem/fat32.c:242-345 | a legal `write` that returns an error leaves map and disk as they were |
| ReadBack.Released | src/filesystem/fat32.c:364-446 | a successful `delete` frees exactly the cells the tree has at that slot |
| ReadBack.StepKeepsOthers | src/filesystem/fat32.c:242-449 | a legal step that does not concern a file leaves it readable, with the same contents under the same name |
| ReadBack.RunKeepsOthers | src/filesystem/fat32.c:242-449 | so does every legal run |
| Directories.StepKeepsDirectories | src/filesystem/fat32.c:242-449 | a legal call keeps every directory it does not delete, also those below a moved one, and every slot it does not name shows the same file with the same contents, the same subdirectory, or nothing |
| Directories.StepKeepsLookup | src/filesystem/fat32.c:148-178 | and each name no entry of which it creates, removes or moves there opens the same directory |
| Directories.RunKeepsDirectories | src/filesystem/fat32.c:242-449 | the same of every slot over any legal run that spares it |
| Directories.RunKeepsLookup | src/filesystem/fat32.c:148-178 | the same of every name over any legal run that spares it |
| ReadBack.WriteDelivers | src/filesystem/fat32.c:302-345 | right after a file `write`, the name resolves to the new slot, with the buffer's clusters, unless an earlier entry has the same name and extension |
| ReadBack.WriteThenRead | src/filesystem/fat32.c:187-345 | after a file `write` and any legal run of other writes, deletes, moves and reboots, `read` with a large enough buffer returns exactly the bytes written |
| ReadBack.InserterKeepsEveryByte | src/inserter/external-inserter.c:84-86 | the rounded-up size is the least multiple of the cluster size that holds the file, so no byte of it is cut off |
| Accounting.LinksAscend | src/filesystem/fat32.c:321-325 | in a stored tree each used cell is an end of file or points to a higher cell of the tree |
| Accounting.LinksInjective | src/filesystem/fat32.c:321-325 | no two cells of a stored tree point to the same one |
| Accounting.MapShape | src/filesystem/fat32.c:208-226 | in every state that stores a tree, each used cell from 2 up is an end of file or points to a higher used cell, and no two share a successor |
| Accounting.CellsAreConserved | src/filesystem/fat32.c:305-325 | free cells plus the cells of all entries and the root are always 510 |
| Accounting.WriteThenDelete | src/filesystem/fat32.c:302-445 | writing a file of two clusters or more and deleting it restores the map cell for cell, the parent table and all of the disk, except that the clusters used are zero |
| Copying.LastCellSpared | src/filesystem/fat32.c:281-294 | allocating no more than the free cells below 511 never takes cell 511 |
| Copying.DirectoryAdded | src/filesystem/fat32.c:279-301 | with room, making a directory succeeds, adds it to the tree, uses one cell and leaves every used cell and cluster but the parent's alone |
| Copying.FileAdded | src/filesystem/fat32.c:302-345 | with room, writing a file succeeds, adds it to the tree, uses one cell a cluster and leaves every used cell and cluster but the parent's alone |
| Copying.EntryCopied | src/user-shell.c:438-465 | one more entry copied extends the half-made copy by exactly that entry, in order, the source untouched |
| CopyReadiness.NewDirectoryResolves | src/user-shell.c:425-436 | the directory just made is the one the next lookup by name opens |
| CopyReadiness.JobStarts | src/user-shell.c:411-436 | with the name unused in the destination, the new directory exists, is empty and is what the copy loop fills |
| CopyReadiness.FileReady | src/user-shell.c:455-463 | at each file entry the source still delivers that file and there is room for it |
| CopyReadiness.FolderReady | src/user-shell.c:452-454 | at each directory entry the recursive call has everything it needs: it resolves, fits, and lies outside its destination |
| Shell.CopyFile | src/user-shell.c:378-409 | reads the file and, on success, writes the bytes read under the same name in the destination |
| Shell.FileCopied | src/user-shell.c:378-409 | inside a tree copy this yields an equal file in the new directory |
| Shell.CopyFolder | src/user-shell.c:411-467 | terminates and leaves in the destination a directory with the same names, extensions, sizes, contents and order of live entries at every depth; invariant and agreement hold; nothing in use changed but the destination table; as many cells used as the source has; and the run is one of those `Ends` allows |
| CopyMeans.ErasedAlike | src/user-shell.c:411-467 | what the copy has in common with the source: the n-th entries are files of one name, extension, size and contents, or directories of one name that agree in the same way |
| CopyMeans.EqualDeliver | src/user-shell.c:411-467 | directories that agree so deliver the same names with the same contents |
| CopyMeans.CopyDelivers | src/user-shell.c:411-467 | the copy is a directory of its own, and `read` finds in it under every name what it finds in the source |
| CopyRuns.EndsGrow | src/user-shell.c:411-467 | every run of `copy_folder`, from any state, keeps each used cell in use and each live entry in its slot, but for slot 0 of a full table, which gives way to another cluster |
| CopyRuns.OwnCallSpoils | src/user-shell.c:452-454 | a nested call for a child named like its directory ends only with the source written to or no cell left |
| CopyRuns.OwnNameCopyFails | src/user-shell.c:411-467 | however it goes on, a copy of a directory that lists one with its own name does not end in a copy, as long as the map has a cell more than the source takes |
| ExactFit.ExactFitCopies | src/user-shell.c:411-467 | with exactly the cells it takes, a directory listing only an empty one of its own name is copied rightly |
| Paths.Strcmp | src/user-shell.c:37-46 | 0 iff the two strings agree up to their NULs, otherwise the signed difference at the first place where they differ |
| Paths.Resolution | src/filesystem/fat32.c:164-176 | looking up a directory's own name in it gives the directory itself; any other name gives a child of that name iff there is one |
| Paths.CdCases | src/user-shell.c:82-120 | `change_directory` only keeps, pops or pushes, a push adds the cluster looked up, and all reads stay within the disk |
| Paths.CdExactly | src/user-shell.c:91-119 | ".." takes the top level off unless it is the only one, "." leaves the stack, a name that opens a directory adds it; and exactly when the stack stays |
| Paths.DownAndUp | src/user-shell.c:91-119 | a directory entered and ".." give the old stack back |
| Paths.CdStaysLive | src/user-shell.c:82-120 | every level of the stack stays a directory of the tree |
| Paths.CdKeepsPathIff | src/user-shell.c:82-120 | the stack still spells a path of the tree, each level a child of the one below, iff the word is ".", "..", or not the name of the current directory |
| Paths.NotItsOwnChild | src/user-shell.c:112-118 | no directory is its own child, so such a push is never a real path |
| Session.DirStack.constructor | src/user-shell.c:82-120 | the shell starts with the root as its only level |
| Session.DirStack.ChangeDirectory | src/user-shell.c:82-120 | the stack arrays hold the path `Cd` gives, or none when a push would make it 256 levels, for which the length byte has no value; the file system is not changed |
| Session.DirStack.Walk | src/user-shell.c:691-708 | the words of a path are followed one after the other |
| Session.DirStack.MakeDirectory | src/user-shell.c:671-746 | the directory is made where the walk ends, and the stack afterwards is exactly the one before, for every path walked |
| Session.DirStack.Save | src/user-shell.c:681-690 | the temporary arrays hold every live level and the one above |
| Session.DirStack.Restore | src/user-shell.c:731-745 | the live prefix and its length are those saved, the levels cleared above it are zero, and the rest is as it was |
| Session.WalkStaysLive | src/user-shell.c:691-708 | after any walk all levels are directories of the tree |
| Session.WalkSpells | src/user-shell.c:691-708 | after a walk whose words never name the directory reached, the stack spells a path of the tree |
| Session.WordMeaning | src/user-shell.c:694-705 | a word that begins with two dots goes up, with one dot stays, and any other is a name |
| Session.WalkJoins | src/user-shell.c:691-708 | the words are followed in order |
| Session.WalkUp | src/user-shell.c:691-708 | n words ".." take n levels off |
| Session.ThereAndBack | src/user-shell.c:691-708 | n names entered and n words ".." lead back to the start |
| Search.HitsComplete | src/user-shell.c:287-376 | a position is listed iff the entry at it matches, at every depth |
| Search.HitsOnce | src/user-shell.c:287-376 | no position is listed twice |
| Search.LinesAreHits | src/user-shell.c:287-376 | the lines are those of the listed positions in the same order, each with the names on the way to its entry |
| SpelledLines.FileLineIs | src/user-shell.c:343-370 | the line of a file: "/" and a name for each level, "/", the name, ".", the extension, " " |
| SpelledLines.DirLineIs | src/user-shell.c:296-309 | the line of a directory: the path of the directory listing it, "/" alone for the root, and " " |
| SpelledLines.FileLineReads | src/user-shell.c:343-370 | a reader that splits at "/" and the last "." gets back the names on the stack, the name and the extension |
| SpelledLines.DirLineReads | src/user-shell.c:296-309 | and the names above the listing directory |
| Trails.LinesArePrinted | src/user-shell.c:287-376 | those lines are the ones printed for the entries a right walk compares |
| Trails.TrailOnTree | src/user-shell.c:287-376 | on a stored directory the loop compares its live entries in order, each directory followed by its own walk |
| Trails.VisitsDetermine | src/user-shell.c:287-376 | walks that compare the same entries list the same names at every depth |
| Walks.NestedCall | src/user-shell.c:268-285 | the call for a subdirectory looks its name up in the directory on top of the caller's stack, which gives that directory itself for its own name and otherwise a child of that name iff there is one |
| Walks.RightNeeds | src/user-shell.c:268-376 | a right call reads a directory that lists the same as the one on top, and meets the condition |
| Walks.FindableIsRight | src/user-shell.c:268-376 | the condition makes a call right, and every call below it |
| Walks.WalkIsRightIff | src/user-shell.c:268-376 | every call of the walk from the root compares exactly the entries of the directory on top of its stack iff no directory lists one of its own name, directories of one name side by side list the same, and depth is at most 254 |
| Walks.WalkFindsAll | src/user-shell.c:268-376 | then, for every target, what is printed is exactly `Lines` |
| WalkCases.OwnNameMisleads | src/user-shell.c:268-376 | a directory anywhere in the tree that lists one with its own name makes the walk wrong |
| WalkCases.OwnNameListedTwice | src/user-shell.c:268-376 | a directory listing only an empty one of its own name has that entry compared twice, the second time under a path that does not exist |
| WalkCases.LuckyWalk | src/user-shell.c:268-376 | two directories of one name that differ two levels down are searched with wrong calls and right lines |
| Resolving.FoldersResolveIff | src/user-shell.c:268-282 | every directory of the tree is the one opened by its name in the directory listing it iff no subdirectory has the name of that directory or of an earlier subdirectory there |
| Resolving.HiddenAtBirth | src/filesystem/fat32.c:164-173 | in every state with room, `write` makes a directory with its parent's own name, and the lookup of that name then gives the parent |
| WhereIs.StringCombine | src/user-shell.c:48-60 | with buffer and first part the same memory or not, the buffer holds both parts and a NUL, and nothing behind the NUL changes |
| WhereIs.SpellDirectory | src/user-shell.c:296-309 | the 256-byte buffer ends up with the path of the directory listing the match, when that fits |
| WhereIs.SpellFile | src/user-shell.c:343-369 | the 256-byte buffer ends up with the full path, a dot and the extension, when that fits |
| WhereIs.ShallowLinesFit | src/user-shell.c:296-369 | it fits on stacks of up to 27 levels, whatever the names |
| WhereIs.DeepLineOverruns | src/user-shell.c:343-369 | on 28 levels of full names a file match takes 257 bytes |
| WhereIs.SameString | src/user-shell.c:289-295 | the NUL-terminated copy of an 8-byte name compares equal iff the strings are |
| WhereIs.OneLine | src/user-shell.c:289-370 | an entry prints a line iff its name, and for a file its extension, agree with the target up to the NUL |
| WhereIs.Find | src/user-shell.c:268-376 | from any stack whose lookups succeed, on any state, it terminates and prints exactly the lines of the matching entries it compares, the file system unchanged |
| WhereIs.Examine | src/user-shell.c:287-375 | one entry of the loop, with everything below it |
| Terminal.Screen.SetCursor | src/framebuffer/framebuffer.c:7-13 | the two register bytes hold row times 80 plus column, both taken as bytes |
| Terminal.Screen.GetCursor | src/framebuffer/framebuffer.c:15-26 | row and column give the position back for every position up to 2000 |
| Terminal.Screen.Write | src/framebuffer/framebuffer.c:36-41 | exactly two bytes of text memory change, on the screen or behind it: the character, and the attribute with the background above and the foreground below |
| Terminal.Screen.Clear | src/framebuffer/framebuffer.c:43-52 | all 2000 cells become grey blanks, nothing behind them changes |
| Terminal.Screen.ScrollLn | src/framebuffer/framebuffer.c:74-85 | every row moves up by one through the overlapping copy, the last row becomes blank, the offset drops by 80 |
| Terminal.Screen.WriteChar | src/framebuffer/framebuffer.c:58-69 | one turn of the loop: scroll if needed, then the character or the line break |
| Terminal.Screen.WriteString | src/framebuffer/framebuffer.c:54-72 | screen and cursor are those of printing the string up to its NUL |
| Terminal.Print | src/framebuffer/framebuffer.c:54-72 | printing from a position up to 2000 ends at one up to 2000 |
| Terminal.PrintIsWindow | src/framebuffer/framebuffer.c:54-85 | the screen is the 25-row window of an endless tape printed without scrolling, and the cursor the tape position less the rows moved out |
| Terminal.CharacterPut | src/framebuffer/framebuffer.c:65-66 | one character is painted at the offset, in the text colour on black, and the offset moves on by one |
| Terminal.LineBreakPut | src/framebuffer/framebuffer.c:62-63 | a line break paints nothing and leads to the start of the next row |
| Terminal.FullScreenPut | src/framebuffer/framebuffer.c:59-61 | behind the last cell the rows first move up, and the new row is blank |
| Terminal.StringPrinted | src/framebuffer/framebuffer.c:54-72 | a string that fits appears character by character in its colour, and no other cell changes |
| Terminal.PrintColoured | src/framebuffer/framebuffer.c:54-85 | after any string each cell is one of its characters in its colour, a blank, or what was there before the screen moved up |
| Keyboard.KeyboardDriver.constructor | src/keyboard/keyboard.c:40-42 | input off, toggles off, empty buffer |
| Keyboard.KeyboardDriver.Activate | src/keyboard/keyboard.c:44-44 | only the input flag changes, to on |
| Keyboard.KeyboardDriver.Deactivate | src/keyboard/keyboard.c:46-46 | only the input flag changes, to off |
| Keyboard.KeyboardDriver.Reset | src/keyboard/keyboard.c:130-133 | buffer zeroed and index 0, toggles and last scancode kept |
| Keyboard.KeyboardDriver.GetBuffer | src/keyboard/keyboard.c:137-140 | 256 bytes are copied and nothing behind them is touched |
| Keyboard.KeyboardDriver.IsBlocking | src/keyboard/keyboard.c:144-144 | the input flag |
| Keyboard.KeyboardDriver.ClearScreen | src/keyboard/keyboard.c:146-151 | blank screen with the prompt; buffer zeroed but the index kept |
| Keyboard.KeyboardDriver.HandleInterrupt | src/keyboard/keyboard.c:48-128 | driver state and screen after one interrupt are those of `Isr` and `ScreenIsr` |
| Keyboard.KeyboardDriver.Edit | src/keyboard/keyboard.c:85-114 | the four-way branch has the effect the character and the index select, on buffer and screen |
| Keyboard.KeyboardDriver.EraseLast | src/keyboard/keyboard.c:85-94 | backspace removes the last character from both, also over a row boundary |
| Keyboard.KeyboardDriver.TypeChar | src/keyboard/keyboard.c:100-111 | a character is added to both, scrolling at the last cell |
| Keyboard.IsrKeepsCoupling | src/keyboard/keyboard.c:48-128 | if the cells before the cursor spell the buffered line and the buffer holds nothing more, this still holds after every harmless interrupt, across wraps, scrolls and erasing over a row |
| Keyboard.CouplingKeptIff | src/keyboard/keyboard.c:48-128 | over all lines and screens, an interrupt keeps this iff its key, the length of the line and the cursor meet `Harmless`: room for one more character, no ESC unless the index is zero afterwards, no arrow that moves the cursor off the line |
| Keyboard.WrapLosesLine | src/keyboard/keyboard.c:100-111 | the 256th character is stored and the index becomes 0: the driver takes the full line for empty |
| Keyboard.LineShowsOnScreen | src/keyboard/keyboard.c:48-128 | after any sequence of harmless interrupts the cells before the cursor spell the buffered line, across wraps and scrolls |
| Keyboard.PrintableKey | src/keyboard/keyboard.c:73-111 | a printable key puts the character of the plain table, or of the shifted one when exactly one of shift and caps lock is on, at the end of the line and at the cursor, in white, scrolling at the last cell |
| Keyboard.PrintableKeyUnseen | src/keyboard/keyboard.c:100-111 | behind the screen only the cursor moves on |
| Keyboard.UpperKey | src/keyboard/keyboard.c:73-103 | a key from 59 up has a plain character only |
| Keyboard.BackspaceKey | src/keyboard/keyboard.c:85-94 | the last character leaves the line, its cell becomes empty, and the cursor goes back; on an empty line nothing happens |
| Keyboard.EnterKey | src/keyboard/keyboard.c:95-99 | the line is closed and nothing is drawn |
| Keyboard.EscapeKey | src/keyboard/keyboard.c:116-118 | empty buffer, blank screen with the prompt, index moved on |
| Keyboard.ArrowKey | src/keyboard/keyboard.c:112-114 | only the cursor moves, one cell to the left, not past column 2 |
| Keyboard.ToggleKeys | src/keyboard/keyboard.c:59-71 | shift is held between press and release, caps lock turns over, nothing is typed |
| Keyboard.SilentKeys | src/keyboard/keyboard.c:53-56 | a release is remembered, a repeated press not acted on, and without input only the index is reset |
| LineInput.KeyTaken | src/keyboard/keyboard.c:82-118 | a key the line can take leaves the buffer equal to the line with that key |
| LineInput.DeliveryIff | src/keyboard/keyboard.c:82-118 | wherever the keys break off, every plain continuation is delivered whole, iff each key up to the end of the line met `KeyOk` |
| LineInput.BadKeyIsUnsafe | src/keyboard/keyboard.c:82-118 | after a key that did not, the line arrives wrong at once or after one more character |
| LineInput.EscapeShiftsLine | src/keyboard/keyboard.c:116-118 | after ESC on a line of n characters the next one arrives in place n + 1 |
| LineInput.IsrFollows | src/keyboard/keyboard.c:53-124 | one interrupt keeps the buffer equal to the line the accepted keys spell |
| LineInput.InterruptsFollow | src/keyboard/keyboard.c:53-124 | so does any sequence of interrupts |
| LineInput.CallStaysOk | src/interrupt/interrupt.c:73-82 | at every point of every interleaving of the call with interrupts, what has been copied is a prefix of the finished line |
| LineInput.LineIsDelivered | src/interrupt/interrupt.c:73-82 | when every key up to Enter met `KeyOk`, a finished call delivers exactly the line they spell, up to all 256 characters, and leaves the driver reset for the next call; keys after Enter do not matter; a call still waiting with input on has seen no Enter |
| LineInput.DeliveredLineIsOnScreen | src/interrupt/interrupt.c:73-82 | if no arrow moved the cursor, the cells before it spell the line that is delivered, also after Enter |
| LineInput.ClosedLineIsFrozen | src/keyboard/keyboard.c:53-56 | with input off, interrupts change nothing but the index, which becomes 0 |
| LineInput.CallEnds | src/interrupt/interrupt.c:77-82 | once the line is closed, the call ends after 258 steps of its own, whatever interrupts come between |
| LineInput.KeysFromTable | src/keyboard/keyboard.c:73-80 | keys pressed one after the other are decoded from the one table shift and caps lock select |
| LineInput.TypedLineIsDelivered | src/interrupt/interrupt.c:73-82 | up to 256 printable keys and Enter: the caller gets the characters the key table has for them, in order, and zeroes behind |

## Left out

- ATA port I/O, the interrupt controller, GDT, IDT, task state, boot code and linker scripts: hardware plumbing. The disk is the in-memory image of `src/inserter/external-inserter.c`; scancodes are parameters.
- `src/paging/paging.c` and `src/filesystem/cmos.c`: a bump allocator and clock port reads, with easy properties only.
- `src/kernel.c`: a boot script with fixed cluster numbers.
- Command dispatch, tokenising, help, `ls`, `cat`, `rm`, `mv` and `cp` of single files in `src/user-shell.c`: argument parsing around the driver calls that are modelled.
- The shell's messages: what `copy_file`, `copy_folder`, `change_directory` and `mkdir` print on errors.
- WhereIs.Find: needs lookups that succeed, which they do on trees that meet the condition of `Walks.WalkIsRightIff`, and lines that fit their 256 bytes; after a failed lookup the source goes on with a table it has not read, and a longer line overruns the buffer.
- Shell.CopyFolder: needs the destination outside the source, its name unused there, a slot in the destination, enough cells below 511, and contents that are `Copyable`. That a copy fails otherwise is proved for a child named like its directory only, not for two subdirectories of one name or a file behind a directory of its name. Its request buffer for files starts as zeros; `CopyRuns.Ends` leaves it arbitrary, as in the source.
- Driver.FileSystem.Write: is for sizes 0 or at least one cluster. For 1 to 2047 bytes the source's link loop runs to an unsigned 0 - 1, over the ends of an empty array. Sizes between multiples keep only whole clusters, as in the source.
- Driver.FileSystem.Delete: is for calls that stay inside the map (`Refinement.DeleteDefinedIff` says which these are).
- Driver.FileSystem.Read: needs a chain that ends at the entry found and a buffer as long as the request says; every entry of a stored tree has such a chain.
- Driver.FileSystem.Move: takes the two tables as values; that the caller's user addresses could alias is not modelled. It needs an index inside the table and tables that are stored on the disk, by what slot 0 says after the move.
- The nine-byte names of the shell's stack are eight bytes here; the ninth is always NUL.
- The two key tables are a parameter of the keyboard model: any 256 plain and 58 shifted characters. A shifted key beyond the table yields an arbitrary byte, another parameter.
- LineInput.LineIsDelivered: models system call 4 on values, one step of the call or one interrupt at a time; the methods of `Keyboard.KeyboardDriver` take those steps on the real fields. The final copy of the first `ecx` bytes to the user address is a copy of a prefix of that line.
- Keyboard.KeyboardDriver.HandleInterrupt: needs the cursor in text memory, and not at its very start when something is erased, where the source writes far behind it; the interrupt controller's acknowledgement is left out.
- Session.DirStack.MakeDirectory: needs stack and words within the 256 levels of the arrays.
- Time and date fields of entries are carried as bytes but never given a meaning, as in the source.
