# Srunix86: a verified model of bkFS, its shell, the terminal and the support routines

Srunix86 is a small kernel with an in-memory file system (bkFS), a shell whose commands change it, a
25 by 80 text screen shared by nine virtual TTYs, and a handful of library routines. This project models
those parts in Dafny and proves what they promise.

Most parts come in two layers. Where the kernel changes global tables or buffers in place, a class or a
method with loops does the same (`Bkfs.BkFs`, `Shell`, `Kernel`, `Terminal.Console`, `Ttys.VirtualTtys`,
`Tokenizer`, `CBuffers`, `History.CommandHistory`, `Numbers`, `Heap.KernelHeap`), and its postcondition names a function
that gives the new state. What the kernel is for is then proved about those functions.

## The main results

- **The file system is a tree.** `TreeModel` describes what a user sees: a map from paths to directories and
  byte strings, a current directory, and one step per command, with no inode numbers, blocks or counters.
  `Simulation.StepSimulates` proves that every command on the tables (five global tables, two lowest-first
  allocators, a file table with five ghost entries) is that step on the tree, and prints the same.
  `Boot.RunFromBoot` and `Kernel.Session` carry this over every run from power-on. `TreeLaws` says of the tree
  itself what undoes what, what a command leaves alone and when it replies what, and `BootTable.BootListing` what
  is there after boot.
- **No run with bounded writes runs out of blocks** (`BkfsCapacity.BoundedWriteSucceeds`,
  `Reachable.WritesSucceed`): at most 123 entries of at most 8 blocks, and block 0, are ever in use.
- **Conservation and ownership** in every state that a run reaches from boot, or from any other good state:
  `Reachable.Conservation`, `Reachable.Ownership`, `Reachable.ListsIncrease`, `Reachable.ParentsEarlier`
  (`Reachable.BootStarts` makes boot's state a start). `FsCalls.CallsKeep` has them for any run of direct calls with
  writes of up to twelve blocks, as long as none fails.
- **Writes**: the write/read round trip with its frame (`BkfsContents.WriteThenRead`), exactly when a write
  fails (`BkfsContents.WriteFailsIff`), what a failed write keeps, exactly when it leaves the tables
  consistent (`FailedWrites.FailedWriteKeepsIff`), and what every call keeps even after that
  (`BkfsSound.WriteSound`).
- **Paths**: after any run from boot, what `pwd` prints, split at slashes and walked with `cd` from the root,
  comes back to the current directory (`PathStrings.PwdCdRoundTrip`). `cd` takes the name ".." as the parent, so
  the walk would fail below a directory called that, and only there (`PathStrings.RoundTripIff`); `mkdir ..` is
  accepted, but no run can enter what it makes (`PathStrings.NeverInDotDot`).
- **Appending**: a file written with `echo >` and `echo >>` is its lines joined by newlines
  (`AppendLog.AppendFold`), and one `echo >>` adds exactly its line to the lines of any file, empty or not, ended by
  a newline or not (`AppendLog.AppendAddsLine`, over runs `AppendLog.AppendsAddLines` and `AppendLog.TouchedLog`).
- **The screen** is the bottom window of an unbounded grid (`ScreenModel.ScreenIsWindow`), shows printed text
  as its lines wrapped at 80 columns (`TextLayout.ScreenShowsLayout`), and while a command is edited shows
  what will be submitted (`LineEditor.EchoShowsLine`). Nine TTYs behind it behave as nine independent
  terminals, for any interleaving from power-on (`TtyModel.EachRunsAlone`, in place `Ttys.Session`): text printed on one is
  still there, in rows of 80, when switching back to it (`TtyScreens.TextStays`, in place
  `Ttys.VirtualTtys.ShowText`), and so are its colour, directory and login.
- **The command line**: the in-place tokenizer (`Tokenizer.Tokenize`), the redirected text and its buffer, the
  exact limit of six words on a typed redirection (`CommandLine.EchoLineIff`), and exactly which lines ask for
  which file command (`TypedCommands.ReadIff`, `TypedCommands.OnlyTypable`).
- **History, numbers, heap**: the last hundred commands, decimal and dotted text with its inverse, and a heap
  whose `realloc`, with its overlapping copy, keeps every block ever granted (`Heap.KernelHeap.Realloc`,
  `Heap.KernelHeap.AnswerAll`).

## Where the code does less than it seems to

- `rm -rf` on a directory that has entries does not remove them: the recursive call looks the child's name up
  in the current directory. `rm -rf` ends and leaves the rest of the current directory alone if and only if the
  directory is empty; on any other it never ends, or it has deleted another entry of the current directory
  (`RecursiveRemove.RmSparesIff`). On a freshly booted machine `rm -rf dev` never ends
  (`RecursiveRemove.RmDevHangs`), and `mkdir d`, `cd d`, `touch fetch`, `cd ..`, `rm -rf d` ends with "deleted",
  having deleted the root's "fetch" and the new one, but not "d" (`RecursiveRemove.BootRmLosesFetch`).
- A write that runs out of blocks leaves the file listing blocks it does not own, unless the file had none or
  the disk was full and the file had block 0 alone (`FailedWrites.FailedWriteKeepsIff`). Only direct calls of
  `fs_write_file` with more than 8192 bytes get there (`FsCalls.SmallCallsFit`), and they do: 85 files of twelve
  blocks, one of two, and a longer write to it (`DiskFull.FailureAfterBoot`). No shell command does.
- Boot's "fetch" below "bin" is refused, because duplicates are looked for in the current directory, which is
  still the root (`Boot.FetchRefused`).
- `echo` with more than six words before `>` or `>>` writes no file (`CommandLine.EchoLineIff`).
- The Down arrow does not return to the blank line below the newest command (`History.DownUndoesUp`).

## How the model reads the source

- C strings are sequences of characters without their terminator; `CString` cuts a buffer at its first NUL
  where that matters. The file system's bytes and the terminal's characters are `char`; only ASCII is meant.
- The kernel's preconditions are kept as they are: a valid name has at most 30 characters (the unsigned
  counter of `strncpy` wraps otherwise) and, like all C strings, no NUL, texts are C strings, an appended file
  and a path fit their buffers,
  sizes do not wrap a 32-bit sum, heap requests do not wrap a 64-bit address.
- A command's reply is what it prints; of a nested `rm` call only its effect is followed.
- The root directory lists itself under the name "root". The tree treats that name, in the root directory, as
  the root.

## Model

| member | source | states |
|---|---|---|
| Bkfs.BkFs.FsAllocInode | src/fs/bkfs.h:3-14 | takes the lowest slot of mode zero, changes only it and the counter, and returns -1 without a change when the counter is zero or no slot is left |
| Bkfs.BkFs.FsFreeInode | src/fs/bkfs.h:16-20 | zeroes the inode and counts it free; a number outside the table changes nothing |
| Bkfs.BkFs.FsAllocBlock | src/fs/bkfs.h:22-32 | takes the first of the unused blocks in increasing order and changes only its flag and the counter |
| Bkfs.BkFs.FsFreeBlock | src/fs/bkfs.h:34-38 | clears the flag and adds to the counter, whether or not the block was in use |
| Bkfs.BkFs.IsValidFilename | src/lib/prdio.h:444-454 | true exactly for non-empty names without a forbidden character |
| Bkfs.BkFs.FileExistsInCurrentDir | src/lib/prdio.h:456-463 | true exactly when some entry has the current directory as parent and the name |
| Bkfs.BkFs.FsCreateFile | src/fs/bkfs.h:40-74 | the whole new tables and the result, with the duplicate test in the current directory; the panic after it is unreachable |
| Bkfs.BkFs.FsDeleteFile | src/fs/bkfs.h:76-99 | for any number, the whole new tables: blocks but block 0 given back, the entry's gap closed, the inode zeroed; the slots past the new end keep what they held, a deletable entry's removal keeps the invariant, and the panic is unreachable |
| Bkfs.BkFs.CloseGap | src/fs/bkfs.h:86-89 | the shifting loop removes exactly the entry and keeps the order of the others |
| Bkfs.BkFs.ReleaseBlocks | src/fs/bkfs.h:106-110 | clears exactly the listed blocks other than block 0 and counts them |
| Bkfs.BkFs.TakeBlocks | src/fs/bkfs.h:111-120 | takes the lowest unused blocks, or, when they are too few, gives all back and leaves their numbers in the inode's list |
| Bkfs.BkFs.StoreChunks | src/fs/bkfs.h:124-129 | block `list[i]` gets chunk `i` of the data at its front, and no other block changes |
| Bkfs.BkFs.FsWriteFile | src/fs/bkfs.h:101-131 | the whole new tables and the result, in success and in all failures, also on tables that a failed write has left |
| BkfsSound.DeleteSound | src/fs/bkfs.h:76-99 | deleting any number leaves well-formed tables, the ghost entries, and a counter that counts no block too few |
| BkfsSound.WriteSound | src/fs/bkfs.h:101-131 | so does writing, in success and in failure, also to a file with a stale block list |
| Bkfs.BkFs.FsReadFile | src/fs/bkfs.h:133-145 | delivers the first min(n, size) bytes and leaves the rest of the buffer; for a number outside the table returns FS_ERROR, which is 1, and delivers nothing |
| FreeBlocks.TakePrefix | src/fs/bkfs.h:22-32 | allocating again and again, lowest first, takes a prefix of the increasing list of unused blocks |
| FreeBlocks.ReleaseCounts | src/fs/bkfs.h:34-38 | the counter stays the number of unused slots when distinct used blocks are freed |
| FileTable.AppendEntry | src/fs/bkfs.h:54-58 | a new entry with a new inode, a new name and a directory as parent keeps inodes and names unique and parents earlier |
| FileTable.RemoveEntry | src/fs/bkfs.h:84-92 | removing a childless entry keeps them too |
| BlockOwnership.ReleaseKeeps | src/fs/bkfs.h:106-110 | giving back an inode's blocks keeps one owner per block and the counter |
| BlockOwnership.TakeKeeps | src/fs/bkfs.h:111-121 | giving it the lowest unused blocks keeps them too |
| BkfsInvariant.InodeAvailable | src/fs/bkfs.h:51-53 | while the file table has room an inode is free, so creating fails only for the name or a full table |
| BkfsInvariant.CreateSucceeds | src/fs/bkfs.h:41-53 | creating succeeds exactly for a valid name, unused in the current directory, with room in the table |
| BkfsInvariant.CreateKeeps | src/fs/bkfs.h:40-74 | creating keeps the whole invariant |
| BkfsInvariant.DeleteKeeps | src/fs/bkfs.h:76-99 | deleting a childless entry other than the root and the current directory keeps the whole invariant |
| BkfsInvariant.WriteKeeps | src/fs/bkfs.h:101-131 | a successful write keeps the whole invariant |
| BkfsContents.WriteThenContent | src/fs/bkfs.h:121-130 | after a successful write the file holds exactly the data and every other inode and its contents are unchanged |
| BkfsContents.WriteThenRead | src/fs/bkfs.h:101-145 | reading n bytes back delivers the first min(n, size) bytes written, and any other file reads as before |
| BkfsContents.WriteFailsIff | src/fs/bkfs.h:104-118 | a write of at most 12 blocks fails exactly when it needs more blocks than are free plus the file's own blocks other than block 0 |
| BkfsContents.WriteTooLong | src/fs/bkfs.h:101-105 | more than 12288 bytes, or a number outside the table, are refused without a change |
| BkfsContents.FailedWriteKeeps | src/fs/bkfs.h:106-118 | on that failure the counter still counts the unused slots and has grown by the blocks released, and no other file changes |
| FailedWrites.FailedWriteKeepsIff | src/fs/bkfs.h:106-118 | the failed write keeps the invariant exactly when the file had no blocks, or no block was unused and the file had block 0 alone |
| FsCalls.CallsKeep | src/fs/bkfs.h:40-131 | any run of direct calls in which no write runs out of blocks keeps the invariant, both sums, one owner per block and increasing lists |
| FsCalls.SmallCallsFit | src/fs/bkfs.h:104-120 | in a run of direct calls with writes of at most 8192 bytes no write runs out of blocks |
| DiskFull.FailureAfterBoot | src/fs/bkfs.h:111-118 | after boot there is a run of direct calls, none failing, after which a write of twelve blocks fails and breaks the invariant |
| BkfsCapacity.BlockConservation | src/fs/bkfs.h:22-38 | free blocks, the sum of all `inode.blocks`, and 1 if block 0 leaked, make 1024 |
| BkfsCapacity.EntryConservation | src/fs/bkfs.h:3-20 | entries and free inodes make 133; an inode is in use exactly when an entry names it; there is always an entry after the ghosts |
| BkfsCapacity.RoomLeft | src/fs/bkfs.h:22-32 | while no file exceeds 8192 bytes at least eight blocks are free |
| BkfsCapacity.BoundedWriteSucceeds | src/fs/bkfs.h:104-120 | so a write of at most 8192 bytes to any inode succeeds and keeps that bound |
| Paths.PathInjective | src/lib/prdio.h:456-463 | two entries with the same path are the same entry |
| Paths.PathAppend | src/fs/bkfs.h:54-68 | a new entry changes no other path |
| Paths.PathRemove | src/fs/bkfs.h:84-92 | removing a childless entry changes no other path |
| Paths.FindByName | src/kernel/kernel.c:485-486 | the search by directory and name finds the unique such entry, never a ghost, and the root only as "root" in the root directory |
| Abstraction.LookupAgrees | src/lib/prdio.h:456-463 | the linear search over the table is the lookup of the name in the tree |
| Abstraction.AbsIsTree | src/fs/bkfs.h:54-58 | the nodes a state stands for form a tree: every parent is a directory of it |
| Effects.CreateInEffect | src/fs/bkfs.h:54-68 | creating adds exactly one node, at its parent's path |
| Effects.DeleteEffect | src/fs/bkfs.h:84-97 | deleting removes exactly that node |
| Effects.WriteEffect | src/fs/bkfs.h:101-131 | writing changes exactly that node's content |
| TreeModel.StepKeepsTree | src/kernel/kernel.c:452-509 | every command maps a tree to a tree |
| TreeLaws.CdAndBack | src/bin/cd.h:8-24 | entering a directory and then `cd ..` returns to the same tree and directory |
| TreeLaws.CdHome | src/bin/cd.h:3-16 | `cd` goes to the root, which `cd ..` does not leave; elsewhere `cd ..` goes up by one |
| TreeLaws.MakeAndRemove | src/kernel/kernel.c:452-509 | what `touch` and `mkdir` make is empty, and removing it restores the tree; a directory needs `-rf` |
| TreeLaws.EchoTwice | src/kernel/kernel.h:8-33 | the text of an `echo >` is all the file holds, whatever was written before |
| TreeLaws.OthersStay | src/kernel/kernel.c:48-509 | no command changes a node but the one it names, only `cd` changes the directory, and `cd` changes no node |
| TreeLaws.RefusedChangesNothing | src/kernel/kernel.c:48-509 | a command that does not succeed changes nothing |
| TreeLaws.MakeReplies | src/kernel/kernel.c:452-482 | when `touch` and `mkdir` reply what; 123 nodes are the most |
| TreeLaws.CdReplies | src/bin/cd.h:3-29 | when `cd` succeeds and when it finds nothing |
| TreeLaws.RmReplies | src/kernel/kernel.c:484-509 | when `rm` deletes, refuses and finds nothing |
| TreeLaws.EchoReplies | src/fs/bkfs.h:40-53 | when a redirection writes, creates, or fails, and after which complaint |
| TreeLaws.NameRule | src/lib/prdio.h:444-454 | exactly which characters a name may not have |
| Simulation.MakeSimulates | src/kernel/kernel.c:452-482 | `touch` and `mkdir` on the tables are their steps on the tree, in all four outcomes |
| Simulation.CdSimulates | src/bin/cd.h:3-29 | `cd` with no name, with "..", and with a name is its step on the tree; "Already at root" never appears |
| Simulation.ChildrenAgree | src/kernel/kernel.c:493-494 | an entry names a directory as its parent exactly when the tree has a node below it |
| Simulation.RmSimulates | src/kernel/kernel.c:484-509 | `rm` of a file or an empty directory is its step on the tree, with the same refusals |
| Simulation.EchoSimulates | src/kernel/kernel.h:8-33 | `echo >` overwrites or creates and writes as on the tree |
| Simulation.AppendSimulates | src/kernel/kernel.c:48-82 | `echo >>` appends, with its newline rule and its 4095-byte read, as on the tree |
| Simulation.StepSimulates | src/kernel/kernel.c:48-509 | any command: the invariant and the size bound are kept, and tree and message are those of the tree's step |
| Simulation.ExecuteAll | src/kernel/kernel.c:886-896 | any run of commands from a good state is the same run on the tree, reply by reply |
| BootState.CreateAllGood | src/kernel/kernel.c:952-976 | a row of creations in one directory adds exactly its nodes |
| Boot.FetchRefused | src/kernel/kernel.c:989 | creating "fetch" below "bin" changes nothing |
| Boot.FetchNotWritten | src/kernel/kernel.c:990-996 | and so its content is written nowhere |
| Boot.BootIsGood | src/kernel/kernel.c:943-997 | boot ends in a good state that stands for the boot tree |
| BootTable.BootListing | src/kernel/kernel.c:943-997 | every path there is after boot, and what is there |
| Boot.RunFromBoot | src/kernel/kernel.c:943-997 | every run from boot is the same run on the boot tree, with the same replies, and ends in a tree |
| Reachable.BootStarts | src/kernel/kernel.c:943-997 | the state boot leaves is a good one for runs to start from, so what follows holds of every run from boot |
| Reachable.Conservation | src/fs/bkfs.h:3-38 | in every reachable state blocks add up to 1024 and entries and free inodes to 133 |
| Reachable.Modes | src/fs/bkfs.h:60-62 | in every reachable state an entry's inode has mode 0x4000 for a directory and 0x8000 for a file |
| Reachable.Ownership | src/fs/bkfs.h:76-131 | in every reachable state a block other than 0 is in use exactly when an inode lists it, and no block has two owners |
| Reachable.ListsIncrease | src/fs/bkfs.h:22-32 | in every reachable state each block list is strictly increasing, so block 0 can only be first |
| Reachable.ParentsEarlier | src/fs/bkfs.h:84-91 | in every reachable state parents are earlier directories and the current inode is a directory |
| Reachable.WritesSucceed | src/fs/bkfs.h:104-120 | in no reachable state does a write of at most 8192 bytes fail |
| Shell.ExecuteMkfile | src/kernel/kernel.c:452-466 | the new tables and the reply, as function of the old tables and as step on the tree |
| Shell.ExecuteMkdir | src/kernel/kernel.c:468-482 | the same for `mkdir` |
| Shell.ExecuteCd | src/bin/cd.h:3-29 | the same for `cd` |
| Shell.ExecuteRm | src/kernel/kernel.c:484-509 | the same for `rm`, of a file or an empty directory |
| Shell.ExecuteRedirectOutput | src/kernel/kernel.h:8-33 | the same for `echo >` |
| Shell.ExecuteAppendOutput | src/kernel/kernel.c:48-82 | the same for `echo >>`; the new content fits its buffer with a terminator |
| Shell.RemoveNamed | src/kernel/kernel.c:484-509 | `rm` on any tables, nested calls in place, as the function that is cut off after some turns |
| Shell.BuildAppended | src/kernel/kernel.c:57-65 | the second buffer then holds, terminated, what a C string holds of the first 4095 bytes, a newline if none ends them, and the text |
| Shell.PrependPath | src/bin/pwd.h:6-18 | the walk ends, stays inside both path buffers, and leaves the whole path in front of what the buffer held |
| Shell.ExecutePwd | src/bin/pwd.h:3-22 | prints the path of the current directory followed by a slash |
| Shell.PromptPath | src/kernel/kernel.c:765-787 | prints the same path without that slash, after a tilde |
| Kernel.KernelMain | src/kernel/kernel.c:943-997 | boot leaves exactly the boot tables, which stand for the boot tree |
| Kernel.Session | src/kernel/kernel.c:886-896 | a whole session from power-on: tables, tree and replies stay in step |
| PathStrings.PwdPieces | src/bin/pwd.h:4-18 | `pwd` prints a slash before each name and one at the end, so that splitting gives back the names; the prompt has a tilde in front and no last slash |
| PathStrings.WalkDepth | src/bin/cd.h:8-16 | a walk never gets deeper than its names, and less deep if one is ".." |
| PathStrings.RoundTripIff | src/bin/cd.h:8-24 | on tables in any good state, walking the printed path from the root returns to the current inode exactly when no name on it is ".." |
| PathStrings.NeverInDotDot | src/bin/cd.h:8-16 | no run of commands leads below a directory called ".." |
| PathStrings.PwdCdRoundTrip | src/bin/cd.h:8-24 | after any run from boot, splitting what `pwd` prints and walking it from the root returns to the current inode |
| AppendLog.LogBuilds | src/kernel/kernel.c:58-66 | after the first line and the appends the tree holds the lines joined by newlines |
| AppendLog.AppendFold | src/kernel/kernel.c:48-82 | on the tables the file reads as the joined lines and splits back into them |
| AppendLog.AppendAddsLine | src/kernel/kernel.c:48-70 | on any file, the new content splits into the old lines, of its first 4095 bytes, and the new one |
| AppendLog.AppendsAddLines | src/kernel/kernel.c:48-70 | over any run of `echo >>` on any file; empty lines leave no trace, but one at the end leaves its newline |
| AppendLog.TouchedLog | src/kernel/kernel.c:48-82 | on the tables, after `touch` and any `echo >>`, the file reads as the non-empty lines and the last one |
| RecursiveRemove.RmEmpty | src/kernel/kernel.c:484-509 | a call for a file or an empty directory ends within one scan and removes exactly that entry |
| RecursiveRemove.RmSparesIff | src/kernel/kernel.c:484-509 | `rm -rf` of a directory ends and keeps all other entries of the current directory exactly when the directory is empty; on any other it does not end or has lost such an entry |
| RecursiveRemove.FirstVictim | src/kernel/kernel.c:493-500 | a call that ends has lost an entry of the current directory that had no entries of its own |
| RecursiveRemove.RmHangs | src/kernel/kernel.c:493-498 | a call never ends if the directory's first child has a name that the current directory lacks |
| RecursiveRemove.RmLosesNamesake | src/kernel/kernel.c:484-509 | after making a directory with one file called like a file beside it, `rm -rf` ends with "deleted", has deleted both files, and leaves the directory |
| RecursiveRemove.BootRmLosesFetch | src/kernel/kernel.c:484-509 | this happens after boot with "fetch" |
| RecursiveRemove.RmDevHangs | src/kernel/kernel.c:493-498 | after boot `rm -rf dev` never ends |
| CommandLine.WordsJoin | src/kernel/kernel.c:617-621 | words joined by single spaces are read back as the same words |
| CommandLine.WordsApart | src/kernel/kernel.c:592-600 | the words of a line are those before and after any space in it |
| TypedCommands.ReadIff | src/kernel/kernel.c:602-739 | a line is read as a command exactly if it starts with the words that ask for it |
| TypedCommands.OnlyTypable | src/kernel/kernel.c:602-739 | every file command that is read is one of the typed forms, with its words |
| TypedCommands.TypedIsRead | src/kernel/kernel.c:602-739 | typing the words of a command asks for exactly that command |
| TypedCommands.OtherLines | src/kernel/kernel.c:601-739 | only lines that start with one of five words are file commands; which lines lack a name |
| TypedCommands.ArgsArePlain | src/kernel/kernel.c:589-600 | no argument has a capital letter or a space |
| TypedCommands.CaseIgnored | src/kernel/kernel.c:589-591 | a line in capitals has the same arguments |
| CommandLine.TextFits | src/kernel/kernel.c:617-621 | the redirected text is no longer than the line, so it fits its buffer |
| CommandLine.RedirectTextWords | src/kernel/kernel.c:602-621 | the redirected text reads back as the words before the operator |
| CommandLine.EchoLineIff | src/kernel/kernel.c:593-628 | a typed redirection, `>` or `>>`, writes or appends its words exactly when there are at most six |
| Tokenizer.LowerInPlace | src/kernel/kernel.c:589-591 | the buffer then holds the lower-cased line |
| Tokenizer.Tokenize | src/kernel/kernel.c:592-600 | the offsets are those of the first nine maximal space-free runs, and the buffer holds each of them terminated |
| ShellLine.FindRedirect | src/kernel/kernel.c:602-614 | finds the first operator after the command word |
| CBuffers.StrCat | src/lib/prdio.h:123-128 | the buffer then holds the text it held and the other after it, terminated |
| CBuffers.CopyBuffer | src/lib/prdio.h:117-121 | the buffer then holds what the other holds up to its first NUL |
| ShellLine.JoinWords | src/kernel/kernel.c:617-621 | the text buffer then holds the words before the operator joined by single spaces |
| ShellLine.ParseCommand | src/kernel/kernel.c:584-628 | from the typed buffer, by copying, lowering and cutting, exactly the parsed line |
| ShellLine.Dispatch | src/kernel/kernel.c:637-739 | the branches by the first word, as the function that the typed forms are about |
| ShellLine.TypedText | src/kernel/kernel.c:617-626 | a typed text is a C string shorter than the line buffer |
| ShellLine.ExecuteLine | src/kernel/kernel.c:584-739 | a typed file command does to the tree what the parsed command does |
| ScreenModel.WindowPut | src/lib/prdio.h:567-594 | one character on the screen is one character on the unbounded grid seen through its bottom window |
| ScreenModel.ScreenIsWindow | src/lib/prdio.h:543-594 | after a clear, any characters and colour changes: the screen is the window of the grid |
| ScreenModel.ScreenAheadIsBlank | src/lib/prdio.h:543-594 | every cell at or after the cursor is blank |
| ScreenModel.BackspaceUndoes | src/lib/prdio.h:575-591 | a backspace takes back a printed character, and a row is left over exactly when the character filled the last one |
| ScreenModel.ScreenEdges | src/lib/prdio.h:554-583 | a backspace at the top left does nothing; a newline in the last row moves the rows up and clears one in the current colour |
| ScreenModel.ColorNibbles | src/lib/prdio.h:538-540 | the colour is a byte with the foreground in its low nibble and the background in its high one |
| ScreenModel.PrintedInColor | src/lib/prdio.h:538-594 | after a colour is set, a printed character has that foreground and background |
| TextLayout.SplitSnoc | src/lib/prdio.h:570-592 | how one more character changes the lines of a text |
| TextLayout.PrintedIsLayout | src/lib/prdio.h:567-594 | printed text without backspaces is its lines padded to whole rows of 80, with the cursor at its end |
| TextLayout.ScreenShowsLayout | src/lib/prdio.h:554-594 | a screen that was blank shows the last 25 rows of that layout |
| Terminal.Console.SetColor | src/lib/prdio.h:538-541 | the colour is a byte with foreground and background in its nibbles, and nothing else changes |
| Terminal.Console.Clear | src/lib/prdio.h:543-552 | blanks all cells in the current colour and homes the cursor |
| Terminal.Console.ScrollUp | src/lib/prdio.h:554-565 | moves every row up by one in place and blanks the last |
| Terminal.Console.TerminalPutChar | src/lib/prdio.h:567-594 | the whole new screen for newline, backspace and printables |
| Terminal.Console.WriteString | src/lib/prdio.h:604-610 | the characters one after the other |
| Terminal.Console.Page | src/lib/prdio.h:543-610 | clearing and printing shows the window of everything printed |
| LineEditor.EchoShowsLine | src/kernel/kernel.c:889-926 | while a line is typed and erased the grid looks as if only what remains had been typed |
| LineEditor.TypedIsAdded | src/kernel/kernel.c:921-923 | typing a text adds it to the line |
| LineEditor.BacksErase | src/kernel/kernel.c:897-901 | backspaces take back as many characters, and none from an empty line |
| LineInput.ReadLine | src/kernel/kernel.c:888-926 | the line read is the edited one, and the echo sent is that of the strokes |
| TtyModel.PerformViews | src/lib/prdio.h:481-518 | an action changes the view and the login of the terminal on screen only, a switch none |
| TtyModel.EachRunsAlone | src/lib/prdio.h:481-518 | for any interleaving each of the nine terminals, and its login, is as if it had run alone on what was sent to it |
| TtyModel.SwitchBack | src/lib/prdio.h:494-518 | what was sent to other terminals never shows when switching back |
| TtyScreens.VisitViews | src/lib/prdio.h:481-518 | what happens before and elsewhere aside, a visit to a terminal changes it by the visit's actions alone |
| TtyScreens.TextStays | src/lib/prdio.h:481-594 | text printed after a clear is on the terminal, as laid out, when switching back to it |
| TtyScreens.SentText | src/lib/prdio.h:465-594 | from power-on, text sent to a terminal since its last clear, or at all, is on it as laid out |
| TtyScreens.ColorStays | src/lib/prdio.h:481-541 | a colour set on a terminal is that of what is printed there after any time elsewhere |
| TtyScreens.DirAfter | src/lib/prdio.h:465-506 | from power-on, a terminal is in the last directory entered there, or in the root |
| TtyScreens.LoginAfter | src/kernel/kernel.c:844-851 | from power-on, the last login or logout on a terminal decides whether someone is logged in |
| TtyScreens.VisitStays | src/lib/prdio.h:481-518 | a directory entered and a login given stay while other terminals are used |
| TtyScreens.PowerOnIsBlank | src/lib/prdio.h:465-536 | all nine terminals start blank, in the root directory, with nobody logged in |
| TtyScreens.LastSwitch | src/lib/prdio.h:508-514 | the terminal on screen is that of the last switch to one of the nine |
| Ttys.VirtualTtys.constructor | src/lib/prdio.h:465-476 | a cleared screen, nine initial records, nobody logged in |
| Ttys.VirtualTtys.SaveTtyState | src/lib/prdio.h:481-492 | the live record becomes the live terminal, cell by cell, and no other record changes |
| Ttys.VirtualTtys.RestoreTtyState | src/lib/prdio.h:494-506 | the live terminal becomes the record of the current TTY, and no record changes |
| Ttys.VirtualTtys.SwitchTty | src/lib/prdio.h:508-518 | saves, then restores, and tells whether the login screen comes up; a number outside the table changes nothing |
| Ttys.VirtualTtys.SetLoggedIn | src/kernel/kernel.c:844-851 | a login or an exit changes the flag of the TTY on screen and nothing else |
| Ttys.VirtualTtys.TerminalSetColor | src/lib/prdio.h:538-541 | sets both nibbles, and also writes the colour into the stale record of the live TTY |
| Ttys.VirtualTtys.Act | src/lib/prdio.h:481-594 | any action is the step of the machine |
| Ttys.VirtualTtys.ActAll | src/lib/prdio.h:481-594 | after any interleaving on the one buffer and the nine records, each terminal is as if it had run alone |
| Ttys.VirtualTtys.ShowText | src/lib/prdio.h:481-594 | in place: text printed on a terminal is in the screen buffer again after any actions elsewhere and a switch back |
| Ttys.Session | src/lib/prdio.h:465-594 | the same from power-on |
| History.CommandHistory.AddToHistory | src/kernel/kernel.c:859-871 | appends a non-empty command, shifting the oldest out in place when full |
| History.CommandHistory.ArrowUp | src/kernel/kernel.c:902-906 | recalls an older line, reading only below `history_count` |
| History.CommandHistory.ArrowDown | src/kernel/kernel.c:912-916 | recalls a newer line, reading only below `history_count` |
| History.HistoryIsLastLines | src/kernel/kernel.c:859-871 | after any keys line `i` of the history is command `i` of the last hundred submitted, or of all |
| History.SubmittedGrows | src/kernel/kernel.c:859-861 | only non-empty commands count as submitted, and arrows add none |
| History.CommandHistory.PressKeys | src/kernel/kernel.c:859-921 | in place: after any keys from power-on the array holds those commands |
| History.UpSelects | src/kernel/kernel.c:902-906 | pressing Up n times after a command brings back the n-th last command submitted, once the command itself |
| History.DownUndoesUp | src/kernel/kernel.c:902-916 | Down takes back an Up exactly when that Up did not leave the blank line |
| Numbers.IntToStr | src/lib/prdio.h:381-407 | writes the decimal text and its terminator, by digits in reverse and reversal in place, and nothing else |
| Numbers.ReverseInPlace | src/lib/prdio.h:398-406 | the swapping loop reverses exactly the given stretch |
| Numbers.IntTextFits | src/lib/prdio.h:381-407 | the text of every int but the most negative has at most 11 characters |
| Numbers.DecimalInjective | src/lib/prdio.h:381-407 | different ints have different texts |
| Numbers.DecimalIs | src/lib/prdio.h:381-407 | the text is a sign for negative numbers and base-ten digits without leading zeros |
| Numbers.Atoi | src/lib/prdio.h:90-97 | the value of the leading digits |
| Numbers.ValueOfDecimal | src/lib/prdio.h:90-97 | `atoi` gives back every non-negative number that was written |
| Numbers.ValueOfText | src/lib/prdio.h:90-97 | reading stops at the first character that is no digit, and is zero without digits |
| Numbers.IpToStr | src/internet/internet.h:21-35 | writes the dotted text, terminated, into 16 bytes |
| Numbers.IpRoundTrip | src/internet/internet.h:21-35 | the dotted text has at most 15 characters and the address can be read back from it |
| Numbers.IpTextIs | src/internet/internet.h:21-35 | the four numbers are the bytes of the address, the highest first |
| Numbers.IpTextInjective | src/internet/internet.h:21-35 | different addresses have different texts |
| Heap.KernelHeap.Malloc | src/lib/prddef.h:12-19 | grants the next range or refuses without a change; the blocks granted before keep their bytes |
| Heap.KernelHeap.Calloc | src/lib/prddef.h:24-30 | adds one block of zeros to the granted blocks, or none, and changes no other |
| Heap.KernelHeap.Realloc | src/lib/prddef.h:32-43 | every block granted before keeps its bytes, and the new one starts with the first min(old, new) bytes of the old one; the copy repeats bytes when blocks overlap, and stays inside the heap |
| Heap.GrantsDisjoint | src/lib/prddef.h:12-19 | over any run of requests the granted ranges lie in the heap and are pairwise disjoint, and their sizes add up to the distance moved |
| Heap.KernelHeap.AnswerAll | src/lib/prddef.h:12-43 | over any run of requests no granted block changes |
| Heap.CopiedBlock | src/lib/prddef.h:32-43 | of the overlapping copy, the part that the old block has is that block's bytes |

## Left out

- Shell.ExecuteRm: requires a directory to be empty, because `rm -rf` on any other has no step on the tree, as `RecursiveRemove.RmSparesIff` shows; what it does to the tables is in `Shell.RemoveNamed`.
- Shell.RemoveNamed: a call that does not end is one that has not ended after any number of turns; that endless recursion runs out of the kernel's stack is not modelled.
- ShellLine.ExecuteLine: a line that is no file command leaves the tables alone in the model; the other commands (`ls`, `cat`, `sh`, `ps`, `help` and the like) are not run.
- Ttys.VirtualTtys.SwitchTty: tells that the login screen comes up; what that screen prints and reads is not run but appears as actions that follow.
- Numbers.IntToStr: does not cover the most negative int, whose negation overflows.
- Heap.KernelHeap.Malloc: requires requests that do not wrap the 64-bit address.
- Runs that switch TTYs and remove directories: a saved current inode may then name a removed directory. File-system runs use one TTY, and the TTY model carries the directory number along without looking at the tables.
- Writes over 8192 bytes within a run: one such write is covered by the results on a single write, not by the capacity bound.
- Time stamps and owner ids of inodes: written but never read by the modelled calls.
- Non-ASCII characters on the terminal, which sign-extend into the colour byte, and the hardware cursor.
- The redraw of a recalled history line, which resets only the column, and a line of 255 characters, which the shell gives up.
- Mouse mode (`smouse_mode`), in which the terminal and history routines return at once.
- `cat` with redirection, whose guard asks for the operator in the place of the source file.
- The process table, the Linux kernel module and formatter in `fs/`, keyboard, mouse, fonts, clock, login prompt, simulated network commands and fixed texts.
