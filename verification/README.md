# A verified model of the kernel's state-carrying core

This project models, in Dafny 4.11, the parts of a small POSIX kernel and its C library that carry
state, and proves what they keep. `dafny verify dfyconfig.toml` checks all of it.

How the model is built:

- Every operation is a function on values, and the results are lemmas about those functions. Where
  the code updates objects, arrays or globals in place, a class or a method with loops has the same
  branches and is proved to do what the function says.
- What a step does is also stated without its definition, as clauses on the states before and after it,
  and proved to be met by that step; for the scheduler, the pipe and the return from a system call by that
  step alone (`Scheduler.StepDoes`, `Pipe.StepIs`, `Signals.ReturnIs`).
- Runs are sequences of states linked by steps. A result about "every run" is an induction over such
  a sequence, with no bound on its length.

The modules, by subject:

- **Filesystem.** `Paths` (lexical normalization), `DirTree` (directory graph, path resolution, tree
  invariant), `DirOps`, `Rename`, `FsRuns` (mkdir, open, unlink, rename and their runs), `RamFs` (the
  directory objects), `DirLocks` (lock programs and deadlock freedom), `Tar`, `Initramfs`, `Unpack`
  (the archive writer and unpacker). The standard for rename is rename() in the System Interfaces
  volume of POSIX.1-2024.
- **Virtual memory.** `Pmm` (frame bitmap), `Paging`, `PageMap`, `AddressSpace` (four-level tables and
  the flat map they refine, section 4.5 of volume 3A of the Intel SDM), `Teardown`, `Mmu` (the paging
  code on a memory object), `Costs` (the frames that mappings take), `Mmap`, `Vma` (the list of areas),
  `UserMemory`, `VmSpace`, `VmCalls` (mmap, munmap, mprotect and the agreement of areas and tables),
  `Fork`, `Clone`, `SmallMachine` (an eight-frame machine for examples).
- **Initial user stack.** `UserStack`, `StackSetup` (section 3.4 of the System V AMD64 psABI).
- **C library allocator.** `Slab`, `SlabRuns`, `SlabClean`.
- **Scheduling, pipes, signals.** `Scheduler`, `Pipe`, `Signals`.

What the model takes as given:

- Physical frames are numbered. A frame's page-table entries and its bytes are two separate maps; the
  ownership invariants keep any frame from being used as both.
- Machine words are natural numbers. Overflow checks of the code are explicit tests against the word
  size. Signal masks are sets of signal numbers. File and string bytes are characters below 256.
- Failures of allocators, mappers and user-memory writes are parameters, so results hold for every
  pattern of failures.
- New directories, control blocks and memory regions are fresh objects, which the steps of a run state
  as a premise. Pids are not: a fork may take any pid, as the counter at
  kernel/src/services/process/mod.rs:201 does.
- The scheduler results about runs start from any sound state, or from a state like the kernel's own
  start, in which init is on the CPU but Ready (kernel/src/services/mod.rs:91-107,
  kernel/src/services/process/mod.rs:92). The idle task is registered (kernel/src/services/mod.rs:119)
  and never exits.
- Memory that the kernel maps for the C library reads as zeros.
- Each section under a lock, and each scheduler call, is one step.

Where the code does less than its comments or a reader would expect, the model follows the code. A
lemma then gives the exact condition, both ways, and where an example is named it is a concrete input:

- `insert_vma` can drop the tail of the last overlapped area (`Vma.TailLossExample`,
  `Vma.InsertExactIff`); mprotect never meets that case (`Vma.ConstantSpanNoTailLoss`).
- Mapping over a present page overwrites its entry (kernel/src/ostd/arch/x86_64/paging.rs:162), so the
  frame it was on is lost (`AddressSpace.MapFreshConserves`, `Teardown.WholeLifeConserves`,
  `SmallMachine.OverwriteLoses`).
- A failed mmap unmaps the pages it got to, also those that were mapped before the call
  (`Mmap.MmapAllOrNothing`, `Mmap.EveryFailureKeepsIff`, `SmallMachine.RollbackUnmaps`).
- So mmap can leave areas and tables in disagreement (`VmCalls.MmapAgreesIff`).
- A clone ignores whether a page could be mapped (kernel/src/ostd/mm/vmm.rs:475-476). Short of frames for
  tables it loses one frame, and at the last page it hands out a child without that page
  (`Clone.CloneFrom`, `SmallMachine.CloneTears`, `SmallMachine.CloneLosesFrame`).
- Writers on a pipe are woken one at a time, so one can be left waiting on an empty pipe
  (`Pipe.WriterLeftWaiting`, `Pipe.WritersKeptIff`).
- `free` trusts a mark in the block's second word, which the program can have written itself
  (`SlabRuns.MarkedBlockStays`, `SlabRuns.FreeReleasesIff`); a program that never does so is safe
  (`SlabClean.FreeNeverIgnored`).
- Without an idle task, an exit with nothing queued leaves a zombie on the CPU
  (`Scheduler.StepKeepsIff`, `Scheduler.ZombieStays`); the kernel always registers one
  (kernel/src/services/mod.rs:119).
- At the start init is Ready and not queued, so the first step that switches away from it forgets it
  (`Scheduler.BootUnstarted`, `Scheduler.ForgetsIff`, `Scheduler.RunFromStart`).
- The first fork takes init's pid and its place in the process table, so no wake-up finds init
  (`Scheduler.FirstForkUnnames`, `Scheduler.StepNamesIff`).
- Pids are unique, as the comment at kernel/src/services/process/mod.rs:208 says, exactly up to the end of
  the counter's range; behind it 2 is handed out twice (`Scheduler.PidsUniqueIff`, `Scheduler.PidRepeats`).
- A page mapped with no access bits is still readable, so the access check grants reads on every
  covered range (`VmCalls.GrantedIffCovered`).
- unlink also removes directories that are not empty, although its comment speaks of empty ones
  (`FsRuns.UnlinkLosesOnlyIff`, `FsRuns.UnlinkLosesFile`).

## Model

| member | source | states |
|---|---|---|
| `Paths.NormalizePath` | kernel/src/services/vfs/mod.rs:329-360 | the push/pop loop and the rendering loop return the rendered fold of the split path |
| `Paths.NormalizeSnoc` | kernel/src/services/vfs/mod.rs:329-360 | the law of the loop, on path strings: an empty piece or "." at the end of an absolute path changes nothing, ".." takes the last component off and stays at the root, any other piece is appended |
| `Paths.NormalizeFirst` | kernel/src/services/vfs/mod.rs:329-360 | the same for the first piece |
| `Paths.NormalizeRelative` | kernel/src/services/vfs/mod.rs:329-360 | a path that is not absolute is normalized as the absolute path below the working directory |
| `Paths.NormalizedNames` | kernel/src/services/vfs/mod.rs:329-360 | no component of a normalized path is empty, ".", ".." or contains a separator |
| `Paths.PathRoundTrip` | kernel/src/services/vfs/mod.rs:363-381 | splitting a rendered component list and dropping empty pieces gives the list back, so the resolvers walk exactly the normalized components |
| `Paths.NormalizeIdempotent` | kernel/src/services/vfs/mod.rs:329-360 | normalizing a normalized path changes nothing, whatever the working directory |
| `Paths.PrefixStringIffProperPrefix` | kernel/src/services/posix/fs.rs:518-532 | the string test of the rename cycle check holds exactly when the new component list properly extends the old one |
| `DirTree.ResolveFailsAt` | kernel/src/services/vfs/mod.rs:363-381 | a walk fails exactly at the first component that its directory lacks, with ENOENT, or whose predecessor is no directory, with ENOTDIR |
| `DirTree.ResolveAppend` | kernel/src/services/vfs/mod.rs:363-381 | walking a concatenation is walking the first part and going on from there, and a failure sticks |
| `DirTree.PathUnique` | kernel/src/services/vfs/ramfs.rs:111-298 | where every directory has at most one parent entry and the root none, a directory is reached by one path only |
| `DirTree.AncestorIffPrefix` | kernel/src/services/posix/fs.rs:518-532 | a directory descends from another exactly when the path of the other is a prefix of its own |
| `DirTree.EntryFrame` | kernel/src/services/vfs/ramfs.rs:111-298 | changing one entry of one directory is seen only through paths that pass that entry |
| `DirTree.BelowEntry` | kernel/src/services/vfs/mod.rs:363-381 | paths below an absent entry fail with ENOENT, paths below a present one continue at what it names |
| `DirOps.CreateFileEffect` | kernel/src/services/vfs/ramfs.rs:111-126 | creating a file adds no directory edge and keeps every entry count and typed reference right |
| `DirOps.UnlinkEffect` | kernel/src/services/vfs/ramfs.rs:142-151 | removing an entry adds no directory edge and keeps every entry count and typed reference right |
| `DirOps.CreateDirNodes` | kernel/src/services/vfs/ramfs.rs:128-140 | creating a directory keeps every entry count and typed reference right |
| `DirOps.CreateDirKeepsShape` | kernel/src/services/vfs/ramfs.rs:128-140 | creating a directory keeps one parent each, no dangling entry and no cycle, detached directories included |
| `DirOps.PlusKeepsShape` | kernel/src/services/vfs/ramfs.rs:168-298 | one new directory edge to an orphan that does not reach its new parent keeps the shape |
| `Rename.MoveArrives` | kernel/src/services/vfs/ramfs.rs:168-298 | every path below the new name resolves to what it resolved to below the old name |
| `Rename.MoveGone` | kernel/src/services/vfs/ramfs.rs:168-298 | nothing resolves at or below the old name any more |
| `Rename.MoveFrame` | kernel/src/services/vfs/ramfs.rs:168-298 | every path through neither name is as before |
| `Rename.MoveKeepsShape` | kernel/src/services/vfs/ramfs.rs:168-298 | moving a directory to a place it does not contain keeps the shape |
| `Rename.MoveKeepsNodes` | kernel/src/services/vfs/ramfs.rs:213-226 | both parents keep the right entry count and typed references |
| `Rename.AncestorRefused` | kernel/src/services/vfs/ramfs.rs:272-284 | a destination that is a proper ancestor of the source is refused, through its entry count |
| `Rename.RenameUnchanged` | kernel/src/services/posix/fs.rs:447-573 | every errno leaves the whole store as it was |
| `Rename.RenameMovesSubtree` | kernel/src/services/posix/fs.rs:467-573 | rename is atomic and a subtree move: on an error or equal paths nothing changes, else each path below new resolves as it did below old, nothing resolves below old, and all other paths are as before |
| `Rename.RenameKeepsTree` | kernel/src/services/posix/fs.rs:467-573 | rename keeps the tree, its counts and its typed references |
| `FsRuns.MkdirEffect` | kernel/src/services/posix/fs.rs:328-387 | mkdir succeeds exactly where a directory lacks the entry, binding that one path to a fresh empty directory; else the errno is EINVAL for the root, that of the walk, EEXIST or ENOTDIR, and nothing changes |
| `FsRuns.OpenEffect` | kernel/src/services/posix/fs.rs:100-173 | open succeeds on a path that resolves, unless O_CREAT and O_EXCL ask for a new one, and with O_CREAT where a directory lacks the entry, binding that one path to a new file; else EEXIST or the errno of the walk, and nothing changes |
| `FsRuns.UnlinkPathEffect` | kernel/src/services/posix/fs.rs:390-444 | unlink succeeds exactly on a path other than the root that resolves, removes it with everything below it and changes no other path; else the errno is EINVAL for the root or that of the walk, and nothing changes |
| `FsRuns.UnlinkLosesOnlyIff` | kernel/src/services/vfs/ramfs.rs:142-151 | a successful unlink loses no path but the one it names if and only if that is a leaf or an empty directory |
| `FsRuns.UnlinkLosesFile` | kernel/src/services/vfs/ramfs.rs:142-151 | on a tree of two levels unlink of the directory succeeds and loses the file in it |
| `FsRuns.RenameSucceedsIff` | kernel/src/services/posix/fs.rs:447-573 | rename returns 0 exactly when the two paths meet conditions stated on paths alone |
| `FsRuns.RenameErrnoIs` | kernel/src/services/posix/fs.rs:447-573 | which errno rename returns, by the two paths alone and in order: EBUSY for the root, that of the walk to the source, 0 for equal paths, EINVAL below the source directory, that of the walk to the new parent or EXDEV, and ENOTDIR, EISDIR or ENOTEMPTY for an existing destination |
| `FsRuns.TextualTestIsAncestorTest` | kernel/src/services/posix/fs.rs:518-532 | in a tree the textual prefix test is exactly the test whether the new parent is the source directory or one of its descendants |
| `FsRuns.CountedIffNotEmpty` | kernel/src/services/vfs/ramfs.rs:199-211 | an entry count of zero is exactly emptiness as seen by paths |
| `FsRuns.StepKeepsTree` | kernel/src/services/posix/fs.rs:328-573 | each of the four calls keeps the tree |
| `FsRuns.RunKeepsTree` | kernel/src/services/posix/fs.rs:328-573 | over every run of mkdir, open, unlink and rename the store stays a tree with exact counts |
| `FsRuns.RunGoesOn` | kernel/src/services/posix/fs.rs:328-573 | a run of one call is that call, and a longer run goes on where the shorter one ended |
| `FsRuns.RunKeepsTyped` | kernel/src/services/vfs/ramfs.rs:111-298 | over every such run each directory entry has its typed reference, so the two maps of a directory never drift apart |
| `FsRuns.EmptyRootIsTree` | kernel/src/services/vfs/ramfs.rs:30-45 | a freshly made root is such a tree, with every typed reference in place |
| `RamFs.RamFsDir.CreateFile` | kernel/src/services/vfs/ramfs.rs:111-126 | the directory object after the call is the value-level result |
| `RamFs.RamFsDir.CreateDir` | kernel/src/services/vfs/ramfs.rs:128-140 | the directory object and the fresh child after the call are the value-level result, EEXIST included |
| `RamFs.RamFsDir.Unlink` | kernel/src/services/vfs/ramfs.rs:142-151 | the directory object after the call is the value-level result, ENOENT included |
| `RamFs.RamFsDir.CheckReplace` | kernel/src/services/vfs/ramfs.rs:186-211 | the checks on an existing target return the value-level errno |
| `RamFs.RamFsDir.Rename` | kernel/src/services/vfs/ramfs.rs:168-298 | both branches together have the value-level effect on all directory objects |
| `RamFs.RamFsDir.RenameWithin` | kernel/src/services/vfs/ramfs.rs:176-226 | the one-directory branch moves the entry and keeps the count |
| `RamFs.RamFsDir.RenameAcross` | kernel/src/services/vfs/ramfs.rs:228-298 | the two-directory branch moves the entry and both counts |
| `RamFs.Vfs.ResolvePath` | kernel/src/services/vfs/mod.rs:363-381 | the lookup loop over the directory objects returns the value-level walk |
| `RamFs.Vfs.ResolveParentAndBasename` | kernel/src/services/vfs/mod.rs:384-403 | returns the parent inode and last component of the normalized path, EINVAL for the root |
| `RamFs.Vfs.SysMkdir` | kernel/src/services/posix/fs.rs:328-387 | the call on the objects has the value-level effect and errno |
| `RamFs.Vfs.SysOpenCreate` | kernel/src/services/posix/fs.rs:100-173 | the call on the objects has the value-level effect and errno |
| `RamFs.Vfs.SysUnlink` | kernel/src/services/posix/fs.rs:390-444 | the call on the objects has the value-level effect and errno |
| `RamFs.Vfs.SysRename` | kernel/src/services/posix/fs.rs:447-573 | the call on the objects has the value-level effect and errno |
| `DirLocks.ProgramsOrdered` | kernel/src/services/vfs/ramfs.rs:55-57 | every directory operation takes its locks in strictly increasing (mount, entries, subdirs; address) order and ends holding none |
| `DirLocks.ProgramsProtect` | kernel/src/services/vfs/ramfs.rs:111-298 | every operation holds, at one moment, the locks of everything it touches, and a path walk the lock of each directory in its turn |
| `DirLocks.ReachableExclusive` | kernel/src/services/vfs/ramfs.rs:228-250 | in every reachable state no lock has two holders |
| `DirLocks.DeadlockFree` | kernel/src/services/vfs/ramfs.rs:228-250 | for any number of threads and directories, every reachable state with an unfinished operation has a thread that can step |
| `DirLocks.RunsComplete` | docs/adr/0002-locking.md:35 | no run is longer than the programs have events, and one that cannot be extended has finished every operation |
| `Tar.ParseOctal` | kernel/src/services/vfs/tar.rs:49-59 | the accumulating loop returns the value of the digits up to the first NUL or space, other characters skipped |
| `Tar.OctalRoundTrip` | tools/xtask/src/initramfs.rs:57 | a number with enough octal digits and a terminator reads back |
| `Tar.OctalEndsAndSkips` | kernel/src/services/vfs/tar.rs:49-59 | NUL and space end a number wherever they are, any other character that is no digit is skipped |
| `Tar.HeaderFields` | tools/xtask/src/initramfs.rs:50-66 | name, mode, uid, gid, size, mtime, type and magic are at their offsets with exactly these bytes |
| `Tar.ChecksumReadsBack` | tools/xtask/src/initramfs.rs:63-66 | the checksum field, read as octal, is the sum of the header bytes with that field blank |
| `Tar.WriteTarEntry` | tools/xtask/src/initramfs.rs:49-76 | filling the header in place and appending padded data writes exactly the specified entry |
| `Initramfs.NewSubdirOk` | kernel/src/services/vfs/ramfs.rs:55-66 | creating a missing subdirectory binds one new path to an empty directory and keeps all others |
| `Initramfs.NewFileOk` | kernel/src/services/vfs/ramfs.rs:47-52 | adding a file under a new name binds one new path to it and keeps all others |
| `Initramfs.MakeDirsOk` | kernel/src/services/vfs/tar.rs:92-104 | walking the leading components makes exactly the missing prefixes into directories |
| `Initramfs.InstallOk` | kernel/src/services/vfs/tar.rs:88-105 | a file member adds exactly its file and the directories its path needs |
| `Initramfs.InstallDirOk` | kernel/src/services/vfs/tar.rs:88-105 | a directory member makes the directories of its path and adds no file |
| `Initramfs.InstallAllOk` | kernel/src/services/vfs/tar.rs:62-112 | a prefix-free list of members gives exactly its files in exactly the directories their paths need |
| `Unpack.InstallMember` | kernel/src/services/vfs/tar.rs:91-105 | the component loop has the value-level effect and file count |
| `Unpack.UnpackTarArchive` | kernel/src/services/vfs/tar.rs:62-112 | the offset loop has the value-level effect, result and errors |
| `Unpack.WriteArchive` | tools/xtask/src/initramfs.rs:12-25 | writing the members one after the other and two zero blocks gives the archive |
| `Unpack.UnpackMember` | kernel/src/services/vfs/tar.rs:69-109 | one written member is read back exactly and the loop goes on behind its padding |
| `Unpack.UnpackDirectory` | kernel/src/services/vfs/tar.rs:69-109 | a directory member, by its flag or by a closing separator, makes its directories and counts as no file |
| `Unpack.ComponentsOf` | kernel/src/services/vfs/tar.rs:86-92 | separators around a member name do not matter, and between them it is split |
| `Unpack.Utf8Iff` | kernel/src/services/vfs/tar.rs:78-79 | a member name is let through exactly if it is the UTF-8 encoding of some Unicode scalar values |
| `Unpack.UnpackStops` | kernel/src/services/vfs/tar.rs:62-112 | behind any members the loop ends well at the end of the data or at a zero block, and fails at a member cut off inside its data or, before that, at a name that is not UTF-8; the files before it are there in every case |
| `Unpack.TarRoundTrip` | kernel/src/services/vfs/tar.rs:62-112 | unpacking what the writer wrote into an empty root succeeds with the file count; a path is a file exactly if it is one of the names, with its data, and a directory exactly if it is a proper prefix of one |
| `Pmm.FirstFree` | kernel/src/ostd/mm/pmm.rs:160-178 | finds the lowest free frame of a range, or none if all are used |
| `Pmm.AllocCorrect` | kernel/src/ostd/mm/pmm.rs:160-178 | allocation fails exactly when no frame is free, and otherwise takes one free frame, never frame 0, out of the free set and the count |
| `Pmm.AllocIsNextFit` | kernel/src/ostd/mm/pmm.rs:160-178 | the frame is the lowest free one from the cursor up, or if there is none the lowest free one, and the cursor goes behind it |
| `Pmm.FreeCorrect` | kernel/src/ostd/mm/pmm.rs:212-221 | freeing a used frame puts it back in the free set and the count |
| `Pmm.FreeMovesCursor` | kernel/src/ostd/mm/pmm.rs:212-221 | freeing moves the cursor down to the frame if it was above; freeing out of range or a free frame changes nothing |
| `Pmm.DoubleFreeHarmless` | kernel/src/ostd/mm/pmm.rs:212-221 | freeing twice is freeing once |
| `Pmm.BitLaws` | kernel/src/ostd/mm/pmm.rs:130-145 | setting or clearing one bit of a byte changes that bit and no other |
| `Pmm.PhysicalMemoryManager.TestBit` | kernel/src/ostd/mm/pmm.rs:149-157 | reads the frame flag, and true out of range |
| `Pmm.PhysicalMemoryManager.SetBit` | kernel/src/ostd/mm/pmm.rs:130-145 | changes exactly one frame flag of the bitmap, none out of range |
| `Pmm.PhysicalMemoryManager.AllocFrame` | kernel/src/ostd/mm/pmm.rs:160-178 | the two scans over the bitmap have the value-level effect |
| `Pmm.PhysicalMemoryManager.FreeFrame` | kernel/src/ostd/mm/pmm.rs:212-221 | has the value-level effect on bitmap, count and cursor |
| `Pmm.PhysicalMemoryManager.AllocContiguousFrames` | kernel/src/ostd/mm/pmm.rs:182-209 | takes the lowest run of free frames above frame 0, or nothing exactly when there is none |
| `Pmm.RunTaken` | kernel/src/ostd/mm/pmm.rs:199-204 | taking a free run above frame 0 takes exactly its frames out of the free set and the count |
| `Paging.EntryWordRoundTrip` | kernel/src/ostd/arch/x86_64/paging.rs:54-86 | address and attribute bits share an entry word without disturbing each other, and no attribute word sets the huge-page bit |
| `Paging.FlagBitPlaces` | kernel/src/ostd/arch/x86_64/paging.rs:54-86 | present is bit 0, writable 1, user 2, no-execute 63, and no other bit is set |
| `Paging.LeafUpdate` | kernel/src/ostd/arch/x86_64/paging.rs:146-164 | storing a leaf entry is seen at its own path only, in tables that form an unshared tree |
| `Paging.LinkUpdate` | kernel/src/ostd/arch/x86_64/paging.rs:106-122 | linking a fresh zeroed table is seen at its own path only |
| `PageMap.CreateStep` | kernel/src/ostd/arch/x86_64/paging.rs:106-122 | one level of table creation keeps the unshared tree, every page, and the frames of free and owned sets together; failure changes nothing |
| `PageMap.DescendGrows` | kernel/src/ostd/arch/x86_64/paging.rs:146-164 | creating the missing tables along a path keeps all that, also when it fails half way |
| `PageMap.MapPageRefines` | kernel/src/ostd/arch/x86_64/paging.rs:146-164 | mapping changes the entry of exactly one page, a failed mapping changes none, and the tables stay an unshared tree |
| `PageMap.UnmapPageRefines` | kernel/src/ostd/arch/x86_64/paging.rs:172-194 | unmapping clears exactly one page and returns the frame it had |
| `PageMap.SetPageFlagsRefines` | kernel/src/ostd/arch/x86_64/paging.rs:200-225 | reprotecting rewrites the flags of one present page, keeps its frame, and changes no other |
| `AddressSpace.IndicesOfPage` | kernel/src/ostd/arch/x86_64/paging.rs:43-50 | the four 9-bit indices of a user address are those of its page and name that page |
| `AddressSpace.IndicesOnto` | kernel/src/ostd/arch/x86_64/paging.rs:43-50 | every four-level path into the lower half belongs to a page |
| `AddressSpace.TablesRefineFlatMap` | kernel/src/ostd/arch/x86_64/paging.rs:146-225 | the four-level tables refine one map from pages to entries: map binds, a failed map keeps, unmap removes and returns the frame, reprotect rewrites flags of a present page |
| `AddressSpace.MapFreshLoses` | kernel/src/ostd/arch/x86_64/paging.rs:146-164 | mapping a fresh frame at any page, failing at any point or not, changes that page only, and loses exactly the frame the page was on if it succeeds and nothing if it fails |
| `AddressSpace.MapFreshConserves` | kernel/src/ostd/arch/x86_64/paging.rs:162 | frames are conserved if and only if the mapping fails or the page was not mapped |
| `AddressSpace.UnmapFreeConserves` | kernel/src/ostd/mm/vmm.rs:326-341 | unmapping and freeing loses and gains no frame and clears that page only |
| `AddressSpace.NewSpaceOk` | kernel/src/ostd/mm/vmm.rs:75-94 | a new space owns its root frame and nothing else and maps no user page |
| `AddressSpace.NewSpaceUpper` | kernel/src/ostd/arch/x86_64/paging.rs:290-300 | the upper 256 root entries are those of the active space, the lower ones are absent, and no other table changes |
| `Teardown.FreeTreeExact` | kernel/src/ostd/arch/x86_64/paging.rs:307-341 | freeing a subtree frees exactly the frames at and below it, each once |
| `Teardown.DropFreesOwned` | kernel/src/ostd/mm/vmm.rs:485-508 | dropping a space frees exactly its frames, each once |
| `Teardown.WholeLifeConserves` | kernel/src/ostd/mm/vmm.rs:485-508 | create a space, run any maps, onto mapped pages or not and some failing, and unmaps, then drop it: the allocator lacks exactly the overwritten frames, so free set and count are as before if and only if no successful map found its page mapped |
| `Mmu.Mmu.GetOrCreateTable` | kernel/src/ostd/arch/x86_64/paging.rs:106-122 | has the value-level effect on tables and allocator |
| `Mmu.Mmu.GetTable` | kernel/src/ostd/arch/x86_64/paging.rs:129-140 | returns the next-level table exactly if the entry is present |
| `Mmu.Mmu.MapPage` | kernel/src/ostd/arch/x86_64/paging.rs:146-164 | the three lookups and the leaf store have the value-level effect |
| `Mmu.Mmu.UnmapPage` | kernel/src/ostd/arch/x86_64/paging.rs:172-194 | the three lookups and the clearing have the value-level effect and return the frame |
| `Mmu.Mmu.SetPageFlags` | kernel/src/ostd/arch/x86_64/paging.rs:200-225 | the three lookups and the rewrite have the value-level effect |
| `Mmu.Mmu.TranslateAddress` | kernel/src/ostd/arch/x86_64/paging.rs:232-251 | the three lookups and the read give the value-level translation |
| `Mmu.Mmu.ValidateUserPage` | kernel/src/ostd/arch/x86_64/paging.rs:258-283 | over sound tables the level-by-level walk gives the verdict of the flat map, not mapped before not writable |
| `Mmu.Mmu.ValidateUserRange` | kernel/src/ostd/mm/user.rs:71-90 | gives the verdict of the first page of the range that is not granted; empty, overflowing and out-of-range requests as in the source |
| `Mmu.RangeGrantedIff` | kernel/src/ostd/mm/user.rs:71-90 | a range is granted exactly if each of its pages is |
| `Mmu.Mmu.FreePageTableHierarchy` | kernel/src/ostd/arch/x86_64/paging.rs:307-341 | the nested loops have the value-level effect |
| `Mmap.PlanFits` | libs/mm-core/src/lib.rs:70-108 | an accepted request is page-aligned, has ceil(length / 4096) pages, ends below the user limit, and moves the bump pointer only for address 0 |
| `Mmap.PlacedIff` | libs/mm-core/src/lib.rs:70-108 | a request is placed exactly if it is not empty, has no more pages than there are free frames and ends below the user limit; EINVAL for an empty one, ENOMEM otherwise |
| `Mmap.RoomFor` | libs/mm-core/src/lib.rs:76 | the pages of a length hold it and one fewer would not |
| `Costs.DescendCost` | kernel/src/ostd/arch/x86_64/paging.rs:106-122 | building the tables along a path takes one frame for each that is missing and works exactly when there are that many; if it fails no frame is left |
| `Costs.MapPageCost` | kernel/src/ostd/arch/x86_64/paging.rs:146-164 | the same for mapping a frame in hand |
| `Costs.SpendInHand` | kernel/src/ostd/arch/x86_64/paging.rs:146-164 | for one more page after a set of pages: whether its frame and its tables can be had is known from what was free at the start |
| `Mmap.MapRangeOk` | libs/mm-core/src/lib.rs:110-152 | the page loop, onto any pages, maps consecutive pages up to the first failure on frames that were free, and loses exactly the frames those pages were on |
| `Mmap.UnmapRangeOk` | kernel/src/ostd/mm/vmm.rs:343-353 | unmapping a range clears exactly its pages and loses no frame |
| `Mmap.MmapEffect` | libs/mm-core/src/lib.rs:53-155 | for every request and every point at which allocator or mapper fails: a refused request changes nothing, a failed one keeps the bump pointer and unmaps the pages it got to, a successful one maps exactly ceil(length / 4096) distinct frames that were free at consecutive pages below the limit; the frames those pages were on are lost |
| `Mmap.MmapReaches` | libs/mm-core/src/lib.rs:110-152 | the loop gets past its first k pages exactly when none of them faults and there are frames for them and their missing tables, so success is known beforehand |
| `Mmap.MmapAllOrNothing` | libs/mm-core/src/lib.rs:53-155 | a failed call leaves the page map as it was, and any call conserves frames, if and only if no mapped page of the request is among those the free frames and the faults let it get to |
| `Mmap.EveryFailureKeepsIff` | libs/mm-core/src/lib.rs:110-152 | every way to fail one request keeps the page map if and only if no mapped page but the last is within reach of the free frames |
| `SmallMachine.RollbackUnmaps` | libs/mm-core/src/lib.rs:110-152 | on a machine of eight frames a two-page request fails and unmaps a page that was mapped before |
| `SmallMachine.OverwriteLoses` | kernel/src/ostd/arch/x86_64/paging.rs:162 | on that machine a request for the mapped page succeeds and its old frame is neither free nor owned |
| `Mmap.BumpResultsDisjoint` | libs/mm-core/src/lib.rs:86-98 | regions handed out through the bump pointer are disjoint over any run |
| `Vma.InsertedOk` | kernel/src/ostd/mm/vmm.rs:103-186 | insertion into a canonical list gives a canonical list that overrides the range exactly, except for the addresses the tail-losing case drops |
| `Vma.InsertArea` | kernel/src/ostd/mm/vmm.rs:103-186 | the two loops compute that insertion |
| `Vma.InsertExactIff` | kernel/src/ostd/mm/vmm.rs:129-159 | insertion is exact override if and only if the tail-losing case does not hold |
| `Vma.TailLossExample` | kernel/src/ostd/mm/vmm.rs:129-159 | a list and a range for which insertion loses addresses above the range |
| `Vma.Coalesce` | kernel/src/ostd/mm/vmm.rs:171-186 | the merging loop computes the fold of its rounds; from a sorted list it is the canonical list of the same address map |
| `Vma.CanonicalUnique` | kernel/src/ostd/mm/vmm.rs:103-186 | two canonical lists of the same address map are equal |
| `Vma.RemovedOk` | kernel/src/ostd/mm/vmm.rs:223-246 | removal from a canonical list is exact deletion and gives a canonical list |
| `Vma.RemoveRange` | kernel/src/ostd/mm/vmm.rs:223-246 | the loop computes that removal |
| `Vma.ContainsRange` | kernel/src/ostd/mm/vmm.rs:194-208 | holds exactly if the range is non-empty and every address is covered |
| `Vma.ProtectedOk` | kernel/src/ostd/mm/vmm.rs:249-285 | re-protection of a covered range of a canonical list changes protection on exactly the range, keeps every flag and gives a canonical list |
| `Vma.ProtectRange` | kernel/src/ostd/mm/vmm.rs:249-285 | the two loops compute that re-protection and succeed exactly on covered non-empty ranges |
| `Vma.ConstantSpanNoTailLoss` | kernel/src/ostd/mm/vmm.rs:269-282 | re-protecting a stretch with constant attributes never meets the tail-losing case |
| `Vma.StepExactIff` | kernel/src/ostd/mm/vmm.rs:103-285 | each of the three operations keeps the list canonical, and does to the address map what it is meant to if and only if it is not an insertion that loses a tail |
| `Vma.RunsCanonical` | kernel/src/ostd/mm/vmm.rs:103-285 | every list of every run from a canonical list is canonical, and as long as no insertion has lost a tail it denotes the map built by plain overrides, deletions and re-protections |
| `UserMemory.TranslateFlat` | kernel/src/ostd/arch/x86_64/paging.rs:232-250 | translation is lookup in the flat map, offset kept |
| `UserMemory.WriteBytes` | kernel/src/ostd/mm/vmm.rs:426-452 | the page-chunked copy stops at the first page not present; up to there and nowhere else memory holds the data, and no frame outside the space is touched |
| `VmSpace.InsertRepaged` | kernel/src/ostd/mm/vmm.rs:103-186 | insertion that loses no tail changes exactly the pages of the range |
| `VmSpace.TailLossDisagrees` | kernel/src/ostd/mm/vmm.rs:129-159 | after an insertion that loses a tail some page is present that no area covers |
| `VmSpace.SetRangeOk` | kernel/src/ostd/mm/vmm.rs:262-267 | the page loop of mprotect changes the flags of the present pages of the range and nothing else |
| `VmSpace.AgreedBits` | kernel/src/ostd/mm/flags.rs:81-88 | a covered page is present and open to user mode, writable exactly with PROT_WRITE and executable exactly with PROT_EXEC |
| `VmCalls.FreshOk` | kernel/src/ostd/mm/vmm.rs:75-94 | a new space without areas satisfies the invariant |
| `VmCalls.MmapAgreesIff` | kernel/src/services/posix/mem.rs:41-84 | after mmap onto any pages areas and tables agree if and only if the call is not one that succeeds where insertion loses a tail, or fails after overwriting a mapped page |
| `VmCalls.MmapCallEffect` | kernel/src/services/posix/mem.rs:41-84 | mmap succeeds exactly if the request is not empty, ends below the user limit, has no more pages than free frames, and its pages and tables can be had; then it returns the base, maps exactly its pages with the flags of the protection and inserts the area; EINVAL or ENOMEM keep areas and bump pointer |
| `VmCalls.MunmapAgrees` | kernel/src/services/posix/mem.rs:87-115 | munmap of any range keeps the agreement and loses no frame |
| `VmCalls.MunmapEffect` | kernel/src/services/posix/mem.rs:87-115 | munmap of an aligned, non-empty range in user space returns 0 and takes exactly its pages and its addresses out, memory contents and bump pointer kept; any other range is refused with EINVAL and nothing changes |
| `VmCalls.MunmapUndoesMmap` | kernel/src/services/posix/mem.rs:41-115 | mapping a range that nothing covered and unmapping it again gives the same page map and areas and loses no frame |
| `VmCalls.MprotectAgrees` | kernel/src/services/posix/mem.rs:118-152 | mprotect of any range keeps the agreement and the allocator |
| `VmCalls.MprotectEffect` | kernel/src/services/posix/mem.rs:118-152 | mprotect of an aligned, non-empty, covered range returns 0 and changes exactly the flags of its present pages and the protection of its addresses; EINVAL for unaligned or empty, ENOMEM for a range not covered or out of user space, and then nothing changes |
| `VmCalls.RunAgreesIff` | kernel/src/services/posix/mem.rs:41-152 | in every state of a run a page is present exactly if an area covers it, with the flags of its protection, if and only if no call before was of those two kinds |
| `VmCalls.GrantedIffCovered` | kernel/src/ostd/mm/user.rs:71-90 | over agreeing tables an access is granted exactly on covered ranges, for writes those writable throughout |
| `VmCalls.RefusedIff` | kernel/src/ostd/mm/user.rs:71-90 | a refused access is NotMapped exactly if the first address in its way is not covered, NotWritable exactly if it is covered but not writable |
| `VmCalls.MmapZeroFilled` | libs/mm-core/src/lib.rs:151 | after a successful mmap onto any pages its range reads as zeros and every byte outside it as before |
| `VmCalls.Process.UnmapPages` | kernel/src/ostd/mm/vmm.rs:343-353 | the unmapping loop has the value-level effect |
| `VmCalls.Process.MapPages` | libs/mm-core/src/lib.rs:110-152 | the mapping and zeroing loop has the value-level effect up to its first failure |
| `VmCalls.Process.MmapPages` | libs/mm-core/src/lib.rs:53-155 | placing, mapping and rolling back have the value-level effect |
| `VmCalls.Process.SysMmap` | kernel/src/services/posix/mem.rs:41-84 | has the effect and result of the value-level call, which is VmCalls.MmapCallEffect |
| `VmCalls.Process.SysMunmap` | kernel/src/services/posix/mem.rs:87-115 | has the effect and result of the value-level call, which is VmCalls.MunmapEffect |
| `VmCalls.Process.SysMprotect` | kernel/src/services/posix/mem.rs:118-152 | has the effect and result of the value-level call, which is VmCalls.MprotectEffect |
| `Fork.OtherSpaceKept` | kernel/src/ostd/mm/vmm.rs:456-482 | what happens under one root leaves a space without common frames unchanged and apart |
| `Fork.NewSpaceApart` | kernel/src/ostd/mm/vmm.rs:456-458 | a new root shares no frame with any existing space |
| `Fork.MapIgnoringLoses` | kernel/src/ostd/mm/vmm.rs:467-476 | a copied page whose mapping works conserves frames; one whose mapping fails loses exactly its frame |
| `Clone.CopyStep` | kernel/src/ostd/mm/vmm.rs:464-476 | copying one page leaves the parent as it was; the page is copied if the mapping works and skipped, with its frame lost, if not |
| `Clone.AlignedAreas` | kernel/src/ostd/mm/vmm.rs:461-463 | areas of a page-wise canonical list begin and end on page boundaries |
| `Clone.CloneArea` | kernel/src/ostd/mm/vmm.rs:461-478 | the page loop deals with exactly the present pages of one area, or stops at a page for which no frame is left |
| `Clone.CloneFrom` | kernel/src/ostd/mm/vmm.rs:456-482 | the parent is as it was. With frames for the root, every page and every table, and only then, the child agrees with the same areas, has the same byte everywhere and no frame in common. If some page finds a frame but not all its tables, exactly that frame is lost, and the child exists, without that page, if and only if it is the last. Otherwise every frame is given back |
| `Clone.TearsOnce` | kernel/src/ostd/mm/vmm.rs:467-476 | at most one page finds a frame but not all its tables, so at most one frame is lost |
| `SmallMachine.CloneTears` | kernel/src/ostd/mm/vmm.rs:475-476 | the eight-frame machine with one page mapped and two frames free is such a case |
| `SmallMachine.CloneLosesFrame` | kernel/src/ostd/mm/vmm.rs:467-476 | step by step on that machine: the page stays unmapped and its frame is neither free nor the child's |
| `Clone.ApartDisjoint` | kernel/src/ostd/mm/vmm.rs:456-482 | spaces without a common frame have their pages on distinct frames |
| `Clone.ForkIsolation` | kernel/src/ostd/mm/vmm.rs:456-482 | over any interleaving of writes by parent and child, each reads its own last writes over what it had and nothing of the other |
| `Clone.CloneIsolation` | kernel/src/ostd/mm/vmm.rs:456-482 | from a complete clone on, whatever the two then write, each reads its own last write or else what the parent had when it was cloned |
| `UserStack.WordRoundTrip` | kernel/src/services/process/elf.rs:259-264 | little-endian bytes of a word read back |
| `UserStack.StringUnique` | kernel/src/services/process/elf.rs:210-213 | memory at an address determines one NUL-free string |
| `UserStack.FrameUnique` | kernel/src/services/process/elf.rs:178-190 | walking up from a stack pointer reads one argument list, one environment and one auxiliary vector |
| `StackSetup.PushStrings` | kernel/src/services/process/elf.rs:203-227 | each string goes right below the one before with its NUL; too big exactly when the total does not fit |
| `StackSetup.PushWords` | kernel/src/services/process/elf.rs:258-282 | the words end up in order right below the given address |
| `StackSetup.AuxvFinds` | kernel/src/services/process/elf.rs:233-240 | a program finds the program headers under 3, 4 and 5, the page size under 6, the entry point under 9, and nothing else before the closing entry |
| `StackSetup.SetupUserStack` | kernel/src/services/process/elf.rs:191-292 | on a mapped stack it succeeds exactly when everything fits; then rsp is 16-byte aligned in the stack, walking up from it reads back argc, argv, envp and six auxv entries, strings and frame do not overlap, and the underflow and mismatch errors never occur |
| `Slab.ClassFromFits` | libs/libc/src/stdlib.rs:146-150 | the class search finds the smallest class that holds the size |
| `Slab.EmptyOk` | libs/libc/src/stdlib.rs:82-93 | the initial allocator state is sound |
| `Slab.PopKeeps` | libs/libc/src/stdlib.rs:156-162 | taking the head of a free list keeps the invariant; it was a free block of that class |
| `Slab.PushFreeKeeps` | libs/libc/src/stdlib.rs:236-247 | pushing a live block keeps the invariant |
| `SlabRuns.BumpKeeps` | libs/libc/src/stdlib.rs:164-170 | bump allocation hands out unused space of an arena and keeps the invariant |
| `SlabRuns.NewArenaKeeps` | libs/libc/src/stdlib.rs:172-209 | a new arena with its first block keeps the invariant |
| `Slab.NewLargeKeeps` | libs/libc/src/stdlib.rs:114-143 | a large block keeps the invariant |
| `SlabRuns.PopAllocates` | libs/libc/src/stdlib.rs:156-162 | the block handed out is no longer marked as freed |
| `SlabRuns.LiveBlocksApart` | libs/libc/src/stdlib.rs:109-212 | live blocks are 16-byte aligned, pairwise disjoint, and inside their arena behind its header |
| `SlabRuns.MallocKeeps` | libs/libc/src/stdlib.rs:109-212 | malloc keeps the invariant and the contents of every live block, returns null exactly when asked for nothing or unable to map, and else a new block large enough |
| `SlabRuns.MallocExact` | libs/libc/src/stdlib.rs:109-212 | a small block has the size of the least class that holds the request, a large one is whole pages less its header with less than a page to spare |
| `SlabRuns.FreedIsReused` | libs/libc/src/stdlib.rs:156-162 | the block given back last is the next one handed out for its class |
| `SlabRuns.FreeForeign` | libs/libc/src/stdlib.rs:222-258 | free of null or of an address in no arena and behind no large header does nothing |
| `SlabRuns.DoubleFreeHarmless` | libs/libc/src/stdlib.rs:239-242 | freeing a block that is already free changes nothing |
| `SlabRuns.FreeReleasesIff` | libs/libc/src/stdlib.rs:222-258 | free gives a live block back, and changes nothing else that is live, if and only if its second word is not the freed mark |
| `SlabRuns.MarkedBlockStays` | libs/libc/src/stdlib.rs:239-242 | a block whose second word holds the mark is not given back |
| `SlabClean.RunClean` | libs/libc/src/stdlib.rs:109-340 | over every run of a program that never stores the mark, no word of a live block, of unused arena space or of a free block but its second holds it |
| `SlabClean.FreeNeverIgnored` | libs/libc/src/stdlib.rs:239-242 | so in such a run free of a live block always gives it back |
| `SlabRuns.ReallocKeeps` | libs/libc/src/stdlib.rs:289-340 | realloc returns the block itself if large enough, else a block large enough with the old contents, or null with nothing changed; other live blocks keep their contents |
| `SlabRuns.ReallocEdges` | libs/libc/src/stdlib.rs:289-340 | realloc of null is malloc, and realloc to size 0 gives the block back and returns null |
| `SlabRuns.LiveStoreKeeps` | libs/libc/src/stdlib.rs:109-212 | stores into live blocks keep the invariant |
| `SlabRuns.RunKeeps` | libs/libc/src/stdlib.rs:109-340 | every state of every well-behaved run is sound: free lists are acyclic, class-correct and hold no live block |
| `SlabRuns.Allocator.FindClass` | libs/libc/src/stdlib.rs:146-150 | the loop returns the class of the size |
| `SlabRuns.Allocator.MallocBlock` | libs/libc/src/stdlib.rs:109-212 | has the value-level effect and result |
| `SlabRuns.Allocator.FreeBlock` | libs/libc/src/stdlib.rs:222-258 | has the value-level effect |
| `SlabRuns.Allocator.ReallocBlock` | libs/libc/src/stdlib.rs:289-340 | has the value-level effect and result |
| `Scheduler.StepKeepsIff` | kernel/src/services/scheduler/mod.rs:90-302 | one step keeps the invariant (queued tasks distinct and Ready, exactly a given set of tasks forgotten, one Running task named by both globals) if and only if it is not an exit with an empty queue and no idle task |
| `Scheduler.ZombieStays` | kernel/src/services/scheduler/mod.rs:149-158 | a state in which such an exit leaves a zombie on the CPU |
| `Scheduler.RunKeeps` | kernel/src/services/scheduler/mod.rs:90-302 | with an idle task every state of every run of fork, wake, block, yield, tick, exit and reap from a sound state satisfies the invariant and forgets nobody else |
| `Scheduler.BootUnstarted` | kernel/src/services/mod.rs:91-119 | the state the kernel starts in: init on the CPU, Ready and not queued, nobody Running |
| `Scheduler.ForgetsIff` | kernel/src/services/scheduler/mod.rs:136-302 | a current task that is Ready and not queued is forgotten by a step if and only if the step switches away from it; an exit ends it and any other step leaves it on the CPU |
| `Scheduler.RunFromStart` | kernel/src/services/scheduler/mod.rs:136-302 | over every run from the start of the kernel: the first step that switches away from init makes it the one task that is forgotten, for good, and apart from that every state is sound |
| `Scheduler.MovesUp` | kernel/src/services/scheduler/mod.rs:41-48 | a queued task moves up one place per switch whatever is forked or woken |
| `Scheduler.RunsAtSwitch` | kernel/src/services/scheduler/mod.rs:201-302 | a queued process at position k becomes current at the (k+1)-th switch |
| `Scheduler.WakeIs` | kernel/src/services/scheduler/mod.rs:115-130 | a wake-up makes exactly the blocked tasks that are named Ready and appends them to the queue, each once, in the order in which they are first named; no other state meets these clauses |
| `Scheduler.StepDoes` | kernel/src/services/scheduler/mod.rs:90-302 | the same for every step: which task is left in which state, which one gets the CPU, what is queued, and that nothing else changes, stated on states and queue; exactly the step meets it |
| `Scheduler.RunDoes` | kernel/src/services/scheduler/mod.rs:90-302 | every step of every run from a sound state meets its clauses |
| `Scheduler.WokenRuns` | kernel/src/services/scheduler/mod.rs:115-302 | a blocked task that a wake-up names gets a place k behind those already queued, and becomes current at the (k+1)-th switch after it |
| `Scheduler.StepNamesIff` | kernel/src/services/posix/process.rs:77-112 | a step keeps every live task findable in the process table under its pid if and only if it is not a fork under the pid of a live task |
| `Scheduler.RunNames` | kernel/src/services/process/mod.rs:209-217 | while the pid counter is above every pid of the table, all live tasks stay findable, up to the end of the counter's range |
| `Scheduler.PidsUniqueIff` | kernel/src/services/process/mod.rs:209-217 | pids are positive, and k of them in a row from a positive counter are distinct if and only if the counter stays in its range, or passes it by one without having handed out 2 |
| `Scheduler.UnnamedNotWoken` | kernel/src/services/scheduler/mod.rs:115-130 | a blocked task that is not in the table stays blocked whatever is woken |
| `Scheduler.FirstForkUnnames` | kernel/src/services/process/mod.rs:201 | at the start the counter is init's own pid, so the first fork takes init's place in the table |
| `Scheduler.CpuScheduler.WakeTasks` | kernel/src/services/scheduler/mod.rs:115-130 | the loop makes exactly the blocked tasks that are named Ready and appends them in the order in which they are first named |
| `Scheduler.CpuScheduler.SwitchOutCurrent` | kernel/src/services/scheduler/mod.rs:136-192 | has the value-level effect |
| `Scheduler.CpuScheduler.BlockCurrent` | kernel/src/services/scheduler/mod.rs:195-198 | has the value-level effect |
| `Scheduler.CpuScheduler.ScheduleYield` | kernel/src/services/scheduler/mod.rs:201-255 | has the value-level effect |
| `Scheduler.CpuScheduler.TimerTickSchedule` | kernel/src/services/scheduler/mod.rs:260-302 | has the value-level effect |
| `Scheduler.CpuScheduler.MarkCurrentBlocked` | kernel/src/services/scheduler/mod.rs:90-98 | blocks the current task only if it is Running |
| `Scheduler.CpuScheduler.MarkCurrentRunning` | kernel/src/services/scheduler/mod.rs:101-109 | resumes the current task only if it is Blocked |
| `Signals.NextFromFinds` | kernel/src/services/posix/process.rs:500-525 | the scan finds the lowest deliverable signal and takes away it and the ignored ones below it |
| `Signals.ReturnIs` | kernel/src/services/posix/process.rs:500-615 | a return to user mode, decided by pending set, mask, actions and stack: it resumes exactly if no signal has an effect; else the lowest that has one kills by default, kills as signal 11 exactly if its frame has no room or cannot be written, or enters its handler with exactly these registers, frame, mask, pending set and actions; no other outcome meets the clauses |
| `Signals.FlagsLetThrough` | kernel/src/services/posix/process.rs:492 | seven arithmetic and direction flags pass, interrupts are on, every other bit is fixed |
| `Signals.ProcmaskIs` | kernel/src/services/ipc/mod.rs:94-110 | what blocking, unblocking and setting do to each signal, SIGKILL and SIGSTOP never; setting the old mask back undoes any of them |
| `Signals.CallsDo` | kernel/src/services/ipc/mod.rs:37-140 | sending adds one signal, masking changes the mask as asked, registering replaces one action unless it is that of SIGKILL or SIGSTOP; nothing else changes |
| `Signals.HandlerEntered` | kernel/src/services/posix/process.rs:554-615 | a handler is entered with signal number and frame as arguments on an aligned stack under the restorer address; masks only grow, the signal does not interrupt its own handler unless SA_NODEFER, one-shot actions are reset |
| `Signals.DeliveryKeeps` | kernel/src/services/posix/process.rs:554-602 | a new frame lies below the red zone and below every live frame, which stay intact |
| `Signals.ReturnRestores` | kernel/src/services/posix/process.rs:456-497 | sigreturn restores every register, r11 through the user mask, and the blocked mask of the innermost delivery |
| `Signals.StartOk` | kernel/src/services/posix/process.rs:456-615 | a process with no handler running is sound |
| `Signals.RunKeeps` | kernel/src/services/posix/process.rs:456-615 | in every reachable state live frames are intact, apart from each other and from red zones, and SIGKILL and SIGSTOP are unblocked |
| `Signals.RoundTrip` | kernel/src/services/posix/process.rs:456-615 | a delivery and its matching return, whatever is nested in between, give the interrupted code its registers and mask back |
| `Signals.SignalManager.UpdateProcmask` | kernel/src/services/ipc/mod.rs:94-110 | changes one mask as asked, never to block SIGKILL or SIGSTOP, or fails with EINVAL and changes none |
| `Signals.SignalManager.SendSignal` | kernel/src/services/ipc/mod.rs:37-62 | marks one signal pending for one process of the table and wakes it if it is blocked, EINVAL and ESRCH as in the source |
| `Signals.SignalManager.SetAction` | kernel/src/services/ipc/mod.rs:127-140 | sets one action and returns the old one, or fails with EINVAL for SIGKILL, SIGSTOP and unknown signals |
| `Signals.SignalManager.NextUnblockedSignal` | kernel/src/services/posix/process.rs:500-525 | the loop over the manager state has the value-level effect for one process and leaves the others alone |
| `Pipe.RemoveWaiterExact` | kernel/src/services/vfs/wait_queue.rs:44-46 | removes exactly the one task |
| `Pipe.ReadIs` | kernel/src/services/vfs/pipe.rs:89-127 | a read returns data or end of file exactly if there is data or no writer, else EAGAIN or waits; what it returns and what stays are the old contents; only a read that makes room in a full pipe wakes, the first writer; no other effect meets the clauses |
| `Pipe.WriteIs` | kernel/src/services/vfs/pipe.rs:204-242 | a write fails with EPIPE exactly without a reader, with EAGAIN or a wait exactly when full, else appends what fits; the one that puts data into an empty pipe wakes every reader; no other effect meets the clauses |
| `Pipe.StepIs` | kernel/src/services/vfs/pipe.rs:77-323 | the same for every section, closes and interrupted waits included |
| `Pipe.RunMeets` | kernel/src/services/vfs/pipe.rs:77-323 | over every run of a new pipe no task is queued twice and every section meets its clauses |
| `Pipe.StepKeeps` | kernel/src/services/vfs/pipe.rs:77-264 | readers wait only on an empty pipe with a writer open, and a step that leaves data or end of file hands over every reader that was waiting |
| `Pipe.StepConserves` | kernel/src/services/vfs/pipe.rs:109-115 | a step moves bytes from the front to the reader and from the writer to the back, none lost or reordered |
| `Pipe.RunConserves` | kernel/src/services/vfs/pipe.rs:77-323 | over every run, bytes read followed by the ring contents are the bytes written, and readers wait only where they must |
| `Pipe.WritersKeptIff` | kernel/src/services/vfs/pipe.rs:117-123 | the mirror image for writers is kept by a step if and only if it is not a read from a full pipe on which two or more writers wait |
| `Pipe.WriterLeftWaiting` | kernel/src/services/vfs/pipe.rs:117-123 | a run that leaves a writer waiting on an empty pipe |
| `Pipe.PipeBuffer.constructor` | kernel/src/services/vfs/pipe.rs:48-63 | a new pipe is empty with one reader and one writer |
| `Pipe.PipeBuffer.TakeBytes` | kernel/src/services/vfs/pipe.rs:110-115 | the ring loop takes the first bytes out in order |
| `Pipe.PipeBuffer.StoreBytes` | kernel/src/services/vfs/pipe.rs:227-233 | the ring loop appends the bytes in order |
| `Pipe.PipeBuffer.ReadSection` | kernel/src/services/vfs/pipe.rs:89-127 | the locked section meets the clauses of a read, outcome and wake-ups included |
| `Pipe.PipeBuffer.WriteSection` | kernel/src/services/vfs/pipe.rs:204-242 | the locked section meets the clauses of a write, outcome and wake-ups included |
| `Pipe.PipeBuffer.DropReadEnd` | kernel/src/services/vfs/pipe.rs:291-306 | has the value-level effect and wake-ups |
| `Pipe.PipeBuffer.DropWriteEnd` | kernel/src/services/vfs/pipe.rs:308-323 | has the value-level effect and wake-ups |

## Left out

- Permissions, credentials, umask, audit records, file offsets and descriptors of the file calls: short branches that do not touch the directory graph.
- ENODEV before a root is mounted, ESRCH without a current process, and copying path strings from user memory.
- File contents under read, write and truncate, except for files that come from the archive.
- `alloc_and_map_range`: the same page loop as mmap with an area added at the end.
- Building the frame bitmap from the boot loader's memory map; the allocator's invariant is the starting point.
- TLB flushes, the upper half of the address space beyond copying root entries, and physical-to-virtual address offsets.
- ELF headers and segments, execve and wait4, apart from building the stack.
- The interrupt path of signal delivery, process groups, and stopping a process by default action.
- calloc, and sizes so close to the word limit that adding a header overflows.
- Double free of a large block: its header is unmapped by then, so the second call faults.
- The kernel's own heap, epoll, procfs, devfs, terminals, audit, monitor, shell and coreutils.
- Preemption inside a locked section or a scheduler call, and the early returns of a pipe call that leave the caller marked Blocked.
- SlabRuns.MallocKeeps: does not model bytes inside a word, because blocks and their headers are made of whole words.
- Signals.ReturnRestores: does not model the byte layout of a frame, because it is written and read as one structure; a store over any of its bytes destroys it.
- Scheduler.RunKeeps: does not model saved kernel stack pointers or the address space that is activated, because no step reads them.
- Unpack.TarRoundTrip: is about file members; what a directory member does is Unpack.UnpackDirectory with Initramfs.InstallDirOk.
