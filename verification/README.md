# Verified models of the allocation-returning libc overrides

This Dafny project models the core of the preload library and its mock allocator, and proves what their
code promises. It checks with `dafny verify dfyconfig.toml` (Dafny 4.11).

Five components are modelled.

- **`realpath`** (`PathText`, `PathWalk`, `RealPath`, `FileTree`, `RealPathRefines`, `RealPathExact`,
  `RealPathLimits`, `RealPathCwd`, `RealPathCanonical`).
  `RealPath` runs over the two fixed buffers, with pending text right-aligned in `stack` and resolved text growing in
  `output`. It is proved equal to a machine over text (`PathWalk`), for every oracle in place of `readlink`. Over a fixed
  tree (`FileTree`) that machine is proved to refine pathname resolution as section 4.13 of POSIX.1-2017 Base Definitions
  describes it, which `FileTree.Resolve` states over component lists, without text.
- **The mock allocator** (`Bits`, `Registry`, `Books`, `BooksLaws`, `MockAllocator`, `AllocThreads`, `Bootstrap`,
  `EntryPoints`). The registry is a class
  over an array of slots and refines a finite map. The accounts are a value moved by operations (`Books`); the class
  `MockAllocator.Allocator` moves them in place. `AllocThreads` and `Bootstrap` are state machines whose steps are the atomic
  accesses and locked sections. `EntryPoints` puts bootstrap heap and tracker together, as the entry points choose between them.
- **The scanf `%m` planner and rehomer** (`ScanfFormat`, `WscanfFormat`, `ScanfPrint`, `ScanfPlanner`, `WscanfPlanner`,
  `ScanfRehome`). The narrow and the wide parser are modelled apart, each with its own helpers.
- **The `open_memstream` cookie** (`MemStream`), which refines a sparse file.
- **`getdelim`** (`LineReader`).

## Reading the model

- `PATH_MAX`, `SYMLOOP_MAX`, `SIZE_MAX`, the registry capacity (a power of two; the program uses 2^16), the bootstrap heap,
  its rounding unit, its header size and the width of a size in bytes are parameters.
- What the program gets from outside is a parameter: the answers of `readlink` and of the `getcwd` system call, libc's answer to
  each allocation (any address that is not in use, or NULL), which sizes an allocator grants, the variable arguments (a function
  from index to value), the bytes of a stream.
- Path and format bytes are `char` values that are only compared; wide formats are sequences of code points. A cursor into a
  format is the text from the cursor on. A C string is the text before its NUL.
- `readlink` over a tree (`FileTree.KernelReadlink`) says nothing about paths whose way itself crosses a link: the theorems hold
  whatever the kernel answers there, because `realpath` never depends on it.
- A directory without search permission is `FileTree.Closed`: the kernel answers EINVAL for it with and without a trailing slash,
  and EACCES for every name behind it, `.` and `..` included. `FileTree.Posix` is what resolution answers there.
- Live counters are unbounded numbers; that they never go below zero is proved, so unsigned subtraction never wraps. Ordinals and
  allocation identities are unbounded too.

What the proofs say about particular lines:

- `realpath` skips `.` without asking the kernel (src/path_overrides.c:133-136), so behind a directory without search permission it
  answers where pathname resolution fails with EACCES. `RealPathExact.ConformsExactly` says that it conforms in all other cases, and
  only in them; `RealPathExact.DotInClosed` is the example. Leading `..` are counted without asking as well, which matters in a
  working directory without search permission (`RealPathCwd.ClosedConformsExactly`).

- The test for `p == 0` in `realpath` (src/path_overrides.c:139) never fires: `p` is at least one whenever a component is handled.
- In `ao_memstream_grow`, three guards never fire as long as the allocator refuses sizes that no object can have
  (`MemStream.GuardsNeverFire`), so the methods state them as proved facts instead of branches.
- An empty write behind the end of a memory stream extends the contents to the position, and the size published after a write is the
  position, which may be less than the length after a seek back.
- In a conversion such as `%0$ms` the `0$` is consumed as text, but the argument is taken in sequence; a position counts from the
  arguments not yet taken, which differs from the usual reading when positions and sequence are mixed.
- The insertion inside `realloc` cannot exhaust the registry, because the removal before it has left a free slot.

## Model

| member | source | states |
|---|---|---|
| `RealPath.RealPath` | src/path_overrides.c:75-256 | Terminates under every `readlink` oracle, even one that contradicts itself; never leaves `stack` or `output`; returns what the text machine `PathWalk.RealPathOf` returns, length errors included; a null name is EINVAL |
| `RealPathRefines.RealPathCorrect` | src/path_overrides.c:75-256 | Over any fixed tree and working directory: success returns the canonical pathname of the place that POSIX pathname resolution over component lists finds, or of a closed directory in which only `.` was left to look up; failure is that resolution's failure with its error, ENAMETOOLONG where the name, a step or the splice is too long, or ERANGE where the working directory's pathname is |
| `RealPathExact.RealPathExactly` | src/path_overrides.c:75-256 | With room for the name, the working directory and the links, `realpath` equals the reference resolver: both directions, place and error, and what it answers at a closed directory |
| `RealPathExact.ConformsExactly` | src/path_overrides.c:106-249 | With that room, `realpath` answers as POSIX resolution asks if and only if resolution does not end with nothing but `.` to look up in a directory without search permission |
| `RealPathExact.ConformsWithoutDot` | src/path_overrides.c:106-249 | So it conforms for every pathname that does not end in `.`, over every tree in which no link's contents do |
| `RealPathExact.BarredNeedsDot` | src/path_overrides.c:133-136 | Resolution ends that way only if the pathname or the contents of some link end in `.` |
| `RealPathExact.DotInClosed` | src/path_overrides.c:133-136 | Where it does not conform: with `d` closed, `/d/.` gives `/d` although resolution fails with EACCES |
| `RealPathLimits.LengthErrorsExactly` | src/path_overrides.c:91-254 | Over any fixed tree, ENAMETOOLONG and ERANGE are answered if and only if the respective length is in the way |
| `RealPathLimits.NameLimits` | src/path_overrides.c:91-99 | Under every oracle, an empty name is ENOENT and one of `PATH_MAX` bytes or more ENAMETOOLONG |
| `RealPathLimits.LengthsDecide` | src/path_overrides.c:97-243 | Under every oracle, a length that is in the way does lead to its error |
| `RealPathLimits.CwdErrors` | src/path_overrides.c:215-243 | A working directory that the system refuses, that does not fit, or that is not absolute gives that error, ERANGE or ENOENT; with any other the splice fails only for its length |
| `RealPathLimits.StepErrors` | src/path_overrides.c:129-202 | When a step fails and with which error, in terms of what would be in the two buffers: the output, the pending text behind link contents, empty contents, the link budget, the kernel's own error |
| `RealPathLimits.ResolveErrors` | src/path_overrides.c:106-213 | Resolution over a tree fails with ENOENT, ENOTDIR, EACCES or ELOOP only |
| `RealPathCwd.AbsoluteIgnoresCwd` | src/path_overrides.c:106-255 | For an absolute name the outcome depends neither on the working directory nor on anything looked up from it |
| `RealPathCwd.KernelAgreesClosed` | src/path_overrides.c:167-180 | Every tree with a closed working directory has a kernel that answers as these theorems require |
| `RealPathCwd.RelativeInClosed` | src/path_overrides.c:155-161 | In a working directory without search permission, relative names of `.` and `..` alone give that ancestor, and all others EACCES, which is what resolution answers to all of them |
| `RealPathCwd.ClosedConformsExactly` | src/path_overrides.c:155-161 | So there a relative name is answered as resolution asks if and only if it has another component |
| `RealPathCanonical.RealPathIdempotent` | src/path_overrides.c:75-256 | A successful result is absolute, has only ordinary names and no link component, and resolves to itself without meeting a length limit |
| `RealPathCanonical.CanonicalFixed` | src/path_overrides.c:106-255 | Every canonical path that fits is a fixed point |
| `RealPathCanonical.ResolveCanonical` | src/path_overrides.c:106-213 | Resolution from a canonical place ends at a canonical place: every component above the last a directory, none a link |
| `PathWalk.StepKeepsGood` | src/path_overrides.c:107-213 | Every pass of the loop, under any oracle, keeps the buffer bounds, the link budget and the shape of the output, and lowers the measure (remaining links, pending bytes, directory check) |
| `RealPathRefines.StepSimulates` | src/path_overrides.c:107-213 | Every pass keeps the answer of the reference resolver; halting and failing agree with it, except where a length is in the way |
| `RealPathRefines.RunRefines` | src/path_overrides.c:106-213 | The whole loop arrives where the resolver arrives and fails as it fails, or because a length was in the way |
| `RealPathRefines.SimRoot` | src/path_overrides.c:113-123 | A leading slash resets the output to a root; exactly two slashes name the second root |
| `RealPathRefines.SimDot` | src/path_overrides.c:133-136 | Skipping `.` keeps the answer, also behind a file; at a closed directory it loses the failure that only `.` causes |
| `RealPathRefines.SimUp` | src/path_overrides.c:155-161 | Counting one more leading `..` is moving to the parent of the working directory's ancestor |
| `RealPathRefines.SimPop` | src/path_overrides.c:181-190 | Cancelling the last component is moving to the parent |
| `RealPathRefines.SimCheckedUp` | src/path_overrides.c:155-190 | `..` behind an unchecked component asks the kernel first and fails as the resolver does when it is not a directory |
| `RealPathRefines.SimCheck` | src/path_overrides.c:129-195 | A trailing slash makes the final component be checked to be a directory |
| `RealPathRefines.SimLink` | src/path_overrides.c:199-212 | Link contents in front of the pending text keep the answer: empty contents, the link budget, absolute contents, contents that end in a slash |
| `RealPathRefines.SimPush` | src/path_overrides.c:192-196 | Appending a component that is not a link is moving into it |
| `RealPathRefines.LinkText` | src/path_overrides.c:204-211 | Contents and pending text joined have the names, the root and the final slash of both |
| `RealPathRefines.FinishRenders` | src/path_overrides.c:215-249 | The splice writes out the working directory's ancestor and the remaining components; ERANGE exactly for a working directory longer than `PATH_MAX`, ENAMETOOLONG exactly for a result without a byte to spare |
| `RealPathRefines.ParentTextRender` | src/path_overrides.c:227-232 | Scanning back over bytes drops exactly the last name of the working directory |
| `RealPathExact.RoomyNeverCrowds` | src/path_overrides.c:138-170 | The bytes in both buffers never exceed what the name and the links bring in, so with room no length check fires |
| `PathText.PendingUpTest` | src/path_overrides.c:155-161 | `q <= 3 * pending_up` holds exactly when the output is counted `..` without a cancellable component, and the bytes behind the counted ones are the components |
| `PathText.RenderPush` | src/path_overrides.c:138-153 | Copying a component appends its bytes, with a slash exactly where one is needed |
| `PathText.RenderPop` | src/path_overrides.c:182-190 | The bytes before the last component are those of the shorter list and its separating slash |
| `PathText.NamesAppend` | src/path_overrides.c:204-212 | Prefixing text at a slash prefixes its component names |
| `PathText.NamesRender` | src/path_overrides.c:151-152 | Reading the output back as a pathname gives the counted `..` and then the components |
| `PathText.SlashRun` | src/path_overrides.c:19-28 | The length of the leading run of slashes, and nothing more |
| `PathText.NameLen` | src/helpers.c:8-17 | The length of the text before the first slash |
| `RealPath.SlashLen` | src/path_overrides.c:19-28 | The scan stops at the first other byte, at the latest at the NUL |
| `RealPath.EnterRoot` | src/path_overrides.c:113-123 | The output restarts with one or two slashes and the cursor stands behind the run |
| `RealPath.LeadSlash` | src/path_overrides.c:138-145 | The slash goes into the byte before the pending text, which exists whenever one is needed |
| `RealPath.AppendComponent` | src/path_overrides.c:138-153 | Either the component does not fit, or the output is extended by it and the pending text is what followed it |
| `RealPath.PopOutput` | src/path_overrides.c:182-190 | The scan back leaves the bytes of the shortened list, at a root, behind counted `..`, and elsewhere |
| `RealPath.ReadLink` | src/path_overrides.c:167 | At most `p` bytes of the contents reach the start of the stack; the pending text stays |
| `RealPath.SpliceLink` | src/path_overrides.c:204-211 | The overlapping move leaves contents and pending text adjacent, without a doubled slash |
| `RealPath.Ask` | src/path_overrides.c:167-212 | Each answer of the kernel leads to the machine's move, with the right error in the right order; `p >= 1` at every call |
| `RealPath.Appended` | src/path_overrides.c:155-165 | The choice between counting, cancelling and asking is the machine's |
| `RealPath.WalkUp` | src/path_overrides.c:222-237 | After the counted `..`, the directory is that ancestor and `skip` is exactly the encoded prefix, never beyond `q` |
| `RealPath.JoinDirectory` | src/path_overrides.c:238-248 | Directory, separator and rest are joined in place, or the result is too long |
| `RealPath.GetCwd` | src/path_overrides.c:30-61 | Only an answer that starts with a slash and fits counts |
| `FileTree.KernelAgrees` | src/path_overrides.c:167-180 | Every tree and working directory has a kernel that answers as the theorems require |
| `Registry.Table.Insert` | src/mock_allocator.c:181-221 | Puts or overwrites in the map; fails exactly when the key is new and every slot holds a key |
| `Registry.Table.Lookup` | src/mock_allocator.c:223-248 | Finds exactly the map's keys, with their size and identity |
| `Registry.Table.Remove` | src/mock_allocator.c:250-278 | Takes exactly its key out of the map and returns what was stored; afterwards some slot is free |
| `Registry.Table.constructor` | src/mock_allocator.c:60 | The zeroed table is the empty map |
| `Registry.NotStored` | src/mock_allocator.c:188-220 | A probe that ends at an empty slot, or passes every slot, shows that the key is nowhere in the table |
| `Registry.PutKeepsShape` | src/mock_allocator.c:202-218 | Storing a new key in a reachable free slot, empty or tombstone, keeps keys distinct and probes free of gaps |
| `Registry.PutContents` | src/mock_allocator.c:206-217 | Such a store adds exactly one binding |
| `Registry.OverwriteKeeps` | src/mock_allocator.c:191-195 | Overwriting a payload changes exactly that binding |
| `Registry.TombstoneKeeps` | src/mock_allocator.c:270-272 | A tombstone takes one binding out and opens no gap in any probe |
| `Registry.HomeIsRemainder` | src/mock_allocator.c:176-179 | The home slot is the address in units of sixteen bytes, modulo the capacity |
| `Registry.ProbeIsMask` | src/mock_allocator.c:176-189 | Masking with capacity minus one walks the slots cyclically |
| `Bits.AndMask` | src/mock_allocator.c:178 | For a power of two, the mask is the identity below it and takes one turn off up to twice it |
| `BooksLaws.NewBlockLeaves` | src/mock_allocator.c:407-420 | After a successful `malloc`, `calloc` or `realloc` of NULL the block is registered with exactly the bytes asked for, count times size for `calloc`, and the next identity; all other entries stay; the counters rise by one and that many bytes |
| `BooksLaws.NoBlockLeaves` | src/mock_allocator.c:506-535 | A failed allocation leaves everything but the statistics |
| `BooksLaws.MovedBlockLeaves` | src/mock_allocator.c:593-612 | A tracked block that `realloc` keeps or moves has the new size and its identity; all other entries stay; `live_bytes` changes by the difference |
| `BooksLaws.RefusedMoveLeaves` | src/mock_allocator.c:593-598 | A refused `realloc` leaves everything but the statistics |
| `BooksLaws.FreedBlockLeaves` | src/mock_allocator.c:638-650 | A freed block is neither registered nor held any more, and is taken off both counters; all other entries stay |
| `BooksLaws.UntrackedLeaves` | src/mock_allocator.c:584-591 | Blocks past the tracker come and go without the registry and the live counters |
| `BooksLaws.PastTheTracker` | src/mock_allocator.c:482-496 | Blocks that libc's own callers get and give back change only what libc has handed out |
| `BooksLaws.OtherOpsLeave` | src/mock_allocator.c:422-447 | What a free of NULL and the capture calls change, and that it is nothing else |
| `BooksLaws.NothingCounted` | src/mock_allocator.c:321-379 | While capture is off, the statistics stay |
| `BooksLaws.NewBlockCounted` | src/mock_allocator.c:333-355 | A new block raises the calls of its own function, the successes and their bytes, and nothing else |
| `BooksLaws.NoBlockCounted` | src/mock_allocator.c:326-331 | A failed allocation raises the failures and nothing else |
| `BooksLaws.ReallocCounted` | src/mock_allocator.c:369-379 | `realloc` of a block raises its calls, the bypasses when untracked, the failures when refused, and nothing else |
| `BooksLaws.FreeCounted` | src/mock_allocator.c:357-367 | `free` raises its calls, the bypasses when untracked, and nothing else |
| `Books.EveryRunBalanced` | src/mock_allocator.c:381-420 | Over every sequential run from start-up: `live_blocks` is the number of registered keys, `live_bytes` the sum of their sizes, identities are distinct |
| `Books.ApplyBalanced` | src/mock_allocator.c:498-651 | Every operation, on tracked and untracked blocks and with capture on or off, keeps the accounts balanced |
| `Books.ResizeBalanced` | src/mock_allocator.c:593-618 | A tracked `realloc` keeps the identity, also when the block moves, and accounts the difference in size |
| `Books.UntouchedBlockStays` | src/mock_allocator.c:498-651 | A block that is neither freed nor resized keeps its size and identity over any run |
| `MockAllocator.Allocator.TrackOrDie` | src/mock_allocator.c:407-420 | The process ends exactly when no slot is free; otherwise block, counters and identity move together |
| `MockAllocator.Allocator.Malloc` | src/mock_allocator.c:506-515 | Moves the accounts as specified; NULL counts as a failure |
| `MockAllocator.Allocator.Calloc` | src/mock_allocator.c:530-548 | The same with the product, or a failure exactly when the product overflows |
| `MockAllocator.Allocator.Realloc` | src/mock_allocator.c:564-618 | NULL, untracked and tracked pointers; on a tracked block the process never ends for want of a slot |
| `MockAllocator.Allocator.MoveEntry` | src/mock_allocator.c:600-608 | Removing the old key leaves a slot, so the insertion that follows succeeds |
| `MockAllocator.Allocator.Free` | src/mock_allocator.c:638-650 | Unregisters and releases, or counts a bypass; NULL does nothing |
| `MockAllocator.Allocator.LiveRemove` | src/mock_allocator.c:396-400 | Only called where the counters cover the block, so neither goes below zero |
| `MockAllocator.Allocator.StartCapture` | src/mock_allocator.c:435-438 | The capture depth rises by one and nothing else changes |
| `MockAllocator.Allocator.StopCapture` | src/mock_allocator.c:440-447 | The capture depth never goes below zero |
| `MockAllocator.Allocator.ResetStats` | src/mock_allocator.c:422-433 | Clears the call statistics and leaves the live counters |
| `MockAllocator.OverflowTest` | src/mock_allocator.c:532 | The division test holds exactly when the product exceeds the largest size |
| `EntryPoints.Process.Malloc` | src/mock_allocator.c:498-516 | While symbols are resolved, a new block of the bootstrap heap and nothing accounted; afterwards libc's block, tracked, and the heap untouched |
| `EntryPoints.Process.Calloc` | src/mock_allocator.c:518-549 | While resolving, the product wraps around and that many zero bytes are handed out; afterwards an overflow is a failure |
| `EntryPoints.Process.Realloc` | src/mock_allocator.c:551-619 | A bootstrap block stays in the bootstrap heap with its first min(old, new) bytes, also after resolving; while resolving, libc's blocks are refused; everything else moves the accounts |
| `EntryPoints.Process.Free` | src/mock_allocator.c:621-651 | Bootstrap blocks are never given to libc or the registry; while resolving nothing happens; otherwise the accounts move |
| `AllocThreads.EveryInterleaving` | src/mock_allocator.c:407-420 | Every interleaving of any number of threads keeps the invariant; when all are idle the registry is exactly what clients own, libc has every other block back, and the counters are exact |
| `AllocThreads.StepKeepsInv` | src/mock_allocator.c:498-549 | Every atomic step keeps: nobody shares a block, counters equal registry minus pending additions plus pending removals, identities are distinct |
| `AllocThreads.StepKeepsNoLeak` | src/mock_allocator.c:621-651 | Every block that libc has handed out is a client's, or some call works on it |
| `AllocThreads.MallocDelivers` | src/mock_allocator.c:498-516 | In every interleaving, a `malloc` ends after its own steps with the client holding the block, registered with the size asked for |
| `AllocThreads.FreeReleases` | src/mock_allocator.c:621-651 | In every interleaving, a `free` ends after its own steps with the block back at libc and no longer registered |
| `AllocThreads.CallGoesOn` | src/mock_allocator.c:498-651 | No step of another thread disturbs or delays a call |
| `AllocThreads.NeverUnderflows` | src/mock_allocator.c:396-400 | At the step that lowers a live counter, the counter covers what is taken off |
| `AllocThreads.OwnedStaysTracked` | src/mock_allocator.c:407-420 | Over any moves of any number of threads, from its return until its free begins, a block stays a client's and registered with its own size and identity |
| `AllocThreads.RegistersNewKey` | src/mock_allocator.c:407-413 | In every interleaving, registering adds an entry and leaves all others, and a block that is returned is registered with the size asked for |
| `AllocThreads.ReleasedFirstOverwrites` | src/mock_allocator.c:640-650 | Were a block given back to libc while still registered, a `malloc` could overwrite its entry and identity: the order in `free` matters |
| `AllocThreads.StepKeepsNoStray` | src/mock_allocator.c:621-651 | Every registered block is a client's or in some thread's hands |
| `Bootstrap.EveryInterleaving` | src/mock_allocator.c:103-127 | Under every interleaving of loads and compare-exchanges: the offset is rounded and inside the heap, blocks hold header and payload, and are pairwise disjoint |
| `Bootstrap.StepKeepsInv` | src/mock_allocator.c:110-122 | Each load, success and failure, also a spurious one, keeps the blocks tiling the heap; the offset never falls |
| `Bootstrap.TotalIsLeast` | src/mock_allocator.c:105 | What a block takes is the least multiple of the unit that holds header and payload |
| `Bootstrap.StepOutcome` | src/mock_allocator.c:110-122 | A call is refused only where its block does not fit; an exchange fails, unless spuriously, only behind another thread's success; a success hands out the block at the offset |
| `Bootstrap.AloneAllocates` | src/mock_allocator.c:103-127 | A thread that runs alone gets its block exactly when it fits |
| `Bootstrap.AlignUpRounds` | src/mock_allocator.c:92-101 | The least multiple of the unit that is not smaller |
| `Bootstrap.Heap.Alloc` | src/mock_allocator.c:103-127 | Fails exactly when the rounded block does not fit; otherwise the block is new, its size is in the bytes of its header, and what was handed out keeps its bytes |
| `Bootstrap.Heap.Realloc` | src/mock_allocator.c:136-163 | The old size is read from the header's bytes; the first min(old, new) bytes move along, every block handed out keeps its bytes and header, a foreign address is refused |
| `Bootstrap.SizeReadBack` | src/mock_allocator.c:125-156 | A size that fits its header field is read back from its bytes |
| `MemStream.Cookie.Write` | src/memstream_overrides.c:68-87 | Refines writing to a sparse file, all or nothing; afterwards NUL-terminated and published |
| `MemStream.Cookie.Run` | src/memstream_overrides.c:28-108 | Over every run of writes and seeks, with refused growth anywhere, the buffer is the sparse file after those that succeeded, seeks succeed exactly where they can, and reallocations copy at most what the capacity gains |
| `MemStream.Cookie.Grow` | src/memstream_overrides.c:28-66 | Contents stay; succeeds exactly when there is room or the allocator grants the new capacity |
| `MemStream.Cookie.Seek` | src/memstream_overrides.c:89-108 | Moves exactly to the offsets between zero and the largest, from each of three bases; anything else changes nothing |
| `MemStream.Cookie.constructor` | src/memstream_overrides.c:218-250 | An empty file at position zero behind one published NUL byte |
| `MemStream.WriteFileAt` | src/memstream_overrides.c:76-84 | Byte by byte: new bytes where written, zeros in the gap, old bytes elsewhere, and the length |
| `MemStream.WriteFileTwice` | src/memstream_overrides.c:76-84 | Two writes in a row are one write of both |
| `MemStream.GrowthBounds` | src/memstream_overrides.c:45-54 | The bitwise-or is at least both operands: 2 * space + 1 <= new capacity < 3 * required |
| `MemStream.NewSpaceBits` | src/memstream_overrides.c:51 | Each bit of the new capacity is set exactly where an operand has it |
| `MemStream.GuardsNeverFire` | src/memstream_overrides.c:35-54 | For object sizes, the wrap check, the saturating branch and the fix-up are never taken |
| `MemStream.CopiedAtMostGained` | src/memstream_overrides.c:51-64 | Over any run, the bytes copied by reallocations are at most what the capacity has gained |
| `Bits.OrBits` | src/memstream_overrides.c:51 | A bit of `/` is set exactly where an operand has it |
| `Bits.AndBits` | src/mock_allocator.c:178 | A bit of `&` is set exactly where both operands have it |
| `Bits.OrBounds` | src/memstream_overrides.c:51 | Bitwise-or is at least both operands and at most their sum |
| `LineReader.GetDelim` | src/line_overrides.c:38-80 | Returns the first piece of what is left, NUL-terminated inside a capacity that does not shrink; -1 exactly on an empty rest, a break before the delimiter, or a refused buffer that this line needs; a line whose growth is granted is never refused and copies at most twice the final capacity |
| `LineReader.ReadAll` | src/line_overrides.c:38-80 | Calling it until -1 with one buffer gives exactly the pieces of the stream, without an unfinished one where the stream breaks; the capacity never shrinks and always holds piece and NUL |
| `LineReader.PiecesSplit` | src/line_overrides.c:54-75 | The pieces joined are the stream; each has the delimiter only as its last byte, and all but possibly the final one have it |
| `LineReader.Line.Grow` | src/line_overrides.c:6-36 | Half as much again, or just enough when that is refused; what was read is kept |
| `LineReader.GrowsByHalf` | src/line_overrides.c:17-21 | A full buffer of capacity n asks for one and a half times n + 1, rounded down; near the largest size for n + 1 |
| `ScanfPrint.ParseInvertsPrint` | src/scanf_overrides.c:355-441 | Parsing the printed form of any list of well-formed directives gives one record per unsuppressed `m` conversion of strings or characters with a non-null destination, with the right argument, ordinal, mode and width |
| `ScanfPrint.WideParseInvertsPrint` | src/scanf_overrides.c:443-529 | The same for the wide parser and the format in wide characters, where an unlengthed `%mc` is unsupported |
| `ScanfPrint.TailParses` | src/scanf_overrides.c:355-441 | Well-formed directives in front of any text are planned as if alone, and the text behind them as it is |
| `ScanfPrint.TruncatedParses` | src/scanf_overrides.c:413-415 | A format that ends inside a conversion plans what precedes it and nothing for it |
| `ScanfPrint.UnclosedScanset` | src/scanf_overrides.c:261-279 | A scanset that is not closed swallows the rest of the format |
| `ScanfPrint.DirectiveParses` | src/scanf_overrides.c:360-438 | One printed directive in front of any text parses to its own record and leaves the cursor at the text |
| `ScanfPrint.HeadParses` | src/scanf_overrides.c:374-411 | Suppression, position, width, `m` and length modifier are read back as printed |
| `ScanfPrint.ScansetSkips` | src/scanf_overrides.c:261-279 | A scanset is skipped to its closing bracket, also with a leading `^` and a leading `]` |
| `ScanfPrint.LetterFold` | src/scanf_overrides.c:417-421 | Among the conversion letters the fold turns exactly `C` and `S` into wide `c` and `s` |
| `ScanfFormat.FoldMask` | src/scanf_overrides.c:418 | The mask test looks at bits 0 to 3 and bit 5 |
| `ScanfFormat.WidthSaturates` | src/scanf_overrides.c:164-180 | Widths are exact up to 10 * ((SIZE_MAX - 9) / 10) + 9 and saturate to SIZE_MAX above |
| `ScanfFormat.PositionWraps` | src/scanf_overrides.c:200-221 | A position is its number modulo 2^32 |
| `ScanfFormat.PositionExact` | src/scanf_overrides.c:200-221 | Below 2^32 it is that number |
| `ScanfFormat.ZeroPosition` | src/scanf_overrides.c:216-221 | A position that is zero, also by wrapping, is read past, and the argument is the next one |
| `ScanfFormat.DecimalRead` | src/scanf_overrides.c:154-157 | The decimal digits of a number denote it |
| `WscanfFormat.ParsersAgree` | src/scanf_overrides.c:355-529 | On every text, malformed or not, the wide parser with its own helpers gives the narrow parser's slots, ordinals and widths; only an unlengthed `%mc` changes its mode |
| `WscanfFormat.HeadLockstep` | src/scanf_overrides.c:443-503 | The wide suppression, position, width, `m` and length steps take the same argument and leave the same rest as the narrow ones |
| `WscanfFormat.WidthLockstep` | src/scanf_overrides.c:164-198 | The wide width loop, which carries the width along, arrives at the saturating width of the digits |
| `WscanfFormat.WidePositionOf` | src/scanf_overrides.c:200-244 | The wide position agrees with the narrow one, also where it is zero or has no `$` |
| `WscanfFormat.ScansetLockstep` | src/scanf_overrides.c:261-299 | Both scanset skips stop at the same place |
| `WscanfFormat.WidePlanIncreases` | src/scanf_overrides.c:443-529 | Every wide plan lists its ordinals in strictly increasing order |
| `ScanfFormat.PlanIncreases` | src/scanf_overrides.c:423-437 | Every plan lists its ordinals in strictly increasing order |
| `ScanfPlanner.ParseFormat` | src/scanf_overrides.c:355-441 | Succeeds exactly when every buffer that the plan's records need is granted, and then has built the plan; otherwise what it has built is the start of the plan |
| `ScanfPlanner.CapacityDoubles` | src/scanf_overrides.c:140-149 | The capacity is the least of 8, 16, 32, … that holds the records |
| `ScanfPlanner.EnoughGranted` | src/scanf_overrides.c:135-152 | No buffer beyond 8 records or twice the plan is ever needed |
| `ScanfPlanner.Convert` | src/scanf_overrides.c:416-438 | One conversion: its record, the scanset behind it, and the count of assignments; it fails exactly when there is a record and no room for it |
| `ScanfPlanner.ReadHead` | src/scanf_overrides.c:380-411 | The cursor, the argument taken and the number of arguments used |
| `ScanfPlanner.ReadPosition` | src/scanf_overrides.c:200-221 | A position of zero moves the cursor although the argument is the next one |
| `ScanfPlanner.ReadWidth` | src/scanf_overrides.c:164-180 | The digits are consumed and give the saturating width |
| `ScanfPlanner.SkipSet` | src/scanf_overrides.c:261-279 | The cursor behind the scanset |
| `ScanfPlanner.PushNarrow` | src/scanf_overrides.c:301-326 | At most one record, none for a null destination; it fails exactly when there is a record and no room for it |
| `WscanfPlanner.ParseWideFormat` | src/scanf_overrides.c:443-529 | The wide loop: as for the narrow parser, with the wide plan |
| `WscanfPlanner.ConvertWide` | src/scanf_overrides.c:505-526 | One wide conversion: record, scanset, count of assignments, and when it fails |
| `WscanfPlanner.ReadHeadWide` | src/scanf_overrides.c:468-499 | The wide head, its argument and the number of arguments used |
| `WscanfPlanner.ReadWidePosition` | src/scanf_overrides.c:223-244 | Result, position and cursor are those of the wide grammar |
| `WscanfPlanner.ReadWideWidth` | src/scanf_overrides.c:182-198 | Width and cursor are those of the wide grammar |
| `WscanfPlanner.SkipSetWide` | src/scanf_overrides.c:281-299 | The cursor behind the scanset |
| `WscanfPlanner.PushWide` | src/scanf_overrides.c:328-353 | At most one record, with the wide modes; it fails exactly when there is a record and no room for it |
| `ScanfPlanner.Plan.Push` | src/scanf_overrides.c:135-152 | Appends one record; fails exactly when the buffer is full and a bigger one is refused |
| `ScanfRehome.ScanThenRehome` | src/scanf_overrides.c:634-662 | From a narrow format to its results, also after a partial scan: only matched conversions are rehomed, each of their slots ends as documented, the others are neither read nor written, and each libc block that is copied is freed, none twice, each right after its slot was redirected |
| `ScanfRehome.WideScanThenRehome` | src/scanf_overrides.c:694-722 | The same for a wide format |
| `ScanfRehome.PlanRehomed` | src/scanf_overrides.c:622-632 | The same for any plan with increasing ordinals |
| `ScanfRehome.UnmatchedUnread` | src/scanf_overrides.c:627-629 | Whatever the slot of an unmatched conversion holds, rehoming does the same and leaves it |
| `ScanfRehome.PlanSettled` | src/scanf_overrides.c:584-632 | For each matched conversion: null stays null; a supported libc result whose copy could be allocated becomes the program's, with a prefix of the original that ends in its only NUL or exactly width elements; anything else stays as libc left it |
| `ScanfRehome.DueIsFreed` | src/scanf_overrides.c:618-619 | Each libc result that is copied is freed: its redirection and its free happen, and its block is gone |
| `ScanfRehome.CloneIsCopy` | src/scanf_overrides.c:544-582 | A copied string is a prefix of the original that ends in its only NUL; copied characters are exactly the first `width` |
| `ScanfRehome.CopyNeedsReadable` | src/scanf_overrides.c:544-582 | Only a terminated string, or a block of at least `width` elements, has such a copy |
| `ScanfRehome.BreakIsFilter` | src/scanf_overrides.c:622-632 | Stopping at the first ordinal above the matches equals filtering on ordinal <= matches |
| `ScanfRehome.EachFreedOnceAfterRedirect` | src/scanf_overrides.c:618-619 | No libc block is freed twice, each only right after the slot that led to it was redirected, and only if a matched conversion stored it |
| `ScanfRehome.SlotKept` | src/scanf_overrides.c:622-632 | A slot of no matched conversion is not changed |
| `ScanfRehome.HistoryIsLog` | src/scanf_overrides.c:584-632 | What happens, in order, is determined by the matched slots and blocks before |
| `ScanfRehome.Heap.RehomeRecord` | src/scanf_overrides.c:584-620 | One record in place |
| `ScanfRehome.Heap.RehomePlanned` | src/scanf_overrides.c:622-632 | The loop in place |
| `ScanfRehome.CloneData` | src/scanf_overrides.c:544-582 | The copy through the first NUL, or of exactly width elements |

## Left out

- RealPath.RealPath: the final copy into the caller's buffer or into a fresh string (src/path_overrides.c:251-255) is the returned text; a refusal of that allocation is not modelled.
- RealPathRefines.RealPathCorrect: the tree and the working directory do not change during the call; for changing answers only bounds, termination and the machine's answer are proved. The directories above the working directory can be searched; the working directory itself too, except in `RealPathCwd`.
- AllocThreads.EveryInterleaving: covers `malloc`, `calloc` and `free`; `realloc` calls libc before it updates the registry (src/mock_allocator.c:593-608), so it is in the sequential model only. The end of the process on a full registry is not a step. Memory orders and the fairness of the spin lock are not modelled.
- EntryPoints.Process.Realloc: in the bootstrap heap, clients pass only addresses of its blocks. When symbols are resolved, and which thread resolves them, is a flag.
- Books.ApplyBalanced: clients pass only blocks that are still held, and blocks that the tracker knows are not released past it; double frees are outside the model.
- Bootstrap.EveryInterleaving: sizes whose header and rounding wrap around are outside the model. The bytes of headers and payloads are in the sequential `Bootstrap.Heap` only.
- ScanfRehome.ScanThenRehome: the scan itself is libc's. It is assumed to leave, in the slots of the conversions it matched and only there, null or different live blocks; those of strings are terminated.
- ScanfRehome.PlanSettled: for `%mc` with a width, libc's block is assumed to hold at least `width` elements. The copy takes that many whatever was stored, so a libc that keeps fewer when the input ends early is outside the model.
- ScanfPlanner.ParseFormat: on a refusal the callers drop the partial plan and rehome nothing.
- WscanfFormat.ParsersAgree: relates formats of the same character codes; wide characters are code points, none negative.
- ScanfPrint.ParseInvertsPrint: the standard's requirement that widths are not zero is not imposed; zero widths are covered.
- LineReader.GetDelim: null arguments, which give EINVAL, and stream locking.
- MemStream.Cookie.Write: `fopencookie`'s own buffering in front of the cookie.
- The wide memory stream: its writes depend on the locale's conversion state.
- Symbol resolution, the scanf entry points and their variable-argument plumbing: no property beyond one scan followed by one rehoming.
- `strdup`, `asprintf`, `__sched_cpualloc`, `tempnam`, `get_current_dir_name`, `scandir`: they would add only easy members, or depend on the environment.
- Exact error numbers of refused allocations.
