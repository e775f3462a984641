# Verified models of the ext2 shell, its RAM disk and the block layer it uses

This project models the parts of the repository that loop, keep state or count
in machine words, and proves what they are for. `dafny verify dfyconfig.toml`
checks everything.

- `RamDisk.dfy`, `RamDiskLaws.dfy`: the RAM block device of `blk_test_error.c`. A
  request is a list of page segments in one linear kernel memory; the driver copies
  them to or from one flat store of 8 MiB with a sector cursor. Requests whose
  segments are whole sectors behave as one flat copy. Over every run the store is a
  byte map of the last turns of the segment loop, and over runs whose writes are whole
  sectors a byte map in which reads return the last write.
- `Tokenizer.dfy`, `TokenizerLaws.dfy`: the in-place tokenizer of `shell.c`. The C
  strings it leaves are exactly the maximal runs of non-space characters, joining
  words and tokenizing are inverse to each other, and the argument vector is long
  enough for lines of up to 200 characters and no more.
- `Navigation.dfy`, `NavigationLaws.dfy`: the directory stack behind `cd`. The array
  and its top refine a stack, the current directory is where the path of entered
  names leads, a run stays inside the array exactly when pushes less pops since the
  last bare `cd` stay below its length, trips that come back restore everything, and
  a mount starts afresh exactly when the stack was empty.
- `Shell.dfy`, `ShellLaws.dfy`: the command table, the mount conditions, the handlers
  that change the shell's own state, the loop over input lines, and exactly which
  sessions stay inside the arrays of the shell.
- `Content.dfy`: the buffer that `fill` writes and the text that `cat` prints, for
  file operations that store and copy and for such as do not.
- `EntryList.dfy`: the heap-linked list of directory entries.
- `Alignment.dfy`, `BlockSize.dfy`, `QueueFlags.dfy`, `RequestSegments.dfy`: alignment
  offsets in 32-bit arithmetic, the block-size logarithm and shifts, the queue flag
  word as a set, and the walk over the segments of a request (`blkedv.h.c`).
- `ShellEntry.dfy`, `BlockLayer.dfy`, `Arithmetic.dfy`, `Bits.dfy`: directory entries;
  sector numbers and page segments; remainders, powers of two and bitwise operators on natural numbers.

## How the code is read

- **The segment offset is added twice.** `blk_test_error.c:60` adds `bv_offset` to the
  mapped address and lines 63 and 67 add it again. The model does what the code does
  (positions `Twice`), also where a doubled offset leaves the page and the copy runs on
  into the memory behind it. `OffsetIffZero` and `ReadOffsetIffZero` say exactly when
  that is what the request asks for (positions `Once`). The laws about runs come in two
  forms: with the positions the driver uses, for all requests, and with the positions
  the requests name, when the writes have no such offset (`WriteThenReadAsAsked`,
  `StoreIsLastAsked`, `ReadReturnsLastAsked`). `data += len` at line 70 has no effect,
  because line 59 recomputes `data` from the sector, and the model has no such step.
- **What the block layer guarantees of a request** is `RamDisk.WellFormed`: the byte size
  is a multiple of 512, the end sector fits a `sector_t`, and, unless the request is a
  discard, the size is the sum of the segment lengths and there is memory behind every
  byte the request names (`Once`). Segment lengths themselves are arbitrary; no copy
  leaves the store whatever they are. `StoreIsLastTaken` and `ReadReturnsLastTaken` hold
  for all of them; the flat laws ask whole sectors of the accepted writes, and of the
  read they speak about, but of no other request.
  `RamDisk.Addressable` is what the driver needs beyond that guarantee: memory where the
  doubled offsets of an accepted request point. For requests without an offset it
  follows from the guarantee.
- **`cd` and `cat` read the result of `lookup` in opposite ways.** `shell.c:226` takes
  `EXT2_SUCCESS` for "not found", `shell.c:528` takes any other value for failure.
  A lookup reply is a result together with an entry, and each command applies its own
  test. `StuckAtRootIff` states exactly what this means for `cd`.
- **`path` and `pathTop` survive `umount`**, and `mount` resets the current directory only
  (`shell.c:203-204`, `shell.c:266`). `RemountIsFreshIff` gives the exact condition
  under which this cannot be noticed.
- **An input line** (`Shell.Line`) is the C string that one `fgets(buf, 1000, ..)` leaves
  in the buffer: at most 999 characters and no NUL. `fgets` hands a longer line over in
  pieces, each of which the loop treats as a line, so the line buffer is never overrun.
- **Unchecked array bounds** are preconditions: 256 path entries (`Navigation.Fits`), 100
  argument pointers (`|Words(s)| <= ptrs.Length`), together `Shell.SafeRun`. They fail for
  some inputs; `SafeIffHeight`, `SafeRunIffRoomy` and `ArgvFitsIff` say exactly for which
  they hold.
- **The file operations are parameters**, `Content.FileOps` among them: whether the write
  stores its bytes and whether the read copies into the buffer. `shell.c` is written for
  operations that do both. Those of this repository do neither: `ext2_write` (ext2.c,
  lines 916-944) changes a local sector and a local inode and writes nothing back, and
  `ext2_read` (ext2.c, lines 946-971) prints the sector bytes itself, returns the length
  and leaves `buffer` alone. For such operations the loop of `cat` prints only the
  newline, whatever the file. `fs_lookup` (ext2_shell.c, lines 224-236) never fills
  `entry` and writes to its `parent`, which is the current directory; the model takes
  `lookup` to reply with any result and any entry, and to leave the directory alone.
- NULL function pointers other than `mount` and `umount`, and an allocation that fails,
  have no defined result in the code and are not modelled.

## Model

| member | source | states |
|---|---|---|
| RamDisk.Disk.MakeRequest | blk_test_error.c:33-77 | for every request that the block layer can hand over and whose doubled offsets stay in memory, whatever its segment lengths and however its segments overlap or leave their pages, the store, all memory and the error code end as `Step` says; no copy leaves the 8 MiB store; the error code is 0 exactly for requests inside those 8 MiB that have a segment or discard, else -EIO; a failed request and a discard change nothing, a read or read-ahead leaves the store alone and any other request the memory |
| RamDiskLaws.StepOutcome | blk_test_error.c:40-76 | the same of the step: success exactly inside the store, by byte addresses, and what each kind of request leaves alone |
| RamDiskLaws.CheckIsInsideStore | blk_test_error.c:45-49 | for requests that the block layer guarantees, the checks let through exactly those whose bytes lie inside the store, that do not discard, and that have a segment |
| RamDisk.Disk.CopySegments | blk_test_error.c:56-73 | the segment loop with its sector cursor; -EIO is left when there are no segments |
| RamDisk.TraceExists | blk_test_error.c:59-71 | once the whole request fits the store and there is memory behind its doubled segments, every turn of the loop is in bounds |
| RamDisk.ReadTraceEnds | blk_test_error.c:56-73 | the turns of a read together deal the delivered bytes out to the segments |
| RamDisk.WriteTraceEnds | blk_test_error.c:56-73 | the turns of a write together leave the written store |
| RamDiskLaws.ReadFlatIffAligned | blk_test_error.c:59-71 | a read of whole sectors returns the requested byte range for every store exactly when all segments are whole sectors |
| RamDiskLaws.WriteFlatIffAligned | blk_test_error.c:59-71 | the same for writes: one contiguous splice of the gathered bytes, if and only if all segments are whole sectors |
| RamDiskLaws.LastByteUnread | blk_test_error.c:59-71 | with a segment of part sectors the cursor lags and the last byte of the range does not reach the pages |
| RamDiskLaws.LastByteUnwritten | blk_test_error.c:71 | with a segment of part sectors the cursor lags and the last byte of the range is never written |
| RamDiskLaws.OffsetIffZero | blk_test_error.c:60-67 | for all segments inside memory, wherever the doubled offsets point: the bytes of a write come from where the request names them, for all memory contents, exactly when no non-empty segment has an offset |
| RamDiskLaws.ReadOffsetIffZero | blk_test_error.c:60-63 | for reads into segments that do not overlap as the request names them (or not where the driver puts them), wherever the doubled targets run: the bytes land where the request asks for them, for all bytes and memory, exactly when no non-empty segment has an offset |
| RamDiskLaws.OverlapHidesOffset | blk_test_error.c:60-63 | segments that overlap in the request itself can hide an offset, so that much is needed |
| RamDiskLaws.CapacityCheckExact | blk_test_error.c:45 | the check accepts just the requests inside the store, if and only if the end sector does not wrap around to a small number and the request does not end with part of a sector right behind the store |
| RamDiskLaws.GatherAt | blk_test_error.c:60-67 | the bytes of the segments, in order, are those behind page address and offset (once or twice) |
| RamDiskLaws.ScatteredByLastHolder | blk_test_error.c:59-71 | a read leaves at each address the byte for the last segment that holds it, also where segments overlap, and every other byte of memory as it was |
| RamDiskLaws.GatherScatter | blk_test_error.c:56-73 | segments that do not overlap hold exactly the byte string dealt out to them |
| RamDiskLaws.WriteThenRead | blk_test_error.c:44-75 | at the positions the driver uses, writing through one segmentation and reading through any other of the same length gives the bytes back, and nothing outside the range changes |
| RamDiskLaws.WriteThenReadAsAsked | blk_test_error.c:44-75 | the same at the positions the requests name, for requests without an offset, from the guarantees of the block layer alone |
| RamDiskLaws.StoreIsLastTaken | blk_test_error.c:44-75 | over every run, whatever the segment lengths and offsets, the store holds at each address the byte of the last turn of the segment loop that covers it, or the initial byte; rejected, empty, read and discard requests change nothing |
| RamDiskLaws.ReadReturnsLastTaken | blk_test_error.c:44-75 | after every run any accepted read deals out to each segment what the last turns brought to the addresses behind the cursor |
| RamDiskLaws.CursorIsSum | blk_test_error.c:71 | from segment to segment the cursor of those turns moves by the whole sectors of the segment's length |
| RamDiskLaws.LastTurnIsLast | blk_test_error.c:56-73 | no turn after the last one covers the address, and without a last one none does |
| RamDiskLaws.WrittenByLastTurn | blk_test_error.c:56-73 | a write leaves at each address what the last turn that covers it brought, and every other byte as it was |
| RamDiskLaws.StoreIsLastWritten | blk_test_error.c:44-75 | over every run whose accepted writes are whole sectors the store holds at each address the byte that the driver took for it from the last accepted write whose range covers it, or the initial byte; rejected, empty, read and discard requests of any shape change nothing |
| RamDiskLaws.StoreIsLastAsked | blk_test_error.c:44-75 | when the accepted writes of the run have no offset either, that is the byte which the last accepted write request names for the address |
| RamDiskLaws.ReadReturnsLastWritten | blk_test_error.c:44-75 | after every such run an accepted read of whole sectors deals out, in order, the last bytes written to the sectors it names, at the positions the driver uses |
| RamDiskLaws.ReadReturnsLastAsked | blk_test_error.c:44-75 | when the accepted writes of the run and the read have no offset, it puts the bytes that the writes named where the read asks for them |
| Tokenizer.SeparateString | shell.c:177-193 | the C strings at the stored pointers are, in order, the words of the original line; every other byte before the terminator is NUL, the rest of both arrays is unchanged |
| Tokenizer.StartsAreWords | shell.c:182-190 | in a line with its white space blanked the C strings at the word starts are the words |
| TokenizerLaws.SixSeparators | shell.c:182-190 | space, horizontal and vertical tab, new-line, form feed and carriage return each separate words; the new-line that ends a typed line is no part of its last word |
| TokenizerLaws.NoOtherSeparators | shell.c:182-190 | nothing else separates: a line without those six is one word, or empty |
| TokenizerLaws.WordsAreMaximalRuns | shell.c:182-190 | a stretch is a maximal run of non-space characters if and only if it is one of the words, at its recorded start |
| TokenizerLaws.WordsOfJoin | shell.c:177-193 | joining words with arbitrary non-empty white space, padded at both ends or not, and tokenizing gives the words back |
| TokenizerLaws.EveryLineIsAJoin | shell.c:177-193 | every NUL-free line is its words joined by some white space |
| TokenizerLaws.WordsAreWords | shell.c:182-190 | every word of a NUL-free line is non-empty and holds neither white space nor NUL |
| TokenizerLaws.ArgvFitsIff | shell.c:129-142 | all lines of n characters fit the 100 argument slots if and only if n is at most 200; the buffer takes 999 |
| Shell.Shell.ChangeDirectory | shell.c:199-245 | the path array, its top, the current directory and the returned value after `cd`, for every argument list and lookup reply |
| NavigationLaws.CdIsNextPlace | shell.c:206-242 | one command moves array, top and current directory as it moves a root, a current directory and a stack of entered directories; it stays inside the array exactly when that stack ends lower than 256; it returns -1 exactly for a looked-up name that is not found or no directory, else 0 |
| NavigationLaws.RunIsPlaceAfter | shell.c:199-245 | the same over every run of `cd` commands, with file systems that may change in between |
| NavigationLaws.RunStaysConsistent | shell.c:203-242 | in every run from a consistent state the current directory is the top of the stack that the commands mean, or else the root |
| NavigationLaws.RunResolvesPath | shell.c:199-245 | with a fixed file system the current directory is always what the path of entered names resolves to from the root, and every name on it enters a directory |
| NavigationLaws.TripComesBack | shell.c:199-245 | a run from a consistent state, a freshly mounted one included, that ends at its starting height and never goes below it restores current directory, top and entered directories, with `cd .`, failed `cd` and usage errors anywhere in it; the bottom slot too, if it held the root |
| NavigationLaws.SafeIffHeight | shell.c:203-236 | a run stays inside the path array if and only if the stack that its commands mean is lower than 256 after every one of them |
| NavigationLaws.SafeIffNet | shell.c:203-236 | without a bare `cd`: if and only if top plus pushes minus pops stays below 256 throughout |
| NavigationLaws.HeightSinceBare | shell.c:203-236 | the height of the stack is the pushes minus the pops since the last bare `cd` |
| NavigationLaws.ShortRunsAreSafe | shell.c:203-236 | in particular, from height t, 255 - t commands of any kind are safe |
| NavigationLaws.RemountIsFreshIff | shell.c:204-280 | after a mount every run of `cd` looks as on an empty stack if and only if the stack was empty; from a stack of two or more `cd ..` leads to a directory of the session before |
| NavigationLaws.StuckAtRootIff | shell.c:224-236 | from the root with an empty stack no run of `cd` leaves the root if and only if no single lookup of a name other than `.` in the root yields a directory with a result other than EXT2_SUCCESS |
| NavigationLaws.SuccessfulLookupsLeadNowhere | shell.c:224-236 | so none does with lookups that return EXT2_SUCCESS for the directories they find in the root |
| Shell.Shell.MountDisk | shell.c:255-280 | root and current directory follow the mount call, the flag is set only if it succeeds |
| Shell.Shell.Dispatch | shell.c:144-158 | one tokenized line: first matching row, condition, handler, and the whole state afterwards |
| Shell.Shell.DoShell | shell.c:127-160 | over every list of input lines, tokenized in place, the records and the state are those of `RunOf`; `exit` ends the run |
| ShellLaws.TraceFollowsLines | shell.c:136-160 | each record of a run holds the verdict on its line in the state before it; the run goes on to the last line unless it meets an `exit`, which is then its last record |
| ShellLaws.CommandsByName | shell.c:59-84 | for each of the 21 handlers: a line runs it if and only if it begins with one of its names, spelled out, and the mount flag is as it needs |
| ShellLaws.BlankAndUnknown | shell.c:142-158 | blank is just a line without words; unknown just one that runs no handler, mounted or not |
| Shell.FindCommand | shell.c:147-156 | the loop finds the first row with the name, or the end of the table |
| ShellLaws.RowsMatchNeeds | shell.c:59-125 | the condition mask of every row of the table says what its handler needs: exactly the handlers that work on a mounted file system demand one, exactly `mount` and `format` demand that there is none |
| ShellLaws.JudgeSuits | shell.c:59-84 | a line runs its handler exactly in the mount states that suit the handler |
| ShellLaws.RunsAreInOrder | shell.c:110-160 | in every run handlers that need a mounted file system run mounted only, `mount` and `format` unmounted only, all others are refused, and the flag changes just with a successful mount or an unmount |
| ShellLaws.MountsAlternate | shell.c:255-291 | in every run successful mounts and unmounts strictly alternate, beginning with a mount |
| ShellLaws.RecordSound | shell.c:110-160 | one line: the mount flag changes just with a successful mount or an unmount, an unmount clears it, and a mount leaves it set if and only if there is a mount function and its result is not negative |
| ShellLaws.LineKeepsConsistentIff | shell.c:199-291 | a line keeps the current directory on top of the stack if and only if it is not a mount that leaves directories of the session before on it |
| ShellLaws.RunKeepsConsistent | shell.c:127-291 | so it stays there in every run without such a mount, over any number of mount sessions |
| ShellLaws.SafeRunIffRoomy | shell.c:127-245 | a whole session stays inside the argument vector and the path array if and only if every line it reads before `exit` has at most 100 words and the stack that its commands mean stays lower than 256, whatever it mounts and unmounts |
| ShellLaws.LineIsNextView | shell.c:144-280 | one line moves the shell as it moves that stack, the mount flag and the root |
| ShellLaws.RunIsViewAfter | shell.c:127-280 | so does every run |
| ShellLaws.SessionHeightSinceBare | shell.c:203-280 | the height is the directories entered minus those left since the last bare `cd`, over mounts and unmounts |
| ShellLaws.ShortSessionsAreSafe | shell.c:127-245 | in particular, from height t, 255 - t lines of at most 100 words, of any kind, are safe |
| Content.FillBuffer | shell.c:338-344 | every 13-byte copy stays inside the size + 13 bytes and byte i is "Can you see? "[i mod 13] |
| Content.CatFile | shell.c:524-540 | what is printed from the lookup on: the bytes each read stored, up to their first NUL, with nothing left over from the chunk before, for reads that copy and reads that do not; nothing if the lookup failed |
| Content.CatPrintsFileIff | shell.c:534-540 | the loop prints the file byte for byte if and only if the file is empty, or the read copies and the file holds no NUL; with a read that leaves the buffer alone it prints nothing |
| Content.CatPrintsUpToNul | shell.c:534-539 | of any file, with a read that copies, it prints just the bytes that no NUL precedes in their chunk of 1024 bytes |
| Content.FillThenCat | shell.c:338-345 | the buffer loop, the write and the loop of `cat` together: if the write stores and the read copies, the text comes back for every size, otherwise only the newline is printed |
| Content.FillComesBackIff | shell.c:338-345 | for every size but zero, what `fill` was asked to write comes back if and only if the write stores and the read copies |
| EntryList.List.Init | entrylist.c:31-35 | whatever was in the memory before, the result is the empty list |
| EntryList.List.Add | entrylist.c:37-56 | appends a copy of the entry; earlier items stay where they are, with their entries |
| EntryList.List.Release | entrylist.c:58-78 | terminates, frees every item once, reads none after freeing it, and leaves the empty list |
| EntryList.List.Show | shell.c:388-399 | the walk shows every entry once and in insertion order, then releases the list |
| EntryList.List.Ls | shell.c:370-402 | `ls` shows exactly the entries that the directory read added, in that order, and ends with an empty list; a failed read returns -1 and leaves all added entries linked and unreleased; too many arguments touch nothing |
| EntryList.FollowVisitsItems | entrylist.c:66-73 | following `next` visits the items in order and meets NULL after exactly count steps |
| EntryList.NoCycle | entrylist.c:66-73 | no item is reachable from itself |
| Alignment.AlignmentOffsetIff | blkedv.h.c:1142-1148 | for the larger of the two granularities, if it is whole sectors, the result is below it and the least distance to an aligned byte if and only if the sum fits 32 bits or the granularity divides 2^32; up to 2^31 the returned int is that value |
| Alignment.PowerOfTwoAlignment | blkedv.h.c:1142-1148 | so it always is for powers of two up to 2^31, and the returned int is that distance |
| Alignment.DiscardIsLeast | blkedv.h.c:1171-1192 | no step leaves 32 bits, and the result is the least distance to an aligned sector, limits rounded down |
| Alignment.DiscardIsLeastInBytes | blkedv.h.c:1171-1192 | for limits of whole sectors it is the least distance in bytes |
| Alignment.NoDiscard | blkedv.h.c:1175-1182 | without discard, or with a granularity below one sector, it is 0 |
| Alignment.DiscardIsAlignmentOffset | blkedv.h.c:1142-1192 | it equals the byte formula exactly where that one is right |
| BlockSize.BlksizeBits | blkedv.h.c:1230-1238 | 8 + j for the least j of at least 1 with floor(size / 2^j) at most 256 |
| BlockSize.PowerOfTwoBits | blkedv.h.c:1229-1238 | powers of two above 256 give their exact logarithm |
| BlockSize.SectorsOfBlocks | blkedv.h.c:1030-1044 | absent overflow a sector lies in the sector range if and only if its block lies in the block range; the byte ranges are the same |
| BlockSize.AdjacentRanges | blkedv.h.c:1030-1044 | adjacent block ranges become adjacent sector ranges, without gap or overlap |
| BlockSize.AlignedIffMultiples | blkedv.h.c:1222-1227 | with masks of low ones a request passes exactly when address and length are multiples of both alignments |
| BlockSize.AlignedIffNoMaskedBit | blkedv.h.c:1222-1227 | with any masks, exactly when neither address nor length has a bit of either mask |
| QueueFlags.RequestQueue.FlagTestAndSet | blkedv.h.c:494-505 | sets the flag, changes no other, and returns whether it was set |
| QueueFlags.RequestQueue.FlagTestAndClear | blkedv.h.c:481-492 | clears the flag, changes no other, and returns whether it was set |
| QueueFlags.RequestQueue.QueueFull | blkedv.h.c:632-637 | the sync or the async full flag |
| QueueFlags.RequestQueue.SetQueueFull | blkedv.h.c:639-645 | sets that one flag and no other |
| QueueFlags.RequestQueue.ClearQueueFull | blkedv.h.c:647-653 | clears that one flag and no other |
| QueueFlags.RunRefinesSet | blkedv.h.c:475-528 | over every run of operations the word is a set of flag numbers, and all returned old values agree with it |
| QueueFlags.OtherFlagsUntouched | blkedv.h.c:632-653 | flags that a run does not name stay as they are |
| QueueFlags.SidesAreApart | blkedv.h.c:632-653 | the full flags are flags 3 and 4, and no run of operations on one side changes what the other side reads |
| Bits.BitIsQuotient | blkedv.h.c:475-528 | flag k of a word is the bit that counts 2^k |
| QueueFlags.FlagsDetermineWord | blkedv.h.c:343 | two words with the same flags are the same word |
| RequestSegments.ForEachSegment | blkedv.h.c:726-737 | visits exactly the segments of all bios in order; at each place rq_iter_last is true if and only if it is the final one and the last bio has a segment to walk |
| RequestSegments.SegmentsInOrder | blkedv.h.c:726-734 | segment i of bio b is visited just after those left of its bio and those of the bios before, and no segment besides those is visited |
| RequestSegments.LastSegment | blkedv.h.c:736-737 | the segment that counts as last is the last one of the last bio |

## Left out

- The ext2 on-disk format, inodes, the disk simulator and the glue to the shell: their sources are not part of this model.
- The file operations behind `lookup`, `read`, `write` and `mount`: parameters. `read` returns min(n, size - offset) and fails at the end of the file, and it copies that many bytes or none; `lookup` is any function of directory and name, may be another one for every command, and does not write to the directory it is given.
- FillBuffer: takes the size as a number and requires size + 13 to fit an int; parsing it (`shell.c:329`) calls `scanf` where `sscanf` is meant.
- FillThenCat: the same bound on the size; the lookup of `cat` is taken to find the file just filled.
- `touch`, `rm`, `mkdir`, `rmdir`, `mkdirst`, `df` and the dump commands: a call into the file system and a message each. The dispatch theorems cover when they run.
- DoShell: takes a finite list of what `fgets` leaves in the buffer; cutting the input into lines, and the end of input, are not modelled.
- Dispatch: handlers other than `cd`, `mount` and `umount` are taken not to assign the shell's state.
- ForEachSegment: bio_for_each_segment is not part of the repository; it is taken to walk the table from the bio's index to its count.
- MakeRequest: a copy whose doubled offset points past the end of all memory has no defined result and is excluded (`Addressable`); copies that only leave their page are modelled.
- Messages, prompts, locks and their warnings, page mapping and cache flushing, module set-up and ioctl: no state of the model depends on them.
- Add: allocation is taken to succeed, and the count to stay below 2^32.
- Timestamps, permissions and private data of a directory entry: an entry is its name, directory flag and size.
