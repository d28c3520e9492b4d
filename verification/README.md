# CybOS in Dafny

CybOS is a small 32-bit operating system written in C. This project models eight of its source
files and proves what they are for. Every model takes the form of its source: methods with loops
over fields and arrays that are changed in place, each proved against a specification on values;
lemmas about those specifications carry the results over to all inputs and all runs.

| files | what they model |
|---|---|
| `Words`, `BitStream` | 32-bit words bit by bit; an input buffer as a stream of bits |
| `HuffmanCode`, `DeflateFormat`, `DynamicHeader`, `BlockFormat` | RFC 1951 and the wrapper of RFC 1952 as an encoder: canonical codes, tokens, run-length coded tables, blocks |
| `GzipIo`, `GzipTables`, `GzipBlock`, `Gzip`, `GzipFiles` | the decoder of `source/tools/gzip/gzip.c`, and whole files for it, byte by byte |
| `FrameBitmap`, `Paging`, `ForkRuns` | frames in use, page directories, the clone that a fork makes, and address spaces over runs of forks (`source/kernel/paging.c`) |
| `TaskModel`, `Fairness`, `SignalModel`, `ProcessIds`, `TaskRuns`, `SleepRuns`, `ReadyRuns`, `ExitRuns`, `Scheduler` | the scheduler (`source/kernel/schedule.c`, `source/kernel/timer.c`): `Scheduler` has the linked list and the fields of the tasks, the others the steps on values and the runs |
| `Queue` | the doubly linked queue (`source/kernel/queue.c`) |
| `CStrings`, `VfsModel`, `VfsTables`, `MountLaws`, `Vfs` | mount and file system tables and the path walk (`source/kernel/vfs.c`) |
| `PrintfModel`, `PrintfLaws`, `Printf` | `do_printf` of `source/kernel/klib.c` |
| `Fat12` | table entries and file names of `source/kernel/vfs/fat12.c` |

The main results:

* **Inflate.** The encoder is a specification only; the decoder is proved against it. The canonical
  codes fit in their lengths exactly under the Kraft inequality and then form a prefix code
  (`KraftExact`, `PrefixFree`);
  each encoding is decoded in one way only (`BodyUnique`); `Deflate` returns the expansion of every
  sequence of blocks, overlapping copies included, and when it succeeds, blocks have been read; a compressed header is read correctly exactly when
  it is *safe* (`CreateDynamicTables`); `GzipDecode` puts it all together behind the file header.
  Every file of stored blocks, given by its bytes, decodes to its data (`StoredFile`).
* **Fork isolation.** `CloneDirectory` makes an isolated equal copy exactly when there are enough free
  frames (`CloneReads`, `CloneIsolated`, `SourceIsolated`, `CloneTakes`), and every copied page is as
  writable and as accessible as its source (`CloneFlags`). In every run of forks, new
  pages and writes no two pages of any processes share a frame (`NeverShared`), and what a process
  reads in a page changes only by its own writes (`OwnWritesOnly`). No frame is handed out twice
  without being cleared (`Perform`, `NoReuse`).
* **Scheduling.** The invariant holds in every run of all entry points (`RunAll`); in every run a task
  that can run stays so until it gives up (`StaysReady`), and becomes current again within as many
  turns as there are tasks (`RoundRobin`); signals are drained in order before a switch
  (`DrainBeforeSwitch`); in every run, whatever other tasks do meanwhile, a sleep ends at exactly its
  tick (`SleepEndsOnTime`), or at the first tick after a signal (`SignalEndsSleep`); a zombie stays one
  (`StaysZombie`); PIDs stay distinct until the counter wraps (`PidsDistinct`).
* **Containers, tables, codecs.** The queue is a sequence; `sys_mount` succeeds exactly when there is
  all that it needs (`MountSucceeds`); mounts stay consistent over runs with
  failures (`RunInv`) and lead to their nodes (`MountThenWalk`); `do_printf` prints what the parts of
  its format say, for every format (`FormatPrints`, `Decompose`), numbers read back in the base and
  the width of their conversion (`DirectiveReads`), and padding goes where the flags say (`Placed`);
  table entries and names round-trip exactly where they can.

The laws that fix layouts and meanings are stated with the numbers themselves, apart from the functions that
the methods are proved against: `SendingOrder`, `RunMeaning`, `HeaderMeaning`, `TypeBits`, `StoredFile`,
`SampleReads`, `CopiedEntryValue`, `NewEntryValue`, `MappedValue`, `EntryPlace`, `SwitchStates`, `TickLaw`,
`DirectiveReads`, `EntryLayout`, `NameLayout` and others.

Where the code does less than its comments or its purpose suggest, the model follows the code, and a
lemma says exactly when it does what it is for:

* Code 18 has the guard `267+hlit` instead of `257+hlit` (`source/tools/gzip/gzip.c:207`), and a
  distance table cannot open with code 16: `CreateDynamicTables`, with a counterexample in
  `CrossingHeader`.
* The signature check refuses a file only if all three bytes are wrong
  (`source/tools/gzip/gzip.c:397`): `ReadFixedFields`.
* Flags of a page that is not present are not copied faithfully, because the new frame is present:
  `FlagsFaithful`.
* `allocate_new_pid` does not look at the last task of the list: `PidOfLastTask`, `DuplicatePid`. When
  the idle task forks alone after the last PID has been handed out, its child gets the PID of the
  idle task: `IdlePidAgain`.
* A task that exits without a parent is unlinked before the search for its successor, which ends only
  if some task is eligible: `UnlinkedSearchEnds`. If a signal is pending for it, it stays the current
  task although it is no longer listed: `SysExit`.
* A sleep of time 0 never ends by itself, and a negative time counts down through the wrap-around of
  an int: `SleepEnds`.
* `queue_remove` cannot remove the only item: `Remove`.
* A remount that fails leaves an enabled mount without a node: `SupernodesKept`,
  `RemountBreaksWalk`. The path walk stops the kernel at `..`.
* A format that breaks off in a directive right behind `%`, `%0` or `%-0` is read past its end:
  `OverrunExactly`.
* The comment of `fat12_convert_c_to_dos_filename` promises support for names that begin with a dot,
  but they are lost: `DotFileLost`, `LongOfDos`.
* An address range is mapped as meant only if both addresses have the same offset in a page:
  `MappedAddress`.

Results that C leaves undefined are outcomes of the model: `Fault` in `GzipIo` and `VfsModel`,
`Overrun` and `NoArgument` in `PrintfModel`, `fault` in `Queue`. They stand for a table indexed out of
range, a value that is read before it is set, a buffer that is overrun, a null pointer, a missing
argument, or input used beyond its end. `kpanic` is an outcome too.

## Model

| member | source | states |
|---|---|---|
| HuffmanCode.CodesFitWords | source/tools/gzip/gzip.c:124-139 | whatever the code lengths are, no code that the table builder computes leaves a 32-bit word |
| HuffmanCode.KraftExact | source/tools/gzip/gzip.c:124-139 | the canonical codes fit in their lengths if and only if the lengths meet the Kraft inequality |
| HuffmanCode.CodeFits | source/tools/gzip/gzip.c:124-139 | under the Kraft inequality each single code is below 2^length |
| HuffmanCode.FirstCodeIsSum | source/tools/gzip/gzip.c:124-139 | the first code of a length, scaled to the window, is the Kraft sum of the shorter codes |
| HuffmanCode.IntervalsDisjoint | source/tools/gzip/gzip.c:124-139 | the window intervals of the symbols follow each other in the order of length and symbol, without overlap |
| HuffmanCode.PrefixFree | source/tools/gzip/gzip.c:124-139 | no code word of a used symbol is a prefix of the code word of another one |
| HuffmanCode.CodeAtWindow | source/tools/gzip/gzip.c:99-118 | the test of the decoder on its 15-bit lookahead holds exactly when the code stands in the stream, whatever the bits behind it are |
| HuffmanCode.CodeUnique | source/tools/gzip/gzip.c:99-118 | at most one symbol can be decoded at a position |
| GzipIo.HuffmanTree.NumberCodes | source/tools/gzip/gzip.c:133-138 | one round of the nested loop gives the symbols of one length consecutive codes in symbol order and leaves shorter codes alone |
| GzipIo.HuffmanTree.MakeCodeTable | source/tools/gzip/gzip.c:124-139 | the nested loop builds exactly the bl_count/next_code codes of section 3.2.2 of RFC 1951 |
| GzipIo.Io.PeekInput | source/tools/gzip/gzip.c:45-58 | reads the bits least significant first across byte borders without moving |
| GzipIo.Io.ReadInput | source/tools/gzip/gzip.c:64-68 | the same, and moves on by as many bits |
| GzipIo.Io.DecodeOne | source/tools/gzip/gzip.c:99-118 | returns the symbol whose code stands at the position and advances by its length; -1 exactly when no code stands there, without moving |
| GzipIo.Io.PeekOutput | source/tools/gzip/gzip.c:74-76 | the byte that lies a distance back in the output |
| GzipIo.Io.WriteOutput | source/tools/gzip/gzip.c:82-93 | appends one byte, growing the buffer so that there is always room for one more |
| DeflateFormat.LengthTable | source/tools/gzip/gzip.c:20-40 | the rows of the length table are what section 3.2.5 of RFC 1951 builds from ranges that follow each other |
| DeflateFormat.DistanceTable | source/tools/gzip/gzip.c:20-40 | the same for the distance table |
| DeflateFormat.LengthCovered | source/tools/gzip/gzip.c:20-40 | every length from 3 to 258 has a symbol and extra bits |
| DeflateFormat.DistanceCovered | source/tools/gzip/gzip.c:20-40 | every distance has a symbol and extra bits |
| DeflateFormat.TokenAtEncoding | source/tools/gzip/gzip.c:284-337 | parsing a token part by part agrees with finding its encoding in the stream |
| DeflateFormat.TokenUnique | source/tools/gzip/gzip.c:284-337 | at most one literal or back reference starts at a position |
| DeflateFormat.BodyUnique | source/tools/gzip/gzip.c:284-337 | a stream holds at most one block body at a position: the encoding is decoded in one way only |
| GzipBlock.LookupRow | source/tools/gzip/gzip.c:305-313 | finds a row before the row that ends the table, exactly when there is one with the symbol |
| GzipBlock.LengthRow | source/tools/gzip/gzip.c:305-313 | the rows that the search can find are exactly the length symbols, with their base and extra bits |
| GzipBlock.DistanceRow | source/tools/gzip/gzip.c:318-327 | the same for the distance symbols |
| GzipBlock.ReadLength | source/tools/gzip/gzip.c:304-313 | base and extra bits of a length; unset exactly for the unused symbols 286 and 287 |
| GzipBlock.ReadDistance | source/tools/gzip/gzip.c:318-327 | base and extra bits of a distance; unset exactly after a decoding error |
| GzipBlock.CopyBack | source/tools/gzip/gzip.c:329-334 | an overlapping copy appends the periodic continuation: byte n+k is byte n-distance+(k mod distance) |
| GzipBlock.DecodeCopy | source/tools/gzip/gzip.c:299-335 | decodes a back reference, or finds that no valid one stands there |
| GzipBlock.DecodeToken | source/tools/gzip/gzip.c:288-336 | decodes one literal, back reference or end of block, or finds that none stands there |
| GzipBlock.DeflateHuffman | source/tools/gzip/gzip.c:284-337 | succeeds if and only if valid tokens and an end of block stand in the stream; then the output grows by their expansion and the position by their encoding |
| BlockFormat.FixedCodeTable | source/tools/gzip/gzip.c:146-162 | the fixed lengths give the table of codes of section 3.2.6 of RFC 1951 |
| BlockFormat.FixedKraft | source/tools/gzip/gzip.c:146-162 | the fixed literal code is complete, the fixed distance code leaves exactly two codes unused |
| BlockFormat.FixedFits | source/tools/gzip/gzip.c:146-162 | every literal, length and distance symbol has a code that fits in the fixed codes |
| GzipTables.CreateFixedTables | source/tools/gzip/gzip.c:146-162 | both fixed codes are set up |
| GzipTables.FillTable | source/tools/gzip/gzip.c:195-207 | writes a run as far as the guard of its loop allows; fails exactly when that leaves the table |
| GzipTables.StoreRun | source/tools/gzip/gzip.c:193-210 | stores a run of code 16, 17 or 18 up to its guard and keeps what is left over in remainder and rem_val |
| GzipTables.ReadRun | source/tools/gzip/gzip.c:188-213 | reads one entry of a compressed table; fails only where no run stands that could be stored |
| GzipTables.ReadLengths | source/tools/gzip/gzip.c:187-248 | the loop over a table ends with the expansion of the runs in the stream; it fails only if no runs supply the lengths |
| GzipTables.ReadCodeLengths | source/tools/gzip/gzip.c:178-180 | the lengths of the code length code: symbol 0 gets the fourth 3-bit field, symbol 8 the fifth, and so on in the order of section 3.2.7 of RFC 1951; 0 where so many fields are not sent |
| DynamicHeader.SendingOrder | source/tools/gzip/gzip.c:15 | the code length code of any sent lengths, symbol by symbol, with the places as numbers |
| DynamicHeader.RunMeaning | source/tools/gzip/gzip.c:193-210 | code 16 repeats the length before 3 to 6 times, 17 and 18 stand for 3 to 10 and 11 to 138 zeros, with 2, 3 and 7 extra bits; the guards are 257+hlit, and 267+hlit for code 18 |
| DynamicHeader.HeaderMeaning | source/tools/gzip/gzip.c:174-220 | the fields of a header as numbers: 257 and 1 and 4 more than sent; the first lengths are those of the literals, the next those of the distances, in one sequence |
| GzipTables.CreateLiteralTable | source/tools/gzip/gzip.c:178-216 | the literal code is built from the first runs, and the remainder belongs to the distance lengths |
| GzipTables.CreateDistanceTable | source/tools/gzip/gzip.c:220-250 | the distance code is built from the remainder and the runs that follow |
| DynamicHeader.ExpandSplit | source/tools/gzip/gzip.c:168-251 | expanding runs across the border of the two tables is expanding them as one sequence |
| DynamicHeader.RunsAgree | source/tools/gzip/gzip.c:168-251 | two sequences of runs at one position agree as far as both go |
| DynamicHeader.SafeResult | source/tools/gzip/gzip.c:168-251 | on a safe header both tables get exactly their part of the single sequence of lengths |
| DynamicHeader.UnsafeResult | source/tools/gzip/gzip.c:205-210 | on any other header the reader goes beyond the end of the header |
| DynamicHeader.BothSucceed | source/tools/gzip/gzip.c:168-251 | the header is safe if and only if the reader stops at its end |
| DynamicHeader.CrossingHeader | source/tools/gzip/gzip.c:205-210 | a well-formed header with a run of code 18 across the border, which the code cannot read |
| GzipTables.CreateDynamicTables | source/tools/gzip/gzip.c:168-251 | on every well-formed header: stops at its end if and only if no run of code 18 crosses the border and the distance lengths do not open with code 16; then both codes are the right ones |
| Gzip.DeflateUncompressed | source/tools/gzip/gzip.c:258-276 | copies a stored block from the next byte border |
| Gzip.InflateFixed | source/tools/gzip/gzip.c:356-360 | a block with fixed codes: succeeds exactly when a body stands in the stream |
| Gzip.InflateDynamic | source/tools/gzip/gzip.c:361-365 | a block with its own codes: decodes the block for every safe header; a success on any input means that tables have been read and that a body in their codes stood behind them |
| Gzip.InflateBlock | source/tools/gzip/gzip.c:347-371 | one block of any type ends where its encoding ends and appends what it stands for; a success on any input means that a block of one of the types has been read |
| BlockFormat.TypeBits | source/tools/gzip/gzip.c:347-371 | a block begins with its last-block bit and its type: 0 stored, 1 fixed codes, 2 codes of its own |
| Gzip.Deflate | source/tools/gzip/gzip.c:343-376 | for every sequence of stored, fixed and dynamic blocks with safe headers the output is exactly their expansion and the position is the end of their encoding; a success on any input means that blocks have been read one after the other, of which only the last one is marked as final |
| Gzip.SkipText | source/tools/gzip/gzip.c:409-413 | skips a zero-terminated text |
| Gzip.ReadFixedFields | source/tools/gzip/gzip.c:390-407 | accepts a file unless all three of its signature bytes are wrong, and skips the extra field |
| Gzip.ReadMemberHeader | source/tools/gzip/gzip.c:390-416 | skips every header of section 2.3 of RFC 1952, with any of the optional fields |
| Gzip.GzipDecode | source/tools/gzip/gzip.c:382-433 | on every file with such a header and readable blocks the result is what the blocks stand for |
| GzipFiles.StoredReadable | source/tools/gzip/gzip.c:258-276 | stored blocks given byte by byte, with length and complement low byte first, are blocks that the decoder reads, and stand for their data |
| GzipFiles.MemberIs | source/tools/gzip/gzip.c:390-416 | a file header given byte by byte, with the optional fields at flags 4, 8, 16 and 2, is one of the headers that the decoder skips |
| GzipFiles.StoredFile | source/tools/gzip/gzip.c:382-433 | every file of such a header and stored blocks, and whatever follows, is one that gzip_decode reads, and what it decodes to is the data |
| GzipFiles.SampleReads | source/tools/gzip/gzip.c:284-337 | the five bytes 4B 4C 42 86 00, wherever they stand, are a last block in the fixed codes that stands for "ab" seven times, by an overlapping copy |
| FrameBitmap.Bitmap.Mark | source/kernel/paging.c:76-80 | adds one frame to the frames in use and no other |
| FrameBitmap.Bitmap.Unmark | source/kernel/paging.c:81-88 | removes one frame, and moves the hint down so that nothing is missed |
| FrameBitmap.Bitmap.Test | source/kernel/paging.c:89-93 | whether a frame is in use |
| FrameBitmap.Bitmap.FrameBit | source/kernel/paging.c:76-93 | frame f is bit f mod 32, as a number, of word f/32 |
| FrameBitmap.Bitmap.FindFirst | source/kernel/paging.c:97-116 | the least free frame although the search starts at the hint; -1 exactly when there is none |
| FrameBitmap.Bitmap.Perform | source/kernel/paging.c:76-139 | any list of operations of the bitmap, frames handed out among them, is a run in which each handed-out frame is the least free one and failures happen only when all frames are in use |
| FrameBitmap.CountFrames | source/kernel/paging.c:97-116 | as many frames are in use as there are, if and only if none is free |
| FrameBitmap.InUseUntilCleared | source/kernel/paging.c:76-139 | in every run of bitmap operations, as Perform makes them, a frame in use is not handed out before it has been cleared |
| FrameBitmap.NoReuse | source/kernel/paging.c:76-139 | in every such run a frame that is handed out twice has been cleared in between |
| Paging.Machine.AllocatePageframe | source/kernel/paging.c:121-139 | an empty entry gets the least free frame, which is then in use; an entry in use is left alone |
| Paging.NewEntryValue | source/kernel/paging.c:133-138 | a new entry is frame * 4096 + 1, + 2 if it is writable, + 4 if it is for users |
| Paging.CopiedEntryFlags | source/kernel/paging.c:266-271 | the frame of a copied entry, and its flags bit by bit |
| Paging.CopiedEntryValue | source/kernel/paging.c:266-271 | the entry of a copied page as a number: frame * 4096 + 1 and the bits of value 2, 4, 32 and 64 of the source entry |
| Paging.FlagsFaithful | source/kernel/paging.c:266-271 | the five flags are copied faithfully if and only if the source page is present |
| Paging.Machine.CopyFlags | source/kernel/paging.c:266-271 | sets the five flags one by one |
| Paging.Machine.CloneTable | source/kernel/paging.c:256-280 | copies every used page of a table into a frame of its own; fails only with every frame in use and a page still to copy |
| Paging.Machine.CloneSlot | source/kernel/paging.c:237-291 | shares a table of the kernel, copies any other; fails only in the same way |
| Paging.Machine.CloneSlots | source/kernel/paging.c:237-291 | the outer loop builds the whole clone, or runs out of frames with a page still to copy |
| Paging.Machine.CloneDirectory | source/kernel/paging.c:197-296 | returns no directory, which is where the kernel panics, if and only if there are more pages to copy than free frames; otherwise a clone: kernel tables shared, every other page in a distinct frame that was free, bytes copied, exactly the copied frames newly in use |
| Paging.CloneReads | source/kernel/paging.c:197-296 | a page is mapped in the clone exactly when it is in the source, and reads the same bytes; copied pages were free before |
| Paging.CloneFlags | source/kernel/paging.c:197-296 | the low twelve bits of every entry of a clone: 1 and the bits of value 2, 4, 32 and 64 of the source entry in a copied page, all of them in a shared one, and 0 where nothing is mapped |
| Paging.CloneIsolated | source/kernel/paging.c:197-296 | a write through a copied page of the clone changes no frame that was in use and no other copied page |
| Paging.SourceIsolated | source/kernel/paging.c:197-296 | a write through a page of the source is invisible in the copied pages of the clone |
| Paging.CloneTakes | source/kernel/paging.c:197-296 | the bitmap grows by exactly the number of copied pages |
| Paging.TooManyPages | source/kernel/paging.c:121-139 | running out of frames means that more pages were to be copied than frames were free |
| ForkRuns.IsolatedKept | source/kernel/paging.c:197-331 | a fork, a new page or a write keeps every page of every process in a frame of its own that is in use |
| ForkRuns.NeverShared | source/kernel/paging.c:197-331 | so in every run no two user pages of any processes ever share a frame |
| ForkRuns.OwnWritesOnly | source/kernel/paging.c:197-331 | in every run what a process reads in a page changes only by its own writes to that page |
| ForkRuns.ForkReads | source/kernel/paging.c:197-296 | right after a fork the new process reads what the old one reads |
| ForkRuns.CloneIsFork | source/kernel/paging.c:197-296 | a clone is a fork step of such a run, and its frames are in use as the next clone demands |
| ForkRuns.CreateEntry | source/kernel/paging.c:300-331 | a new page in a table that is there, by entries |
| ForkRuns.CreateUserPage | source/kernel/paging.c:300-331 | a new page is a create step of such a run |
| Paging.Machine.CreatePageframe | source/kernel/paging.c:300-331 | a page that is not mapped gets the least free frame, every other page keeps its entry |
| Paging.Machine.MapVirtualMemory | source/kernel/paging.c:339-377 | one page refers to the frame, with a new table entered as present, writable and for users where needed; every other page keeps its entry |
| Paging.Machine.AllocateVirtualMemory | source/kernel/paging.c:383-394 | size/0x1000+1 consecutive pages are mapped, with 32-bit wrap-around, and exactly their frames are marked |
| Paging.MappedPage | source/kernel/paging.c:383-394 | each of those pages refers to its own frame |
| Paging.MappedValue | source/kernel/paging.c:383-394 | the entry of each of those pages is its frame * 4096 + 7: present, writable and for users |
| Paging.NthPageValue | source/kernel/paging.c:383-394 | the pages and frames follow each other from address/4096 on, modulo 2^20 |
| Paging.EntryPlace | source/kernel/paging.c:339-377 | bits 22 to 31 of an address choose the table, bits 12 to 21 the place in it |
| Paging.OtherPage | source/kernel/paging.c:383-394 | no other page changes |
| Paging.InFirstPages | source/kernel/paging.c:383-394 | exactly the frames of the source pages are newly marked |
| Paging.Machine.GetPhysicalAddress | source/kernel/paging.c:423-429 | the frame of the page and the offset in it |
| Paging.MappedAddress | source/kernel/paging.c:383-429 | the translation of virtual+k is physical+k if and only if both addresses have the same offset in a page |
| TaskModel.SearchIsNearest | source/kernel/schedule.c:199-229 | the walk over the list finds the nearest eligible task in cyclic order, or that there is none |
| TaskModel.SwitchStates | source/kernel/schedule.c:328-393 | a switch makes the RUNNING task that it leaves RUNNABLE and the one that it chooses RUNNING, unless that is the idle task; no other field of any task changes |
| Fairness.SwitchCloser | source/kernel/schedule.c:328-393 | each switch brings a waiting task strictly nearer or chooses it |
| Fairness.IdleOnlyWhenNeeded | source/kernel/schedule.c:328-393 | another task gives way to the idle task if and only if no task is eligible |
| Fairness.NoStarvation | source/kernel/schedule.c:328-393 | a task that stays runnable becomes current within as many switches as its cyclic distance, so within the number of tasks |
| ReadyRuns.ReadyKept | source/kernel/schedule.c:44-653 | no entry point takes a RUNNING or RUNNABLE task out of the race, unless it is the current task and goes to sleep or exits |
| ReadyRuns.StaysReady | source/kernel/schedule.c:44-653 | so in every run such a task stays ready until it gives up |
| ReadyRuns.RoundRobin | source/kernel/schedule.c:328-393 | in every run over a list that stays as it is a ready task becomes current again within as many turns as its cyclic distance, so within the number of tasks; that it stays eligible is derived |
| ReadyRuns.ChildReady | source/kernel/schedule.c:588-644 | a fork appends a copy of the current task that is RUNNABLE, with its PID as parent and a new PID from 1 to 65535, and changes no other task |
| SignalModel.DrainOrder | source/kernel/schedule.c:260-266 | the pending signals are handled lowest first, each exactly once, as many as bits are set |
| SignalModel.DrainBeforeSwitch | source/kernel/schedule.c:333-338 | k pending signals take k reschedules, and until then the task is not switched away from |
| SignalModel.SleepLeaves | source/kernel/schedule.c:493-510 | a task that goes to sleep without pending signal stops being current |
| SignalModel.SleepExact | source/kernel/schedule.c:295-322 | by ticks alone a sleep ends at exactly the tick at which its time is up, by the alarm signal; a negative time wraps around |
| SignalModel.SleepEnds | source/kernel/schedule.c:295-322 | ticks alone end every sleep but one of time 0 |
| SignalModel.TickLaw | source/kernel/schedule.c:295-322 | what a tick does to any task: the alarm one nearer, signal 14 when it reaches 0, and RUNNABLE for a sleeping task with any signal pending, also one that was pending before |
| SleepRuns.StepPasses | source/kernel/schedule.c:44-653 | a step other than a tick or its wakeup leaves a task that is out of the race - asleep, not ready yet, or a zombie - as it is and does not make it current, except that a signal or the exit of a child sets a bit; an unlinked task in front of it moves it by one place |
| SleepRuns.SleepBegins | source/kernel/schedule.c:493-510 | sys_sleep without pending signal puts its caller to sleep for its time |
| SleepRuns.SleepsOn | source/kernel/schedule.c:295-653 | in every run in which nothing is meant for it a sleeping task sleeps on until its time is up, and for ever without alarm |
| SleepRuns.SleepEndsOnTime | source/kernel/schedule.c:295-653 | after sys_sleep without pending signal, in every such run of all entry points, the task sleeps and is not current after fewer ticks than its time, and becomes runnable with SIGALRM at exactly the tick at which its time is up |
| SleepRuns.SignalSet | source/kernel/schedule.c:235-238 | a signal sets exactly its bit of one task |
| SleepRuns.SignalEndsSleep | source/kernel/schedule.c:235-322 | in every run a signal ends a sleep at the next tick, whichever signal it is and whatever other tasks do until then |
| SleepRuns.QueueSleepBegins | source/kernel/schedule.c:63-80 | sched_interruptable_sleep puts its caller to sleep and leaves its alarm alone |
| SleepRuns.WakeupLaw | source/kernel/schedule.c:44-58 | a wakeup makes exactly the queued tasks RUNNABLE and does not switch |
| SignalModel.SliceEnds | source/kernel/timer.c:46-55 | a rescheduling is due when the slice ends and then at every 50th tick |
| ProcessIds.PidFound | source/kernel/schedule.c:439-464 | a PID is found if and only if one is free, and it differs from those of all tasks but the last |
| ProcessIds.PidFree | source/kernel/schedule.c:439-464 | one is free whenever at most 65536 tasks are listed |
| ProcessIds.IdlePidAgain | source/kernel/schedule.c:439-464 | the PID found is that of the idle task if and only if that task is alone and the counter has reached the last PID |
| ProcessIds.PidBeforeWrap | source/kernel/schedule.c:439-464 | before the counter wraps the new PID is the next number |
| ProcessIds.PidOfLastTask | source/kernel/schedule.c:455 | the PID of the last task is handed out again if and only if it is the first one after the counter that no other task has |
| ProcessIds.DuplicatePid | source/kernel/schedule.c:455 | a list on which that happens |
| TaskRuns.InvKept | source/kernel/schedule.c:131-650 | every step keeps the invariant: idle at the head and not RUNNING, a RUNNING task is the current one, every parent is listed |
| TaskRuns.RunAll | source/kernel/schedule.c:131-650 | so does every run |
| TaskRuns.ParentFound | source/kernel/schedule.c:548-551 | a task that exits with a parent finds it on the list |
| ExitRuns.ExitLeavesZombie | source/kernel/schedule.c:531-566 | a task that exits with a parent is a zombie and not current any more, and its parent has been sent signal 17 |
| ExitRuns.ExitPending | source/kernel/schedule.c:531-566 | with a signal pending it is a zombie too, and its parent has been told, but it is switched away from only after it has handled its signals |
| ExitRuns.ExitOrphans | source/kernel/schedule.c:541-545 | exactly the children of the task have parent 0 afterwards |
| ExitRuns.ExitUnlinks | source/kernel/schedule.c:552-561 | a task that exits without parent is gone, and a task that was RUNNABLE is RUNNING |
| ExitRuns.StaysZombie | source/kernel/schedule.c:44-653 | in every run a zombie stays one and never becomes current, unless a wait queue in which it still lies is woken up |
| TaskRuns.AscendingKept | source/kernel/schedule.c:439-464 | before the counter wraps every step keeps the PIDs ascending along the list |
| TaskRuns.PidsDistinct | source/kernel/schedule.c:439-464 | so in every such run the PIDs are pairwise distinct |
| Scheduling.Scheduler.AddTask | source/kernel/schedule.c:131-158 | appends to the doubly linked list; the first task becomes the idle task |
| Scheduling.Scheduler.RemoveTask | source/kernel/schedule.c:164-193 | takes a task out of the list; the branch for the head is never reached |
| Scheduling.Scheduler.SearchList | source/kernel/schedule.c:211-222 | the pointer walk is the search in cyclic order, and ends; for an unlinked task it ends if some task is eligible |
| Scheduling.Scheduler.GetNextRunnable | source/kernel/schedule.c:199-229 | the same with the special case of a sole task |
| Scheduling.Scheduler.UnlinkedSearchEnds | source/kernel/schedule.c:212-219 | from a task that sys_exit has unlinked the search ends if and only if some task is eligible |
| Scheduling.Scheduler.SwitchTask | source/kernel/schedule.c:328-393 | is the switch step, and keeps list and invariant |
| Scheduling.Scheduler.HandlePendingSignals | source/kernel/schedule.c:244-288 | takes the lowest pending signal of the current task |
| Scheduling.Scheduler.TakeSignal | source/kernel/schedule.c:244-288 | the same for a current task that is no longer listed |
| Scheduling.Scheduler.DoReschedule | source/kernel/schedule.c:650-653 | a switch and the handling of one signal |
| Scheduling.Scheduler.SysSignal | source/kernel/schedule.c:235-238 | sets one signal bit of one task |
| Scheduling.Scheduler.Administer | source/kernel/schedule.c:301-318 | what a tick does to one task |
| Scheduling.Scheduler.GlobalTaskAdministration | source/kernel/schedule.c:295-322 | a tick does that to every task of the list |
| Scheduling.Scheduler.TimerInterrupt | source/kernel/timer.c:20-55 | one tick for all tasks, the time counted for the current task on its ring, and 1 exactly when the slice is over |
| Scheduling.Scheduler.SysSleep | source/kernel/schedule.c:493-510 | sets alarm and state and reschedules; the idle task panics |
| Scheduling.Scheduler.InterruptableSleep | source/kernel/schedule.c:63-80 | any current task takes the first free slot of the queue and goes to sleep; panics exactly when there is none |
| Scheduling.Scheduler.Wakeup | source/kernel/schedule.c:44-58 | makes exactly the queued tasks runnable, those no longer listed among them, and empties the queue |
| Scheduling.Scheduler.GetTask | source/kernel/schedule.c:519-526 | the first task with a PID, or none |
| Scheduling.Scheduler.AllocateNewPid | source/kernel/schedule.c:439-464 | the loop ends if some PID is free, with the first PID after the counter that it does not find |
| Scheduling.Scheduler.Boot | source/kernel/schedule.c:86-125 | the idle task with PID 0, from which the runs start |
| Scheduling.Scheduler.SysFork | source/kernel/schedule.c:588-644 | appends a runnable copy of the current task with a new PID and its parent, whenever some PID is free; keeps the invariant apart from the one case in which the PID is that of the idle task |
| Scheduling.Scheduler.OrphanChildren | source/kernel/schedule.c:541-545 | takes the parent from exactly the children of the task |
| Scheduling.Scheduler.TurnZombie | source/kernel/schedule.c:548-551 | the task becomes a zombie, its parent gets SIGCHLD |
| Scheduling.Scheduler.LeaveList | source/kernel/schedule.c:552-561 | a task without parent is unlinked and the next eligible task runs; with a signal pending it is unlinked and stays current |
| Scheduling.Scheduler.SysExit | source/kernel/schedule.c:531-566 | is the exit step in both cases, or leaves an unlinked current task whose lowest signal has been taken; the idle task panics |
| Queue.Queue.Insert | source/kernel/queue.c:72-124 | all four cases splice the item in after the given one, or at the head, and count |
| Queue.Queue.Append | source/kernel/queue.c:130-133 | adds at the end |
| Queue.Queue.Prepend | source/kernel/queue.c:139-142 | adds at the front |
| Queue.Queue.Remove | source/kernel/queue.c:148-178 | takes out exactly the item; goes through a null pointer if and only if it is the only one |
| Queue.Queue.Seek | source/kernel/queue.c:47-65 | the first item that the callback accepts, or none; none also for a missing callback |
| Queue.Queue.Iterate | source/kernel/queue.c:185-188 | the head, or the successor of an item |
| Queue.Queue.Walks | source/kernel/queue.c:185-188 | a walk passes every item once in order, the walk back in reverse order, and both end |
| Queue.InsertRemove | source/kernel/queue.c:72-178 | removing the item just inserted restores the contents |
| VfsModel.SplitJoin | source/kernel/vfs.c:262-283 | the pieces between the slashes of a path made of names are those names |
| VfsModel.JoinSplit | source/kernel/vfs.c:262-283 | joining the pieces of a path gives the path |
| VfsModel.FoldNext | source/kernel/vfs.c:262-308 | one round of the loop of the walk takes exactly the next component |
| VfsModel.FoldFinds | source/kernel/vfs.c:242-314 | a walk arrives at a node if and only if a trail of directories and entries leads there, with "." skipped |
| VfsModel.FoldMisses | source/kernel/vfs.c:242-314 | a walk fails if and only if some component cannot be passed: not in a directory, or no such entry |
| Vfs.VirtualFileSystem.RegisterFilesystem | source/kernel/vfs.c:154-170 | takes the first free slot, or reports that there is none |
| Vfs.VirtualFileSystem.UnregisterFilesystem | source/kernel/vfs.c:175-194 | frees the first slot with the tag unless it is still mounted |
| Vfs.VirtualFileSystem.GetSystem | source/kernel/vfs.c:199-212 | the first registered file system with a tag |
| Vfs.VirtualFileSystem.GetMount | source/kernel/vfs.c:23-49 | the mount before the first colon and the rest of the path; overruns its buffer exactly for longer names |
| Vfs.VirtualFileSystem.GetNode | source/kernel/vfs.c:242-314 | ends on every path, with the fold of finddir over its components |
| Vfs.VirtualFileSystem.WalkFrom | source/kernel/vfs.c:271-309 | the loop of the walk is that fold |
| Vfs.VirtualFileSystem.GetDevice | source/kernel/vfs.c:351-361 | the block device behind a path |
| Vfs.VirtualFileSystem.FindSlot | source/kernel/vfs.c:364-373 | the first slot that a mount or remount may take |
| Vfs.VirtualFileSystem.FillSlot | source/kernel/vfs.c:375-405 | fills the slot in, also where the mount fails half way |
| Vfs.VirtualFileSystem.SysMount | source/kernel/vfs.c:335-411 | is the mount step, successful or not |
| MountLaws.MountSucceeds | source/kernel/vfs.c:335-411 | succeeds if and only if the file system is registered and can mount, the name is not mounted yet or this is a remount, the path of the device, if any, leads to a node of type 4 whose numbers have a driver, a slot is free or matches, the name has at most nine characters, and the mount operation hands out a node; then exactly that slot and that count change |
| MountLaws.OnlyBlockDevices | source/kernel/vfs.c:351-361 | a device path to a node of any other type fails and changes nothing |
| MountLaws.RegisterLaw | source/kernel/vfs.c:154-170 | registering succeeds if and only if a slot is free, and fills the first one |
| MountLaws.UnregisterLaw | source/kernel/vfs.c:175-194 | unregistering succeeds if and only if the first file system with the tag counts no mount, and frees exactly its slot |
| MountLaws.MountOfLaw | source/kernel/vfs.c:23-49 | the name before the first colon leads to the first enabled mount of that name, a name of more than ten characters overruns the buffer, and a path without colon leads nowhere |
| VfsTables.MountKeeps | source/kernel/vfs.c:335-411 | a mount or remount, also a failed one, keeps the invariant of the tables |
| VfsTables.RunInv | source/kernel/vfs.c:154-411 | in every run whose mounts neither panic nor overrun a buffer, failed ones among them: enabled mounts form a prefix, their names differ, each file system counts at least its enabled mounts, and none of them is unregistered |
| VfsTables.LookupUnique | source/kernel/vfs.c:40-43 | the lookup by name finds a mount if and only if it is enabled under that name |
| VfsTables.MountFound | source/kernel/vfs.c:335-411 | after a successful mount its name leads to the node its file system handed out |
| VfsTables.MountThenWalk | source/kernel/vfs.c:242-411 | every path made of names under that mount starts at that node |
| VfsTables.MountOthers | source/kernel/vfs.c:335-411 | a mount does not touch the mounts of other names |
| VfsTables.SupernodesKept | source/kernel/vfs.c:375-392 | an enabled mount loses its node if and only if it is remounted and the mount operation hands out none |
| VfsTables.RemountBreaksWalk | source/kernel/vfs.c:375-392 | a run in which that happens, after which a walk reads through the null pointer |
| PrintfModel.DigitsValue | source/kernel/klib.c:301-317 | the digits of a number stand for the number |
| PrintfModel.WordDigits | source/kernel/klib.c:161-168 | no 32-bit number needs more than 11 of the 16 bytes of the buffer |
| PrintfModel.NumberLength | source/kernel/klib.c:331-373 | a number takes exactly the larger of its width and its natural length |
| PrintfModel.NumberReads | source/kernel/klib.c:274-373 | what is printed for a number reads back as the number, for every radix, width and flag |
| PrintfLaws.DirectiveReads | source/kernel/klib.c:256-300 | what is printed for %u, %d and %i reads back in base 10, for %X, %x, %p and %n in base 16, for %o in base 8, as the word, its low 16 bits with h, or the two's complement of either for %d and %i |
| PrintfLaws.DigitCase | source/kernel/klib.c:256-317 | %X prints upper-case digits, all others lower-case ones |
| PrintfLaws.WidthValue | source/kernel/klib.c:178-250 | the digits of a width stand for a decimal number, modulo 2^32 |
| PrintfLaws.Placed | source/kernel/klib.c:331-373 | the text of a directive is that of the bare one with the missing characters behind it after a dash, as zeroes between sign and digits after a zero but for %c and %s, and as spaces before it otherwise |
| PrintfLaws.PlainPrints | source/kernel/klib.c:319-330 | %s prints its string, and %c the character of the low byte of its argument, none for 0 |
| PrintfModel.DirectiveStep | source/kernel/klib.c:178-250 | the states lead from the percent sign to the conversion with the flags of the directive |
| PrintfModel.FormatPrints | source/kernel/klib.c:166-384 | every format built from literals, %% and directives prints what its parts say, one after the other |
| PrintfModel.Decompose | source/kernel/klib.c:166-384 | every format is built from such parts |
| PrintfModel.OverrunExactly | source/kernel/klib.c:174-382 | an argument is missing exactly when the arguments do not fit the conversions of the format; if they fit, the loop runs past the end of the format if and only if the format breaks off in a directive right behind %, %0 or %-0 |
| PrintfModel.MachineStatus | source/kernel/klib.c:174-382 | the same from every state of the loop on |
| Printf.ToDigits | source/kernel/klib.c:251-317 | fills the buffer from its end and stays inside it |
| Printf.Printer.EmitPad | source/kernel/klib.c:343-352 | pads up to the width |
| Printf.Printer.EmitPadded | source/kernel/klib.c:342-373 | padding, sign, string and padding in this order |
| Printf.PrintNumber | source/kernel/klib.c:273-341 | a numeric conversion puts the text of the number out |
| Printf.PrintPlain | source/kernel/klib.c:319-330 | %c and %s are never padded with zeroes |
| Printf.Convert | source/kernel/klib.c:250-377 | puts out what a conversion shows and takes its argument |
| Printf.Round | source/kernel/klib.c:174-382 | one round of the loop |
| Printf.DoPrintf | source/kernel/klib.c:166-384 | the loop is the machine whose formats are described above, and the result counts the characters |
| Fat12.EntryReads | source/kernel/vfs/fat12.c:606-619 | every 12-bit entry of a packed table reads back |
| Fat12.EntryLayout | source/kernel/vfs/fat12.c:606-619 | of three bytes x, y, z the even entry is x + 256 * (y mod 16) and the odd one y/16 + 16 * z |
| Fat12.PackedBytes | source/kernel/vfs/fat12.c:606-619 | the bytes of two entries in a packed table |
| Fat12.EntriesPack | source/kernel/vfs/fat12.c:606-619 | the entries determine the bytes of the table |
| Fat12.LongOfDos | source/kernel/vfs/fat12.c:511-591 | a name survives the way to a directory entry and back if and only if it has the 8.3 form or is "." or ".." |
| Fat12.DosOfLong | source/kernel/vfs/fat12.c:511-591 | an entry survives the way to a name and back if and only if it is padded and has no dot out of place |
| Fat12.NameLayout | source/kernel/vfs/fat12.c:542-591 | where each character of an entry comes from: the first eight before the first dot, the first three behind it from the ninth on, spaces elsewhere |
| Fat12.EntryName | source/kernel/vfs/fat12.c:511-528 | the name of an entry with any number of characters in its two fields |
| Fat12.DirectoryEntries | source/kernel/vfs/fat12.c:547-557 | the entries of "." and ".." |
| Fat12.DotFileLost | source/kernel/vfs/fat12.c:566-574 | a name that begins with a dot becomes an empty entry |
| Fat12.CopyWord | source/kernel/vfs/fat12.c:515-524 | copies a field up to its first space |
| Fat12.DosToC | source/kernel/vfs/fat12.c:511-528 | writes the name of an entry |
| Fat12.CopyField | source/kernel/vfs/fat12.c:576-590 | fills a field from a string |
| Fat12.FindDot | source/kernel/vfs/fat12.c:560-564 | the first dot of a name |
| Fat12.CToDos | source/kernel/vfs/fat12.c:542-591 | writes the entry of a name, and cuts the name of its caller at the first dot |

## Left out

- The trailer of a gzip file (CRC and length), which the C code does not check, the file handling of `main`, and the progress output.
- Input of 512 MB or more, where the 32-bit bit position of `io_t` wraps around.
- `Gzip.Deflate`: the C loop has no test for the end of the input; the model ends with `Fault` where that loop would go on reading beyond it. The bits of a lookahead beyond the end are arbitrary.
- `Gzip.InflateDynamic`: the C code ignores the result of the table reader and goes on with tables that are not set; the model ends with `Fault` there.
- `Paging.Machine.CloneDirectory`: `kmalloc` returns a fresh object at an arbitrary page-aligned physical address, so that a table of a clone could be taken for a table of the kernel only by such an address; the bitmap has `size` words, as its users assume.
- `Paging.Machine.AllocateVirtualMemory`: the directory is a parameter, and its tables are assumed not to be shared between slots; the processor's own use of the tables, CR3 and the page fault handler are not modelled.
- `Paging.Machine.AllocatePageframe`: frame numbers are below 2^20, so that an entry is a 32-bit word.
- `Scheduling.Scheduler.SysSignal`: signal numbers are below 32, the width of the bit field.
- `Scheduling.Scheduler.SysExit`: a task without parent and without pending signal exits while some other task is eligible; otherwise the search of the C code does not end (`UnlinkedSearchEnds`). What follows while an unlinked task is current is not part of the runs.
- `TaskRuns.RunAll`: the runs leave out a fork of the idle task alone at the last PID, after which two tasks have its PID (`IdlePidAgain`).
- `TaskModel.Decrement`: decrementing the least int, which C leaves undefined, wraps around.
- `Scheduling.Scheduler.SysFork`: the copy of the address space is `CloneDirectory`; kernel stacks and saved registers are not modelled.
- `Scheduling.Scheduler.Wakeup`: a zombie in a queue is made runnable, as in the C code; the memory of a task that has exited is still there.
- Context switches in assembly, task state segments, console output of the scheduler and the effect of interrupts inside a call: every call that runs with interrupts off is one step.
- `ForkRuns.CloneIsFork`: the tables of a clone do not lie where tables of the kernel do; a fork in `TaskRuns` and a fork of address spaces are runs of their own.
- `VfsTables.RunInv`: `mount_count` does not overflow; it would after 2^31 mounts of one file system.
- `Vfs.VirtualFileSystem.GetNode`: the drivers are functions from a node and a name to a node or nothing, and nodes carry only the fields that the walk looks at.
- `Printf.DoPrintf`: strings are shorter than 2^32 characters, and the argument list is a sequence of words and strings.
- `sys_umount`, `vfs_read`, `vfs_write` and the other calls that only pass their arguments on to a driver.
- `queue_destroy`, which always reaches the case in which `queue_remove` fails.
- `fat12_read`, directory search, ext2, IDE, floppy, console, keyboard, ELF loader, heap and boot code: hardware dialogue or easy members.
