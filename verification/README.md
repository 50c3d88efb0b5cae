# process-magic, verified model

process-magic stops another process with ptrace and works on it from outside: it injects system calls,
rewrites the process's memory, freezes and thaws whole address spaces, and changes what the process
writes while it writes it. This project models that code on an abstract AArch64 Linux process and proves
what the commands do to the process, for every process, every memory and every free choice of the kernel.

`dafny verify dfyconfig.toml` checks everything.

## How it is built

| file | what it models |
|---|---|
| `Words.dfy`, `Utf8.dfy` | bytes, 64-bit words and their little-endian layout; well-formed UTF-8 (section 4 of RFC 3629) |
| `ProcMaps.dfy` | `src/teleclient/myprocfs.rs`: reading `/proc/pid/maps` and `/proc/pid/cmdline` |
| `Tracee.dfy` | the process: registers, paged memory with permissions, descriptors, output; the system calls and the single step |
| `Ptrace.dfy` | the ptrace requests, as methods of a mutable `Process` |
| `Injection.dfy` | what one injected call does, finding the svc gadget, building and filling regions |
| `Controller.dfy` | `src/proctool/pcontroller.rs`: the class `ProcessController` |
| `Cryogenics.dfy` | `src/proctool/cryogenics.rs`: freeze and thaw |
| `Interposition.dfy`, `Colorization.dfy` | the `Rot13` and `ColorizeStderr` loops of `src/proctool/bin/daemon.rs` |
| `Rewinding.dfy` | what `Rewind` and `Takeover` build in memory, and what execve reads there |
| `Daemon.dfy` | the `Redirect`, `Rewind` and `Takeover` commands |
| `Spawn.dfy` | `src/teleserver/spawn.rs`: calls that undo themselves, emptying an address space |
| `Oblivion.dfy` | `animation3` of `examples/oblivion.c` |

The trusted part is `Tracee.dfy` and `Ptrace.dfy`. A `Machine` is a value; `Process` holds one and changes
it by ptrace requests. Everything the kernel or the process's own code may choose is a field of `Env`:
how long a call blocks, whether and where an `mmap` is placed, how much of a `write` is taken, what a path
opens or executes, the effect of every other call, the process's own instructions, what `/proc/pid/maps`
lists. No theorem fixes an `Env`, so each holds for all of them. Some name what they need of it in a
precondition, for example that a map list covers what is mapped.

The bodies of some definitions are hidden from the solver inside proofs that do not need them (`hide`);
this only takes facts away.

What the theorems ask for:

- Injection through the [vdso]: the first svc found there is aligned and executable. A misaligned match would fault.
- The program that is executed does not start at the address of the gadget its `execve` is made through.
- The simulations compare a run with the run of the same process and the same `Env` left alone. The process
  that `Rot13` is compared with is the one attached to. For `ColorizeStderr` it is that process with its call
  count one higher and in no wait (`Colorization.Untouched`), because mapping the region takes a call. In each
  turn of the run left alone, its own code must not use the injected region, its call must not name addresses
  there or be an `execve`, and each stderr text must be non-empty UTF-8 of at most 65527 bytes and be taken
  whole. What its code or calls would do in other states does not matter. `Rot13` needs none of this.
- Both loops rewrite what the call write puts out and nothing else. Output of other calls (writev, pwrite64,
  sendfile) comes out as it is; the theorems about logs say so.
- Output goes out of the model: no call reads it back. A process that reads the file or pipe it has written to
  can notice that its output was changed.
- `make_syscall`: `Fetchable` and mapped bytes at pc are cases of its contracts. The transparency theorem asks
  that the call does not block, and that it neither reads nor unmaps the eight bytes at pc; a call that is not
  spelled out must act no differently when svc stands there. Emptying the address space asks that its
  munmaps do not block.

Where a comment and the code disagree, the model follows the code: `parse_permissions` returns four flags
where its comment names three.

## What was found

Properties the code has only under a condition, with the exact condition proved:

- `animation3` does not end on every screen: it ends if and only if `rows + 2` is not a multiple of
  `2 * cols + 1`. On the other sizes the fronts meet head-on at the end of a row and pass each other. Where
  it ends, every cell of the picture is exact, but the message only stands whole with at least 2 rows and
  22 columns.
- `rot13` needs the seven bytes after the buffer to be mapped. If they are not, it stops with part of the
  buffer rotated and the command gives up, leaving it so.
- The stdout log under `Rot13` is the rot13 of the uninstrumented one if and only if all letters in that come
  from write. The stderr log under `ColorizeStderr` has every text coloured if and only if all come from write.
- `ColorizeStderr` always reports a complete write, and pokes a text that is too long for its 65536-byte region
  over what follows it. The process ends, to its own eyes, as after the plain write if and only if stderr is
  open for writing, the plain write would have been taken whole, and the padded text fits the region (as texts
  of at most 65527 bytes do) or runs over bytes that are the same.
- `thaw` succeeds exactly when it gets its gadget page. A region is restored if and only if the `mmap` of its
  own turn is not refused; a refused one is left a hole, since the code looks for -1 where the raw call returns
  a negated errno. If a saved region lies over the gadget page, the next injected call never returns.
- `Rewind` writes no null pointer after the argument array. The new program gets exactly the arguments of the
  command line if and only if the word right after the array can be read and is zero. That is so whenever
  their number is not a multiple of 512. At a multiple of 512 the array fills its pages, and for every process
  with room for it the kernel can place the mappings so that execve faults.
- `Redirect` moves exactly descriptors 1 and 2 to the terminal if and only if descriptor 0 is open.
- `unmap_existing_memory`, where a call can be made at pc at all, keeps the registers and leaves exactly the
  regions it skips if and only if no region that is to go lies over the two instructions at pc. One does if
  and only if pc stands on the last instruction of its region and the next region is to go. Then that region's
  munmap is the last call made.

## Model

| member | source | states |
|---|---|---|
| ProcMaps.ParseMapLineOfPrint | src/teleclient/myprocfs.rs:98-117 | for every region, padding width and layout, parsing a printed maps line, with any white space after it, gives back base, size, permissions and name |
| ProcMaps.BlanksIgnored | src/teleclient/myprocfs.rs:108-110 | a line with its newline, or other blanks, after it is read as the line without them |
| ProcMaps.LineText | src/teleclient/myprocfs.rs:98-105 | the text of a printed line, field by field |
| ProcMaps.PermissionLetters | src/teleclient/myprocfs.rs:130-146 | each of the four permission letters is read on its own |
| ProcMaps.ParseHexOfText | src/teleclient/myprocfs.rs:122-125 | reading a hexadecimal number undoes printing it, with any zero padding, for every 64-bit value |
| ProcMaps.ParseHexIff | src/teleclient/myprocfs.rs:122-125 | a number is read exactly from one or more hexadecimal digits, with or without a plus sign, whose value fits in 64 bits |
| ProcMaps.DigitsAre | src/teleclient/myprocfs.rs:122-125 | the sixteen digits, of either case, have their values |
| ProcMaps.HexStep | src/teleclient/myprocfs.rs:122-125 | one more digit makes the value sixteen times as large and adds its own |
| ProcMaps.ParseByteRangeOfTexts | src/teleclient/myprocfs.rs:120-127 | "start-end" gives the base and the difference of the two; an end before the start panics |
| ProcMaps.NoDashNoRange | src/teleclient/myprocfs.rs:120-127 | a number without a dash after it panics |
| ProcMaps.TooFewFields | src/teleclient/myprocfs.rs:98-102 | a line with fewer than five blanks in it panics |
| ProcMaps.ParseFieldsOfPrint | src/teleclient/myprocfs.rs:101-145 | six split fields give the region; the name loses its padding and the four permission letters are read one by one |
| ProcMaps.SplitNOfJoin | src/teleclient/myprocfs.rs:99 | splitting at the first separators gives back fields that hold none, and the rest whole |
| ProcMaps.ReadOfPrint | src/teleclient/myprocfs.rs:43-54 | a whole printed file reads as the list it was printed from, in order |
| ProcMaps.ReadLines | src/teleclient/myprocfs.rs:43-54 | the reading loop gives the parsed lines in order, or the first line's failure |
| ProcMaps.FirstFailureCounts | src/teleclient/myprocfs.rs:48-51 | the first line that cannot be parsed fails the whole file |
| ProcMaps.GetCommandLine | src/teleclient/myprocfs.rs:28-40 | the index loop computes the split of the buffer after every NUL |
| ProcMaps.SplitGivesArguments | src/teleclient/myprocfs.rs:32-38 | every argument ends in its only NUL |
| ProcMaps.SplitThenJoin | src/teleclient/myprocfs.rs:28-40 | the arguments joined, then the NUL-free remainder, are the buffer |
| ProcMaps.JoinThenSplit | src/teleclient/myprocfs.rs:28-40 | splitting the join of any arguments gives those arguments and the remainder |
| Tracee.CallCompletesOnce | src/proctool/pcontroller.rs:90-98 | single-stepping at an svc changes nothing while the call blocks, and then performs it exactly once |
| Tracee.LostCodeHangs | src/proctool/pcontroller.rs:90-98 | where no instruction can be fetched, no number of steps changes the process |
| Injection.CallKeepsRegisters | src/proctool/pcontroller.rs:108-134 | an injected call leaves pc just past the svc and every register as it was but x8, the arguments and the result |
| Injection.InjectedCallMoves | src/proctool/pcontroller.rs:129-134 | the first step count at which pc moves exists, and there the process is the one after the call |
| Injection.ScanSvcIsFirst | src/proctool/pcontroller.rs:591-601 | the scan gives the first offset with the four svc bytes, or there is none |
| Injection.FindSvcIsFirst | src/proctool/pcontroller.rs:136-146 | the gadget found is the first svc in the first region named [vdso] |
| Injection.FindSvcIff | src/proctool/pcontroller.rs:136-146 | whatever stands before it in the list, the first region named [vdso] decides: a gadget is found exactly when it can be read and holds the four svc bytes |
| Injection.FindSvcInMapIff | src/proctool/pcontroller.rs:579-602 | in one region, the first place where the four bytes stand |
| Injection.GadgetLiveExtends | src/proctool/pcontroller.rs:534-547 | a map list read once still finds the same live svc in every memory that extends the one it was read from |
| Injection.CachedMapsStaySafe | src/proctool/pcontroller.rs:534-547 | over any sequence of mappings, closes, opens and injected blocks, as `MapRegion`, `CloseStandardStreams`, `OpenTwice` and `InjectBytes` make them, the list read once keeps leading to the same executable svc |
| Injection.AboveEverything | src/proctool/pcontroller.rs:284-289 | whatever the order of the list, nothing is mapped from the highest end on, and the chosen address is page-aligned, mappable and exactly 4096 bytes above that end |
| Injection.SvcPageOutcome | src/proctool/pcontroller.rs:289-325 | the chosen page can be written exactly when it fits below the end of user space and its mmap is not refused; filled, it is a gadget page |
| Injection.PatternIsGadget | src/proctool/pcontroller.rs:309-312 | 4096 bytes of the repeated svc word make every aligned address of the page an executable svc |
| Injection.RegionFilled | src/proctool/pcontroller.rs:419-464 | mapped writable, written and protected, a hole is the saved region, and the gadget page beside it survives |
| Injection.BlockOutcome | src/proctool/pcontroller.rs:477-505 | mapping and writing a block of data adds that block alone, where nothing was, exactly when the kernel grants it |
| Injection.Rot13Step | src/proctool/pcontroller.rs:215-223 | one read-modify-write of a word rotates one more byte of the buffer and leaves the seven after it |
| Injection.Rot13ByteIs | src/proctool/pcontroller.rs:604-616 | with both alphabets written out, the k-th letter becomes the one at (k + 13) % 26 of the same case, and no other byte changes |
| Injection.Rot13MemRotates | src/proctool/pcontroller.rs:214-225 | a rotated range of memory is that, byte by byte, and the rest of memory is as it was |
| Injection.Rot13MemTwice | src/proctool/pcontroller.rs:608-616 | rotating a range of memory twice changes nothing |
| Controller.ProcessController.GetMemoryMaps | src/proctool/pcontroller.rs:534-547 | the list is read at the first use and never again |
| Controller.ProcessController.FindSvcInstruction | src/proctool/pcontroller.rs:136-146 | a gadget is found exactly when some region is named [vdso] and the first of them can be read and holds the four svc bytes; the failure is that there is no [vdso] exactly when no region has that name |
| Controller.FindSvcInstructionInMap | src/proctool/pcontroller.rs:579-602 | reading and scanning one region finds its first svc, with each failure of the source |
| Controller.ProcessController.PrepareSyscallAtPc | src/proctool/pcontroller.rs:108-120 | the number goes to x8, the arguments to x0 on, pc to the gadget, and nothing else changes |
| Controller.ProcessController.PrepareSyscall | src/proctool/pcontroller.rs:103-106 | the same at the gadget found, or nothing when none is |
| Controller.ProcessController.EnsureNotInSyscall | src/proctool/pcontroller.rs:75-101 | the loop ends exactly at the first step at which pc has moved |
| Controller.ProcessController.ExecuteSyscallAtPc | src/proctool/pcontroller.rs:129-134 | however long it blocks, the call is performed exactly once and its x0 returned |
| Controller.ProcessController.ExecuteSyscall | src/proctool/pcontroller.rs:122-127 | the same through the [vdso] gadget; without one the process is untouched |
| Controller.ProcessController.MapRegion | src/proctool/pcontroller.rs:269-281 | one anonymous mmap with every permission anywhere, and its raw result |
| Controller.ProcessController.MapSvcRegion | src/proctool/pcontroller.rs:283-326 | succeeds exactly when a gadget is found, the page above all regions fits and its mmap is not refused; then the page 4096 bytes above the highest end alone is added, and is a gadget page |
| Controller.ProcessController.MapAndFillRegion | src/proctool/pcontroller.rs:389-467 | the region is restored exactly when its mmap is granted and is a hole otherwise; all else and the gadget page stay; which of the two the result shows |
| Controller.Permissions | src/proctool/pcontroller.rs:400-425 | bit 1 is set exactly for a readable region, 2 for a writable and 4 for an executable one, and the second value adds 2 alone |
| Controller.ProcessController.InjectBytesAtAddr | src/proctool/pcontroller.rs:477-489 | writes exactly the bytes, or fails and writes nothing |
| Controller.ProcessController.InjectBytes | src/proctool/pcontroller.rs:491-505 | adds one fresh, zero-filled mapping that starts with the bytes, exactly when the kernel grants it; keeps the cached gadget live |
| Controller.ProcessController.InjectU64s | src/proctool/pcontroller.rs:507-513 | the same with the little-endian bytes of the words |
| Controller.ProcessController.Rot13 | src/proctool/pcontroller.rs:214-225 | each byte of the buffer becomes its rot13 and nothing else changes, exactly when every word read is mapped; otherwise the bytes before the first unmapped word |
| Controller.ProcessController.ReadText | src/proctool/pcontroller.rs:254-267 | succeeds exactly on a non-empty, readable, well-formed UTF-8 text |
| Utf8.ValidIff | src/proctool/pcontroller.rs:266 | bytes are accepted exactly when they are the encoding of some sequence of Unicode scalar values |
| Controller.ProcessController.ColorizeStderr | src/proctool/pcontroller.rs:227-252 | x1 and x2 name a copy of the text between ESC[31m and ESC[0m in the region, exactly when the text can be read and the words are mapped; otherwise nothing has changed, or the copy is in memory up to the first unmapped word |
| Controller.ProcessController.PokeAll | src/proctool/pcontroller.rs:239-245 | poking words one after the other stores all the bytes exactly when all are mapped, and else those before the first unmapped word |
| Controller.ProcessController.Drop | src/proctool/pcontroller.rs:550-556 | a process still traced is let go unless the controller says otherwise |
| Cryogenics.PopulateMemory | src/teleclient/myprocfs.rs:56-96 | fills in place the data of exactly the readable regions other than [vvar] whose read succeeds |
| Cryogenics.Freeze | src/proctool/cryogenics.rs:21-38 | the state has the registers of the stop and every listed region populated; the process is left stopped |
| Cryogenics.Thaw | src/proctool/cryogenics.rs:40-90 | when it succeeds; then saved registers, every saved region exact in bytes and zeros and readable, writable and executable as its letters say, unless the mmap of its own turn was refused, and then a hole; everything elsewhere unchanged but for the gadget page; the child let go in every case |
| Cryogenics.FreezeThenThaw | src/proctool/cryogenics.rs:21-90 | round trip, with the exact condition for success: registers, and each region's permissions and captured bytes, or a hole exactly where its mmap was refused; with none refused, every mapped address is back |
| Cryogenics.NextTurn | src/proctool/cryogenics.rs:52-69 | each turn of the loop settles its region by the answer to its own mmap, and keeps the earlier ones and everything outside |
| Cryogenics.InjectionMovesIffApart | src/proctool/pcontroller.rs:394-430 | after a region's munmap the next injected call ever returns if and only if the region lies apart from the gadget page |
| Cryogenics.RestoredIsCopied | src/proctool/cryogenics.rs:27-37 | a region restored from its populated map is the original region, zeros where it was not captured |
| Cryogenics.RegionUse | src/proctool/pcontroller.rs:400-411 | what the process can read, write and fetch in a restored region is what the region's letters say |
| Interposition.Rot13Write | src/proctool/bin/daemon.rs:279-282 | rotating, writing and rotating back differs from the plain write in the output alone |
| Interposition.OutputIsNotSeen | src/proctool/bin/daemon.rs:279-285 | no call of the model acts differently because of what the process has put out before |
| Interposition.Rot13Simulates | src/proctool/bin/daemon.rs:272-288 | after any number of calls the instrumented process equals the uninstrumented one in registers, memory and descriptors, and its output is the same but for what write put out on stdout, which is rotated |
| Interposition.Rot13Logs | src/proctool/bin/daemon.rs:266-291 | call by call, what write put out on descriptor 1 is, letter for letter, thirteen places on, and all other output is the same; the stdout log is the rot13 of the whole uninstrumented log if and only if all letters in that come from write |
| Interposition.Rot13OfLogIff | src/proctool/pcontroller.rs:190-200 | a log rotated where write put it out is the rot13 of the whole log if and only if all letters in it come from write |
| Interposition.Rot13Body | src/proctool/bin/daemon.rs:279-285 | from enter-stop to exit-stop, recognising a pending stdout write and its buffer: one turn of the specification, exactly when the write can be rotated |
| Interposition.Rot13Command | src/proctool/bin/daemon.rs:266-291 | it runs to the end exactly when every stdout write can be rotated, and then leaves the process where it would have been, with what write put out on descriptor 1 thirteen letters on; otherwise it gives up with one write half rotated and nothing else changed |
| Colorization.PoliteCommutes | src/proctool/bin/daemon.rs:256-258 | a call that does not name the region acts on this process as if the region were not there and leaves it alone |
| Colorization.ReadIsPolite | src/proctool/bin/daemon.rs:256-258 | a call that stores into a buffer, as read does, is one of these wherever its buffer lies outside the region |
| Colorization.ColorWrite | src/proctool/bin/daemon.rs:247-255 | a coloured write leaves registers and visible memory as the plain write does; only the output is coloured |
| Colorization.ColorSimulates | src/proctool/bin/daemon.rs:240-261 | after any number of turns in which the process left alone does not use the region, the instrumented process, without its region, equals it, and its output is the same but for what write put out on stderr, which is coloured |
| Colorization.ColorLogs | src/proctool/bin/daemon.rs:230-265 | a simulated run has every text that write puts out on descriptor 2 between the bytes 1b 5b 33 31 6d and 1b 5b 30 6d, in order, and all other output unchanged; the stderr log has every text between them if and only if all come from write |
| Colorization.RedOfLogIff | src/proctool/pcontroller.rs:203-212 | a log coloured where write put it out has all its texts coloured if and only if they all come from write |
| Colorization.UnnoticedIff | src/proctool/bin/daemon.rs:247-255 | the process ends, to its own eyes, as after the plain write if and only if stderr is open for writing, the write would be taken whole, and the padded text fits the region or runs over bytes that are the same |
| Colorization.MemoryUnnoticedIff | src/proctool/pcontroller.rs:227-245 | the process finds its own memory as after the plain write if and only if the padded text fits the region, or what runs past it stood there already |
| Colorization.WholeTextOutIff | src/proctool/bin/daemon.rs:247-251 | the bytes put out are the whole text between the two escapes if and only if stderr is open for writing and the kernel takes all of it |
| Colorization.StartIsHidden | src/proctool/bin/daemon.rs:236-238 | 65536 readable and writable bytes are mapped where nothing was, and with the registers put back the process sees no change |
| Colorization.GoodCallsCanBeColored | src/proctool/bin/daemon.rs:240-261 | if the process left alone does not use the region in any of its turns, every stderr write of the instrumented run can be coloured |
| Colorization.GoodRun | src/proctool/bin/daemon.rs:230-265 | from the process before the command: a granted region that the process left alone does not use gives a run that colours all it meets and is simulated by the process left alone |
| Colorization.ColorBody | src/proctool/bin/daemon.rs:247-258 | from enter-stop to exit-stop, recognising a pending stderr write and its buffer: one turn of the specification, exactly when the text can be coloured; otherwise what the failure leaves |
| Colorization.ColorizeCommand | src/proctool/bin/daemon.rs:230-265 | runs to the end exactly when a gadget is found and every stderr write can be coloured; it does so, simulated and with the coloured log, whenever the region is granted and the process left alone does not use it; otherwise it gives up with one write half coloured |
| Rewinding.ReadStringAt | src/proctool/bin/daemon.rs:187-191 | an injected argument reads back as its bytes without the NUL |
| Rewinding.ReadPointersAt | src/proctool/bin/daemon.rs:192 | a terminated array of addresses reads back as those addresses |
| Rewinding.ArrayReadsBackIff | src/proctool/bin/daemon.rs:192 | wherever an array of addresses stands, it reads back as those addresses if and only if the word right after it can be read and is zero |
| Rewinding.VectorsReadBack | src/proctool/bin/daemon.rs:185-198 | in the finished structure execve reads the path, the arguments and then whatever vector follows their array, and an empty environment; nothing follows it when their number is no multiple of 512 |
| Rewinding.ArgumentsExactIff | src/proctool/bin/daemon.rs:185-198 | execve finds exactly the arguments if and only if the word right after their array can be read and is zero |
| Rewinding.BlocksStand | src/proctool/bin/daemon.rs:187-193 | blocks injected one after the other all stand where they were placed, and what was mapped before is unchanged |
| Rewinding.FullPagesFault | src/proctool/bin/daemon.rs:192-198 | for every process and every multiple of 512 arguments there is room for, the kernel can grant every mapping and execve still faults on the array |
| Rewinding.TakeoverReadsBack | src/proctool/pcontroller.rs:564-566 | in the memory the takeover builds, execve reads the path and an empty vector |
| Daemon.InjectArguments | src/proctool/bin/daemon.rs:187-191 | every argument stands where the kernel placed it, exactly when all are granted |
| Daemon.InjectCommand | src/proctool/bin/daemon.rs:187-193 | the whole structure is added to memory, exactly when a gadget is found and every block is granted; so an empty command line fails |
| Daemon.RewindStopped | src/proctool/bin/daemon.rs:185-198 | exact condition for success; then execve gets the arguments of the command line and whatever vector follows their array (none when their number is no multiple of 512) and an empty environment, or faults and the old program stays; on failure after a gadget was found the process stands just past it |
| Daemon.Rewind | src/proctool/bin/daemon.rs:175-200 | the same for the whole command, from the running process to the running program |
| Daemon.Takeover | src/proctool/pcontroller.rs:558-577 | exact condition for success; then the program is executed with no arguments and no environment, or, with pause, the process is left stopped on that call; on failure after a gadget was found the process stands just past it |
| Daemon.RedirectsIffStdinOpen | src/proctool/bin/daemon.rs:150-170 | reopening gives exactly descriptors 1 and 2 the terminal, for writing, if and only if 0 is open; otherwise 0 and 1 |
| Daemon.WritesReach | src/proctool/bin/daemon.rs:163-170 | what is written to a descriptor left so goes to the terminal's file |
| Daemon.CloseStandardStreams | src/proctool/bin/daemon.rs:150-151 | closes 1 and 2 and changes nothing else but registers, exactly when a gadget is found |
| Daemon.OpenTwice | src/proctool/bin/daemon.rs:163-170 | opens the path twice on the lowest free descriptors, or not at all |
| Daemon.Redirect | src/proctool/bin/daemon.rs:141-174 | exact condition for success; then registers restored, memory with one new mapping, and exactly which descriptors are where, those on the terminal for writing; on failure nothing has changed if no gadget was found, and otherwise both streams are left closed and the process stands just past the gadget |
| Spawn.MakeSyscall | src/teleserver/spawn.rs:150-190 | on success, the state after one step with the registers and the eight borrowed bytes put back; when it fails and with what left behind; for a call beside those bytes, it returns the call's result and leaves its effect on the process with the registers as they were |
| Spawn.MakeSyscallTransparent | src/teleserver/spawn.rs:150-190 | a call beside the borrowed bytes, whichever it is but execve, leaves exactly the memory, result, descriptors and output that it would leave on the unpatched process |
| Spawn.BesidePatched | src/teleserver/spawn.rs:166-178 | munmap, mmap, mprotect, close, openat, write and any call blind to the patch act on the patched memory as on the original, and keep the bytes at pc |
| Spawn.PerformedIffNotBlocked | src/teleserver/spawn.rs:174-187 | the single step performs the call if and only if it does not block |
| Spawn.UnmapOne | src/teleserver/spawn.rs:136-148 | nothing happens where no call can be made at pc; a region beside the borrowed bytes goes, alone; one over them goes, and registers and bytes are lost |
| Spawn.UnmapExistingMemory | src/teleserver/spawn.rs:102-134 | exactly the region with pc and those of 2097152 bytes are left, with their bytes, and the registers unchanged, if no region that is to go lies over the two borrowed instructions; if one does, how far the loop gets; if none can be borrowed, nothing changes |
| Spawn.OthersApart | src/teleserver/spawn.rs:110-126 | when the eight bytes at pc lie in one region, no region that is to go lies over them |
| Spawn.GoneOverIff | src/teleserver/spawn.rs:110-126 | a region that is to go lies over the borrowed bytes if and only if one starts at the instruction after pc |
| Spawn.GoneOverHappens | src/teleserver/spawn.rs:110-126 | with pc on the last instruction of the first of two pages side by side, listed as two regions, that is so |
| Oblivion.EndsExactlyUnlessPassing | examples/oblivion.c:216-247 | the loop ends if and only if rows + 2 is not a multiple of 2 * cols + 1 |
| Oblivion.BelowFirstPassingHeight | examples/oblivion.c:216-247 | it ends on every screen lower than 2 * cols - 1 rows, and not at that height |
| Oblivion.PassingSizeMeetsHeadOn | examples/oblivion.c:216-241 | on the other sizes both fronts stand in the last column of one row at the same turn |
| Oblivion.FrontsNeverPass | examples/oblivion.c:216-241 | where it ends, the forward front never gets a row ahead before they cross |
| Oblivion.TurnFacts | examples/oblivion.c:216-247 | bounds on both cursors and on the number of turns, and the backward front below the message row |
| Oblivion.Sweep | examples/oblivion.c:206-247 | for any message the loop ends with every cell of the screen as in the picture, the message in the middle |
| Oblivion.Animation3 | examples/oblivion.c:202-247 | the final screen is the 20-character message and asterisks elsewhere; there are as many rows below the message as down to it or one more, and two or three cells more to its right than to its left |
| Oblivion.WholeMessageShows | examples/oblivion.c:212-215 | the message is whole on the screen exactly with at least 2 rows and 22 columns |
| Oblivion.MessageInTheMiddle | examples/oblivion.c:214-215 | the message is put at the one place in the middle of the screen |

## Left out

- Signals, other threads, PTRACE_SYSCALL stops other than call entries and exits, and a real process table: the loops see syscall-stops only.
- Partial transfers of `process_vm_readv` and `process_vm_writev`: a transfer is whole or fails. Single calls to `write` may be partial.
- The value the kernel shows in x7 at call entries and exits; it is put back when the process resumes.
- ptrace pokes into shared read-only mappings, MAP_FIXED and file mappings; calls outside the ones named act as `Env.other` says.
- Errors of ptrace requests on a process in a trace-stop, and of `/proc` files that cannot be opened.
- The text of `/proc/pid/maps` is tied to map lists by the round trip in `ProcMaps.dfy`; the controller takes the list itself from `Env.maps`.
- Serialisation of the frozen state to JSON is taken as the identity; fork, terminal clearing and waiting for the child are not part of the model.
- `cancel_pending_read`, `write_to_stdin`, `normalize_tty`, `spawn_on_terminal` and `terminals.rs`: terminal ioctls. `Redirect` starts after them.
- `unmap_existing_regions`: it passes an end address where munmap takes a length.
- `initialize_process`, `set_registers`, `write_memory_map` and `map_page_in_child` of `spawn.rs`: they set pc before its page exists and turn private mappings into shared ones, so no restore property holds.
- `procinfo.rs`, the client, daemon start-up, the HTTP server, `Pause`, `Resume`, `Spawn` and `WriteStdin`, the other animations: plumbing that would add only easy members.
- Overflow of the C `int` turn counter of `animation3`: integers are unbounded; `Oblivion.TurnFacts` bounds it by `(rows + 1) * (cols + 1)`.
- Cursor addressing beyond clamping to the screen, and scrolling.
- Interposition.OutputIsNotSeen: holds of every `Env` because `Env.other` is not given what was put out; reading it back is left out.
- Spawn.MakeSyscallTransparent: leaves execve out; a successful one leaves no bytes at pc to put back. Strings and buffers that run into the eight bytes at pc are left out as well: the call would see the svc there.
- Cryogenics.FreezeThenThaw: says nothing of the bytes in regions that could not be captured except that the copy has zeros there, as the code does.
