# Verified model of the kernel and its programs

A Dafny model of a small teaching kernel (three text terminals, six process slots, a read-only
file system) and of four programs that run on it: `grep`, `cat`, the blinking-character display of
`fish`, and the system-call emulator. Each C or assembly routine that changes state is a method
over the same tables, buffers and pages, proved against a functional specification; the properties
of whole runs are lemmas about those specifications, and drivers (`Play` in Kernels, ConsoleRuns and
BlinkRuns) carry them over to the tables, buffers and pages. `dafny verify dfyconfig.toml` checks all of it.

| module | what it holds |
|---|---|
| Bytes, Arithmetic | C strings, `strncmp`, 32-bit words; quotients and remainders |
| Machine, Sequences | sizes that modules share; stock facts about sequences |
| Files, FileTables | the file-system image as flat files and as a directory, `read_data`, descriptors and reads, `cat` |
| Grep, GrepDirectory | the chunked scanner of `grep` against a filter on the lines of the whole file; its walk over the directory |
| Screens | one screen on its own: a 25-row window of an unbounded log; typing on it |
| Displays | three screens on one video page and three save pages; the video page table |
| Keymap, Consoles, Keyboards | modifier automaton; a console as three private terminals; the keyboard interrupt and `terminal_read` |
| ConsoleRuns, TerminalInput | runs of scancodes, writes, reads and scheduling on the buffers and pages; a program's read of descriptor 0 |
| BlinkTimers, Blinks, BlinkRuns | one countdown; the linked list in the static pool; whole runs of calls |
| Numerals | `itoa`, `strrev`, `%#x` |
| Commands, Emulator | `parse_command` and `sys_getargs`; the emulator's argv split and join |
| Processes, ProcessCounts, ProcessRuns | three call stacks in six slots as an abstract machine; its counters; its runs |
| ProcessSteps | each of its steps in full; terminals taking turns and failed checks over runs |
| Arguments | which command of a run the kernel's shared buffers hold |
| Kernels | the kernel's tables and buffers that implement the machine, and drivers over its calls |
| RefusedShells | the timer interrupt on tables and screens together |

## Assumptions

- `sys_execute`, `sys_halt`, `context_switch`, a scancode and a `terminal_write` are single steps,
  although system calls run with interrupts on.
- A blocked `terminal_read` is a read that is not enabled until `enter_flag` is set.
- An image is a byte sequence whose boot block, inodes and block numbers are in range. `read_data`
  is specified for images with 64 inodes, see `FixedBlockBase`.
- Commands are NUL-free. The memory behind the argument buffer is part of the model, with any
  contents and any size that an argument or a count needs, and holds nothing else of the kernel.
- What an uninitialised stack buffer holds when `executable_check` reads a file shorter than four
  bytes is a parameter (`junk`); so is the byte behind `grep`'s buffer, which must not be a newline.
- Where a lemma or method says nothing after an undefined step (an execute without a free slot, a
  halt into a null parent), the C code goes on with an uninitialised or null value there.

## Where the code departs from what it is for

- A failed executable check takes one from `num_process_executing` before anything was added
  (`kernel_code/syscall.c:177` against `kernel_code/syscall.c:279`). The limit test then lets an
  execute through with no free slot. `LimitTestExact` says exactly when, `LimitTestMissed` gives a
  run; a timer interrupt that starts a shell gets there too (`StepUndefinedExact`, `TimerWithoutSlot`).
- The same counter can refuse a halting root shell its replacement: exactly at counter 7
  (`RootRelaunch`), which 2^32 - 6 failed checks reach (`RelaunchMissed`).
- A first switch to a terminal whose shell is refused resets `displayed_terminal` without moving video
  memory (`kernel_code/scheduling.c:76-78`). `SwitchOutcomes` says exactly when it is refused,
  `TimerInterrupt` with `MovedExact` exactly when that changes a screen, and `WrittenAndGone` is an
  execution after which a program's output is gone from the terminal it was written to.
- `fname`, `arg` and `arg_length` are shared by all processes (`kernel_code/syscall.c:24-26`):
  `PlayGetargs` says exactly when a program is handed its own argument after any run of calls, and
  `LoseArgument` is an execution in which it is not.
- `sys_getargs` compares its count unsigned and copies as many bytes as asked for
  (`kernel_code/syscall.c:505-511`): a negative count succeeds and copies nothing, and the string of a
  128-byte argument runs on behind the buffer unless a NUL lies there (`ReceivedExact`, `FullArgumentRunsOn`).
- A name without a separator makes `parse_command` clear the byte before the argument buffer
  (`kernel_code/syscall.c:145`), and an argument over 128 bytes runs over its end: `ParseCommand` states both.
- The pattern's first byte is compared as a signed char with an unsigned one
  (`syscalls/ece391grep.c:43`), so a pattern that starts at or above 0x80 matches nothing:
  `ExactForAsciiPatterns`, `HighPatternMissed`.
- The emulator's `getargs` writes a NUL behind the count exactly when some of the arguments, joined,
  fill it (`syscalls/ece391emulate.c:141-149`): `GetArgs` with `Overruns`, `OverrunExample`.
- Location 0 marks a free pool slot (`fish/fish.c:164`) but `mp1_ioctl_add` accepts it:
  `AddKeepsList`, `LocationZeroTwice`.
- The redraw of `mp1_ioctl_sync` always shows the off character (`fish/blink.S:281-282`): `SyncRedraw`,
  and over whole runs `RunShows`.
- A blink length of 0 or above 0x8000 runs out at once, because the countdown is tested as signed: `NominalExactly`.
- Ctrl-L puts the cursor at the origin and keeps the line buffer (`kernel_code/keyboard.c:113`), so
  the next backspace changes the line and not the screen: `LostErase`.
- Data blocks are looked for behind 64 inodes whatever the boot block says (`kernel_code/file.c:99`): `FixedBlockBase`.
- `dir_read` does not look at the number of entries (`kernel_code/file.c:208-214`): behind a full
  directory of 63 it takes the length field of inode 0 for a name (`ListedExact`).
- Caps Lock pressed in the caps-and-shift mode with control held drops the shift part of `mode`
  (`kernel_code/keyboard.c:127-143`); `StepsOut` says exactly which codes put `mode` out of step with
  SHIFT and `CapsDropsShift` gives a run. No typed character shows it, since keys are stored with
  control up only, and then the two agree (`ModifiersAfter`).
- Scrolling moves characters and leaves attributes alone (`kernel_code/lib.c:252-264`); since every
  attribute is the same, `Scroll` keeps the page painted.

## Model

| member | source | states |
|---|---|---|
| Processes.StacksApart | kernel_code/syscall.c:310 | PCBs and 8KB kernel stacks of different slots do not overlap, in the top 48KB below 8MB, and esp0 identifies the slot whose stack it is in |
| Processes.FramesApart | kernel_code/paging.c:56-60 | the 4MB program frames of two slots do not overlap, between 8MB and 32MB, so what page-directory entry 32 maps identifies the slot |
| Processes.LowestFree | kernel_code/syscall.c:271-278 | the slot search yields the first slot that no process has, or 6 when every slot is taken |
| ProcessCounts.UsedIsTotal | kernel_code/syscall.c:271-280 | the used slots are as many as the three per-terminal counters add up to, and at most six |
| ProcessCounts.FreeSlotExists | kernel_code/syscall.c:271-278 | the slot search fails exactly when six processes are alive |
| ProcessCounts.LimitTestExact | kernel_code/syscall.c:234-278 | the limit test fails to guard the slot search exactly when six processes are alive, the file is executable and the failed checks are not a multiple of 2^32; with none, it refuses exactly at six processes |
| ProcessCounts.RootRelaunch | kernel_code/syscall.c:60-62 | a halting root shell is replaced exactly when shell is executable and the counter is not 7; with no failed checks it never is 7 |
| ProcessCounts.SwitchOutcomes | kernel_code/scheduling.c:70-78 | a switch to a terminal without processes fails exactly when the counter is 6 or shell is no executable, and goes on without a slot exactly when six processes are alive, the counter hides it and shell is executable |
| ProcessRuns.StepKeeps | kernel_code/syscall.c:228-346 | every execute, halt and timer step that stays within defined behaviour keeps the chains disjoint and duplicate-free, every child's saved esp0 in its parent's stack, and esp0 at the top of the running process's stack or 4 below |
| ProcessRuns.StepUndefinedExact | kernel_code/syscall.c:60-67 | which steps leave defined behaviour: for each event the exact condition on processes, counter and file, known before the call |
| ProcessRuns.RunKeeps | kernel_code/scheduling.c:44-103 | in every run of defined steps every state keeps that invariant |
| ProcessRuns.HaltUndoesExecute | kernel_code/syscall.c:50-80 | a program that halts at once restores chains, esp0 and the process counter that its execute found |
| ProcessRuns.MatchingHaltRestores | kernel_code/syscall.c:66-80 | whatever runs in between, on this terminal above the program and on the others, the event that takes the terminal back down is a halt on it, and it restores the chain and the esp0 that the matching execute found |
| ProcessRuns.DownIsHalt | kernel_code/syscall.c:50-53 | only a halt shortens a terminal's stack, by one frame |
| ProcessRuns.StepCounts | kernel_code/syscall.c:174-192 | every defined step keeps num_process_executing at the used slots less the failed executable checks, in 32 bits |
| ProcessRuns.RunCounts | kernel_code/syscall.c:234 | that holds in every state of every run, with at most six processes |
| ProcessRuns.LaunchesFill | kernel_code/syscall.c:271-346 | from boot, each of six executes in a row finds a slot and keeps the invariant |
| ProcessRuns.LimitTestMissed | kernel_code/syscall.c:177 | five executes, one of a file that is no executable and one more execute lead to a state whose next execute finds no slot |
| ProcessRuns.TimerWithoutSlot | kernel_code/scheduling.c:70-75 | in that state the next timer interrupt is undefined too: it starts a shell without a slot |
| ProcessRuns.ShellRefusedWhenFull | kernel_code/scheduling.c:76-78 | six processes on terminal 0: the switch to terminal 1 fails |
| ProcessRuns.RelaunchMissed | kernel_code/syscall.c:60-62 | one shell and 2^32 - 6 failed checks: its halt finds no replacement although shell is executable |
| ProcessSteps.ExecuteExact | kernel_code/syscall.c:228-346 | for every command: which of the five answers an execute gives, by counter, file and number of processes; a launch adds one process in the lowest free slot on the running terminal, with esp0 at the top of its stack; every other answer leaves chains, running terminal and esp0 alone; only a launch counts up and only a file that is found and is no executable counts down |
| ProcessSteps.HaltExact | kernel_code/syscall.c:35-101 | a halt takes the top process off and restores its saved esp0; the last one of a terminal is replaced by one new process in the lowest slot then free, exactly when shell is executable and the counter is not 7 |
| ProcessSteps.SwitchExact | kernel_code/scheduling.c:70-89 | a switch to a terminal with a process runs it, 4 below the top of its stack; to one without, a new shell runs there, and a refused one leaves the same process running |
| ProcessSteps.TimerExact | kernel_code/scheduling.c:28-35 | with a process on terminal 0, a timer interrupt is such a switch to the next of the three terminals in turn, undefined exactly when the shell finds no slot |
| ProcessSteps.StepKeepsAlive | kernel_code/syscall.c:60-62 | no defined step leaves a terminal without a process that had one |
| ProcessSteps.RunRotates | kernel_code/scheduling.c:28-35 | in every run that starts with a process on every terminal, the running terminal is the first one plus the number of timer interrupts, modulo 3, whatever is executed and halted in between |
| ProcessSteps.EveryTerminalRuns | kernel_code/scheduling.c:28-35 | such a run has run every terminal by its second timer interrupt |
| ProcessSteps.ThreeShells | kernel_code/scheduling.c:70-89 | from boot with an executable shell, two timer interrupts start the shells of terminals 1 and 2, and the third comes back to terminal 0 |
| ProcessSteps.RunCounterExact | kernel_code/syscall.c:174-192 | in every run the counter is the number of processes less the steps that executed a file which was found and is no executable, in 32 bits; a name that is not found costs nothing |
| ProcessSteps.RunWithoutBadFiles | kernel_code/syscall.c:234 | in a run without such a step the counter is the number of processes, and the limit test refuses exactly at six |
| Arguments.InBuffersIsLast | kernel_code/syscall.c:244 | what the buffers hold by the steps of a run is the command of the last step that parsed one: an execute past the limit test, or a halt or timer interrupt that executes shell |
| Arguments.OwnArgumentExact | kernel_code/syscall.c:504-513 | at every state of a run, what sys_getargs hands to a program whose command an earlier step parsed is its own argument exactly when the text that the last command parsed since left in the buffer is that argument; when nothing was parsed since, exactly when the argument is below 128 bytes or a NUL lies behind it |
| Kernels.ChainIsStack | kernel_code/syscall.c:321-326 | following parent_pcb from active_pcb visits exactly the terminal's stack of slots, top first, and ends in the null pointer |
| Kernels.ChainsCounted | kernel_code/terminal.h:26-30 | in every state that keeps the invariant, the parent_pcb chain from each active_pcb has the length num_process_executing_on_terminal |
| Kernels.ChainsApart | kernel_code/syscall.c:311-326 | no slot stands twice on the chains, within one or across two |
| Kernels.ChainsCover | kernel_code/syscall.c:271-278 | the slots on the three chains are exactly the used ones |
| Kernels.TablesLaunched | kernel_code/syscall.c:271-326 | marking the slot, counting up and writing the new PCB turns tables that describe the stacks into tables that describe the stacks with the new process on top |
| Kernels.TablesPopped | kernel_code/syscall.c:52-69 | the same for the tables after a halt |
| Kernels.Kernel.constructor | kernel_code/terminal.c:16-50 | the initial tables describe three empty stacks |
| Kernels.Kernel.TakeSlot | kernel_code/syscall.c:270-278 | marks the first free slot and nothing else |
| Kernels.Kernel.EnterProcess | kernel_code/syscall.c:279-346 | the whole new contents of counters, terminal, PCB, esp0 and page-directory entry |
| Kernels.Kernel.FillSlot | kernel_code/syscall.c:279-346 | those contents describe the stacks with the new process on top, mapped and running |
| Kernels.Kernel.ExecutableCheck | kernel_code/syscall.c:174-193 | succeeds exactly on the four magic bytes; a failure is counted down |
| Kernels.Kernel.FindProgram | kernel_code/syscall.c:244-255 | the buffers hold the parsed command, whatever its length, and the directory entry is the first whose name agrees |
| Kernels.Kernel.SysExecute | kernel_code/syscall.c:228-346 | for every command that the memory behind the argument buffer can take: outcome and new state are those of the abstract execute, the tables describe it, the buffers hold the name and argument for `sys_getargs`, and entry 32 maps the new process or is unchanged |
| Kernels.Kernel.SysHalt | kernel_code/syscall.c:35-101 | outcome and new state are those of the abstract halt, entry 32 maps the process that runs next, and status 255 is returned as 256 |
| Kernels.Kernel.HaltChild | kernel_code/syscall.c:52-80 | chain, mapping and esp0 go back to the parent |
| Kernels.Kernel.ContextSwitch | kernel_code/scheduling.c:44-103 | the switch is the abstract one, undefined exactly without a slot for the shell; entry 32 maps the process that runs next, and displayed_terminal changes exactly when the shell is refused |
| Kernels.Kernel.PitInterrupt | kernel_code/scheduling.c:28-35 | a timer interrupt is the round-robin step of the abstract machine, and undefined exactly when that is |
| Kernels.Boot | kernel_code/kernel.c:192-193 | from the initial tables the first execute leads, exactly when shell is executable, to a state where everything holds |
| Kernels.Kernel.Perform | kernel_code/syscall.c:228-346 | every execute, halt or timer call on the tables keeps the chains, esp0, entry 32 and the tables' description of them, unless the abstract step is undefined; afterwards the buffers hold the call's command exactly as the step parses one, and are untouched otherwise |
| Kernels.Kernel.Play | kernel_code/scheduling.c:28-103 | every sequence of calls is a run of the abstract machine up to its first undefined step, and the tables describe its last state, with entry 32 and esp0 at the running process; fname, arg and arg_length then hold the last command parsed in the run |
| Kernels.ProgramExact | kernel_code/syscall.c:174-193 | a command finds nothing exactly when no entry has its name; a file of four bytes or more is executable exactly when it begins with 0x7F, E, L, F |
| Kernels.PlayTurns | kernel_code/scheduling.c:28-35 | after every run of calls on the tables, executing_terminal has made as many turns as there were timer interrupts, if all three terminals had a process, and num_process_executing is the number of processes less the bad files executed |
| Kernels.ExecuteAndHalt | kernel_code/syscall.c:50-80 | a program executed and halted at once on the tables leaves chains, esp0, counter and mapping as they were |
| Kernels.PlayGetargs | kernel_code/syscall.c:504-513 | after every run of calls, a sys_getargs with any count with room for a terminator brings the program that call i launched its own argument, or a failure when it has none, exactly when the kernel's buffer and the memory behind it hold that text; the last command parsed is its own exactly when no later step parsed one |
| Kernels.LoseArgument | kernel_code/syscall.c:24-26 | an execution on the tables and buffers: a program can get its argument, a timer interrupt starts shell on another terminal, and it gets none |
| RefusedShells.TimerInterrupt | kernel_code/scheduling.c:70-78 | one timer interrupt on tables and screens: no page changes, displayed_terminal moves exactly when a shell is refused, and the page table fits exactly if it did not or the terminal was displayed already |
| RefusedShells.MovedExact | kernel_code/scheduling.c:76-77 | what all three terminals show stays the same exactly when no shell was refused, the terminal that runs on was displayed, or the video page and both terminals' save pages have the same characters; otherwise that terminal shows what was on the video page |
| RefusedShells.WrittenAndGone | kernel_code/scheduling.c:70-78 | from boot: six shells on terminal 0, terminal 1 displayed, a character written on terminal 0; the next timer interrupt displays terminal 0, blank |
| Files.BlocksAt | kernel_code/file.c:106-110 | byte o of a file's blocks is byte o mod 4096 of block o div 4096 |
| Files.ByteAt | kernel_code/file.c:98-110 | on an image with 64 inodes the address read_data computes holds byte o of the flat file |
| Files.ByteByOffsets | kernel_code/file.c:92-113 | where length, block numbers and bytes of a file stand in the image, in byte offsets and little-endian |
| Files.EntryByOffsets | kernel_code/syscall.c:249-255 | where name, type and inode of a directory entry stand in the image |
| Files.FixedBlockBase | kernel_code/file.c:99 | that address is the one of the file's byte exactly on images with 64 inodes |
| Files.LookupFirst | kernel_code/syscall.c:249-255 | the directory scan stops at the first entry whose name agrees in 32 bytes |
| Files.LookupByName | kernel_code/syscall.c:249-255 | for a name of at most 32 bytes that is the first entry with an equal name, and -1 means that there is none |
| Files.FindEntry | kernel_code/syscall.c:249-255 | the scan loop computes that entry |
| Files.ReadData | kernel_code/file.c:92-113 | fails exactly in the invalid cases; otherwise copies min(length, rest) bytes equal to the flat file from the offset on and touches nothing else |
| Files.ListedExact | kernel_code/file.c:197-219 | reading a directory lists exactly its entries if it has fewer than 63 or the length of inode 0 is a multiple of 256, and only then |
| Bytes.Strncmp | kernel_code/lib.c:552-566 | zero exactly when the two strings agree up to their NUL or n bytes |
| FileTables.FileTable.Open | kernel_code/syscall.c:420-478 | takes the lowest free descriptor for the first entry of that name, or changes nothing |
| FileTables.Opened | kernel_code/syscall.c:449-474 | at position 0, with the read function of the RTC for type 0, of a directory for type 1 and of a file, with its inode, for type 2 |
| FileTables.FileTable.Close | kernel_code/syscall.c:486-495 | frees descriptors 2 to 7 that are in use, and refuses all others |
| FileTables.FileTable.Read | kernel_code/syscall.c:382-391 | for every descriptor, buffer and count: what the read function of its kind delivers arrives in the buffer, the position moves on accordingly and nothing else changes; on a terminal the completed line arrives |
| FileTables.ReadFailsExactly | kernel_code/file.c:124-143 | a read returns -1 exactly when a file that is not at its end, or a directory, gets no buffer, or such a file a count of 0; otherwise the number of bytes that arrived |
| FileTables.FileTable.FileRead | kernel_code/file.c:124-143 | delivers the next piece of the flat file, a negative count taken unsigned, and advances the position by its length |
| FileTables.FileTable.DirRead | kernel_code/file.c:197-219 | delivers the name at the position, cut to the count, and moves on by one entry |
| FileTables.PiecesJoin | kernel_code/file.c:131-141 | successive reads of any sizes are together one read of the total size |
| FileTables.PieceAppend | kernel_code/file.c:131-141 | adjacent reads concatenate |
| FileTables.DrainedExactlyOnce | kernel_code/file.c:131-141 | a further read comes back empty exactly when the sizes reach the file length, and then the pieces are the whole file, once |
| FileTables.Cat | syscalls/ece391cat.c:16-31 | prints exactly the contents of an entry of type 2, the names in the directory in a row for type 1, and nothing for type 0; status 2 when it cannot be opened |
| Grep.DoOneFile | syscalls/ece391grep.c:9-66 | for a NUL-free file with lines under 1024 bytes the output is that of the whole-file line filter, for every pattern that the signed comparison can match; of a directory each name counts as a line; all other descriptors are as before and this one is free again |
| Grep.ScanFile | syscalls/ece391grep.c:20-60 | chunks, carry-over and an unterminated last line make no difference to the output |
| Grep.ScanBuffer | syscalls/ece391grep.c:28-57 | one pass prints what the filter prints of the complete lines in the buffer and carries the rest over |
| Grep.Refill | syscalls/ece391grep.c:22-27 | one read continues the text in the buffer, or brings the next name |
| Grep.ShortLinesMeans | syscalls/ece391grep.c:15 | the condition on line lengths is that every line of the filter is shorter than the buffer |
| Grep.SearchLine | syscalls/ece391grep.c:40-48 | finds a non-empty pattern exactly when the line contains it and its first byte is below 0x80, and an empty one exactly when the line contains a NUL |
| Grep.CopyDown | syscalls/ece391support.c:14-17 | the overlapping copy moves a NUL-free partial line to the front unharmed |
| Grep.Strncmp | syscalls/ece391support.c:35-46 | zero exactly when the two strings agree up to their NUL or n bytes |
| Grep.LinesJoin | syscalls/ece391grep.c:31-56 | the lines of a text with a newline behind each are the text again, with a newline added at its end if it had none |
| Grep.ContainsMeans | syscalls/ece391grep.c:43-44 | a line contains the pattern exactly when it is something, the pattern and something |
| Grep.FilteredLine | syscalls/ece391grep.c:43-49 | of one line the filter puts out file name, colon, line and newline, exactly when the pattern stands in it |
| Grep.FilteredJoins | syscalls/ece391grep.c:28-57 | the filter's output for two texts, the first of whole lines, is that of the one and then that of the other |
| Grep.ExactMeans | syscalls/ece391grep.c:15 | the output is exact for the files without a NUL and without a line of 1024 bytes or more, for a directory without a newline in a name, and for the RTC |
| Grep.NextLine | syscalls/ece391grep.c:31-56 | the filter's output on a text is that of its first line followed by that of the rest |
| Grep.ExactForAsciiPatterns | syscalls/ece391grep.c:43 | a pattern is served as the filter would exactly when it starts below 0x80 or occurs in no line |
| Grep.HighPatternMissed | syscalls/ece391grep.c:43 | pattern and file 0xC8: the filter prints the line, the scanner nothing |
| GrepDirectory.Program | syscalls/ece391grep.c:68-97 | main on the kernel's argument buffer and the descriptor table: 3 without an argument, 2 when "." cannot be opened, and otherwise the searches of the files that the reads of "." name and that do not start with a dot, in order up to the first that cannot be opened; each puts out what its filter does when all are exact |
| GrepDirectory.FindsMeans | syscalls/ece391grep.c:68-97 | what `Program` comes to on a directory that names every entry differently: 2 without "." or a descriptor, and otherwise 0 with the lines of every file, each once |
| GrepDirectory.SearchAll | syscalls/ece391grep.c:84-94 | the loop with one more file at a time, at any descriptor |
| GrepDirectory.DeliveredNames | syscalls/ece391grep.c:84-91 | the 32-byte reads of a directory deliver its names |
| GrepDirectory.FirstMissingStops | syscalls/ece391grep.c:92-93 | a name that cannot be opened ends it with status 3 after the output of the files before it |
| GrepDirectory.NoDescriptorStops | syscalls/ece391grep.c:92-93 | without a free descriptor the first name does |
| GrepDirectory.ChosenMeans | syscalls/ece391grep.c:89-90 | the names searched are those that do not start with a dot, in order |
| GrepDirectory.EveryFileOnce | syscalls/ece391grep.c:68-97 | when all names differ and the reads of the directory end where its entries do, the status is 0 and the output is that of every file whose name starts with no dot, each once and by its own entry, in directory order |
| Screens.PutExact | kernel_code/lib.c:200-223 | newline and return go to the start of the next row and keep the characters, any other byte is written at the cursor, which moves on by one; below row 24 the screen moves up one row; away from the last column no other byte reaches the start of a row |
| Screens.WriteShows | kernel_code/lib.c:200-223 | text without line breaks is appended to what a screen shows, byte for byte |
| Screens.WriteLineShows | kernel_code/lib.c:200-223 | a newline behind it fills its row with blanks |
| Screens.PutAllJoins | kernel_code/terminal.c:131-142 | bytes are written one after the other, in order |
| Bytes.NonNulJoins | kernel_code/terminal.c:132 | of the bytes of a write exactly the NULs are dropped |
| Screens.ShowsExact | kernel_code/lib.c:200-264 | a screen shows a log exactly when its cells are those of the log from a row on, the cursor stands behind the last one, and the rest is blank |
| Screens.PutShows | kernel_code/lib.c:200-223 | one character written to a screen that shows a log leaves it showing the log with that character, or filled to the end of the row |
| Screens.EraseShows | kernel_code/lib.c:270-287 | one erase leaves it showing the log without its last cell, inside the window |
| Screens.WindowOfLog | kernel_code/lib.c:200-295 | after any run of output, erasing and clearing the screen is a 25-row window of an unbounded wrapped log, cursor at its end and blank from there on |
| Screens.TypingShowsSurvivors | kernel_code/keyboard.c:246-266 | any typing run of characters and backspaces leaves the starting screen followed by exactly the surviving characters, through wrap and scrolling: no erase is lost |
| Screens.FirstCharactersSurvive | kernel_code/keyboard.c:246-266 | of a text typed on an empty line the first 127 characters stay, and a further one changes neither line nor screen |
| Screens.BackspacesErase | kernel_code/keyboard.c:246-266 | n backspaces take the last n characters away, as far as there are any |
| Screens.LostErase | kernel_code/lib.c:271-273 | a backspace on a non-empty line goes unseen exactly at the origin, which is where Ctrl-L puts the cursor |
| Displays.Scroll | kernel_code/lib.c:252-264 | the column-by-column loops in place move the screen up exactly one row and keep every attribute ATTRIB |
| Displays.MoveRows | kernel_code/lib.c:255-259 | the copying loops alone, with every intermediate state a stated function of the old page |
| Displays.PutAt | kernel_code/lib.c:200-223 | the shared body of putc and putc_non_displayed is the one-character step on the page it is given; a newline or return moves the cursor to the next row, and any other byte stands in its cell with ATTRIB behind it |
| Displays.EraseAt | kernel_code/lib.c:270-287 | backspace is the one-cell erase on the page |
| Displays.Memcpy | kernel_code/lib.c:475-512 | copies n bytes and leaves the rest |
| Displays.ClearPage | kernel_code/lib.c:20-26 | every cell is a space with ATTRIB |
| Displays.InitialTable | kernel_code/paging.c:32-42 | the video page table after INIT_PAGE maps terminal 0 to the video page and every other window to its own frame |
| Displays.Display.constructor | kernel_code/terminal.c:52-60 | the other screens are blank and terminal 0, displayed, shows the boot messages |
| Displays.Display.Putc | kernel_code/lib.c:200-223 | one step on the displayed terminal's screen; the other two are unchanged |
| Displays.Display.PutcNonDisplayed | kernel_code/lib.c:171-195 | the same step on the executing terminal's save page: the two routines simulate each other |
| Displays.Display.Backspace | kernel_code/lib.c:270-287 | an erase on the displayed screen only |
| Displays.Display.ClearAndReset | kernel_code/lib.c:292-296 | the displayed screen is blank with its cursor at the origin |
| Displays.Display.SwitchActiveTerminal | kernel_code/paging.c:70-81 | all three logical screens are unchanged by a switch, also to the terminal already displayed, and the page table maps the new one |
| Displays.Display.TerminalWrite | kernel_code/terminal.c:124-147 | the bytes other than NUL go to the executing terminal's screen in order, displayed or not; no other screen changes |
| Displays.Display.ResetDisplayed | kernel_code/scheduling.c:77 | setting displayed_terminal alone: which screens it swaps for which pages, that all stay the same exactly when the terminal was displayed already or the characters agree, and that the page table then fits exactly in the first case |
| Displays.Display.Vidmap | kernel_code/syscall.c:522-531 | succeeds exactly inside the user page, and the address walks to the video page if the caller's terminal is displayed and to its own frame otherwise |
| Displays.VidmapIsolation | kernel_code/paging.c:36-42 | for every displayed terminal: a window reaches the video page exactly when its terminal is displayed, and otherwise its own frame, which no other window and no save page shares |
| Keymap.ModifiersAfter | kernel_code/keyboard.c:98-187 | after any scancodes the caps part of mode is the parity of Caps Lock presses, shift, control and alt are what was last pressed or released, and with control up the shift part is SHIFT |
| Keymap.StepsOut | kernel_code/keyboard.c:127-187 | one code puts mode out of step with SHIFT exactly when control is down after it and it moves SHIFT, or is Caps Lock with caps and shift in force |
| Keymap.CapsDropsShift | kernel_code/keyboard.c:127-143 | shift, Caps Lock, control, Caps Lock do so |
| Keymap.StoredSymbol | kernel_code/keyboard.c:227-231 | with control up a stored letter is upper case exactly when caps differs from shift, and anything else depends on shift alone |
| Keymap.Printable | kernel_code/keyboard.c:20-76 | every printable ASCII character is on the key that a US keyboard has it on, letters and digits in the places of their case |
| Keymap.CapsMovesLettersOnly | kernel_code/keyboard.c:20-76 | in the scancode table the caps rows differ from the others on letters only |
| Consoles.TypedIsFold | kernel_code/keyboard.c:246-266 | after any events the line buffer is the push/pop fold, capped at 127, of the keys since the last Enter |
| Consoles.CompletedLine | kernel_code/keyboard.c:190-202 | the completed line is that fold at the last Enter plus a newline, in at most 128 bytes |
| Consoles.ReadLatestLine | kernel_code/terminal.c:94-113 | a read of nbytes >= 1 returns the prefix of length min(nbytes - 1, line length) of the latest completed line |
| Consoles.TerminalsAreIsolated | kernel_code/keyboard.c:98-235 | of the console as three terminals: in any interleaving of scancodes, writes, reads, switches and scheduling, each terminal's screen, line and completed line are those of a private terminal fed only its own events |
| Consoles.ScancodesMean | kernel_code/keyboard.c:98-235 | by number, which scancodes are Enter, backspace, Ctrl-L, Ctrl-C and Alt with a function key; any other types a character that is no line break, with control up, or nothing |
| Consoles.EveryCharacterTypes | kernel_code/keyboard.c:20-76 | every printable character can be typed, on its key or with shift before it |
| Consoles.CharacterArrives | kernel_code/keyboard.c:246-266 | and is then written on the displayed terminal and added to its line, if that has room |
| Consoles.ControlExact | kernel_code/keyboard.c:98-235 | which terminal is displayed and which runs after a step |
| Consoles.ArrivesExact | kernel_code/keyboard.c:98-235 | what Enter, backspace, Ctrl-L, a program's write and its read do to screen and line of the terminal they are for |
| Consoles.StepReaches | kernel_code/terminal.c:124-147 | a scancode changes no terminal but the displayed one, and a program's call none but its own |
| Consoles.ReadyExact | kernel_code/terminal.c:97-110 | a line is there to be read exactly when Enter came after the last read that took one |
| Consoles.PressesEcho | kernel_code/keyboard.c:246-266 | keys alone drive screen and line of a terminal exactly as the typing property assumes |
| Consoles.TypingRunShows | kernel_code/keyboard.c:98-266 | of that console: for every run of scancodes, switches and other terminals' programs: while only keys other than Enter and Ctrl-L reach a terminal, its screen is what it was followed by exactly the characters that survive in its line buffer |
| Consoles.OwnStaysOnLine | kernel_code/keyboard.c:20-76 | no stored key breaks a line |
| Consoles.ScancodeIsStep | kernel_code/keyboard.c:98-235 | modifiers, Ctrl-L, function key, Enter and stored key of one scancode make up one step of the console |
| Keyboards.Keyboard.GetScancode | kernel_code/keyboard.c:98-235 | one keyboard interrupt on buffers, pages and modifier variables is one step of the console |
| Keyboards.Keyboard.UpdateModes | kernel_code/keyboard.c:127-187 | mode and SHIFT after a scancode, as the automaton has them |
| Keyboards.Keyboard.StoreInBuffer | kernel_code/keyboard.c:246-266 | a key is pushed and echoed up to 127 characters, a backspace pops and erases, Enter does nothing here |
| Keyboards.Keyboard.Enter | kernel_code/keyboard.c:190-202 | the typed line with a newline becomes the completed line of the displayed terminal, whose cursor is then at the start of the next row |
| Keyboards.Keyboard.TerminalRead | kernel_code/terminal.c:94-113 | hands over the prefix of the completed line that fits and is one step of the console, which lowers the flag unless the count is 0; without a buffer nothing changes |
| Keyboards.Keyboard.WriteToConsole | kernel_code/terminal.c:124-147 | a program's write is one step of the console |
| Keyboards.Keyboard.Schedule | kernel_code/scheduling.c:89 | a switch to another terminal's program is one step of the console |
| Displays.Display.Schedule | kernel_code/scheduling.c:89 | it changes no screen |
| ConsoleRuns.Perform | kernel_code/keyboard.c:98-235 | one scancode, write, read or switch on buffers and pages is one step of the console; a read waits exactly while the flag of the executing terminal is down, and returns what the console hands over |
| ConsoleRuns.TextIsTold | kernel_code/terminal.c:131-142 | the console is told every call as it is made, except that the NULs of a write are left out |
| ConsoleRuns.Play | kernel_code/keyboard.c:98-235 | for every run of calls, in any interleaving and up to the first read that has to wait, buffers and pages are at the state of the console's run, each terminal's screen, line and completed line are those of a private terminal fed only its own events, and the reads return what that console hands over |
| ConsoleRuns.PlayTyping | kernel_code/keyboard.c:98-266 | for every such run in which only keys other than Enter and Ctrl-L reach a terminal, its page shows what it showed followed by exactly the characters in its keyboard buffer, which is the fold of its keys |
| TerminalInput.ReadTerminal | kernel_code/syscall.c:382-391 | a read through the descriptor table of what terminal_read hands over, and nothing else changes |
| TerminalInput.EnterThenRead | kernel_code/terminal.c:94-113 | Enter, and a read of descriptor 0 with n bytes: the typed line and a newline, cut to n - 1 bytes |
| TerminalInput.RunThenRead | kernel_code/terminal.c:94-113 | after any run of scancodes, writes, reads and switches a read of descriptor 0 waits exactly when the running program's terminal has seen no Enter since a line was last taken there, and otherwise delivers what was typed there up to the last Enter, by that terminal's own keys alone |
| TerminalInput.WaitsExact | kernel_code/terminal.c:97 | in the middle of any run a read waits exactly when that terminal has seen no Enter since a line was last taken |
| BlinkTimers.TicksClosedForm | fish/blink.S:62-87 | k ticks after its add, for every pair of 16-bit lengths, status and countdown are the closed form of the phase |
| BlinkTimers.NominalExactly | fish/blink.S:64-66 | a blinker is on at tick k exactly when k mod (on+off) < on, if and only if both lengths are in 1..0x8000 |
| BlinkTimers.OutOfRange | fish/blink.S:64-66 | for all other lengths, the tick at which that fails |
| Blinks.ListAndFree | fish/fish.c:160-171 | list length and free slots add up to 2000 |
| Blinks.AddKeepsList | fish/fish.c:164 | an add leaves a well-linked list exactly when its location is not 0 |
| Blinks.LocationZeroTwice | fish/fish.c:164 | two adds at location 0 make the head its own successor, and a walk that does not stop there never ends |
| Blinks.BlinkList.Malloc | fish/fish.c:160-171 | the first free slot, and NULL exactly when 2000 blinkers are in the list |
| Blinks.BlinkList.Add | fish/blink.S:105-184 | fails exactly on a location past the screen or a full pool; otherwise the started blinker is at the front and showing |
| Blinks.BlinkList.FindHelper | fish/blink.S:351-379 | the walk ends, at the most recently added node at the location or at NULL when there is none |
| Blinks.BlinkList.Remove | fish/blink.S:187-237 | exactly that node is cut out of the list and its slot freed, or -1 |
| Blinks.BlinkList.Find | fish/blink.S:302-348 | a copy of that node with its link |
| Blinks.BlinkList.Sync | fish/blink.S:240-299 | the second node takes over the timer of the first, and its off character is poked |
| Blinks.BlinkList.Tasklet | fish/blink.S:49-99 | every node is ticked exactly once, the links are unchanged, and the ones that toggled are redrawn in list order |
| Blinks.Unlinks | fish/blink.S:207-223 | redirecting one link and freeing the slot leaves a well-linked list without that node |
| BlinkRuns.Play | fish/blink.S:105-237 | after every run of adds with locations other than 0, removes, syncs and ticks the pool holds a well-linked, duplicate-free list of exactly the slots in use, equal to the run's list of blinkers, and video memory is what the run's pokes make it |
| BlinkRuns.EveryBlinkerOnSchedule | fish/blink.S:49-99 | in every run of adds with locations other than 0, removes, syncs and ticks each blinker is at the phase of the ticks since the add that its timer comes from, its own or through syncs another one's |
| BlinkRuns.AddThenTicks | fish/blink.S:49-184 | k ticks after its add a blinker with lengths in 1..0x8000 is on exactly when k mod (on+off) < on |
| BlinkRuns.RemoveUndoesAdd | fish/blink.S:187-237 | a remove right after an add at the same location gives the list back |
| BlinkRuns.SyncedInLockStep | fish/blink.S:267-275 | two blinkers made equal by sync stay equal for every number of ticks |
| BlinkRuns.TaskletRedraws | fish/blink.S:68-87 | with one blinker a location, a tasklet call redraws each that toggles, with the character of its new status, and no other |
| BlinkRuns.SyncRedraw | fish/blink.S:277-286 | the redraw of sync shows the copied status exactly when that is off or both characters are the same |
| BlinkRuns.RunShows | fish/blink.S:49-299 | in every run with adds at vacant locations other than 0 video memory shows the status of every blinker but exactly those that a sync gave an on timer and that have not toggled since; of all of them in a run without sync |
| Numerals.NumeralIsCanonical | kernel_code/lib.c:324-351 | for every value and radix 2..36 the digits evaluate to the value, without a leading zero |
| Numerals.CanonicalUnique | kernel_code/lib.c:324-351 | it is the only canonical numeral of that value |
| Numerals.DigitsAre | kernel_code/lib.c:325 | the digits are 0 to 9 and A to Z |
| Numerals.NumeralFits | kernel_code/lib.c:338-343 | a 32-bit value has at most 32 digits |
| Numerals.Itoa | kernel_code/lib.c:324-351 | writes the numeral NUL-terminated in place and nothing else |
| Numerals.Strrev | kernel_code/lib.c:361-373 | reverses the string in place and nothing else |
| Numerals.ConvertHex | kernel_code/lib.c:86-95 | what %#x prints is the zero-padded numeral |
| Numerals.Padded8Value | kernel_code/lib.c:86-95 | that is exactly eight hexadecimal digits which evaluate to the value |
| Commands.SplitsAtSpace | kernel_code/syscall.c:112-149 | a name of at most 32 bytes without a space, a space and an argument parse back to the two |
| Commands.LongName | kernel_code/syscall.c:112-149 | a command without a space in its first 32 bytes is cut there and loses the byte behind them |
| Commands.ServedExact | kernel_code/syscall.c:505 | an argument is handed over for every negative count, and otherwise exactly when it fits |
| Commands.Parsed.ParseCommand | kernel_code/syscall.c:112-149 | both buffers hold exactly the NUL-padded parts, an argument over 128 bytes running on; the byte before the argument buffer is cleared exactly when nothing follows the name; all other memory is as before |
| Commands.Parsed.GetArgs | kernel_code/syscall.c:504-513 | for every count: -1 exactly when there is no buffer, the argument is empty or it is longer than the count taken unsigned; otherwise the argument, its padding and the memory behind it, as far as the count goes |
| Commands.ReceivedExact | kernel_code/syscall.c:509-511 | the caller has its argument as a C string exactly when the count is larger than it and it is shorter than 128 bytes or a NUL lies behind the buffer |
| Commands.Parsed.AnswersMean | kernel_code/syscall.c:504-513 | a program whose own argument is in the buffer and below 128 bytes gets it, and one whose first byte is not there does not |
| Commands.GetsOwnExact | kernel_code/syscall.c:504-513 | what sys_getargs delivers is a caller's own argument exactly when the text in the buffer, with the memory behind a full one, is that argument |
| Commands.FullArgumentRunsOn | kernel_code/syscall.c:509-511 | 128 bytes asked for with a count of 1024: the caller's string runs on |
| Emulator.ArgsAreFields | syscalls/ece391emulate.c:88-98 | on newline-free text the scanner's arguments are the non-empty pieces between spaces |
| Emulator.ArgvOfJoined | syscalls/ece391emulate.c:76-100 | splitting the space-joined words recovers them, the first one under "./" |
| Emulator.ArgvOfLine | syscalls/ece391emulate.c:76-100 | so does a typed line, with a newline at its end |
| Emulator.ArgsOfJoined | syscalls/ece391emulate.c:88-98 | the same for the arguments alone |
| Emulator.JoinIsIdempotent | syscalls/ece391emulate.c:131-157 | splitting and joining collapses the spacing, and doing it again changes nothing |
| Emulator.Tokenize | syscalls/ece391emulate.c:68-100 | argv points at exactly those words, NUL-terminated inside the buffer, followed by a null pointer; the 1024 pointers never run out; -1 exactly above 1023 bytes |
| Emulator.GetArgs | syscalls/ece391emulate.c:131-157 | succeeds exactly when the joined arguments and a terminator fit nbytes, and then the buffer holds them; the byte behind the count is overwritten exactly when some of the arguments, joined, fill it, and then it fails; nothing else from there on changes |
| Emulator.OverrunExample | syscalls/ece391emulate.c:143 | an argument of three bytes and a count of three |

## Left out

- Atomicity: interrupts inside a system call, `putc` or `terminal_write`, the busy waits in `terminal_read` and `rtc_read`, and stale TLB entries.
- The esp and ebp saves, iret and the jump to RETURN_FROM_IRET: only which process runs, `tss.esp0` and page-directory entry 32 are modelled.
- Loading the program: the entry point and the copy to 0x08048000; they change no table.
- Kernel descriptors inside the PCBs: `sys_execute` and `sys_halt` are modelled without them, and FileTable models one process's descriptors on its own; halt closes descriptors 2 to 6 and not 7.
- Kernels.Kernel.SysExecute: the state after the slot search has failed is undefined in C (an uninitialised process number) and is modelled as an outcome of its own after which no step is taken, also when context_switch made the call.
- Kernels.Kernel.SysHalt: a root process whose shell cannot be executed goes on to read PCB fields through a null pointer; that too is an outcome of its own.
- Signals: `signal.c` is not part of this model; of the Ctrl-C branch only its effect on `executing_terminal` is.
- FileTables.FileTable.Read: what a terminal hands over is a parameter here, it is Keyboard.TerminalRead that says which line that is; the RTC's wait is absent.
- `read_dentry_by_name`, `read_dentry_by_index`, `file_open`, `dir_open`: `sys_open` does not call them.
- Displays: the cursors and the page table are `seq` fields of the class rather than arrays, and the two textually identical bodies of `putc` and `putc_non_displayed` (and of their scroll functions) are one method over the page they work on. Pages are arrays and are changed in place.
- Keyboards: keyboard buffers are `seq` fields of a terminal's record; `set_cursor`'s port writes are absent.
- Kernels: the tables of three terminals and six slots are `seq` fields, and each PCB is a value in one of them at the address its slot gives it.
- User writes through a vidmap window: they go round the cursor and the save pages.
- Commands: an argument that runs over its buffer overwrites memory that the model keeps apart from the kernel's other variables; where those lie is up to the linker.
- Grep, GrepDirectory: the messages for a failed getargs, open, read or close; output is a byte sequence rather than four writes a line, and the buffers on the stack are parameters.
- GrepDirectory.Program: an argument of 128 bytes with no NUL in the 896 bytes behind it is not covered, because `strlen` then reads past the end of `search`.
- Grep.DoOneFile: says nothing about the output for a file with a NUL or a line of 1024 bytes or more, or a directory entry whose name holds a newline, which the program does not promise to handle.
- Emulator: fork, execv, mmap and readdir.
- Port I/O, PIC, PIT, RTC, IDT, GDT and TSS encoding, boot, exceptions and the remaining user programs.
