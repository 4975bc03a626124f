# ptracer core in Dafny

ptracer counts the machine instructions executed by each call of chosen
functions in a child program. It finds each function's entry address in the
program's DWARF debugging information, arms the entry with an `INT3`
breakpoint (the low byte of the word at the entry replaced by `0xCC`), and
on every trap rewinds the instruction pointer, disarms the entry,
single-steps the original first instruction, re-arms the entry,
single-steps the child until its instruction pointer equals the return
address read from the stack at entry, then disarms the entry once more,
single-steps the caller's instruction at the return address, re-arms the
entry and lets the child continue.

This project models the core of `src/trace.c`:

- `words.dfy` (module `Words`): 64-bit unsigned words, the `HIGH_BIT_MASK`
  and `0xFF` masks, the armed and restored words, and unsigned `ip - 1`.
- `child.dfy` (module `ChildModel`): the traced child as a value (the
  instruction pointer, the stack pointer, the other general registers, the
  mapped memory words, whether it is alive, its pid, how many continues it
  was given) and each ptrace request as a function on it; single-stepping is
  an oracle from the whole register and memory state to the next stopped
  state or to an exit; the counting loop as a function `RunToReturn`.
- `breakpoints.dfy` (module `Breakpoints`): the function table record and
  arming, disarming and arming the whole table, as functions.
- `engine.dfy` (module `Engine`): the table lookup, the counting engine, the
  continue path and the trap dispatcher, as functions, with the lemmas that
  say what they compute.
- `dwarf.dfy` (module `Dwarf`): what the resolution walk over compilation
  units makes of each DIE, which slot it writes, and which units it visits.
- `tracer.dfy` (module `Tracer`): `class TraceInfo`, the session record
  (`function_infos` as an array, `next_func`, `prog_fd`, the child), with a
  method for each procedure of `src/trace.c` that reads or updates it.
  Each arming, stepping, counting and dispatching method is proved equal to
  the specification function of its procedure; the resolution methods are
  proved against `Dwarf.Classify`, `Dwarf.Fill` and `Dwarf.WalkFrom`;
  `InfoFree` states its new state directly. `trace_info_initialize` is the
  start of `FindFunctions`, `trace_get_child_ip` is a read of the child's
  instruction pointer inside the methods, and `trace_find_function_info`
  is the function `Engine.FindFunctionInfo`, called by `FunctionCall`.

Where `src/trace.c` behaves surprisingly, the model follows the code:

- `trace_is_target_function` is declared `bool` but returns `-1` on every
  libdwarf failure and when the entry address cannot be read; `-1` converts
  to `true`, so such a DIE is counted as a found function, and the `res < 0`
  error branch of `trace_cu_find_functions` is never taken
  (`Dwarf.Classify`, `Dwarf.UnreadableDieCountsAsMatch`).
- The walk checks the found count only between compilation units, so
  several matches in one unit (a name defined twice, or unreadable DIEs)
  write past the table; the model requires of its input that this does not
  happen (`Dwarf.WellDefined`) rather than modelling the overflow.
- The target file stays open after a successful resolution; only a failure
  closes it.
- A found count larger than the requested count fails the resolution, like
  a smaller one.

## Model

| member | source | states |
|---|---|---|
| Words.LowByte | src/trace.c:309 | `original & 0xFF` is a value below 256 |
| Words.HighBytes | src/trace.c:15 | `w & HIGH_BIT_MASK` has a zero low byte |
| Words.Pred | src/trace.c:506-510 | unsigned `ip - 1`: the result plus one wraps round to `ip` |
| Words.ArmedWord | src/trace.c:223-224 | the armed word has `0xCC` as its low byte and the original's other bytes |
| Words.RestoredWord | src/trace.c:308-309 | the restored word has the saved low byte and the current word's other bytes |
| Words.ArmOnlyTouchesByteZero | src/trace.c:223-224 | arming sets byte 0 to `INT3` and leaves bytes 1 to 7 as they were |
| Words.RestoreOnlyTouchesByteZero | src/trace.c:308-309 | disarming takes byte 0 from the saved word and bytes 1 to 7 from the current word |
| Words.InstallThenRestore | src/trace.c:212-227 | disarming an armed word gives back the exact original word |
| Words.RestoreThenInstall | src/trace.c:308-309 | re-arming after a disarm puts `INT3` under the current word's upper bytes whatever the saved word; an armed word comes back exactly |
| Words.ArmTwice | src/trace.c:223-224 | arming is idempotent; the armed word differs from the original exactly when its low byte was not already `INT3` |
| ChildModel.PeekText | src/trace.c:216-220 | a read succeeds exactly on a live child at a mapped address, and returns the word there |
| ChildModel.PokeText | src/trace.c:223-226 | a write succeeds exactly on a live child at a mapped address, and changes only that word |
| ChildModel.SetPc | src/trace.c:380-384 | `PTRACE_SETREGS` succeeds exactly on a live child and changes only the instruction pointer |
| ChildModel.Cont | src/trace.c:242 | `PTRACE_CONT` succeeds exactly on a live child and only adds one continue |
| ChildModel.Kill | src/trace.c:237 | `kill(pid, SIGKILL)` leaves the child dead with its machine state, pid and continues as they were |
| ChildModel.SingleStep | src/trace.c:341-359 | succeeds exactly when the child is alive and survives the step; an exit or signal sets the pid to -1; no continue is issued |
| ChildModel.RunToReturn | src/trace.c:402-413 | the counting loop takes at most `fuel` steps and issues no continue; it stops at the return address, or with the child gone and its pid -1, or out of fuel with the child alive under its pid |
| ChildModel.RunToReturnReturned | src/trace.c:403-413 | when the loop stops at the return address, the count is the number of steps to the first state whose instruction pointer is the return address, within the fuel, and only the machine state changed |
| ChildModel.RunToReturnComplete | src/trace.c:403-413 | conversely, if the return address is first reached after `n` steps within the fuel, the loop stops after exactly `n` steps |
| ChildModel.RunToReturnGone | src/trace.c:409-411 | the loop ends with the child gone exactly when a step saw it exit before any state reached the return address; the pid is then -1 and no continue was issued |
| ChildModel.RunToReturnGoneComplete | src/trace.c:409-411 | conversely, if the child survives `n` steps within the fuel without reaching the return address and the next step sees it exit, the loop ends with the child gone after `n` steps |
| ChildModel.RunToReturnOutOfFuel | src/trace.c:403-413 | running out of fuel means every allowed step was taken on a live child under the same pid, whose machine is the state `fuel` steps on, and no state up to it reached the return address |
| Breakpoints.ArmSite | src/trace.c:212-227 | succeeds exactly on a live child with a mapped entry; saves the word at the entry and writes its armed form there; a failed read saves `(long) -1` |
| Breakpoints.DisarmSite | src/trace.c:294-316 | succeeds exactly on a live child with a mapped entry; writes the saved low byte back under the current upper bytes and changes nothing else |
| Breakpoints.ArmThenDisarm | src/trace.c:212-227 | arming then disarming a site leaves the child's memory as it was and keeps the saved word |
| Breakpoints.DisarmThenRearm | src/trace.c:294-316 | disarming an armed site runs the original word; arming it again restores the armed word and saves the same original |
| Breakpoints.ArmFrom | src/trace.c:234-240 | the arming loop leaves the records before the starting index untouched and keeps the table length; it stops at an index between the start and the end of the table, and succeeds exactly when that index is the end |
| Breakpoints.AddBreakpointsSpec | src/trace.c:229-245 | arming the whole table keeps its length |
| Breakpoints.ArmFromDistinct | src/trace.c:234-240 | with distinct mapped entries in a live child, every record saves the word at its own entry, every entry is armed, and nothing else changes |
| Breakpoints.ArmFromFailure | src/trace.c:234-240 | a failed loop stopped (its `stop` index) at the first record whose entry is unmapped in a live child (the first record tried on a dead one); the records before it were mapped and keep their names and entries; it saved `(long) -1`; the later records are untouched; no continue was issued |
| Breakpoints.ArmFromOk | src/trace.c:234-240 | the loop succeeds exactly when every remaining entry is mapped in a live child; it keeps liveness, pid, continues and the mapped addresses |
| Breakpoints.AddBreakpointsOutcome | src/trace.c:229-245 | fails exactly when an entry cannot be armed; a failure kills the child without a continue; a success on a live child issues one continue |
| Engine.FindFrom | src/trace.c:508-512 | the search from index `i` returns the first index at or after `i` whose entry is `ip - 1`, or none when there is no such index |
| Engine.FindFunctionInfo | src/trace.c:503-515 | returns the first record whose entry is `ip - 1`; returns none exactly when no record has that entry |
| Engine.Replay | src/trace.c:385-399 | disarm, single step and re-arm succeed exactly when the entry is mapped before and after a step the child survives; the site is then re-armed over the stepped memory and the record saves the word found there |
| Engine.ReturnAddress | src/trace.c:318-339 | the return address is the word at the stack pointer when it can be read, and otherwise the uninitialised value the caller holds |
| Engine.Rewound | src/trace.c:380-384 | the instruction pointer moves back by one, wrapping as an unsigned word, and nothing else changes |
| Engine.CountSpec | src/trace.c:361-448 | counting keeps the record's name and entry |
| Engine.ContinueSpec | src/trace.c:451-501 | the continue path keeps the record's name and entry |
| Engine.FunctionCallSpec | src/trace.c:517-550 | dispatching keeps the table length |
| Engine.FirstStepRunsOriginalCode | src/trace.c:375-388 | at an armed trap, rewinding and disarming leaves the instruction pointer at the entry over the untouched original word |
| Engine.CountSuccess | src/trace.c:361-448 | a successful count is at least 1 and equals one plus the number of single steps from the state after the first instruction to the first state at the return address; the site is armed again, the pid kept, one continue issued |
| Engine.CountMatchesFirstReturn | src/trace.c:401-413 | if the return address is first reached `n` steps after the first instruction, within the fuel, the count is `n + 1` |
| Engine.CountChildGone | src/trace.c:361-448 | a child seen to exit while counting fails the count with pid -1; a count that does not succeed issues no continue |
| Engine.FindFromSameEntries | src/trace.c:503-515 | the lookup depends only on the records' entry addresses |
| Engine.DispatchKeepsLookup | src/trace.c:517-550 | a dispatch changes no record's name or entry, so every later trap is looked up as before |
| Engine.DispatchOutcome | src/trace.c:517-550 | a trap at no known entry is passed through with one continue and nothing else changed; a success keeps the child alive under its pid with one more continue; a failure issues none; a child seen to exit fails the dispatch with pid -1 |
| Engine.ContinueAtArmedTrap | src/trace.c:451-501 | at an armed trap, the continue path runs the first instruction over the original word, re-arms the site with the word found after the step and issues one continue; it fails exactly when the child exits or the entry is unmapped |
| Dwarf.Classify | src/trace.c:41-97 | a DIE is rejected exactly when its tag reads and is not a subprogram, or its name reads and is not requested; found with its low pc exactly when a requested subprogram's name and low pc read; found without address when reading the low pc returns `DW_DLV_ERROR`; every read error is a match |
| Dwarf.Written | src/trace.c:78-92 | a found DIE writes its name and low pc into the slot, one whose low pc read returns `DW_DLV_ERROR` leaves the name unset, other verdicts leave the slot; the saved word is never touched |
| Dwarf.Counted | src/trace.c:99-140 | the counted verdicts of a unit are at most its DIEs and none is a rejection |
| Dwarf.CountedAppend | src/trace.c:115-136 | counting two runs of DIEs counts each in turn |
| Dwarf.CountedStep | src/trace.c:115-136 | one more DIE appends its verdict to the unit's count unless it is rejected, and a counted verdict sits at that position of the whole unit's count |
| Dwarf.FillOne | src/trace.c:118-125 | a single verdict writes only its own slot, and a verdict that writes nothing leaves the table as it was |
| Dwarf.WalkFrom | src/trace.c:171-199 | the walk's verdicts are all matches |
| Dwarf.Blank | src/trace.c:17-27 | a freshly allocated table has every record zeroed |
| Dwarf.Fill | src/trace.c:118-125 | writing verdicts into slots keeps the table length |
| Dwarf.FillAppend | src/trace.c:118-125 | writing two runs of verdicts writes the first, then the second from where the first stopped |
| Dwarf.FillAt | src/trace.c:118-125 | after the writes, each slot in the written range holds its verdict's write and every other slot is untouched |
| Dwarf.WalkStep | src/trace.c:171-197 | a complete unit entered below the requested count adds its verdicts and hands the rest of the walk a larger total |
| Dwarf.WalkedToStart | src/trace.c:171-176 | the walk starts with nothing found |
| Dwarf.WalkedToEnter | src/trace.c:176-189 | the unit the walk enters next has children or ends in an error, writes inside the table, and a truncated one fails the walk |
| Dwarf.WalkedToNext | src/trace.c:189-196 | a complete unit moves the walk on by its verdicts |
| Dwarf.WalkedToEnd | src/trace.c:171-176 | when the units run out or the count is reached the walk has ended without error |
| Dwarf.Visited | src/trace.c:171-199 | the number of units visited is at most the number of units |
| Dwarf.WalkIsVisitedPrefix | src/trace.c:171-199 | the walk's verdicts are those of the units it visits, in order |
| Dwarf.WalkEntersBelowCount | src/trace.c:171-176 | every visited unit is entered with the running total below the requested count |
| Dwarf.WalkStops | src/trace.c:171-209 | the walk stops at the first libdwarf error: it fails exactly when its last visited unit is truncated and no earlier visited unit is; otherwise it ran out of units or reached the requested count |
| Dwarf.FlattenCons | src/trace.c:171-199 | the verdicts of the first `q` units are the first unit's followed by the next `q - 1` |
| Dwarf.UnreadableDieCountsAsMatch | src/trace.c:55-77 | any DIE whose tag, name attribute or name cannot be read adds a `ReadError` match to its unit's count and leaves the slot at `next_func` unchanged |
| Tracer.TraceInfo.InfoFree | src/trace.c:29-39 | the table is released and `prog_fd` is -1 |
| Tracer.TraceInfo.IsTargetFunction | src/trace.c:41-97 | returns true exactly when the classification is not a rejection; the table changes only at `next_func`, by that verdict's write |
| Tracer.TraceInfo.CuFindFunctions | src/trace.c:99-140 | `next_func` advances by the unit's counted verdicts, each written into its slot in order; the result is their number, or -1 when the walk over the unit fails |
| Tracer.TraceInfo.WalkUnits | src/trace.c:171-203 | succeeds exactly when the walk ends without error having found exactly the requested number; the table then holds every verdict's write |
| Tracer.TraceInfo.VisitUnit | src/trace.c:177-196 | resolving one more unit fails the walk when the unit is truncated, and otherwise advances `next_func` by what it found and the walk and the table by its verdicts |
| Tracer.TraceInfo.FindFunctions | src/trace.c:142-210 | succeeds exactly when the file opens, libdwarf starts and the walk finds exactly the requested number without error; then slot `i` holds the `i`-th verdict's write; a failure frees the table and resets `prog_fd` |
| Tracer.TraceInfo.AddBreakpoint | src/trace.c:212-227 | the child and the record become what `ArmSite` gives; no other record changes |
| Tracer.TraceInfo.RestoreFunction | src/trace.c:294-316 | the child becomes what `DisarmSite` gives |
| Tracer.TraceInfo.SingleStep | src/trace.c:341-359 | succeeds exactly when the child is alive and survives the step; otherwise a live child's pid becomes -1 |
| Tracer.TraceInfo.AddBreakpoints | src/trace.c:229-245 | the child and the table become what `AddBreakpointsSpec` gives |
| Tracer.TraceInfo.GetReturnAddress | src/trace.c:318-339 | succeeds exactly when the stack top is readable, and then returns the word there |
| Tracer.TraceInfo.ReplaySite | src/trace.c:386-398 | restore, single step and re-arm leave the child and the record as `Engine.Replay` gives; no other record changes |
| Tracer.TraceInfo.CountInstructions | src/trace.c:361-448 | status, count, child and record become what `CountSpec` gives; no other record changes |
| Tracer.TraceInfo.StepToReturn | src/trace.c:401-413 | the counting loop ends with the child and the step count `RunToReturn` gives: at the return address, gone, or out of fuel |
| Tracer.TraceInfo.Continue | src/trace.c:451-501 | outcome, child and record become what `ContinueSpec` gives; no other record changes |
| Tracer.TraceInfo.FunctionCall | src/trace.c:517-550 | status, child and table become what `FunctionCallSpec` gives |

## Left out

- ChildModel.PokeText: a write fails exactly where a read of the same
  address fails (dead child or unmapped address), as `PTRACE_POKETEXT`
  writes with forced access to any word `PTRACE_PEEKTEXT` can read; a write
  failing right after a successful read, as when the child is killed in
  between, is not modelled, so the paths that return false with the read
  word already saved (src/trace.c:223-226 and 308-313) do not occur.
- Dwarf.Classify: a `DW_DLV_NO_ENTRY` result of `dwarf_attr`,
  `dwarf_formstring` or `dwarf_lowpc` is not an error in the source, which
  then reads an uninitialised `attr`, `name` or `addr` (src/trace.c:65-72,
  72-80, 85-91); the model takes the value read as part of the DIE's
  input, so a subprogram without `DW_AT_low_pc` is found with that
  arbitrary address, and what the uninitialised reads really yield is not
  modelled.
- The system calls themselves (`ptrace`, `waitpid`, `kill`, `open`,
  `close`): each is a function on the child value or a parameter; closing
  `prog_fd` is not modelled.
- `trace_launch` (fork, `PTRACE_TRACEME`, exec, the first wait) and the event
  loop `trace_function_calls` with its decoding of wait statuses: they are
  process creation and signal plumbing, outside the engine.
- libdwarf: the walk is given the DIEs libdwarf would report, one CU DIE per
  compilation unit; every libdwarf error in the unit loop (`dwarf_next_cu_header`,
  `dwarf_siblingof` on the CU DIE, `dwarf_child`, `dwarf_siblingof` on a child)
  is a truncated unit.
- `strdup` and `calloc` failure: allocation is assumed to succeed.
- The results sink parameter of `trace_function_call`: it is never used.
- Diagnostic output on standard error.
- Instruction semantics: single-stepping is an oracle from the registers
  and memory to the next state or an exit; the general registers other than
  the instruction and stack pointers are a sequence of words, and flags,
  floating-point and vector registers are not modelled; the memory is a map from addresses to words, so
  two overlapping words at neighbouring addresses are not kept consistent.
- Tracer.TraceInfo.CountInstructions: the counting loop is bounded by a
  `fuel` number of steps, because a child that never returns makes the
  source loop forever; running out is the extra status `FuelExhausted`.
- Tracer.TraceInfo.CountInstructions: the count is unbounded, not a
  `size_t`.
- Tracer.TraceInfo.GetReturnAddress: when the stack read fails the source
  leaves `return_address` uninitialised; the model takes that value as the
  parameter `garbage`.
- Tracer.TraceInfo.FindFunctions: writes past the table (two matches in one
  unit beyond the requested count) and a compilation unit without children
  (where `dwarf_child` leaves the DIE uninitialised) are excluded by the
  precondition `Dwarf.WellDefined` rather than modelled.
- `trace_get_child_ip` and the register reads and writes around the engine
  are modelled only through the instruction pointer; a register request
  fails exactly on a dead child.
