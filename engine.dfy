/** The instruction-counting engine and the trap dispatcher, as functions
    of the child and the function table: trace_find_function_info,
    trace_count_instructions, trace_continue and trace_function_call. */
module Engine {
  import opened Words
  import opened ChildModel
  import opened Breakpoints

  /** The search loop of trace_find_function_info from index `i` on. */
  function FindFrom(table: seq<FunctionInfo>, pc: Word, i: nat): (r: Option<nat>)
    requires i <= |table|
    ensures r.Some? ==> i <= r.value < |table| && table[r.value].ip == Pred(pc)
    ensures r.Some? ==> forall j :: i <= j < r.value ==> table[j].ip != Pred(pc)
    ensures r.None? ==> forall j :: i <= j < |table| ==> table[j].ip != Pred(pc)
    decreases |table| - i
  {
    if i == |table| then None
    else if table[i].ip == Pred(pc) then Some(i)
    else FindFrom(table, pc, i + 1)
  }

  /** trace_find_function_info: the first record, in table order, whose
      entry is one byte before the trapping instruction pointer (unsigned
      `pc - 1`); None when there is no such record. */
  function FindFunctionInfo(table: seq<FunctionInfo>, pc: Word): (r: Option<nat>)
    ensures r.Some? ==> r.value < |table| && table[r.value].ip == Pred(pc)
                        && forall j :: 0 <= j < r.value ==> table[j].ip != Pred(pc)
    ensures r.None? <==> forall j :: 0 <= j < |table| ==> table[j].ip != Pred(pc)
  {
    FindFrom(table, pc, 0)
  }

  /** The machine with the site's low byte put back from the saved word. */
  function Disarmed(m: Machine, fi: FunctionInfo): Machine
    requires fi.ip in m.mem
  {
    m.(mem := m.mem[fi.ip := RestoredWord(m.mem[fi.ip], fi.original)])
  }

  /** The machine with the site armed again. */
  function Rearmed(m: Machine, ip: Word): Machine
    requires ip in m.mem
  {
    m.(mem := m.mem[ip := ArmedWord(m.mem[ip])])
  }

  /** Disarm the site, single-step the instruction at the current pc, re-arm
      the site. At function entry the pc is the site itself; after the
      return it is the return address, so the step runs the caller's
      instruction there with the site disarmed. */
  function Replay(c: Child, fi: FunctionInfo, step: Oracle): (r: Armed)
    ensures r.fi.ip == fi.ip && r.fi.name == fi.name
    ensures r.c.continues == c.continues
    ensures r.ok <==> && c.alive && fi.ip in c.m.mem
                      && step(Disarmed(c.m, fi)).Some?
                      && fi.ip in step(Disarmed(c.m, fi)).value.mem
    ensures r.ok ==> var m' := step(Disarmed(c.m, fi)).value;
                     && r.fi.original == m'.mem[fi.ip]
                     && r.c == c.(m := Rearmed(m', fi.ip))
    ensures c.alive && fi.ip in c.m.mem && step(Disarmed(c.m, fi)).None? ==>
              !r.c.alive && r.c.pid == -1
    ensures r.c.alive ==> r.c.pid == c.pid
    ensures !r.c.alive ==> r.c.pid == -1 || r.c == c
  {
    var d := DisarmSite(c, fi);
    if !d.ok then Armed(false, d.c, fi)
    else
      var s := SingleStep(d.c, step);
      if !s.ok then Armed(false, s.c, fi)
      else ArmSite(s.c, fi)
  }

  /** trace_get_return_address: the word at the top of the stack. Its
      failure is not looked at by the caller, so the return address is then
      whatever the uninitialised local held, given here as `garbage`. */
  function ReturnAddress(c: Child, garbage: Word): (r: Word)
    ensures c.alive && c.m.sp in c.m.mem ==> r == c.m.mem[c.m.sp]
    ensures !(c.alive && c.m.sp in c.m.mem) ==> r == garbage
  {
    match PeekText(c, c.m.sp)
    case Some(w) => w
    case None => garbage
  }

  /** The child after PTRACE_SETREGS with the instruction pointer moved back
      over the INT3 byte. */
  function Rewound(c: Child): (r: Child)
    ensures (r.m.pc as int + 1) % WordSize == c.m.pc as int
    ensures r == c.(m := c.m.(pc := r.m.pc))
  {
    c.(m := c.m.(pc := Pred(c.m.pc)))
  }

  datatype Status = Success | Failure | FuelExhausted

  datatype CountResult = CountResult(status: Status, count: nat, c: Child, fi: FunctionInfo)

  /** trace_count_instructions, with the counting loop bounded by `fuel`
      steps (FuelExhausted when the bound is hit). */
  function CountSpec(c: Child, fi: FunctionInfo, step: Oracle, garbage: Word, fuel: nat): (r: CountResult)
    ensures r.fi.ip == fi.ip && r.fi.name == fi.name
  {
    var ret := ReturnAddress(c, garbage);
    if !c.alive then CountResult(Failure, 0, c, fi)
    else
      var e := Replay(Rewound(c), fi, step);
      if !e.ok then CountResult(Failure, 0, e.c, e.fi)
      else match RunToReturn(step, e.c, ret, fuel)
        case Gone(c2, n) => CountResult(Failure, 1 + n, c2, e.fi)
        case OutOfFuel(c2, n) => CountResult(FuelExhausted, 1 + n, c2, e.fi)
        case Returned(c2, n) =>
          var x := Replay(c2, e.fi, step);
          if !x.ok then CountResult(Failure, 1 + n, x.c, x.fi)
          else match Cont(x.c)
            case None => CountResult(Failure, 1 + n, x.c, x.fi)
            case Some(c3) => CountResult(Success, 1 + n, c3, x.fi)
  }

  /** trace_continue: rewind, disarm, step, re-arm and continue, without
      counting. */
  function ContinueSpec(c: Child, fi: FunctionInfo, step: Oracle): (r: Armed)
    ensures r.fi.ip == fi.ip && r.fi.name == fi.name
  {
    if !c.alive then Armed(false, c, fi)
    else
      var x := Replay(Rewound(c), fi, step);
      if !x.ok then x
      else match Cont(x.c)
        case None => Armed(false, x.c, x.fi)
        case Some(c') => Armed(true, c', x.fi)
  }

  datatype Dispatch = Dispatch(status: Status, c: Child, table: seq<FunctionInfo>)

  /** trace_function_call: read the instruction pointer, look the trap up,
      pass an unknown trap through with a continue, count a known one. */
  function FunctionCallSpec(c: Child, table: seq<FunctionInfo>, step: Oracle, garbage: Word, fuel: nat): (r: Dispatch)
    ensures |r.table| == |table|
  {
    if !c.alive then Dispatch(Failure, c, table)
    else match FindFunctionInfo(table, c.m.pc)
      case None =>
        (match Cont(c)
         case None => Dispatch(Failure, c, table)
         case Some(c') => Dispatch(Success, c', table))
      case Some(k) =>
        var r := CountSpec(c, table[k], step, garbage, fuel);
        Dispatch(r.status, r.c, table[k := r.fi])
  }

  /** A trap at an armed entry: the instruction pointer is one past the
      entry and the entry holds the armed form of the saved word. */
  ghost predicate AtArmedTrap(c: Child, fi: FunctionInfo) {
    && c.alive
    && Pred(c.m.pc) == fi.ip
    && fi.ip in c.m.mem
    && c.m.mem[fi.ip] == ArmedWord(fi.original)
  }

  /** At an armed trap, the first instruction stepped by the engine runs
      from the entry address over the untouched original word: the child
      executes exactly what it would have executed without the breakpoint. */
  lemma FirstStepRunsOriginalCode(c: Child, fi: FunctionInfo)
    requires AtArmedTrap(c, fi)
    ensures fi.ip in Rewound(c).m.mem
    ensures Disarmed(Rewound(c).m, fi) == c.m.(pc := fi.ip, mem := c.m.mem[fi.ip := fi.original])
  {
    InstallThenRestore(fi.original);
  }

  /** A successful count: at least one instruction; exactly one plus the
      number of loop steps, which is the number of single steps from the
      state after the first instruction until the instruction pointer first
      equals the return address read at entry; the site is armed again with
      the word that was there after the return; one continue is issued. */
  lemma CountSuccess(c: Child, fi: FunctionInfo, step: Oracle, garbage: Word, fuel: nat)
    requires CountSpec(c, fi, step, garbage, fuel).status == Success
    ensures var r := CountSpec(c, fi, step, garbage, fuel);
            var e := Replay(Rewound(c), fi, step);
            var ret := ReturnAddress(c, garbage);
            && c.alive && e.ok
            && r.count >= 1
            && r.count - 1 <= fuel
            && StepN(step, e.c.m, r.count - 1).Some?
            && StepN(step, e.c.m, r.count - 1).value.pc == ret
            && (forall j :: 0 <= j < r.count - 1 ==>
                  StepN(step, e.c.m, j).Some? && StepN(step, e.c.m, j).value.pc != ret)
            && r.c.alive && r.c.pid == c.pid
            && r.c.continues == c.continues + 1
            && r.fi.ip in r.c.m.mem
            && r.c.m.mem[r.fi.ip] == ArmedWord(r.fi.original)
  {
    var e := Replay(Rewound(c), fi, step);
    var ret := ReturnAddress(c, garbage);
    RunToReturnReturned(step, e.c, ret, fuel);
  }

  /** The count agrees with an independent description of the loop: if the
      return address is first reached `n` steps after the first instruction,
      within the fuel, the loop stops after exactly those `n` steps. */
  lemma CountMatchesFirstReturn(c: Child, fi: FunctionInfo, step: Oracle, garbage: Word, fuel: nat, n: nat)
    requires c.alive
    requires Replay(Rewound(c), fi, step).ok
    requires n <= fuel
    requires var m := Replay(Rewound(c), fi, step).c.m;
             var ret := ReturnAddress(c, garbage);
             && StepN(step, m, n).Some? && StepN(step, m, n).value.pc == ret
             && forall j :: 0 <= j < n ==> StepN(step, m, j).Some? && StepN(step, m, j).value.pc != ret
    ensures CountSpec(c, fi, step, garbage, fuel).count == n + 1
    ensures CountSpec(c, fi, step, garbage, fuel).status != FuelExhausted
  {
    var e := Replay(Rewound(c), fi, step);
    RunToReturnComplete(step, e.c, ReturnAddress(c, garbage), fuel, n);
  }

  /** Whenever the child is seen to exit during counting, the pid is set to
      -1 and the count fails; a count that does not succeed never issues a
      continue. */
  lemma CountChildGone(c: Child, fi: FunctionInfo, step: Oracle, garbage: Word, fuel: nat)
    requires c.alive
    ensures var r := CountSpec(c, fi, step, garbage, fuel);
            && (!r.c.alive ==> r.status == Failure && r.c.pid == -1)
            && (r.status != Success ==> r.c.continues == c.continues)
  {
    var e := Replay(Rewound(c), fi, step);
    if e.ok {
      var ret := ReturnAddress(c, garbage);
      match RunToReturn(step, e.c, ret, fuel)
      case Gone(c2, n) =>
        RunToReturnGone(step, e.c, ret, fuel);
      case OutOfFuel(c2, n) =>
        RunToReturnOutOfFuel(step, e.c, ret, fuel);
      case Returned(c2, n) =>
        RunToReturnReturned(step, e.c, ret, fuel);
    }
  }

  /** The lookup depends only on the records' entry addresses. */
  lemma {:induction false} FindFromSameEntries(t1: seq<FunctionInfo>, t2: seq<FunctionInfo>, pc: Word, i: nat)
    requires |t1| == |t2| && i <= |t1|
    requires forall j :: 0 <= j < |t1| ==> t1[j].ip == t2[j].ip
    ensures FindFrom(t1, pc, i) == FindFrom(t2, pc, i)
    decreases |t1| - i
  {
    if i < |t1| {
      FindFromSameEntries(t1, t2, pc, i + 1);
    }
  }

  /** Dispatching a trap changes at most the saved word of the record it
      counts: every name and entry address stays, so every later trap is
      looked up exactly as before. */
  lemma DispatchKeepsLookup(c: Child, table: seq<FunctionInfo>, step: Oracle, garbage: Word, fuel: nat, pc: Word)
    ensures var r := FunctionCallSpec(c, table, step, garbage, fuel);
            && (forall i :: 0 <= i < |table| ==> r.table[i].ip == table[i].ip && r.table[i].name == table[i].name)
            && FindFunctionInfo(r.table, pc) == FindFunctionInfo(table, pc)
  {
    var r := FunctionCallSpec(c, table, step, garbage, fuel);
    FindFromSameEntries(r.table, table, pc, 0);
  }

  /** The outcome of one dispatch on a live child: a trap at no known entry
      is passed through with one continue and nothing else changed; a
      successful dispatch leaves the child alive under its pid with exactly
      one more continue; an unsuccessful one issues none; and a child seen
      to exit has its pid invalidated and fails the dispatch. */
  lemma DispatchOutcome(c: Child, table: seq<FunctionInfo>, step: Oracle, garbage: Word, fuel: nat)
    requires c.alive
    ensures var r := FunctionCallSpec(c, table, step, garbage, fuel);
            && (FindFunctionInfo(table, c.m.pc).None? ==>
                  r == Dispatch(Success, c.(continues := c.continues + 1), table))
            && (r.status == Success ==> r.c.alive && r.c.pid == c.pid && r.c.continues == c.continues + 1)
            && (r.status != Success ==> r.c.continues == c.continues)
            && (!r.c.alive ==> r.status == Failure && r.c.pid == -1)
  {
    match FindFunctionInfo(table, c.m.pc)
    case None =>
    case Some(k) =>
      CountChildGone(c, table[k], step, garbage, fuel);
      if CountSpec(c, table[k], step, garbage, fuel).status == Success {
        CountSuccess(c, table[k], step, garbage, fuel);
      }
  }

  /** trace_continue at an armed trap runs the function's first instruction
      over its original word, re-arms the site with the word found there
      afterwards and issues one continue; it fails exactly when the child
      exits during that step or the entry is no longer mapped. */
  lemma ContinueAtArmedTrap(c: Child, fi: FunctionInfo, step: Oracle)
    requires AtArmedTrap(c, fi)
    ensures var r := ContinueSpec(c, fi, step);
            var next := step(c.m.(pc := fi.ip, mem := c.m.mem[fi.ip := fi.original]));
            && (r.ok <==> next.Some? && fi.ip in next.value.mem)
            && (r.ok ==> && r.c == c.(m := Rearmed(next.value, fi.ip), continues := c.continues + 1)
                         && r.fi == fi.(original := next.value.mem[fi.ip]))
            && (!r.ok ==> r.c.continues == c.continues && r.fi.ip == fi.ip)
  {
    FirstStepRunsOriginalCode(c, fi);
  }
}
