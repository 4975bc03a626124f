/** trace_info_t and the procedures of src/trace.c that update it in place:
    the resolution walk that fills the function table, arming and disarming
    breakpoints, the counting engine and the trap dispatcher. Each method is
    proved against the specification function of the same procedure. */
module Tracer {
  import opened Words
  import opened ChildModel
  import opened Breakpoints
  import opened Engine
  import opened Dwarf

  class TraceInfo {
    /** args->functions; args->num_functions is its length. */
    const functions: seq<string>
    /** How the child answers a single step. */
    const step: Oracle
    /** function_infos; num_func_infos is its length. */
    var table: array<FunctionInfo>
    /** function_infos != NULL. */
    var hasTable: bool
    var nextFunc: int
    var progFd: int
    /** The child behind child_pid. */
    var child: Child

    /** A session before resolution: no table, no open file. */
    constructor (functions: seq<string>, step: Oracle, child: Child)
      ensures this.functions == functions && this.step == step && this.child == child
      ensures !hasTable && progFd == -1 && nextFunc == 0
    {
      this.functions := functions;
      this.step := step;
      this.child := child;
      table := new FunctionInfo[0];
      hasTable := false;
      nextFunc := 0;
      progFd := -1;
    }

    /** trace_info_free: release the table and forget the file (closing it
        is not modelled). */
    method InfoFree()
      modifies this`hasTable, this`progFd
      ensures !hasTable && progFd == -1
    {
      hasTable := false;
      progFd := -1;
    }

    /** trace_is_target_function: classify one DIE and fill the slot at
        next_func when it names a requested function. */
    method IsTargetFunction(die: Die) returns (res: bool)
      requires 0 <= nextFunc
      requires Writes(Classify(die, functions)) ==> nextFunc < table.Length
      modifies table
      ensures res <==> !Classify(die, functions).NotTarget?
      ensures table[..] == Fill(old(table[..]), nextFunc, [Classify(die, functions)])
    {
      // each `return -1` of the source is a `true` once converted to bool
      if die.tag.None? {
        return true;
      }
      if die.tag.value != TagSubprogram {
        return false;
      }
      if die.nameAttr == AttrError {
        return true;
      }
      if die.name.None? {
        return true;
      }
      var name := die.name.value;
      var i := 0;
      while i < |functions|
        invariant 0 <= i <= |functions|
        invariant forall j :: 0 <= j < i ==> functions[j] != name
      {
        if functions[i] == name {
          table[nextFunc] := table[nextFunc].(name := Some(name));
          if die.lowPc.None? {
            table[nextFunc] := table[nextFunc].(name := None);
            return true;
          }
          table[nextFunc] := table[nextFunc].(ip := die.lowPc.value);
          return true;
        }
        i := i + 1;
      }
      return false;
    }

    /** trace_cu_find_functions: classify the children of one CU DIE in
        sibling order, advancing next_func for each match; -1 when the walk
        over them ends in a libdwarf error. */
    method CuFindFunctions(cu: Cu) returns (count: int)
      requires 0 <= nextFunc
      requires |cu.dies| > 0 || cu.truncated
      requires Fits(table.Length, nextFunc, Counted(cu.dies, functions))
      modifies this`nextFunc, table
      ensures nextFunc == old(nextFunc) + |Counted(cu.dies, functions)|
      ensures count == if cu.truncated then -1 else |Counted(cu.dies, functions)|
      ensures table[..] == Fill(old(table[..]), old(nextFunc), Counted(cu.dies, functions))
    {
      ghost var base, start := table[..], nextFunc;
      count := 0;
      var k := 0;
      while k < |cu.dies|
        invariant 0 <= k <= |cu.dies|
        invariant nextFunc == start + |Counted(cu.dies[..k], functions)| == start + count
        invariant table[..] == Fill(base, start, Counted(cu.dies[..k], functions))
      {
        ghost var before := Counted(cu.dies[..k], functions);
        ghost var v := Classify(cu.dies[k], functions);
        CountedStep(cu.dies, k, functions);
        FillOne(table[..], nextFunc, v);
        var res := IsTargetFunction(cu.dies[k]);
        if res {
          FillAppend(base, start, before, [v]);
          nextFunc := nextFunc + 1;
          count := count + 1;
        }
        k := k + 1;
      }
      assert cu.dies[..k] == cu.dies;
      if cu.truncated {
        count := -1;
      }
    }

    /** trace_find_functions: allocate the table, open the target (`fd` is
        what open returned), initialise libdwarf (`dwarfOk`), walk the
        compilation units while fewer functions than requested were found,
        and succeed exactly when the total equals the requested count;
        on any failure free the table and reset prog_fd. */
    method FindFunctions(fd: int, dwarfOk: bool, cus: seq<Cu>) returns (ok: bool)
      requires fd >= 0 && dwarfOk ==> WellDefined(cus, functions, |functions|, 0)
      modifies this
      ensures child == old(child)
      ensures var w := WalkFrom(cus, functions, |functions|, 0);
              ok <==> fd >= 0 && dwarfOk && !w.failed && |w.verdicts| == |functions|
      ensures ok ==> && hasTable && fresh(table) && progFd == fd
                     && table.Length == |functions| && nextFunc == |functions|
                     && forall i :: 0 <= i < table.Length ==>
                          table[i] == Written(Empty, WalkFrom(cus, functions, |functions|, 0).verdicts[i])
      ensures !ok ==> !hasTable && progFd == -1
    {
      // trace_info_initialize
      progFd := -1;
      table := new FunctionInfo[|functions|](_ => Empty);
      hasTable := true;
      nextFunc := 0;

      progFd := fd;
      if progFd < 0 {
        InfoFree();
        return false;
      }
      if !dwarfOk {
        InfoFree();
        return false;
      }

      assert table[..] == Blank(|functions|);
      ok := WalkUnits(cus);
      if !ok {
        InfoFree();
        return false;
      }
      forall i | 0 <= i < table.Length
        ensures table[i] == Written(Empty, WalkFrom(cus, functions, |functions|, 0).verdicts[i])
      {
        FillAt(Blank(|functions|), 0, WalkFrom(cus, functions, |functions|, 0).verdicts, i);
      }
    }

    /** The compilation-unit loop of trace_find_functions over a blank
        table, stopping at the first truncated unit; `ok` when it ends
        without error having counted exactly as many functions as were
        requested. */
    method WalkUnits(cus: seq<Cu>) returns (ok: bool)
      requires table.Length == |functions| && nextFunc == 0 && table[..] == Blank(|functions|)
      requires WellDefined(cus, functions, |functions|, 0)
      modifies this`nextFunc, table
      ensures var w := WalkFrom(cus, functions, |functions|, 0);
              && (ok <==> !w.failed && |w.verdicts| == |functions|)
              && (ok ==> nextFunc == |functions| && table[..] == Fill(Blank(|functions|), 0, w.verdicts))
    {
      var num := table.Length;
      ghost var done: seq<Verdict> := [];
      WalkedToStart(cus, functions, num);
      var total := 0;
      var k := 0;
      while k < |cus| && total < num
        invariant 0 <= k && total == nextFunc
        invariant WalkedTo(cus, functions, num, k, total, done)
        invariant table[..] == Fill(Blank(num), 0, done)
      {
        var found;
        found, done := VisitUnit(cus, k, done);
        if found < 0 {
          return false;
        }
        total := total + found;
        k := k + 1;
      }
      WalkedToEnd(cus, functions, num, k, total, done);
      return num == total;
    }

    /** One pass of the unit loop of trace_find_functions: resolve unit `k`
        and add what it found to the running total. */
    method VisitUnit(cus: seq<Cu>, k: nat, ghost done: seq<Verdict>) returns (found: int, ghost done': seq<Verdict>)
      requires k < |cus| && 0 <= nextFunc < table.Length
      requires WalkedTo(cus, functions, table.Length, k, nextFunc, done)
      requires table[..] == Fill(Blank(table.Length), 0, done)
      modifies this`nextFunc, table
      ensures found < 0 ==> WalkFrom(cus, functions, table.Length, 0).failed
      ensures found >= 0 ==> && nextFunc == old(nextFunc) + found
                             && WalkedTo(cus, functions, table.Length, k + 1, nextFunc, done')
                             && table[..] == Fill(Blank(table.Length), 0, done')
    {
      ghost var vs := Counted(cus[k].dies, functions);
      WalkedToEnter(cus, functions, table.Length, k, nextFunc, done);
      found := CuFindFunctions(cus[k]);
      done' := done + vs;
      if found >= 0 {
        WalkedToNext(cus, functions, table.Length, k, old(nextFunc), done);
        FillAppend(Blank(table.Length), 0, done, vs);
      }
    }

    /** trace_add_breakpoint on record `k`. */
    method AddBreakpoint(k: nat) returns (ok: bool)
      requires k < table.Length
      modifies this`child, table
      ensures var a := ArmSite(old(child), old(table[k]));
              ok == a.ok && child == a.c && table[k] == a.fi
      ensures forall j :: 0 <= j < table.Length && j != k ==> table[j] == old(table[j])
    {
      var peeked := PeekText(child, table[k].ip);
      var word := if peeked.Some? then peeked.value else AllOnes;
      table[k] := table[k].(original := word);
      if peeked.None? {
        return false;
      }
      var poked := PokeText(child, table[k].ip, ArmedWord(table[k].original));
      if poked.None? {
        return false;
      }
      child := poked.value;
      return true;
    }

    /** trace_restore_function on record `k`. */
    method RestoreFunction(k: nat) returns (ok: bool)
      requires k < table.Length
      modifies this`child
      ensures DisarmSite(old(child), table[k]) == Stepped(ok, child)
    {
      var peeked := PeekText(child, table[k].ip);
      if peeked.None? {
        return false;
      }
      var poked := PokeText(child, table[k].ip, RestoredWord(peeked.value, table[k].original));
      if poked.None? {
        return false;
      }
      child := poked.value;
      return true;
    }

    /** trace_single_step: PTRACE_SINGLESTEP then waitpid; an exit or a
        signal invalidates child_pid. */
    method SingleStep() returns (ok: bool)
      modifies this`child
      ensures ChildModel.SingleStep(old(child), step) == Stepped(ok, child)
      ensures ok <==> old(child).alive && step(old(child).m).Some?
      ensures !ok && old(child).alive ==> !child.alive && child.pid == -1
    {
      if !child.alive {
        return false;
      }
      var next := step(child.m);
      if next.None? {
        child := child.(alive := false, pid := -1);
        return false;
      }
      child := child.(m := next.value);
      return true;
    }

    /** trace_add_breakpoints: arm every record in table order; kill the
        child at the first failure; otherwise continue it once. */
    method AddBreakpoints() returns (ok: bool)
      modifies this`child, table
      ensures var b := AddBreakpointsSpec(old(child), old(table[..]));
              b.ok == ok && b.c == child && b.table == table[..]
    {
      var i := 0;
      while i < table.Length
        invariant 0 <= i <= table.Length
        invariant ArmFrom(old(child), old(table[..]), 0) == ArmFrom(child, table[..], i)
      {
        ghost var c0, t0 := child, table[..];
        var armed := AddBreakpoint(i);
        assert t0[i := table[i]] == table[..];
        if !armed {
          child := Kill(child);
          return false;
        }
        i := i + 1;
      }
      assert ArmFrom(child, table[..], i) == Batch(true, child, table[..], i);
      // the result of PTRACE_CONT is not looked at
      var resumed := Cont(child);
      if resumed.Some? {
        child := resumed.value;
      }
      return true;
    }

    /** trace_get_return_address: the word at the top of the stack; the
        caller ignores `ok`, and `garbage` is what `addr` holds when the
        read fails. */
    method GetReturnAddress(garbage: Word) returns (ok: bool, addr: Word)
      ensures ok <==> child.alive && child.m.sp in child.m.mem
      ensures addr == ReturnAddress(child, garbage)
      ensures ok ==> addr == child.m.mem[child.m.sp]
    {
      var peeked := PeekText(child, child.m.sp);
      ok := peeked.Some?;
      addr := if ok then peeked.value else garbage;
    }

    /** Disarm record `k`, single-step once, re-arm it. */
    method ReplaySite(k: nat) returns (ok: bool)
      requires k < table.Length
      modifies this`child, table
      ensures var r := Replay(old(child), old(table[k]), step);
              ok == r.ok && child == r.c && table[k] == r.fi
      ensures forall j :: 0 <= j < table.Length && j != k ==> table[j] == old(table[j])
    {
      ok := RestoreFunction(k);
      if !ok {
        return;
      }
      ok := SingleStep();
      if !ok {
        return;
      }
      ok := AddBreakpoint(k);
    }

    /** trace_count_instructions on record `k`, with the counting loop
        bounded by `fuel` single steps. */
    method CountInstructions(k: nat, garbage: Word, fuel: nat) returns (status: Status, count: nat)
      requires k < table.Length
      modifies this`child, table
      ensures CountSpec(old(child), old(table[k]), step, garbage, fuel) == CountResult(status, count, child, table[k])
      ensures forall j :: 0 <= j < table.Length && j != k ==> table[j] == old(table[j])
    {
      count := 0;
      // the result of trace_get_return_address is not looked at
      var _, returnAddress := GetReturnAddress(garbage);
      // PTRACE_GETREGS
      if !child.alive {
        return Failure, count;
      }
      // PTRACE_SETREGS with rip - 1
      var rewound := SetPc(child, Pred(child.m.pc));
      if rewound.None? {
        return Failure, count;
      }
      child := rewound.value;
      var ok := ReplaySite(k);
      if !ok {
        return Failure, count;
      }
      count := count + 1;
      var steps;
      status, steps := StepToReturn(returnAddress, fuel);
      count := count + steps;
      if status != Success {
        return status, count;
      }

      ok := ReplaySite(k);
      if !ok {
        return Failure, count;
      }
      // PTRACE_GETREGS succeeds on the live child
      var resumed := Cont(child);
      if resumed.None? {
        return Failure, count;
      }
      child := resumed.value;
      return Success, count;
    }

    /** The counting loop of trace_count_instructions: compare the
        instruction pointer with `ret`, single-step while they differ, at most
        `fuel` times; Success when `ret` is reached, Failure when the child
        exits, FuelExhausted when the bound is hit. */
    method StepToReturn(ret: Word, fuel: nat) returns (status: Status, steps: nat)
      requires child.alive
      modifies this`child
      ensures var r := RunToReturn(step, old(child), ret, fuel);
              && child == r.c && steps == r.steps
              && (status == Success <==> r.Returned?)
              && (status == Failure <==> r.Gone?)
              && (status == FuelExhausted <==> r.OutOfFuel?)
    {
      ghost var entered := child;
      steps := 0;
      var fuelLeft: nat := fuel;
      while true
        invariant child.alive
        invariant RunToReturn(step, entered, ret, fuel) == Later(RunToReturn(step, child, ret, fuelLeft), steps)
        decreases fuelLeft
      {
        // trace_get_child_ip; its result is not looked at and cannot fail
        // on a live child
        var ip := child.m.pc;
        if ip == ret {
          return Success, steps;
        }
        if fuelLeft == 0 {
          return FuelExhausted, steps;
        }
        ghost var before := child;
        var ok := SingleStep();
        if !ok {
          return Failure, steps;
        }
        RunToReturnUnfold(step, before, ret, fuelLeft, steps);
        steps := steps + 1;
        fuelLeft := fuelLeft - 1;
      }
    }

    /** trace_continue on record `k`: the same protocol without counting. */
    method Continue(k: nat) returns (ok: bool)
      requires k < table.Length
      modifies this`child, table
      ensures ContinueSpec(old(child), old(table[k]), step) == Armed(ok, child, table[k])
      ensures forall j :: 0 <= j < table.Length && j != k ==> table[j] == old(table[j])
    {
      if !child.alive {
        return false;
      }
      var rewound := SetPc(child, Pred(child.m.pc));
      if rewound.None? {
        return false;
      }
      child := rewound.value;
      ok := ReplaySite(k);
      if !ok {
        return;
      }
      var resumed := Cont(child);
      if resumed.None? {
        return false;
      }
      child := resumed.value;
      return true;
    }

    /** trace_function_call: dispatch one trap. */
    method FunctionCall(garbage: Word, fuel: nat) returns (status: Status)
      modifies this`child, table
      ensures FunctionCallSpec(old(child), old(table[..]), step, garbage, fuel) == Dispatch(status, child, table[..])
    {
      // trace_get_child_ip
      if !child.alive {
        return Failure;
      }
      var found := FindFunctionInfo(table[..], child.m.pc);
      if found.None? {
        var resumed := Cont(child);
        if resumed.None? {
          return Failure;
        }
        child := resumed.value;
        return Success;
      }
      var count;
      status, count := CountInstructions(found.value, garbage, fuel);
      assert table[..] == old(table[..])[found.value := table[found.value]];
    }
  }
}
