/** The traced child as the tracer sees it through ptrace and waitpid.
    Registers and memory are a value; each ptrace request is a function
    from that value to a success or failure outcome. */
module ChildModel {
  import opened Words

  datatype Option<T> = None | Some(value: T)

  /** The child's user registers and the mapped words of its address
      space: the instruction pointer and stack pointer, which the tracer
      reads and writes, and the other general registers, which it never
      touches but which decide, with memory, what the next step does. */
  datatype Machine = Machine(pc: Word, sp: Word, regs: seq<Word>, mem: map<Word, Word>)

  /** The child: its machine state, whether it is still there to be traced,
      the pid the tracer holds for it (-1 once an exit was observed), and
      how many PTRACE_CONT requests it has been given. */
  datatype Child = Child(m: Machine, alive: bool, pid: int, continues: nat)

  /** What one PTRACE_SINGLESTEP followed by waitpid does to the child:
      the next stopped state, or None when waitpid reports an exit or a
      terminating signal. The instruction semantics are not modelled. */
  type Oracle = Machine -> Option<Machine>

  /** PTRACE_PEEKTEXT: fails on a dead child or an unmapped address. */
  function PeekText(c: Child, addr: Word): (r: Option<Word>)
    ensures r.Some? <==> c.alive && addr in c.m.mem
    ensures r.Some? ==> r.value == c.m.mem[addr]
  {
    if c.alive && addr in c.m.mem then Some(c.m.mem[addr]) else None
  }

  /** PTRACE_POKETEXT: fails on a dead child or an unmapped address. */
  function PokeText(c: Child, addr: Word, w: Word): (r: Option<Child>)
    ensures r.Some? <==> c.alive && addr in c.m.mem
    ensures r.Some? ==> r.value.m.mem == c.m.mem[addr := w] && r.value.m.mem.Keys == c.m.mem.Keys
    ensures r.Some? ==> r.value == c.(m := c.m.(mem := c.m.mem[addr := w]))
  {
    if c.alive && addr in c.m.mem then Some(c.(m := c.m.(mem := c.m.mem[addr := w]))) else None
  }

  /** PTRACE_SETREGS with only the instruction pointer changed. */
  function SetPc(c: Child, pc: Word): (r: Option<Child>)
    ensures r.Some? <==> c.alive
    ensures r.Some? ==> r.value == c.(m := c.m.(pc := pc))
  {
    if c.alive then Some(c.(m := c.m.(pc := pc))) else None
  }

  /** PTRACE_CONT: resumes a live child; the request fails on a dead one. */
  function Cont(c: Child): (r: Option<Child>)
    ensures r.Some? <==> c.alive
    ensures r.Some? ==> r.value.continues == c.continues + 1 && r.value.(continues := c.continues) == c
  {
    if c.alive then Some(c.(continues := c.continues + 1)) else None
  }

  /** kill(pid, SIGKILL). */
  function Kill(c: Child): (r: Child)
    ensures !r.alive && r.m == c.m && r.pid == c.pid && r.continues == c.continues
  {
    c.(alive := false)
  }

  datatype Stepped = Stepped(ok: bool, c: Child)

  /** trace_single_step: one instruction, then wait for the stop. An exit or
      signal seen by waitpid invalidates the pid. */
  function SingleStep(c: Child, step: Oracle): (r: Stepped)
    ensures r.ok <==> c.alive && step(c.m).Some?
    ensures r.ok ==> r.c == c.(m := step(c.m).value)
    ensures !r.ok && c.alive ==> !r.c.alive && r.c.pid == -1 && r.c.m == c.m
    ensures !c.alive ==> r.c == c
    ensures r.c.continues == c.continues
  {
    if !c.alive then Stepped(false, c)
    else match step(c.m)
      case None => Stepped(false, c.(alive := false, pid := -1))
      case Some(m') => Stepped(true, c.(m := m'))
  }

  /** The machine state after `n` single steps, if the child survives them. */
  function StepN(step: Oracle, m: Machine, n: nat): Option<Machine>
    decreases n
  {
    if n == 0 then Some(m)
    else match step(m)
      case None => None
      case Some(m') => StepN(step, m', n - 1)
  }

  datatype Run = Returned(c: Child, steps: nat) | Gone(c: Child, steps: nat) | OutOfFuel(c: Child, steps: nat)

  /** The counting loop of trace_count_instructions: compare the instruction
      pointer with the return address; stop when equal, otherwise single-step
      and count. `fuel` bounds the number of steps taken. */
  function RunToReturn(step: Oracle, c: Child, ret: Word, fuel: nat): (r: Run)
    requires c.alive
    ensures r.steps <= fuel && r.c.continues == c.continues
    ensures r.Returned? ==> r.c.m.pc == ret
    ensures r.Gone? ==> !r.c.alive && r.c.pid == -1
    ensures !r.Gone? ==> r.c.alive && r.c.pid == c.pid
    decreases fuel
  {
    if c.m.pc == ret then Returned(c, 0)
    else if fuel == 0 then OutOfFuel(c, 0)
    else
      var s := SingleStep(c, step);
      if !s.ok then Gone(s.c, 0)
      else match RunToReturn(step, s.c, ret, fuel - 1)
        case Returned(c', n) => Returned(c', n + 1)
        case Gone(c', n) => Gone(c', n + 1)
        case OutOfFuel(c', n) => OutOfFuel(c', n + 1)
  }

  /** The same run with `n` more steps counted in front of it. */
  function Later(r: Run, n: nat): (r': Run)
    ensures r'.c == r.c && r'.steps == r.steps + n
    ensures r'.Returned? == r.Returned? && r'.Gone? == r.Gone? && r'.OutOfFuel? == r.OutOfFuel?
  {
    match r
    case Returned(c, k) => Returned(c, k + n)
    case Gone(c, k) => Gone(c, k + n)
    case OutOfFuel(c, k) => OutOfFuel(c, k + n)
  }

  /** A run that has already taken one step is the run from the stepped
      state, one step later. */
  lemma RunToReturnUnfold(step: Oracle, c: Child, ret: Word, fuel: nat, n: nat)
    requires c.alive && c.m.pc != ret && fuel > 0 && SingleStep(c, step).ok
    ensures Later(RunToReturn(step, c, ret, fuel), n)
            == Later(RunToReturn(step, SingleStep(c, step).c, ret, fuel - 1), n + 1)
  {
  }

  /** The loop stops exactly at the first state, in single-step order, whose
      instruction pointer is the return address; the count is the number of
      steps taken to reach it, and only the machine state changes. */
  lemma {:induction false} RunToReturnReturned(step: Oracle, c: Child, ret: Word, fuel: nat)
    requires c.alive
    requires RunToReturn(step, c, ret, fuel).Returned?
    ensures var r := RunToReturn(step, c, ret, fuel);
            && r.steps <= fuel
            && r.c.m.pc == ret
            && StepN(step, c.m, r.steps) == Some(r.c.m)
            && r.c == c.(m := r.c.m)
            && (forall j :: 0 <= j < r.steps ==> StepN(step, c.m, j).Some? && StepN(step, c.m, j).value.pc != ret)
    decreases fuel
  {
    if c.m.pc != ret {
      var s := SingleStep(c, step);
      RunToReturnReturned(step, s.c, ret, fuel - 1);
      var r := RunToReturn(step, c, ret, fuel);
      forall j | 0 <= j < r.steps
        ensures StepN(step, c.m, j).Some? && StepN(step, c.m, j).value.pc != ret
      {
        if j > 0 {
          assert StepN(step, c.m, j) == StepN(step, s.c.m, j - 1);
        }
      }
    }
  }

  /** Conversely: if the return address is first reached after `n` steps and
      the fuel allows `n` steps, the loop returns after exactly `n` steps. */
  lemma {:induction false} RunToReturnComplete(step: Oracle, c: Child, ret: Word, fuel: nat, n: nat)
    requires c.alive && n <= fuel
    requires StepN(step, c.m, n).Some? && StepN(step, c.m, n).value.pc == ret
    requires forall j :: 0 <= j < n ==> StepN(step, c.m, j).Some? && StepN(step, c.m, j).value.pc != ret
    ensures RunToReturn(step, c, ret, fuel) == Returned(c.(m := StepN(step, c.m, n).value), n)
    decreases n
  {
    if n > 0 {
      assert StepN(step, c.m, 0) == Some(c.m);
      var s := SingleStep(c, step);
      assert step(c.m).Some? by {
        assert StepN(step, c.m, n) != None;
      }
      forall j | 0 <= j < n - 1
        ensures StepN(step, s.c.m, j).Some? && StepN(step, s.c.m, j).value.pc != ret
      {
        assert StepN(step, c.m, j + 1) == StepN(step, s.c.m, j);
      }
      RunToReturnComplete(step, s.c, ret, fuel - 1, n - 1);
    }
  }

  /** The loop ends with the child gone exactly when some step before the
      return address saw the child exit; the pid is then invalidated. */
  lemma {:induction false} RunToReturnGone(step: Oracle, c: Child, ret: Word, fuel: nat)
    requires c.alive
    requires RunToReturn(step, c, ret, fuel).Gone?
    ensures var r := RunToReturn(step, c, ret, fuel);
            && !r.c.alive && r.c.pid == -1 && r.c.continues == c.continues
            && r.steps < fuel
            && StepN(step, c.m, r.steps).Some? && step(StepN(step, c.m, r.steps).value).None?
            && forall j :: 0 <= j <= r.steps ==> StepN(step, c.m, j).Some? && StepN(step, c.m, j).value.pc != ret
    decreases fuel
  {
    if c.m.pc != ret {
      var s := SingleStep(c, step);
      if s.ok {
        RunToReturnGone(step, s.c, ret, fuel - 1);
        var r := RunToReturn(step, c, ret, fuel);
        assert StepN(step, c.m, r.steps) == StepN(step, s.c.m, r.steps - 1);
        assert StepN(step, c.m, 0) == Some(c.m);
        forall j | 1 <= j <= r.steps
          ensures StepN(step, c.m, j).Some? && StepN(step, c.m, j).value.pc != ret
        {
          assert StepN(step, c.m, j) == StepN(step, s.c.m, j - 1);
        }
      }
    }
  }

  /** Conversely: if the child survives `n` steps, none of the states up to
      then is at the return address, the next step sees it exit, and the
      fuel allows that step, the loop ends with the child gone after `n`
      counted steps. */
  lemma {:induction false} RunToReturnGoneComplete(step: Oracle, c: Child, ret: Word, fuel: nat, n: nat)
    requires c.alive && n < fuel
    requires forall j :: 0 <= j <= n ==> StepN(step, c.m, j).Some? && StepN(step, c.m, j).value.pc != ret
    requires step(StepN(step, c.m, n).value).None?
    ensures RunToReturn(step, c, ret, fuel).Gone?
    ensures RunToReturn(step, c, ret, fuel).steps == n
    decreases n
  {
    assert StepN(step, c.m, 0) == Some(c.m);
    if n > 0 {
      var s := SingleStep(c, step);
      assert step(c.m).Some? by {
        assert StepN(step, c.m, 1).Some?;
      }
      forall j | 0 <= j <= n - 1
        ensures StepN(step, s.c.m, j).Some? && StepN(step, s.c.m, j).value.pc != ret
      {
        assert StepN(step, c.m, j + 1) == StepN(step, s.c.m, j);
      }
      assert StepN(step, c.m, n) == StepN(step, s.c.m, n - 1);
      RunToReturnGoneComplete(step, s.c, ret, fuel - 1, n - 1);
    }
  }

  /** The loop runs out of fuel only after taking every step the fuel
      allows, with the child still alive under the same pid, its machine the
      state `fuel` steps on, and no state up to and including that one at the
      return address. */
  lemma {:induction false} RunToReturnOutOfFuel(step: Oracle, c: Child, ret: Word, fuel: nat)
    requires c.alive
    requires RunToReturn(step, c, ret, fuel).OutOfFuel?
    ensures var r := RunToReturn(step, c, ret, fuel);
            && r.steps == fuel && r.c.alive && r.c.pid == c.pid && r.c.continues == c.continues
            && StepN(step, c.m, fuel) == Some(r.c.m)
            && (forall j :: 0 <= j <= fuel ==> StepN(step, c.m, j).Some? && StepN(step, c.m, j).value.pc != ret)
    decreases fuel
  {
    if fuel > 0 {
      var s := SingleStep(c, step);
      RunToReturnOutOfFuel(step, s.c, ret, fuel - 1);
      forall j | 0 <= j <= fuel
        ensures StepN(step, c.m, j).Some? && StepN(step, c.m, j).value.pc != ret
      {
        if j > 0 {
          assert StepN(step, c.m, j) == StepN(step, s.c.m, j - 1);
        }
      }
    }
  }
}
