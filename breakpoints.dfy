/** The function table records and the breakpoint patching done on them:
    arming one entry (trace_add_breakpoint), disarming it
    (trace_restore_function) and arming the whole table in order
    (trace_add_breakpoints). */
module Breakpoints {
  import opened Words
  import opened ChildModel

  /** function_information_t: the requested name once resolved (None for
      NULL), the entry address, and the word saved when the entry was last
      armed. */
  datatype FunctionInfo = FunctionInfo(name: Option<string>, ip: Word, original: Word)

  /** A slot as calloc leaves it. */
  const Empty := FunctionInfo(None, 0, 0)

  datatype Armed = Armed(ok: bool, c: Child, fi: FunctionInfo)

  /** trace_add_breakpoint: save the word at the entry, write it back with
      its low byte replaced by INT3. A failed read stores (long)-1 as the
      saved word and writes nothing. */
  function ArmSite(c: Child, fi: FunctionInfo): (r: Armed)
    ensures r.ok <==> c.alive && fi.ip in c.m.mem
    ensures r.fi.name == fi.name && r.fi.ip == fi.ip
    ensures r.ok ==> r.fi.original == c.m.mem[fi.ip]
    ensures r.ok ==> r.c == c.(m := c.m.(mem := c.m.mem[fi.ip := ArmedWord(c.m.mem[fi.ip])]))
    ensures !r.ok ==> r.c == c && r.fi.original == AllOnes
  {
    match PeekText(c, fi.ip)
    case None => Armed(false, c, fi.(original := AllOnes))
    case Some(w) =>
      var saved := fi.(original := w);
      match PokeText(c, fi.ip, ArmedWord(w))
      case None => Armed(false, c, saved)
      case Some(c') => Armed(true, c', saved)
  }

  /** trace_restore_function: read the current word at the entry and write
      it back with its low byte taken from the saved word. */
  function DisarmSite(c: Child, fi: FunctionInfo): (r: Stepped)
    ensures r.ok <==> c.alive && fi.ip in c.m.mem
    ensures r.ok ==> r.c == c.(m := c.m.(mem := c.m.mem[fi.ip := RestoredWord(c.m.mem[fi.ip], fi.original)]))
    ensures !r.ok ==> r.c == c
  {
    match PeekText(c, fi.ip)
    case None => Stepped(false, c)
    case Some(w) =>
      match PokeText(c, fi.ip, RestoredWord(w, fi.original))
      case None => Stepped(false, c)
      case Some(c') => Stepped(true, c')
  }

  /** Arming then disarming a site leaves the child's memory exactly as it was. */
  lemma ArmThenDisarm(c: Child, fi: FunctionInfo)
    requires c.alive && fi.ip in c.m.mem
    ensures var a := ArmSite(c, fi);
            var d := DisarmSite(a.c, a.fi);
            a.ok && d.ok && d.c == c
  {
    var o := c.m.mem[fi.ip];
    var a := ArmSite(c, fi);
    InstallThenRestore(o);
    assert a.c.m.mem[fi.ip] == ArmedWord(o);
    var d := DisarmSite(a.c, a.fi);
    assert d.c.m.mem == c.m.mem[fi.ip := ArmedWord(o)][fi.ip := o];
    assert c.m.mem[fi.ip := ArmedWord(o)][fi.ip := o] == c.m.mem;
  }

  /** Disarming an armed site and arming it again leaves it armed with the
      same saved word and the same memory. */
  lemma DisarmThenRearm(c: Child, fi: FunctionInfo)
    requires c.alive && fi.ip in c.m.mem && c.m.mem[fi.ip] == ArmedWord(fi.original)
    ensures var d := DisarmSite(c, fi);
            var a := ArmSite(d.c, fi);
            d.ok && a.ok && a.c == c && a.fi == fi
  {
    var d := DisarmSite(c, fi);
    InstallThenRestore(fi.original);
    assert d.c.m.mem == c.m.mem[fi.ip := fi.original];
    assert d.c.m.mem[fi.ip := ArmedWord(fi.original)] == c.m.mem;
  }

  datatype Batch = Batch(ok: bool, c: Child, table: seq<FunctionInfo>, stop: nat)

  /** The arming loop of trace_add_breakpoints from record `i` on: table
      order, stopping at the first record that cannot be armed. */
  function ArmFrom(c: Child, table: seq<FunctionInfo>, i: nat): (r: Batch)
    requires i <= |table|
    ensures |r.table| == |table|
    ensures forall j :: 0 <= j < i ==> r.table[j] == table[j]
    ensures i <= r.stop <= |table| && (r.ok <==> r.stop == |table|)
    decreases |table| - i
  {
    if i == |table| then Batch(true, c, table, i)
    else
      var a := ArmSite(c, table[i]);
      if !a.ok then Batch(false, a.c, table[i := a.fi], i)
      else ArmFrom(a.c, table[i := a.fi], i + 1)
  }

  /** trace_add_breakpoints: arm every record; on a failure kill the child
      and report false; otherwise issue one PTRACE_CONT (its result is not
      looked at) and report true. */
  function AddBreakpointsSpec(c: Child, table: seq<FunctionInfo>): (r: Batch)
    ensures |r.table| == |table|
  {
    var b := ArmFrom(c, table, 0);
    if !b.ok then Batch(false, Kill(b.c), b.table, b.stop)
    else match Cont(b.c)
      case None => b
      case Some(c') => Batch(true, c', b.table, b.stop)
  }

  /** When the entries are distinct and all mapped in a live child, arming
      from `i` succeeds; each record saves the word that was at its own entry
      and that entry is armed; no other word, register or record changes. */
  lemma {:induction false} ArmFromDistinct(c: Child, table: seq<FunctionInfo>, i: nat)
    requires i <= |table| && c.alive
    requires forall j :: i <= j < |table| ==> table[j].ip in c.m.mem
    requires forall j, l :: i <= j < l < |table| ==> table[j].ip != table[l].ip
    ensures var b := ArmFrom(c, table, i);
            && b.ok
            && b.c == c.(m := b.c.m)
            && b.c.m.pc == c.m.pc && b.c.m.sp == c.m.sp
            && b.c.m.mem.Keys == c.m.mem.Keys
            && (forall j :: i <= j < |table| ==>
                  && b.table[j] == table[j].(original := c.m.mem[table[j].ip])
                  && b.c.m.mem[table[j].ip] == ArmedWord(c.m.mem[table[j].ip]))
            && (forall a :: a in c.m.mem && (forall j :: i <= j < |table| ==> table[j].ip != a) ==>
                  b.c.m.mem[a] == c.m.mem[a])
    decreases |table| - i
  {
    if i < |table| {
      var a := ArmSite(c, table[i]);
      var t' := table[i := a.fi];
      assert forall j :: i + 1 <= j < |table| ==> t'[j] == table[j];
      assert forall j :: i + 1 <= j < |table| ==> a.c.m.mem[table[j].ip] == c.m.mem[table[j].ip];
      ArmFromDistinct(a.c, t', i + 1);
      var b := ArmFrom(c, table, i);
      assert b.table[i] == a.fi;
      assert b.c.m.mem[table[i].ip] == a.c.m.mem[table[i].ip];
    }
  }

  /** A failed batch stopped at the first record `f` that cannot be armed
      (the batch's `stop`):
      on a live child every entry from `i` up to `f` is mapped and `f`'s is
      not; on a dead child `f` is the first record tried. `f` holds the
      failed read's (long)-1, the records before it keep their names and
      entries, the records after it were not touched, and no continue was
      issued. */
  lemma {:induction false} ArmFromFailure(c: Child, table: seq<FunctionInfo>, i: nat)
    requires i <= |table|
    requires !ArmFrom(c, table, i).ok
    ensures var b := ArmFrom(c, table, i); var f := b.stop;
            && f < |table|
            && (c.alive ==> table[f].ip !in c.m.mem && forall j :: i <= j < f ==> table[j].ip in c.m.mem)
            && (!c.alive ==> f == i)
            && b.table[f] == table[f].(original := AllOnes)
            && (forall j :: i <= j < f ==> b.table[j].ip == table[j].ip && b.table[j].name == table[j].name)
            && (forall j :: f < j < |table| ==> b.table[j] == table[j])
            && b.c.continues == c.continues
            && b.c.alive == c.alive
    decreases |table| - i
  {
    var a := ArmSite(c, table[i]);
    if a.ok {
      var t' := table[i := a.fi];
      ArmFromFailure(a.c, t', i + 1);
      assert a.c.m.mem.Keys == c.m.mem.Keys;
      assert forall j :: i < j < |table| ==> t'[j] == table[j];
      var b := ArmFrom(c, table, i);
      assert b.table[i].ip == table[i].ip && b.table[i].name == table[i].name;
    } else {
      assert ArmFrom(c, table, i).table[i] == table[i].(original := AllOnes);
    }
  }

  /** Arming from `i` succeeds exactly when every remaining entry is mapped
      in a live child; it never changes liveness, the pid, the number of
      continues or which addresses are mapped. */
  lemma {:induction false} ArmFromOk(c: Child, table: seq<FunctionInfo>, i: nat)
    requires i <= |table|
    ensures var b := ArmFrom(c, table, i);
            && (b.ok <==> (i == |table| || c.alive) && forall j :: i <= j < |table| ==> table[j].ip in c.m.mem)
            && b.c.alive == c.alive && b.c.pid == c.pid && b.c.continues == c.continues
            && b.c.m.mem.Keys == c.m.mem.Keys
    decreases |table| - i
  {
    if i < |table| {
      var a := ArmSite(c, table[i]);
      if a.ok {
        var t' := table[i := a.fi];
        ArmFromOk(a.c, t', i + 1);
        assert forall j :: i + 1 <= j < |table| ==> t'[j].ip == table[j].ip;
      }
    }
  }

  /** Batch outcome: with at least one record it fails exactly when some
      entry cannot be read or written in a live child (an empty table always
      succeeds); a failure leaves the child killed and never continued; a
      success on a live child issues exactly one continue. */
  lemma AddBreakpointsOutcome(c: Child, table: seq<FunctionInfo>)
    ensures var r := AddBreakpointsSpec(c, table);
            && (r.ok <==> (|table| == 0 || c.alive) && forall j :: 0 <= j < |table| ==> table[j].ip in c.m.mem)
            && (!r.ok ==> !r.c.alive && r.c.continues == c.continues)
            && (r.ok && c.alive ==> r.c.alive && r.c.continues == c.continues + 1)
            && (r.ok && !c.alive ==> r.c == c && r.table == table)
  {
    ArmFromOk(c, table, 0);
  }
}
