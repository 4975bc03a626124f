/** The function-table resolution walk over debugging information, as
    specification functions: which DIEs trace_is_target_function accepts,
    what each accepted DIE writes into its table slot, and which DIEs the
    compilation-unit walk of trace_find_functions visits. libdwarf itself is
    replaced by the DIEs it would report. */
module Dwarf {
  import opened Words
  import opened ChildModel
  import opened Breakpoints

  /** DW_TAG_subprogram, the tag of a subroutine entry (DWARF version 4,
      sections 3.3 and 7.5.4). */
  const TagSubprogram: nat := 0x2e

  /** Outcome of dwarf_attr(die, DW_AT_name). */
  datatype AttrStatus = AttrOk | AttrNoEntry | AttrError

  /** A debugging information entry as libdwarf reports it: the result of
      dwarf_tag (None when it returns DW_DLV_ERROR), of dwarf_attr for
      DW_AT_name, of dwarf_formstring on that attribute (None when it returns
      DW_DLV_ERROR) and of dwarf_lowpc, the DW_AT_low_pc entry address (None
      when it returns DW_DLV_ERROR). A call that returns DW_DLV_NO_ENTRY
      leaves its output uninitialised, and the source reads it anyway; such a
      result is given here as Some of whatever value that output held. */
  datatype Die = Die(tag: Option<nat>, nameAttr: AttrStatus, name: Option<string>, lowPc: Option<Word>)

  /** The children of one compilation-unit DIE, in sibling order, and
      whether the walk over them ended in a libdwarf error (dwarf_child or
      dwarf_siblingof failing, or the unit's header or CU DIE failing to
      read) rather than at the last sibling. */
  datatype Cu = Cu(dies: seq<Die>, truncated: bool)

  /** What trace_is_target_function makes of one DIE. */
  datatype Verdict =
    | NotTarget                        // returns 0
    | Found(name: string, lowPc: Word) // returns 1 after filling the slot
    | FoundNoLowPc                     // returns -1 after setting then freeing the slot's name
    | ReadError                        // returns -1 before touching the slot

  /** The classification; -1 returned from a `bool` function is `true`, so
      every verdict other than NotTarget is counted as a match. */
  function Classify(d: Die, functions: seq<string>): (v: Verdict)
    ensures v.NotTarget? <==> && d.tag.Some?
                              && (|| d.tag.value != TagSubprogram
                                  || (d.nameAttr != AttrError && d.name.Some? && d.name.value !in functions))
    ensures v.Found? <==> && d.tag == Some(TagSubprogram) && d.nameAttr != AttrError
                          && d.name.Some? && d.name.value in functions && d.lowPc.Some?
    ensures v.Found? ==> v.name == d.name.value && v.lowPc == d.lowPc.value
    ensures v.FoundNoLowPc? <==> && d.tag == Some(TagSubprogram) && d.nameAttr != AttrError
                                 && d.name.Some? && d.name.value in functions && d.lowPc.None?
  {
    if d.tag.None? then ReadError
    else if d.tag.value != TagSubprogram then NotTarget
    else if d.nameAttr == AttrError then ReadError
    else if d.name.None? then ReadError
    else if d.name.value !in functions then NotTarget
    else if d.lowPc.None? then FoundNoLowPc
    else Found(d.name.value, d.lowPc.value)
  }

  /** Whether the verdict writes into the slot at next_func. */
  predicate Writes(v: Verdict) {
    v.Found? || v.FoundNoLowPc?
  }

  /** The slot after a verdict's write. */
  function Written(slot: FunctionInfo, v: Verdict): (r: FunctionInfo)
    ensures r.original == slot.original
    ensures !Writes(v) ==> r == slot
    ensures v.Found? ==> r.name == Some(v.name) && r.ip == v.lowPc
    ensures v.FoundNoLowPc? ==> r.name.None? && r.ip == slot.ip
  {
    match v
    case Found(n, pc) => slot.(name := Some(n), ip := pc)
    case FoundNoLowPc => slot.(name := None)
    case _ => slot
  }

  /** The verdicts counted in one compilation unit, in sibling order. */
  function Counted(dies: seq<Die>, functions: seq<string>): (vs: seq<Verdict>)
    ensures |vs| <= |dies|
    ensures forall i :: 0 <= i < |vs| ==> !vs[i].NotTarget?
  {
    if dies == [] then []
    else
      var v := Classify(dies[0], functions);
      (if v.NotTarget? then [] else [v]) + Counted(dies[1..], functions)
  }

  lemma {:induction false} CountedAppend(a: seq<Die>, b: seq<Die>, functions: seq<string>)
    ensures Counted(a + b, functions) == Counted(a, functions) + Counted(b, functions)
  {
    if a == [] {
      assert a + b == b;
    } else {
      assert (a + b)[0] == a[0];
      assert (a + b)[1..] == a[1..] + b;
      CountedAppend(a[1..], b, functions);
    }
  }

  /** A freshly allocated table of `n` zeroed records. */
  function Blank(n: nat): (r: seq<FunctionInfo>)
    ensures |r| == n && forall i :: 0 <= i < n ==> r[i] == Empty
  {
    seq(n, _ => Empty)
  }

  /** The table after the verdicts `vs` are written in turn from slot `at`
      on; a write that would land past the end is dropped. */
  function Fill(slots: seq<FunctionInfo>, at: nat, vs: seq<Verdict>): (r: seq<FunctionInfo>)
    ensures |r| == |slots|
    decreases |vs|
  {
    if vs == [] then slots
    else
      var next := if at < |slots| then slots[at := Written(slots[at], vs[0])] else slots;
      Fill(next, at + 1, vs[1..])
  }

  /** Writing two runs of verdicts is writing the first, then the second
      from where the first stopped. */
  lemma {:induction false} FillAppend(slots: seq<FunctionInfo>, at: nat, a: seq<Verdict>, b: seq<Verdict>)
    ensures Fill(slots, at, a + b) == Fill(Fill(slots, at, a), at + |a|, b)
    decreases |a|
  {
    if a == [] {
      assert a + b == b;
    } else {
      assert (a + b)[0] == a[0];
      assert (a + b)[1..] == a[1..] + b;
      var next := if at < |slots| then slots[at := Written(slots[at], a[0])] else slots;
      FillAppend(next, at + 1, a[1..], b);
    }
  }

  /** Slot `i` after the writes: the i-th verdict's write when `i` is in the
      written range, untouched otherwise. */
  lemma {:induction false} FillAt(slots: seq<FunctionInfo>, at: nat, vs: seq<Verdict>, i: nat)
    requires i < |slots|
    ensures Fill(slots, at, vs)[i] == if at <= i < at + |vs| then Written(slots[i], vs[i - at]) else slots[i]
    decreases |vs|
  {
    if vs != [] {
      var next := if at < |slots| then slots[at := Written(slots[at], vs[0])] else slots;
      FillAt(next, at + 1, vs[1..], i);
    }
  }

  /** Counting one more DIE of a unit appends its verdict unless it is a
      rejection; a writing verdict sits at that position of the unit's count. */
  lemma CountedStep(dies: seq<Die>, k: nat, functions: seq<string>)
    requires k < |dies|
    ensures var v := Classify(dies[k], functions);
            var before := Counted(dies[..k], functions);
            && Counted(dies[..k + 1], functions) == (if v.NotTarget? then before else before + [v])
            && (!v.NotTarget? ==> |before| < |Counted(dies, functions)| && Counted(dies, functions)[|before|] == v)
  {
    var v := Classify(dies[k], functions);
    assert dies[..k + 1] == dies[..k] + [dies[k]];
    CountedAppend(dies[..k], [dies[k]], functions);
    assert [dies[k]][1..] == [];
    assert dies == dies[..k + 1] + dies[k + 1..];
    CountedAppend(dies[..k + 1], dies[k + 1..], functions);
  }

  /** Writing a single verdict. */
  lemma FillOne(slots: seq<FunctionInfo>, at: nat, v: Verdict)
    ensures Fill(slots, at, [v]) == if at < |slots| then slots[at := Written(slots[at], v)] else slots
    ensures !Writes(v) ==> Fill(slots, at, [v]) == slots
  {
    assert [v][1..] == [];
  }

  /** Every slot a verdict writes is below `len`. */
  ghost predicate Fits(len: int, at: int, vs: seq<Verdict>) {
    forall i :: 0 <= i < |vs| && Writes(vs[i]) ==> at + i < len
  }

  datatype Walk = Walk(verdicts: seq<Verdict>, failed: bool)

  /** The compilation-unit walk of trace_find_functions from a running
      total: a unit is visited only while the total is below the requested
      count; a truncated unit ends the walk in failure. */
  function WalkFrom(cus: seq<Cu>, functions: seq<string>, num: int, total: int): (w: Walk)
    ensures forall i :: 0 <= i < |w.verdicts| ==> !w.verdicts[i].NotTarget?
  {
    if cus == [] || total >= num then Walk([], false)
    else
      var vs := Counted(cus[0].dies, functions);
      if cus[0].truncated then Walk(vs, true)
      else
        var rest := WalkFrom(cus[1..], functions, num, total + |vs|);
        Walk(vs + rest.verdicts, rest.failed)
  }

  /** The walk stays within what the source can do: a visited unit is never
      without children (dwarf_child then leaves its DIE uninitialised), and no
      visited DIE writes to a slot at or past the requested count. */
  ghost predicate WellDefined(cus: seq<Cu>, functions: seq<string>, num: int, total: int) {
    cus != [] && total < num ==>
      && (|cus[0].dies| > 0 || cus[0].truncated)
      && Fits(num, total, Counted(cus[0].dies, functions))
      && (!cus[0].truncated ==>
            WellDefined(cus[1..], functions, num, total + |Counted(cus[0].dies, functions)|))
  }

  /** One unit of the walk: a complete unit entered below the count
      contributes its verdicts and hands the rest of the walk a larger total. */
  lemma WalkStep(cus: seq<Cu>, functions: seq<string>, num: int, total: int)
    requires cus != [] && total < num && !cus[0].truncated
    ensures var vs := Counted(cus[0].dies, functions);
            var rest := WalkFrom(cus[1..], functions, num, total + |vs|);
            && WalkFrom(cus, functions, num, total) == Walk(vs + rest.verdicts, rest.failed)
            && (WellDefined(cus, functions, num, total) ==> WellDefined(cus[1..], functions, num, total + |vs|))
  {
  }

  /** The state of the walk after the first `k` units: `done` holds their
      verdicts, `total` counts them, and the walk from unit `k` on completes
      the whole walk. */
  ghost predicate WalkedTo(cus: seq<Cu>, functions: seq<string>, num: int, k: nat, total: int, done: seq<Verdict>) {
    && k <= |cus|
    && total == |done|
    && WellDefined(cus[k..], functions, num, total)
    && var w := WalkFrom(cus, functions, num, 0);
       var rest := WalkFrom(cus[k..], functions, num, total);
       w.verdicts == done + rest.verdicts && w.failed == rest.failed
  }

  lemma WalkedToStart(cus: seq<Cu>, functions: seq<string>, num: int)
    requires WellDefined(cus, functions, num, 0)
    ensures WalkedTo(cus, functions, num, 0, 0, [])
  {
    assert cus[0..] == cus;
  }

  /** The unit the walk enters next is one the source can walk. */
  lemma WalkedToEnter(cus: seq<Cu>, functions: seq<string>, num: int, k: nat, total: int, done: seq<Verdict>)
    requires WalkedTo(cus, functions, num, k, total, done) && k < |cus| && total < num
    ensures |cus[k].dies| > 0 || cus[k].truncated
    ensures Fits(num, total, Counted(cus[k].dies, functions))
    ensures cus[k].truncated ==> WalkFrom(cus, functions, num, 0).failed
  {
    assert cus[k..][0] == cus[k];
  }

  /** A complete unit moves the walk on by its verdicts. */
  lemma WalkedToNext(cus: seq<Cu>, functions: seq<string>, num: int, k: nat, total: int, done: seq<Verdict>)
    requires WalkedTo(cus, functions, num, k, total, done) && k < |cus| && total < num
    requires !cus[k].truncated
    ensures var vs := Counted(cus[k].dies, functions);
            WalkedTo(cus, functions, num, k + 1, total + |vs|, done + vs)
  {
    assert cus[k..][0] == cus[k] && cus[k..][1..] == cus[k + 1..];
    var vs := Counted(cus[k].dies, functions);
    WalkStep(cus[k..], functions, num, total);
    var rest := WalkFrom(cus[k + 1..], functions, num, total + |vs|);
    assert done + (vs + rest.verdicts) == (done + vs) + rest.verdicts;
  }

  /** Once the units run out or the count is reached, the walk is done. */
  lemma WalkedToEnd(cus: seq<Cu>, functions: seq<string>, num: int, k: nat, total: int, done: seq<Verdict>)
    requires WalkedTo(cus, functions, num, k, total, done) && (k == |cus| || total >= num)
    ensures WalkFrom(cus, functions, num, 0) == Walk(done, false)
  {
    assert done + [] == done;
  }

  /** How many units, from the front, the walk visits. */
  function Visited(cus: seq<Cu>, functions: seq<string>, num: int, total: int): (p: nat)
    ensures p <= |cus|
  {
    if cus == [] || total >= num then 0
    else if cus[0].truncated then 1
    else 1 + Visited(cus[1..], functions, num, total + |Counted(cus[0].dies, functions)|)
  }

  /** The walk's verdicts are those of the units it visits, in order. */
  lemma {:induction false} WalkIsVisitedPrefix(cus: seq<Cu>, functions: seq<string>, num: int, total: int)
    ensures WalkFrom(cus, functions, num, total).verdicts
            == Flatten(cus[..Visited(cus, functions, num, total)], functions)
  {
    if cus == [] || total >= num {
      assert cus[..0] == [];
    } else if cus[0].truncated {
      FlattenCons(cus, 1, functions);
      assert cus[1..][..0] == [];
    } else {
      var vs := Counted(cus[0].dies, functions);
      WalkIsVisitedPrefix(cus[1..], functions, num, total + |vs|);
      FlattenCons(cus, Visited(cus, functions, num, total), functions);
    }
  }

  /** Each visited unit was entered with the running total below the
      requested count. */
  lemma {:induction false} WalkEntersBelowCount(cus: seq<Cu>, functions: seq<string>, num: int, total: int, q: nat)
    requires q < Visited(cus, functions, num, total)
    ensures total + |Flatten(cus[..q], functions)| < num
  {
    if q == 0 {
      assert cus[..q] == [];
    } else {
      var vs := Counted(cus[0].dies, functions);
      WalkEntersBelowCount(cus[1..], functions, num, total + |vs|, q - 1);
      FlattenCons(cus, q, functions);
    }
  }

  /** The walk stops at the first libdwarf error: it fails exactly when its
      last visited unit is truncated, and no unit before that one is; when
      it does not fail it has run out of units or its total has reached the
      requested count. */
  lemma {:induction false} WalkStops(cus: seq<Cu>, functions: seq<string>, num: int, total: int)
    ensures var w := WalkFrom(cus, functions, num, total);
            var p := Visited(cus, functions, num, total);
            && (w.failed <==> p > 0 && cus[p - 1].truncated)
            && (forall q :: 0 <= q < p - 1 ==> !cus[q].truncated)
            && (!w.failed ==> p == |cus| || total + |w.verdicts| >= num)
  {
    if cus != [] && total < num && !cus[0].truncated {
      var vs := Counted(cus[0].dies, functions);
      WalkStops(cus[1..], functions, num, total + |vs|);
      var p' := Visited(cus[1..], functions, num, total + |vs|);
      if p' > 0 {
        assert cus[1..][p' - 1] == cus[p'];
      }
      forall q | 0 < q < p'
        ensures !cus[q].truncated
      {
        assert cus[q] == cus[1..][q - 1];
      }
    }
  }

  /** All the counted verdicts of a list of units, in order. */
  function Flatten(cus: seq<Cu>, functions: seq<string>): seq<Verdict> {
    if cus == [] then [] else Counted(cus[0].dies, functions) + Flatten(cus[1..], functions)
  }

  lemma FlattenCons(cus: seq<Cu>, q: nat, functions: seq<string>)
    requires 0 < q <= |cus|
    ensures Flatten(cus[..q], functions) == Counted(cus[0].dies, functions) + Flatten(cus[1..][..q - 1], functions)
  {
    assert cus[..q][1..] == cus[1..][..q - 1];
  }

  /** The quirk that a DIE libdwarf cannot read counts as a match: a DIE
      whose tag, name attribute or name cannot be read adds a ReadError
      verdict to its unit's count and leaves the slot at next_func as it
      was. */
  lemma {:induction false} UnreadableDieCountsAsMatch(dies: seq<Die>, k: nat, functions: seq<string>, slots: seq<FunctionInfo>, at: nat)
    requires k < |dies|
    requires || dies[k].tag.None?
             || (dies[k].tag == Some(TagSubprogram) && (dies[k].nameAttr == AttrError || dies[k].name.None?))
    ensures Counted(dies[..k + 1], functions) == Counted(dies[..k], functions) + [ReadError]
    ensures Fill(slots, at, [ReadError]) == slots
  {
    CountedStep(dies, k, functions);
    FillOne(slots, at, ReadError);
  }
}
