/**
  Which instructions the pipeline issues.  Every fetched instruction is captured
  by ID2EX once and in order, with one exception: while a store leaves MEM with a
  load behind it in EX, fetch and IF2ID are held but ID2EX is not flushed, so an
  instruction in ID that does not depend on the load is captured there and then
  again.  `Expand` says this as a function of the fetched sequence, and programs
  in which no load directly follows a store execute exactly in order.
 */
module PipelineIssue {
  import opened Words
  import opened PipelineCpu
  import opened PipelineInOrder

  // ---------------------------------------------------------------- the issued sequence

  /** Instruction k of the fetched sequence follows a store and then a load it does not depend on. */
  predicate Doubled(f: seq<Instr>, k: nat)
    requires k < |f|
  {
    k >= 2 && f[k - 2].memWrite && f[k - 1].memRead && !Matches(f[k - 1].rd, f[k])
  }

  function Expand(f: seq<Instr>): seq<Instr> {
    if f == [] then []
    else
      var k := |f| - 1;
      Expand(f[..k]) + (if Doubled(f, k) then [f[k], f[k]] else [f[k]])
  }

  /** ID2EX has just taken the previous instruction. */
  predicate Fresh(r: Run, n: nat)
    requires n == |r.fetched| - 1
  {
    && r.issued == Expand(r.fetched[..n])
    && (n == 0 ==> r.cpu.idEx.instr == BUBBLE)
    && (n >= 1 ==> r.cpu.idEx.instr == r.fetched[n - 1])
    && ((r.cpu.exMem.instr.memWrite && r.cpu.idEx.instr.memRead) <==>
        (n >= 2 && r.fetched[n - 2].memWrite && r.fetched[n - 1].memRead))
  }

  /** A load-use hazard has put a bubble between the load and the instruction in ID. */
  predicate Waiting(r: Run, n: nat)
    requires n == |r.fetched| - 1
  {
    && n >= 1 && r.issued == Expand(r.fetched[..n])
    && r.cpu.idEx.instr == BUBBLE
    && r.cpu.exMem.instr == r.fetched[n - 1] && r.fetched[n - 1].memRead
    && Matches(r.fetched[n - 1].rd, r.fetched[n])
  }

  /** The instruction in ID has been captured once and is about to be captured again. */
  predicate Repeating(r: Run, n: nat)
    requires n == |r.fetched| - 1
  {
    && Doubled(r.fetched, n)
    && r.issued == Expand(r.fetched[..n]) + [r.fetched[n]]
    && ((r.cpu.idEx.instr == r.fetched[n] && r.cpu.exMem.instr == r.fetched[n - 1]) ||
        (r.cpu.idEx.instr == BUBBLE && r.cpu.exMem.instr == r.fetched[n] && r.fetched[n].memRead))
  }

  predicate IssueOk(r: Run) {
    && ClassOk(r.cpu)
    && r.fetched != [] && r.fetched[|r.fetched| - 1] == r.cpu.ifId
    && (forall k | 0 <= k < |r.fetched| :: InClass(r.fetched[k]))
    && r.issued == r.retired + Slot(r.cpu.exMem.instr) + Slot(r.cpu.idEx.instr)
    && (var n := |r.fetched| - 1; Fresh(r, n) || Waiting(r, n) || Repeating(r, n))
  }

  predicate Advances<M>(isa: Isa<M>, r: Run<M>, input: Input) {
    !CpuHazards(r.cpu).stall && !Memory(isa, r.cpu, BusFor(isa, r, input)).stall
  }

  /** Only a load-use or a store-load hazard can hold an instruction of the class. */
  lemma HazardsInClass(c: Cpu)
    requires ClassOk(c)
    ensures var h := CpuHazards(c);
            var loadUse := c.idEx.instr.memRead && Matches(c.idEx.instr.rd, c.ifId);
            && (h.stall <==> loadUse || (c.exMem.instr.memWrite && c.idEx.instr.memRead))
            && (h.idFlush <==> loadUse) && !h.jalHazard
  {
  }

  /** When ID is left, what had been issued for it before is all but one of its copies. */
  lemma {:induction false} LastCopy<M>(isa: Isa<M>, r: Run<M>, input: Input)
    requires IssueOk(r) && Advances(isa, r, input)
    ensures var n := |r.fetched| - 1;
            var earlier := Expand(r.fetched[..n]);
            r.issued == if Doubled(r.fetched, n) then earlier + [r.fetched[n]] else earlier
  {
    HazardsInClass(r.cpu);
  }

  lemma {:induction false} ExpandLast(f: seq<Instr>, n: nat)
    requires f != [] && n == |f| - 1
    ensures Expand(f) == Expand(f[..n]) + (if Doubled(f, n) then [f[n], f[n]] else [f[n]])
  {
  }

  lemma AdvanceCaptures<M>(isa: Isa<M>, program: Word -> Instr, r: Run<M>, input: Input)
    requires ClassOk(r.cpu) && Advances(isa, r, input)
    ensures var r' := Cycle(isa, program, r, input);
            r'.cpu.idEx.instr == r.cpu.ifId && r'.issued == r.issued + [r.cpu.ifId]
  {
    HazardsInClass(r.cpu);
  }

  lemma {:induction false} AdvanceIssues<M>(isa: Isa<M>, program: Word -> Instr, r: Run<M>, input: Input)
    requires IssueOk(r) && Advances(isa, r, input)
    ensures r.issued + [r.cpu.ifId] == Expand(r.fetched)
  {
    var n := |r.fetched| - 1;
    LastCopy(isa, r, input);
    ExpandLast(r.fetched, n);
  }

  lemma {:induction false} AdvanceFlags<M>(isa: Isa<M>, program: Word -> Instr, r: Run<M>, input: Input)
    requires IssueOk(r) && Advances(isa, r, input)
    ensures var r' := Cycle(isa, program, r, input);
            var n := |r.fetched|;
            (r'.cpu.exMem.instr.memWrite && r'.cpu.idEx.instr.memRead) <==>
            (n >= 2 && r.fetched[n - 2].memWrite && r.fetched[n - 1].memRead)
  {
    HazardsInClass(r.cpu);
  }

  lemma {:induction false} AdvanceStep<M>(isa: Isa<M>, program: Word -> Instr, r: Run<M>, input: Input)
    requires forall a :: InClass(program(a))
    requires IssueOk(r) && Advances(isa, r, input)
    ensures var r' := Cycle(isa, program, r, input); r'.fetched != [] && Fresh(r', |r'.fetched| - 1)
  {
    var r' := Cycle(isa, program, r, input);
    AdvanceCaptures(isa, program, r, input);
    AdvanceIssues(isa, program, r, input);
    AdvanceFlags(isa, program, r, input);
    assert r'.fetched == r.fetched + [r'.cpu.ifId];
    assert r'.fetched[..|r.fetched|] == r.fetched;
  }

  lemma HoldKeepsFetched<M>(isa: Isa<M>, program: Word -> Instr, r: Run<M>, input: Input)
    requires !Advances(isa, r, input)
    ensures var r' := Cycle(isa, program, r, input); r'.fetched == r.fetched && r'.cpu.ifId == r.cpu.ifId
  {
  }

  lemma HoldFresh<M>(isa: Isa<M>, program: Word -> Instr, r: Run<M>, input: Input, n: nat)
    requires IssueOk(r) && !Advances(isa, r, input) && n == |r.fetched| - 1 && Fresh(r, n)
    ensures var r' := Cycle(isa, program, r, input);
            r'.fetched == r.fetched && (Fresh(r', n) || Waiting(r', n) || Repeating(r', n))
  {
    HazardsInClass(r.cpu);
  }

  lemma HoldLater<M>(isa: Isa<M>, program: Word -> Instr, r: Run<M>, input: Input, n: nat)
    requires IssueOk(r) && !Advances(isa, r, input) && n == |r.fetched| - 1 && (Waiting(r, n) || Repeating(r, n))
    ensures var r' := Cycle(isa, program, r, input);
            r'.fetched == r.fetched && (Waiting(r', n) || Repeating(r', n))
  {
    HazardsInClass(r.cpu);
  }

  lemma HoldStep<M>(isa: Isa<M>, program: Word -> Instr, r: Run<M>, input: Input)
    requires IssueOk(r) && !Advances(isa, r, input)
    ensures var r' := Cycle(isa, program, r, input);
            && r'.fetched == r.fetched
            && (var n := |r.fetched| - 1; Fresh(r', n) || Waiting(r', n) || Repeating(r', n))
  {
    HoldKeepsFetched(isa, program, r, input);
    if Fresh(r, |r.fetched| - 1) {
      HoldFresh(isa, program, r, input, |r.fetched| - 1);
    } else {
      HoldLater(isa, program, r, input, |r.fetched| - 1);
    }
  }

  /** What was issued is what was retired and what is in EX and MEM. */
  lemma SlotsStep<M>(isa: Isa<M>, program: Word -> Instr, r: Run<M>, input: Input)
    requires ClassOk(r.cpu) && r.issued == r.retired + Slot(r.cpu.exMem.instr) + Slot(r.cpu.idEx.instr)
    ensures var r' := Cycle(isa, program, r, input);
            r'.issued == r'.retired + Slot(r'.cpu.exMem.instr) + Slot(r'.cpu.idEx.instr)
  {
    HazardsInClass(r.cpu);
  }

  lemma FetchedStep<M>(isa: Isa<M>, program: Word -> Instr, r: Run<M>, input: Input)
    requires forall a :: InClass(program(a))
    requires IssueOk(r)
    ensures var r' := Cycle(isa, program, r, input);
            && r'.fetched != [] && r'.fetched[|r'.fetched| - 1] == r'.cpu.ifId
            && forall k | 0 <= k < |r'.fetched| :: InClass(r'.fetched[k])
  {
    HazardsInClass(r.cpu);
  }

  lemma IssueStep<M>(isa: Isa<M>, program: Word -> Instr, r: Run<M>, input: Input)
    requires forall a :: InClass(program(a))
    requires IssueOk(r)
    ensures IssueOk(Cycle(isa, program, r, input))
  {
    ClassStep(isa, program, r, input);
    SlotsStep(isa, program, r, input);
    FetchedStep(isa, program, r, input);
    if Advances(isa, r, input) { AdvanceStep(isa, program, r, input); } else { HoldStep(isa, program, r, input); }
  }

  /** Over every run the instructions captured so far are exactly those `Expand` predicts. */
  lemma {:induction false} IssuesExpansion<M>(
    isa: Isa<M>, program: Word -> Instr, regs: RegFile, mem: M, inputs: seq<Input>)
    requires forall p :: InClass(program(p))
    ensures IssueOk(RunAll(isa, program, regs, mem, inputs))
  {
    if inputs != [] {
      var before := inputs[..|inputs| - 1];
      IssuesExpansion(isa, program, regs, mem, before);
      IssueStep(isa, program, RunAll(isa, program, regs, mem, before), inputs[|inputs| - 1]);
    } else {
      var r := Start(regs, mem);
      assert r.fetched[..0] == [];
    }
  }
}
