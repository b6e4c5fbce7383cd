/**
  The pipeline of `PipelineCpu` wired to the bus of `BusFabric`: the memory stage's
  request goes to the AXI master, whose registers answer it.  Every run of the whole
  is a run of the pipeline against one atomic memory, so the in-order theorem holds
  of the registers and of the devices, for every ALU, program and device latency.
 */
module Chip {
  import opened Words
  import opened PipelineCpu
  import opened PipelineInOrder
  import opened PipelineIssue
  import opened PipelineProgram
  import opened PipelineRepeats
  import opened LoadStore
  import Axi4Lite
  import opened BusFabric
  import opened BusProtocol

  datatype Chip = Chip(cpu: Cpu, fabric: Fabric)

  /** What surrounds the chip in one cycle. */
  datatype Outside = Outside(fetchValid: bool, ready: nat -> bool, unasked: nat -> Word)

  type Alu = (nat, Word, Word) -> Word

  /** The wrapper's answers to the memory stage; the bus is granted while the master is idle. */
  function Answers(f: Fabric): BusIn {
    BusIn(f.master.state == Axi4Lite.Idle, f.master.readValid, f.master.readData, f.master.writeValid)
  }

  function Requests(alu: Alu, c: Chip, o: Outside): Surroundings {
    Surroundings(Memory(Units(alu), c.cpu, Answers(c.fabric)).bus, o.ready, o.unasked)
  }

  function ChipNext(alu: Alu, program: Word -> Instr, c: Chip, o: Outside): Chip {
    Chip(Step(Units(alu), c.cpu, Fetch(o.fetchValid, program(c.cpu.pc)), Answers(c.fabric)),
         FabricNext(c.fabric, Requests(alu, c, o)))
  }

  // ---------------------------------------------------------------- coupling

  /** Where the bus may be while the memory stage is in each of its states. */
  predicate Coupled(c: Chip, p: Phase) {
    var m := c.fabric.master;
    && InPhase(c.fabric, p)
    && match c.cpu.mem.state
       case MemIdle => p == Free
       case MemRead =>
         && m.address == Align(c.cpu.exMem.alu)
         && (p in {ReadAsk, ReadAck, ReadWait, ReadReply} || (p == Free && m.readValid))
       case MemWrite =>
         p in {WriteAsk, WriteAck, WriteSend, WritePulse, WriteReply} || (p == Free && m.writeValid)
  }

  function InputFor(f: Fabric, o: Outside): Input {
    Input(o.fetchValid, f.master.state == Axi4Lite.Idle, f.master.readValid, f.master.writeValid)
  }

  /** The memory stage behaves the same against the bus and against the atomic memory. */
  lemma SameStage(alu: Alu, c: Chip, p: Phase, r: Run<Devices>, o: Outside)
    requires Coupled(c, p) && r.cpu == c.cpu && r.mem == VisibleMemory(c.fabric, p)
    ensures Memory(Units(alu), c.cpu, Answers(c.fabric)) ==
            Memory(Units(alu), r.cpu, BusFor(Units(alu), r, InputFor(c.fabric, o)))
  {
  }

  lemma CoupledStep(alu: Alu, program: Word -> Instr, c: Chip, p: Phase, o: Outside)
    requires Coupled(c, p)
    ensures Coupled(ChipNext(alu, program, c, o), NextPhase(c.fabric, p, Requests(alu, c, o)))
  {
    var e := Requests(alu, c, o);
    PhaseStep(c.fabric, p, e);
    MuxTarget(c.fabric);
  }

  lemma RefinesCycle(alu: Alu, program: Word -> Instr, c: Chip, p: Phase, r: Run<Devices>, o: Outside)
    requires Coupled(c, p) && r.cpu == c.cpu && r.mem == VisibleMemory(c.fabric, p)
    ensures var r' := Cycle(Units(alu), program, r, InputFor(c.fabric, o));
            var c' := ChipNext(alu, program, c, o);
            && r'.cpu == c'.cpu
            && r'.mem == VisibleMemory(c'.fabric, NextPhase(c.fabric, p, Requests(alu, c, o)))
  {
    SameStage(alu, c, p, r, o);
    MemoryStep(c.fabric, p, Requests(alu, c, o));
  }

  // ---------------------------------------------------------------- whole runs

  function ChipRun(alu: Alu, program: Word -> Instr, regs: RegFile, devices: Devices, os: seq<Outside>): Chip {
    if os == [] then Chip(Reset(regs), FabricReset(devices))
    else ChipNext(alu, program, ChipRun(alu, program, regs, devices, os[..|os| - 1]), os[|os| - 1])
  }

  function ChipPhase(alu: Alu, program: Word -> Instr, regs: RegFile, devices: Devices, os: seq<Outside>): Phase {
    if os == [] then Free
    else
      var c := ChipRun(alu, program, regs, devices, os[..|os| - 1]);
      NextPhase(c.fabric, ChipPhase(alu, program, regs, devices, os[..|os| - 1]), Requests(alu, c, os[|os| - 1]))
  }

  /** The cycles of the chip as the pipeline sees them. */
  function ChipInputs(alu: Alu, program: Word -> Instr, regs: RegFile, devices: Devices, os: seq<Outside>): seq<Input> {
    if os == [] then []
    else
      var before := os[..|os| - 1];
      ChipInputs(alu, program, regs, devices, before)
      + [InputFor(ChipRun(alu, program, regs, devices, before).fabric, os[|os| - 1])]
  }

  lemma RunSnoc<M>(isa: Isa<M>, program: Word -> Instr, regs: RegFile, mem: M, inputs: seq<Input>, i: Input)
    ensures RunAll(isa, program, regs, mem, inputs + [i]) == Cycle(isa, program, RunAll(isa, program, regs, mem, inputs), i)
  {
    assert (inputs + [i])[..|inputs|] == inputs;
  }

  /** A run of the chip is a run of the pipeline against one atomic memory. */
  lemma {:induction false} ChipRefinesPipeline(
    alu: Alu, program: Word -> Instr, regs: RegFile, devices: Devices, os: seq<Outside>)
    ensures var c := ChipRun(alu, program, regs, devices, os);
            var p := ChipPhase(alu, program, regs, devices, os);
            var r := RunAll(Units(alu), program, regs, devices, ChipInputs(alu, program, regs, devices, os));
            Coupled(c, p) && r.cpu == c.cpu && r.mem == VisibleMemory(c.fabric, p)
  {
    if os != [] {
      var before, o := os[..|os| - 1], os[|os| - 1];
      var c, p := ChipRun(alu, program, regs, devices, before), ChipPhase(alu, program, regs, devices, before);
      var inputs := ChipInputs(alu, program, regs, devices, before);
      ChipRefinesPipeline(alu, program, regs, devices, before);
      CoupledStep(alu, program, c, p, o);
      RefinesCycle(alu, program, c, p, RunAll(Units(alu), program, regs, devices, inputs), o);
      RunSnoc(Units(alu), program, regs, devices, inputs, InputFor(c.fabric, o));
    }
  }

  /**
    The chip executes programs in order: for every ALU, every program of the class
    in which no load directly follows a store, every fetch rhythm, every latency of
    every device and every number of cycles, the registers (with the WB instruction
    applied) and the eight devices (with the write underway performed) are those
    after the first n instructions of the program.
   */
  lemma ChipRunsInProgramOrder(alu: Alu, program: Word -> Instr, regs: RegFile, devices: Devices, os: seq<Outside>)
    requires forall p :: InClass(program(p))
    requires NoLoadAfterStore(program)
    ensures var c := ChipRun(alu, program, regs, devices, os);
            var p := ChipPhase(alu, program, regs, devices, os);
            var r := RunAll(Units(alu), program, regs, devices, ChipInputs(alu, program, regs, devices, os));
            && |Committed(r)| <= |r.valid|
            && Arch(RegsAfterWb(c.cpu), VisibleMemory(c.fabric, p)) ==
               ExecAll(Units(alu), Arch(regs, devices), Listing(program, Count(r.valid, |Committed(r)|)))
  {
    var inputs := ChipInputs(alu, program, regs, devices, os);
    ChipRefinesPipeline(alu, program, regs, devices, os);
    RunsInProgramOrder(Units(alu), program, regs, devices, inputs);
  }

  /** The registers (with the WB instruction applied) and the eight devices (with the write underway performed). */
  function Whole(alu: Alu, program: Word -> Instr, regs: RegFile, devices: Devices, os: seq<Outside>): Arch<Devices> {
    Arch(RegsAfterWb(ChipRun(alu, program, regs, devices, os).cpu),
         VisibleMemory(ChipRun(alu, program, regs, devices, os).fabric, ChipPhase(alu, program, regs, devices, os)))
  }

  /** How many instructions of the program have taken effect on the chip. */
  function ChipProgress(alu: Alu, program: Word -> Instr, regs: RegFile, devices: Devices, os: seq<Outside>): nat {
    Progress(RunAll(Units(alu), program, regs, devices, ChipInputs(alu, program, regs, devices, os)))
  }

  /**
    The same for every program whose repeated instructions are harmless, a
    condition that `SequentialExactlyWhen` shows to be exact for the pipeline.
   */
  lemma ChipRunsSequentially(alu: Alu, program: Word -> Instr, regs: RegFile, devices: Devices, os: seq<Outside>)
    requires forall p :: InClass(program(p))
    requires RepeatsHarmless(Units(alu), Arch(regs, devices), program)
    ensures Whole(alu, program, regs, devices, os) ==
            At(Units(alu), Arch(regs, devices), program, ChipProgress(alu, program, regs, devices, os))
  {
    ChipRefinesPipeline(alu, program, regs, devices, os);
    RunsSequentially(Units(alu), program, regs, devices, ChipInputs(alu, program, regs, devices, os));
  }

  /** No instruction that can be repeated reads its own destination. */
  ghost predicate NothingReread(program: Word -> Instr) {
    forall k: nat | Repeated(program, k) ::
      var i := program(Address(k + 2)); i.memWrite || i.rd == 0 || (i.rd != i.rs1 && i.rd != i.rs2)
  }

  lemma NothingRereadHarmless(alu: Alu, program: Word -> Instr, a: Arch<Devices>)
    requires (forall p :: InClass(program(p))) && NothingReread(program)
    ensures RepeatsHarmless(Units(alu), a, program)
  {
    forall k: nat ensures Harmless(Units(alu), a, program, k) {
      if Repeated(program, k) {
        var i := program(Address(k + 2));
        if i.memWrite {
          forall m: Devices, p: Word, w: Word, t: Strobe
            ensures Units(alu).writeWord(Units(alu).writeWord(m, p, w, t), p, w, t) == Units(alu).writeWord(m, p, w, t)
          {
            WriteTwice(m, p, w, t);
          }
        }
        RereadsNothingIdempotent(Units(alu), At(Units(alu), a, program, k + 2), i);
      }
    }
  }

  // ---------------------------------------------------------------- one transaction and one pulse each

  /** Some slave tells its device to write. */
  predicate Pulses(f: Fabric) { exists j | 0 <= j < 8 :: f.slaves[j].write }

  /** Transactions started, and write pulses seen, in the cycles of a run. */
  function Started(alu: Alu, program: Word -> Instr, regs: RegFile, devices: Devices, os: seq<Outside>): nat {
    if os == [] then 0
    else
      var before, o := os[..|os| - 1], os[|os| - 1];
      var c := ChipRun(alu, program, regs, devices, before);
      Started(alu, program, regs, devices, before) + Bit(Starts(c.fabric, Requests(alu, c, o).request))
  }

  function Pulsed(alu: Alu, program: Word -> Instr, regs: RegFile, devices: Devices, os: seq<Outside>): nat {
    if os == [] then 0
    else
      var before := os[..|os| - 1];
      Pulsed(alu, program, regs, devices, before) + Bit(Pulses(ChipRun(alu, program, regs, devices, before).fabric))
  }

  function Stores(p: seq<Instr>): nat {
    if p == [] then 0 else Stores(p[..|p| - 1]) + Bit(p[|p| - 1].memWrite)
  }

  function Accesses(p: seq<Instr>): nat {
    if p == [] then 0 else Accesses(p[..|p| - 1]) + Bit(p[|p| - 1].memWrite || p[|p| - 1].memRead)
  }

  lemma {:induction false} CountSnoc(p: seq<Instr>, i: Instr)
    ensures Stores(p + [i]) == Stores(p) + Bit(i.memWrite)
    ensures Accesses(p + [i]) == Accesses(p) + Bit(i.memWrite || i.memRead)
  {
    assert (p + [i])[..|p|] == p;
  }

  lemma PulseIsPhase(f: Fabric, p: Phase)
    requires InPhase(f, p)
    ensures Pulses(f) <==> p == WritePulse
  {
  }

  /** A transaction starts exactly when the memory stage holds an access and is idle. */
  lemma StartsWhen(alu: Alu, c: Chip, p: Phase, o: Outside)
    requires Coupled(c, p) && ClassOk(c.cpu)
    ensures Starts(c.fabric, Requests(alu, c, o).request) <==>
            c.cpu.mem.state.MemIdle? && (c.cpu.exMem.instr.memRead || c.cpu.exMem.instr.memWrite)
  {
  }

  /** The cycle leaves the access in MEM, with the memory stage at work, or releases it. */
  lemma AccessHeld<M>(isa: Isa<M>, program: Word -> Instr, r: Run<M>, input: Input)
    requires ClassOk(r.cpu) && (r.cpu.mem.state.MemIdle? ==> input.granted)
    requires r.cpu.exMem.instr.memRead || r.cpu.exMem.instr.memWrite
    ensures var r' := Cycle(isa, program, r, input);
            if r'.retired == r.retired then !r'.cpu.mem.state.MemIdle?
            else r'.retired == r.retired + [r.cpu.exMem.instr] && !r.cpu.mem.state.MemIdle? && r'.cpu.mem.state.MemIdle?
  {
  }

  lemma NoAccessHeld<M>(isa: Isa<M>, program: Word -> Instr, r: Run<M>, input: Input)
    requires ClassOk(r.cpu) && !r.cpu.exMem.instr.memRead && !r.cpu.exMem.instr.memWrite
    ensures var r' := Cycle(isa, program, r, input);
            && r.cpu.mem.state.MemIdle? && r'.cpu.mem.state.MemIdle?
            && (r'.retired == r.retired || r'.retired == r.retired + [r.cpu.exMem.instr])
  {
    assert r.retired + [] == r.retired;
  }

  /** The memory stage is idle when it holds no access, and after the cycle in which an access is released. */
  lemma IdleWhen<M>(isa: Isa<M>, program: Word -> Instr, r: Run<M>, input: Input)
    requires ClassOk(r.cpu) && (r.cpu.mem.state.MemIdle? ==> input.granted)
    ensures var r' := Cycle(isa, program, r, input);
            var i := r.cpu.exMem.instr;
            if i.memRead || i.memWrite then
              if r'.retired == r.retired then !r'.cpu.mem.state.MemIdle?
              else r'.retired == r.retired + [i] && !r.cpu.mem.state.MemIdle? && r'.cpu.mem.state.MemIdle?
            else
              && r.cpu.mem.state.MemIdle? && r'.cpu.mem.state.MemIdle?
              && (r'.retired == r.retired || r'.retired == r.retired + [i])
  {
    if r.cpu.exMem.instr.memRead || r.cpu.exMem.instr.memWrite {
      AccessHeld(isa, program, r, input);
    } else {
      NoAccessHeld(isa, program, r, input);
    }
  }

  lemma StartStep(alu: Alu, program: Word -> Instr, c: Chip, p: Phase, r: Run<Devices>, o: Outside)
    requires Coupled(c, p) && r.cpu == c.cpu && r.mem == VisibleMemory(c.fabric, p)
    requires ClassOk(c.cpu)
    ensures var r' := Cycle(Units(alu), program, r, InputFor(c.fabric, o));
            Accesses(r'.retired) + Bit(!r'.cpu.mem.state.MemIdle?) ==
            Accesses(r.retired) + Bit(!r.cpu.mem.state.MemIdle?) + Bit(Starts(c.fabric, Requests(alu, c, o).request))
  {
    StartsWhen(alu, c, p, o);
    IdleWhen(Units(alu), program, r, InputFor(c.fabric, o));
    CountSnoc(r.retired, r.cpu.exMem.instr);
  }

  /** In one cycle: a store commits when the bus accepts it, and is pulsed once afterwards. */
  lemma PulseStep(alu: Alu, program: Word -> Instr, c: Chip, p: Phase, r: Run<Devices>, o: Outside)
    requires Coupled(c, p) && r.cpu == c.cpu && r.mem == VisibleMemory(c.fabric, p)
    requires ClassOk(c.cpu)
    ensures var r' := Cycle(Units(alu), program, r, InputFor(c.fabric, o));
            var p' := NextPhase(c.fabric, p, Requests(alu, c, o));
            Stores(Committed(r')) == Stores(Committed(r)) + Bit(Underway(p')) - Bit(Underway(p)) + Bit(Pulses(c.fabric))
  {
    SameStage(alu, c, p, r, o);
    PulseIsPhase(c.fabric, p);
    EffectOnCommitted(Units(alu), program, r, InputFor(c.fabric, o));
    CountSnoc(Committed(r), r.cpu.exMem.instr);
  }

  /**
    Over every run each load and store causes exactly one transaction, and each
    store exactly one write pulse: the counts agree up to the access in MEM.
   */
  lemma {:induction false} OneTransactionEach(
    alu: Alu, program: Word -> Instr, regs: RegFile, devices: Devices, os: seq<Outside>)
    requires forall p :: InClass(program(p))
    ensures var r := RunAll(Units(alu), program, regs, devices, ChipInputs(alu, program, regs, devices, os));
            && Started(alu, program, regs, devices, os) == Accesses(r.retired) + Bit(!r.cpu.mem.state.MemIdle?)
            && Pulsed(alu, program, regs, devices, os) + Bit(Underway(ChipPhase(alu, program, regs, devices, os))) ==
               Stores(Committed(r))
  {
    if os != [] {
      var before, o := os[..|os| - 1], os[|os| - 1];
      var c, p := ChipRun(alu, program, regs, devices, before), ChipPhase(alu, program, regs, devices, before);
      var inputs := ChipInputs(alu, program, regs, devices, before);
      var r := RunAll(Units(alu), program, regs, devices, inputs);
      OneTransactionEach(alu, program, regs, devices, before);
      ChipRefinesPipeline(alu, program, regs, devices, before);
      ExecutesWhatItIssued(Units(alu), program, regs, devices, inputs);
      StartStep(alu, program, c, p, r, o);
      PulseStep(alu, program, c, p, r, o);
      RunSnoc(Units(alu), program, regs, devices, inputs, InputFor(c.fabric, o));
    }
  }

  lemma {:induction false} BubblesAccessNothing(f: seq<Instr>, v: seq<bool>)
    requires |f| == |v| && forall k | 0 <= k < |f| :: v[k] || f[k] == Nop(f[k].pc)
    ensures Stores(f) == Stores(Answered(f, v)) && Accesses(f) == Accesses(Answered(f, v))
  {
    if f != [] {
      var n := |f| - 1;
      BubblesAccessNothing(f[..n], v[..n]);
      if v[n] {
        CountSnoc(Answered(f[..n], v[..n]), f[n]);
      } else {
        assert !f[n].memRead && !f[n].memWrite;
      }
    }
  }

  /** In a run in order, what was captured first is a beginning of the program, with the same accesses. */
  lemma ListingAccesses(program: Word -> Instr, r: Run, p: seq<Instr>)
    requires InOrder(r) && FetchOk(program, r) && p <= r.issued
    ensures |p| <= |r.valid|
    ensures Stores(p) == Stores(Listing(program, Count(r.valid, |p|)))
    ensures Accesses(p) == Accesses(Listing(program, Count(r.valid, |p|)))
  {
    var n := |p|;
    assert p == r.fetched[..n];
    BubblesAreNops(program, r.fetched, r.valid, n);
    BubblesAccessNothing(r.fetched[..n], r.valid[..n]);
    AnsweredIsListing(program, r.fetched, r.valid, n);
  }

  /**
    With no load directly after a store these are the program's own accesses: each
    of them causes one transaction, and each store one write pulse.
   */
  lemma OneTransactionPerAccess(alu: Alu, program: Word -> Instr, regs: RegFile, devices: Devices, os: seq<Outside>)
    requires (forall p :: InClass(program(p))) && NoLoadAfterStore(program)
    ensures var r := RunAll(Units(alu), program, regs, devices, ChipInputs(alu, program, regs, devices, os));
            && |r.retired| <= |r.valid| && |Committed(r)| <= |r.valid|
            && Started(alu, program, regs, devices, os) ==
               Accesses(Listing(program, Count(r.valid, |r.retired|))) + Bit(!r.cpu.mem.state.MemIdle?)
            && Pulsed(alu, program, regs, devices, os) + Bit(Underway(ChipPhase(alu, program, regs, devices, os))) ==
               Stores(Listing(program, Count(r.valid, |Committed(r)|)))
  {
    var inputs := ChipInputs(alu, program, regs, devices, os);
    var r := RunAll(Units(alu), program, regs, devices, inputs);
    OneTransactionEach(alu, program, regs, devices, os);
    RunsInProgramOrder(Units(alu), program, regs, devices, inputs);
    IssuesExpansion(Units(alu), program, regs, devices, inputs);
    FetchesProgram(Units(alu), program, regs, devices, inputs);
    ListingAccesses(program, r, r.retired);
    ListingAccesses(program, r, Committed(r));
  }
}
