/**
  The pipeline computes what one-instruction-at-a-time execution computes.

  Whatever instructions were captured into ID2EX, in whatever rhythm of fetch
  bubbles, load-use stalls and bus waits, the registers (with the WB instruction
  applied) and the memory are those of executing the completed ones one after
  the other.
 */
module PipelineInOrder {
  import opened Words
  import opened PipelineCpu

  // ---------------------------------------------------------------- one at a time

  datatype Arch<M> = Arch(regs: RegFile, mem: M)

  function ResultOf<M>(isa: Isa<M>, a: Arch<M>, i: Instr): Word {
    var alu := Execute(isa, i, ReadReg(a.regs, i.rs1), ReadReg(a.regs, i.rs2));
    match i.source
    case FromAlu => alu
    case FromMemory => isa.extract(i.funct3, alu, isa.readWord(a.mem, Align(alu)))
    case FromNextPc => Wrap(i.pc + 4)
  }

  function ExecOne<M>(isa: Isa<M>, a: Arch<M>, i: Instr): Arch<M> {
    var alu := Execute(isa, i, ReadReg(a.regs, i.rs1), ReadReg(a.regs, i.rs2));
    Arch(WriteReg(a.regs, i.writeEnable, i.rd, ResultOf(isa, a, i)),
         if i.memWrite then
           isa.writeWord(a.mem, Align(alu), isa.storeData(i.funct3, alu, ReadReg(a.regs, i.rs2)),
                         isa.storeStrobe(i.funct3, alu))
         else a.mem)
  }

  function ExecAll<M>(isa: Isa<M>, a: Arch<M>, p: seq<Instr>): Arch<M> {
    if p == [] then a else ExecOne(isa, ExecAll(isa, a, p[..|p| - 1]), p[|p| - 1])
  }

  /** The instruction class: computational instructions, loads and stores. */
  predicate InClass(i: Instr) {
    && !i.jump
    && (i.memRead <==> i.source.FromMemory?)
    && !i.source.FromNextPc?
    && (i.memRead ==> i.writeEnable)
    && (i.writeEnable <==> !i.memWrite)
  }

  // ---------------------------------------------------------------- whole runs

  /** What the surroundings decide in one cycle. */
  datatype Input = Input(fetchValid: bool, granted: bool, readValid: bool, writeValid: bool)

  /** A run so far: the machine, the memory behind the bus, and its history. */
  datatype Run<M> = Run(
    cpu: Cpu, mem: M,
    fetched: seq<Instr>,   // every instruction IF2ID has held, the last one being there now
    valid: seq<bool>,      // which of them came from the instruction memory
    issued: seq<Instr>,    // captured by ID2EX
    retired: seq<Instr>)   // left the memory stage

  function Slot(i: Instr): seq<Instr> { if IsBubble(i) then [] else [i] }

  function BusFor<M>(isa: Isa<M>, r: Run<M>, input: Input): BusIn {
    BusIn(input.granted, input.readValid, isa.readWord(r.mem, Align(r.cpu.exMem.alu)), input.writeValid)
  }

  function Cycle<M>(isa: Isa<M>, program: Word -> Instr, r: Run<M>, input: Input): Run<M> {
    var bus := BusFor(isa, r, input);
    var ms := Memory(isa, r.cpu, bus);
    var h := CpuHazards(r.cpu);
    var c' := Step(isa, r.cpu, Fetch(input.fetchValid, program(r.cpu.pc)), bus);
    // an accepted write is ordered here; the bus may deliver it any time before it answers
    var mem' := if ms.bus.write && input.granted
                then isa.writeWord(r.mem, ms.bus.address, ms.bus.data, ms.bus.strobe) else r.mem;
    var advance := !h.stall && !ms.stall;
    Run(c', mem',
        if advance then r.fetched + [c'.ifId] else r.fetched,
        if advance then r.valid + [input.fetchValid] else r.valid,
        if ms.stall then r.issued else r.issued + Slot(c'.idEx.instr),
        if ms.stall then r.retired else r.retired + Slot(r.cpu.exMem.instr))
  }

  function Start<M>(regs: RegFile, mem: M): Run<M> {
    Run(Reset(regs), mem, [Nop(ENTRY_ADDRESS)], [false], [], [])
  }

  function RunAll<M>(isa: Isa<M>, program: Word -> Instr, regs: RegFile, mem: M, inputs: seq<Input>): Run<M> {
    if inputs == [] then Start(regs, mem)
    else Cycle(isa, program, RunAll(isa, program, regs, mem, inputs[..|inputs| - 1]), inputs[|inputs| - 1])
  }

  // ---------------------------------------------------------------- the invariant

  /** The instructions whose effect is visible: retired, and a store the bus has accepted. */
  function Committed<M>(r: Run<M>): seq<Instr> {
    if r.cpu.mem.state.MemWrite? then r.retired + [r.cpu.exMem.instr] else r.retired
  }

  function Visible<M>(r: Run<M>): Arch<M> { Arch(RegsAfterWb(r.cpu), r.mem) }

  predicate Forwards(enable: bool, rd: Reg, r: Reg) { enable && r == rd && rd != 0 }

  /** A captured operand that no forwarding path will replace is the register's value. */
  predicate CapturedOk(c: Cpu, r: Reg, captured: Word) {
    Forwards(c.exMem.instr.writeEnable, c.exMem.instr.rd, r) ||
    Forwards(c.memWb.writeEnable, c.memWb.rd, r) ||
    captured == ReadReg(c.regs, r)
  }

  predicate SlotClass(i: Instr) { i == BUBBLE || InClass(i) }

  predicate ClassOk(c: Cpu) {
    && InClass(c.ifId) && SlotClass(c.idEx.instr) && SlotClass(c.exMem.instr)
    && !c.memWb.source.FromNextPc?
    && (c.mem.state.MemRead? ==> c.exMem.instr.memRead)
    && (c.mem.state.MemWrite? ==> c.exMem.instr.memWrite)
  }

  predicate DataOk<M>(isa: Isa<M>, c: Cpu) {
    var regs := RegsAfterWb(c);
    var m := c.exMem;
    && (m.instr != BUBBLE ==>
          && m.alu == Execute(isa, m.instr, ReadReg(regs, m.instr.rs1), ReadReg(regs, m.instr.rs2))
          && (m.instr.memWrite ==> m.reg2 == ReadReg(regs, m.instr.rs2)))
    && CapturedOk(c, c.idEx.instr.rs1, c.idEx.reg1)
    && CapturedOk(c, c.idEx.instr.rs2, c.idEx.reg2)
  }

  ghost predicate StateOk<M>(isa: Isa<M>, a: Arch<M>, r: Run<M>) {
    && ClassOk(r.cpu)
    && DataOk(isa, r.cpu)
    && Visible(r) == ExecAll(isa, a, Committed(r))
  }

  lemma ExecSnoc<M>(isa: Isa<M>, a: Arch<M>, p: seq<Instr>, i: Instr)
    ensures ExecAll(isa, a, p + [i]) == ExecOne(isa, ExecAll(isa, a, p), i)
  {
    assert (p + [i])[..|p|] == p;
  }

  /** In a cycle that releases the pipeline, the forwarded value is the result of the MEM instruction. */
  lemma ForwardIsResult<M>(isa: Isa<M>, r: Run<M>, input: Input)
    requires ClassOk(r.cpu) && DataOk(isa, r.cpu)
    requires r.cpu.exMem.instr.writeEnable
    requires var ms := Memory(isa, r.cpu, BusFor(isa, r, input)); !ms.stall
    ensures var ms := Memory(isa, r.cpu, BusFor(isa, r, input));
            var w := NextMemWb(r.cpu, ms);
            && ms.forward == ResultOf(isa, Visible(r), r.cpu.exMem.instr)
            && w.writeEnable && w.rd == r.cpu.exMem.instr.rd
            && WriteBack(w) == ms.forward
  {
  }

  /** The registers after the next WB are those after one more instruction. */
  lemma NextRegs<M>(isa: Isa<M>, program: Word -> Instr, r: Run<M>, input: Input)
    requires ClassOk(r.cpu) && DataOk(isa, r.cpu)
    requires var ms := Memory(isa, r.cpu, BusFor(isa, r, input)); !ms.stall
    ensures var r' := Cycle(isa, program, r, input);
            RegsAfterWb(r'.cpu) ==
            if r.cpu.exMem.instr == BUBBLE then RegsAfterWb(r.cpu)
            else ExecOne(isa, Visible(r), r.cpu.exMem.instr).regs
  {
    if r.cpu.exMem.instr.writeEnable { ForwardIsResult(isa, r, input); }
  }

  /** What EX computes with is what the registers hold after the MEM instruction. */
  lemma ExOperandOk<M>(isa: Isa<M>, program: Word -> Instr, r: Run<M>, input: Input, x: Reg, captured: Word)
    requires ClassOk(r.cpu) && DataOk(isa, r.cpu) && CapturedOk(r.cpu, x, captured)
    requires var ms := Memory(isa, r.cpu, BusFor(isa, r, input)); !ms.stall
    ensures var ms := Memory(isa, r.cpu, BusFor(isa, r, input));
            var r' := Cycle(isa, program, r, input);
            ExOperand(r.cpu, ms.forward, x, captured) == ReadReg(RegsAfterWb(r'.cpu), x)
  {
    if r.cpu.exMem.instr.writeEnable { ForwardIsResult(isa, r, input); }
  }

  /** What ID captures survives until EX replaces it by a forwarded value. */
  lemma IdOperandOk<M>(isa: Isa<M>, program: Word -> Instr, r: Run<M>, input: Input, x: Reg)
    requires ClassOk(r.cpu) && DataOk(isa, r.cpu)
    requires var ms := Memory(isa, r.cpu, BusFor(isa, r, input)); !ms.stall
    ensures var ms := Memory(isa, r.cpu, BusFor(isa, r, input));
            CapturedOk(Cycle(isa, program, r, input).cpu, x, IdOperand(r.cpu, ms.forward, x))
  {
    if r.cpu.exMem.instr.writeEnable { ForwardIsResult(isa, r, input); }
  }

  lemma ClassStep<M>(isa: Isa<M>, program: Word -> Instr, r: Run<M>, input: Input)
    requires forall a :: InClass(program(a))
    requires ClassOk(r.cpu)
    ensures ClassOk(Cycle(isa, program, r, input).cpu)
  {
  }

  lemma DataStep<M>(isa: Isa<M>, program: Word -> Instr, r: Run<M>, input: Input)
    requires ClassOk(r.cpu) && DataOk(isa, r.cpu)
    ensures DataOk(isa, Cycle(isa, program, r, input).cpu)
  {
    var ms := Memory(isa, r.cpu, BusFor(isa, r, input));
    if !ms.stall {
      ExOperandOk(isa, program, r, input, r.cpu.idEx.instr.rs1, r.cpu.idEx.reg1);
      ExOperandOk(isa, program, r, input, r.cpu.idEx.instr.rs2, r.cpu.idEx.reg2);
      IdOperandOk(isa, program, r, input, r.cpu.ifId.rs1);
      IdOperandOk(isa, program, r, input, r.cpu.ifId.rs2);
    }
  }

  /** The cycle in which an instruction takes visible effect: a store when the bus accepts it, others on release. */
  predicate TakesEffect<M>(isa: Isa<M>, r: Run<M>, input: Input) {
    var ms := Memory(isa, r.cpu, BusFor(isa, r, input));
    (ms.bus.write && input.granted) ||
    (!ms.stall && r.cpu.exMem.instr != BUBBLE && !r.cpu.mem.state.MemWrite?)
  }

  lemma EffectOnMemory<M>(isa: Isa<M>, program: Word -> Instr, r: Run<M>, input: Input)
    requires ClassOk(r.cpu) && DataOk(isa, r.cpu)
    ensures Cycle(isa, program, r, input).mem ==
            if TakesEffect(isa, r, input) then ExecOne(isa, Visible(r), r.cpu.exMem.instr).mem else r.mem
  {
  }

  lemma EffectOnRegs<M>(isa: Isa<M>, program: Word -> Instr, r: Run<M>, input: Input)
    requires ClassOk(r.cpu) && DataOk(isa, r.cpu)
    ensures RegsAfterWb(Cycle(isa, program, r, input).cpu) ==
            if TakesEffect(isa, r, input) then ExecOne(isa, Visible(r), r.cpu.exMem.instr).regs
            else RegsAfterWb(r.cpu)
  {
    var ms := Memory(isa, r.cpu, BusFor(isa, r, input));
    if !ms.stall { NextRegs(isa, program, r, input); }
  }

  lemma EffectOnCommitted<M>(isa: Isa<M>, program: Word -> Instr, r: Run<M>, input: Input)
    requires ClassOk(r.cpu)
    ensures Committed(Cycle(isa, program, r, input)) ==
            if TakesEffect(isa, r, input) then Committed(r) + [r.cpu.exMem.instr] else Committed(r)
  {
  }

  lemma CommitStep<M>(isa: Isa<M>, program: Word -> Instr, a: Arch<M>, r: Run<M>, input: Input)
    requires StateOk(isa, a, r)
    ensures var r' := Cycle(isa, program, r, input); Visible(r') == ExecAll(isa, a, Committed(r'))
  {
    EffectOnMemory(isa, program, r, input);
    EffectOnRegs(isa, program, r, input);
    EffectOnCommitted(isa, program, r, input);
    ExecSnoc(isa, a, Committed(r), r.cpu.exMem.instr);
  }

  lemma StateStep<M>(isa: Isa<M>, program: Word -> Instr, a: Arch<M>, r: Run<M>, input: Input)
    requires forall p :: InClass(program(p))
    requires StateOk(isa, a, r)
    ensures StateOk(isa, a, Cycle(isa, program, r, input))
  {
    ClassStep(isa, program, r, input);
    DataStep(isa, program, r, input);
    CommitStep(isa, program, a, r, input);
  }

  /**
    For every program of the class, every fetch rhythm, every bus latency and
    every number of cycles: the visible state is that of executing the committed
    instructions one at a time.
   */
  lemma {:induction false} ExecutesWhatItIssued<M>(
    isa: Isa<M>, program: Word -> Instr, regs: RegFile, mem: M, inputs: seq<Input>)
    requires forall p :: InClass(program(p))
    ensures StateOk(isa, Arch(regs, mem), RunAll(isa, program, regs, mem, inputs))
  {
    if inputs != [] {
      var before := inputs[..|inputs| - 1];
      ExecutesWhatItIssued(isa, program, regs, mem, before);
      StateStep(isa, program, Arch(regs, mem), RunAll(isa, program, regs, mem, before), inputs[|inputs| - 1]);
    }
  }
}
