/**
  The five-stage pipeline as a clocked machine.  A state holds the values of
  the registers between two clock edges; `Step` computes every next value from
  the old ones.

  The machine is generic in the functional units: the ALU, the load extractor,
  the store formatter and the memory are function values in an `Isa` record, so
  that what is proved about ordering, stalls and forwarding holds for any of them.
 */
module PipelineCpu {
  import opened Words

  const ENTRY_ADDRESS: Word := 0x1000

  datatype WriteSource = FromAlu | FromMemory | FromNextPc

  /** What the decode stage knows of one instruction, with its address. */
  datatype Instr = Instr(
    pc: Word,
    aluFunction: nat,      // selected by opcode, funct3 and funct7
    funct3: nat,
    rs1: Reg, rs2: Reg,    // zero when the operand is not used
    rd: Reg,
    immediate: Word,
    op1IsAddress: bool,
    op2IsImmediate: bool,
    memRead: bool,
    memWrite: bool,
    writeEnable: bool,
    source: WriteSource,
    jump: bool)

  /** addi x0, x0, 0, which fetch substitutes for an instruction that is not valid. */
  function Nop(pc: Word): Instr {
    Instr(pc, 1, 0, 0, 0, 0, 0, false, true, false, false, true, FromAlu, false)
  }

  /** The reset and flush value of ID2EX: every enable low, every number zero. */
  const BUBBLE := Instr(ENTRY_ADDRESS, 1, 0, 0, 0, 0, 0, false, false, false, false, false, FromAlu, false)

  predicate IsBubble(i: Instr) { !i.writeEnable && !i.memWrite }

  type Strobe = s: seq<bool> | |s| == 4 witness [false, false, false, false]

  /** The combinational units: function values, so nothing here depends on their definition. */
  datatype Isa<!M> = Isa(
    alu: (nat, Word, Word) -> Word,
    extract: (nat, Word, Word) -> Word,     // funct3, byte address, word from the bus
    storeData: (nat, Word, Word) -> Word,   // funct3, byte address, register value
    storeStrobe: (nat, Word) -> Strobe,
    readWord: (M, Word) -> Word,
    writeWord: (M, Word, Word, Strobe) -> M)

  function Align(address: Word): Word { address - address % 4 }

  // ---------------------------------------------------------------- registers

  /** x1..x31; x0 has no storage. */
  type RegFile = s: seq<Word> | |s| == 31 witness seq(31, _ => 0)

  function ReadReg(regs: RegFile, r: Reg): Word { if r == 0 then 0 else regs[r - 1] }

  function WriteReg(regs: RegFile, enable: bool, r: Reg, value: Word): RegFile {
    if enable && r != 0 then regs[r - 1 := value] else regs
  }

  /** A read port: x0, then the value being written, then storage. */
  function ReadPort(regs: RegFile, enable: bool, rd: Reg, value: Word, r: Reg): Word {
    if r == 0 then 0 else if enable && rd == r then value else regs[r - 1]
  }

  // ---------------------------------------------------------------- state

  datatype MemState = MemIdle | MemRead | MemWrite

  datatype IdEx = IdEx(instr: Instr, reg1: Word, reg2: Word)
  datatype ExMem = ExMem(instr: Instr, alu: Word, reg2: Word)
  datatype MemWb = MemWb(pc: Word, alu: Word, data: Word, source: WriteSource, rd: Reg, writeEnable: bool)
  datatype MemUnit = MemUnit(
    state: MemState, data: Word,
    source: WriteSource, rd: Reg, writeEnable: bool,
    readJustCompleted: bool)

  datatype Cpu = Cpu(
    pc: Word, ifId: Instr, idEx: IdEx, exMem: ExMem, memWb: MemWb, mem: MemUnit, regs: RegFile)

  const RESET_MEM := MemUnit(MemIdle, 0, FromAlu, 0, false, false)

  function Reset(regs: RegFile): Cpu {
    Cpu(ENTRY_ADDRESS, Nop(ENTRY_ADDRESS), IdEx(BUBBLE, 0, 0), ExMem(BUBBLE, 0, 0),
        MemWb(0, 0, 0, FromAlu, 0, false), RESET_MEM, regs)
  }

  // ---------------------------------------------------------------- memory stage

  /** Answers of the bus in one cycle. */
  datatype BusIn = BusIn(granted: bool, readValid: bool, readData: Word, writeValid: bool)

  /** Requests of the memory stage in one cycle. */
  datatype BusOut = BusOut(request: bool, read: bool, write: bool, address: Word, data: Word, strobe: Strobe)

  const NO_STROBE: Strobe := [false, false, false, false]

  datatype MemStage = MemStage(next: MemUnit, bus: BusOut, stall: bool, readData: Word, forward: Word,
                               wbSource: WriteSource, wbRd: Reg, wbWriteEnable: bool)

  function MemoryAccess<M>(isa: Isa<M>, u: MemUnit, m: ExMem, bus: BusIn): MemStage {
    var i := m.instr;
    var address := Align(m.alu);
    var u' := u.(readJustCompleted := false);
    var quiet := BusOut(false, false, false, address, 0, NO_STROBE);
    var processed := isa.extract(i.funct3, m.alu, bus.readData);
    var activeRead := u.state.MemRead? && !bus.readValid;
    var readData := if u.state.MemRead? && bus.readValid then processed else u.data;
    var source := if activeRead then u.source else i.source;
    var forward := match source
      case FromAlu => m.alu
      case FromMemory => readData
      case FromNextPc => Wrap(i.pc + 4);
    var rd := if activeRead then u.rd else i.rd;
    var writeEnable := if activeRead then u.writeEnable else i.writeEnable;
    match u.state
    case MemRead =>
      if bus.readValid then
        MemStage(u'.(state := MemIdle, data := processed, readJustCompleted := true),
                 quiet.(request := true), false, readData, forward, source, rd, writeEnable)
      else
        MemStage(u', quiet.(request := true), true, readData, forward, source, rd, writeEnable)
    case MemWrite =>
      MemStage(if bus.writeValid then u'.(state := MemIdle) else u',
               quiet.(request := true), !bus.writeValid, readData, forward, source, rd, writeEnable)
    case MemIdle =>
      if i.memRead then
        var latched := u'.(source := i.source, rd := i.rd, writeEnable := i.writeEnable);
        MemStage(if bus.granted then latched.(state := MemRead) else latched,
                 quiet.(request := true, read := true), true, readData, forward, source, rd, writeEnable)
      else if i.memWrite then
        MemStage(if bus.granted then u'.(state := MemWrite) else u',
                 BusOut(true, false, true, address, isa.storeData(i.funct3, m.alu, m.reg2),
                        isa.storeStrobe(i.funct3, m.alu)),
                 true, readData, forward, source, rd, writeEnable)
      else
        MemStage(u', quiet, false, readData, forward, source, rd, writeEnable)
  }

  function WriteBack(w: MemWb): Word {
    match w.source
    case FromAlu => w.alu
    case FromMemory => w.data
    case FromNextPc => Wrap(w.pc + 4)
  }

  // ---------------------------------------------------------------- forwarding and hazards

  datatype Forward = NoForward | ForwardFromMem | ForwardFromWb

  function Forwarding(r: Reg, rdMem: Reg, enableMem: bool, rdWb: Reg, enableWb: bool): Forward {
    if enableMem && r == rdMem && rdMem != 0 then ForwardFromMem
    else if enableWb && r == rdWb && rdWb != 0 then ForwardFromWb
    else NoForward
  }

  function Select(f: Forward, fromMem: Word, fromWb: Word, otherwise: Word): Word {
    match f
    case NoForward => otherwise
    case ForwardFromMem => fromMem
    case ForwardFromWb => fromWb
  }

  predicate Matches(rd: Reg, id: Instr) { rd != 0 && (rd == id.rs1 || rd == id.rs2) }

  datatype Hazards = Hazards(idFlush: bool, stall: bool, jalHazard: bool)

  /** The stall and flush decisions; `stall` drives both the PC and IF2ID. */
  function Control(id: Instr, ex: Instr, mem: Instr, wb: MemWb): Hazards {
    var loadUse := ex.memRead && Matches(ex.rd, id);
    var jalHazard :=
      (ex.source.FromNextPc? && Matches(ex.rd, id)) ||
      (mem.source.FromNextPc? && Matches(mem.rd, id)) ||
      (wb.source.FromNextPc? && Matches(wb.rd, id));
    var hazard :=
      ((id.jump || ex.memRead) && Matches(ex.rd, id)) ||
      (id.jump && mem.memRead && Matches(mem.rd, id)) ||
      (mem.memWrite && ex.memRead) ||
      jalHazard;
    if hazard then Hazards(loadUse || jalHazard, true, jalHazard) else Hazards(false, false, false)
  }

  // ---------------------------------------------------------------- the clock edge

  datatype Fetch = Fetch(valid: bool, instr: Instr)

  function Operand1(i: Instr, reg1: Word): Word { if i.op1IsAddress then i.pc else reg1 }
  function Operand2(i: Instr, reg2: Word): Word { if i.op2IsImmediate then i.immediate else reg2 }

  function Execute<M>(isa: Isa<M>, i: Instr, reg1: Word, reg2: Word): Word {
    isa.alu(i.aluFunction, Operand1(i, reg1), Operand2(i, reg2))
  }

  function Memory<M>(isa: Isa<M>, c: Cpu, bus: BusIn): MemStage { MemoryAccess(isa, c.mem, c.exMem, bus) }

  /** The register file once the instruction in WB has written. */
  function RegsAfterWb(c: Cpu): RegFile { WriteReg(c.regs, c.memWb.writeEnable, c.memWb.rd, WriteBack(c.memWb)) }

  /** A source register as the decode stage sees it, ID forwarding applied. */
  function IdOperand(c: Cpu, fromMem: Word, r: Reg): Word {
    var m, w := c.exMem.instr, c.memWb;
    Select(Forwarding(r, m.rd, m.writeEnable, w.rd, w.writeEnable), fromMem, WriteBack(w),
           ReadPort(c.regs, w.writeEnable, w.rd, WriteBack(w), r))
  }

  /** A source register as the execute stage sees it, EX forwarding applied. */
  function ExOperand(c: Cpu, fromMem: Word, r: Reg, captured: Word): Word {
    var m, w := c.exMem.instr, c.memWb;
    Select(Forwarding(r, m.rd, m.writeEnable, w.rd, w.writeEnable), fromMem, WriteBack(w), captured)
  }

  function NextIdEx(c: Cpu, h: Hazards, ms: MemStage): IdEx {
    if h.idFlush && (!ms.stall || h.jalHazard) then IdEx(BUBBLE, 0, 0)
    else if ms.stall then c.idEx
    else IdEx(c.ifId, IdOperand(c, ms.forward, c.ifId.rs1), IdOperand(c, ms.forward, c.ifId.rs2))
  }

  function NextExMem<M>(isa: Isa<M>, c: Cpu, ms: MemStage): ExMem {
    if ms.stall then c.exMem
    else
      var i := c.idEx.instr;
      var reg1 := ExOperand(c, ms.forward, i.rs1, c.idEx.reg1);
      var reg2 := ExOperand(c, ms.forward, i.rs2, c.idEx.reg2);
      ExMem(i, Execute(isa, i, reg1, reg2), reg2)
  }

  function NextMemWb(c: Cpu, ms: MemStage): MemWb {
    if ms.stall then c.memWb
    else MemWb(c.exMem.instr.pc, c.exMem.alu, ms.readData, ms.wbSource, ms.wbRd, ms.wbWriteEnable)
  }

  function CpuHazards(c: Cpu): Hazards { Control(c.ifId, c.idEx.instr, c.exMem.instr, c.memWb) }

  function Step<M>(isa: Isa<M>, c: Cpu, fetch: Fetch, bus: BusIn): Cpu {
    var ms := Memory(isa, c, bus);
    var h := CpuHazards(c);
    var hold := h.stall || ms.stall;
    Cpu(
      if hold || !fetch.valid then c.pc else Wrap(c.pc + 4),
      if hold then c.ifId else if fetch.valid then fetch.instr else Nop(c.pc),
      NextIdEx(c, h, ms),
      NextExMem(isa, c, ms),
      NextMemWb(c, ms),
      ms.next,
      RegsAfterWb(c))
  }
}
