/** The clocked objects of the pipeline, updated in place at each edge. */
module PipelineClocked {
  import opened Words
  import opened PipelineCpu

  /** A pipeline register: flush wins over stall, stall over capture. */
  class PipelineRegister<T> {
    const reset: T
    var reg: T

    constructor (reset: T)
      ensures this.reset == reset && reg == reset
    {
      this.reset := reset;
      reg := reset;
    }

    method Clock(stall: bool, flush: bool, input: T)
      modifies this
      ensures reg == if flush then reset else if stall then old(reg) else input
    {
      if flush {
        reg := reset;
      } else if !stall {
        reg := input;
      }
    }
  }

  /** x1..x31 in storage cells 0..30. */
  class RegisterFile {
    const registers: array<Word>

    /** The registers keep whatever they hold at power-up. */
    constructor (regs: RegFile)
      ensures registers.Length == 31 && fresh(registers) && Contents() == regs
    {
      registers := new Word[31](i requires 0 <= i < 31 => regs[i]);
    }

    function Contents(): RegFile
      requires registers.Length == 31
      reads registers
    {
      registers[..]
    }

    method Clock(enable: bool, rd: Reg, data: Word)
      requires registers.Length == 31
      modifies registers
      ensures Contents() == WriteReg(old(Contents()), enable, rd, data)
    {
      if enable && rd != 0 {
        registers[rd - 1] := data;
      }
    }

    /** A read in the cycle of a write sees the register as it will be. */
    method Read(enable: bool, rd: Reg, data: Word, r: Reg) returns (value: Word)
      requires registers.Length == 31
      ensures value == ReadReg(WriteReg(Contents(), enable, rd, data), r)
    {
      if r == 0 {
        value := 0;
      } else if enable && rd == r {
        value := data;
      } else {
        value := registers[r - 1];
      }
    }
  }

  /** Reading through the port of the clocked file is reading through the port of the state. */
  lemma PortsAgree(regs: RegFile, enable: bool, rd: Reg, value: Word, r: Reg)
    ensures ReadReg(WriteReg(regs, enable, rd, value), r) == ReadPort(regs, enable, rd, value, r)
  {
  }

  /** The five stages with the registers between them. */
  class PipelinedCpu<!M> {
    const isa: Isa<M>
    const ifId: PipelineRegister<Instr>
    const idEx: PipelineRegister<IdEx>
    const exMem: PipelineRegister<ExMem>
    const memWb: PipelineRegister<MemWb>
    const regs: RegisterFile
    var pc: Word
    var mem: MemUnit

    ghost predicate Valid() {
      regs.registers.Length == 31 && idEx.reset == IdEx(BUBBLE, 0, 0)
    }

    ghost function Footprint(): set<object> { {this, ifId, idEx, exMem, memWb, regs.registers} }

    constructor (isa: Isa<M>, regs: RegFile)
      ensures Valid() && fresh(Footprint()) && this.isa == isa && State() == Reset(regs)
    {
      this.isa := isa;
      pc, mem := ENTRY_ADDRESS, RESET_MEM;
      ifId := new PipelineRegister(Nop(ENTRY_ADDRESS));
      idEx := new PipelineRegister(IdEx(BUBBLE, 0, 0));
      exMem := new PipelineRegister(ExMem(BUBBLE, 0, 0));
      memWb := new PipelineRegister(MemWb(0, 0, 0, FromAlu, 0, false));
      this.regs := new RegisterFile(regs);
    }

    function State(): Cpu
      requires regs.registers.Length == 31
      reads this, ifId, idEx, exMem, memWb, regs.registers
    {
      Cpu(pc, ifId.reg, idEx.reg, exMem.reg, memWb.reg, mem, regs.Contents())
    }

    /** The state, as far as its registers are concerned a whole. */
    ghost function Registers(): Cpu
      requires Valid()
      reads Footprint()
    {
      State()
    }

    /** A source register as the decode stage sees it: forwarded, or read through the port. */
    method Operand(fromMem: Word, r: Reg) returns (value: Word)
      requires Valid()
      ensures value == IdOperand(State(), fromMem, r)
    {
      var m, w := exMem.reg.instr, memWb.reg;
      var port := regs.Read(w.writeEnable, w.rd, WriteBack(w), r);
      PortsAgree(regs.Contents(), w.writeEnable, w.rd, WriteBack(w), r);
      value := Select(Forwarding(r, m.rd, m.writeEnable, w.rd, w.writeEnable), fromMem, WriteBack(w), port);
    }

    /** The edge at the four pipeline registers, each with its stall and flush. */
    method ClockStages(was: Cpu, ms: MemStage, h: Hazards, fetch: Fetch, decoded: IdEx)
      requires Valid() && was == State()
      requires decoded == IdEx(was.ifId, IdOperand(was, ms.forward, was.ifId.rs1), IdOperand(was, ms.forward, was.ifId.rs2))
      modifies ifId, idEx, exMem, memWb
      ensures idEx.reg == NextIdEx(was, h, ms) && exMem.reg == NextExMem(isa, was, ms) && memWb.reg == NextMemWb(was, ms)
      ensures ifId.reg == if h.stall || ms.stall then was.ifId else if fetch.valid then fetch.instr else Nop(was.pc)
    {
      var i := was.idEx.instr;
      var reg1 := ExOperand(was, ms.forward, i.rs1, was.idEx.reg1);
      var reg2 := ExOperand(was, ms.forward, i.rs2, was.idEx.reg2);
      memWb.Clock(ms.stall, false, MemWb(was.exMem.instr.pc, was.exMem.alu, ms.readData, ms.wbSource, ms.wbRd, ms.wbWriteEnable));
      exMem.Clock(ms.stall, false, ExMem(i, Execute(isa, i, reg1, reg2), reg2));
      idEx.Clock(ms.stall, h.idFlush && (!ms.stall || h.jalHazard), decoded);
      ifId.Clock(h.stall || ms.stall, false, if fetch.valid then fetch.instr else Nop(was.pc));
    }

    /** One rising edge. */
    method Clock(fetch: Fetch, bus: BusIn)
      requires Valid()
      modifies Footprint()
      ensures State() == Step(isa, old(State()), fetch, bus) && Registers() == State()
    {
      var was := State();
      var ms := Memory(isa, was, bus);
      var h := CpuHazards(was);
      var operand1 := Operand(ms.forward, was.ifId.rs1);
      var operand2 := Operand(ms.forward, was.ifId.rs2);
      ClockStages(was, ms, h, fetch, IdEx(was.ifId, operand1, operand2));
      regs.Clock(was.memWb.writeEnable, was.memWb.rd, WriteBack(was.memWb));
      if !h.stall && !ms.stall && fetch.valid {
        pc := Wrap(pc + 4);
      }
      mem := ms.next;
    }
  }
}
