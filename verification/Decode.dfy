/** Decoding instruction words of the computational, load and store formats, and the chip running programs of them. */
module Decode {
  import opened Words
  import opened PipelineCpu
  import opened PipelineInOrder
  import opened PipelineProgram
  import opened LoadStore
  import opened Chip
  import opened BusProtocol
  import Arithmetic

  const LOAD := 0x03
  const OP_IMM := 0x13
  const AUIPC := 0x17
  const STORE := 0x23
  const OP := 0x33
  const LUI := 0x37

  // ---------------------------------------------------------------- fields

  function Opcode(w: Word): nat { w % 0x80 }
  function Rd(w: Word): Reg { w / 0x80 % 32 }
  function Funct3(w: Word): nat { w / 0x1000 % 8 }
  function Rs1(w: Word): Reg { w / 0x8000 % 32 }
  function Rs2(w: Word): Reg { w / 0x10_0000 % 32 }
  function Funct7(w: Word): nat { w / 0x200_0000 }

  /** A 12-bit field, sign-extended. */
  function Extend12(x: nat): Word { Wrap(if x >= 0x800 then x - 0x1000 else x) }

  function Immediate(w: Word): Word {
    if Opcode(w) == STORE then Extend12(Funct7(w) * 32 + Rd(w))
    else if Opcode(w) == LUI || Opcode(w) == AUIPC then w / 0x1000 * 0x1000
    else Extend12(w / 0x10_0000)
  }

  /** The ALU's function, numbered as in its enumeration. */
  function AluFunction(opcode: nat, funct3: nat, funct7: nat): nat {
    if opcode == OP_IMM then
      match funct3
      case 0 => 1 case 1 => 3 case 2 => 4 case 3 => 10 case 4 => 5
      case 5 => if funct7 / 32 % 2 == 1 then 9 else 8
      case 6 => 6 case 7 => 7 case _ => 0
    else if opcode == OP && funct7 == 1 then
      match funct3
      case 0 => 11 case 1 => 12 case 2 => 13 case 3 => 14 case 4 => 15 case 5 => 17 case 6 => 16 case 7 => 18 case _ => 0
    else if opcode == OP then
      match funct3
      case 0 => if funct7 / 32 % 2 == 1 then 2 else 1
      case 1 => 3 case 2 => 4 case 3 => 10 case 4 => 5
      case 5 => if funct7 / 32 % 2 == 1 then 9 else 8
      case 6 => 6 case 7 => 7 case _ => 0
    else if opcode == LOAD || opcode == STORE || opcode == LUI || opcode == AUIPC then 1
    else 0
  }

  /** The formats of the class: register, immediate, load, store and upper-immediate instructions. */
  predicate Supported(w: Word) {
    Opcode(w) in {LOAD, OP_IMM, AUIPC, STORE, OP, LUI}
  }

  function Instruction(pc: Word, w: Word): Instr
    requires Supported(w)
  {
    var op := Opcode(w);
    Instr(
      pc, AluFunction(op, Funct3(w), Funct7(w)), Funct3(w),
      if op == OP || op == OP_IMM || op == LOAD || op == STORE then Rs1(w) else 0,
      if op == OP || op == STORE then Rs2(w) else 0,
      Rd(w), Immediate(w),
      op == AUIPC, op != OP, op == LOAD, op == STORE,
      op != STORE, if op == LOAD then FromMemory else FromAlu, false)
  }

  // ---------------------------------------------------------------- assembling

  function Fields(op: nat, rd: Reg, funct3: nat, rs1: Reg, upper: nat): Word
    requires op < 0x80 && funct3 < 8 && upper < 0x1000
  {
    op + 0x80 * (rd + 32 * (funct3 + 8 * (rs1 + 32 * upper)))
  }

  lemma FieldsApart(op: nat, rd: Reg, funct3: nat, rs1: Reg, upper: nat)
    requires op < 0x80 && funct3 < 8 && upper < 0x1000
    ensures var w := Fields(op, rd, funct3, rs1, upper);
            Opcode(w) == op && Rd(w) == rd && Funct3(w) == funct3 && Rs1(w) == rs1 && w / 0x10_0000 == upper
  {
    var w := Fields(op, rd, funct3, rs1, upper);
    var a := rs1 + 32 * upper;
    var b := funct3 + 8 * a;
    var c := rd + 32 * b;
    assert w == op + 0x80 * c;
    assert w / 0x80 == c;
    assert w / 0x1000 == b;
    assert w / 0x8000 == a;
  }

  lemma UpperHalves(rs2: Reg, funct7: nat, w: Word)
    requires funct7 < 0x80 && w / 0x10_0000 == rs2 + 32 * funct7
    ensures Rs2(w) == rs2 && Funct7(w) == funct7
  {
  }

  /** A twelve-bit immediate as it stands in an instruction. */
  function Field12(imm: int): (f: nat)
    requires -0x800 <= imm < 0x800
    ensures f < 0x1000 && Extend12(f) == Wrap(imm)
  {
    imm % 0x1000
  }

  function Register(funct3: nat, funct7: nat, rd: Reg, rs1: Reg, rs2: Reg): Word
    requires funct3 < 8 && funct7 < 0x80
  {
    Fields(OP, rd, funct3, rs1, rs2 + 32 * funct7)
  }

  function WithImmediate(op: nat, funct3: nat, rd: Reg, rs1: Reg, imm: int): Word
    requires op < 0x80 && funct3 < 8 && -0x800 <= imm < 0x800
  {
    Fields(op, rd, funct3, rs1, Field12(imm))
  }

  function Storing(funct3: nat, rs1: Reg, rs2: Reg, imm: int): Word
    requires funct3 < 8 && -0x800 <= imm < 0x800
  {
    Fields(STORE, Field12(imm) % 32, funct3, rs1, rs2 + 32 * (Field12(imm) / 32))
  }

  /** The formats of the manual, section 2.2, with their fields in their places. */
  lemma WordsAsDrawn(funct3: nat, funct7: nat, rd: Reg, rs1: Reg, rs2: Reg, imm: int)
    requires funct3 < 8 && funct7 < 0x80 && -0x800 <= imm < 0x800
    ensures Register(funct3, funct7, rd, rs1, rs2) ==
            0x33 + 0x80 * rd + 0x1000 * funct3 + 0x8000 * rs1 + 0x10_0000 * rs2 + 0x200_0000 * funct7
    ensures WithImmediate(OP_IMM, funct3, rd, rs1, imm) ==
            0x13 + 0x80 * rd + 0x1000 * funct3 + 0x8000 * rs1 + 0x10_0000 * (if imm < 0 then 0x1000 + imm else imm)
    ensures WithImmediate(LOAD, funct3, rd, rs1, imm) ==
            0x03 + 0x80 * rd + 0x1000 * funct3 + 0x8000 * rs1 + 0x10_0000 * (if imm < 0 then 0x1000 + imm else imm)
    ensures var f := if imm < 0 then 0x1000 + imm else imm;
            Storing(funct3, rs1, rs2, imm) ==
            0x23 + 0x80 * (f % 32) + 0x1000 * funct3 + 0x8000 * rs1 + 0x10_0000 * rs2 + 0x200_0000 * (f / 32)
  {
  }

  /** Decoding undoes assembling, in every format: registers, functions, and immediates sign-extended. */
  lemma DecodesRegister(pc: Word, funct3: nat, funct7: nat, rd: Reg, rs1: Reg, rs2: Reg)
    requires funct3 < 8 && funct7 < 0x80
    ensures var w := Register(funct3, funct7, rd, rs1, rs2);
            && Supported(w)
            && var i := Instruction(pc, w);
               && i.rd == rd && i.rs1 == rs1 && i.rs2 == rs2 && i.aluFunction == AluFunction(OP, funct3, funct7)
               && !i.op1IsAddress && !i.op2IsImmediate && !i.memRead && !i.memWrite && i.writeEnable
  {
    var w := Register(funct3, funct7, rd, rs1, rs2);
    FieldsApart(OP, rd, funct3, rs1, rs2 + 32 * funct7);
    UpperHalves(rs2, funct7, w);
  }

  lemma DecodesImmediate(pc: Word, op: nat, funct3: nat, rd: Reg, rs1: Reg, imm: int)
    requires (op == OP_IMM || op == LOAD) && funct3 < 8 && -0x800 <= imm < 0x800
    ensures var w := WithImmediate(op, funct3, rd, rs1, imm);
            && Supported(w)
            && var i := Instruction(pc, w);
               && i.rd == rd && i.rs1 == rs1 && i.rs2 == 0 && i.funct3 == funct3 && i.immediate == Wrap(imm)
               && i.aluFunction == AluFunction(op, funct3, Field12(imm) / 32)
               && !i.op1IsAddress && i.op2IsImmediate && i.memRead == (op == LOAD) && !i.memWrite && i.writeEnable
  {
    FieldsApart(op, rd, funct3, rs1, Field12(imm));
  }

  lemma DecodesStore(pc: Word, funct3: nat, rs1: Reg, rs2: Reg, imm: int)
    requires funct3 < 8 && -0x800 <= imm < 0x800
    ensures var w := Storing(funct3, rs1, rs2, imm);
            && Supported(w)
            && var i := Instruction(pc, w);
               && i.rs1 == rs1 && i.rs2 == rs2 && i.funct3 == funct3 && i.immediate == Wrap(imm)
               && i.aluFunction == 1 && i.op2IsImmediate && i.memWrite && !i.memRead && !i.writeEnable
  {
    var f := Field12(imm);
    FieldsApart(STORE, f % 32, funct3, rs1, rs2 + 32 * (f / 32));
    UpperHalves(rs2, f / 32, Storing(funct3, rs1, rs2, imm));
    assert f / 32 * 32 + f % 32 == f;
  }

  lemma DecodesUpper(pc: Word, op: nat, rd: Reg, upper: nat)
    requires (op == LUI || op == AUIPC) && upper < 0x10_0000
    ensures LUI == 0x37 && AUIPC == 0x17
    ensures var w: Word := op + 0x80 * (rd + 32 * upper);
            && Supported(w)
            && var i := Instruction(pc, w);
               && i.rd == rd && i.rs1 == 0 && i.rs2 == 0 && i.immediate == upper * 0x1000 && i.aluFunction == 1
               && i.op1IsAddress == (op == AUIPC) && i.op2IsImmediate && i.writeEnable
  {
    var w: Word := op + 0x80 * (rd + 32 * upper);
    assert w / 0x80 == rd + 32 * upper;
    assert w / 0x1000 == upper;
  }

  /** Every supported word decodes to an instruction of the class the pipeline executes in order. */
  lemma SupportedInClass(pc: Word, w: Word)
    requires Supported(w)
    ensures InClass(Instruction(pc, w))
  {
  }

  // ---------------------------------------------------------------- programs of words

  /** An instruction memory of supported words. */
  ghost predicate Loads(code: Word -> Word) { forall p: Word :: Supported(code(p)) }

  /** Neither word at an address and the next is a store followed by a load. */
  ghost predicate NoStoreThenLoad(code: Word -> Word) {
    forall k: nat :: Opcode(code(Address(k))) == STORE ==> Opcode(code(Address(k + 1))) != LOAD
  }

  /**
    * The chip with its own ALU and decoder executes machine words in order: for every program of supported words with no
    * store directly before a load, every latency and every number of cycles, the registers and the devices are those
    * after the first n instructions.
    */
  lemma ChipRunsWords(code: Word -> Word, program: Word -> Instr, regs: RegFile, devices: Devices, os: seq<Outside>)
    requires Loads(code) && NoStoreThenLoad(code)
    requires forall p: Word :: program(p) == Instruction(p, code(p))
    ensures var c := ChipRun(Arithmetic.Compute, program, regs, devices, os);
            var p := ChipPhase(Arithmetic.Compute, program, regs, devices, os);
            var r := RunAll(Units(Arithmetic.Compute), program, regs, devices,
                            ChipInputs(Arithmetic.Compute, program, regs, devices, os));
            && |Committed(r)| <= |r.valid|
            && Arch(RegsAfterWb(c.cpu), VisibleMemory(c.fabric, p)) ==
               ExecAll(Units(Arithmetic.Compute), Arch(regs, devices), Listing(program, Count(r.valid, |Committed(r)|)))
  {
    forall p: Word ensures InClass(program(p)) {
      SupportedInClass(p, code(p));
    }
    assert NoLoadAfterStore(program);
    ChipRunsInProgramOrder(Arithmetic.Compute, program, regs, devices, os);
  }
}
