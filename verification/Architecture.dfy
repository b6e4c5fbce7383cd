/**
  The instruction set as a programmer reads it: assembly instructions over
  registers and bytes, each defined by the manual's words for it.  The chip,
  running the assembled words, takes the registers and bytes through exactly the
  states these definitions allow.
 */
module Architecture {
  import opened Basics
  import opened Words
  import opened PipelineCpu
  import opened PipelineInOrder
  import opened PipelineProgram
  import opened PipelineRepeats
  import opened LoadStore
  import opened Chip
  import opened Conformance
  import Arithmetic
  import Decode

  type Imm12 = x: int | -0x800 <= x < 0x800

  datatype Width = SignedByteWide | SignedHalfWide | WordWide | ByteWide | HalfWide

  datatype Asm =
    | Register(op: Operation, rd: Reg, rs1: Reg, rs2: Reg)
    | Immediate(op: Operation, rd: Reg, rs1: Reg, imm: Imm12)    // a shift's amount is below 32
    | Load(width: Width, rd: Reg, rs1: Reg, imm: Imm12)
    | Store(size: nat, rs2: Reg, rs1: Reg, imm: Imm12)            // of 1, 2 or 4 bytes
    | LoadUpper(rd: Reg, upper: nat)
    | AddUpperToPc(rd: Reg, upper: nat)

  predicate IsShift(op: Operation) { op == Sll || op == Srl || op == Sra }

  /** What can be written in the six formats. */
  predicate Writable(i: Asm) {
    match i
    case Register(_, _, _, _) => true
    case Immediate(op, _, _, imm) =>
      op in {Add, Sll, Slt, Sltu, Exor, Srl, Sra, Ior, Conj} && (IsShift(op) ==> 0 <= imm < 32)
    case Load(_, _, _, _) => true
    case Store(size, _, _, _) => size == 1 || size == 2 || size == 4
    case LoadUpper(_, upper) => upper < 0x10_0000
    case AddUpperToPc(_, upper) => upper < 0x10_0000
  }

  // ---------------------------------------------------------------- what instructions do

  /** Registers, and every byte of the memory. */
  datatype Machine = Machine(regs: RegFile, byte: Word -> Byte)

  predicate OthersKept(s: Machine, t: Machine, rd: Reg) {
    forall q: Reg | q != rd :: ReadReg(t.regs, q) == ReadReg(s.regs, q)
  }

  ghost predicate BytesKept(s: Machine, t: Machine) { forall p: Word :: t.byte(p) == s.byte(p) }

  function Bytes(width: Width): nat {
    match width
    case SignedByteWide => 1 case ByteWide => 1 case SignedHalfWide => 2 case HalfWide => 2 case WordWide => 4
  }

  /** The little-endian number in n bytes. */
  function Number(byte: Word -> Byte, p: Word, n: nat): nat
    requires p + n <= MODULUS
    decreases n
  {
    if n == 0 then 0 else byte(p) + 0x100 * (if n == 1 then 0 else Number(byte, p + 1, n - 1))
  }

  /** The two's-complement number in n bytes, for the widths that are signed. */
  function Loaded(byte: Word -> Byte, p: Word, width: Width): int
    requires p + Bytes(width) <= MODULUS
  {
    var v := Number(byte, p, Bytes(width));
    if width == SignedByteWide && v >= 0x80 then v - 0x100 else if width == SignedHalfWide && v >= 0x8000 then v - 0x1_0000 else v
  }

  function Accessed(s: Machine, i: Asm): Word
    requires i.Load? || i.Store?
  {
    Wrap(ReadReg(s.regs, i.rs1) + i.imm)
  }

  /** The access stays within one word of the memory. */
  predicate Contained(s: Machine, i: Asm) {
    && (i.Load? ==> WithinWord(Accessed(s, i), Bytes(i.width)))
    && (i.Store? ==> WithinWord(Accessed(s, i), i.size))
  }

  /** The manual's account of one instruction at address pc: t may follow s. */
  ghost predicate Does(pc: Word, i: Asm, s: Machine, t: Machine)
    requires Contained(s, i)
  {
    match i
    case Register(op, rd, rs1, rs2) =>
      && OthersKept(s, t, rd) && BytesKept(s, t)
      && (rd != 0 ==> Means(op, ReadReg(s.regs, rs1), ReadReg(s.regs, rs2), ReadReg(t.regs, rd)))
    case Immediate(op, rd, rs1, imm) =>
      && OthersKept(s, t, rd) && BytesKept(s, t)
      && (rd != 0 ==> Means(op, ReadReg(s.regs, rs1), Wrap(imm), ReadReg(t.regs, rd)))
    case Load(width, rd, rs1, imm) =>
      && OthersKept(s, t, rd) && BytesKept(s, t)
      && (rd != 0 ==> ReadReg(t.regs, rd) == Wrap(Loaded(s.byte, Accessed(s, i), width)))
    case Store(size, rs2, rs1, imm) =>
      && t.regs == s.regs
      && forall p: Word :: t.byte(p) == if Accessed(s, i) <= p < Accessed(s, i) + size
                                        then Lane(ReadReg(s.regs, rs2), p - Accessed(s, i)) else s.byte(p)
    case LoadUpper(rd, upper) =>
      && OthersKept(s, t, rd) && BytesKept(s, t) && (rd != 0 ==> ReadReg(t.regs, rd) == upper * 0x1000)
    case AddUpperToPc(rd, upper) =>
      && OthersKept(s, t, rd) && BytesKept(s, t) && (rd != 0 ==> ReadReg(t.regs, rd) == Wrap(pc + upper * 0x1000))
  }

  lemma RegsDetermined(s: Machine, t: Machine, u: Machine, rd: Reg)
    requires OthersKept(s, t, rd) && OthersKept(s, u, rd) && ReadReg(t.regs, rd) == ReadReg(u.regs, rd)
    ensures t.regs == u.regs
  {
    forall k | 0 <= k < 31 ensures t.regs[k] == u.regs[k] {
      var q: Reg := k + 1;
      assert ReadReg(t.regs, q) == ReadReg(u.regs, q);
    }
  }

  /** The account leaves no choice: what follows is determined. */
  lemma DoesOneThing(pc: Word, i: Asm, s: Machine, t: Machine, u: Machine)
    requires Contained(s, i) && Does(pc, i, s, t) && Does(pc, i, s, u)
    ensures t.regs == u.regs && BytesKept(t, u)
  {
    if i.Register? && i.rd != 0 {
      MeaningUnique(i.op, ReadReg(s.regs, i.rs1), ReadReg(s.regs, i.rs2), ReadReg(t.regs, i.rd), ReadReg(u.regs, i.rd));
    }
    if i.Immediate? && i.rd != 0 {
      MeaningUnique(i.op, ReadReg(s.regs, i.rs1), Wrap(i.imm), ReadReg(t.regs, i.rd), ReadReg(u.regs, i.rd));
    }
    if !i.Store? {
      RegsDetermined(s, t, u, i.rd);
    }
  }

  // ---------------------------------------------------------------- assembling

  function LoadCode(width: Width): nat {
    match width
    case SignedByteWide => LB case SignedHalfWide => LH case WordWide => LW case ByteWide => LBU case HalfWide => LHU
  }

  function StoreCode(size: nat): nat { if size == 1 then SB else if size == 2 then SH else SW }

  function Upper(op: nat, rd: Reg, upper: nat): Word
    requires op < 0x80 && upper < 0x10_0000
  {
    op + 0x80 * (rd + 32 * upper)
  }

  function Assemble(i: Asm): Word
    requires Writable(i)
  {
    match i
    case Register(op, rd, rs1, rs2) => Decode.Register(Encoding(op).0, Encoding(op).1, rd, rs1, rs2)
    case Immediate(op, rd, rs1, imm) =>
      Decode.WithImmediate(Decode.OP_IMM, Encoding(op).0, rd, rs1, if op == Sra then imm + 0x400 else imm)
    case Load(width, rd, rs1, imm) => Decode.WithImmediate(Decode.LOAD, LoadCode(width), rd, rs1, imm)
    case Store(size, rs2, rs1, imm) => Decode.Storing(StoreCode(size), rs1, rs2, imm)
    case LoadUpper(rd, upper) => Upper(Decode.LUI, rd, upper)
    case AddUpperToPc(rd, upper) => Upper(Decode.AUIPC, rd, upper)
  }

  lemma AssembledSupported(i: Asm)
    requires Writable(i)
    ensures Decode.Supported(Assemble(i))
  {
    match i
    case Register(op, rd, rs1, rs2) => Decode.DecodesRegister(0, Encoding(op).0, Encoding(op).1, rd, rs1, rs2);
    case Immediate(op, rd, rs1, imm) =>
      Decode.DecodesImmediate(0, Decode.OP_IMM, Encoding(op).0, rd, rs1, if op == Sra then imm + 0x400 else imm);
    case Load(width, rd, rs1, imm) => Decode.DecodesImmediate(0, Decode.LOAD, LoadCode(width), rd, rs1, imm);
    case Store(size, rs2, rs1, imm) => Decode.DecodesStore(0, StoreCode(size), rs1, rs2, imm);
    case LoadUpper(rd, upper) => Decode.DecodesUpper(0, Decode.LUI, rd, upper);
    case AddUpperToPc(rd, upper) => Decode.DecodesUpper(0, Decode.AUIPC, rd, upper);
  }

  function Decoded(pc: Word, i: Asm): Instr
    requires Writable(i)
  {
    AssembledSupported(i);
    Decode.Instruction(pc, Assemble(i))
  }

  // ---------------------------------------------------------------- the chip's instructions do this

  function View(a: Arch<Devices>): Machine { Machine(a.regs, p => ByteAt(a.mem, p)) }

  function After(a: Arch<Devices>, pc: Word, i: Asm): Arch<Devices>
    requires Writable(i)
  {
    ExecOne(Units(Arithmetic.Compute), a, Decoded(pc, i))
  }

  /** An instruction that writes a register keeps everything else. */
  lemma WritesOnly(alu: Alu, a: Arch<Devices>, i: Instr)
    requires i.writeEnable && !i.memWrite
    ensures var b := ExecOne(Units(alu), a, i);
            OthersKept(View(a), View(b), i.rd) && BytesKept(View(a), View(b))
            && (i.rd != 0 ==> ReadReg(b.regs, i.rd) == ResultOf(Units(alu), a, i))
  {
  }

  lemma RegisterDoes(a: Arch<Devices>, pc: Word, i: Asm)
    requires i.Register?
    ensures Does(pc, i, View(a), View(After(a, pc, i)))
  {
    Decode.DecodesRegister(pc, Encoding(i.op).0, Encoding(i.op).1, i.rd, i.rs1, i.rs2);
    WritesOnly(Arithmetic.Compute, a, Decoded(pc, i));
    OperationsConform(i.op, ReadReg(a.regs, i.rs1), ReadReg(a.regs, i.rs2));
  }

  /** A shift looks at the amount alone. */
  lemma ShiftAmount(op: Operation, a: Word, imm: Imm12, r: Word)
    requires op == Sra && 0 <= imm < 32 && Means(op, a, Wrap(imm + 0x400), r)
    ensures Means(op, a, Wrap(imm), r)
  {
    assert Wrap(imm + 0x400) % 32 == Wrap(imm) % 32;
  }

  lemma ImmediateField(op: Operation, imm: Imm12)
    requires IsShift(op) ==> 0 <= imm < 32
    ensures var x := if op == Sra then imm + 0x400 else imm;
            -0x800 <= x < 0x800 && Decode.Field12(x) / 32 < 0x80
            && (op == Srl ==> Decode.Field12(x) / 32 == 0) && (op == Sra ==> Decode.Field12(x) / 32 == 0x20)
  {
  }

  /** What an instruction with an immediate operand computes. */
  lemma ImmediateResult(a: Arch<Devices>, j: Instr, f: nat)
    requires j.source.FromAlu? && !j.op1IsAddress && j.op2IsImmediate && j.aluFunction == f
    ensures ResultOf(Units(Arithmetic.Compute), a, j) == Arithmetic.Compute(f, ReadReg(a.regs, j.rs1), j.immediate)
  {
  }

  lemma ImmediateMeans(op: Operation, imm: Imm12, operand: Word)
    requires op in {Add, Sll, Slt, Sltu, Exor, Srl, Sra, Ior, Conj} && (IsShift(op) ==> 0 <= imm < 32)
    ensures var x := if op == Sra then imm + 0x400 else imm;
            -0x800 <= x < 0x800 &&
            Means(op, operand, Wrap(imm),
                  Arithmetic.Compute(Decode.AluFunction(Decode.OP_IMM, Encoding(op).0, Decode.Field12(x) / 32), operand, Wrap(x)))
  {
    var x := if op == Sra then imm + 0x400 else imm;
    ImmediateField(op, imm);
    var f := Decode.AluFunction(Decode.OP_IMM, Encoding(op).0, Decode.Field12(x) / 32);
    ImmediatesConform(op, Decode.Field12(x) / 32, operand, Wrap(x));
    if op == Sra {
      ShiftAmount(op, operand, imm, Arithmetic.Compute(f, operand, Wrap(x)));
    }
  }

  lemma ImmediateDoesFor(a: Arch<Devices>, pc: Word, i: Asm, j: Instr, f: nat)
    requires i.Immediate? && Writable(i)
    requires j.rd == i.rd && j.rs1 == i.rs1 && j.writeEnable && !j.memWrite
    requires j.source.FromAlu? && !j.op1IsAddress && j.op2IsImmediate && j.aluFunction == f
    requires Means(i.op, ReadReg(a.regs, i.rs1), Wrap(i.imm), Arithmetic.Compute(f, ReadReg(a.regs, i.rs1), j.immediate))
    ensures Does(pc, i, View(a), View(ExecOne(Units(Arithmetic.Compute), a, j)))
  {
    WritesOnly(Arithmetic.Compute, a, j);
    ImmediateResult(a, j, f);
  }

  /** The value in the immediate field. */
  function FieldValue(i: Asm): int
    requires i.Immediate?
  {
    if i.op == Sra then i.imm + 0x400 else i.imm
  }

  lemma ImmediateDecoded(pc: Word, i: Asm)
    requires i.Immediate? && Writable(i)
    ensures -0x800 <= FieldValue(i) < 0x800
    ensures var j := Decoded(pc, i);
            && j.rd == i.rd && j.rs1 == i.rs1 && j.writeEnable && !j.memWrite && j.source.FromAlu? && !j.op1IsAddress
            && j.op2IsImmediate && j.immediate == Wrap(FieldValue(i))
            && j.aluFunction == Decode.AluFunction(Decode.OP_IMM, Encoding(i.op).0, Decode.Field12(FieldValue(i)) / 32)
  {
    Decode.DecodesImmediate(pc, Decode.OP_IMM, Encoding(i.op).0, i.rd, i.rs1, FieldValue(i));
  }

  lemma ImmediateDoes(a: Arch<Devices>, pc: Word, i: Asm)
    requires i.Immediate? && Writable(i)
    ensures Does(pc, i, View(a), View(After(a, pc, i)))
  {
    ImmediateDecoded(pc, i);
    ImmediateMeans(i.op, i.imm, ReadReg(a.regs, i.rs1));
    ImmediateDoesFor(a, pc, i, Decoded(pc, i), Decoded(pc, i).aluFunction);
  }

  lemma UpperResult(a: Arch<Devices>, j: Instr)
    requires j.source.FromAlu? && j.rs1 == 0 && j.op2IsImmediate && j.aluFunction == 1
    ensures ResultOf(Units(Arithmetic.Compute), a, j) == Wrap((if j.op1IsAddress then j.pc else 0) + j.immediate)
  {
  }

  lemma UpperDoesFor(a: Arch<Devices>, pc: Word, i: Asm, j: Instr)
    requires (i.LoadUpper? || i.AddUpperToPc?) && Writable(i)
    requires j.rd == i.rd && j.pc == pc && j.rs1 == 0 && j.immediate == i.upper * 0x1000 && j.op1IsAddress == i.AddUpperToPc?
    requires j.writeEnable && !j.memWrite && j.source.FromAlu? && j.op2IsImmediate && j.aluFunction == 1
    ensures Does(pc, i, View(a), View(ExecOne(Units(Arithmetic.Compute), a, j)))
  {
    WritesOnly(Arithmetic.Compute, a, j);
    UpperResult(a, j);
  }

  lemma UpperDoes(a: Arch<Devices>, pc: Word, i: Asm)
    requires (i.LoadUpper? || i.AddUpperToPc?) && Writable(i)
    ensures Does(pc, i, View(a), View(After(a, pc, i)))
  {
    Decode.DecodesUpper(pc, if i.LoadUpper? then Decode.LUI else Decode.AUIPC, i.rd, i.upper);
    UpperDoesFor(a, pc, i, Decoded(pc, i));
  }

  /** The bytes of a word as one number, two ways. */
  lemma NumberIsValue(d: Devices, p: Word, n: nat)
    requires (n == 1 || n == 2 || n == 4) && WithinWord(p, n)
    ensures p + n <= MODULUS && Number(q => ByteAt(d, q), p, n) == Value(d, p, n)
  {
    var byte := (q: Word) => ByteAt(d, q);
    if n >= 2 {
      assert Number(byte, p + n - 1, 1) == ByteAt(d, p + n - 1);
    }
    if n == 4 {
      assert Number(byte, p + 2, 2) == ByteAt(d, p + 2) + 0x100 * ByteAt(d, p + 3);
      assert Number(byte, p + 1, 3) == ByteAt(d, p + 1) + 0x100 * Number(byte, p + 2, 2);
    }
  }

  lemma LoadResult(alu: Alu, a: Arch<Devices>, j: Instr, p: Word)
    requires j.source.FromMemory? && !j.op1IsAddress && j.op2IsImmediate
    requires p == alu(j.aluFunction, ReadReg(a.regs, j.rs1), j.immediate)
    ensures ResultOf(Units(alu), a, j) == Extract(j.funct3, p, ReadWord(a.mem, Align(p)))
  {
  }

  lemma LoadedIs(d: Devices, width: Width, p: Word)
    requires WithinWord(p, Bytes(width))
    ensures p + Bytes(width) <= MODULUS
    ensures Loaded(q => ByteAt(d, q), p, width) ==
            var v := Value(d, p, Bytes(width));
            if width == ByteWide || width == HalfWide then v else SignedValue(Bytes(width), v)
  {
    NumberIsValue(d, p, Bytes(width));
  }

  lemma LoadMeans(d: Devices, width: Width, p: Word)
    requires WithinWord(p, Bytes(width))
    ensures p + Bytes(width) <= MODULUS
    ensures Extract(LoadCode(width), p, ReadWord(d, Align(p))) == Wrap(Loaded(q => ByteAt(d, q), p, width))
  {
    LoadedIs(d, width, p);
    LoadReturnsBytes(d, LoadCode(width), p);
  }

  lemma LoadDoesFor(a: Arch<Devices>, pc: Word, i: Asm, j: Instr)
    requires i.Load? && Contained(View(a), i)
    requires j.rd == i.rd && j.rs1 == i.rs1 && j.funct3 == LoadCode(i.width) && j.immediate == Wrap(i.imm)
    requires j.writeEnable && !j.memWrite && j.source.FromMemory? && !j.op1IsAddress && j.op2IsImmediate && j.aluFunction == 1
    ensures Does(pc, i, View(a), View(ExecOne(Units(Arithmetic.Compute), a, j)))
  {
    var p := Accessed(View(a), i);
    WritesOnly(Arithmetic.Compute, a, j);
    AddressSame(ReadReg(a.regs, i.rs1), i.imm);
    LoadResult(Arithmetic.Compute, a, j, p);
    LoadMeans(a.mem, i.width, p);
  }

  lemma LoadDoes(a: Arch<Devices>, pc: Word, i: Asm)
    requires i.Load? && Contained(View(a), i)
    ensures Does(pc, i, View(a), View(After(a, pc, i)))
  {
    Decode.DecodesImmediate(pc, Decode.LOAD, LoadCode(i.width), i.rd, i.rs1, i.imm);
    LoadDoesFor(a, pc, i, Decoded(pc, i));
  }

  lemma AddressSame(base: Word, imm: int)
    ensures Wrap(base + Wrap(imm)) == Wrap(base + imm)
  {
    var k := imm / MODULUS;
    assert imm == k * MODULUS + Wrap(imm);
    Arithmetic.Congruent(base + Wrap(imm), k);
  }

  lemma StoreResult(alu: Alu, a: Arch<Devices>, j: Instr, p: Word)
    requires j.memWrite && !j.writeEnable && !j.op1IsAddress && j.op2IsImmediate
    requires p == alu(j.aluFunction, ReadReg(a.regs, j.rs1), j.immediate)
    ensures ExecOne(Units(alu), a, j) ==
            Arch(a.regs, WriteWord(a.mem, Align(p), StoreData(j.funct3, p, ReadReg(a.regs, j.rs2)), StoreStrobe(j.funct3, p)))
  {
  }

  lemma StoreDoesFor(a: Arch<Devices>, pc: Word, i: Asm, j: Instr)
    requires i.Store? && Writable(i) && Contained(View(a), i)
    requires j.funct3 == StoreCode(i.size) && j.rs1 == i.rs1 && j.rs2 == i.rs2 && j.immediate == Wrap(i.imm)
    requires j.memWrite && !j.writeEnable && !j.op1IsAddress && j.op2IsImmediate && j.aluFunction == 1
    ensures Does(pc, i, View(a), View(ExecOne(Units(Arithmetic.Compute), a, j)))
  {
    var p, value := Accessed(View(a), i), ReadReg(a.regs, i.rs2);
    AddressSame(ReadReg(a.regs, i.rs1), i.imm);
    StoreResult(Arithmetic.Compute, a, j, p);
    var d' := WriteWord(a.mem, Align(p), StoreData(j.funct3, p, value), StoreStrobe(j.funct3, p));
    forall b: Word ensures ByteAt(d', b) == if p <= b < p + i.size then Lane(value, b - p) else ByteAt(a.mem, b) {
      StoreChangesExactly(a.mem, StoreCode(i.size), p, value, b);
    }
  }

  lemma StoreDoes(a: Arch<Devices>, pc: Word, i: Asm)
    requires i.Store? && Writable(i) && Contained(View(a), i)
    ensures Does(pc, i, View(a), View(After(a, pc, i)))
  {
    Decode.DecodesStore(pc, StoreCode(i.size), i.rs1, i.rs2, i.imm);
    StoreDoesFor(a, pc, i, Decoded(pc, i));
  }

  /** One decoded instruction does what the manual says of it. */
  lemma InstructionDoes(a: Arch<Devices>, pc: Word, i: Asm)
    requires Writable(i) && Contained(View(a), i)
    ensures Does(pc, i, View(a), View(After(a, pc, i)))
  {
    if i.Register? {
      RegisterDoes(a, pc, i);
    } else if i.Immediate? {
      ImmediateDoes(a, pc, i);
    } else if i.Load? {
      LoadDoes(a, pc, i);
    } else if i.Store? {
      StoreDoes(a, pc, i);
    } else {
      UpperDoes(a, pc, i);
    }
  }

  // ---------------------------------------------------------------- whole programs

  /** The memory holds assembled instructions at every address. */
  ghost predicate Holds(program: Word -> Instr, text: Word -> Asm) {
    forall p: Word :: Writable(text(p)) && program(p) == Decoded(p, text(p))
  }

  /** The source registers, x0 when there is none. */
  function FirstSource(i: Asm): Reg {
    if i.Register? || i.Immediate? || i.Load? || i.Store? then i.rs1 else 0
  }

  function SecondSource(i: Asm): Reg { if i.Register? || i.Store? then i.rs2 else 0 }

  predicate Reads(i: Asm, r: Reg) { r != 0 && (r == FirstSource(i) || r == SecondSource(i)) }

  /** What a programmer has to see to: an instruction two behind a store; load pair reads what is loaded, or not its own destination. */
  ghost predicate Safe(text: Word -> Asm) {
    forall k: nat | text(Address(k)).Store? && text(Address(k + 1)).Load? ::
      var i := text(Address(k + 2));
      Reads(i, text(Address(k + 1)).rd) || i.Store? || !Reads(i, i.rd)
  }

  predicate HasFields(j: Instr, i: Asm) {
    && j.rs1 == FirstSource(i) && j.rs2 == SecondSource(i) && (!i.Store? ==> j.rd == i.rd)
    && (j.memWrite <==> i.Store?) && (j.memRead <==> i.Load?)
  }

  lemma StoreFields(pc: Word, i: Asm)
    requires i.Store? && Writable(i)
    ensures HasFields(Decoded(pc, i), i)
  {
    Decode.DecodesStore(pc, StoreCode(i.size), i.rs1, i.rs2, i.imm);
  }

  lemma RegisterFields(pc: Word, i: Asm)
    requires i.Register?
    ensures HasFields(Decoded(pc, i), i)
  {
    Decode.DecodesRegister(pc, Encoding(i.op).0, Encoding(i.op).1, i.rd, i.rs1, i.rs2);
  }

  lemma ImmediateFields(pc: Word, i: Asm)
    requires (i.Immediate? || i.Load?) && Writable(i)
    ensures HasFields(Decoded(pc, i), i)
  {
    if i.Load? {
      Decode.DecodesImmediate(pc, Decode.LOAD, LoadCode(i.width), i.rd, i.rs1, i.imm);
    } else {
      Decode.DecodesImmediate(pc, Decode.OP_IMM, Encoding(i.op).0, i.rd, i.rs1, if i.op == Sra then i.imm + 0x400 else i.imm);
    }
  }

  lemma DecodedFields(pc: Word, i: Asm)
    requires Writable(i)
    ensures InClass(Decoded(pc, i)) && HasFields(Decoded(pc, i), i)
  {
    AssembledSupported(i);
    Decode.SupportedInClass(pc, Assemble(i));
    if i.Store? {
      StoreFields(pc, i);
    } else if i.Register? {
      RegisterFields(pc, i);
    } else if i.Immediate? || i.Load? {
      ImmediateFields(pc, i);
    } else {
      Decode.DecodesUpper(pc, if i.LoadUpper? then Decode.LUI else Decode.AUIPC, i.rd, i.upper);
    }
  }

  lemma SafeRereadsNothing(program: Word -> Instr, text: Word -> Asm)
    requires Holds(program, text) && Safe(text)
    ensures (forall p :: InClass(program(p))) && NothingReread(program)
  {
    forall p: Word ensures InClass(program(p)) {
      DecodedFields(p, text(p));
    }
    forall k: nat | Repeated(program, k)
      ensures var i := program(Address(k + 2)); i.memWrite || i.rd == 0 || (i.rd != i.rs1 && i.rd != i.rs2)
    {
      DecodedFields(Address(k), text(Address(k)));
      DecodedFields(Address(k + 1), text(Address(k + 1)));
      DecodedFields(Address(k + 2), text(Address(k + 2)));
    }
  }

  /** A history of states in which each follows the one before as the manual says, accesses that leave a word aside. */
  ghost predicate History(text: Word -> Asm, states: seq<Machine>) {
    forall k: nat | k + 1 < |states| && Contained(states[k], text(Address(k))) ::
      Does(Address(k), text(Address(k)), states[k], states[k + 1])
  }

  /** One instruction of the decoded program, executed where the program reaches it. */
  lemma ProgramDoes(program: Word -> Instr, text: Word -> Asm, a: Arch<Devices>, k: nat)
    requires Holds(program, text)
    requires Contained(View(At(Units(Arithmetic.Compute), a, program, k)), text(Address(k)))
    ensures Does(Address(k), text(Address(k)), View(At(Units(Arithmetic.Compute), a, program, k)),
                 View(At(Units(Arithmetic.Compute), a, program, k + 1)))
  {
    ProgressStep(Units(Arithmetic.Compute), a, program, k);
    InstructionDoes(At(Units(Arithmetic.Compute), a, program, k), Address(k), text(Address(k)));
  }

  /** Every instruction of the program, up to the n-th, does what the manual says of it. */
  ghost predicate Doing(isa: Isa<Devices>, program: Word -> Instr, text: Word -> Asm, a: Arch<Devices>, n: nat) {
    forall k: nat | k < n && Contained(View(At(isa, a, program, k)), text(Address(k))) ::
      Does(Address(k), text(Address(k)), View(At(isa, a, program, k)), View(At(isa, a, program, k + 1)))
  }

  lemma ProgramDoing(program: Word -> Instr, text: Word -> Asm, a: Arch<Devices>, n: nat)
    requires Holds(program, text)
    ensures Doing(Units(Arithmetic.Compute), program, text, a, n)
  {
    forall k: nat | k < n && Contained(View(At(Units(Arithmetic.Compute), a, program, k)), text(Address(k)))
      ensures Does(Address(k), text(Address(k)), View(At(Units(Arithmetic.Compute), a, program, k)),
                   View(At(Units(Arithmetic.Compute), a, program, k + 1)))
    {
      ProgramDoes(program, text, a, k);
    }
  }

  /** The states that one-at-a-time execution goes through. */
  lemma Histories(isa: Isa<Devices>, program: Word -> Instr, text: Word -> Asm, a: Arch<Devices>, n: nat)
    returns (states: seq<Machine>)
    requires Doing(isa, program, text, a, n)
    ensures |states| == n + 1 && states[0] == View(a) && states[n] == View(At(isa, a, program, n))
    ensures History(text, states)
  {
    states := seq(n + 1, k requires 0 <= k <= n => View(At(isa, a, program, k)));
  }

  /**
    The chip implements the instruction set: for every program of assembled
    instructions that is safe, every latency of fetch and devices and every number
    of cycles, its registers and bytes end a history that begins with its initial
    ones and takes each step as the manual says.
   */
  lemma ChipImplementsArchitecture(text: Word -> Asm, program: Word -> Instr, regs: RegFile, devices: Devices, os: seq<Outside>)
    returns (states: seq<Machine>)
    requires Holds(program, text) && Safe(text)
    ensures |states| == ChipProgress(Arithmetic.Compute, program, regs, devices, os) + 1
    ensures states[0] == View(Arch(regs, devices)) && History(text, states)
    ensures states[|states| - 1] == View(Whole(Arithmetic.Compute, program, regs, devices, os))
  {
    SafeRereadsNothing(program, text);
    NothingRereadHarmless(Arithmetic.Compute, program, Arch(regs, devices));
    ChipRunsSequentially(Arithmetic.Compute, program, regs, devices, os);
    var n := ChipProgress(Arithmetic.Compute, program, regs, devices, os);
    ProgramDoing(program, text, Arch(regs, devices), n);
    states := Histories(Units(Arithmetic.Compute), program, text, Arch(regs, devices), n);
  }
}
