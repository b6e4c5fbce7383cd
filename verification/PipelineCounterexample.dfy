/**
  A program outside the condition of `RunsInProgramOrder`:

      sw x0, 0(x0);  lw x5, 0(x0);  addi x1, x1, 1;  nop; nop; ...

  Some run leaves x1 at 2 when three instructions of the program have taken
  effect, although executing them one at a time leaves it at 1.
 */
module PipelineCounterexample {
  import opened Words
  import opened PipelineCpu
  import opened PipelineInOrder
  import opened PipelineProgram
  import opened PipelineRepeats

  const STORE := Instr(Address(0), 1, 2, 0, 0, 0, 0, false, true, false, true, false, FromAlu, false)
  const LOAD := Instr(Address(1), 1, 2, 0, 0, 5, 0, false, true, true, false, true, FromMemory, false)
  const INCREMENT := Instr(Address(2), 1, 0, 1, 0, 1, 1, false, true, false, false, true, FromAlu, false)

  function Program(pc: Word): Instr {
    if pc == Address(0) then STORE
    else if pc == Address(1) then LOAD
    else if pc == Address(2) then INCREMENT
    else Nop(pc)
  }

  /** An adder, and a memory that reads as zero. */
  function Units(): Isa<int> {
    Isa((f: nat, a: Word, b: Word) => Wrap(a + b), (f: nat, a: Word, w: Word) => w,
        (f: nat, a: Word, w: Word) => w, (f: nat, a: Word) => [true, true, true, true],
        (m: int, a: Word) => 0, (m: int, a: Word, w: Word, s: Strobe) => m)
  }

  function ZeroRegs(): RegFile { seq(31, _ => 0) }

  function Initial(): Arch<int> { Arch(ZeroRegs(), 0) }

  predicate Known(i: Instr) { i == STORE || i == LOAD || i == INCREMENT || i == Nop(i.pc) }

  function Increments(p: seq<Instr>): nat {
    if p == [] then 0 else Increments(p[..|p| - 1]) + if p[|p| - 1] == INCREMENT then 1 else 0
  }

  function X1(a: Arch<int>): int { a.regs[0] }

  lemma EffectOnX1(a: Arch<int>, i: Instr)
    requires Known(i)
    ensures X1(ExecOne(Units(), a, i)) == if i == INCREMENT then (X1(a) + 1) % MODULUS else X1(a)
  {
  }

  predicate AllKnown(p: seq<Instr>) { forall i <- p :: Known(i) }

  ghost predicate CountsInX1(isa: Isa<int>) {
    forall a: Arch<int>, i | Known(i) ::
      X1(ExecOne(isa, a, i)) == if i == INCREMENT then (X1(a) + 1) % MODULUS else X1(a)
  }

  lemma {:induction false} X1CountsWith(isa: Isa<int>, a: Arch<int>, p: seq<Instr>)
    requires CountsInX1(isa) && X1(a) == 0 && AllKnown(p)
    ensures X1(ExecAll(isa, a, p)) == Increments(p) % MODULUS
  {
    if p != [] {
      var q, i := p[..|p| - 1], p[|p| - 1];
      X1CountsWith(isa, a, q);
      assert X1(ExecOne(isa, ExecAll(isa, a, q), i)) == if i == INCREMENT then (Increments(q) + 1) % MODULUS else Increments(q) % MODULUS;
    }
  }

  /** x1 counts the increments executed. */
  lemma X1Counts(p: seq<Instr>)
    requires AllKnown(p)
    ensures X1(ExecAll(Units(), Initial(), p)) == Increments(p) % MODULUS
  {
    forall a: Arch<int>, i | Known(i)
      ensures X1(ExecOne(Units(), a, i)) == if i == INCREMENT then (X1(a) + 1) % MODULUS else X1(a)
    {
      EffectOnX1(a, i);
    }
    X1CountsWith(Units(), Initial(), p);
  }

  /** The program repeats when the address has wrapped round. */
  const PERIOD := 0x4000_0000

  lemma WrappedAddress(k: nat)
    ensures Address(k) == Address(k % PERIOD)
  {
    assert ENTRY_ADDRESS + 4 * k == (ENTRY_ADDRESS + 4 * (k % PERIOD)) + k / PERIOD * MODULUS;
    WrapPeriod(ENTRY_ADDRESS + 4 * (k % PERIOD), k / PERIOD);
  }

  lemma {:induction false} WrapPeriod(x: nat, times: nat)
    ensures (x + times * MODULUS) % MODULUS == x % MODULUS
    decreases times
  {
    if times > 0 {
      WrapPeriod(x, times - 1);
      assert x + times * MODULUS == x + (times - 1) * MODULUS + MODULUS;
    }
  }

  lemma ProgramAt(k: nat)
    ensures Known(Program(Address(k)))
    ensures Program(Address(k)) == INCREMENT <==> k % PERIOD == 2
  {
    WrappedAddress(k);
  }

  /** How often the program's first n instructions include the increment. */
  function Rounds(n: nat): nat { (n + PERIOD - 3) / PERIOD }

  lemma RoundsStep(n: nat)
    ensures Rounds(n + 1) == Rounds(n) + if n % PERIOD == 2 then 1 else 0
  {
  }

  lemma {:induction false} CountIncrements(n: nat)
    ensures Increments(Listing(Program, n)) == Rounds(n) && AllKnown(Listing(Program, n))
  {
    if n > 0 {
      CountIncrements(n - 1);
      ProgramAt(n - 1);
      RoundsStep(n - 1);
      var p, q := Listing(Program, n), Listing(Program, n - 1);
      assert p[..|p| - 1] == q;
    }
  }

  /** One instruction at a time, x1 counts the rounds of the address space, and passes 1 only in the second. */
  lemma InOrderResult(n: nat)
    ensures X1(At(Units(), Initial(), Program, n)) == Rounds(n) % MODULUS
    ensures X1(At(Units(), Initial(), Program, n)) <= 1 || n >= PERIOD + 3
  {
    CountIncrements(n);
    X1Counts(Listing(Program, n));
  }

  lemma OutsideTheCondition()
    ensures (forall p :: InClass(Program(p))) && Repeated(Program, 0) && Program(Address(2)) == INCREMENT
  {
  }

  lemma TwiceInX1(a: Arch<int>)
    requires X1(a) == 0
    ensures X1(ExecOne(Units(), ExecOne(Units(), a, INCREMENT), INCREMENT)) == 2
  {
    EffectOnX1(a, INCREMENT);
    EffectOnX1(ExecOne(Units(), a, INCREMENT), INCREMENT);
  }

  /** Before the address wraps round, sequential execution of this program leaves x1 below 2. */
  ghost predicate StaysBelow(isa: Isa<int>, a: Arch<int>, program: Word -> Instr, limit: nat) {
    forall n: nat | n <= limit :: X1(At(isa, a, program, n)) <= 1
  }

  lemma SomeRunTwice(isa: Isa<int>, program: Word -> Instr, regs: RegFile, mem: int, k: nat) returns (inputs: seq<Input>)
    requires (forall p :: InClass(program(p))) && k == 0 && Repeated(program, k)
    requires StaysBelow(isa, Arch(regs, mem), program, 8)
    requires var i := program(Address(k + 2)); X1(ExecOne(isa, ExecOne(isa, At(isa, Arch(regs, mem), program, k + 2), i), i)) == 2
    ensures var r := RunAll(isa, program, regs, mem, inputs);
            X1(Visible(r)) == 2 && Progress(r) == 3 && StaysBelow(isa, Arch(regs, mem), program, |Committed(r)|)
  {
    inputs := RunsTwice(isa, program, regs, mem, k);
  }

  lemma BelowTwo(limit: nat)
    requires limit <= PERIOD
    ensures StaysBelow(Units(), Initial(), Program, limit)
  {
    forall n: nat | n <= limit ensures X1(At(Units(), Initial(), Program, n)) <= 1 {
      InOrderResult(n);
    }
  }

  lemma TwiceAtThird(k: nat)
    requires k == 0
    ensures Repeated(Program, k)
    ensures var i := Program(Address(k + 2));
            X1(ExecOne(Units(), ExecOne(Units(), At(Units(), Initial(), Program, k + 2), i), i)) == 2
  {
    OutsideTheCondition();
    InOrderResult(k + 2);
    TwiceInX1(At(Units(), Initial(), Program, k + 2));
  }

  /** Some run executes the addi twice, having executed nothing beyond it. */
  lemma IncrementRunsTwice() returns (inputs: seq<Input>)
    ensures var r := RunAll(Units(), Program, ZeroRegs(), 0, inputs);
            X1(Visible(r)) == 2 && Progress(r) == 3 && StaysBelow(Units(), Initial(), Program, |Committed(r)|)
  {
    var k: nat := 0;
    OutsideTheCondition();
    BelowTwo(8);
    TwiceAtThird(k);
    inputs := SomeRunTwice(Units(), Program, ZeroRegs(), 0, k);
  }
}
