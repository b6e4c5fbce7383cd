/** The arithmetic instructions against their meaning in the RISC-V Unprivileged ISA, sections 2.4 and 7. */
module Conformance {
  import opened Words
  import opened Arithmetic
  import opened WordBits
  import Decode

  datatype Operation =
    | Add | Sub | Sll | Slt | Sltu | Exor | Srl | Sra | Ior | Conj
    | MulLow | MulHigh | MulHighSU | MulHighU | Divide | DivideU | Remain | RemainU

  /** The instruction's funct3 and funct7 fields. */
  function Encoding(op: Operation): (nat, nat) {
    match op
    case Add => (0, 0) case Sub => (0, 0x20) case Sll => (1, 0) case Slt => (2, 0) case Sltu => (3, 0)
    case Exor => (4, 0) case Srl => (5, 0) case Sra => (5, 0x20) case Ior => (6, 0) case Conj => (7, 0)
    case MulLow => (0, 1) case MulHigh => (1, 1) case MulHighSU => (2, 1) case MulHighU => (3, 1)
    case Divide => (4, 1) case DivideU => (5, 1) case Remain => (6, 1) case RemainU => (7, 1)
  }

  /** The quotient rounded toward zero. */
  function Quotient(n: int, d: int): int
    requires d != 0
  {
    if n >= 0 then n / d else 0 - (0 - n) / d
  }

  /** The sign of a two's-complement word is its highest bit. */
  predicate Sign(a: Word) { Bit(a, 31) }

  /** Bit i of a word shifted left or right by s places, zeros or the sign coming in. */
  predicate LeftShifted(a: Word, s: nat, i: nat) { i >= s && Bit(a, i - s) }
  predicate RightShifted(a: Word, s: nat, i: nat) { i + s < 32 && Bit(a, i + s) }
  predicate RightShiftedSigned(a: Word, s: nat, i: nat) { if i + s < 32 then Bit(a, i + s) else Sign(a) }

  /** Two's-complement order: a set sign bit is below a clear one; otherwise the highest differing bit decides. */
  ghost predicate SignedBitsBelow(a: Word, b: Word) {
    if Sign(a) != Sign(b) then Sign(a) else BitsBelow(a, b, 32)
  }

  /** r is what is left when n is divided by d, with quotient q. */
  predicate Leaves(n: int, d: int, q: int, r: int) { n == d * q + r && 0 <= r < d }

  predicate Overflows(a: Word, b: Word) { Signed(a) == MIN_SIGNED && Signed(b) == -1 }

  /** What the manual says register rd receives. */
  ghost predicate Means(op: Operation, a: Word, b: Word, r: Word) {
    var x, y, s := Signed(a), Signed(b), b % 32;
    match op
    case Add => r == Wrap(x + y)
    case Sub => r == Wrap(x - y)
    case Sll => forall i: nat | i < 32 :: Bit(r, i) == LeftShifted(a, s, i)
    case Slt => r == if SignedBitsBelow(a, b) then 1 else 0
    case Sltu => r == if BitsBelow(a, b, 32) then 1 else 0
    case Exor => forall i: nat | i < 32 :: Bit(r, i) == (Bit(a, i) != Bit(b, i))
    case Srl => forall i: nat | i < 32 :: Bit(r, i) == RightShifted(a, s, i)
    case Sra => forall i: nat | i < 32 :: Bit(r, i) == RightShiftedSigned(a, s, i)
    case Ior => forall i: nat | i < 32 :: Bit(r, i) == (Bit(a, i) || Bit(b, i))
    case Conj => forall i: nat | i < 32 :: Bit(r, i) == (Bit(a, i) && Bit(b, i))
    case MulLow => r == Wrap(x * y)
    case MulHigh => 0 <= x * y - Signed(r) * MODULUS < MODULUS
    case MulHighSU => 0 <= x * b - Signed(r) * MODULUS < MODULUS
    case MulHighU => 0 <= a * b - r * MODULUS < MODULUS
    case Divide =>
      if b == 0 then r == MODULUS - 1 else if Overflows(a, b) then r == a else Truncates(x, y, Signed(r), x - y * Signed(r))
    case DivideU => if b == 0 then r == MODULUS - 1 else Leaves(a, b, r, a - b * r)
    case Remain => if b == 0 then r == a else if Overflows(a, b) then r == 0 else exists q :: Truncates(x, y, q, Signed(r))
    case RemainU => if b == 0 then r == a else exists q :: Leaves(a, b, q, r)
  }

  lemma QuotientTruncates(n: int, d: int)
    requires d != 0
    ensures Truncates(n, d, Quotient(n, d), n - d * Quotient(n, d))
  {
    var m := Abs(n);
    assert m == d * (m / d) + m % d && 0 <= m % d < Abs(d);
    if n < 0 {
      assert d * (0 - m / d) == 0 - d * (m / d);
    }
  }

  /** Division by magnitude computes the quotient rounded toward zero and its remainder, modulo 2^32. */
  lemma DivisionMeaning(a: Word, b: Word)
    requires b != 0
    ensures Div(a, b) == Wrap(Quotient(Signed(a), Signed(b)))
    ensures Rem(a, b) == Wrap(Signed(a) - Signed(b) * Quotient(Signed(a), Signed(b)))
  {
    var x, y := Signed(a), Signed(b);
    if x == MIN_SIGNED && y == -1 {
      DivisionOverflows(a, b);
    } else {
      DivisionTruncates(a, b);
      QuotientTruncates(x, y);
      TruncationUnique(x, y, Signed(Div(a, b)), Signed(Rem(a, b)), Quotient(x, y), x - y * Quotient(x, y));
    }
  }

  lemma SignedSame(a: Word) returns (k: int)
    ensures Signed(a) == a + k * MODULUS
  {
    k := if Negative(a) then -1 else 0;
  }

  lemma SumsAgree(a: Word, b: Word)
    ensures Wrap(Signed(a) + Signed(b)) == Wrap(a + b) && Wrap(Signed(a) - Signed(b)) == Wrap(a - b)
  {
    var k := SignedSame(a);
    var m := SignedSame(b);
    Congruent(a + b, k + m);
    Congruent(a - b, k - m);
  }

  lemma ProductsAgree(a: Word, b: Word)
    ensures Wrap(Signed(a) * Signed(b)) == Wrap(a * b)
  {
    var k, m := SignedProduct(a, b);
    Congruent(a * b, k);
  }

  /** The ALU function an operation needs, by its place in the ALU's enumeration. */
  function Number(op: Operation): nat {
    match op
    case Add => 1 case Sub => 2 case Sll => 3 case Slt => 4 case Exor => 5 case Ior => 6 case Conj => 7
    case Srl => 8 case Sra => 9 case Sltu => 10 case MulLow => 11 case MulHigh => 12 case MulHighSU => 13
    case MulHighU => 14 case Divide => 15 case Remain => 16 case DivideU => 17 case RemainU => 18
  }

  lemma DecodesOperation(op: Operation)
    ensures var (funct3, funct7) := Encoding(op); Decode.AluFunction(Decode.OP, funct3, funct7) == Number(op)
  {
  }

  /** The immediate forms use the same functions; only the right shifts look at funct7, whose bits elsewhere are immediate. */
  lemma DecodesImmediateForm(op: Operation, funct7: nat)
    requires op in {Add, Sll, Slt, Sltu, Exor, Srl, Sra, Ior, Conj} && funct7 < 0x80
    requires (op == Srl || op == Sra) ==> funct7 == Encoding(op).1
    ensures Decode.AluFunction(Decode.OP_IMM, Encoding(op).0, funct7) == Number(op)
  {
  }

  // ---------------------------------------------------------------- operation by operation

  lemma NoBitAbove(a: nat, n: nat, i: nat)
    requires a < Power2(n) && i >= n
    ensures !Bit(a, i)
  {
    BitOfJoin(a, 0, n, i);
    BitOfZero(i - n);
  }

  lemma HighestBit(a: Word, n: nat)
    requires n == 31
    ensures Bit(a, n) <==> Negative(a)
  {
    WordPower();
    assert Power2(n + 1) == 2 * Power2(n);
    if Negative(a) {
      BitOfJoin(a - Power2(n), 1, n, n);
      assert Bit(1, 0);
    } else {
      NoBitAbove(a, n, n);
    }
  }

  /** The words whose highest bit is set are those read as negative numbers. */
  lemma SignBit(a: Word)
    ensures Sign(a) <==> Negative(a)
  {
    HighestBit(a, 31);
  }

  lemma LeftShiftBit(a: Word, s: nat, i: nat)
    requires i < 32
    ensures Bit(Wrap(a * Power2(s)), i) == LeftShifted(a, s, i)
  {
    WordPower();
    BitOfRemainder(a * Power2(s), 32, i);
    BitOfMultiple(a, s, i);
  }

  lemma RightShiftBit(a: Word, s: nat, i: nat, q: nat)
    requires i < 32 && q == a / Power2(s)
    ensures Bit(q, i) == RightShifted(a, s, i)
  {
    BitOfQuotient(a, s, i, q);
    if i + s >= 32 {
      WordPower();
      NoBitAbove(a, 32, i + s);
    }
  }

  lemma QuotientBelow(a: int, p: nat, m: nat, q: int, r: nat)
    requires a == p * q + r && r < p && a < p * m
    ensures q < m
  {
    assert q >= m ==> p * (q - m) >= 0;
  }

  lemma ShiftOfDifference(a: int, p: nat, m: nat, q: nat, r: nat)
    requires a == p * q + r && r < p
    ensures (a - p * m) / p == q - m
  {
    assert p * (q - m) == p * q - p * m;
    QuotientIs(a - p * m, p, q - m, r);
  }

  /** A negative number shifted right: what is shifted down, below ones. */
  lemma NegativeShift(a: Word, p: nat, m: nat) returns (q: Word)
    requires Negative(a) && p > 0 && p * m == MODULUS
    ensures q == a / p && q < m && Wrap(Signed(a) / p) == q + (p - 1) * m
  {
    var r: nat;
    q, r := QuotientOf(a, p);
    QuotientBelow(a, p, m, q, r);
    ShiftOfDifference(a, p, m, q, r);
    assert (p - 1) * m == MODULUS - m;
    assert Wrap(q - m) == q - m + MODULUS;
  }

  lemma QuotientOf(a: Word, p: nat) returns (q: Word, r: nat)
    requires p > 0
    ensures q == a / p && a == p * q + r && r < p
  {
    var k := a / p;
    r := a % p;
    MultipleSize(p, k);
    MulAtLeast(p, if k < 0 then 0 else k);
    q := k;
  }

  /** The bits of a quotient below ones. */
  lemma JoinedShiftBit(a: Word, s: nat, i: nat, q: Word, ones: nat, joined: nat)
    requires i < 32 && s < 32 && Negative(a) && q == a / Power2(s) && q < Power2(32 - s)
    requires ones == Power2(s) - 1 && joined == q + ones * Power2(32 - s)
    ensures Bit(joined, i) == RightShiftedSigned(a, s, i)
  {
    BitOfJoin(q, ones, 32 - s, i);
    if i < 32 - s {
      BitOfQuotient(a, s, i, q);
    } else {
      SignBit(a);
      BitOfOnes(s, i - (32 - s));
    }
  }

  lemma NegativeShiftBit(a: Word, s: nat, i: nat, p: nat, shifted: Word)
    requires i < 32 && s < 32 && Negative(a) && p == Power2(s) && shifted == Wrap(Signed(a) / p)
    ensures Bit(shifted, i) == RightShiftedSigned(a, s, i)
  {
    var m: nat := Power2(32 - s);
    PowerSum(s, 32 - s);
    WordPower();
    var q := NegativeShift(a, p, m);
    JoinedShiftBit(a, s, i, q, p - 1, shifted);
  }

  lemma PositiveShiftBit(a: Word, s: nat, i: nat, p: nat, shifted: Word)
    requires i < 32 && s < 32 && !Negative(a) && p == Power2(s) && shifted == Wrap(Signed(a) / p)
    ensures Bit(shifted, i) == RightShiftedSigned(a, s, i)
  {
    var q, r := QuotientOf(a, p);
    assert shifted == q;
    SignBit(a);
    RightShiftBit(a, s, i, q);
  }

  lemma ArithmeticShiftBit(a: Word, s: nat, i: nat, p: nat, shifted: Word)
    requires i < 32 && s < 32 && p == Power2(s) && shifted == Wrap(Signed(a) / p)
    ensures Bit(shifted, i) == RightShiftedSigned(a, s, i)
  {
    if Negative(a) {
      NegativeShiftBit(a, s, i, p, shifted);
    } else {
      PositiveShiftBit(a, s, i, p, shifted);
    }
  }

  lemma ShiftLeftConforms(a: Word, b: Word)
    ensures Means(Sll, a, b, Compute(Number(Sll), a, b))
  {
    forall i: nat | i < 32 ensures Bit(Wrap(a * Power2(b % 32)), i) == LeftShifted(a, b % 32, i) {
      LeftShiftBit(a, b % 32, i);
    }
  }

  lemma MeansShiftRight(a: Word, b: Word, q: Word)
    requires q == a / Power2(b % 32)
    ensures Means(Srl, a, b, q)
  {
    forall i: nat | i < 32 ensures Bit(q, i) == RightShifted(a, b % 32, i) {
      RightShiftBit(a, b % 32, i, q);
    }
  }

  lemma ShiftRightBits(a: Word, b: Word, p: nat, r: Word)
    requires p == Power2(b % 32) && r == Wrap(a / p)
    ensures Means(Srl, a, b, r)
  {
    var q, rest := QuotientOf(a, p);
    assert r == q;
    MeansShiftRight(a, b, q);
  }

  lemma ShiftRightConforms(a: Word, b: Word)
    ensures Means(Srl, a, b, Compute(Number(Srl), a, b))
  {
    ShiftRightBits(a, b, Power2(b % 32), Compute(Number(Srl), a, b));
  }

  lemma ShiftSignedBits(a: Word, b: Word, p: nat, r: Word)
    requires p == Power2(b % 32) && r == Wrap(Signed(a) / p)
    ensures Means(Sra, a, b, r)
  {
    forall i: nat | i < 32 ensures Bit(r, i) == RightShiftedSigned(a, b % 32, i) {
      ArithmeticShiftBit(a, b % 32, i, p, r);
    }
  }

  lemma ShiftSignedConforms(a: Word, b: Word)
    ensures Means(Sra, a, b, Compute(Number(Sra), a, b))
  {
    ShiftSignedBits(a, b, Power2(b % 32), Compute(Number(Sra), a, b));
  }

  lemma BitwiseBit(f: (bool, bool) -> bool, a: Word, b: Word, n: nat, i: nat)
    requires n == 32 && i < n
    ensures Bit(BitwiseWord(f, a, b), i) == f(Bit(a, i), Bit(b, i))
  {
    EachBit(f, a, b, n, i);
  }

  lemma MeansBitwise(op: Operation, f: (bool, bool) -> bool, a: Word, b: Word, r: Word)
    requires (op == Exor && f == Xor) || (op == Ior && f == Or) || (op == Conj && f == And)
    requires forall i: nat | i < 32 :: Bit(r, i) == f(Bit(a, i), Bit(b, i))
    ensures Means(op, a, b, r)
  {
  }

  lemma BitwiseBits(op: Operation, f: (bool, bool) -> bool, a: Word, b: Word, r: Word)
    requires (op == Exor && f == Xor) || (op == Ior && f == Or) || (op == Conj && f == And)
    requires r == BitwiseWord(f, a, b)
    ensures Means(op, a, b, r)
  {
    forall i: nat | i < 32 ensures Bit(r, i) == f(Bit(a, i), Bit(b, i)) {
      BitwiseBit(f, a, b, 32, i);
    }
    MeansBitwise(op, f, a, b, r);
  }

  lemma ExorConforms(a: Word, b: Word)
    ensures Means(Exor, a, b, Compute(Number(Exor), a, b))
  {
    BitwiseBits(Exor, Xor, a, b, Compute(Number(Exor), a, b));
  }

  lemma IorConforms(a: Word, b: Word)
    ensures Means(Ior, a, b, Compute(Number(Ior), a, b))
  {
    BitwiseBits(Ior, Or, a, b, Compute(Number(Ior), a, b));
  }

  lemma ConjConforms(a: Word, b: Word)
    ensures Means(Conj, a, b, Compute(Number(Conj), a, b))
  {
    BitwiseBits(Conj, And, a, b, Compute(Number(Conj), a, b));
  }

  lemma ComparesConform(op: Operation, a: Word, b: Word)
    requires op == Slt || op == Sltu
    ensures Means(op, a, b, Compute(Number(op), a, b))
  {
    WordPower();
    BelowByBits(a, b, 32);
    SignBit(a);
    SignBit(b);
  }

  lemma SumsConform(op: Operation, a: Word, b: Word)
    requires op == Add || op == Sub
    ensures Means(op, a, b, Compute(Number(op), a, b))
  {
    SumsAgree(a, b);
  }

  lemma ProductsConform(op: Operation, a: Word, b: Word)
    requires op in {MulLow, MulHigh, MulHighSU, MulHighU}
    ensures Means(op, a, b, Compute(Number(op), a, b))
  {
    ProductsAgree(a, b);
    WholeProducts(a, b);
  }

  lemma DivisionsConform(op: Operation, a: Word, b: Word)
    requires op == Divide || op == Remain
    ensures Means(op, a, b, Compute(Number(op), a, b))
  {
    if b == 0 {
    } else if Overflows(a, b) {
      DivisionOverflows(a, b);
    } else {
      DivisionTruncates(a, b);
    }
  }

  lemma UnsignedDivisionsConform(op: Operation, a: Word, b: Word)
    requires op == DivideU || op == RemainU
    ensures Means(op, a, b, Compute(Number(op), a, b))
  {
    if b != 0 {
      var q, r := Arithmetic.Divide(a, b);
      assert Leaves(a, b, q, r);
    }
  }

  /** Every register-register instruction, decoded by its fields and computed by the ALU, does what the manual says. */
  lemma OperationsConform(op: Operation, a: Word, b: Word)
    ensures var (funct3, funct7) := Encoding(op);
            Means(op, a, b, Compute(Decode.AluFunction(Decode.OP, funct3, funct7), a, b))
  {
    DecodesOperation(op);
    if op in {MulLow, MulHigh, MulHighSU, MulHighU} {
      ProductsConform(op, a, b);
    } else if op == Divide || op == Remain {
      DivisionsConform(op, a, b);
    } else if op == DivideU || op == RemainU {
      UnsignedDivisionsConform(op, a, b);
    } else if op == Add || op == Sub {
      SumsConform(op, a, b);
    } else if op == Slt || op == Sltu {
      ComparesConform(op, a, b);
    } else if op == Exor {
      ExorConforms(a, b);
    } else if op == Ior {
      IorConforms(a, b);
    } else if op == Conj {
      ConjConforms(a, b);
    } else if op == Sll {
      ShiftLeftConforms(a, b);
    } else if op == Srl {
      ShiftRightConforms(a, b);
    } else {
      ShiftSignedConforms(a, b);
    }
  }

  /** Every immediate instruction does to its immediate what the register form does to its second register. */
  lemma ImmediatesConform(op: Operation, funct7: nat, a: Word, immediate: Word)
    requires op in {Add, Sll, Slt, Sltu, Exor, Srl, Sra, Ior, Conj} && funct7 < 0x80
    requires (op == Srl || op == Sra) ==> funct7 == Encoding(op).1
    ensures Means(op, a, immediate, Compute(Decode.AluFunction(Decode.OP_IMM, Encoding(op).0, funct7), a, immediate))
  {
    DecodesImmediateForm(op, funct7);
    DecodesOperation(op);
    OperationsConform(op, a, immediate);
  }

  // ---------------------------------------------------------------- the meaning leaves no choice

  lemma HighUnique(p: int, h: int, h': int)
    requires 0 <= p - h * MODULUS < MODULUS && 0 <= p - h' * MODULUS < MODULUS
    ensures h == h'
  {
  }

  lemma WordsOfBits(r: Word, r': Word)
    requires forall i: nat | i < 32 :: Bit(r, i) == Bit(r', i)
    ensures r == r'
  {
    WordPower();
    BitsDetermine(r, r', 32);
  }

  lemma SignedUnique(r: Word, r': Word)
    requires Signed(r) == Signed(r')
    ensures r == r'
  {
  }

  lemma QuotientsUnique(op: Operation, a: Word, b: Word, r: Word, r': Word)
    requires op in {Divide, DivideU, Remain, RemainU}
    requires Means(op, a, b, r) && Means(op, a, b, r')
    ensures r == r'
  {
    var x, y := Signed(a), Signed(b);
    if b == 0 || ((op == Divide || op == Remain) && Overflows(a, b)) {
    } else if op == Divide {
      TruncationUnique(x, y, Signed(r), x - y * Signed(r), Signed(r'), x - y * Signed(r'));
      SignedUnique(r, r');
    } else if op == DivideU {
      QuotientUnique(b, r, a - b * r, r', a - b * r');
    } else if op == Remain {
      var q :| Truncates(x, y, q, Signed(r));
      var q' :| Truncates(x, y, q', Signed(r'));
      TruncationUnique(x, y, q, Signed(r), q', Signed(r'));
      SignedUnique(r, r');
    } else {
      var q :| Leaves(a, b, q, r);
      var q' :| Leaves(a, b, q', r');
      QuotientUnique(b, q, r, q', r');
    }
  }

  /** The manual's words determine the result. */
  lemma MeaningUnique(op: Operation, a: Word, b: Word, r: Word, r': Word)
    requires Means(op, a, b, r) && Means(op, a, b, r')
    ensures r == r'
  {
    var x, y := Signed(a), Signed(b);
    if op in {Divide, DivideU, Remain, RemainU} {
      QuotientsUnique(op, a, b, r, r');
    } else if op in {Sll, Srl, Sra, Exor, Ior, Conj} {
      WordsOfBits(r, r');
    } else if op == MulHigh {
      HighUnique(x * y, Signed(r), Signed(r'));
    } else if op == MulHighSU {
      HighUnique(x * b, Signed(r), Signed(r'));
    } else if op == MulHighU {
      HighUnique(a * b, r, r');
    }
  }
}
