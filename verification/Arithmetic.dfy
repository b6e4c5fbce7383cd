/** The arithmetic unit, with division by magnitude. */
module Arithmetic {
  import opened Basics
  import opened Words

  const MIN_SIGNED: int := -0x8000_0000

  /** The two's-complement value of a word. */
  function Signed(x: Word): (n: int)
    ensures MIN_SIGNED <= n < 0x8000_0000 && Wrap(n) == x
  {
    if x >= 0x8000_0000 then x - MODULUS else x
  }

  function Complement(x: Word): Word { MODULUS - 1 - x }

  /** Inverting the bits and adding one, in 32 bits. */
  function Negate(x: Word): Word { Wrap(Complement(x) + 1) }

  predicate Negative(x: Word) { x >= 0x8000_0000 }

  function Magnitude(x: Word): Word { if Negative(x) then Negate(x) else x }

  function WithSign(x: Word, negative: bool): Word { if negative then Negate(x) else x }

  function Div(a: Word, b: Word): Word {
    if b == 0 then MODULUS - 1 else WithSign(Magnitude(a) / Magnitude(b), Negative(a) != Negative(b))
  }

  function Rem(a: Word, b: Word): Word {
    if b == 0 then a else WithSign(Magnitude(a) % Magnitude(b), Negative(a))
  }

  function DivU(a: Word, b: Word): Word { if b == 0 then MODULUS - 1 else a / b }

  function RemU(a: Word, b: Word): Word { if b == 0 then a else a % b }

  /** Bits 63 to 32 of a product. */
  function High(product: int): Word { Wrap(product / MODULUS) }

  function Mul(a: Word, b: Word): Word { Wrap(a * b) }
  function MulH(a: Word, b: Word): Word { High(Signed(a) * Signed(b)) }
  function MulHSU(a: Word, b: Word): Word { High(Signed(a) * b) }
  function MulHU(a: Word, b: Word): Word { High(a * b) }

  function Power2(n: nat): (p: nat)
    ensures p > 0
  {
    if n == 0 then 1 else 2 * Power2(n - 1)
  }

  /** Combines the lowest n bits of two numbers, bit by bit. */
  function Bitwise(f: (bool, bool) -> bool, a: nat, b: nat, n: nat): (c: nat)
    ensures c < Power2(n)
    decreases n
  {
    if n == 0 then 0
    else (if f(a % 2 == 1, b % 2 == 1) then 1 else 0) + 2 * Bitwise(f, a / 2, b / 2, n - 1)
  }

  function Bit(x: nat, i: nat): bool
    decreases i
  {
    if i == 0 then x % 2 == 1 else Bit(x / 2, i - 1)
  }

  /** Each bit of the result depends on the operands' bits in its own place. */
  lemma {:induction false} EachBit(f: (bool, bool) -> bool, a: nat, b: nat, n: nat, i: nat)
    requires i < n
    ensures Bit(Bitwise(f, a, b, n), i) == f(Bit(a, i), Bit(b, i))
    decreases n
  {
    var c := Bitwise(f, a, b, n);
    assert c / 2 == Bitwise(f, a / 2, b / 2, n - 1);
    if i > 0 {
      EachBit(f, a / 2, b / 2, n - 1, i - 1);
    }
  }

  lemma WordPower()
    ensures Power2(32) == MODULUS
  {
    assert Power2(8) == 256 by {
      assert Power2(4) == 16;
    }
    PowerSum(8, 8);
    PowerSum(16, 16);
  }

  lemma {:induction false} PowerSum(m: nat, n: nat)
    ensures Power2(m + n) == Power2(m) * Power2(n)
    decreases m
  {
    if m > 0 {
      PowerSum(m - 1, n);
      assert 2 * (Power2(m - 1) * Power2(n)) == (2 * Power2(m - 1)) * Power2(n);
    }
  }

  function Xor(p: bool, q: bool): bool { p != q }
  function Or(p: bool, q: bool): bool { p || q }
  function And(p: bool, q: bool): bool { p && q }

  function BitwiseWord(f: (bool, bool) -> bool, a: Word, b: Word): Word {
    WordPower();
    Bitwise(f, a, b, 32)
  }

  /** The functions in the order of their enumeration, from 0 for none. */
  function Compute(f: nat, a: Word, b: Word): Word {
    var shift := Power2(b % 32);
    match f
    case 1 => Wrap(a + b)
    case 2 => Wrap(a - b)
    case 3 => Wrap(a * shift)
    case 4 => if Signed(a) < Signed(b) then 1 else 0
    case 5 => BitwiseWord(Xor, a, b)
    case 6 => BitwiseWord(Or, a, b)
    case 7 => BitwiseWord(And, a, b)
    case 8 => Wrap(a / shift)
    case 9 => Wrap(Signed(a) / shift)
    case 10 => if a < b then 1 else 0
    case 11 => Mul(a, b)
    case 12 => MulH(a, b)
    case 13 => MulHSU(a, b)
    case 14 => MulHU(a, b)
    case 15 => Div(a, b)
    case 16 => Rem(a, b)
    case 17 => DivU(a, b)
    case 18 => RemU(a, b)
    case _ => 0
  }

  // ---------------------------------------------------------------- division

  function Abs(n: int): nat { if n < 0 then -n else n }

  /** q and r are the quotient and remainder of n by d that truncate toward zero. */
  predicate Truncates(n: int, d: int, q: int, r: int) {
    && n == d * q + r
    && Abs(r) < Abs(d)
    && (r != 0 ==> (r < 0 <==> n < 0))
  }

  lemma MagnitudeIsAbs(x: Word)
    ensures Magnitude(x) == Abs(Signed(x))
  {
  }

  /** Giving a magnitude its sign back; 2^31 exists only as a negative number. */
  lemma Restore(x: Word, negative: bool)
    requires x < 0x8000_0000 || (x == 0x8000_0000 && negative)
    ensures Signed(WithSign(x, negative)) == if negative then 0 - x else x
  {
  }

  lemma MulAtLeast(d: nat, q: nat)
    requires d > 0
    ensures d * q >= q
  {
  }

  lemma DivisionIdentity(n: nat, d: nat)
    requires d > 0
    ensures n == d * (n / d) + n % d && n % d < d
  {
  }

  lemma SignsOfProduct(n: int, d: int, q: nat, r: nat)
    requires d != 0 && Abs(n) == Abs(d) * q + r && r < Abs(d)
    ensures Truncates(n, d, if (n < 0) != (d < 0) then 0 - q else q, if n < 0 then 0 - r else r)
  {
    if d < 0 {
      assert d * q == 0 - Abs(d) * q;
      assert d * (0 - q) == Abs(d) * q;
    } else {
      assert d * (0 - q) == 0 - d * q;
    }
  }

  /** The quotient of two magnitudes reaches 2^31 only when 2^31 is divided by one. */
  lemma QuotientFits(n: nat, d: nat, q: nat, r: nat)
    requires d > 0 && n <= 0x8000_0000 && n == d * q + r
    ensures q <= 0x8000_0000 && (q == 0x8000_0000 ==> n == 0x8000_0000 && d == 1 && r == 0)
  {
    MulAtLeast(d, q);
    if d >= 2 {
      assert d * q >= 2 * q;
    }
  }

  lemma SignedParts(a: Word, b: Word, q: Word, r: Word)
    requires b != 0 && !(Signed(a) == MIN_SIGNED && Signed(b) == -1)
    requires Abs(Signed(a)) == Abs(Signed(b)) * q + r && r < Abs(Signed(b))
    ensures Truncates(Signed(a), Signed(b), Signed(WithSign(q, Negative(a) != Negative(b))),
                      Signed(WithSign(r, Negative(a))))
  {
    QuotientFits(Abs(Signed(a)), Abs(Signed(b)), q, r);
    Restore(q, Negative(a) != Negative(b));
    Restore(r, Negative(a));
    SignsOfProduct(Signed(a), Signed(b), q, r);
  }

  lemma Divide(n: Word, d: Word) returns (q: Word, r: Word)
    requires d > 0
    ensures q == n / d && r == n % d && n == d * q + r && r < d
  {
    DivisionIdentity(n, d);
    q, r := n / d, n % d;
  }

  lemma MagnitudesDivide(a: Word, b: Word, n: Word, d: Word) returns (q: Word, r: Word)
    requires b != 0 && n == Magnitude(a) && d == Magnitude(b)
    ensures Div(a, b) == WithSign(q, Negative(a) != Negative(b)) && Rem(a, b) == WithSign(r, Negative(a))
    ensures n == d * q + r && r < d
  {
    q, r := Divide(n, d);
  }

  /** Signed division truncates toward zero, with the remainder taking the dividend's sign. */
  lemma DivisionTruncates(a: Word, b: Word)
    requires b != 0 && !(Signed(a) == MIN_SIGNED && Signed(b) == -1)
    ensures Truncates(Signed(a), Signed(b), Signed(Div(a, b)), Signed(Rem(a, b)))
  {
    MagnitudeIsAbs(a);
    MagnitudeIsAbs(b);
    var q, r := MagnitudesDivide(a, b, Abs(Signed(a)), Abs(Signed(b)));
    SignedParts(a, b, q, r);
  }

  /** The one overflow gives the dividend back, with no remainder. */
  lemma DivisionOverflows(a: Word, b: Word)
    requires Signed(a) == MIN_SIGNED && Signed(b) == -1
    ensures Div(a, b) == a && Rem(a, b) == 0
  {
    assert Magnitude(b) == 1 && Magnitude(a) == 0x8000_0000;
  }

  /** No other quotient and remainder truncate toward zero. */
  lemma TruncationUnique(n: int, d: int, q: int, r: int, q': int, r': int)
    requires d != 0 && Truncates(n, d, q, r) && Truncates(n, d, q', r')
    ensures q == q' && r == r'
  {
    assert d * (q - q') == r' - r;
    if q != q' {
      assert Abs(d * (q - q')) >= Abs(d) by {
        ProductAtLeast(d, q - q');
      }
    }
  }

  lemma ProductAtLeast(d: int, k: int)
    requires k != 0
    ensures Abs(d * k) >= Abs(d)
  {
    MulAtLeast(Abs(k), Abs(d));
    assert d * k == Abs(d) * Abs(k) || d * k == 0 - Abs(d) * Abs(k) by {
      if d < 0 && k < 0 { assert (0 - d) * (0 - k) == d * k; }
      else if d < 0 { assert (0 - d) * k == 0 - d * k; }
      else if k < 0 { assert d * (0 - k) == 0 - d * k; }
    }
  }

  lemma SignedReassembles(a: Word, b: Word)
    ensures Wrap(Signed(b) * Signed(Div(a, b)) + Signed(Rem(a, b))) == a
  {
    if b == 0 {
      assert Rem(a, b) == a;
    } else if Signed(a) == MIN_SIGNED && Signed(b) == -1 {
      DivisionOverflows(a, b);
    } else {
      DivisionTruncates(a, b);
    }
  }

  lemma UnsignedReassembles(a: Word, b: Word)
    ensures Wrap(b * DivU(a, b) + RemU(a, b)) == a
    ensures b != 0 ==> RemU(a, b) < b
  {
    if b != 0 {
      DivisionIdentity(a, b);
    }
  }

  /** In every case, division by zero and overflow included, quotient and remainder reassemble the dividend modulo 2^32. */
  lemma DividendReassembles(a: Word, b: Word)
    ensures Wrap(Signed(b) * Signed(Div(a, b)) + Signed(Rem(a, b))) == a
    ensures Wrap(b * DivU(a, b) + RemU(a, b)) == a
    ensures b == 0 ==> Div(a, b) == DivU(a, b) == MODULUS - 1 && Rem(a, b) == RemU(a, b) == a
    ensures b != 0 ==> RemU(a, b) < b
  {
    SignedReassembles(a, b);
    UnsignedReassembles(a, b);
  }

  // ---------------------------------------------------------------- multiplication

  lemma LowHigh(product: int)
    requires -0x8000_0000_0000_0000 <= product < 0x8000_0000_0000_0000
    ensures Signed(High(product)) * MODULUS + Wrap(product) == product
  {
    var h := product / MODULUS;
    assert product == h * MODULUS + product % MODULUS;
    assert MIN_SIGNED <= h < 0x8000_0000;
  }

  lemma Congruent(x: int, k: int)
    ensures Wrap(x + k * MODULUS) == Wrap(x)
  {
    var m := x + k * MODULUS;
    assert m % MODULUS == (x % MODULUS + (x / MODULUS + k) * MODULUS) % MODULUS;
    Remainder(x % MODULUS, x / MODULUS + k);
  }

  lemma Remainder(r: Word, k: int)
    ensures (r + k * MODULUS) % MODULUS == r
  {
  }

  lemma ProductBound(x: int, y: int, m: nat, n: nat)
    requires 0 - m <= x <= m && 0 - n <= y <= n
    ensures 0 - m * n <= x * y <= m * n
  {
    assert (m - x) * (n + y) >= 0 && (m + x) * (n - y) >= 0;
    assert (m - x) * (n - y) >= 0 && (m + x) * (n + y) >= 0;
  }

  /** Which multiple of 2^32 separates a signed product from the unsigned one. */
  lemma SignedProduct(a: Word, b: Word) returns (k: int, m: int)
    ensures Signed(a) * Signed(b) == a * b + k * MODULUS
    ensures Signed(a) * b == a * b + m * MODULUS
  {
    var sa, sb := if Negative(a) then 1 else 0, if Negative(b) then 1 else 0;
    k := -sa * b - sb * a + sa * sb * MODULUS;
    m := -sa * b;
    assert (a - sa * MODULUS) * (b - sb * MODULUS) == a * b + k * MODULUS;
    assert (a - sa * MODULUS) * b == a * b + m * MODULUS;
  }

  lemma SignedHigh(a: Word, b: Word)
    ensures Signed(MulH(a, b)) * MODULUS + Mul(a, b) == Signed(a) * Signed(b)
  {
    var k, m := SignedProduct(a, b);
    Congruent(a * b, k);
    ProductBound(Signed(a), Signed(b), 0x8000_0000, 0x8000_0000);
    LowHigh(Signed(a) * Signed(b));
  }

  lemma MixedHigh(a: Word, b: Word)
    ensures Signed(MulHSU(a, b)) * MODULUS + Mul(a, b) == Signed(a) * b
  {
    var k, m := SignedProduct(a, b);
    Congruent(a * b, m);
    ProductBound(Signed(a), b, 0x8000_0000, 0xFFFF_FFFF);
    LowHigh(Signed(a) * b);
  }

  lemma UnsignedLowHigh(product: nat)
    requires product < 0x1_0000_0000_0000_0000
    ensures High(product) * MODULUS + Wrap(product) == product
  {
    var h := product / MODULUS;
    assert product == h * MODULUS + product % MODULUS;
    assert 0 <= h < MODULUS;
  }

  lemma UnsignedBound(a: Word, b: Word)
    ensures 0 <= a * b < 0x1_0000_0000_0000_0000
  {
    MulMonotone(0, a, b);
    MulMonotone(b, 0xFFFF_FFFF, a);
  }

  lemma UnsignedHigh(a: Word, b: Word)
    ensures MulHU(a, b) * MODULUS + Mul(a, b) == a * b
  {
    UnsignedBound(a, b);
    UnsignedLowHigh(a * b);
  }

  /** Each high half, joined to MUL's low half, is the whole product of the operands as that instruction reads them. */
  lemma WholeProducts(a: Word, b: Word)
    ensures Signed(MulH(a, b)) * MODULUS + Mul(a, b) == Signed(a) * Signed(b)
    ensures Signed(MulHSU(a, b)) * MODULUS + Mul(a, b) == Signed(a) * b
    ensures MulHU(a, b) * MODULUS + Mul(a, b) == a * b
  {
    SignedHigh(a, b);
    MixedHigh(a, b);
    UnsignedHigh(a, b);
  }
}
