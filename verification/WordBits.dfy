/** Words bit by bit: what scaling, dividing and comparing do to each bit. */
module WordBits {
  import opened Arithmetic

  lemma MultipleSize(d: nat, k: int)
    ensures k >= 1 ==> d * k >= d
    ensures k <= -1 ==> d * k <= 0 - d
  {
    if k >= 1 {
      assert d * (k - 1) >= 0;
    } else if k <= -1 {
      assert d * (-1 - k) >= 0;
    }
  }

  lemma QuotientUnique(d: nat, q: int, r: nat, q': int, r': nat)
    requires r < d && r' < d && d * q + r == d * q' + r'
    ensures q == q' && r == r'
  {
    assert d * (q - q') == r' - r;
    MultipleSize(d, q - q');
  }

  lemma QuotientIs(x: int, d: nat, q: int, r: nat)
    requires r < d && x == d * q + r
    ensures x / d == q && x % d == r
  {
    QuotientUnique(d, q, r, x / d, x % d);
  }

  /** Division by 2 * p is division by 2 and then by p. */
  lemma Halves(x: nat, p: nat)
    requires p > 0
    ensures x / (2 * p) == x / 2 / p
    ensures x % (2 * p) == 2 * (x / 2 % p) + x % 2
  {
    var q, r := x / 2 / p, x / 2 % p;
    assert x / 2 == p * q + r;
    assert (2 * p) * q == 2 * (p * q);
    QuotientIs(x, 2 * p, q, 2 * r + x % 2);
  }

  lemma HalfPower(x: nat, n: nat)
    requires n > 0
    ensures x / Power2(n) == x / 2 / Power2(n - 1)
    ensures x % Power2(n) == 2 * (x / 2 % Power2(n - 1)) + x % 2
  {
    Halves(x, Power2(n - 1));
  }

  lemma {:induction false} BitOfQuotient(x: nat, s: nat, i: nat, q: nat)
    requires q == x / Power2(s)
    ensures Bit(q, i) == Bit(x, i + s)
    decreases s
  {
    if s > 0 {
      HalfPower(x, s);
      BitOfQuotient(x / 2, s - 1, i, q);
      assert Bit(x, i + s) == Bit(x / 2, i + s - 1);
    }
  }

  lemma {:induction false} BitOfMultiple(x: nat, s: nat, i: nat)
    ensures Bit(x * Power2(s), i) == (i >= s && Bit(x, i - s))
    decreases s
  {
    if s == 0 {
      assert x * Power2(s) == x;
    } else {
      var y := x * Power2(s - 1);
      assert x * Power2(s) == 2 * y;
      if i > 0 {
        BitOfMultiple(x, s - 1, i - 1);
      }
    }
  }

  lemma {:induction false} BitOfRemainder(x: nat, n: nat, i: nat)
    ensures Bit(x % Power2(n), i) == (i < n && Bit(x, i))
    decreases n
  {
    if n == 0 {
      assert x % Power2(n) == 0;
      BitOfZero(i);
    } else {
      HalfPower(x, n);
      if i > 0 {
        BitOfRemainder(x / 2, n - 1, i - 1);
      }
    }
  }

  lemma {:induction false} BitOfZero(i: nat)
    ensures !Bit(0, i)
    decreases i
  {
    if i > 0 {
      BitOfZero(i - 1);
    }
  }

  /** Two numbers side by side, x in the lowest n bits. */
  lemma {:induction false} BitOfJoin(x: nat, y: nat, n: nat, i: nat)
    requires x < Power2(n)
    ensures Bit(x + y * Power2(n), i) == if i < n then Bit(x, i) else Bit(y, i - n)
    decreases n
  {
    if n == 0 {
      assert x + y * Power2(n) == y;
    } else {
      var z := x / 2 + y * Power2(n - 1);
      assert x + y * Power2(n) == 2 * z + x % 2;
      if i > 0 {
        BitOfJoin(x / 2, y, n - 1, i - 1);
      }
    }
  }

  lemma {:induction false} BitOfOnes(n: nat, i: nat)
    requires i < n
    ensures Bit(Power2(n) - 1, i)
    decreases n
  {
    if i > 0 {
      assert (Power2(n) - 1) / 2 == Power2(n - 1) - 1;
      BitOfOnes(n - 1, i - 1);
    }
  }

  /** A number of n bits is determined by them. */
  lemma {:induction false} BitsDetermine(x: nat, y: nat, n: nat)
    requires x < Power2(n) && y < Power2(n) && forall i: nat | i < n :: Bit(x, i) == Bit(y, i)
    ensures x == y
    decreases n
  {
    if n > 0 {
      assert Bit(x, 0) == Bit(y, 0);
      forall i: nat | i < n - 1 ensures Bit(x / 2, i) == Bit(y / 2, i) {
        assert Bit(x, i + 1) == Bit(y, i + 1);
      }
      BitsDetermine(x / 2, y / 2, n - 1);
    }
  }

  // ---------------------------------------------------------------- comparing

  /** Bit i is the highest in which the numbers differ, and y's is set. */
  ghost predicate DecidedAt(x: nat, y: nat, n: nat, i: nat) {
    i < n && !Bit(x, i) && Bit(y, i) && forall j: nat | i < j < n :: Bit(x, j) == Bit(y, j)
  }

  ghost predicate BitsBelow(x: nat, y: nat, n: nat) { exists i: nat :: DecidedAt(x, y, n, i) }

  lemma DecidedInHalves(x: nat, y: nat, n: nat, i: nat)
    requires n > 0
    ensures DecidedAt(x, y, n, i + 1) <==> DecidedAt(x / 2, y / 2, n - 1, i)
  {
    if DecidedAt(x, y, n, i + 1) {
      forall j: nat | i < j < n - 1 ensures Bit(x / 2, j) == Bit(y / 2, j) {
        assert Bit(x, j + 1) == Bit(y, j + 1);
      }
    }
    if DecidedAt(x / 2, y / 2, n - 1, i) {
      forall j: nat | i + 1 < j < n ensures Bit(x, j) == Bit(y, j) {
        assert Bit(x / 2, j - 1) == Bit(y / 2, j - 1);
      }
    }
  }

  lemma DecidedLast(x: nat, y: nat, n: nat)
    requires n > 0 && x < Power2(n) && y < Power2(n)
    ensures DecidedAt(x, y, n, 0) <==> x / 2 == y / 2 && x % 2 < y % 2
  {
    if DecidedAt(x, y, n, 0) {
      forall j: nat | j < n - 1 ensures Bit(x / 2, j) == Bit(y / 2, j) {
        assert Bit(x, j + 1) == Bit(y, j + 1);
      }
      BitsDetermine(x / 2, y / 2, n - 1);
    }
  }

  /** A number is below another exactly when the highest bit in which they differ is set in the other. */
  lemma {:induction false} BelowByBits(x: nat, y: nat, n: nat)
    requires x < Power2(n) && y < Power2(n)
    ensures x < y <==> BitsBelow(x, y, n)
    decreases n
  {
    if n > 0 {
      BelowByBits(x / 2, y / 2, n - 1);
      DecidedLast(x, y, n);
      if x / 2 < y / 2 {
        var i: nat :| DecidedAt(x / 2, y / 2, n - 1, i);
        DecidedInHalves(x, y, n, i);
      }
      if i: nat :| DecidedAt(x, y, n, i) && i > 0 {
        DecidedInHalves(x, y, n, i - 1);
      }
    }
  }
}
