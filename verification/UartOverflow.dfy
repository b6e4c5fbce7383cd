/**
  The link when three times the clock frequency leaves the 32-bit integers: the
  first sample then comes while the start bit is still on the line, and every byte
  is received shifted by a bit.  So the condition of `LinkDelivers` is exact.
 */
module UartOverflow {
  import opened UartLink

  /** The first sample is too early. */
  predicate Hasty(c: Rates) { 4 <= c.bitCount && c.startCount < c.bitCount }

  /** What a hasty receiver makes of a byte: the start bit and all but the last data bit. */
  function Misread(b: Octet): Octet { [false] + b[..7] }

  /** One byte has been taken and not yet received. */
  predicate Only(l: Link, b: Octet) { l.accepted == [b] && l.delivered == [] }

  /** It waits in the buffer. */
  predicate Buffered(l: Link, b: Octet, c: Rates) {
    && Only(l, b) && l.buffer == Full(b) && l.tx.bits == 0 && l.tx.shift == TX_IDLE && l.tx.cnt <= c.bitCount
    && RxIdle(l.rx) && l.rx.sync1 && l.rx.sync2
  }

  /** It is on the line. */
  predicate OnLine(l: Link, b: Octet, c: Rates) {
    && Only(l, b) && l.buffer.Empty? && l.current == b && l.tx.bits > 0
    && Sending(l.tx, b, Slot(l), c) && Synced(l, Slot(l), c)
  }

  /** The last k samples were those of slots 0 to k - 1. */
  predicate Took(shift: Octet, b: Octet, k: int)
    requires 0 <= k <= 8
  {
    forall i | 0 <= i < k :: shift[8 - k + i] == Level(b, i)
  }

  /** The receiver has taken k samples, one slot early each; the counters keep a fixed distance. */
  predicate Taking(l: Link, b: Octet, j: int, k: int, c: Rates) {
    var period := c.bitCount + 1;
    var x := 3 + (c.startCount - c.bitCount) + l.tx.cnt;
    && 0 <= k <= 7 && l.rx.bits == 8 - k && !l.rx.valid && Took(l.rx.shift, b, k)
    && ((j == k && l.rx.cnt == x) || (j == k + 1 && l.rx.cnt == x - period) || (j == k - 1 && l.rx.cnt == x + period))
    && l.rx.cnt <= c.bitCount
  }

  /** All eight samples are in. */
  predicate Caught(l: Link, b: Octet) { Only(l, b) && l.rx.valid && l.rx.shift == Misread(b) }

  lemma BufferedStep(l: Link, b: Octet, c: Rates)
    requires Hasty(c) && Buffered(l, b, c)
    ensures var l' := LinkNext(l, c, Empty);
            Buffered(l', b, c) || (OnLine(l', b, c) && Early(l', Slot(l'), c))
  {
    FrameLevels(b);
  }

  /** The line moves on as ever. */
  lemma OnLineStep(l: Link, b: Octet, c: Rates)
    requires Hasty(c) && OnLine(l, b, c) && !l.rx.valid && l.tx.bits > 1
    ensures OnLine(LinkNext(l, c, Empty), b, c)
  {
  }

  lemma EarlyStep(l: Link, b: Octet, c: Rates)
    requires Hasty(c) && OnLine(l, b, c) && Early(l, Slot(l), c)
    ensures var l' := LinkNext(l, c, Empty); Early(l', Slot(l'), c) || Taking(l', b, Slot(l'), 0, c)
  {
  }

  lemma WaitingStep(l: Link, b: Octet, k: int, c: Rates)
    requires Hasty(c) && OnLine(l, b, c) && Taking(l, b, Slot(l), k, c) && l.rx.cnt > 0
    ensures var l' := LinkNext(l, c, Empty); Taking(l', b, Slot(l'), k, c)
  {
  }

  lemma TookMore(shift: Octet, b: Octet, k: int)
    requires 0 <= k <= 7 && Took(shift, b, k)
    ensures Took(shift[1..] + [Level(b, k)], b, k + 1)
  {
  }

  /** A sample sees the slot before its own. */
  lemma SampleIsEarly(l: Link, b: Octet, k: int, c: Rates)
    requires Hasty(c) && OnLine(l, b, c) && Taking(l, b, Slot(l), k, c) && l.rx.cnt == 0
    ensures l.rx.sync2 == Level(b, k)
  {
  }

  lemma AllTaken(shift: Octet, b: Octet)
    requires Took(shift, b, 8)
    ensures shift == Misread(b)
  {
    forall i | 0 <= i < 8 ensures shift[i] == Misread(b)[i] {
      assert shift[8 - 8 + i] == Level(b, i);
    }
  }

  lemma SamplingStep(l: Link, b: Octet, k: int, c: Rates)
    requires Hasty(c) && OnLine(l, b, c) && Taking(l, b, Slot(l), k, c) && l.rx.cnt == 0
    ensures var l' := LinkNext(l, c, Empty);
            if k < 7 then Taking(l', b, Slot(l'), k + 1, c) else Caught(l', b)
  {
    SampleIsEarly(l, b, k, c);
    TookMore(l.rx.shift, b, k);
    if k == 7 {
      AllTaken(l.rx.shift[1..] + [Level(b, k)], b);
    }
  }

  /** On the way from the buffer to the receiver. */
  predicate Underway(l: Link, b: Octet, c: Rates) {
    Buffered(l, b, c) || (OnLine(l, b, c) && (Early(l, Slot(l), c) || Taking(l, b, Slot(l), 8 - l.rx.bits, c)))
  }

  lemma UnderwayStep(l: Link, b: Octet, c: Rates)
    requires Hasty(c) && Underway(l, b, c)
    ensures var l' := LinkNext(l, c, Empty); Underway(l', b, c) || Caught(l', b)
  {
    if Buffered(l, b, c) {
      BufferedStep(l, b, c);
    } else {
      OnLineStep(l, b, c);
      if Early(l, Slot(l), c) {
        EarlyStep(l, b, c);
      } else if l.rx.cnt > 0 {
        WaitingStep(l, b, 8 - l.rx.bits, c);
      } else {
        SamplingStep(l, b, 8 - l.rx.bits, c);
      }
    }
  }

  lemma {:induction false} ComesOut(c: Rates, b: Octet, offers: seq<Buffer>) returns (longer: seq<Buffer>)
    requires Hasty(c) && Underway(LinkRun(c, offers), b, c)
    ensures var l := LinkRun(c, longer); l.accepted == [b] && l.delivered == [Misread(b)]
    decreases Remaining(LinkRun(c, offers), c)
  {
    var l := LinkRun(c, offers);
    var more := offers + [Empty];
    assert more[..|more| - 1] == offers;
    UnderwayStep(l, b, c);
    RemainingFalls(l, c);
    if Underway(LinkRun(c, more), b, c) {
      longer := ComesOut(c, b, more);
    } else {
      longer := more + [Empty];
      assert longer[..|longer| - 1] == more;
    }
  }

  /** Every byte sent on its own to a hasty receiver is received shifted by one bit. */
  lemma HastyMisreads(c: Rates, b: Octet) returns (offers: seq<Buffer>)
    requires Hasty(c)
    ensures var l := LinkRun(c, offers); l.accepted == [b] && l.delivered == [Misread(b)]
  {
    var first := [Full(b)];
    assert first[..0] == [];
    assert LinkRun(c, first) == LinkNext(LINK_RESET, c, Full(b));
    offers := ComesOut(c, b, first);
  }

  /** What is delivered is what was accepted, in order, as far as it has come. */
  predicate Delivers(l: Link) { l.delivered <= l.accepted }

  const ONES: Octet := [true, true, true, true, true, true, true, true]

  lemma HastyFails(c: Rates) returns (offers: seq<Buffer>)
    requires Hasty(c)
    ensures !Delivers(LinkRun(c, offers))
  {
    offers := HastyMisreads(c, ONES);
    assert Misread(ONES)[0] != ONES[0];
    assert LinkRun(c, offers).delivered[0] == Misread(ONES);
  }

  lemma BitCountAtLeast(frequency: Int, baud: Int)
    requires baud > 0 && frequency >= 5 * baud && BitCount(frequency, baud) >= 0
    ensures BitCount(frequency, baud) >= 4
  {
    var y := Int32(frequency + Quotient(baud, 2));
    if y < 0 {
      var p := QuotientNonNegative(0 - y, baud);
    } else {
      var p := QuotientNonNegative(y, baud);
      QuotientAtLeast(p, 5, y, baud);
    }
  }

  lemma OutOfRangeHasty(frequency: Int, baud: Int)
    requires baud > 0 && frequency >= 5 * baud && Fits(frequency, baud) && !InRange(frequency)
    ensures Hasty(RatesFor(frequency, baud))
  {
    WrappedStart(frequency, baud);
    BitCountAtLeast(frequency, baud);
    TruncateFits(BitCount(frequency, baud));
    TruncateFits(StartCount(frequency, baud));
  }

  /** Of the hardware that can be generated and holds its divisors, with at least five clocks per bit, exactly this delivers. */
  lemma DeliversExactlyWhen(frequency: Int, baud: Int)
    requires baud > 0 && frequency >= 5 * baud && Fits(frequency, baud)
    ensures (forall offers :: Delivers(LinkRun(RatesFor(frequency, baud), offers))) <==> InRange(frequency)
  {
    if InRange(frequency) {
      forall offers ensures Delivers(LinkRun(RatesFor(frequency, baud), offers)) {
        LinkDelivers(frequency, baud, offers);
      }
    } else {
      OutOfRangeHasty(frequency, baud);
      var offers := HastyFails(RatesFor(frequency, baud));
    }
  }

  lemma FastClockCounts()
    ensures BitCount(1_500_000_000, 115_200) == 13020 && StartCount(1_500_000_000, 115_200) == 889
  {
    assert Int32(3 * 1_500_000_000) == 205_032_704;
  }

  predicate FastClock(frequency: Int, baud: Int) { frequency == 1_500_000_000 && baud == 115_200 }

  /** At 1.5 GHz and 115200 baud the divisors fit, and a byte of ones is received with a zero in front. */
  lemma FastClockMisreads(frequency: Int, baud: Int) returns (offers: seq<Buffer>)
    requires FastClock(frequency, baud)
    ensures Fits(frequency, baud) && BitCount(frequency, baud) == 13020 && StartCount(frequency, baud) == 889
    ensures !Delivers(LinkRun(RatesFor(frequency, baud), offers))
  {
    FastClockCounts();
    OutOfRangeHasty(frequency, baud);
    offers := HastyFails(RatesFor(frequency, baud));
  }
}
