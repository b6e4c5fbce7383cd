/**
  The serial line: a buffered transmitter, the wire, and a receiver with its
  two-stage synchroniser and an always-ready consumer.  Bytes are eight bits, least
  significant first; registers are sequences of bits, bit 0 first.
 */
module UartLink {
  import opened Basics

  type Octet = s: seq<bool> | |s| == 8 witness [false, false, false, false, false, false, false, false]
  type Frame = s: seq<bool> | |s| == 11
    witness [true, true, true, true, true, true, true, true, true, true, true]

  const FRAME_BITS := 11
  const DATA_BITS := 8
  const TX_IDLE: Frame := [true, true, true, true, true, true, true, true, true, true, true]
  const ZERO: Octet := [false, false, false, false, false, false, false, false]

  /** The language's 32-bit integers: sums and products wrap round, and division truncates toward zero. */
  type Int = x: int | -0x8000_0000 <= x < 0x8000_0000

  function Int32(x: int): Int { (x + 0x8000_0000) % 0x1_0000_0000 - 0x8000_0000 }

  function Quotient(a: Int, d: Int): int
    requires d > 0
  {
    if a >= 0 then a / d else 0 - (0 - a) / d
  }

  /** Counter values for a clock frequency and a baud rate, rounded to the nearest; a negative one is refused. */
  function BitCount(frequency: Int, baud: Int): int
    requires baud > 0
  {
    Quotient(Int32(frequency + Quotient(baud, 2)), baud) - 1
  }

  function StartCount(frequency: Int, baud: Int): int
    requires baud > 0
  {
    Quotient(Int32(Quotient(Int32(3 * frequency), 2) + Quotient(baud, 2)), baud) - 1
  }

  function Truncate(count: int): nat { count % 0x1_0000 }

  // ---------------------------------------------------------------- the machines

  datatype Tx = Tx(shift: Frame, cnt: nat, bits: nat)
  datatype Buffer = Empty | Full(data: Octet)
  datatype Rx = Rx(sync1: bool, sync2: bool, shift: Octet, cnt: nat, bits: nat, valid: bool)

  const TX_RESET := Tx(TX_IDLE, 0, 0)
  const RX_RESET := Rx(true, true, ZERO, 0, 0, false)

  predicate TxReady(t: Tx) { t.cnt == 0 && t.bits == 0 }

  /** Stop bits, data, start bit: the start bit leaves first. */
  function FrameOf(b: Octet): Frame { [false] + b + [true, true] }

  function TxNext(t: Tx, bitCount: nat, channel: Buffer): Tx {
    if t.cnt == 0 then
      if t.bits != 0 then Tx(t.shift[1..] + [true], bitCount, t.bits - 1)
      else match channel
           case Full(data) => Tx(FrameOf(data), bitCount, FRAME_BITS)
           case Empty => Tx(TX_IDLE, bitCount, 0)
    else t.(cnt := t.cnt - 1)
  }

  function BufferNext(b: Buffer, offer: Buffer, txReady: bool): Buffer {
    match b
    case Empty => offer
    case Full(_) => if txReady then Empty else b
  }

  function RxNext(r: Rx, bitCount: nat, startCount: nat, line: bool, ready: bool): Rx {
    var counted :=
      if r.cnt != 0 then r.(cnt := r.cnt - 1)
      else if r.bits != 0 then
        r.(cnt := bitCount, shift := r.shift[1..] + [r.sync2], bits := r.bits - 1,
           valid := r.valid || r.bits == 1)
      else if !r.sync2 && !r.valid then r.(cnt := startCount, bits := DATA_BITS)
      else r;
    var consumed := if r.valid && ready then counted.(valid := false) else counted;
    consumed.(sync1 := line, sync2 := r.sync1)
  }

  /** The link with its history: bytes taken from the sender, bytes handed over, and the byte last put on the line. */
  datatype Link = Link(tx: Tx, buffer: Buffer, rx: Rx, accepted: seq<Octet>, delivered: seq<Octet>, current: Octet)

  const LINK_RESET := Link(TX_RESET, Empty, RX_RESET, [], [], ZERO)

  datatype Rates = Rates(bitCount: nat, startCount: nat)

  function LinkNext(l: Link, c: Rates, offer: Buffer): Link {
    var loads := TxReady(l.tx) && l.buffer.Full?;
    Link(
      TxNext(l.tx, c.bitCount, l.buffer),
      BufferNext(l.buffer, offer, TxReady(l.tx)),
      RxNext(l.rx, c.bitCount, c.startCount, l.tx.shift[0], true),
      if l.buffer.Empty? && offer.Full? then l.accepted + [offer.data] else l.accepted,
      if l.rx.valid then l.delivered + [l.rx.shift] else l.delivered,
      if loads then l.buffer.data else l.current)
  }

  function LinkRun(c: Rates, offers: seq<Buffer>): Link {
    if offers == [] then LINK_RESET
    else LinkNext(LinkRun(c, offers[..|offers| - 1]), c, offers[|offers| - 1])
  }

  // ---------------------------------------------------------------- the invariant

  /** What the proof needs of the counters: a bit lasts five cycles, and the first sample falls in data bit 0. */
  predicate Sound(c: Rates) { c.bitCount >= 4 && c.bitCount <= c.startCount <= 2 * c.bitCount }

  /** Level of the line in slot j of a frame; slots after the stop bits are idle. */
  function Level(b: Octet, j: int): bool {
    if j == 0 then false else if 1 <= j <= 8 then b[j - 1] else true
  }

  /** The transmitter is in slot j of the frame of `b`. */
  predicate Sending(t: Tx, b: Octet, j: int, c: Rates) {
    && 0 <= j <= 10 && t.bits == FRAME_BITS - j && t.cnt <= c.bitCount
    && forall k | 0 <= k < 11 :: t.shift[k] == Level(b, j + k)
  }

  /** What the synchroniser holds: the line one and two cycles ago. */
  predicate Synced(l: Link, j: int, c: Rates) {
    && l.rx.sync1 == (if l.tx.cnt <= c.bitCount - 1 then Level(l.current, j) else Level(l.current, j - 1))
    && l.rx.sync2 == (if l.tx.cnt <= c.bitCount - 2 then Level(l.current, j) else Level(l.current, j - 1))
  }

  predicate RxIdle(r: Rx) { r.cnt == 0 && r.bits == 0 && !r.valid }

  /** The receiver has not seen the start bit yet. */
  predicate Early(l: Link, j: int, c: Rates) {
    RxIdle(l.rx) && j == 0 && l.tx.cnt >= c.bitCount - 2
  }

  /** The receiver has taken k data bits; the two counters keep a fixed distance. */
  predicate Receiving(l: Link, j: int, k: int, c: Rates) {
    var period := c.bitCount + 1;
    var x := 3 + (c.startCount - c.bitCount) + l.tx.cnt;
    && 0 <= k <= 8 && l.rx.bits == 8 - k
    && ((j == k && l.rx.cnt == x) || (j == k + 1 && l.rx.cnt == x - period) || (j == k + 2 && l.rx.cnt == x - 2 * period))
    && (if k == 0 then l.rx.cnt <= c.startCount else l.rx.cnt <= c.bitCount)
    && (k == 8 ==> l.rx.cnt > 0)
    && (l.rx.valid <==> k == 8 && l.rx.cnt == c.bitCount)
    && HasBits(l.rx.shift, l.current, k)
  }

  /** The receiver has handed the byte over and waits for the next start bit. */
  predicate Done(l: Link, j: int, c: Rates) {
    RxIdle(l.rx) && (j == 10 || (j == 9 && l.tx.cnt <= c.bitCount - 2))
  }

  function Slot(l: Link): int { FRAME_BITS - l.tx.bits }

  predicate Undelivered(l: Link, c: Rates) {
    l.tx.bits > 0 && (Early(l, Slot(l), c) || l.rx.bits > 0 || l.rx.valid)
  }

  function InFlight(l: Link, c: Rates): seq<Octet> {
    (if Undelivered(l, c) then [l.current] else []) + (if l.buffer.Full? then [l.buffer.data] else [])
  }

  predicate LinkOk(l: Link, c: Rates) {
    && l.accepted == l.delivered + InFlight(l, c)
    && if l.tx.bits == 0 then
         l.tx.shift == TX_IDLE && l.tx.cnt <= c.bitCount && RxIdle(l.rx) && l.rx.sync1 && l.rx.sync2
       else
         var j := Slot(l);
         && Sending(l.tx, l.current, j, c) && Synced(l, j, c)
         && (Early(l, j, c) || Receiving(l, j, 8 - l.rx.bits, c) || Done(l, j, c))
  }

  lemma FrameLevels(b: Octet)
    ensures forall k | 0 <= k < 11 :: FrameOf(b)[k] == Level(b, k)
  {
  }

  /** The line machine moves on: slots of P cycles each, twelve of them counting the pause. */
  lemma SendingStep(l: Link, c: Rates, offer: Buffer)
    requires LinkOk(l, c) && Sound(c) && l.tx.bits > 0
    ensures var l' := LinkNext(l, c, offer);
            if l'.tx.bits > 0 then Sending(l'.tx, l'.current, Slot(l'), c) && Synced(l', Slot(l'), c)
            else l'.tx.shift == TX_IDLE && l'.tx.cnt <= c.bitCount && l'.rx.sync1 && l'.rx.sync2
  {
  }

  /** At a sample the synchroniser shows data bit k. */
  lemma SampleIsData(l: Link, j: int, k: int, c: Rates)
    requires Sound(c) && Sending(l.tx, l.current, j, c) && Synced(l, j, c)
    requires Receiving(l, j, k, c) && k < 8 && l.rx.cnt == 0
    ensures l.rx.sync2 == l.current[k]
  {
  }

  /** The counters of the receiver alone. */
  predicate Counting(l: Link, j: int, k: int, c: Rates) {
    var period := c.bitCount + 1;
    var x := 3 + (c.startCount - c.bitCount) + l.tx.cnt;
    && 0 <= k <= 8 && l.rx.bits == 8 - k
    && ((j == k && l.rx.cnt == x) || (j == k + 1 && l.rx.cnt == x - period) || (j == k + 2 && l.rx.cnt == x - 2 * period))
    && (if k == 0 then l.rx.cnt <= c.startCount else l.rx.cnt <= c.bitCount)
  }

  lemma EarlyStep(l: Link, c: Rates, offer: Buffer)
    requires LinkOk(l, c) && Sound(c) && l.tx.bits > 0 && Early(l, Slot(l), c)
    ensures var l' := LinkNext(l, c, offer); Early(l', Slot(l'), c) || Receiving(l', Slot(l'), 0, c)
  {
  }

  lemma CountStep(l: Link, j: int, k: int, c: Rates, offer: Buffer)
    requires Sound(c) && l.tx.bits == FRAME_BITS - j && 0 <= j <= 10 && l.tx.cnt <= c.bitCount
    requires Receiving(l, j, k, c) && l.rx.cnt > 0
    ensures var l' := LinkNext(l, c, offer); Counting(l', Slot(l'), k, c) && l'.rx.cnt == l.rx.cnt - 1
    ensures k == 8 && l.rx.cnt == 1 ==>
            var l' := LinkNext(l, c, offer); Slot(l') == 10 || (Slot(l') == 9 && l'.tx.cnt <= c.bitCount - 2)
  {
  }

  lemma SampleStep(l: Link, j: int, k: int, c: Rates, offer: Buffer)
    requires Sound(c) && l.tx.bits == FRAME_BITS - j && 0 <= j <= 10 && l.tx.cnt <= c.bitCount
    requires Receiving(l, j, k, c) && l.rx.cnt == 0
    ensures k < 8
    ensures var l' := LinkNext(l, c, offer);
            Counting(l', Slot(l'), k + 1, c) && l'.rx.cnt == c.bitCount && (l'.rx.valid <==> k == 7)
  {
  }

  predicate HasBits(shift: Octet, b: Octet, k: int)
    requires 0 <= k <= 8
  {
    forall i | 0 <= i < k :: shift[8 - k + i] == b[i]
  }

  lemma ShiftIn(shift: Octet, b: Octet, k: int)
    requires 0 <= k < 8 && HasBits(shift, b, k)
    ensures HasBits(shift[1..] + [b[k]], b, k + 1)
  {
  }

  lemma CountingStep(l: Link, c: Rates, offer: Buffer)
    requires LinkOk(l, c) && Sound(c) && l.tx.bits > 0 && Receiving(l, Slot(l), 8 - l.rx.bits, c) && l.rx.cnt > 0
    ensures var l' := LinkNext(l, c, offer);
            && l'.tx.bits > 0
            && (Receiving(l', Slot(l'), 8 - l'.rx.bits, c) || (l.rx.bits == 0 && Done(l', Slot(l'), c)))
  {
    CountStep(l, Slot(l), 8 - l.rx.bits, c, offer);
  }

  lemma SamplingStep(l: Link, c: Rates, offer: Buffer)
    requires LinkOk(l, c) && Sound(c) && l.tx.bits > 0 && Receiving(l, Slot(l), 8 - l.rx.bits, c) && l.rx.cnt == 0
    ensures var l' := LinkNext(l, c, offer);
            l'.tx.bits > 0 && Receiving(l', Slot(l'), 8 - l'.rx.bits, c)
  {
    var j, k := Slot(l), 8 - l.rx.bits;
    SampleStep(l, j, k, c, offer);
    SampleIsData(l, j, k, c);
    ShiftIn(l.rx.shift, l.current, k);
  }

  lemma ReceivingStep(l: Link, c: Rates, offer: Buffer)
    requires LinkOk(l, c) && Sound(c) && l.tx.bits > 0 && Receiving(l, Slot(l), 8 - l.rx.bits, c)
    ensures var l' := LinkNext(l, c, offer);
            && l'.tx.bits > 0
            && (Receiving(l', Slot(l'), 8 - l'.rx.bits, c) || (l.rx.bits == 0 && Done(l', Slot(l'), c)))
  {
    if l.rx.cnt > 0 { CountingStep(l, c, offer); } else { SamplingStep(l, c, offer); }
  }

  lemma DoneStep(l: Link, c: Rates, offer: Buffer)
    requires LinkOk(l, c) && Sound(c) && l.tx.bits > 0 && Done(l, Slot(l), c)
    ensures var l' := LinkNext(l, c, offer);
            RxIdle(l'.rx) && (l'.tx.bits > 0 ==> Done(l', Slot(l'), c))
  {
  }

  lemma IdleStep(l: Link, c: Rates, offer: Buffer)
    requires LinkOk(l, c) && Sound(c) && l.tx.bits == 0
    ensures var l' := LinkNext(l, c, offer);
            if l'.tx.bits == 0 then
              l'.tx.shift == TX_IDLE && l'.tx.cnt <= c.bitCount && RxIdle(l'.rx) && l'.rx.sync1 && l'.rx.sync2
            else Sending(l'.tx, l'.current, 0, c) && Synced(l', 0, c) && Early(l', 0, c) && l'.tx.bits == FRAME_BITS
  {
    if l.buffer.Full? { FrameLevels(l.buffer.data); }
  }

  /** Nothing is lost, doubled or reordered by one clock edge. */
  lemma BytesStep(l: Link, c: Rates, offer: Buffer)
    requires LinkOk(l, c) && Sound(c)
    ensures var l' := LinkNext(l, c, offer); l'.accepted == l'.delivered + InFlight(l', c)
  {
    if l.tx.bits == 0 {
      IdleStep(l, c, offer);
    } else if Early(l, Slot(l), c) {
      EarlyStep(l, c, offer);
    } else if Done(l, Slot(l), c) {
      DoneStep(l, c, offer);
    } else {
      ReceivingStep(l, c, offer);
      if l.rx.valid { assert l.rx.shift == l.current; }
    }
  }

  /** One clock edge keeps the invariant. */
  lemma LinkStep(l: Link, c: Rates, offer: Buffer)
    requires LinkOk(l, c) && Sound(c)
    ensures LinkOk(LinkNext(l, c, offer), c)
  {
    BytesStep(l, c, offer);
    if l.tx.bits == 0 {
      IdleStep(l, c, offer);
    } else {
      SendingStep(l, c, offer);
      if Early(l, Slot(l), c) { EarlyStep(l, c, offer); }
      else if Done(l, Slot(l), c) { DoneStep(l, c, offer); }
      else { ReceivingStep(l, c, offer); }
    }
  }

  lemma {:induction false} LinkAlwaysOk(c: Rates, offers: seq<Buffer>)
    requires Sound(c)
    ensures LinkOk(LinkRun(c, offers), c)
  {
    if offers != [] {
      LinkAlwaysOk(c, offers[..|offers| - 1]);
      LinkStep(LinkRun(c, offers[..|offers| - 1]), c, offers[|offers| - 1]);
    }
  }

  // ---------------------------------------------------------------- the theorems

  lemma QuotientBounds(x: nat, b: nat)
    requires b > 0
    ensures x / b * b <= x < x / b * b + b
  {
  }

  lemma QuotientAtLeast(q: int, n: int, x: int, b: nat)
    requires b > 0 && q * b <= x < q * b + b && n * b <= x
    ensures n <= q
  {
    if q + 1 <= n { MulMonotone(q + 1, n, b); }
  }

  lemma QuotientAtMost(q: int, n: int, x: int, b: nat)
    requires b > 0 && q * b <= x < n * b
    ensures q < n
  {
    if n <= q { MulMonotone(n, q, b); }
  }

  /** The product in the second divisor does not wrap round. */
  predicate InRange(frequency: Int) { 3 * frequency < 0x8000_0000 }

  lemma Int32InRange(x: int)
    requires -0x8000_0000 <= x < 0x8000_0000
    ensures Int32(x) == x
  {
  }

  lemma DivisorsInRange(frequency: Int, baud: Int)
    requires baud > 0 && frequency >= 5 * baud && InRange(frequency)
    ensures BitCount(frequency, baud) == (frequency + baud / 2) / baud - 1
    ensures StartCount(frequency, baud) == (3 * frequency / 2 + baud / 2) / baud - 1
  {
    Int32InRange(3 * frequency);
    Int32InRange(frequency + baud / 2);
    Int32InRange(3 * frequency / 2 + baud / 2);
  }

  lemma RoundedSound(frequency: nat, baud: nat)
    requires baud > 0 && frequency >= 5 * baud
    ensures var p, q := (frequency + baud / 2) / baud, (3 * frequency / 2 + baud / 2) / baud;
            5 <= p <= q < 2 * p
  {
    var x, y := frequency + baud / 2, 3 * frequency / 2 + baud / 2;
    var p, q := x / baud, y / baud;
    QuotientBounds(x, baud);
    QuotientBounds(y, baud);
    QuotientAtLeast(p, 5, x, baud);
    assert p * baud <= y;
    QuotientAtLeast(q, p, y, baud);
    assert y < 2 * (p * baud);
    assert 2 * (p * baud) == (2 * p) * baud;
    QuotientAtMost(q, 2 * p, y, baud);
  }

  /** With the product wrapped round, the second numerator is below the first by more than twice the baud rate. */
  lemma WrappedNumerator(frequency: Int, baud: Int)
    requires baud > 0 && frequency >= 5 * baud && !InRange(frequency)
    ensures Int32(Quotient(Int32(3 * frequency), 2) + Quotient(baud, 2)) + 2 * baud <= frequency + baud / 2
  {
    assert Int32(3 * frequency) == 3 * frequency - 0x1_0000_0000;
  }

  lemma QuotientNonNegative(x: nat, d: nat) returns (q: nat)
    requires d > 0
    ensures q == x / d && q * d <= x < q * d + d
  {
    QuotientBounds(x, d);
    QuotientAtLeast(x / d, 0, x, d);
    q := x / d;
  }

  lemma QuotientApart(x: Int, y: Int, d: Int)
    requires d > 0 && x + 2 * d <= y && y >= 0
    ensures Quotient(x, d) < Quotient(y, d)
  {
    var q := QuotientNonNegative(y, d);
    if x >= 0 {
      var p := QuotientNonNegative(x, d);
      QuotientAtLeast(q, p + 1, y, d);
    } else {
      var p := QuotientNonNegative(0 - x, d);
      if p == 0 {
        QuotientAtLeast(q, 1, y, d);
      }
    }
  }

  /** With the product wrapped round the first sample comes before the first data bit. */
  lemma WrappedStart(frequency: Int, baud: Int)
    requires baud > 0 && frequency >= 5 * baud && !InRange(frequency) && BitCount(frequency, baud) >= 0
    ensures StartCount(frequency, baud) < BitCount(frequency, baud)
  {
    var x, y := Int32(Quotient(Int32(3 * frequency), 2) + Quotient(baud, 2)), Int32(frequency + Quotient(baud, 2));
    WrappedNumerator(frequency, baud);
    if y < 0 {
      var p := QuotientNonNegative(0 - y, baud);
    } else {
      QuotientApart(x, y, baud);
    }
  }

  /** The divisors, at five clocks per bit or more, put the first sample in data bit 0 if and only if the product does not wrap round. */
  lemma DivisorsSound(frequency: Int, baud: Int)
    requires baud > 0 && frequency >= 5 * baud
    ensures 4 <= BitCount(frequency, baud) <= StartCount(frequency, baud) <= 2 * BitCount(frequency, baud) <==> InRange(frequency)
  {
    if InRange(frequency) {
      DivisorsInRange(frequency, baud);
      RoundedSound(frequency, baud);
    } else if BitCount(frequency, baud) >= 4 {
      WrappedStart(frequency, baud);
    }
  }

  lemma NearestMultiple(x: nat, d: nat)
    requires d > 0
    ensures var p: int := (x + d / 2) / d; 0 <= 2 * (p * d - x) + d <= 2 * d
  {
    var p := (x + d / 2) / d;
    QuotientBounds(x + d / 2, d);
    assert p * d <= x + d / 2 < p * d + d;
  }

  /** A bit lasts the whole number of clocks nearest to its time, and the first sample comes after the number nearest to 1.5 bits. */
  lemma DivisorsNearest(frequency: Int, baud: Int)
    requires baud > 0 && frequency >= 5 * baud && InRange(frequency)
    ensures -baud <= 2 * ((BitCount(frequency, baud) + 1) * baud - frequency) <= baud
    ensures -baud <= 2 * ((StartCount(frequency, baud) + 1) * baud - 3 * frequency / 2) <= baud
  {
    DivisorsInRange(frequency, baud);
    NearestMultiple(frequency, baud);
    NearestMultiple(3 * frequency / 2, baud);
  }

  function RatesFor(frequency: Int, baud: Int): Rates
    requires baud > 0
  {
    Rates(Truncate(BitCount(frequency, baud)), Truncate(StartCount(frequency, baud)))
  }

  /** The hardware can be generated, and its counters hold the divisors without loss. */
  predicate Fits(frequency: Int, baud: Int)
    requires baud > 0
  {
    0 <= BitCount(frequency, baud) < 0x1_0000 && 0 <= StartCount(frequency, baud) < 0x1_0000
  }

  lemma TruncateFits(count: int)
    requires 0 <= count < 0x1_0000
    ensures Truncate(count) == count
  {
  }

  lemma RatesSound(frequency: Int, baud: Int)
    requires baud > 0 && frequency >= 5 * baud && Fits(frequency, baud) && InRange(frequency)
    ensures Sound(RatesFor(frequency, baud))
  {
    DivisorsSound(frequency, baud);
    TruncateFits(BitCount(frequency, baud));
    TruncateFits(StartCount(frequency, baud));
  }

  /**
    Receiving undoes sending: for every frequency and baud rate with at least five
    clocks per bit, three times the frequency within 32 bits and divisors that fit,
    and every way of offering bytes, the bytes delivered are the bytes accepted, in
    order, up to at most two still on their way; with the transmitter idle and its
    buffer empty, none is.
   */
  lemma LinkDelivers(frequency: Int, baud: Int, offers: seq<Buffer>)
    requires baud > 0 && frequency >= 5 * baud && Fits(frequency, baud) && InRange(frequency)
    ensures var l := LinkRun(RatesFor(frequency, baud), offers);
            && l.delivered <= l.accepted && |l.accepted| <= |l.delivered| + 2
            && (l.tx.bits == 0 && l.buffer.Empty? ==> l.delivered == l.accepted)
  {
    RatesSound(frequency, baud);
    LinkAlwaysOk(RatesFor(frequency, baud), offers);
  }

  /** Clock edges until transmitter and buffer are empty, if nothing more is offered. */
  function Remaining(l: Link, c: Rates): nat {
    l.tx.bits * (c.bitCount + 1) + l.tx.cnt +
    (if l.buffer.Full? then FRAME_BITS * (c.bitCount + 1) + c.bitCount + 2 else 0)
  }

  lemma RemainingFalls(l: Link, c: Rates)
    requires l.tx.bits > 0 || l.buffer.Full?
    ensures Remaining(LinkNext(l, c, Empty), c) < Remaining(l, c)
  {
    if l.tx.cnt == 0 && l.tx.bits > 0 {
      assert (l.tx.bits - 1) * (c.bitCount + 1) == l.tx.bits * (c.bitCount + 1) - (c.bitCount + 1);
    }
  }

  function Silence(n: nat): seq<Buffer> { seq(n, _ => Empty) }

  /** Every accepted byte arrives: after enough cycles without new offers, all have been delivered. */
  lemma {:induction false} EverythingArrives(c: Rates, offers: seq<Buffer>) returns (n: nat)
    requires Sound(c)
    ensures var l := LinkRun(c, offers + Silence(n));
            l.delivered == l.accepted == LinkRun(c, offers).accepted
            && n <= Remaining(LinkRun(c, offers), c)
    decreases Remaining(LinkRun(c, offers), c)
  {
    var l := LinkRun(c, offers);
    LinkAlwaysOk(c, offers);
    if l.tx.bits == 0 && l.buffer.Empty? {
      n := 0;
      assert offers + Silence(0) == offers;
    } else {
      var more := offers + [Empty];
      assert more[..|more| - 1] == offers;
      RemainingFalls(l, c);
      var m := EverythingArrives(c, more);
      n := m + 1;
      assert offers + Silence(n) == more + Silence(m);
    }
  }
}
