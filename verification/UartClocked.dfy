/** The clocked objects of the UART, updated in place at each edge. */
module UartClocked {
  import opened UartLink

  class Transmitter {
    const bitCount: nat
    var shiftReg: Frame
    var cntReg: nat
    var bitsReg: nat

    constructor (bitCount: nat)
      ensures this.bitCount == bitCount && Registers() == TX_RESET
    {
      this.bitCount := bitCount;
      shiftReg, cntReg, bitsReg := TX_IDLE, 0, 0;
    }

    function Registers(): Tx
      reads this
    {
      Tx(shiftReg, cntReg, bitsReg)
    }

    method Clock(channel: Buffer)
      modifies this
      ensures Registers() == TxNext(old(Registers()), bitCount, channel)
    {
      if cntReg == 0 {
        cntReg := bitCount;
        if bitsReg != 0 {
          shiftReg := shiftReg[1..] + [true];
          bitsReg := bitsReg - 1;
        } else if channel.Full? {
          shiftReg := FrameOf(channel.data);
          bitsReg := FRAME_BITS;
        } else {
          shiftReg := TX_IDLE;
        }
      } else {
        cntReg := cntReg - 1;
      }
    }
  }

  class Receiver {
    const bitCount: nat
    const startCount: nat
    var sync1: bool
    var rxReg: bool
    var shiftReg: Octet
    var cntReg: nat
    var bitsReg: nat
    var valReg: bool

    constructor (bitCount: nat, startCount: nat)
      ensures this.bitCount == bitCount && this.startCount == startCount && Registers() == RX_RESET
    {
      this.bitCount, this.startCount := bitCount, startCount;
      sync1, rxReg, shiftReg, cntReg, bitsReg, valReg := true, true, ZERO, 0, 0, false;
    }

    function Registers(): Rx
      reads this
    {
      Rx(sync1, rxReg, shiftReg, cntReg, bitsReg, valReg)
    }

    method Clock(line: bool, ready: bool)
      modifies this
      ensures Registers() == RxNext(old(Registers()), bitCount, startCount, line, ready)
    {
      var was := Registers();
      if cntReg != 0 {
        cntReg := cntReg - 1;
      } else if bitsReg != 0 {
        cntReg := bitCount;
        shiftReg := was.shift[1..] + [rxReg];
        if bitsReg == 1 { valReg := true; }
        bitsReg := bitsReg - 1;
      } else if !rxReg && !valReg {
        cntReg := startCount;
        bitsReg := DATA_BITS;
      }
      if was.valid && ready { valReg := false; }
      rxReg := sync1;
      sync1 := line;
    }
  }

  class ByteBuffer {
    var state: Buffer

    constructor ()
      ensures state == Empty
    {
      state := Empty;
    }

    method Clock(offer: Buffer, outReady: bool)
      modifies this
      ensures state == BufferNext(old(state), offer, outReady)
    {
      if state.Empty? {
        if offer.Full? { state := Full(offer.data); }
      } else if outReady {
        state := Empty;
      }
    }
  }

  /** Buffered transmitter, wire and receiver, with what went in and came out. */
  class SerialLink {
    const buffer: ByteBuffer
    const tx: Transmitter
    const rx: Receiver
    var accepted: seq<Octet>
    var delivered: seq<Octet>
    ghost var current: Octet

    ghost predicate Valid() { tx.bitCount == rx.bitCount }

    function Counts(): Rates { Rates(tx.bitCount, rx.startCount) }

    ghost function State(): Link
      reads this, buffer, tx, rx
    {
      Link(tx.Registers(), buffer.state, rx.Registers(), accepted, delivered, current)
    }

    constructor (c: Rates)
      ensures Valid() && Counts() == c && fresh(buffer) && fresh(tx) && fresh(rx) && State() == LINK_RESET
    {
      buffer := new ByteBuffer();
      tx := new Transmitter(c.bitCount);
      rx := new Receiver(c.bitCount, c.startCount);
      accepted, delivered, current := [], [], ZERO;
    }

    /** One rising edge of the clock that all three share: each sees the others' registers as they were. */
    method Clock(offer: Buffer)
      requires Valid()
      modifies this, buffer, tx, rx
      ensures State() == LinkNext(old(State()), Counts(), offer)
    {
      var channel, line, txReady := buffer.state, tx.shiftReg[0], tx.cntReg == 0 && tx.bitsReg == 0;
      if channel.Empty? && offer.Full? {
        accepted := accepted + [offer.data];
      }
      if rx.valReg {
        delivered := delivered + [rx.shiftReg];
      }
      if txReady && channel.Full? {
        current := channel.data;
      }
      tx.Clock(channel);
      buffer.Clock(offer, txReady);
      rx.Clock(line, true);
    }

    /** Any number of clocks from reset. */
    method Run(offers: seq<Buffer>)
      requires Valid() && State() == LINK_RESET
      modifies this, buffer, tx, rx
      ensures State() == LinkRun(Counts(), offers)
    {
      var i := 0;
      while i < |offers|
        invariant 0 <= i <= |offers| && State() == LinkRun(Counts(), offers[..i])
      {
        Clock(offers[i]);
        assert offers[..i + 1][..i] == offers[..i];
        i := i + 1;
      }
      assert offers[..i] == offers;
    }
  }

  /** A link built for a frequency and a baud rate hands over what it accepted, in order, whatever is offered and when. */
  method Transfer(frequency: Int, baud: Int, offers: seq<Buffer>) returns (link: SerialLink)
    requires baud > 0 && frequency >= 5 * baud && Fits(frequency, baud) && InRange(frequency)
    ensures link.State() == LinkRun(RatesFor(frequency, baud), offers)
    ensures link.delivered <= link.accepted && |link.accepted| <= |link.delivered| + 2
    ensures link.tx.bitsReg == 0 && link.buffer.state.Empty? ==> link.delivered == link.accepted
  {
    link := new SerialLink(RatesFor(frequency, baud));
    link.Run(offers);
    LinkDelivers(frequency, baud, offers);
  }
}
