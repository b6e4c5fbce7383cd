/**
  The receive side of the UART as software sees it: the AXI4-Lite slave, the
  four-entry FIFO and the interrupt flag.
 */
module UartPort {
  import opened Basics
  import opened Words
  import opened PipelineCpu
  import Axi4Lite

  const REG_STATUS := 0x00
  const REG_BAUD_RATE := 0x04
  const REG_INTERRUPT := 0x08
  const REG_RX_DATA := 0x0c
  const ENTRIES := 4

  datatype Port = Port(slave: Axi4Lite.Slave, fifo: seq<Byte>, interrupt: bool)

  datatype Received = Nothing | Received(byte: Byte)

  /** In one cycle: the bus channels, the byte the receiver offers, and the transmitter's ready bit. */
  datatype PortIn = PortIn(bus: Axi4Lite.SlaveIn, rx: Received, txReady: bool)

  function Offset(p: Port): Word { p.slave.address % 0x100 }

  /** The cycle in which RX_DATA is read. */
  predicate Reads(p: Port) { p.slave.read && Offset(p) == REG_RX_DATA }

  /** A full FIFO takes a byte only in a cycle that removes one. */
  predicate CanEnqueue(p: Port) { |p.fifo| < ENTRIES || Reads(p) }

  predicate Enqueues(p: Port, i: PortIn) { i.rx.Received? && CanEnqueue(p) }

  predicate Dequeues(p: Port) { Reads(p) && p.fifo != [] }

  /** The combinational read data, zero where no register answers. */
  function Prepared(p: Port, baudRate: Word, txReady: bool, stale: Byte): Word {
    if Offset(p) == REG_STATUS then (if p.fifo != [] then 2 else 0) + (if txReady then 1 else 0)
    else if Offset(p) == REG_BAUD_RATE then baudRate
    else if Offset(p) == REG_RX_DATA then (if p.fifo != [] then p.fifo[0] else stale)
    else 0
  }

  predicate WritesInterrupt(p: Port) { p.slave.write && Offset(p) == REG_INTERRUPT }

  function FifoNext(p: Port, i: PortIn): seq<Byte> {
    var kept := if Dequeues(p) then p.fifo[1..] else p.fifo;
    if Enqueues(p, i) then kept + [i.rx.byte] else kept
  }

  function PortNext(p: Port, i: PortIn, baudRate: Word, stale: Byte): Port {
    Port(
      Axi4Lite.SlaveNext(p.slave, i.bus.(deviceValid := p.slave.read,
                                         deviceData := Prepared(p, baudRate, i.txReady, stale))),
      FifoNext(p, i),
      if WritesInterrupt(p) then p.slave.writeData != 0
      else if Enqueues(p, i) then true
      else if Dequeues(p) && |p.fifo| == 1 then false
      else p.interrupt)
  }

  // ---------------------------------------------------------------- runs

  datatype Access = Access(offset: Word, data: Word, removed: seq<Byte>)

  /** A run with its history. */
  datatype History = History(
    port: Port,
    arrived: seq<Byte>,       // bytes the FIFO took
    addressed: nat,           // read addresses the slave accepted
    accesses: seq<Access>,       // cycles in which the device was read
    manual: bool)             // software has written INTERRUPT

  const PORT_RESET := Port(Axi4Lite.SLAVE_RESET, [], false)

  predicate TakesAddress(p: Port, i: PortIn) {
    p.slave.state == Axi4Lite.ReadAddr && i.bus.arValid && p.slave.arReady
  }

  function HistoryNext(h: History, i: PortIn, baudRate: Word, stale: Byte): History {
    var p := h.port;
    History(
      PortNext(p, i, baudRate, stale),
      if Enqueues(p, i) then h.arrived + [i.rx.byte] else h.arrived,
      h.addressed + if TakesAddress(p, i) then 1 else 0,
      if p.slave.read
      then h.accesses + [Access(Offset(p), Prepared(p, baudRate, i.txReady, stale), Taken(p))]
      else h.accesses,
      h.manual || WritesInterrupt(p))
  }

  function HistoryRun(ins: seq<PortIn>, baudRate: Word, stale: Byte): History {
    if ins == [] then History(PORT_RESET, [], 0, [], false)
    else HistoryNext(HistoryRun(ins[..|ins| - 1], baudRate, stale), ins[|ins| - 1], baudRate, stale)
  }

  /** What the reads have taken out of the FIFO, in order. */
  function Removed(accesses: seq<Access>): seq<Byte> {
    if accesses == [] then [] else Removed(accesses[..|accesses| - 1]) + accesses[|accesses| - 1].removed
  }

  /** A read removes a byte exactly when it reads RX_DATA with data present, and returns that byte. */
  predicate AccessOk(a: Access) {
    |a.removed| <= 1 && (a.removed != [] ==> a.offset == REG_RX_DATA && a.data == a.removed[0])
  }

  predicate FifoOk(h: History) {
    && |h.port.fifo| <= ENTRIES
    && h.arrived == Removed(h.accesses) + h.port.fifo
  }

  /** The interrupt flag tells whether the FIFO holds data. */
  predicate Agrees(p: Port) { p.interrupt <==> p.fifo != [] }

  predicate FlagOk(h: History) { !h.manual ==> Agrees(h.port) }

  /** Each accepted address is answered by one read cycle, and the answer is held for the master. */
  predicate SlaveOk(h: History) {
    var s := h.port.slave;
    && h.addressed == |h.accesses| + (if s.read then 1 else 0)
    && (s.read ==> s.state == Axi4Lite.ReadData && !s.rValid)
    && (s.rValid ==> s.state == Axi4Lite.ReadData && h.accesses != []
                     && s.readData == h.accesses[|h.accesses| - 1].data)
    && (s.state == Axi4Lite.ReadData ==> s.read || s.rValid)
  }

  predicate HistoryOk(h: History) {
    FifoOk(h) && FlagOk(h) && SlaveOk(h) && forall k | 0 <= k < |h.accesses| :: AccessOk(h.accesses[k])
  }

  lemma {:induction false} RemovedSnoc(accesses: seq<Access>, a: Access)
    ensures Removed(accesses + [a]) == Removed(accesses) + a.removed
  {
    assert (accesses + [a])[..|accesses|] == accesses;
  }

  function Taken(p: Port): seq<Byte> { if Dequeues(p) then [p.fifo[0]] else [] }
  function Added(p: Port, i: PortIn): seq<Byte> { if Enqueues(p, i) then [i.rx.byte] else [] }

  lemma FifoMoves(p: Port, i: PortIn)
    ensures Taken(p) + FifoNext(p, i) == p.fifo + Added(p, i)
    ensures |p.fifo| <= ENTRIES ==> |FifoNext(p, i)| <= ENTRIES
  {
  }

  lemma Balance(arrived: seq<Byte>, gone: seq<Byte>, fifo: seq<Byte>, taken: seq<Byte>, added: seq<Byte>, left: seq<Byte>)
    requires arrived == gone + fifo && taken + left == fifo + added
    ensures arrived + added == gone + taken + left
  {
    assert gone + taken + left == gone + (taken + left) == gone + (fifo + added) == gone + fifo + added;
  }

  lemma HistoryMoves(h: History, i: PortIn, baudRate: Word, stale: Byte)
    ensures var h' := HistoryNext(h, i, baudRate, stale);
            && h'.arrived == h.arrived + Added(h.port, i)
            && Removed(h'.accesses) == Removed(h.accesses) + Taken(h.port)
  {
    var p := h.port;
    RemovedSnoc(h.accesses, Access(Offset(p), Prepared(p, baudRate, i.txReady, stale), Taken(p)));
  }

  lemma FifoStep(h: History, i: PortIn, baudRate: Word, stale: Byte)
    requires FifoOk(h)
    ensures FifoOk(HistoryNext(h, i, baudRate, stale))
  {
    FifoMoves(h.port, i);
    HistoryMoves(h, i, baudRate, stale);
    Balance(h.arrived, Removed(h.accesses), h.port.fifo, Taken(h.port), Added(h.port, i), FifoNext(h.port, i));
  }

  lemma FlagStep(h: History, i: PortIn, baudRate: Word, stale: Byte)
    requires FlagOk(h)
    ensures FlagOk(HistoryNext(h, i, baudRate, stale))
  {
  }

  lemma SlaveStep(h: History, i: PortIn, baudRate: Word, stale: Byte)
    requires SlaveOk(h)
    ensures SlaveOk(HistoryNext(h, i, baudRate, stale))
  {
  }

  lemma AccessStep(h: History, i: PortIn, baudRate: Word, stale: Byte)
    requires forall k | 0 <= k < |h.accesses| :: AccessOk(h.accesses[k])
    ensures var h' := HistoryNext(h, i, baudRate, stale); forall k | 0 <= k < |h'.accesses| :: AccessOk(h'.accesses[k])
  {
  }

  /**
    Over every run: as long as software has not written INTERRUPT the flag is set
    exactly when the FIFO holds data; every accepted read address leads to exactly
    one read cycle; a read of RX_DATA with data present removes the oldest byte and
    answers with it, no other read removes anything; bytes leave in arrival order.
   */
  lemma {:induction false} InterruptAndReads(ins: seq<PortIn>, baudRate: Word, stale: Byte)
    ensures HistoryOk(HistoryRun(ins, baudRate, stale))
  {
    if ins != [] {
      InterruptAndReads(ins[..|ins| - 1], baudRate, stale);
      var h, i := HistoryRun(ins[..|ins| - 1], baudRate, stale), ins[|ins| - 1];
      FifoStep(h, i, baudRate, stale);
      FlagStep(h, i, baudRate, stale);
      SlaveStep(h, i, baudRate, stale);
      AccessStep(h, i, baudRate, stale);
    }
  }

  // ---------------------------------------------------------------- what software gets

  /** RX_DATA is read in a cycle in which the FIFO holds data. */
  predicate TakesOldest(p: Port) { p.slave.read && p.slave.address % 0x100 == 0x0c && p.fifo != [] }

  /** A byte comes in that there is room for, or room is being made for. */
  predicate Accepts(p: Port, i: PortIn) {
    i.rx.Received? && (|p.fifo| < 4 || (p.slave.read && p.slave.address % 0x100 == 0x0c))
  }

  /** Bytes accepted over a run, in order. */
  function Accepted(ins: seq<PortIn>, baudRate: Word, stale: Byte): seq<Byte> {
    if ins == [] then []
    else
      var before, i := ins[..|ins| - 1], ins[|ins| - 1];
      Accepted(before, baudRate, stale) + if Accepts(HistoryRun(before, baudRate, stale).port, i) then [i.rx.byte] else []
  }

  /** Cycles of a run that take a byte. */
  function Takes(ins: seq<PortIn>, baudRate: Word, stale: Byte): nat {
    if ins == [] then 0
    else
      var before := ins[..|ins| - 1];
      Takes(before, baudRate, stale) + if TakesOldest(HistoryRun(before, baudRate, stale).port) then 1 else 0
  }

  lemma FifoStays(p: Port, i: PortIn)
    requires |p.fifo| <= 4
    ensures var kept := if TakesOldest(p) then p.fifo[1..] else p.fifo;
            FifoNext(p, i) == (if Accepts(p, i) then kept + [i.rx.byte] else kept) && |FifoNext(p, i)| <= 4
  {
  }

  lemma OneTaken(all: seq<Byte>, n: nat, fifo: seq<Byte>)
    requires n < |all| && fifo == all[n..]
    ensures fifo[0] == all[n] && fifo[1..] == all[n + 1..]
  {
  }

  lemma OneAccepted(all: seq<Byte>, n: nat, b: Byte)
    requires n <= |all|
    ensures (all + [b])[n..] == all[n..] + [b]
  {
  }

  /**
    Over every run the FIFO holds, of the bytes accepted, those after the first n,
    where n counts the cycles in which RX_DATA was read with data present.
   */
  lemma {:induction false} ReadsTakeInOrder(ins: seq<PortIn>, baudRate: Word, stale: Byte)
    ensures var all, n, fifo := Accepted(ins, baudRate, stale), Takes(ins, baudRate, stale), HistoryRun(ins, baudRate, stale).port.fifo;
            n <= |all| <= n + 4 && fifo == all[n..]
  {
    if ins != [] {
      var before, i := ins[..|ins| - 1], ins[|ins| - 1];
      ReadsTakeInOrder(before, baudRate, stale);
      var p := HistoryRun(before, baudRate, stale).port;
      var all, n := Accepted(before, baudRate, stale), Takes(before, baudRate, stale);
      FifoStays(p, i);
      var m := if TakesOldest(p) then n + 1 else n;
      if TakesOldest(p) {
        OneTaken(all, n, p.fifo);
      }
      if Accepts(p, i) {
        OneAccepted(all, m, i.rx.byte);
      }
    }
  }

  lemma AnswersNext(p: Port, i: PortIn, baudRate: Word, stale: Byte)
    requires p.slave.read && p.slave.state == Axi4Lite.ReadData && !p.slave.rValid
    ensures var answer := PortNext(p, i, baudRate, stale).slave;
            answer.rValid && answer.readData == Prepared(p, baudRate, i.txReady, stale)
  {
  }

  /** What an answer says, given the bytes still to be read. */
  predicate Answers(offset: nat, answer: Word, unread: seq<Byte>, txReady: bool, baudRate: Word) {
    && (offset == 0x00 ==> answer < 4 && (answer % 2 == 1 <==> txReady) && (answer / 2 == 1 <==> unread != []))
    && (offset == 0x04 ==> answer == baudRate)
    && (offset == 0x0c && unread != [] ==> answer == unread[0])
    && (offset !in {0x00, 0x04, 0x0c} ==> answer == 0)
  }

  lemma PreparedAnswers(p: Port, baudRate: Word, txReady: bool, stale: Byte)
    ensures Answers(p.slave.address % 0x100, Prepared(p, baudRate, txReady, stale), p.fifo, txReady, baudRate)
  {
  }

  /**
    Over every run, what a read brings in the next cycle: from STATUS the
    transmitter's ready bit and whether a byte is still to be read, from RX_DATA the
    next byte in order of arrival, from BAUD_RATE the rate, from anywhere else zero.
   */
  lemma ReadsBring(ins: seq<PortIn>, i: PortIn, baudRate: Word, stale: Byte)
    requires HistoryRun(ins, baudRate, stale).port.slave.read
    ensures var p := HistoryRun(ins, baudRate, stale).port;
            var answer := PortNext(p, i, baudRate, stale).slave;
            && Takes(ins, baudRate, stale) <= |Accepted(ins, baudRate, stale)| && answer.rValid
            && Answers(p.slave.address % 0x100, answer.readData,
                       Accepted(ins, baudRate, stale)[Takes(ins, baudRate, stale)..], i.txReady, baudRate)
  {
    var p := HistoryRun(ins, baudRate, stale).port;
    InterruptAndReads(ins, baudRate, stale);
    ReadsTakeInOrder(ins, baudRate, stale);
    AnswersNext(p, i, baudRate, stale);
    PreparedAnswers(p, baudRate, i.txReady, stale);
  }

  /** At no edge of the run does software write the register at 0x08. */
  predicate LeftAlone(ins: seq<PortIn>, baudRate: Word, stale: Byte) {
    ins != [] ==>
      var before := ins[..|ins| - 1];
      var p := HistoryRun(before, baudRate, stale).port;
      LeftAlone(before, baudRate, stale) && !(p.slave.write && p.slave.address % 0x100 == 0x08)
  }

  lemma {:induction false} NotManual(ins: seq<PortIn>, baudRate: Word, stale: Byte)
    requires LeftAlone(ins, baudRate, stale)
    ensures !HistoryRun(ins, baudRate, stale).manual
  {
    if ins != [] {
      NotManual(ins[..|ins| - 1], baudRate, stale);
    }
  }

  /** Over every run without such a write the interrupt tells whether an accepted byte is still to be read. */
  lemma InterruptTells(ins: seq<PortIn>, baudRate: Word, stale: Byte)
    requires LeftAlone(ins, baudRate, stale)
    ensures HistoryRun(ins, baudRate, stale).port.interrupt <==> Takes(ins, baudRate, stale) < |Accepted(ins, baudRate, stale)|
  {
    NotManual(ins, baudRate, stale);
    InterruptAndReads(ins, baudRate, stale);
    ReadsTakeInOrder(ins, baudRate, stale);
  }

  // ---------------------------------------------------------------- after a software write

  /** A byte comes in, or the last one goes out. */
  predicate Settles(p: Port, i: PortIn) { Accepts(p, i) || (TakesOldest(p) && |p.fifo| == 1) }

  function PortRun(p: Port, ins: seq<PortIn>, baudRate: Word, stale: Byte): Port {
    if ins == [] then p
    else PortNext(PortRun(p, ins[..|ins| - 1], baudRate, stale), ins[|ins| - 1], baudRate, stale)
  }

  /** At no edge of the run does software write INTERRUPT. */
  predicate Unwritten(p: Port, ins: seq<PortIn>, baudRate: Word, stale: Byte) {
    ins != [] ==>
      var before := ins[..|ins| - 1];
      var q := PortRun(p, before, baudRate, stale);
      Unwritten(p, before, baudRate, stale) && !(q.slave.write && q.slave.address % 0x100 == 0x08)
  }

  /** At some edge of the run a byte comes in or the last one goes out. */
  predicate SettlesWithin(p: Port, ins: seq<PortIn>, baudRate: Word, stale: Byte) {
    ins != [] &&
    var before := ins[..|ins| - 1];
    SettlesWithin(p, before, baudRate, stale) || Settles(PortRun(p, before, baudRate, stale), ins[|ins| - 1])
  }

  /** A software write sets the flag to what it writes, so then flag and FIFO agree exactly when it writes the truth. */
  lemma ManualWrite(p: Port, i: PortIn, baudRate: Word, stale: Byte)
    requires p.slave.write && p.slave.address % 0x100 == 0x08 && !p.slave.read
    ensures PortNext(p, i, baudRate, stale).interrupt == (p.slave.writeData != 0)
    ensures Agrees(PortNext(p, i, baudRate, stale)) <==> (p.slave.writeData != 0 <==> p.fifo != [] || Enqueues(p, i))
  {
  }

  /** A wrong flag stays wrong until the next byte comes in or the last one goes out, whichever is first, and no longer. */
  lemma {:induction false} WrongUntilSettled(p: Port, ins: seq<PortIn>, baudRate: Word, stale: Byte)
    requires Unwritten(p, ins, baudRate, stale)
    ensures Agrees(PortRun(p, ins, baudRate, stale)) <==> Agrees(p) || SettlesWithin(p, ins, baudRate, stale)
  {
    if ins != [] {
      WrongUntilSettled(p, ins[..|ins| - 1], baudRate, stale);
    }
  }
}
