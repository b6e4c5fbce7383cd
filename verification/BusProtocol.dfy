/**
  What the phases of `BusFabric` give over every run: handshake stability, routing,
  progress, and the one memory that the eight devices form.
 */
module BusProtocol {
  import opened Words
  import opened LoadStore
  import opened Axi4Lite
  import opened BusFabric

  function FabricRun(devices: Devices, es: seq<Surroundings>): Fabric {
    if es == [] then FabricReset(devices) else FabricNext(FabricRun(devices, es[..|es| - 1]), es[|es| - 1])
  }

  function PhaseRun(devices: Devices, es: seq<Surroundings>): Phase {
    if es == [] then Free
    else
      var before := es[..|es| - 1];
      NextPhase(FabricRun(devices, before), PhaseRun(devices, before), es[|es| - 1])
  }

  /** Every reachable joint state is in a phase, whatever the CPU requests and the devices answer. */
  lemma {:induction false} AlwaysInPhase(devices: Devices, es: seq<Surroundings>)
    ensures InPhase(FabricRun(devices, es), PhaseRun(devices, es))
  {
    if es != [] {
      var before := es[..|es| - 1];
      AlwaysInPhase(devices, before);
      PhaseStep(FabricRun(devices, before), PhaseRun(devices, before), es[|es| - 1]);
    }
  }

  // ---------------------------------------------------------------- handshakes (ARM IHI 0022, section A3.2.1)

  /** A VALID that is not yet met by its READY stays, and so does what it announces. */
  predicate Stable(f: Fabric, e: Surroundings) {
    var f' := FabricNext(f, e);
    var m, m', i := f.master, f'.master, MasterInput(f, e.request);
    && (m.arValid && !i.arReady ==> m'.arValid && m'.address == m.address)
    && (m.awValid && !i.awReady ==> m'.awValid && m'.address == m.address)
    && (m.wValid && !i.wReady ==> m'.wValid && m'.writeData == m.writeData && m'.strobe == m.strobe)
    && (forall j | 0 <= j < 8 ::
          var s, s', x := f.slaves[j], f'.slaves[j], SlaveInput(f, j, e);
          && (s.rValid && !x.rReady ==> s'.rValid && s'.readData == s.readData)
          && (s.bValid && !x.bReady ==> s'.bValid))
  }

  lemma HandshakesStable(f: Fabric, p: Phase, e: Surroundings)
    requires InPhase(f, p)
    ensures Stable(f, e)
  {
    MuxTarget(f);
  }

  lemma ValidsHeld(devices: Devices, es: seq<Surroundings>, e: Surroundings)
    ensures Stable(FabricRun(devices, es), e)
  {
    AlwaysInPhase(devices, es);
    HandshakesStable(FabricRun(devices, es), PhaseRun(devices, es), e);
  }

  // ---------------------------------------------------------------- routing

  /** The slave in whose region the master's address lies is the one that sees the requests, with their contents. */
  predicate RequestsRouted(f: Fabric, e: Surroundings) {
    var m := f.master;
    forall j | 0 <= j < 8 ::
      var x := SlaveInput(f, j, e);
      && x.arValid == (m.arValid && InRegion(m.address, j))
      && x.awValid == (m.awValid && InRegion(m.address, j))
      && x.wValid == (m.wValid && InRegion(m.address, j))
      && (x.arValid ==> x.arAddress == m.address)
      && (x.awValid ==> x.awAddress == m.address)
      && (x.wValid ==> x.wData == m.writeData && x.wStrobe == m.strobe)
  }

  /** What the master is told is what that slave says, and no other slave says anything. */
  predicate AnswersRouted(f: Fabric, e: Surroundings) {
    var m, i := f.master, MasterInput(f, e.request);
    && (forall j | 0 <= j < 8 && InRegion(m.address, j) && m.state != Idle ::
          var s, x := f.slaves[j], SlaveInput(f, j, e);
          && i.arReady == s.arReady && i.awReady == s.awReady && i.wReady == s.wReady
          && i.rValid == s.rValid && i.bValid == s.bValid && (i.rValid ==> i.rData == s.readData)
          && (i.rValid ==> x.rReady == m.rReady) && (i.bValid ==> x.bReady == m.bReady))
    && (forall j | 0 <= j < 8 && !(InRegion(m.address, j) && m.state != Idle) :: Quiet(f.slaves[j]))
    && (m.state == Idle ==> !i.rValid && !i.bValid)
  }

  /** Devices are asked only for words of their own region. */
  predicate DevicesRouted(f: Fabric) {
    forall j | 0 <= j < 8 :: f.slaves[j].read || f.slaves[j].write ==> InRegion(f.slaves[j].address, j)
  }

  predicate Routed(f: Fabric, e: Surroundings) {
    && (f.master.state != Idle ==> f.latch == f.master.address)
    && RequestsRouted(f, e) && AnswersRouted(f, e) && DevicesRouted(f)
  }

  lemma SelectsOne(address: Word)
    ensures forall j | 0 <= j < 8 :: InRegion(address, j) <==> j == Index(address)
  {
    forall j | 0 <= j < 8 ensures InRegion(address, j) <==> j == Index(address) {
      SelectsRegion(address, j);
    }
  }

  lemma PhaseRequests(f: Fabric, p: Phase, e: Surroundings)
    requires InPhase(f, p)
    ensures RequestsRouted(f, e)
  {
    SelectsOne(f.master.address);
  }

  lemma PhaseAnswers(f: Fabric, p: Phase, e: Surroundings)
    requires InPhase(f, p)
    ensures AnswersRouted(f, e) && DevicesRouted(f)
  {
    SelectsOne(f.master.address);
    MuxTarget(f);
  }

  lemma PhaseRouted(f: Fabric, p: Phase, e: Surroundings)
    requires InPhase(f, p)
    ensures Routed(f, e)
  {
    PhaseRequests(f, p, e);
    PhaseAnswers(f, p, e);
  }

  lemma AlwaysRouted(devices: Devices, es: seq<Surroundings>, e: Surroundings)
    ensures Routed(FabricRun(devices, es), e)
  {
    AlwaysInPhase(devices, es);
    PhaseRouted(FabricRun(devices, es), PhaseRun(devices, es), e);
  }

  // ---------------------------------------------------------------- progress

  function Bit(b: bool): nat { if b then 1 else 0 }

  /** Handshakes the master still has to see, then what the slave still has to do before the next one. */
  function MasterRank(m: Master): nat {
    Bit(m.arValid) + Bit(m.rReady) + Bit(m.awValid) + Bit(m.wValid) + Bit(m.bReady) + Bit(m.state == WriteData)
  }

  function SlaveRank(s: Slave): nat {
    match s.state
    case Idle => 1
    case ReadAddr => 0
    case ReadData => Bit(!s.rValid)
    case WriteAddr => 0
    case WriteData => 0
    case WriteResp => Bit(!s.bValid)
  }

  predicate Below(m': nat, s': nat, m: nat, s: nat) { m' < m || (m' == m && s' < s) }

  /** The cycle is spent waiting for the device to deliver a word. */
  predicate AwaitsDevice(f: Fabric, e: Surroundings) {
    f.slaves[Target(f)].read && !e.ready(Target(f))
  }

  lemma RankFalls(f: Fabric, p: Phase, e: Surroundings)
    requires InPhase(f, p) && f.master.state != Idle
    ensures var f' := FabricNext(f, e);
            if AwaitsDevice(f, e) then f'.master == f.master && f'.slaves[Target(f)] == f.slaves[Target(f)] && f'.latch == f.latch
            else Below(MasterRank(f'.master), SlaveRank(f'.slaves[Target(f')]),
                       MasterRank(f.master), SlaveRank(f.slaves[Target(f)]))
  {
    PhaseStep(f, p, e);
    MuxTarget(f);
  }

  /** Cycles of a run that wait for the device, until the master is idle again. */
  function Waits(f: Fabric, es: seq<Surroundings>): nat
    decreases |es|
  {
    if es == [] || f.master.state == Idle then 0
    else Bit(AwaitsDevice(f, es[0])) + Waits(FabricNext(f, es[0]), es[1..])
  }

  /** The master becomes idle within the run. */
  predicate Finishes(f: Fabric, es: seq<Surroundings>)
    decreases |es|
  {
    f.master.state == Idle || (es != [] && Finishes(FabricNext(f, es[0]), es[1..]))
  }

  /** A started transaction finishes after at most its rank plus the device's waiting cycles: nothing deadlocks. */
  lemma {:induction false} TransactionsFinish(f: Fabric, p: Phase, es: seq<Surroundings>)
    requires InPhase(f, p)
    requires |es| >= 2 * MasterRank(f.master) + SlaveRank(f.slaves[Target(f)]) + Waits(f, es)
    ensures Finishes(f, es)
    decreases |es|
  {
    if f.master.state != Idle {
      assert MasterRank(f.master) > 0;
      RankFalls(f, p, es[0]);
      PhaseStep(f, p, es[0]);
      var f' := FabricNext(f, es[0]);
      if f'.master.state != Idle { TransactionsFinish(f', NextPhase(f, p, es[0]), es[1..]); }
    }
  }

  // ---------------------------------------------------------------- one memory

  /** A write has been taken over by the master but not yet performed by the device. */
  predicate Underway(p: Phase) { p in {WriteAsk, WriteAck, WriteSend, WritePulse} }

  /** The memory as the CPU may see it: the devices, with the write underway performed. */
  function VisibleMemory(f: Fabric, p: Phase): Devices {
    if Underway(p) then WriteWord(f.devices, f.master.address, f.master.writeData, f.master.strobe) else f.devices
  }

  /** The devices change in the pulse cycle of a write only, and then by exactly that write. */
  lemma DevicesStep(f: Fabric, p: Phase, e: Surroundings)
    requires InPhase(f, p)
    ensures FabricNext(f, e).devices ==
            if p == WritePulse then WriteWord(f.devices, f.master.address, f.master.writeData, f.master.strobe)
            else f.devices
  {
    var f' := FabricNext(f, e);
    forall j | 0 <= j < 8 && j != Target(f) ensures f'.devices[j] == f.devices[j] { QuietStays(f, e, j); }
  }

  /** What a master that has taken over a write still announces. */
  lemma AnnouncedKept(f: Fabric, p: Phase, e: Surroundings)
    requires InPhase(f, p) && Underway(p)
    ensures var m, m' := f.master, FabricNext(f, e).master;
            m'.address == m.address && m'.writeData == m.writeData && m'.strobe == m.strobe
  {
  }

  lemma WriteAnnounced(f: Fabric, p: Phase, e: Surroundings)
    requires InPhase(f, p) && p == Free && e.request.request && e.request.write
    ensures var m' := FabricNext(f, e).master;
            m'.address == e.request.address && m'.writeData == e.request.data && m'.strobe == e.request.strobe
  {
  }

  /** A request is atomic: it takes effect on `VisibleMemory` in the cycle that accepts it, and nothing else does. */
  lemma MemoryStep(f: Fabric, p: Phase, e: Surroundings)
    requires InPhase(f, p)
    ensures VisibleMemory(FabricNext(f, e), NextPhase(f, p, e)) ==
            if p == Free && e.request.request && e.request.write
            then WriteWord(VisibleMemory(f, p), e.request.address, e.request.data, e.request.strobe)
            else VisibleMemory(f, p)
  {
    DevicesStep(f, p, e);
    if Underway(p) {
      AnnouncedKept(f, p, e);
    } else if p == Free && e.request.request && e.request.write {
      WriteAnnounced(f, p, e);
    }
  }
}
