/** The registers between master and slaves in place: the wrapper's address latch and the switch's two selections. */
module BusClocked {
  import opened Words
  import opened PipelineCpu
  import opened Axi4Lite
  import opened BusFabric
  import opened BusProtocol
  import opened LoadStore

  class Interconnect {
    var latch: Word
    var readSel: Selection
    var writeSel: Selection

    /** These registers are those of the given fabric. */
    ghost predicate Of(f: Fabric)
      reads this
    {
      latch == f.latch && readSel == f.readSel && writeSel == f.writeSel
    }

    constructor (ghost devices: Devices)
      ensures Of(FabricReset(devices))
    {
      latch, readSel, writeSel := 0, Nobody, Nobody;
    }

    /** A selection is taken while a request is shown, and dropped when its answer is accepted. */
    method Clock(f: Fabric, e: Surroundings)
      requires Of(f)
      modifies this
      ensures latch == NextLatch(f, e.request) && readSel == NextReadSel(f) && writeSel == NextWriteSel(f)
    {
      var m, target := f.master, Target(f);
      if m.arValid {
        readSel := Selected(target);
      } else if MuxRValid(f) && m.rReady {
        readSel := Nobody;
      }
      if m.awValid || m.wValid {
        writeSel := Selected(target);
      } else if MuxBValid(f) && m.bReady {
        writeSel := Nobody;
      }
      if Starts(f, e.request) {
        latch := e.request.address;
      }
    }
  }

  /** Master, interconnect and the eight slaves with the word memories behind them. */
  class Bus {
    const wires: Interconnect
    const master: AxiMaster
    const slaves: seq<AxiSlave>
    var devices: Devices

    ghost predicate Valid() {
      && |slaves| == 8 && (forall i, j | 0 <= i < j < 8 :: slaves[i] != slaves[j])
      && forall s | s in slaves :: (s as object) != this && (s as object) != master && (s as object) != wires
    }

    function SlaveRegisters(): (s: seq<Slave>)
      requires |slaves| == 8
      reads slaves
      ensures |s| == 8 && forall i | 0 <= i < 8 :: s[i] == slaves[i].Registers()
    {
      [slaves[0].Registers(), slaves[1].Registers(), slaves[2].Registers(), slaves[3].Registers(),
       slaves[4].Registers(), slaves[5].Registers(), slaves[6].Registers(), slaves[7].Registers()]
    }

    function State(): Fabric
      requires |slaves| == 8
      reads this, wires, master, slaves
    {
      Fabric(wires.latch, master.Registers(), wires.readSel, wires.writeSel, SlaveRegisters(), devices)
    }

    ghost function Footprint(): set<object> { {this, wires, master} + set s | s in slaves }

    /** The state, as far as its registers are concerned a whole. */
    ghost function Registers(): Fabric
      requires |slaves| == 8
      reads Footprint()
    {
      State()
    }

    constructor (devices: Devices)
      ensures Valid() && fresh(Footprint()) && Registers() == State() == FabricReset(devices)
    {
      var s0, s1, s2, s3 := NewSlaves();
      var s4, s5, s6, s7 := NewSlaves();
      wires := new Interconnect(devices);
      master := new AxiMaster();
      slaves := [s0, s1, s2, s3, s4, s5, s6, s7];
      this.devices := devices;
    }

    static method NewSlaves() returns (a: AxiSlave, b: AxiSlave, c: AxiSlave, d: AxiSlave)
      ensures fresh(a) && fresh(b) && fresh(c) && fresh(d) && a != b && a != c && a != d && b != c && b != d && c != d
      ensures a.Registers() == b.Registers() == c.Registers() == d.Registers() == SLAVE_RESET
    {
      a := new AxiSlave();
      b := new AxiSlave();
      c := new AxiSlave();
      d := new AxiSlave();
    }

    ghost predicate SlavesAre(s: Slaves)
      requires |slaves| == 8
      reads slaves
    {
      forall i | 0 <= i < 8 :: slaves[i].Registers() == s[i]
    }

    lemma SameSlaves(s: Slaves)
      requires |slaves| == 8 && SlavesAre(s)
      ensures SlaveRegisters() == s
    {
    }

    /** The slaves' edge: each sees what the switch showed it before. */
    method ClockSlaves(f: Fabric, e: Surroundings)
      requires Valid() && SlavesAre(f.slaves)
      modifies slaves
      ensures SlavesAre(NextSlaves(f, e))
    {
      var k := 0;
      ghost var next := NextSlaves(f, e);
      while k < 8
        invariant 0 <= k <= 8
        invariant forall i | 0 <= i < k :: slaves[i].Registers() == next[i]
        invariant forall i | k <= i < 8 :: slaves[i].Registers() == f.slaves[i]
      {
        ClockSlave(k, f, e);
        k := k + 1;
      }
    }

    method ClockSlave(k: nat, f: Fabric, e: Surroundings)
      requires |slaves| == 8 && k < 8 && slaves[k].Registers() == f.slaves[k]
      modifies slaves[k]
      ensures slaves[k].Registers() == NextSlaves(f, e)[k]
    {
      slaves[k].Clock(SlaveInput(f, k, e));
    }

    /** The devices' edge: those told to write do. */
    method ClockDevices(f: Fabric)
      requires f.devices == devices
      modifies this`devices
      ensures devices == NextDevices(f)
    {
      var k := 0;
      while k < 8
        invariant 0 <= k <= 8
        invariant forall i | 0 <= i < k :: devices[i] == NextDevices(f)[i]
        invariant forall i | k <= i < 8 :: devices[i] == f.devices[i]
      {
        var s := f.slaves[k];
        if s.write {
          devices := devices[k := Written(devices[k], s.address, s.writeData, s.strobe)];
        }
        k := k + 1;
      }
    }

    method ClockCentre(f: Fabric, e: Surroundings)
      requires wires.Of(f) && master.Registers() == f.master && devices == f.devices
      modifies this, wires, master
      ensures wires.latch == NextLatch(f, e.request) && wires.readSel == NextReadSel(f) && wires.writeSel == NextWriteSel(f)
      ensures master.Registers() == MasterNext(f.master, MasterInput(f, e.request)) && devices == NextDevices(f)
    {
      wires.Clock(f, e);
      master.Clock(MasterInput(f, e.request));
      ClockDevices(f);
    }

    method ClockParts(f: Fabric, e: Surroundings)
      requires Valid() && SlavesAre(f.slaves) && wires.Of(f) && master.Registers() == f.master && devices == f.devices
      modifies this, wires, master, slaves
      ensures wires.latch == NextLatch(f, e.request) && wires.readSel == NextReadSel(f) && wires.writeSel == NextWriteSel(f)
      ensures master.Registers() == MasterNext(f.master, MasterInput(f, e.request)) && devices == NextDevices(f)
      ensures SlavesAre(NextSlaves(f, e))
    {
      ClockCentre(f, e);
      ClockSlaves(f, e);
    }

    /** One rising edge of the whole. */
    method Clock(e: Surroundings)
      requires Valid()
      modifies this, wires, master, slaves
      ensures State() == FabricNext(old(State()), e)
    {
      var f := State();
      ClockParts(f, e);
      SameSlaves(NextSlaves(f, e));
    }

    /** The same edge for whoever holds the bus as a whole. */
    method Edge(e: Surroundings)
      requires Valid()
      modifies Footprint()
      ensures Registers() == FabricNext(old(Registers()), e)
    {
      Clock(e);
    }

    method ClockAll(es: seq<Surroundings>, ghost start: Devices)
      requires Valid() && State() == FabricReset(start)
      modifies this, wires, master, slaves
      ensures State() == FabricRun(start, es)
    {
      var i := 0;
      while i < |es|
        invariant 0 <= i <= |es| && State() == FabricRun(start, es[..i])
      {
        Clock(es[i]);
        RunNext(start, es, i);
        i := i + 1;
      }
      assert es[..i] == es;
    }

    /** Any number of edges from reset; whatever comes next finds the handshakes stable and the routing right. */
    method Run(es: seq<Surroundings>, ghost start: Devices)
      requires Valid() && State() == FabricReset(start)
      modifies this, wires, master, slaves
      ensures State() == FabricRun(start, es) && InPhase(State(), PhaseRun(start, es))
      ensures forall e :: Stable(State(), e) && Routed(State(), e)
    {
      ClockAll(es, start);
      AlwaysSafe(start, es);
    }
  }

  lemma RunNext(start: Devices, es: seq<Surroundings>, i: nat)
    requires i < |es|
    ensures FabricRun(start, es[..i + 1]) == FabricNext(FabricRun(start, es[..i]), es[i])
  {
    assert es[..i + 1][..i] == es[..i];
  }

  lemma AlwaysSafe(start: Devices, es: seq<Surroundings>)
    ensures InPhase(FabricRun(start, es), PhaseRun(start, es))
    ensures forall e :: Stable(FabricRun(start, es), e) && Routed(FabricRun(start, es), e)
  {
    AlwaysInPhase(start, es);
    forall e ensures Stable(FabricRun(start, es), e) && Routed(FabricRun(start, es), e) {
      ValidsHeld(start, es, e);
      AlwaysRouted(start, es, e);
    }
  }
}
