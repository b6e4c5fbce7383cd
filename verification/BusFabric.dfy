/**
  The memory transaction path as one clocked system: the address latch of the CPU
  wrapper, the AXI4-Lite master, the bus switch, eight slaves and the word memory
  behind each of them.  `InPhase` describes the joint state of all of them in each
  step of a transaction, and `PhaseStep` shows that every clock edge leads from one
  phase to the next, whatever is requested and however long a device takes.
 */
module BusFabric {
  import opened Words
  import opened PipelineCpu
  import opened LoadStore
  import opened Axi4Lite

  /** A one-hot selection register of the switch, or no bit set. */
  datatype Selection = Nobody | Selected(i: nat)

  type Slaves = s: seq<Slave> | |s| == 8
    witness [SLAVE_RESET, SLAVE_RESET, SLAVE_RESET, SLAVE_RESET, SLAVE_RESET, SLAVE_RESET, SLAVE_RESET, SLAVE_RESET]

  datatype Fabric = Fabric(
    latch: Word,              // bus_address_reg
    master: Master,
    readSel: Selection, writeSel: Selection,
    slaves: Slaves,
    devices: Devices)

  /** In one cycle: the CPU's request, which devices answer a read, and what they would answer unasked. */
  datatype Surroundings = Surroundings(request: BusOut, ready: nat -> bool, unasked: nat -> Word)

  // ---------------------------------------------------------------- combinational wiring

  /** The slave that the latched address selects. */
  function Target(f: Fabric): (i: nat)
    ensures i < 8
  {
    Index(f.latch)
  }

  function DeviceIn(f: Fabric, i: nat, e: Surroundings): (bool, Word)
    requires i < 8
  {
    var s := f.slaves[i];
    (e.ready(i), if s.read then Lookup(f.devices[i], s.address) else e.unasked(i))
  }

  function SlaveInput(f: Fabric, i: nat, e: Surroundings): SlaveIn
    requires i < 8
  {
    var m, hit := f.master, i == Target(f);
    var device := DeviceIn(f, i, e);
    SlaveIn(m.arValid && hit, m.address, m.rReady && f.readSel == Selected(i),
            m.awValid && hit, m.address, m.wValid && hit, m.writeData, m.strobe,
            m.bReady && f.writeSel == Selected(i), device.0, device.1)
  }

  function MuxRValid(f: Fabric): bool { exists i | 0 <= i < 8 :: f.readSel == Selected(i) && f.slaves[i].rValid }

  function MuxRData(f: Fabric): Word {
    if f.readSel.Selected? && f.readSel.i < 8 then f.slaves[f.readSel.i].readData else 0
  }

  function MuxBValid(f: Fabric): bool { exists i | 0 <= i < 8 :: f.writeSel == Selected(i) && f.slaves[i].bValid }

  function MasterInput(f: Fabric, r: BusOut): MasterIn {
    var s := f.slaves[Target(f)];
    MasterIn(r.request && r.read, r.request && r.write, r.address, r.data, r.strobe,
             s.arReady, MuxRValid(f), MuxRData(f), s.awReady, s.wReady, MuxBValid(f))
  }

  predicate Starts(f: Fabric, r: BusOut) { f.master.state == Idle && r.request && (r.read || r.write) }

  function NextLatch(f: Fabric, r: BusOut): Word { if Starts(f, r) then r.address else f.latch }

  /** A selection is taken while a request is shown, and dropped when its answer is accepted. */
  function NextReadSel(f: Fabric): Selection {
    if f.master.arValid then Selected(Target(f)) else if MuxRValid(f) && f.master.rReady then Nobody else f.readSel
  }

  function NextWriteSel(f: Fabric): Selection {
    if f.master.awValid || f.master.wValid then Selected(Target(f))
    else if MuxBValid(f) && f.master.bReady then Nobody else f.writeSel
  }

  function NextSlaves(f: Fabric, e: Surroundings): Slaves {
    seq(8, i requires 0 <= i < 8 => SlaveNext(f.slaves[i], SlaveInput(f, i, e)))
  }

  /** The devices that are told to write do. */
  function NextDevices(f: Fabric): Devices {
    seq(8, i requires 0 <= i < 8 =>
      var s := f.slaves[i];
      if s.write then Written(f.devices[i], s.address, s.writeData, s.strobe) else f.devices[i])
  }

  function FabricNext(f: Fabric, e: Surroundings): Fabric {
    Fabric(
      NextLatch(f, e.request),
      MasterNext(f.master, MasterInput(f, e.request)),
      NextReadSel(f),
      NextWriteSel(f),
      NextSlaves(f, e),
      NextDevices(f))
  }

  function FabricReset(devices: Devices): Fabric {
    Fabric(0, MASTER_RESET, Nobody, Nobody,
           [SLAVE_RESET, SLAVE_RESET, SLAVE_RESET, SLAVE_RESET, SLAVE_RESET, SLAVE_RESET, SLAVE_RESET, SLAVE_RESET],
           devices)
  }

  // ---------------------------------------------------------------- phases of a transaction

  datatype Phase =
    | Free
    | ReadAsk | ReadAck | ReadWait | ReadReply
    | WriteAsk | WriteAck | WriteSend | WritePulse | WriteReply

  predicate MasterIs(m: Master, state: State, ar: bool, r: bool, aw: bool, w: bool, b: bool) {
    m.state == state && m.arValid == ar && m.rReady == r && m.awValid == aw && m.wValid == w && m.bReady == b
  }

  predicate SlaveIs(s: Slave, state: State, read: bool, ar: bool, r: bool, write: bool, aw: bool, w: bool, b: bool) {
    && s.state == state && s.read == read && s.arReady == ar && s.rValid == r
    && s.write == write && s.awReady == aw && s.wReady == w && s.bValid == b
  }

  predicate Quiet(s: Slave) { SlaveIs(s, Idle, false, false, false, false, false, false, false) }

  predicate MasterPhase(m: Master, p: Phase) {
    match p
    case Free => MasterIs(m, Idle, false, false, false, false, false)
    case ReadAsk => MasterIs(m, ReadData, true, true, false, false, false)
    case ReadAck => MasterIs(m, ReadData, true, true, false, false, false)
    case ReadWait => MasterIs(m, ReadData, false, true, false, false, false)
    case ReadReply => MasterIs(m, ReadData, false, true, false, false, false)
    case WriteAsk => MasterIs(m, WriteData, false, false, true, true, false)
    case WriteAck => MasterIs(m, WriteData, false, false, true, true, false)
    case WriteSend => MasterIs(m, WriteData, false, false, false, true, false)
    case WritePulse => MasterIs(m, WriteResp, false, false, false, false, true)
    case WriteReply => MasterIs(m, WriteResp, false, false, false, false, true)
  }

  predicate SlavePhase(s: Slave, p: Phase) {
    match p
    case Free => Quiet(s)
    case ReadAsk => Quiet(s)
    case ReadAck => SlaveIs(s, ReadAddr, false, true, false, false, false, false, false)
    case ReadWait => SlaveIs(s, ReadData, true, false, false, false, false, false, false)
    case ReadReply => SlaveIs(s, ReadData, false, false, true, false, false, false, false)
    case WriteAsk => Quiet(s)
    case WriteAck => SlaveIs(s, WriteAddr, false, false, false, false, true, false, false)
    case WriteSend => SlaveIs(s, WriteData, false, false, false, false, false, true, false)
    case WritePulse => SlaveIs(s, WriteResp, false, false, false, true, false, false, false)
    case WriteReply => SlaveIs(s, WriteResp, false, false, false, false, false, false, true)
  }

  /** The data held along the way. */
  predicate DataPhase(f: Fabric, p: Phase) {
    var m, s := f.master, f.slaves[Target(f)];
    && (p == Free ==> !(m.readValid && m.writeValid))
    && (p == Free && m.readValid ==> m.readData == ReadWord(f.devices, m.address))
    && (p != Free ==> !m.readValid && !m.writeValid && f.latch == m.address)
    && (p in {ReadAck, ReadWait, ReadReply} ==> f.readSel == Selected(Target(f)))
    && (p in {WriteAck, WriteSend, WritePulse, WriteReply} ==> f.writeSel == Selected(Target(f)))
    && (p in {ReadWait, WriteSend, WritePulse} ==> s.address == m.address)
    && (p == ReadReply ==> s.readData == ReadWord(f.devices, m.address))
    && (p == WritePulse ==> s.writeData == m.writeData && s.strobe == m.strobe)
  }

  predicate InPhase(f: Fabric, p: Phase) {
    && MasterPhase(f.master, p)
    && SlavePhase(f.slaves[Target(f)], p)
    && (forall j | 0 <= j < 8 && j != Target(f) :: Quiet(f.slaves[j]))
    && DataPhase(f, p)
  }

  function NextPhase(f: Fabric, p: Phase, e: Surroundings): Phase {
    match p
    case Free =>
      if e.request.request && e.request.write then WriteAsk
      else if e.request.request && e.request.read then ReadAsk
      else Free
    case ReadAsk => ReadAck
    case ReadAck => ReadWait
    case ReadWait => if e.ready(Target(f)) then ReadReply else ReadWait
    case ReadReply => Free
    case WriteAsk => WriteAck
    case WriteAck => WriteSend
    case WriteSend => WritePulse
    case WritePulse => WriteReply
    case WriteReply => Free
  }

  lemma QuietStays(f: Fabric, e: Surroundings, j: nat)
    requires j < 8 && j != Target(f) && Quiet(f.slaves[j])
    ensures Quiet(FabricNext(f, e).slaves[j]) && FabricNext(f, e).devices[j] == f.devices[j]
  {
  }

  lemma MuxTarget(f: Fabric)
    requires forall j | 0 <= j < 8 && j != Target(f) :: Quiet(f.slaves[j])
    ensures f.readSel == Selected(Target(f)) ==> MuxRValid(f) == f.slaves[Target(f)].rValid
    ensures f.writeSel == Selected(Target(f)) ==> MuxBValid(f) == f.slaves[Target(f)].bValid
    ensures !f.slaves[Target(f)].rValid ==> !MuxRValid(f)
    ensures !f.slaves[Target(f)].bValid ==> !MuxBValid(f)
  {
  }

  predicate Reading(p: Phase) { p.ReadAsk? || p.ReadAck? || p.ReadWait? || p.ReadReply? }

  lemma ReadPhaseStep(f: Fabric, p: Phase, e: Surroundings)
    requires InPhase(f, p) && Reading(p)
    ensures InPhase(FabricNext(f, e), NextPhase(f, p, e))
  {
    var f' := FabricNext(f, e);
    var k := Target(f);
    MuxTarget(f);
    forall j | 0 <= j < 8 && j != k ensures Quiet(f'.slaves[j]) && f'.devices[j] == f.devices[j] {
      QuietStays(f, e, j);
    }
    assert f'.slaves[k] == SlaveNext(f.slaves[k], SlaveInput(f, k, e));
  }

  lemma WritePhaseStep(f: Fabric, p: Phase, e: Surroundings)
    requires InPhase(f, p) && !Reading(p)
    ensures InPhase(FabricNext(f, e), NextPhase(f, p, e))
  {
    var f' := FabricNext(f, e);
    var k := Target(f);
    MuxTarget(f);
    forall j | 0 <= j < 8 && j != k ensures Quiet(f'.slaves[j]) && f'.devices[j] == f.devices[j] {
      QuietStays(f, e, j);
    }
    assert f'.slaves[k] == SlaveNext(f.slaves[k], SlaveInput(f, k, e));
  }

  /** Every clock edge leads from one phase to the next. */
  lemma PhaseStep(f: Fabric, p: Phase, e: Surroundings)
    requires InPhase(f, p)
    ensures InPhase(FabricNext(f, e), NextPhase(f, p, e))
  {
    if Reading(p) {
      ReadPhaseStep(f, p, e);
    } else {
      WritePhaseStep(f, p, e);
    }
  }
}
