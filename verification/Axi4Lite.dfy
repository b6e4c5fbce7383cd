/**
  The AXI4-Lite master and slave state machines, register by register.  The
  response codes are always OKAY on these two machines and are not carried.
 */
module Axi4Lite {
  import opened Words
  import opened PipelineCpu

  datatype State = Idle | ReadAddr | ReadData | WriteAddr | WriteData | WriteResp

  /** Registers of `AXI4LiteSlave`; all of its outputs are registers. */
  datatype Slave = Slave(
    state: State, address: Word,
    read: bool, readData: Word, arReady: bool, rValid: bool,
    write: bool, writeData: Word, strobe: Strobe, awReady: bool, wReady: bool, bValid: bool)

  datatype SlaveIn = SlaveIn(
    arValid: bool, arAddress: Word, rReady: bool,
    awValid: bool, awAddress: Word, wValid: bool, wData: Word, wStrobe: Strobe, bReady: bool,
    deviceValid: bool, deviceData: Word)

  /** Registers of `AXI4LiteMaster`. */
  datatype Master = Master(
    state: State, address: Word,
    readValid: bool, readData: Word, arValid: bool, rReady: bool,
    writeValid: bool, writeData: Word, strobe: Strobe, awValid: bool, wValid: bool, bReady: bool,
    accepted: bool)

  datatype MasterIn = MasterIn(
    read: bool, write: bool, address: Word, data: Word, strobe: Strobe,
    arReady: bool, rValid: bool, rData: Word, awReady: bool, wReady: bool, bValid: bool)

  const SLAVE_RESET := Slave(Idle, 0, false, 0, false, false, false, 0, NO_STROBE, false, false, false)
  const MASTER_RESET := Master(Idle, 0, false, 0, false, false, false, 0, NO_STROBE, false, false, false, false)

  function SlaveNext(s: Slave, i: SlaveIn): Slave {
    match s.state
    case Idle =>
      var quiet := s.(read := false, write := false);
      if i.arValid then quiet.(state := ReadAddr, arReady := true)
      else if i.awValid then quiet.(state := WriteAddr, awReady := true)
      else quiet
    case ReadAddr =>
      if i.arValid && s.arReady then
        s.(address := i.arAddress, arReady := false, read := true, state := ReadData)
      else s
    case ReadData =>
      var answered := if i.deviceValid then s.(readData := i.deviceData, rValid := true, read := false) else s;
      if s.rValid && i.rReady then answered.(rValid := false, state := Idle) else answered
    case WriteAddr =>
      if i.awValid && s.awReady then
        s.(address := i.awAddress, awReady := false, wReady := true, state := WriteData)
      else s
    case WriteData =>
      if i.wValid && s.wReady then
        s.(writeData := i.wData, strobe := i.wStrobe, wReady := false, write := true, state := WriteResp)
      else s
    case WriteResp =>
      if s.bValid && i.bReady then s.(write := false, bValid := false, state := Idle)
      else s.(write := false, bValid := true)
  }

  function MasterNext(m: Master, i: MasterIn): Master {
    match m.state
    case Idle =>
      var quiet := m.(readValid := false, writeValid := false, accepted := false);
      if i.read && !i.write then
        quiet.(address := i.address, arValid := true, rReady := true, state := ReadData)
      else if i.write then
        quiet.(address := i.address, writeData := i.data, strobe := i.strobe,
               awValid := true, wValid := true, state := WriteData)
      else quiet
    case ReadData =>
      var asked := if m.arValid && i.arReady then m.(arValid := false) else m;
      if i.rValid && m.rReady then
        asked.(readData := i.rData, rReady := false, readValid := true, state := Idle)
      else asked
    case WriteData =>
      var asked := if m.awValid && i.awReady then m.(awValid := false) else m;
      if m.wValid && i.wReady then
        asked.(wValid := false, bReady := true, accepted := true, state := WriteResp)
      else asked
    case WriteResp =>
      var asked := if m.awValid && i.awReady then m.(awValid := false) else m;
      if i.bValid && m.bReady then asked.(bReady := false, writeValid := true, state := Idle) else asked
    case ReadAddr => m
    case WriteAddr => m
  }

  // ---------------------------------------------------------------- the clocked objects

  class AxiSlave {
    var state: State
    var address: Word
    var read: bool
    var readData: Word
    var arReady: bool
    var rValid: bool
    var write: bool
    var writeData: Word
    var strobe: Strobe
    var awReady: bool
    var wReady: bool
    var bValid: bool

    constructor ()
      ensures Registers() == SLAVE_RESET
    {
      state, address, read, readData, arReady, rValid := Idle, 0, false, 0, false, false;
      write, writeData, strobe, awReady, wReady, bValid := false, 0, NO_STROBE, false, false, false;
    }

    function Registers(): Slave
      reads this
    {
      Slave(state, address, read, readData, arReady, rValid, write, writeData, strobe, awReady, wReady, bValid)
    }

    method InIdle(i: SlaveIn)
      requires state == Idle
      modifies this
      ensures Registers() == SlaveNext(old(Registers()), i)
    {
      read := false;
      write := false;
      if i.arValid {
        state := ReadAddr;
        arReady := true;
      } else if i.awValid {
        state := WriteAddr;
        awReady := true;
      }
    }

    method InReadAddr(i: SlaveIn)
      requires state == ReadAddr
      modifies this
      ensures Registers() == SlaveNext(old(Registers()), i)
    {
      var was := Registers();
      if i.arValid && was.arReady {
        address := i.arAddress;
        arReady := false;
        read := true;
        state := ReadData;
      }
    }

    method InReadData(i: SlaveIn)
      requires state == ReadData
      modifies this
      ensures Registers() == SlaveNext(old(Registers()), i)
    {
      var was := Registers();
      if i.deviceValid {
        readData := i.deviceData;
        rValid := true;
        read := false;
      }
      if was.rValid && i.rReady {
        rValid := false;
        state := Idle;
      }
    }

    method InWriteAddr(i: SlaveIn)
      requires state == WriteAddr
      modifies this
      ensures Registers() == SlaveNext(old(Registers()), i)
    {
      var was := Registers();
      if i.awValid && was.awReady {
        address := i.awAddress;
        awReady := false;
        wReady := true;
        state := WriteData;
      }
    }

    method InWriteData(i: SlaveIn)
      requires state == WriteData
      modifies this
      ensures Registers() == SlaveNext(old(Registers()), i)
    {
      var was := Registers();
      if i.wValid && was.wReady {
        writeData := i.wData;
        strobe := i.wStrobe;
        wReady := false;
        write := true;
        state := WriteResp;
      }
    }

    method InWriteResp(i: SlaveIn)
      requires state == WriteResp
      modifies this
      ensures Registers() == SlaveNext(old(Registers()), i)
    {
      var was := Registers();
      write := false;
      bValid := true;
      if was.bValid && i.bReady {
        bValid := false;
        state := Idle;
      }
    }

    /** One rising clock edge; conditions look at the values before it, and the last assignment wins. */
    method Clock(i: SlaveIn)
      modifies this
      ensures Registers() == SlaveNext(old(Registers()), i)
    {
      match state {
        case Idle => InIdle(i);
        case ReadAddr => InReadAddr(i);
        case ReadData => InReadData(i);
        case WriteAddr => InWriteAddr(i);
        case WriteData => InWriteData(i);
        case WriteResp => InWriteResp(i);
      }
    }
  }

  class AxiMaster {
    var state: State
    var address: Word
    var readValid: bool
    var readData: Word
    var arValid: bool
    var rReady: bool
    var writeValid: bool
    var writeData: Word
    var strobe: Strobe
    var awValid: bool
    var wValid: bool
    var bReady: bool
    var accepted: bool

    constructor ()
      ensures Registers() == MASTER_RESET
    {
      state, address, readValid, readData, arValid, rReady := Idle, 0, false, 0, false, false;
      writeValid, writeData, strobe, awValid, wValid, bReady := false, 0, NO_STROBE, false, false, false;
      accepted := false;
    }

    function Registers(): Master
      reads this
    {
      Master(state, address, readValid, readData, arValid, rReady,
             writeValid, writeData, strobe, awValid, wValid, bReady, accepted)
    }

    method DropAnswers()
      modifies this
      ensures Registers() == old(Registers()).(readValid := false, writeValid := false, accepted := false)
    {
      readValid := false;
      writeValid := false;
      accepted := false;
    }

    method StartRead(i: MasterIn)
      modifies this
      ensures Registers() == old(Registers()).(address := i.address, arValid := true, rReady := true, state := ReadData)
    {
      address := i.address;
      arValid := true;
      rReady := true;
      state := ReadData;
    }

    method StartWrite(i: MasterIn)
      modifies this
      ensures Registers() ==
              old(Registers()).(address := i.address, writeData := i.data, strobe := i.strobe,
                                awValid := true, wValid := true, state := WriteData)
    {
      address := i.address;
      writeData := i.data;
      strobe := i.strobe;
      awValid := true;
      wValid := true;
      state := WriteData;
    }

    method InIdle(i: MasterIn)
      requires state == Idle
      modifies this
      ensures Registers() == MasterNext(old(Registers()), i)
    {
      DropAnswers();
      if i.read && !i.write {
        StartRead(i);
      } else if i.write {
        StartWrite(i);
      }
    }

    method InReadData(i: MasterIn)
      requires state == ReadData
      modifies this
      ensures Registers() == MasterNext(old(Registers()), i)
    {
      var was := Registers();
      if was.arValid && i.arReady { arValid := false; }
      if i.rValid && was.rReady {
        readData := i.rData;
        rReady := false;
        readValid := true;
        state := Idle;
      }
    }

    method InWriteData(i: MasterIn)
      requires state == WriteData
      modifies this
      ensures Registers() == MasterNext(old(Registers()), i)
    {
      var was := Registers();
      if was.awValid && i.awReady { awValid := false; }
      if was.wValid && i.wReady {
        wValid := false;
        bReady := true;
        accepted := true;
        state := WriteResp;
      }
    }

    method InWriteResp(i: MasterIn)
      requires state == WriteResp
      modifies this
      ensures Registers() == MasterNext(old(Registers()), i)
    {
      var was := Registers();
      if was.awValid && i.awReady { awValid := false; }
      if i.bValid && was.bReady {
        bReady := false;
        writeValid := true;
        state := Idle;
      }
    }

    /** One rising clock edge; conditions look at the values before it, and the last assignment wins. */
    method Clock(i: MasterIn)
      modifies this
      ensures Registers() == MasterNext(old(Registers()), i)
    {
      match state {
        case Idle => InIdle(i);
        case ReadData => InReadData(i);
        case WriteData => InWriteData(i);
        case WriteResp => InWriteResp(i);
        case ReadAddr =>
        case WriteAddr =>
      }
    }
  }
}
