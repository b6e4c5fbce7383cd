/** The whole chip as one clocked object: the pipeline's registers and the bus's, running programs in place. */
module ChipClocked {
  import opened Words
  import opened PipelineCpu
  import opened PipelineInOrder
  import opened LoadStore
  import opened BusFabric
  import opened BusClocked
  import opened PipelineClocked
  import opened Chip
  import opened Architecture
  import Arithmetic

  class Computer {
    const cpu: PipelinedCpu<Devices>
    const bus: Bus

    /** Pipeline and bus share no register. */
    ghost predicate Valid() { cpu.Valid() && bus.Valid() && cpu.Footprint() !! bus.Footprint() }

    ghost function State(): Chip
      requires Valid()
      reads cpu.Footprint(), bus.Footprint()
    {
      Chip(cpu.Registers(), bus.Registers())
    }

    /** The pipeline wired to the bus. */
    constructor (cpu: PipelinedCpu<Devices>, bus: Bus)
      requires cpu.Valid() && bus.Valid() && cpu.Footprint() !! bus.Footprint()
      ensures Valid() && this.cpu == cpu && this.bus == bus
    {
      this.cpu, this.bus := cpu, bus;
    }

    method ClockCpu(fetch: Fetch, answers: BusIn)
      requires Valid()
      modifies cpu.Footprint()
      ensures cpu.Registers() == Step(cpu.isa, old(cpu.Registers()), fetch, answers) && bus.Registers() == old(bus.Registers())
    {
      cpu.Clock(fetch, answers);
    }

    method ClockBus(e: Surroundings)
      requires Valid()
      modifies bus.Footprint()
      ensures bus.Registers() == FabricNext(old(bus.Registers()), e) && cpu.Registers() == old(cpu.Registers())
    {
      bus.Edge(e);
    }

    /** One rising edge of both, each seeing the other's registers as they were. */
    method Clock(ghost alu: Alu, program: Word -> Instr, o: Outside)
      requires Valid() && cpu.isa == Units(alu)
      modifies cpu.Footprint(), bus.Footprint()
      ensures State() == ChipNext(alu, program, old(State()), o)
    {
      var answers := Answers(bus.State());
      var e := Surroundings(Memory(cpu.isa, cpu.State(), answers).bus, o.ready, o.unasked);
      ClockCpu(Fetch(o.fetchValid, program(cpu.pc)), answers);
      ClockBus(e);
    }

    method ClockAll(ghost alu: Alu, program: Word -> Instr, os: seq<Outside>, ghost regs: RegFile, ghost devices: Devices)
      requires Valid() && cpu.isa == Units(alu) && State() == ChipRun(alu, program, regs, devices, [])
      modifies cpu.Footprint(), bus.Footprint()
      ensures State() == ChipRun(alu, program, regs, devices, os)
    {
      var i := 0;
      while i < |os|
        invariant 0 <= i <= |os| && State() == ChipRun(alu, program, regs, devices, os[..i])
      {
        Clock(alu, program, os[i]);
        ChipRunNext(alu, program, regs, devices, os, i);
        i := i + 1;
      }
      AllOfIt(os);
    }
  }

  lemma AllOfIt<T>(s: seq<T>)
    ensures s[..|s|] == s
  {
  }

  lemma ChipRunNext(alu: Alu, program: Word -> Instr, regs: RegFile, devices: Devices, os: seq<Outside>, i: nat)
    requires i < |os|
    ensures ChipRun(alu, program, regs, devices, os[..i + 1]) ==
            ChipNext(alu, program, ChipRun(alu, program, regs, devices, os[..i]), os[i])
  {
    assert os[..i + 1][..i] == os[..i];
  }

  method Built(alu: Alu, regs: RegFile, devices: Devices) returns (computer: Computer)
    ensures fresh(computer) && computer.Valid() && fresh(computer.cpu.Footprint()) && fresh(computer.bus.Footprint())
    ensures computer.cpu.isa == Units(alu)
    ensures computer.cpu.Registers() == Reset(regs) && computer.bus.Registers() == FabricReset(devices)
  {
    var cpu := new PipelinedCpu(Units(alu), regs);
    var bus := new Bus(devices);
    assert cpu.Footprint() !! bus.Footprint();
    computer := new Computer(cpu, bus);
  }

  /**
    A computer built with these registers and devices and clocked in place, on any
    assembled program that is safe and with any latencies, ends where the manual's
    account of the program's first instructions does.
   */
  method RunProgram(text: Word -> Asm, program: Word -> Instr, regs: RegFile, devices: Devices, os: seq<Outside>)
    returns (computer: Computer, ghost states: seq<Machine>)
    requires Holds(program, text) && Safe(text)
    ensures computer.Valid() && |states| == ChipProgress(Arithmetic.Compute, program, regs, devices, os) + 1
    ensures states[0] == View(Arch(regs, devices)) && History(text, states)
    ensures states[|states| - 1].regs == RegsAfterWb(computer.cpu.Registers())
    ensures states[|states| - 1] == View(Whole(Arithmetic.Compute, program, regs, devices, os))
    ensures computer.State() == ChipRun(Arithmetic.Compute, program, regs, devices, os)
  {
    computer := Built(Arithmetic.Compute, regs, devices);
    computer.ClockAll(Arithmetic.Compute, program, os, regs, devices);
    states := ChipImplementsArchitecture(text, program, regs, devices, os);
  }
}
