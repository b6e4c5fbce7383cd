/**
  The chip keeps going: how many cycles an instruction can take, whatever the
  program, and with it that the number of completed instructions grows without
  limit as long as the devices answer within some bound.
 */
module ChipProgress {
  import opened Basics
  import opened Words
  import opened PipelineCpu
  import opened PipelineInOrder
  import opened PipelineIssue
  import opened PipelineProgram
  import opened PipelineRepeats
  import opened LoadStore
  import opened BusFabric
  import opened BusProtocol
  import opened Chip

  /** Cycles an instruction takes at most, waiting for the device aside: two bubbles ahead of it and a bus write. */
  const LONGEST := 10

  /** So many cycles are enough for no more than n instructions, if the devices answer within b cycles. */
  predicate Paced(cycles: nat, n: nat, b: nat) { cycles <= (LONGEST + b) * n }

  /** Slots of the pipeline that are empty ahead of the next instruction to leave MEM. */
  function EmptySlots(c: Cpu): nat {
    if c.exMem.instr != BUBBLE then 0 else if c.idEx.instr != BUBBLE then 1 else 2
  }

  /** Cycles until the bus has finished the access in MEM, waiting for the device aside. */
  function BusCycles(c: Cpu, p: Phase): nat {
    if !c.exMem.instr.memRead && !c.exMem.instr.memWrite then 1
    else if c.mem.state.MemIdle? then 8
    else
      match p
      case Free => 1
      case ReadAsk => 5 case ReadAck => 4 case ReadWait => 3 case ReadReply => 2
      case WriteAsk => 6 case WriteAck => 5 case WriteSend => 4 case WritePulse => 3 case WriteReply => 2
  }

  /** Cycles until the next instruction leaves MEM, waiting for the device aside. */
  function Left(c: Cpu, p: Phase): (n: nat)
    ensures 1 <= n <= LONGEST
  {
    if EmptySlots(c) > 0 then EmptySlots(c) + 8 else BusCycles(c, p)
  }

  /** The cycle is spent waiting for the device to deliver a word. */
  predicate Waits(f: Fabric, p: Phase, e: Surroundings) { p == ReadWait && !e.ready(Target(f)) }

  /** A cycle without a memory stall moves every slot on. */
  lemma LeftMoving<M>(isa: Isa<M>, program: Word -> Instr, r: Run<M>, input: Input, p: Phase, p': Phase)
    requires ClassOk(r.cpu) && !Memory(isa, r.cpu, BusFor(isa, r, input)).stall
    ensures var r' := Cycle(isa, program, r, input);
            |r'.retired| == |r.retired| + 1 || (|r'.retired| == |r.retired| && Left(r'.cpu, p') < Left(r.cpu, p))
  {
    HazardsInClass(r.cpu);
    if EmptySlots(r.cpu) == 0 {
      assert Slot(r.cpu.exMem.instr) == [r.cpu.exMem.instr];
    } else {
      assert Slot(r.cpu.exMem.instr) == [];
    }
  }

  /** A stalled cycle brings the bus nearer to its end, or waits for the device. */
  predicate Nearer(c: Chip, p: Phase, c': Chip, p': Phase, waits: bool) {
    if waits then Left(c'.cpu, p') == Left(c.cpu, p) else Left(c'.cpu, p') < Left(c.cpu, p)
  }

  lemma StalledRequest(alu: Alu, program: Word -> Instr, c: Chip, p: Phase, o: Outside)
    requires Coupled(c, p) && ClassOk(c.cpu) && c.cpu.mem.state.MemIdle?
    requires Memory(Units(alu), c.cpu, Answers(c.fabric)).stall
    ensures var e := Requests(alu, c, o);
            Nearer(c, p, ChipNext(alu, program, c, o), NextPhase(c.fabric, p, e), Waits(c.fabric, p, e))
  {
  }

  lemma StalledRead(alu: Alu, program: Word -> Instr, c: Chip, p: Phase, o: Outside)
    requires Coupled(c, p) && ClassOk(c.cpu) && c.cpu.mem.state.MemRead?
    requires Memory(Units(alu), c.cpu, Answers(c.fabric)).stall
    ensures var e := Requests(alu, c, o);
            Nearer(c, p, ChipNext(alu, program, c, o), NextPhase(c.fabric, p, e), Waits(c.fabric, p, e))
  {
  }

  lemma StalledWrite(alu: Alu, program: Word -> Instr, c: Chip, p: Phase, o: Outside)
    requires Coupled(c, p) && ClassOk(c.cpu) && c.cpu.mem.state.MemWrite?
    requires Memory(Units(alu), c.cpu, Answers(c.fabric)).stall
    ensures var e := Requests(alu, c, o);
            Nearer(c, p, ChipNext(alu, program, c, o), NextPhase(c.fabric, p, e), Waits(c.fabric, p, e))
  {
  }

  lemma LeftStalled(alu: Alu, program: Word -> Instr, c: Chip, p: Phase, o: Outside)
    requires Coupled(c, p) && ClassOk(c.cpu) && Memory(Units(alu), c.cpu, Answers(c.fabric)).stall
    ensures var e := Requests(alu, c, o);
            Nearer(c, p, ChipNext(alu, program, c, o), NextPhase(c.fabric, p, e), Waits(c.fabric, p, e))
  {
    if c.cpu.mem.state.MemIdle? {
      StalledRequest(alu, program, c, p, o);
    } else if c.cpu.mem.state.MemRead? {
      StalledRead(alu, program, c, p, o);
    } else {
      StalledWrite(alu, program, c, p, o);
    }
  }

  lemma NoStallNoWait(alu: Alu, c: Chip, p: Phase, o: Outside)
    requires Coupled(c, p) && ClassOk(c.cpu) && Waits(c.fabric, p, Requests(alu, c, o))
    ensures Memory(Units(alu), c.cpu, Answers(c.fabric)).stall
  {
  }

  /** In a cycle that does not wait, an instruction leaves MEM or comes nearer to it. */
  lemma LeftFalls(alu: Alu, program: Word -> Instr, c: Chip, p: Phase, r: Run<Devices>, o: Outside)
    requires Coupled(c, p) && r.cpu == c.cpu && r.mem == VisibleMemory(c.fabric, p) && ClassOk(c.cpu)
    ensures var r' := Cycle(Units(alu), program, r, InputFor(c.fabric, o));
            var p' := NextPhase(c.fabric, p, Requests(alu, c, o));
            if Waits(c.fabric, p, Requests(alu, c, o)) then |r'.retired| == |r.retired| && Left(r'.cpu, p') == Left(c.cpu, p)
            else |r'.retired| == |r.retired| + 1 || (|r'.retired| == |r.retired| && Left(r'.cpu, p') < Left(c.cpu, p))
  {
    SameStage(alu, c, p, r, o);
    if Memory(Units(alu), c.cpu, Answers(c.fabric)).stall {
      LeftStalled(alu, program, c, p, o);
      RefinesCycle(alu, program, c, p, r, o);
    } else {
      if Waits(c.fabric, p, Requests(alu, c, o)) {
        NoStallNoWait(alu, c, p, o);
      }
      LeftMoving(Units(alu), program, r, InputFor(c.fabric, o), p, NextPhase(c.fabric, p, Requests(alu, c, o)));
    }
  }

  // ---------------------------------------------------------------- whole runs

  /** Cycles spent waiting for a device, how many of them are the run's last in a row, and transactions started. */
  datatype Tally = Tally(waited: nat, streak: nat, started: nat)

  function Tallied(t: Tally, f: Fabric, p: Phase, e: Surroundings): Tally {
    var waits := Waits(f, p, e);
    Tally(t.waited + Bit(waits), if waits then t.streak + 1 else 0, t.started + Bit(Starts(f, e.request)))
  }

  function TallyOf(alu: Alu, program: Word -> Instr, regs: RegFile, devices: Devices, os: seq<Outside>): Tally {
    if os == [] then Tally(0, 0, 0)
    else
      var before := os[..|os| - 1];
      var c := ChipRun(alu, program, regs, devices, before);
      Tallied(TallyOf(alu, program, regs, devices, before), c.fabric, ChipPhase(alu, program, regs, devices, before),
              Requests(alu, c, os[|os| - 1]))
  }

  /** The pipeline's view of a run of the chip. */
  function RunOf(alu: Alu, program: Word -> Instr, regs: RegFile, devices: Devices, os: seq<Outside>): Run<Devices> {
    RunAll(Units(alu), program, regs, devices, ChipInputs(alu, program, regs, devices, os))
  }

  /**
    Every cycle of a run is one of at most ten for each instruction that has left
    MEM, one for the next, or one of waiting for a device.
   */
  lemma {:induction false} CyclesAccounted(alu: Alu, program: Word -> Instr, regs: RegFile, devices: Devices, os: seq<Outside>)
    requires forall p :: InClass(program(p))
    ensures |os| + Left(ChipRun(alu, program, regs, devices, os).cpu, ChipPhase(alu, program, regs, devices, os)) <=
            LONGEST * |RunOf(alu, program, regs, devices, os).retired| + LONGEST + TallyOf(alu, program, regs, devices, os).waited
    decreases |os|
  {
    if os != [] {
      var before, o := os[..|os| - 1], os[|os| - 1];
      var c, p := ChipRun(alu, program, regs, devices, before), ChipPhase(alu, program, regs, devices, before);
      var inputs := ChipInputs(alu, program, regs, devices, before);
      CyclesAccounted(alu, program, regs, devices, before);
      ChipRefinesPipeline(alu, program, regs, devices, before);
      ChipRefinesPipeline(alu, program, regs, devices, os);
      ExecutesWhatItIssued(Units(alu), program, regs, devices, inputs);
      LeftFalls(alu, program, c, p, RunOf(alu, program, regs, devices, before), o);
      RunSnoc(Units(alu), program, regs, devices, inputs, InputFor(c.fabric, o));
    }
  }

  // ---------------------------------------------------------------- devices that answer

  /** Cycle t of the run ends with device j asked for a word and not delivering it. */
  predicate Silent(alu: Alu, program: Word -> Instr, regs: RegFile, devices: Devices, os: seq<Outside>, t: nat, j: nat)
    requires t < |os| && j < 8
  {
    ChipRun(alu, program, regs, devices, os[..t]).fabric.slaves[j].read && !os[t].ready(j)
  }

  ghost predicate Speaks(alu: Alu, program: Word -> Instr, regs: RegFile, devices: Devices, os: seq<Outside>, j: nat, m: nat, b: nat)
    requires m + b < |os| && j < 8
  {
    exists t: nat :: m <= t <= m + b && !Silent(alu, program, regs, devices, os, t, j)
  }

  /** No device leaves a read unanswered for more than b cycles; while it is not asked it may do what it likes. */
  ghost predicate AnswersWithin(alu: Alu, program: Word -> Instr, regs: RegFile, devices: Devices, os: seq<Outside>, b: nat) {
    forall j: nat, m: nat | j < 8 && m + b < |os| :: Speaks(alu, program, regs, devices, os, j, m, b)
  }

  lemma SilentBefore(alu: Alu, program: Word -> Instr, regs: RegFile, devices: Devices, os: seq<Outside>, t: nat, j: nat)
    requires t + 1 < |os| && j < 8
    ensures Silent(alu, program, regs, devices, os[..|os| - 1], t, j) == Silent(alu, program, regs, devices, os, t, j)
  {
    assert os[..|os| - 1][..t] == os[..t];
  }

  lemma AnswersBefore(alu: Alu, program: Word -> Instr, regs: RegFile, devices: Devices, os: seq<Outside>, b: nat)
    requires os != [] && AnswersWithin(alu, program, regs, devices, os, b)
    ensures AnswersWithin(alu, program, regs, devices, os[..|os| - 1], b)
  {
    var before := os[..|os| - 1];
    forall j: nat, m: nat | j < 8 && m + b < |before| ensures Speaks(alu, program, regs, devices, before, j, m, b) {
      assert Speaks(alu, program, regs, devices, os, j, m, b);
      var t: nat :| m <= t <= m + b && !Silent(alu, program, regs, devices, os, t, j);
      SilentBefore(alu, program, regs, devices, os, t, j);
    }
  }

  /** Device j has left the last k cycles unanswered. */
  predicate Unanswered(alu: Alu, program: Word -> Instr, regs: RegFile, devices: Devices, os: seq<Outside>, k: nat, j: nat)
    requires j < 8
  {
    k <= |os| && forall t: nat | |os| - k <= t < |os| :: Silent(alu, program, regs, devices, os, t, j)
  }

  lemma UnansweredTooLong(
    alu: Alu, program: Word -> Instr, regs: RegFile, devices: Devices, os: seq<Outside>, k: nat, j: nat, b: nat)
    requires j < 8 && Unanswered(alu, program, regs, devices, os, k, j) && k > b
    ensures !AnswersWithin(alu, program, regs, devices, os, b)
  {
    assert !Speaks(alu, program, regs, devices, os, j, |os| - b - 1, b);
  }

  lemma UnansweredLonger(alu: Alu, program: Word -> Instr, regs: RegFile, devices: Devices, os: seq<Outside>, k: nat, j: nat)
    requires j < 8 && os != [] && Unanswered(alu, program, regs, devices, os[..|os| - 1], k, j)
    requires Silent(alu, program, regs, devices, os, |os| - 1, j)
    ensures Unanswered(alu, program, regs, devices, os, k + 1, j)
  {
    forall t: nat | |os| - (k + 1) <= t < |os| ensures Silent(alu, program, regs, devices, os, t, j) {
      if t + 1 < |os| {
        SilentBefore(alu, program, regs, devices, os, t, j);
      }
    }
  }

  /** While the chip waits, the same device is being asked. */
  lemma TargetStays(f: Fabric, p: Phase, e: Surroundings)
    requires InPhase(f, p) && p == ReadWait
    ensures Target(FabricNext(f, e)) == Target(f)
  {
  }

  lemma ChipInPhase(alu: Alu, program: Word -> Instr, regs: RegFile, devices: Devices, os: seq<Outside>)
    ensures InPhase(ChipRun(alu, program, regs, devices, os).fabric, ChipPhase(alu, program, regs, devices, os))
  {
    ChipRefinesPipeline(alu, program, regs, devices, os);
  }

  lemma {:induction false} StreakUnanswered(alu: Alu, program: Word -> Instr, regs: RegFile, devices: Devices, os: seq<Outside>)
    ensures Unanswered(alu, program, regs, devices, os, TallyOf(alu, program, regs, devices, os).streak,
                       Target(ChipRun(alu, program, regs, devices, os).fabric))
    decreases |os|
  {
    if os != [] {
      var before, o := os[..|os| - 1], os[|os| - 1];
      var c, p := ChipRun(alu, program, regs, devices, before), ChipPhase(alu, program, regs, devices, before);
      StreakUnanswered(alu, program, regs, devices, before);
      if Waits(c.fabric, p, Requests(alu, c, o)) {
        ChipInPhase(alu, program, regs, devices, before);
        TargetStays(c.fabric, p, Requests(alu, c, o));
        assert Silent(alu, program, regs, devices, os, |os| - 1, Target(c.fabric));
        UnansweredLonger(alu, program, regs, devices, os, TallyOf(alu, program, regs, devices, before).streak, Target(c.fabric));
      }
    }
  }

  lemma StreakBounded(alu: Alu, program: Word -> Instr, regs: RegFile, devices: Devices, os: seq<Outside>, b: nat)
    requires AnswersWithin(alu, program, regs, devices, os, b)
    ensures TallyOf(alu, program, regs, devices, os).streak <= b
  {
    StreakUnanswered(alu, program, regs, devices, os);
    var k := TallyOf(alu, program, regs, devices, os).streak;
    if k > b {
      UnansweredTooLong(alu, program, regs, devices, os, k, Target(ChipRun(alu, program, regs, devices, os).fabric), b);
    }
  }

  /** A read that has been asked for and not answered. */
  predicate Asking(p: Phase) { p == ReadAsk || p == ReadAck || p == ReadWait }

  /** Waiting cycles so far: at most b for each transaction started, for the unanswered one those of the present streak. */
  predicate WaitsWithin(t: Tally, p: Phase, b: nat) {
    if Asking(p) then t.started >= 1 && t.waited <= b * (t.started - 1) + t.streak && (p != ReadWait ==> t.streak == 0)
    else t.waited <= b * t.started && t.streak == 0
  }

  lemma WaitsStep(t: Tally, f: Fabric, p: Phase, e: Surroundings, b: nat)
    requires WaitsWithin(t, p, b) && t.streak <= b && InPhase(f, p)
    ensures WaitsWithin(Tallied(t, f, p, e), NextPhase(f, p, e), b)
  {
    assert Starts(f, e.request) ==> p == Free;
    assert b * (t.started + 1 - 1) == b * t.started;
    if t.started >= 1 {
      assert b * t.started == b * (t.started - 1) + b;
    }
  }

  lemma {:induction false} WaitedBounded(alu: Alu, program: Word -> Instr, regs: RegFile, devices: Devices, os: seq<Outside>, b: nat)
    requires AnswersWithin(alu, program, regs, devices, os, b)
    ensures WaitsWithin(TallyOf(alu, program, regs, devices, os), ChipPhase(alu, program, regs, devices, os), b)
    decreases |os|
  {
    if os != [] {
      var before, o := os[..|os| - 1], os[|os| - 1];
      var c := ChipRun(alu, program, regs, devices, before);
      AnswersBefore(alu, program, regs, devices, os, b);
      WaitedBounded(alu, program, regs, devices, before, b);
      StreakBounded(alu, program, regs, devices, before, b);
      ChipInPhase(alu, program, regs, devices, before);
      WaitsStep(TallyOf(alu, program, regs, devices, before), c.fabric, ChipPhase(alu, program, regs, devices, before),
                Requests(alu, c, o), b);
    }
  }

  lemma {:induction false} AccessesBounded(p: seq<Instr>)
    ensures Accesses(p) <= |p|
  {
    if p != [] {
      AccessesBounded(p[..|p| - 1]);
    }
  }

  lemma Widened(cycles: nat, m: nat, n: nat, b: nat)
    requires Paced(cycles, m, b) && m <= n
    ensures Paced(cycles, n, b)
  {
    MulMonotone(m, n, LONGEST + b);
  }

  lemma Distributed(a: nat, b: nat, n: nat)
    ensures (a + b) * n == a * n + b * n
  {
  }

  lemma WaitsSpent(t: Tally, p: Phase, b: nat)
    requires WaitsWithin(t, p, b) && t.streak <= b
    ensures t.waited <= b * t.started
  {
    if Asking(p) {
      assert b * t.started == b * (t.started - 1) + b;
    }
  }

  lemma Altogether(cycles: nat, retired: nat, t: Tally, p: Phase, b: nat)
    requires cycles <= LONGEST * retired + LONGEST + t.waited && t.started <= retired + 1
    requires WaitsWithin(t, p, b) && t.streak <= b
    ensures Paced(cycles, retired + 1, b)
  {
    WaitsSpent(t, p, b);
    MulMonotone(t.started, retired + 1, b);
    Distributed(LONGEST, b, retired + 1);
  }

  lemma {:induction false} TallyStarted(alu: Alu, program: Word -> Instr, regs: RegFile, devices: Devices, os: seq<Outside>)
    ensures TallyOf(alu, program, regs, devices, os).started == Started(alu, program, regs, devices, os)
    decreases |os|
  {
    if os != [] {
      TallyStarted(alu, program, regs, devices, os[..|os| - 1]);
    }
  }

  lemma StartedBounded(alu: Alu, program: Word -> Instr, regs: RegFile, devices: Devices, os: seq<Outside>)
    requires forall p :: InClass(program(p))
    ensures TallyOf(alu, program, regs, devices, os).started <= |RunOf(alu, program, regs, devices, os).retired| + 1
  {
    TallyStarted(alu, program, regs, devices, os);
    OneTransactionEach(alu, program, regs, devices, os);
    AccessesBounded(RunOf(alu, program, regs, devices, os).retired);
  }

  /**
    With devices that answer within b cycles of being asked an instruction is
    completed in every 10 + b cycles, taken over the whole run: the chip never stops.
   */
  lemma InstructionsComplete(alu: Alu, program: Word -> Instr, regs: RegFile, devices: Devices, os: seq<Outside>, b: nat)
    requires (forall p :: InClass(program(p))) && AnswersWithin(alu, program, regs, devices, os, b)
    ensures Paced(|os|, |RunOf(alu, program, regs, devices, os).retired| + 1, b)
  {
    var retired, t := |RunOf(alu, program, regs, devices, os).retired|, TallyOf(alu, program, regs, devices, os);
    var p := ChipPhase(alu, program, regs, devices, os);
    assert |os| <= LONGEST * retired + LONGEST + t.waited by {
      CyclesAccounted(alu, program, regs, devices, os);
    }
    assert t.started <= retired + 1 by {
      StartedBounded(alu, program, regs, devices, os);
    }
    assert WaitsWithin(t, p, b) && t.streak <= b by {
      WaitedBounded(alu, program, regs, devices, os, b);
      StreakBounded(alu, program, regs, devices, os, b);
    }
    Altogether(|os|, retired, t, p, b);
  }

  /** Devices that deliver in the very cycle they are asked: none of them need ever be ready otherwise. */
  lemma AtOnceAnswers(alu: Alu, program: Word -> Instr, regs: RegFile, devices: Devices, os: seq<Outside>)
    requires forall t: nat, j: nat | t < |os| && j < 8 && ChipRun(alu, program, regs, devices, os[..t]).fabric.slaves[j].read ::
               os[t].ready(j)
    ensures AnswersWithin(alu, program, regs, devices, os, 0)
  {
    forall j: nat, m: nat | j < 8 && m < |os| ensures Speaks(alu, program, regs, devices, os, j, m, 0) {
      assert !Silent(alu, program, regs, devices, os, m, j);
    }
  }

  ghost predicate ReadyWithin(os: seq<Outside>, j: nat, m: nat, b: nat) {
    exists t: nat :: m <= t <= m + b && t < |os| && os[t].ready(j)
  }

  /** So do devices that are ready once in every b + 1 cycles, asked or not, whatever the program. */
  lemma RegularAnswers(alu: Alu, program: Word -> Instr, regs: RegFile, devices: Devices, os: seq<Outside>, b: nat)
    requires forall j: nat, m: nat | j < 8 && m + b < |os| :: ReadyWithin(os, j, m, b)
    ensures AnswersWithin(alu, program, regs, devices, os, b)
  {
    forall j: nat, m: nat | j < 8 && m + b < |os| ensures Speaks(alu, program, regs, devices, os, j, m, b) {
      assert ReadyWithin(os, j, m, b);
      var t: nat :| m <= t <= m + b && t < |os| && os[t].ready(j);
      assert !Silent(alu, program, regs, devices, os, t, j);
    }
  }

  // ---------------------------------------------------------------- progress of the program

  lemma {:induction false} BegunHalf(f: seq<Instr>, c: nat)
    requires c <= |Expand(f)|
    ensures c <= 2 * Begun(f, c) && Begun(f, c) <= |f|
  {
    if f != [] {
      if |Expand(f[..|f| - 1])| >= c {
        BegunHalf(f[..|f| - 1], c);
      } else {
        ExpandSize(f);
      }
    }
  }

  lemma {:induction false} AllAnswered(alu: Alu, program: Word -> Instr, regs: RegFile, devices: Devices, os: seq<Outside>)
    requires forall o | o in os :: o.fetchValid
    ensures var v := RunOf(alu, program, regs, devices, os).valid; ValidBelow(v, |v|)
    decreases |os|
  {
    if os != [] {
      var before, o := os[..|os| - 1], os[|os| - 1];
      var c := ChipRun(alu, program, regs, devices, before);
      var inputs := ChipInputs(alu, program, regs, devices, before);
      AllAnswered(alu, program, regs, devices, before);
      RunSnoc(Units(alu), program, regs, devices, inputs, InputFor(c.fabric, o));
      CycleFetches(Units(alu), program, RunOf(alu, program, regs, devices, before), InputFor(c.fabric, o));
    }
  }

  lemma ProgressHalf(program: Word -> Instr, r: Run<Devices>)
    requires IssueOk(r) && FetchOk(program, r) && ValidBelow(r.valid, |r.valid|)
    ensures |Committed(r)| <= 2 * (Progress(r) + 1)
  {
    CommittedIsExpansion(r);
    var n := Begun(r.fetched, |Committed(r)|);
    BegunHalf(r.fetched, |Committed(r)|);
    if n >= 1 {
      CountBelow(r.valid, |r.valid|, n);
    }
  }

  lemma RetiredHalf(alu: Alu, program: Word -> Instr, regs: RegFile, devices: Devices, os: seq<Outside>)
    requires (forall p :: InClass(program(p))) && forall o | o in os :: o.fetchValid
    ensures |RunOf(alu, program, regs, devices, os).retired| <= 2 * (ChipProgress(alu, program, regs, devices, os) + 1)
  {
    var inputs := ChipInputs(alu, program, regs, devices, os);
    IssuesExpansion(Units(alu), program, regs, devices, inputs);
    FetchesProgram(Units(alu), program, regs, devices, inputs);
    AllAnswered(alu, program, regs, devices, os);
    ProgressHalf(program, RunOf(alu, program, regs, devices, os));
  }

  /**
    If moreover every fetch is answered, the program itself advances: |os| cycles
    are at most 10 + b for each of twice its instructions so far, and three more.
   */
  lemma ProgramAdvances(alu: Alu, program: Word -> Instr, regs: RegFile, devices: Devices, os: seq<Outside>, b: nat)
    returns (n: nat)
    requires (forall p :: InClass(program(p))) && AnswersWithin(alu, program, regs, devices, os, b)
    requires forall o | o in os :: o.fetchValid
    ensures Paced(|os|, 2 * n + 3, b) && n == ChipProgress(alu, program, regs, devices, os)
  {
    InstructionsComplete(alu, program, regs, devices, os, b);
    RetiredHalf(alu, program, regs, devices, os);
    n := ChipProgress(alu, program, regs, devices, os);
    Widened(|os|, |RunOf(alu, program, regs, devices, os).retired| + 1, 2 * n + 3, b);
  }
}
