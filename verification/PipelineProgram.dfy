/**
  Straight-line programs.  With no load directly after a store, every run leaves
  the registers and the memory in the state of executing a prefix of the program
  one instruction at a time; and that condition is exactly what in-order issue
  needs.
 */
module PipelineProgram {
  import opened Words
  import opened PipelineCpu
  import opened PipelineInOrder
  import opened PipelineIssue

  function Address(k: nat): Word { Wrap(ENTRY_ADDRESS + 4 * k) }

  /** The program starts at 0x1000, four bytes an instruction. */
  lemma AddressIs(k: nat)
    ensures Address(k) == (0x1000 + 4 * k) % 0x1_0000_0000
  {
  }

  /** The first n instructions of the program. */
  function Listing(program: Word -> Instr, n: nat): seq<Instr> {
    if n == 0 then [] else Listing(program, n - 1) + [program(Address(n - 1))]
  }

  /** No load directly follows a store. */
  ghost predicate NoLoadAfterStore(program: Word -> Instr) {
    forall k: nat :: !(program(Address(k)).memWrite && program(Address(k + 1)).memRead)
  }

  /** How many of the first n fetches were answered by the instruction memory. */
  function Count(valid: seq<bool>, n: nat): nat
    requires n <= |valid|
  {
    if n == 0 then 0 else Count(valid, n - 1) + if valid[n - 1] then 1 else 0
  }

  lemma {:induction false} CountPrefix(v: seq<bool>, b: bool, n: nat)
    requires n <= |v|
    ensures Count(v + [b], n) == Count(v, n)
  {
    if n > 0 { CountPrefix(v, b, n - 1); }
  }

  predicate FetchedAt(program: Word -> Instr, f: seq<Instr>, v: seq<bool>, k: nat)
    requires k < |f| == |v|
  {
    if v[k] then f[k] == program(Address(Count(v, k))) else f[k] == Nop(f[k].pc)
  }

  predicate AllFetchedAt(program: Word -> Instr, f: seq<Instr>, v: seq<bool>)
  {
    |f| == |v| && forall k | 0 <= k < |f| :: FetchedAt(program, f, v, k)
  }

  predicate FetchOk(program: Word -> Instr, r: Run) {
    r.cpu.pc == Address(Count(r.valid, |r.valid|)) && AllFetchedAt(program, r.fetched, r.valid)
  }

  lemma NextAddress(k: nat)
    ensures Wrap(Address(k) + 4) == Address(k + 1)
  {
  }

  lemma {:induction false} FetchSnoc(program: Word -> Instr, f: seq<Instr>, v: seq<bool>, i: Instr, b: bool)
    requires AllFetchedAt(program, f, v)
    requires if b then i == program(Address(Count(v, |v|))) else i == Nop(i.pc)
    ensures AllFetchedAt(program, f + [i], v + [b])
  {
    forall k | 0 <= k < |f| + 1 ensures FetchedAt(program, f + [i], v + [b], k) {
      CountPrefix(v, b, k);
      assert k < |f| ==> FetchedAt(program, f, v, k);
    }
  }

  /** The program counter and IF2ID, whatever the other stages do. */
  lemma StepFetches<M>(isa: Isa<M>, c: Cpu, fetch: Fetch, bus: BusIn)
    ensures var c' := Step(isa, c, fetch, bus);
            if CpuHazards(c).stall || Memory(isa, c, bus).stall then c'.pc == c.pc && c'.ifId == c.ifId
            else c'.pc == (if fetch.valid then Wrap(c.pc + 4) else c.pc) && c'.ifId == if fetch.valid then fetch.instr else Nop(c.pc)
  {
  }

  lemma CycleFetches<M>(isa: Isa<M>, program: Word -> Instr, r: Run<M>, input: Input)
    ensures var r' := Cycle(isa, program, r, input);
            if Advances(isa, r, input) then
              && r'.fetched == r.fetched + [if input.fetchValid then program(r.cpu.pc) else Nop(r.cpu.pc)]
              && r'.valid == r.valid + [input.fetchValid]
              && r'.cpu.pc == if input.fetchValid then Wrap(r.cpu.pc + 4) else r.cpu.pc
            else r'.fetched == r.fetched && r'.valid == r.valid && r'.cpu.pc == r.cpu.pc
  {
    StepFetches(isa, r.cpu, Fetch(input.fetchValid, program(r.cpu.pc)), BusFor(isa, r, input));
  }

  lemma {:induction false} FetchOkSnoc(program: Word -> Instr, r: Run, r': Run, b: bool)
    requires FetchOk(program, r)
    requires r'.fetched == r.fetched + [if b then program(r.cpu.pc) else Nop(r.cpu.pc)]
    requires r'.valid == r.valid + [b] && r'.cpu.pc == if b then Wrap(r.cpu.pc + 4) else r.cpu.pc
    ensures FetchOk(program, r')
  {
    var n := |r.valid|;
    FetchSnoc(program, r.fetched, r.valid, if b then program(r.cpu.pc) else Nop(r.cpu.pc), b);
    CountPrefix(r.valid, b, n);
    NextAddress(Count(r.valid, n));
  }

  lemma {:induction false} FetchStep<M>(isa: Isa<M>, program: Word -> Instr, r: Run<M>, input: Input)
    requires FetchOk(program, r)
    ensures FetchOk(program, Cycle(isa, program, r, input))
  {
    CycleFetches(isa, program, r, input);
    if Advances(isa, r, input) { FetchOkSnoc(program, r, Cycle(isa, program, r, input), input.fetchValid); }
  }

  lemma {:induction false} FetchesProgram<M>(
    isa: Isa<M>, program: Word -> Instr, regs: RegFile, mem: M, inputs: seq<Input>)
    ensures FetchOk(program, RunAll(isa, program, regs, mem, inputs))
  {
    if inputs != [] {
      var before := inputs[..|inputs| - 1];
      FetchesProgram(isa, program, regs, mem, before);
      FetchStep(isa, program, RunAll(isa, program, regs, mem, before), inputs[|inputs| - 1]);
    }
  }

  /** The fetches that were answered. */
  function Answered(f: seq<Instr>, v: seq<bool>): seq<Instr>
    requires |f| == |v|
  {
    if f == [] then []
    else
      var n := |f| - 1;
      var earlier := Answered(f[..n], v[..n]);
      if v[n] then earlier + [f[n]] else earlier
  }

  /** What was answered is the beginning of the program. */
  lemma {:induction false} AnsweredIsListing(program: Word -> Instr, f: seq<Instr>, v: seq<bool>, n: nat)
    requires n <= |f| && AllFetchedAt(program, f, v)
    ensures Answered(f[..n], v[..n]) == Listing(program, Count(v, n))
  {
    if n > 0 {
      AnsweredIsListing(program, f, v, n - 1);
      assert FetchedAt(program, f, v, n - 1);
      assert f[..n][..n - 1] == f[..n - 1] && v[..n][..n - 1] == v[..n - 1];
    }
  }

  lemma BubblesAreNops(program: Word -> Instr, f: seq<Instr>, v: seq<bool>, n: nat)
    requires n <= |f| && AllFetchedAt(program, f, v)
    ensures forall k | 0 <= k < n :: v[..n][k] || f[..n][k] == Nop(f[..n][k].pc)
  {
    forall k | 0 <= k < n ensures v[..n][k] || f[..n][k] == Nop(f[..n][k].pc) {
      assert FetchedAt(program, f, v, k);
    }
  }

  lemma NopDoesNothing<M>(isa: Isa<M>, a: Arch<M>, pc: Word)
    ensures ExecOne(isa, a, Nop(pc)) == a
  {
  }

  /** Fetch bubbles have no effect. */
  lemma {:induction false} BubblesDoNothing<M>(isa: Isa<M>, a: Arch<M>, f: seq<Instr>, v: seq<bool>)
    requires |f| == |v|
    requires forall k | 0 <= k < |f| :: v[k] || f[k] == Nop(f[k].pc)
    ensures ExecAll(isa, a, f) == ExecAll(isa, a, Answered(f, v))
  {
    if f != [] {
      var n := |f| - 1;
      BubblesDoNothing(isa, a, f[..n], v[..n]);
      if v[n] {
        ExecSnoc(isa, a, Answered(f[..n], v[..n]), f[n]);
      } else {
        NopDoesNothing(isa, ExecAll(isa, a, f[..n]), f[n].pc);
      }
    }
  }

  predicate NothingDoubled(f: seq<Instr>) { forall k | 0 <= k < |f| :: !Doubled(f, k) }

  lemma DoubledPrefix(f: seq<Instr>, n: nat, k: nat)
    requires k < n <= |f|
    ensures Doubled(f[..n], k) == Doubled(f, k)
  {
  }

  lemma NothingDoubledPrefix(f: seq<Instr>, n: nat)
    requires n <= |f| && NothingDoubled(f)
    ensures NothingDoubled(f[..n])
  {
    forall k | 0 <= k < n ensures !Doubled(f[..n], k) {
      DoubledPrefix(f, n, k);
    }
  }

  /** Without doubled instructions the expansion is the sequence itself. */
  lemma {:induction false} ExpandSame(f: seq<Instr>)
    requires NothingDoubled(f)
    ensures Expand(f) == f
  {
    if f != [] {
      var n := |f| - 1;
      NothingDoubledPrefix(f, n);
      ExpandSame(f[..n]);
      ExpandLast(f, n);
      assert !Doubled(f, n);
      assert f == f[..n] + [f[n]];
    }
  }

  lemma {:induction false} ExpandNotShorter(f: seq<Instr>)
    ensures |Expand(f)| >= |f|
  {
    if f != [] {
      ExpandNotShorter(f[..|f| - 1]);
    }
  }

  /** With one it is longer. */
  lemma {:induction false} ExpandLonger(f: seq<Instr>, k: nat)
    requires k < |f| && Doubled(f, k)
    ensures |Expand(f)| > |f|
    decreases |f|
  {
    var n := |f| - 1;
    ExpandLast(f, n);
    if k == n {
      ExpandNotShorter(f[..n]);
    } else {
      DoubledPrefix(f, n, k);
      ExpandLonger(f[..n], k);
    }
  }

  /** A fetched store; load pair is a store; load pair of the program. */
  lemma NoneDoubled(program: Word -> Instr, f: seq<Instr>, v: seq<bool>)
    requires NoLoadAfterStore(program)
    requires AllFetchedAt(program, f, v)
    ensures NothingDoubled(f)
  {
    forall k | 0 <= k < |f| ensures !Doubled(f, k) {
      if k >= 2 && f[k - 2].memWrite && f[k - 1].memRead {
        assert FetchedAt(program, f, v, k - 2) && FetchedAt(program, f, v, k - 1);
        assert Count(v, k - 1) == Count(v, k - 2) + 1;
      }
    }
  }

  /** Every instruction that has left ID was captured by ID2EX exactly once, in order, and the one in ID not yet. */
  predicate InOrder(r: Run) {
    r.fetched != [] && r.issued == r.fetched[..|r.fetched| - 1]
  }

  /** What has been captured ahead of the instruction in ID, if that one is not there twice. */
  lemma IssuedAhead(r: Run)
    requires IssueOk(r) && !Doubled(r.fetched, |r.fetched| - 1)
    ensures r.issued == Expand(r.fetched[..|r.fetched| - 1])
  {
  }

  lemma OrderedRun(program: Word -> Instr, r: Run)
    requires NoLoadAfterStore(program) && IssueOk(r) && FetchOk(program, r)
    ensures InOrder(r)
  {
    NoneDoubled(program, r.fetched, r.valid);
    IssuedAhead(r);
    NothingDoubledPrefix(r.fetched, |r.fetched| - 1);
    ExpandSame(r.fetched[..|r.fetched| - 1]);
  }

  lemma {:induction false} VisibleRun<M>(isa: Isa<M>, program: Word -> Instr, a: Arch<M>, r: Run<M>)
    requires InOrder(r) && IssueOk(r) && FetchOk(program, r) && StateOk(isa, a, r)
    ensures |Committed(r)| <= |r.valid|
    ensures Visible(r) == ExecAll(isa, a, Listing(program, Count(r.valid, |Committed(r)|)))
  {
    var n := |Committed(r)|;
    assert Committed(r) <= r.issued <= r.fetched;
    assert Committed(r) == r.fetched[..n];
    BubblesAreNops(program, r.fetched, r.valid, n);
    BubblesDoNothing(isa, a, r.fetched[..n], r.valid[..n]);
    AnsweredIsListing(program, r.fetched, r.valid, n);
  }

  /**
    The in-order theorem.  For every program of the class in which no load
    directly follows a store, every fetch rhythm, every bus latency and every
    number of cycles, the registers (with the WB instruction applied) and the
    memory are those after the first n instructions of the program, where n counts
    the committed ones.
   */
  lemma RunsInProgramOrder<M>(
    isa: Isa<M>, program: Word -> Instr, regs: RegFile, mem: M, inputs: seq<Input>)
    requires forall p :: InClass(program(p))
    requires NoLoadAfterStore(program)
    ensures var r := RunAll(isa, program, regs, mem, inputs);
            && InOrder(r)
            && |Committed(r)| <= |r.valid|
            && Visible(r) == ExecAll(isa, Arch(regs, mem), Listing(program, Count(r.valid, |Committed(r)|)))
  {
    var r := RunAll(isa, program, regs, mem, inputs);
    IssuesExpansion(isa, program, regs, mem, inputs);
    FetchesProgram(isa, program, regs, mem, inputs);
    ExecutesWhatItIssued(isa, program, regs, mem, inputs);
    OrderedRun(program, r);
    VisibleRun(isa, program, Arch(regs, mem), r);
  }

  // ---------------------------------------------------------------- the condition is exact

  /** A bus and an instruction memory that always answer, with fetch bubbles from `limit` on. */
  function Drive(r: Run, limit: nat): Input { Input(|r.fetched| < limit, true, true, true) }

  /** How many more cycles ID can be held under `Drive`. */
  function Held(r: Run): nat {
    (if r.cpu.idEx.instr == BUBBLE then 0
     else if r.fetched != [] && Repeating(r, |r.fetched| - 1) then 2 else 4) +
    (if r.cpu.mem.state.MemIdle? && (r.cpu.exMem.instr.memRead || r.cpu.exMem.instr.memWrite) then 1 else 0)
  }

  lemma HeldFalls<M>(isa: Isa<M>, program: Word -> Instr, r: Run<M>, limit: nat)
    requires IssueOk(r) && !Advances(isa, r, Drive(r, limit))
    ensures Held(Cycle(isa, program, r, Drive(r, limit))) < Held(r)
  {
    HazardsInClass(r.cpu);
    HoldStep(isa, program, r, Drive(r, limit));
  }

  /** The first instruction held by IF2ID is its reset value; after it, fetches below `limit` were answered. */
  predicate ValidBelow(v: seq<bool>, limit: nat) {
    v != [] && !v[0] && forall k | 0 < k < |v| :: v[k] == (k < limit)
  }

  /** Some inputs bring the pipeline to hold the n-th fetch in ID. */
  lemma {:induction false} Reach<M>(
    isa: Isa<M>, program: Word -> Instr, regs: RegFile, mem: M, limit: nat, n: nat, prefix: seq<Input>)
    returns (inputs: seq<Input>)
    requires forall p :: InClass(program(p))
    requires var r := RunAll(isa, program, regs, mem, prefix);
             |r.fetched| <= n && |r.fetched| == |r.valid| && ValidBelow(r.valid, limit)
    ensures var r := RunAll(isa, program, regs, mem, inputs);
            |r.fetched| == n && |r.fetched| == |r.valid| && ValidBelow(r.valid, limit)
    decreases n - |RunAll(isa, program, regs, mem, prefix).fetched|,
              Held(RunAll(isa, program, regs, mem, prefix))
  {
    var r := RunAll(isa, program, regs, mem, prefix);
    if |r.fetched| == n { return prefix; }
    var longer := prefix + [Drive(r, limit)];
    assert longer[..|longer| - 1] == prefix;
    IssuesExpansion(isa, program, regs, mem, prefix);
    if !Advances(isa, r, Drive(r, limit)) { HeldFalls(isa, program, r, limit); }
    inputs := Reach(isa, program, regs, mem, limit, n, longer);
  }

  lemma {:induction false} CountBelow(v: seq<bool>, limit: nat, n: nat)
    requires ValidBelow(v, limit) && 1 <= n <= |v| && n <= limit
    ensures Count(v, n) == n - 1
  {
    if n > 1 { CountBelow(v, limit, n - 1); }
  }

  lemma {:induction false} PairRun(program: Word -> Instr, r: Run, k: nat)
    requires program(Address(k)).memWrite && program(Address(k + 1)).memRead
    requires IssueOk(r) && FetchOk(program, r) && |r.fetched| == k + 5 && ValidBelow(r.valid, k + 3)
    ensures !InOrder(r)
  {
    var f, v := r.fetched, r.valid;
    var left := f[..k + 4];
    assert FetchedAt(program, f, v, k + 1) && FetchedAt(program, f, v, k + 2) && FetchedAt(program, f, v, k + 3);
    CountBelow(v, k + 3, k + 1);
    CountBelow(v, k + 3, k + 2);
    assert Doubled(left, k + 3);
    ExpandLonger(left, k + 3);
    assert |r.issued| >= |Expand(left)|;
  }

  /** A store; load pair and a fetch bubble behind it: the bubble is captured twice. */
  lemma PairBreaksOrder<M>(isa: Isa<M>, program: Word -> Instr, regs: RegFile, mem: M, k: nat)
    returns (inputs: seq<Input>)
    requires forall p :: InClass(program(p))
    requires program(Address(k)).memWrite && program(Address(k + 1)).memRead
    ensures !InOrder(RunAll(isa, program, regs, mem, inputs))
  {
    inputs := Reach(isa, program, regs, mem, k + 3, k + 5, []);
    IssuesExpansion(isa, program, regs, mem, inputs);
    FetchesProgram(isa, program, regs, mem, inputs);
    PairRun(program, RunAll(isa, program, regs, mem, inputs), k);
  }

  /** Issue is in order over every run exactly when the program has no load directly after a store. */
  lemma InOrderExactlyWhen<M>(isa: Isa<M>, program: Word -> Instr, regs: RegFile, mem: M)
    requires forall p :: InClass(program(p))
    ensures NoLoadAfterStore(program) <==>
            forall inputs :: InOrder(RunAll(isa, program, regs, mem, inputs))
  {
    if NoLoadAfterStore(program) {
      forall inputs ensures InOrder(RunAll(isa, program, regs, mem, inputs)) {
        RunsInProgramOrder(isa, program, regs, mem, inputs);
      }
    } else {
      var k: nat :| program(Address(k)).memWrite && program(Address(k + 1)).memRead;
      var inputs := PairBreaksOrder(isa, program, regs, mem, k);
    }
  }
}
