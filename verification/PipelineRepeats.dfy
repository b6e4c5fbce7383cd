/**
  What capturing an instruction twice does to a program's result.  An instruction
  that follows a store and then a load it does not depend on may be executed
  twice; the registers and memory are those of the program executed one
  instruction at a time exactly when every such instruction, at the point where
  the program reaches it, does the same done twice as done once.
 */
module PipelineRepeats {
  import opened Words
  import opened PipelineCpu
  import opened PipelineInOrder
  import opened PipelineIssue
  import opened PipelineProgram

  /** Instruction k + 2 of the program is the one that can be captured twice. */
  predicate Repeated(program: Word -> Instr, k: nat) {
    && program(Address(k)).memWrite && program(Address(k + 1)).memRead
    && !Matches(program(Address(k + 1)).rd, program(Address(k + 2)))
  }

  ghost predicate Idempotent<M>(isa: Isa<M>, a: Arch<M>, i: Instr) {
    ExecOne(isa, ExecOne(isa, a, i), i) == ExecOne(isa, a, i)
  }

  /** The state in which the program reaches its n-th instruction. */
  ghost function At<M>(isa: Isa<M>, a: Arch<M>, program: Word -> Instr, n: nat): Arch<M> {
    ExecAll(isa, a, Listing(program, n))
  }

  ghost predicate Harmless<M>(isa: Isa<M>, a: Arch<M>, program: Word -> Instr, k: nat) {
    Repeated(program, k) ==> Idempotent(isa, At(isa, a, program, k + 2), program(Address(k + 2)))
  }

  /** Every instruction that can be captured twice does the same done twice. */
  ghost predicate RepeatsHarmless<M>(isa: Isa<M>, a: Arch<M>, program: Word -> Instr) {
    forall k: nat :: Harmless(isa, a, program, k)
  }

  /** How many of the fetched instructions the first c issued ones have begun: copies count once. */
  function Begun(f: seq<Instr>, c: nat): nat {
    if f == [] then 0 else if |Expand(f[..|f| - 1])| >= c then Begun(f[..|f| - 1], c) else |f|
  }

  /** How many instructions of the program have taken effect. */
  function Progress<M>(r: Run<M>): nat {
    var n := Begun(r.fetched, |Committed(r)|);
    if n <= |r.valid| then Count(r.valid, n) else 0
  }

  /** The visible state is that of the program executed one instruction at a time, as far as it has got. */
  ghost predicate Sequential<M>(isa: Isa<M>, program: Word -> Instr, a: Arch<M>, r: Run<M>) {
    Visible(r) == At(isa, a, program, Progress(r))
  }

  // ---------------------------------------------------------------- expansions

  lemma {:induction false} ExpandStep(f: seq<Instr>, n: nat)
    requires 0 < n <= |f|
    ensures Expand(f[..n]) == Expand(f[..n - 1]) + if Doubled(f, n - 1) then [f[n - 1], f[n - 1]] else [f[n - 1]]
  {
    assert f[..n][..n - 1] == f[..n - 1];
    ExpandLast(f[..n], n - 1);
  }

  lemma {:induction false} ExpandPrefix(f: seq<Instr>, m: nat)
    requires m <= |f|
    ensures Expand(f[..m]) <= Expand(f) && |Expand(f)| >= |Expand(f[..m])| + (|f| - m)
    decreases |f|
  {
    if m == |f| {
      assert f[..m] == f;
    } else {
      ExpandPrefix(f[..|f| - 1], m);
      assert f[..|f| - 1][..m] == f[..m];
      ExpandLast(f, |f| - 1);
    }
  }

  lemma {:induction false} ExpandSize(f: seq<Instr>)
    ensures |Expand(f)| <= 2 * |f|
  {
    if f != [] {
      ExpandSize(f[..|f| - 1]);
    }
  }

  lemma {:induction false} BegunAll(f: seq<Instr>)
    ensures Begun(f, |Expand(f)|) == |f|
  {
    if f != [] {
      ExpandPrefix(f, |f| - 1);
    }
  }

  lemma {:induction false} BegunPrefix(f: seq<Instr>, m: nat)
    requires m <= |f|
    ensures Begun(f, |Expand(f[..m])|) == m
    decreases |f|
  {
    if m == |f| {
      assert f[..m] == f;
      BegunAll(f);
    } else {
      var g := f[..|f| - 1];
      assert g[..m] == f[..m];
      ExpandPrefix(g, m);
      BegunPrefix(g, m);
    }
  }

  lemma {:induction false} BegunBound(f: seq<Instr>, c: nat)
    ensures Begun(f, c) <= |f|
  {
    if f != [] {
      BegunBound(f[..|f| - 1], c);
    }
  }

  /** Execution with any one-instruction step. */
  function Fold<A>(step: (A, Instr) -> A, a: A, p: seq<Instr>): A {
    if p == [] then a else step(Fold(step, a, p[..|p| - 1]), p[|p| - 1])
  }

  lemma FoldSnoc<A>(step: (A, Instr) -> A, a: A, p: seq<Instr>, i: Instr)
    ensures Fold(step, a, p + [i]) == step(Fold(step, a, p), i)
    ensures Fold(step, a, p + [i, i]) == step(step(Fold(step, a, p), i), i)
  {
    assert (p + [i])[..|p|] == p;
    assert (p + [i, i])[..|p| + 1] == p + [i];
  }

  ghost predicate AllIdempotent<A>(step: (A, Instr) -> A, a: A, f: seq<Instr>) {
    forall k | 0 <= k < |f| && Doubled(f, k) ::
      step(step(Fold(step, a, f[..k]), f[k]), f[k]) == step(Fold(step, a, f[..k]), f[k])
  }

  lemma IdempotentPrefix<A>(step: (A, Instr) -> A, a: A, f: seq<Instr>, n: nat)
    requires AllIdempotent(step, a, f) && n <= |f|
    ensures AllIdempotent(step, a, f[..n])
  {
    forall k | 0 <= k < n && Doubled(f[..n], k)
      ensures f[..n][..k] == f[..k] && Doubled(f, k)
    {
    }
  }

  /** The last fetched instruction, executed once or twice. */
  lemma LastCopies<A>(step: (A, Instr) -> A, a: A, f: seq<Instr>, c: nat)
    requires f != [] && AllIdempotent(step, a, f) && |Expand(f[..|f| - 1])| < c <= |Expand(f)|
    requires Fold(step, a, Expand(f[..|f| - 1])) == Fold(step, a, f[..|f| - 1])
    ensures Fold(step, a, Expand(f)[..c]) == Fold(step, a, f)
  {
    var n := |f| - 1;
    var e, i := Expand(f[..n]), f[n];
    ExpandLast(f, n);
    FoldSnoc(step, a, e, i);
    assert Expand(f)[..c] == if c == |e| + 1 then e + [i] else e + [i, i];
  }

  ghost predicate Agrees<A>(step: (A, Instr) -> A, a: A, f: seq<Instr>, c: nat) {
    c <= |Expand(f)| && Begun(f, c) <= |f| && Fold(step, a, Expand(f)[..c]) == Fold(step, a, f[..Begun(f, c)])
  }

  lemma EarlierPrefix(f: seq<Instr>, c: nat)
    requires f != [] && c <= |Expand(f[..|f| - 1])|
    ensures var g := f[..|f| - 1];
            && c <= |Expand(f)| && Expand(f)[..c] == Expand(g)[..c]
            && Begun(f, c) == Begun(g, c) <= |g| && f[..Begun(f, c)] == g[..Begun(g, c)]
  {
    var g := f[..|f| - 1];
    ExpandPrefix(f, |f| - 1);
    BegunBound(g, c);
    assert f[..Begun(g, c)] == g[..Begun(g, c)];
  }

  lemma AgreesEarlier<A>(step: (A, Instr) -> A, a: A, f: seq<Instr>, c: nat)
    requires f != [] && Agrees(step, a, f[..|f| - 1], c)
    ensures Agrees(step, a, f, c)
  {
    EarlierPrefix(f, c);
  }

  lemma AgreesLonger<A>(step: (A, Instr) -> A, a: A, f: seq<Instr>, c: nat)
    requires f != [] && AllIdempotent(step, a, f) && |Expand(f[..|f| - 1])| < c <= |Expand(f)|
    requires Agrees(step, a, f[..|f| - 1], |Expand(f[..|f| - 1])|)
    ensures Agrees(step, a, f, c)
  {
    var g := f[..|f| - 1];
    BegunAll(g);
    assert Expand(g)[..|Expand(g)|] == Expand(g) && g[..|g|] == g && f[..|f|] == f;
    LastCopies(step, a, f, c);
  }

  /** If all doubled instructions are idempotent, what was issued does what the begun instructions do. */
  lemma {:induction false} ExpansionHarmless<A>(step: (A, Instr) -> A, a: A, f: seq<Instr>, c: nat)
    requires AllIdempotent(step, a, f) && c <= |Expand(f)|
    ensures Agrees(step, a, f, c)
    decreases |f|
  {
    if f == [] {
      assert Expand(f)[..c] == [] && f[..0] == [];
    } else {
      var g := f[..|f| - 1];
      IdempotentPrefix(step, a, f, |f| - 1);
      if c <= |Expand(g)| {
        ExpansionHarmless(step, a, g, c);
        AgreesEarlier(step, a, f, c);
      } else {
        ExpansionHarmless(step, a, g, |Expand(g)|);
        AgreesLonger(step, a, f, c);
      }
    }
  }

  function StepOf<M>(isa: Isa<M>): (Arch<M>, Instr) -> Arch<M> { (a, i) => ExecOne(isa, a, i) }

  lemma {:induction false} ExecAllFolds<M>(isa: Isa<M>, a: Arch<M>, p: seq<Instr>)
    ensures ExecAll(isa, a, p) == Fold(StepOf(isa), a, p)
  {
    if p != [] {
      ExecAllFolds(isa, a, p[..|p| - 1]);
    }
  }

  /** The same of execution by the instruction set. */
  lemma IssuedDoesBegun<M>(isa: Isa<M>, a: Arch<M>, f: seq<Instr>, c: nat)
    requires c <= |Expand(f)|
    requires forall k | 0 <= k < |f| && Doubled(f, k) :: Idempotent(isa, ExecAll(isa, a, f[..k]), f[k])
    ensures Begun(f, c) <= |f| && ExecAll(isa, a, Expand(f)[..c]) == ExecAll(isa, a, f[..Begun(f, c)])
  {
    forall k | 0 <= k < |f| && Doubled(f, k)
      ensures StepOf(isa)(StepOf(isa)(Fold(StepOf(isa), a, f[..k]), f[k]), f[k]) == StepOf(isa)(Fold(StepOf(isa), a, f[..k]), f[k])
    {
      ExecAllFolds(isa, a, f[..k]);
      assert Idempotent(isa, ExecAll(isa, a, f[..k]), f[k]);
    }
    BegunBound(f, c);
    ExpansionHarmless(StepOf(isa), a, f, c);
    ExecAllFolds(isa, a, Expand(f)[..c]);
    ExecAllFolds(isa, a, f[..Begun(f, c)]);
  }

  // ---------------------------------------------------------------- the fetched program

  /** Fetched instructions up to the n-th have the effect of the answered ones, a beginning of the program. */
  lemma FetchedEffect<M>(isa: Isa<M>, a: Arch<M>, program: Word -> Instr, f: seq<Instr>, v: seq<bool>, n: nat)
    requires AllFetchedAt(program, f, v) && n <= |f|
    ensures ExecAll(isa, a, f[..n]) == At(isa, a, program, Count(v, n))
  {
    BubblesAreNops(program, f, v, n);
    BubblesDoNothing(isa, a, f[..n], v[..n]);
    AnsweredIsListing(program, f, v, n);
  }

  /** An instruction that is doubled is a bubble or one the program can repeat. */
  lemma DoubledIsRepeated(program: Word -> Instr, f: seq<Instr>, v: seq<bool>, k: nat)
    requires AllFetchedAt(program, f, v) && k < |f| && Doubled(f, k)
    ensures if v[k] then Count(v, k) >= 2 && Repeated(program, Count(v, k) - 2) && f[k] == program(Address(Count(v, k)))
            else f[k] == Nop(f[k].pc)
  {
    assert FetchedAt(program, f, v, k) && FetchedAt(program, f, v, k - 1) && FetchedAt(program, f, v, k - 2);
    assert v[k - 1] && v[k - 2];
    assert Count(v, k) == Count(v, k - 1) + 1 == Count(v, k - 2) + 2;
  }

  lemma AllDoubledIdempotent<M>(isa: Isa<M>, a: Arch<M>, program: Word -> Instr, f: seq<Instr>, v: seq<bool>)
    requires AllFetchedAt(program, f, v)
    requires forall k | 0 <= k < |f| && v[k] && Count(v, k) >= 2 :: Harmless(isa, a, program, Count(v, k) - 2)
    ensures forall k | 0 <= k < |f| && Doubled(f, k) :: Idempotent(isa, ExecAll(isa, a, f[..k]), f[k])
  {
    forall k | 0 <= k < |f| && Doubled(f, k) ensures Idempotent(isa, ExecAll(isa, a, f[..k]), f[k]) {
      DoubledIsRepeated(program, f, v, k);
      if v[k] {
        FetchedEffect(isa, a, program, f, v, k);
      } else {
        NopDoesNothing(isa, ExecAll(isa, a, f[..k]), f[k].pc);
      }
    }
  }

  /** What has been committed is a beginning of the expansion of what was fetched. */
  lemma CommittedIsExpansion<M>(r: Run<M>)
    requires IssueOk(r)
    ensures Committed(r) <= Expand(r.fetched)
  {
    var n := |r.fetched| - 1;
    ExpandLast(r.fetched, n);
    assert Committed(r) <= r.issued;
    assert r.issued <= Expand(r.fetched);
  }

  lemma SequentialIfHarmless<M>(isa: Isa<M>, program: Word -> Instr, a: Arch<M>, r: Run<M>)
    requires RepeatsHarmless(isa, a, program)
    requires IssueOk(r) && FetchOk(program, r) && StateOk(isa, a, r)
    ensures Sequential(isa, program, a, r)
  {
    var f, c := r.fetched, |Committed(r)|;
    AllDoubledIdempotent(isa, a, program, f, r.valid);
    CommittedIsExpansion(r);
    assert Committed(r) == Expand(f)[..c];
    IssuedDoesBegun(isa, a, f, c);
    FetchedEffect(isa, a, program, f, r.valid, Begun(f, c));
  }

  /**
    For every program whose repeated instructions are harmless, every fetch
    rhythm, bus latency and cycle count: registers and memory are those of a
    beginning of the program executed one instruction at a time.
   */
  lemma RunsSequentially<M>(isa: Isa<M>, program: Word -> Instr, regs: RegFile, mem: M, inputs: seq<Input>)
    requires forall p :: InClass(program(p))
    requires RepeatsHarmless(isa, Arch(regs, mem), program)
    ensures Sequential(isa, program, Arch(regs, mem), RunAll(isa, program, regs, mem, inputs))
  {
    IssuesExpansion(isa, program, regs, mem, inputs);
    FetchesProgram(isa, program, regs, mem, inputs);
    ExecutesWhatItIssued(isa, program, regs, mem, inputs);
    SequentialIfHarmless(isa, program, Arch(regs, mem), RunAll(isa, program, regs, mem, inputs));
  }

  // ---------------------------------------------------------------- the condition is exact

  function CommittedCount<M>(isa: Isa<M>, program: Word -> Instr, regs: RegFile, mem: M, inputs: seq<Input>): nat {
    |Committed(RunAll(isa, program, regs, mem, inputs))|
  }

  lemma CommitsNoneAtFirst<M>(isa: Isa<M>, program: Word -> Instr, regs: RegFile, mem: M)
    ensures CommittedCount(isa, program, regs, mem, []) == 0
  {
    var r := Start(regs, mem);
    assert Committed(r) == [];
  }

  lemma CommitsOne<M>(isa: Isa<M>, program: Word -> Instr, regs: RegFile, mem: M, inputs: seq<Input>)
    requires inputs != [] && forall p :: InClass(program(p))
    ensures CommittedCount(isa, program, regs, mem, inputs) <=
            CommittedCount(isa, program, regs, mem, inputs[..|inputs| - 1]) + 1
  {
    var before := inputs[..|inputs| - 1];
    ExecutesWhatItIssued(isa, program, regs, mem, before);
    EffectOnCommitted(isa, program, RunAll(isa, program, regs, mem, before), inputs[|inputs| - 1]);
  }

  /** A count that grows at most by one at a time passes every number up to its last. */
  lemma {:induction false} Passes(count: seq<Input> -> nat, inputs: seq<Input>, n: nat) returns (m: nat)
    requires count([]) == 0 && n <= count(inputs)
    requires forall s: seq<Input> | s != [] :: count(s) <= count(s[..|s| - 1]) + 1
    ensures m <= |inputs| && count(inputs[..m]) == n
    decreases |inputs|
  {
    if n == count(inputs) {
      m := |inputs|;
      assert inputs[..m] == inputs;
    } else {
      var before := inputs[..|inputs| - 1];
      m := Passes(count, before, n);
      assert before[..m] == inputs[..m];
    }
  }

  /** Instructions are committed one by one, so a run has passed every number up to its own. */
  lemma Midway<M>(isa: Isa<M>, program: Word -> Instr, regs: RegFile, mem: M, inputs: seq<Input>, n: nat)
    returns (m: nat)
    requires forall p :: InClass(program(p))
    requires n <= CommittedCount(isa, program, regs, mem, inputs)
    ensures m <= |inputs| && CommittedCount(isa, program, regs, mem, inputs[..m]) == n
  {
    var count := (s: seq<Input>) => CommittedCount(isa, program, regs, mem, s);
    forall s: seq<Input> | s != [] ensures count(s) <= count(s[..|s| - 1]) + 1 {
      CommitsOne(isa, program, regs, mem, s);
    }
    CommitsNoneAtFirst(isa, program, regs, mem);
    m := Passes(count, inputs, n);
    assert count(inputs[..m]) == n;
  }

  lemma {:induction false} FetchesGrow<M>(isa: Isa<M>, program: Word -> Instr, regs: RegFile, mem: M, inputs: seq<Input>, m: nat)
    requires m <= |inputs|
    ensures RunAll(isa, program, regs, mem, inputs[..m]).fetched <= RunAll(isa, program, regs, mem, inputs).fetched
    ensures RunAll(isa, program, regs, mem, inputs[..m]).valid <= RunAll(isa, program, regs, mem, inputs).valid
    decreases |inputs|
  {
    if m == |inputs| {
      assert inputs[..m] == inputs;
    } else {
      var before := inputs[..|inputs| - 1];
      assert before[..m] == inputs[..m];
      FetchesGrow(isa, program, regs, mem, before, m);
      CycleFetches(isa, program, RunAll(isa, program, regs, mem, before), inputs[|inputs| - 1]);
    }
  }

  /** By the time six more instructions were fetched, the copies before them have been committed. */
  lemma EnoughCommitted<M>(r: Run<M>, n: nat)
    requires IssueOk(r) && |r.fetched| == n + 3
    ensures |Expand(r.fetched[..n])| <= |Committed(r)|
  {
    var left := r.fetched[..n + 2];
    ExpandPrefix(left, n);
    assert left[..n] == r.fetched[..n];
    assert |r.issued| >= |Expand(left)|;
    assert |r.issued| <= |r.retired| + 2;
  }

  /** A run that has just committed what the first n fetches expand to. */
  lemma JustCommitted<M>(isa: Isa<M>, program: Word -> Instr, regs: RegFile, mem: M, n: nat) returns (inputs: seq<Input>)
    requires forall p :: InClass(program(p))
    ensures var r := RunAll(isa, program, regs, mem, inputs);
            n <= |r.fetched| == |r.valid| && Committed(r) == Expand(r.fetched[..n]) && ValidBelow(r.valid, n + 4)
  {
    var all := Reach(isa, program, regs, mem, n + 4, n + 3, []);
    var last := RunAll(isa, program, regs, mem, all);
    IssuesExpansion(isa, program, regs, mem, all);
    EnoughCommitted(last, n);
    var size := |Expand(last.fetched[..n])|;
    var m := Midway(isa, program, regs, mem, all, size);
    inputs := all[..m];
    FetchesGrow(isa, program, regs, mem, all, m);
    IssuesExpansion(isa, program, regs, mem, inputs);
    FetchesProgram(isa, program, regs, mem, inputs);
    CommittedExactly(RunAll(isa, program, regs, mem, inputs), last, n);
  }

  lemma ShorterExpands(g: seq<Instr>, f: seq<Instr>)
    requires g < f
    ensures |Expand(g)| < |Expand(f)|
  {
    ExpandPrefix(f, |g|);
    assert f[..|g|] == g;
  }

  lemma CommittedExactly<M>(r: Run<M>, last: Run<M>, n: nat)
    requires IssueOk(r) && n <= |last.fetched| && r.fetched <= last.fetched
    requires |Committed(r)| == |Expand(last.fetched[..n])|
    ensures n <= |r.fetched| && Committed(r) == Expand(r.fetched[..n])
  {
    CommittedIsExpansion(r);
    var f := last.fetched;
    if |r.fetched| < n {
      ShorterExpands(r.fetched, f[..n]);
    } else {
      assert f[..n] == r.fetched[..n];
      ExpandPrefix(r.fetched, n);
    }
  }

  /** At a harmful repetition with none before it, some run has executed the instruction twice and nothing after it. */
  lemma RunsTwice<M>(isa: Isa<M>, program: Word -> Instr, regs: RegFile, mem: M, k: nat) returns (inputs: seq<Input>)
    requires forall p :: InClass(program(p))
    requires Repeated(program, k) && forall j: nat | j < k :: Harmless(isa, Arch(regs, mem), program, j)
    ensures var a, r, i := Arch(regs, mem), RunAll(isa, program, regs, mem, inputs), program(Address(k + 2));
            && Progress(r) == k + 3 && |Committed(r)| <= 2 * (k + 4)
            && Visible(r) == ExecOne(isa, ExecOne(isa, At(isa, a, program, k + 2), i), i)
  {
    inputs := JustCommitted(isa, program, regs, mem, k + 4);
    IssuesExpansion(isa, program, regs, mem, inputs);
    FetchesProgram(isa, program, regs, mem, inputs);
    ExecutesWhatItIssued(isa, program, regs, mem, inputs);
    var r := RunAll(isa, program, regs, mem, inputs);
    TwiceProgress(program, r, k);
    ExpandSize(r.fetched[..k + 4]);
    TwiceState(isa, program, Arch(regs, mem), r.fetched, r.valid, k);
  }

  lemma ThirdIsDoubled(program: Word -> Instr, f: seq<Instr>, v: seq<bool>, k: nat)
    requires Repeated(program, k) && AllFetchedAt(program, f, v) && k + 4 <= |f| && ValidBelow(v, k + 8)
    ensures Doubled(f, k + 3) && f[k + 3] == program(Address(k + 2)) && Count(v, k + 4) == k + 3
  {
    CountBelow(v, k + 8, k + 4);
    CountBelow(v, k + 8, k + 3);
    CountBelow(v, k + 8, k + 2);
    CountBelow(v, k + 8, k + 1);
    assert FetchedAt(program, f, v, k + 1) && FetchedAt(program, f, v, k + 2) && FetchedAt(program, f, v, k + 3);
  }

  lemma TwiceState<M>(isa: Isa<M>, program: Word -> Instr, a: Arch<M>, f: seq<Instr>, v: seq<bool>, k: nat)
    requires Repeated(program, k) && forall j: nat | j < k :: Harmless(isa, a, program, j)
    requires AllFetchedAt(program, f, v) && k + 4 <= |f| && ValidBelow(v, k + 8)
    ensures var i := program(Address(k + 2));
            ExecAll(isa, a, Expand(f[..k + 4])) == ExecOne(isa, ExecOne(isa, At(isa, a, program, k + 2), i), i)
  {
    ThirdIsDoubled(program, f, v, k);
    ExpandStep(f, k + 4);
    HarmlessBefore(isa, program, a, f, v, k);
    ExecTwice(isa, a, Expand(f[..k + 3]), f[k + 3]);
  }

  lemma TwiceProgress<M>(program: Word -> Instr, r: Run<M>, k: nat)
    requires Repeated(program, k) && AllFetchedAt(program, r.fetched, r.valid)
    requires k + 4 <= |r.fetched| && Committed(r) == Expand(r.fetched[..k + 4]) && ValidBelow(r.valid, k + 8)
    ensures Progress(r) == k + 3
  {
    BegunPrefix(r.fetched, k + 4);
    ThirdIsDoubled(program, r.fetched, r.valid, k);
  }

  lemma ExecTwice<M>(isa: Isa<M>, a: Arch<M>, p: seq<Instr>, i: Instr)
    ensures ExecAll(isa, a, p + [i, i]) == ExecOne(isa, ExecOne(isa, ExecAll(isa, a, p), i), i)
  {
    assert p + [i, i] == p + [i] + [i];
    ExecSnoc(isa, a, p, i);
    ExecSnoc(isa, a, p + [i], i);
  }

  lemma FetchedPrefix(program: Word -> Instr, f: seq<Instr>, v: seq<bool>, n: nat)
    requires AllFetchedAt(program, f, v) && n <= |f|
    ensures AllFetchedAt(program, f[..n], v[..n])
  {
    forall j | 0 <= j < n ensures FetchedAt(program, f[..n], v[..n], j) {
      assert FetchedAt(program, f, v, j);
      CountWithin(v, n, j);
    }
  }

  /** Up to the instruction in question the copies have done no harm. */
  lemma HarmlessBefore<M>(isa: Isa<M>, program: Word -> Instr, a: Arch<M>, f: seq<Instr>, v: seq<bool>, k: nat)
    requires forall j: nat | j < k :: Harmless(isa, a, program, j)
    requires AllFetchedAt(program, f, v) && k + 4 <= |f| && ValidBelow(v, k + 8)
    ensures ExecAll(isa, a, Expand(f[..k + 3])) == At(isa, a, program, k + 2)
  {
    var g, w := f[..k + 3], v[..k + 3];
    FetchedPrefix(program, f, v, k + 3);
    forall j | 0 <= j < |g| && w[j] && Count(w, j) >= 2 ensures Harmless(isa, a, program, Count(w, j) - 2) {
      CountBelow(w, k + 8, j);
    }
    AllDoubledIdempotent(isa, a, program, g, w);
    ExpansionWhole(isa, a, g);
    FetchedEffect(isa, a, program, f, v, k + 3);
    CountBelow(v, k + 8, k + 3);
  }

  lemma ExpansionWhole<M>(isa: Isa<M>, a: Arch<M>, f: seq<Instr>)
    requires forall k | 0 <= k < |f| && Doubled(f, k) :: Idempotent(isa, ExecAll(isa, a, f[..k]), f[k])
    ensures ExecAll(isa, a, Expand(f)) == ExecAll(isa, a, f)
  {
    IssuedDoesBegun(isa, a, f, |Expand(f)|);
    BegunAll(f);
    assert Expand(f)[..|Expand(f)|] == Expand(f) && f[..|f|] == f;
  }

  lemma {:induction false} CountWithin(v: seq<bool>, m: nat, n: nat)
    requires n <= m <= |v|
    ensures Count(v[..m], n) == Count(v, n)
  {
    if n > 0 {
      CountWithin(v, m, n - 1);
    }
  }

  /** The first of the harmful repetitions. */
  lemma {:induction false} FirstHarmful<M>(isa: Isa<M>, a: Arch<M>, program: Word -> Instr, k: nat) returns (first: nat)
    requires !Harmless(isa, a, program, k)
    ensures !Harmless(isa, a, program, first) && forall j: nat | j < first :: Harmless(isa, a, program, j)
    decreases k
  {
    if j: nat :| j < k && !Harmless(isa, a, program, j) {
      first := FirstHarmful(isa, a, program, j);
    } else {
      first := k;
    }
  }

  lemma ProgressStep<M>(isa: Isa<M>, a: Arch<M>, program: Word -> Instr, n: nat)
    ensures At(isa, a, program, n + 1) == ExecOne(isa, At(isa, a, program, n), program(Address(n)))
  {
    ExecSnoc(isa, a, Listing(program, n), program(Address(n)));
  }

  lemma TwiceIsWrong<M>(isa: Isa<M>, program: Word -> Instr, a: Arch<M>, r: Run<M>, k: nat)
    requires !Harmless(isa, a, program, k) && Progress(r) == k + 3
    requires var i := program(Address(k + 2)); Visible(r) == ExecOne(isa, ExecOne(isa, At(isa, a, program, k + 2), i), i)
    ensures !Sequential(isa, program, a, r)
  {
    ProgressStep(isa, a, program, k + 2);
  }

  lemma HarmShows<M>(isa: Isa<M>, program: Word -> Instr, regs: RegFile, mem: M, k: nat) returns (inputs: seq<Input>)
    requires forall p :: InClass(program(p))
    requires !Harmless(isa, Arch(regs, mem), program, k)
    ensures !Sequential(isa, program, Arch(regs, mem), RunAll(isa, program, regs, mem, inputs))
  {
    var first := FirstHarmful(isa, Arch(regs, mem), program, k);
    inputs := RunsTwice(isa, program, regs, mem, first);
    TwiceIsWrong(isa, program, Arch(regs, mem), RunAll(isa, program, regs, mem, inputs), first);
  }

  /**
    For all functional units, programs and starting states: every run is
    sequential if and only if each instruction that can be captured twice does,
    where the program reaches it, the same done twice as done once.
   */
  lemma SequentialExactlyWhen<M>(isa: Isa<M>, program: Word -> Instr, regs: RegFile, mem: M)
    requires forall p :: InClass(program(p))
    ensures RepeatsHarmless(isa, Arch(regs, mem), program) <==>
            forall inputs :: Sequential(isa, program, Arch(regs, mem), RunAll(isa, program, regs, mem, inputs))
  {
    var a := Arch(regs, mem);
    if RepeatsHarmless(isa, a, program) {
      forall inputs ensures Sequential(isa, program, a, RunAll(isa, program, regs, mem, inputs)) {
        RunsSequentially(isa, program, regs, mem, inputs);
      }
    } else {
      var k: nat :| !Harmless(isa, a, program, k);
      var inputs := HarmShows(isa, program, regs, mem, k);
    }
  }

  // ---------------------------------------------------------------- harmless instructions

  /** Registers: the destination is not read.  Stores: the memory takes the same write twice as once. */
  ghost predicate RereadsNothing<M(!new)>(isa: Isa<M>, i: Instr) {
    if i.memWrite then forall m: M, p, w, s: Strobe :: isa.writeWord(isa.writeWord(m, p, w, s), p, w, s) == isa.writeWord(m, p, w, s)
    else i.rd == 0 || (i.rd != i.rs1 && i.rd != i.rs2)
  }

  /** An instruction that does not read its own destination does the same done twice, in every state. */
  lemma RereadsNothingIdempotent<M(!new)>(isa: Isa<M>, a: Arch<M>, i: Instr)
    requires InClass(i) && RereadsNothing(isa, i)
    ensures Idempotent(isa, a, i)
  {
    var b := ExecOne(isa, a, i);
    assert ReadReg(b.regs, i.rs1) == ReadReg(a.regs, i.rs1) && ReadReg(b.regs, i.rs2) == ReadReg(a.regs, i.rs2);
  }

  /** So a program need only see to the instruction after each store; load pair. */
  lemma SequentialIfNothingReread<M(!new)>(isa: Isa<M>, program: Word -> Instr, regs: RegFile, mem: M, inputs: seq<Input>)
    requires forall p :: InClass(program(p))
    requires forall k: nat | Repeated(program, k) :: RereadsNothing(isa, program(Address(k + 2)))
    ensures Sequential(isa, program, Arch(regs, mem), RunAll(isa, program, regs, mem, inputs))
  {
    forall k: nat ensures Harmless(isa, Arch(regs, mem), program, k) {
      if Repeated(program, k) {
        RereadsNothingIdempotent(isa, At(isa, Arch(regs, mem), program, k + 2), program(Address(k + 2)));
      }
    }
    RunsSequentially(isa, program, regs, mem, inputs);
  }
}
