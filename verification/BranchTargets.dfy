/** The direct-mapped branch target buffer with two-bit counters. */
module BranchTargets {
  import opened Basics
  import opened Words

  datatype Entry = Entry(valid: bool, tag: nat, target: Word, counter: nat)

  /** What the update port reports in one cycle. */
  datatype Event = Idle | Taken(pc: Word, target: Word) | NotTaken(pc: Word)

  /** The buffer ignores the two low bits of an address. */
  function Line(pc: Word): nat { pc / 4 }

  function Index(pc: Word, n: nat): (i: nat)
    requires n > 0
    ensures i < n
  {
    Line(pc) % n
  }

  function Tag(pc: Word, n: nat): nat
    requires n > 0
  {
    Line(pc) / n
  }

  function Reset(n: nat): (s: seq<Entry>) {
    seq(n, _ => Entry(false, 0, 0, 2))
  }

  predicate Hit(s: seq<Entry>, pc: Word)
    requires |s| > 0
  {
    var e := s[Index(pc, |s|)];
    e.valid && e.tag == Tag(pc, |s|)
  }

  predicate PredictsTaken(s: seq<Entry>, pc: Word)
    requires |s| > 0
  {
    Hit(s, pc) && s[Index(pc, |s|)].counter >= 2
  }

  function PredictedPc(s: seq<Entry>, pc: Word): Word
    requires |s| > 0
  {
    if PredictsTaken(s, pc) then s[Index(pc, |s|)].target else Wrap(pc + 4)
  }

  function Next(s: seq<Entry>, e: Event): (t: seq<Entry>)
    requires |s| > 0
    ensures |t| == |s|
  {
    match e
    case Idle => s
    case Taken(pc, target) =>
      var i := Index(pc, |s|);
      var counter := if !Hit(s, pc) then 2 else if s[i].counter == 3 then 3 else s[i].counter + 1;
      s[i := Entry(true, Tag(pc, |s|), target, counter)]
    case NotTaken(pc) =>
      var i := Index(pc, |s|);
      if !Hit(s, pc) then s
      else if s[i].counter == 1 then s[i := s[i].(valid := false)]
      else if s[i].counter > 1 then s[i := s[i].(counter := s[i].counter - 1)]
      else s
  }

  function Run(n: nat, es: seq<Event>): (s: seq<Entry>)
    requires n > 0
    ensures |s| == n
  {
    if es == [] then Reset(n) else Next(Run(n, es[..|es| - 1]), es[|es| - 1])
  }

  // ---------------------------------------------------------------- targets

  /** The target of the latest taken update of that line, remembered without bound. */
  function LatestTaken(es: seq<Event>, line: nat): Option<Word> {
    if es == [] then None
    else
      var e := es[|es| - 1];
      if e.Taken? && Line(e.pc) == line then Some(e.target) else LatestTaken(es[..|es| - 1], line)
  }

  lemma SameLine(a: Word, b: Word, n: nat)
    requires n > 0 && Index(a, n) == Index(b, n) && Tag(a, n) == Tag(b, n)
    ensures Line(a) == Line(b)
  {
    assert Line(a) == Tag(a, n) * n + Index(a, n);
    assert Line(b) == Tag(b, n) * n + Index(b, n);
  }

  lemma HitStep(s: seq<Entry>, e: Event, pc: Word)
    requires |s| > 0 && Hit(Next(s, e), pc)
    ensures if e.Taken? && Line(e.pc) == Line(pc) then Next(s, e)[Index(pc, |s|)].target == e.target
            else Hit(s, pc) && Next(s, e)[Index(pc, |s|)].target == s[Index(pc, |s|)].target
  {
    if !e.Idle? && Index(e.pc, |s|) == Index(pc, |s|) && Tag(e.pc, |s|) == Tag(pc, |s|) {
      SameLine(e.pc, pc, |s|);
    }
  }

  /** Over every run, a hit yields the target of the latest taken update of that very line: never another branch's. */
  lemma {:induction false} HitIsLatestTaken(n: nat, es: seq<Event>, pc: Word)
    requires n > 0 && Hit(Run(n, es), pc)
    ensures LatestTaken(es, Line(pc)) == Some(Run(n, es)[Index(pc, n)].target)
  {
    if es != [] {
      HitStep(Run(n, es[..|es| - 1]), es[|es| - 1], pc);
      if !(es[|es| - 1].Taken? && Line(es[|es| - 1].pc) == Line(pc)) {
        HitIsLatestTaken(n, es[..|es| - 1], pc);
      }
    }
  }

  /** Over every run the predicted address is that target when the branch is predicted taken, and the next word otherwise. */
  lemma PredictedAddress(n: nat, es: seq<Event>, pc: Word)
    requires n > 0
    ensures if PredictsTaken(Run(n, es), pc) then LatestTaken(es, Line(pc)) == Some(PredictedPc(Run(n, es), pc))
            else PredictedPc(Run(n, es), pc) == (pc + 4) % 0x1_0000_0000
  {
    if Hit(Run(n, es), pc) {
      HitIsLatestTaken(n, es, pc);
    }
  }

  /** Over every run, counters stay within two bits and a valid entry's counter is never 0. */
  lemma {:induction false} CountersBounded(n: nat, es: seq<Event>, i: nat)
    requires i < n
    ensures var e := Run(n, es)[i]; 1 <= e.counter <= 3
  {
    if es != [] {
      var s, e := Run(n, es[..|es| - 1]), es[|es| - 1];
      CountersBounded(n, es[..|es| - 1], i);
    }
  }

  // ---------------------------------------------------------------- directions

  /** What the buffer knows of a branch: 0 for a miss, else the counter. */
  function Strength(s: seq<Entry>, pc: Word): nat
    requires |s| > 0
  {
    if Hit(s, pc) then s[Index(pc, |s|)].counter else 0
  }

  function Adjust(c: nat, taken: bool): nat {
    if taken then (if c == 0 then 2 else if c >= 3 then 3 else c + 1)
    else if c <= 1 then 0 else c - 1
  }

  function StrengthAfter(c: nat, outcomes: seq<bool>): nat {
    if outcomes == [] then c
    else Adjust(StrengthAfter(c, outcomes[..|outcomes| - 1]), outcomes[|outcomes| - 1])
  }

  function Wrong(c: nat, outcomes: seq<bool>): nat {
    if outcomes == [] then 0
    else
      var before := outcomes[..|outcomes| - 1];
      Wrong(c, before) + if (StrengthAfter(c, before) >= 2) != outcomes[|outcomes| - 1] then 1 else 0
  }

  /** The directions the branch at that line took, in order. */
  function Outcomes(es: seq<Event>, line: nat): seq<bool> {
    if es == [] then []
    else
      var e := es[|es| - 1];
      Outcomes(es[..|es| - 1], line) + if e.Idle? || Line(e.pc) != line then [] else [e.Taken?]
  }

  /** How often the buffer's prediction differed from what the branch then did. */
  function Mispredictions(n: nat, es: seq<Event>, pc: Word): nat
    requires n > 0
  {
    if es == [] then 0
    else
      var e := es[|es| - 1];
      Mispredictions(n, es[..|es| - 1], pc)
      + if !e.Idle? && Line(e.pc) == Line(pc) && e.Taken? != PredictsTaken(Run(n, es[..|es| - 1]), pc) then 1 else 0
  }

  /** No other branch updates the entry that serves pc. */
  predicate Unaliased(n: nat, es: seq<Event>, pc: Word)
    requires n > 0
  {
    forall e | e in es && !e.Idle? :: Index(e.pc, n) == Index(pc, n) ==> Line(e.pc) == Line(pc)
  }

  lemma StrengthStep(s: seq<Entry>, e: Event, pc: Word)
    requires |s| > 0 && s[Index(pc, |s|)].counter <= 3
    requires Hit(s, pc) ==> s[Index(pc, |s|)].counter >= 1
    requires !e.Idle? && Index(e.pc, |s|) == Index(pc, |s|) ==> Line(e.pc) == Line(pc)
    ensures Strength(Next(s, e), pc)
         == if e.Idle? || Line(e.pc) != Line(pc) then Strength(s, pc) else Adjust(Strength(s, pc), e.Taken?)
  {
  }

  /** Whatever else runs, an unaliased branch's entry is one counter driven by its own outcomes. */
  lemma {:induction false} OneCounterPerBranch(n: nat, es: seq<Event>, pc: Word)
    requires n > 0 && Unaliased(n, es, pc)
    ensures Strength(Run(n, es), pc) == StrengthAfter(0, Outcomes(es, Line(pc)))
    ensures Mispredictions(n, es, pc) == Wrong(0, Outcomes(es, Line(pc)))
  {
    if es != [] {
      var before, e := es[..|es| - 1], es[|es| - 1];
      OneCounterPerBranch(n, before, pc);
      CountersBounded(n, before, Index(pc, n));
      StrengthStep(Run(n, before), e, pc);
      var outcomes := Outcomes(es, Line(pc));
      if !e.Idle? && Line(e.pc) == Line(pc) {
        assert outcomes[..|outcomes| - 1] == Outcomes(before, Line(pc));
      } else {
        assert outcomes == Outcomes(before, Line(pc));
      }
    }
  }

  function Repeat(b: bool, n: nat): (s: seq<bool>)
    ensures |s| == n
  {
    if n == 0 then [] else Repeat(b, n - 1) + [b]
  }

  /** k executions of a loop whose closing branch is taken n times and then falls through. */
  function Loop(n: nat, k: nat): seq<bool> {
    if k == 0 then [] else Loop(n, k - 1) + (Repeat(true, n) + [false])
  }

  lemma {:induction false} Continue(c: nat, a: seq<bool>, b: seq<bool>)
    ensures StrengthAfter(c, a + b) == StrengthAfter(StrengthAfter(c, a), b)
    ensures Wrong(c, a + b) == Wrong(c, a) + Wrong(StrengthAfter(c, a), b)
    decreases |b|
  {
    if b == [] {
      assert a + b == a;
    } else {
      Continue(c, a, b[..|b| - 1]);
      assert (a + b)[..|a + b| - 1] == a + b[..|b| - 1];
    }
  }

  lemma {:induction false} TakenRun(c: nat, n: nat)
    requires c <= 3 && n > 0
    ensures StrengthAfter(c, Repeat(true, n)) == if n > 1 || c >= 2 then 3 else 2
    ensures Wrong(c, Repeat(true, n)) == if c >= 2 then 0 else 1
  {
    assert Repeat(true, n)[..n - 1] == Repeat(true, n - 1);
    if n > 1 {
      TakenRun(c, n - 1);
    } else {
      assert Repeat(true, 1)[..0] == [];
    }
  }

  lemma OneLoop(c: nat, n: nat)
    requires c <= 2 && n > 0
    ensures var o := Repeat(true, n) + [false];
            && StrengthAfter(c, o) == (if n > 1 || c == 2 then 2 else 1)
            && Wrong(c, o) == if c == 2 then 1 else 2
  {
    var o := Repeat(true, n) + [false];
    TakenRun(c, n);
    assert o[..|o| - 1] == Repeat(true, n);
  }

  lemma {:induction false} LoopCost(n: nat, k: nat)
    requires n > 0 && k > 0
    ensures StrengthAfter(0, Loop(n, k)) == if n > 1 then 2 else 1
    ensures Wrong(0, Loop(n, k)) == if n > 1 then k + 1 else 2 * k
  {
    OneLoop(StrengthAfter(0, Loop(n, k - 1)), n) by {
      if k > 1 { LoopCost(n, k - 1); }
    }
    Continue(0, Loop(n, k - 1), Repeat(true, n) + [false]);
    if k > 1 { LoopCost(n, k - 1); }
  }

  /**
    * A loop branch taken n times and then not, executed k times from a miss with no aliasing updates, costs one
    * misprediction per exit and one for the first encounter; hysteresis pays only when n is at least 2.
    */
  lemma LoopMispredictions(entries: nat, es: seq<Event>, pc: Word, n: nat, k: nat)
    requires entries > 0 && n > 0 && k > 0
    requires Unaliased(entries, es, pc) && Outcomes(es, Line(pc)) == Loop(n, k)
    ensures Mispredictions(entries, es, pc) == if n > 1 then k + 1 else 2 * k
  {
    OneCounterPerBranch(entries, es, pc);
    LoopCost(n, k);
  }

  // ---------------------------------------------------------------- with aliasing

  /** A taken branch is predicted at once, to where it went. */
  lemma TakenIsLearnt(n: nat, es: seq<Event>, pc: Word, target: Word)
    requires n > 0
    ensures PredictsTaken(Run(n, es + [Taken(pc, target)]), pc) && PredictedPc(Run(n, es + [Taken(pc, target)]), pc) == target
  {
    assert (es + [Taken(pc, target)])[..|es|] == es;
    CountersInRange(n, es);
  }

  lemma CountersInRange(n: nat, es: seq<Event>)
    requires n > 0
    ensures forall i | 0 <= i < n :: 1 <= Run(n, es)[i].counter <= 3
  {
    forall i | 0 <= i < n ensures 1 <= Run(n, es)[i].counter <= 3 {
      CountersBounded(n, es, i);
    }
  }

  /**
    What is known of an instruction after any updates: its own outcomes adjust it,
    a taken branch elsewhere that falls on the same entry makes it forgotten.
   */
  function KnownAfter(n: nat, es: seq<Event>, pc: Word): nat
    requires n > 0
  {
    if es == [] then 0
    else
      var k, e := KnownAfter(n, es[..|es| - 1], pc), es[|es| - 1];
      if e.Idle? || e.pc / 4 % n != pc / 4 % n then k
      else if e.pc / 4 == pc / 4 then Adjust(k, e.Taken?)
      else if e.Taken? then 0 else k
  }

  lemma KnownStep(s: seq<Entry>, e: Event, pc: Word)
    requires |s| > 0 && 1 <= s[Index(pc, |s|)].counter <= 3
    ensures Strength(Next(s, e), pc) ==
            if e.Idle? || e.pc / 4 % |s| != pc / 4 % |s| then Strength(s, pc)
            else if e.pc / 4 == pc / 4 then Adjust(Strength(s, pc), e.Taken?)
            else if e.Taken? then 0 else Strength(s, pc)
  {
    if !e.Idle? && Index(e.pc, |s|) == Index(pc, |s|) && Tag(e.pc, |s|) == Tag(pc, |s|) {
      SameLine(e.pc, pc, |s|);
    }
  }

  /** Over every update sequence, aliasing or not: the direction is what that says, and the target the latest taken one. */
  lemma {:induction false} PredictsKnown(n: nat, es: seq<Event>, pc: Word)
    requires n > 0
    ensures Strength(Run(n, es), pc) == KnownAfter(n, es, pc)
    ensures PredictsTaken(Run(n, es), pc) <==> KnownAfter(n, es, pc) >= 2
    ensures KnownAfter(n, es, pc) >= 2 ==> LatestTaken(es, pc / 4) == Some(PredictedPc(Run(n, es), pc))
    ensures KnownAfter(n, es, pc) < 2 ==> PredictedPc(Run(n, es), pc) == (pc + 4) % 0x1_0000_0000
  {
    if es != [] {
      PredictsKnown(n, es[..|es| - 1], pc);
      CountersInRange(n, es[..|es| - 1]);
      KnownStep(Run(n, es[..|es| - 1]), es[|es| - 1], pc);
    }
    PredictedAddress(n, es, pc);
  }

  // ---------------------------------------------------------------- the clocked object

  class BranchTargetBuffer {
    const valid: array<bool>
    const tags: array<nat>
    const targets: array<Word>
    const counters: array<nat>

    ghost predicate Valid() {
      && valid.Length > 0
      && tags.Length == targets.Length == counters.Length == valid.Length
      && tags != counters
    }

    ghost function Entries(): (s: seq<Entry>)
      requires Valid()
      reads valid, tags, targets, counters
      ensures |s| == valid.Length
    {
      seq(valid.Length, i requires 0 <= i < valid.Length reads valid, tags, targets, counters =>
        Entry(valid[i], tags[i], targets[i], counters[i]))
    }

    constructor (n: nat)
      requires n > 0
      ensures Valid() && Entries() == Reset(n)
      ensures fresh(valid) && fresh(tags) && fresh(targets) && fresh(counters)
    {
      valid := new bool[n](_ => false);
      tags := new nat[n](_ => 0);
      targets := new Word[n](_ => 0);
      counters := new nat[n](_ => 2);
    }

    method Predict(pc: Word) returns (taken: bool, next: Word)
      requires Valid()
      ensures taken == PredictsTaken(Entries(), pc) && next == PredictedPc(Entries(), pc)
    {
      var i := Index(pc, valid.Length);
      taken := valid[i] && tags[i] == Tag(pc, valid.Length) && counters[i] >= 2;
      next := if taken then targets[i] else Wrap(pc + 4);
    }

    method Clock(e: Event)
      requires Valid()
      modifies valid, tags, targets, counters
      ensures Entries() == Next(old(Entries()), e)
    {
      if !e.Idle? {
        var i := Index(e.pc, valid.Length);
        var hit := valid[i] && tags[i] == Tag(e.pc, valid.Length);
        if e.Taken? {
          counters[i] := if !hit then 2 else if counters[i] == 3 then 3 else counters[i] + 1;
          valid[i], tags[i], targets[i] := true, Tag(e.pc, valid.Length), e.target;
        } else if hit {
          if counters[i] == 1 {
            valid[i] := false;
          } else if counters[i] > 1 {
            counters[i] := counters[i] - 1;
          }
        }
      }
    }
  }

  lemma RunNext(n: nat, es: seq<Event>, i: nat)
    requires n > 0 && i < |es|
    ensures es[..i + 1][..i] == es[..i] && Run(n, es[..i + 1]) == Next(Run(n, es[..i]), es[i])
  {
    assert es[..i + 1][..i] == es[..i];
  }

  /** A new buffer clocked through any updates: where it sends a fetch. */
  method PredictAfter(n: nat, es: seq<Event>, pc: Word) returns (taken: bool, next: Word)
    requires n > 0
    ensures if taken then LatestTaken(es, Line(pc)) == Some(next) else next == (pc + 4) % 0x1_0000_0000
    ensures taken <==> KnownAfter(n, es, pc) >= 2
    ensures Unaliased(n, es, pc) ==> (taken <==> StrengthAfter(0, Outcomes(es, Line(pc))) >= 2)
  {
    var b := new BranchTargetBuffer(n);
    var i := 0;
    while i < |es|
      invariant 0 <= i <= |es| && b.Valid() && b.Entries() == Run(n, es[..i])
      invariant fresh(b.valid) && fresh(b.tags) && fresh(b.targets) && fresh(b.counters)
    {
      RunNext(n, es, i);
      b.Clock(es[i]);
      i := i + 1;
    }
    assert es[..i] == es;
    taken, next := b.Predict(pc);
    PredictsKnown(n, es, pc);
    if Unaliased(n, es, pc) {
      OneCounterPerBranch(n, es, pc);
    }
  }

  /** A new buffer asked before each update of a branch, and how often it was wrong. */
  method CountWrong(n: nat, es: seq<Event>, pc: Word) returns (wrong: nat)
    requires n > 0
    ensures wrong == Mispredictions(n, es, pc)
    ensures Unaliased(n, es, pc) ==> wrong == Wrong(0, Outcomes(es, Line(pc)))
  {
    var b := new BranchTargetBuffer(n);
    var i := 0;
    wrong := 0;
    while i < |es|
      invariant 0 <= i <= |es| && b.Valid() && b.Entries() == Run(n, es[..i])
      invariant fresh(b.valid) && fresh(b.tags) && fresh(b.targets) && fresh(b.counters)
      invariant wrong == Mispredictions(n, es[..i], pc)
    {
      RunNext(n, es, i);
      var taken, _ := b.Predict(pc);
      if !es[i].Idle? && Line(es[i].pc) == Line(pc) && es[i].Taken? != taken {
        wrong := wrong + 1;
      }
      b.Clock(es[i]);
      i := i + 1;
    }
    assert es[..i] == es;
    if Unaliased(n, es, pc) {
      OneCounterPerBranch(n, es, pc);
    }
  }
}
