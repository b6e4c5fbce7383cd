/** The return address stack against an unbounded call stack. */
module ReturnStack {
  import opened Basics
  import opened Words

  /** In one cycle: a call pushes, a fetched return pops. */
  datatype Command = Command(push: bool, address: Word, pop: bool)

  function DropLast(s: seq<Word>): seq<Word> { if s == [] then [] else s[..|s| - 1] }

  /** A full stack forgets its oldest entry. */
  function Push(c: seq<Word>, depth: nat, a: Word): seq<Word> {
    if |c| < depth then c + [a] else if c == [] then [] else c[1..] + [a]
  }

  /** The valid entries, oldest first, after one cycle without restore. */
  function Next(c: seq<Word>, depth: nat, m: Command): seq<Word> {
    if m.push && m.pop then (if c == [] then [] else DropLast(c) + [m.address])
    else if m.push then Push(c, depth, m.address)
    else if m.pop then DropLast(c)
    else c
  }

  /** The stack a program's calls and returns would build with unlimited room; push and pop at once replace the top. */
  function Ideal(s: seq<Word>, m: Command): seq<Word> {
    var popped := if m.pop then DropLast(s) else s;
    if m.push then popped + [m.address] else popped
  }

  function Run(depth: nat, ms: seq<Command>): seq<Word> {
    if ms == [] then [] else Next(Run(depth, ms[..|ms| - 1]), depth, ms[|ms| - 1])
  }

  function IdealRun(ms: seq<Command>): seq<Word> {
    if ms == [] then [] else Ideal(IdealRun(ms[..|ms| - 1]), ms[|ms| - 1])
  }

  predicate IsSuffix(s: seq<Word>, t: seq<Word>) {
    |s| <= |t| && forall i | 0 <= i < |s| :: s[i] == t[|t| - |s| + i]
  }

  lemma SuffixStep(c: seq<Word>, s: seq<Word>, depth: nat, m: Command)
    requires IsSuffix(c, s) && |c| <= depth && depth > 0
    ensures IsSuffix(Next(c, depth, m), Ideal(s, m)) && |Next(c, depth, m)| <= depth
  {
  }

  /** Over every run the entries are the top of the ideal stack, so a valid prediction is its top. */
  lemma {:induction false} PredictsIdealTop(depth: nat, ms: seq<Command>)
    requires depth > 0
    ensures var c, s := Run(depth, ms), IdealRun(ms);
            && |c| <= depth && IsSuffix(c, s)
            && (c != [] ==> s != [] && c[|c| - 1] == s[|s| - 1])
  {
    if ms != [] {
      PredictsIdealTop(depth, ms[..|ms| - 1]);
      SuffixStep(Run(depth, ms[..|ms| - 1]), IdealRun(ms[..|ms| - 1]), depth, ms[|ms| - 1]);
    }
  }

  // ---------------------------------------------------------------- balanced calls

  /** A balanced call tree: call, what the callee does, return, and what follows. */
  datatype Calls = Nothing | Call(address: Word, inner: Calls, rest: Calls)

  function Nesting(t: Calls): nat {
    match t
    case Nothing => 0
    case Call(_, inner, rest) => Max(1 + Nesting(inner), Nesting(rest))
  }

  /** The entries once every call of t has been pushed and every return has popped. */
  function Perform(c: seq<Word>, depth: nat, t: Calls): seq<Word>
    decreases t
  {
    match t
    case Nothing => c
    case Call(a, inner, rest) =>
      var called := Push(c, depth, a);
      var back := Perform(called, depth, inner);
      Perform(DropLast(back), depth, rest)
  }

  /** Every return finds the address its call pushed on top. */
  predicate AllPredicted(c: seq<Word>, depth: nat, t: Calls)
    decreases t
  {
    match t
    case Nothing => true
    case Call(a, inner, rest) =>
      var called := Push(c, depth, a);
      var back := Perform(called, depth, inner);
      && AllPredicted(called, depth, inner)
      && back != [] && back[|back| - 1] == a
      && AllPredicted(DropLast(back), depth, rest)
  }

  lemma PushSuffix(c: seq<Word>, s: seq<Word>, depth: nat, a: Word)
    requires IsSuffix(c, s) && |c| <= depth && depth > 0
    ensures IsSuffix(Push(c, depth, a), s + [a]) && |Push(c, depth, a)| == Min(|c| + 1, depth)
  {
  }

  lemma PopSuffix(c: seq<Word>, s: seq<Word>, a: Word)
    requires IsSuffix(c, s + [a]) && c != []
    ensures c[|c| - 1] == a && IsSuffix(DropLast(c), s) && |DropLast(c)| == |c| - 1
  {
  }

  /** A call whose callee leaves `back` continues with what a pop makes of it. */
  lemma PerformCall(c: seq<Word>, depth: nat, t: Calls, back: seq<Word>)
    requires t.Call? && back == Perform(Push(c, depth, t.address), depth, t.inner)
    ensures Perform(c, depth, t) == Perform(DropLast(back), depth, t.rest)
    ensures AllPredicted(c, depth, t) <==>
            && AllPredicted(Push(c, depth, t.address), depth, t.inner)
            && back != [] && back[|back| - 1] == t.address
            && AllPredicted(DropLast(back), depth, t.rest)
  {
  }

  lemma SurvivingLevels(c: nat, depth: nat, n: nat, m: nat)
    requires n < depth && m <= depth
    ensures Min(Min(Min(c + 1, depth), depth - n) - 1, depth - m) == Min(c, depth - Max(1 + n, m))
  {
  }

  /** How many entries survive, step by step. */
  lemma {:induction false} SurvivingAfter(c: seq<Word>, depth: nat, t: Calls)
    requires |c| <= depth && Nesting(t) <= depth
    ensures |Perform(c, depth, t)| == Min(|c|, depth - Nesting(t))
    decreases t
  {
    match t
    case Nothing =>
    case Call(a, inner, rest) =>
      var called := Push(c, depth, a);
      SurvivingAfter(called, depth, inner);
      var back := Perform(called, depth, inner);
      SurvivingAfter(DropLast(back), depth, rest);
      SurvivingLevels(|c|, depth, Nesting(inner), Nesting(rest));
  }

  lemma {:induction false} BalancedFrom(c: seq<Word>, s: seq<Word>, depth: nat, t: Calls)
    requires IsSuffix(c, s) && |c| <= depth && Nesting(t) <= depth
    ensures IsSuffix(Perform(c, depth, t), s)
    ensures AllPredicted(c, depth, t)
    decreases t
  {
    if t.Call? {
      PushSuffix(c, s, depth, t.address);
      var called := Push(c, depth, t.address);
      BalancedFrom(called, s + [t.address], depth, t.inner);
      var back := Perform(called, depth, t.inner);
      SurvivingAfter(called, depth, t.inner);
      PopSuffix(back, s, t.address);
      BalancedFrom(DropLast(back), s, depth, t.rest);
      PerformCall(c, depth, t, back);
    }
  }

  /** Calls nested at most `depth` deep are all predicted, and leave the top min(sp, depth - nesting) entries. */
  lemma BalancedCalls(c: seq<Word>, depth: nat, t: Calls)
    requires |c| <= depth && Nesting(t) <= depth
    ensures IsSuffix(Perform(c, depth, t), c)
    ensures |Perform(c, depth, t)| == Min(|c|, depth - Nesting(t))
    ensures AllPredicted(c, depth, t)
  {
    BalancedFrom(c, c, depth, t);
    SurvivingAfter(c, depth, t);
  }

  // ---------------------------------------------------------------- runs with calls in them

  /** How many entries a run leaves: pushes fill up to the depth, pops empty, a push and pop at once does neither. */
  function SizeAfter(depth: nat, ms: seq<Command>): nat {
    if ms == [] then 0
    else
      var k, m := SizeAfter(depth, ms[..|ms| - 1]), ms[|ms| - 1];
      if m.push == m.pop then k else if m.push then (if k < depth then k + 1 else depth) else if k > 0 then k - 1 else 0
  }

  lemma SizeStep(c: seq<Word>, depth: nat, m: Command)
    requires |c| <= depth && depth > 0
    ensures |Next(c, depth, m)| ==
            if m.push == m.pop then |c| else if m.push then (if |c| < depth then |c| + 1 else depth) else if |c| > 0 then |c| - 1 else 0
  {
  }

  lemma {:induction false} SizeCounts(depth: nat, ms: seq<Command>)
    requires depth > 0
    ensures |Run(depth, ms)| == SizeAfter(depth, ms) <= depth
  {
    if ms != [] {
      SizeCounts(depth, ms[..|ms| - 1]);
      SizeStep(Run(depth, ms[..|ms| - 1]), depth, ms[|ms| - 1]);
    }
  }

  lemma SuffixIs(c: seq<Word>, s: seq<Word>)
    requires IsSuffix(c, s)
    ensures c == s[|s| - |c|..]
  {
  }

  /** Over every run the entries are exactly that many from the top of the unbounded stack. */
  lemma EntriesExactly(depth: nat, ms: seq<Command>)
    requires depth > 0
    ensures SizeAfter(depth, ms) <= depth && SizeAfter(depth, ms) <= |IdealRun(ms)|
    ensures Run(depth, ms) == IdealRun(ms)[|IdealRun(ms)| - SizeAfter(depth, ms)..]
  {
    PredictsIdealTop(depth, ms);
    SizeCounts(depth, ms);
    SuffixIs(Run(depth, ms), IdealRun(ms));
  }

  function RunFrom(c: seq<Word>, depth: nat, ms: seq<Command>): seq<Word>
    decreases |ms|
  {
    if ms == [] then c else Next(RunFrom(c, depth, ms[..|ms| - 1]), depth, ms[|ms| - 1])
  }

  lemma {:induction false} RunIsFrom(depth: nat, ms: seq<Command>)
    ensures Run(depth, ms) == RunFrom([], depth, ms)
  {
    if ms != [] {
      RunIsFrom(depth, ms[..|ms| - 1]);
    }
  }

  lemma {:induction false} RunFromJoin(c: seq<Word>, depth: nat, a: seq<Command>, b: seq<Command>)
    ensures RunFrom(c, depth, a + b) == RunFrom(RunFrom(c, depth, a), depth, b)
    decreases |b|
  {
    if b == [] {
      assert a + b == a;
    } else {
      RunFromJoin(c, depth, a, b[..|b| - 1]);
      assert (a + b)[..|a + b| - 1] == a + b[..|b| - 1];
    }
  }

  lemma RunJoin(depth: nat, before: seq<Command>, after: seq<Command>)
    ensures Run(depth, before + after) == RunFrom(Run(depth, before), depth, after)
  {
    RunIsFrom(depth, before + after);
    RunIsFrom(depth, before);
    RunFromJoin([], depth, before, after);
  }

  const RETURN := Command(false, 0, true)

  /** What the program does, one cycle after another. */
  function Flat(t: Calls): seq<Command> {
    match t
    case Nothing => []
    case Call(a, inner, rest) => [Command(true, a, false)] + Flat(inner) + [RETURN] + Flat(rest)
  }

  lemma OneMove(c: seq<Word>, depth: nat, m: Command, rest: seq<Command>)
    ensures RunFrom(c, depth, [m] + rest) == RunFrom(Next(c, depth, m), depth, rest)
  {
    assert [m][..0] == [];
    RunFromJoin(c, depth, [m], rest);
  }

  /** Running the flat program is performing the calls. */
  lemma {:induction false} FlatPerforms(c: seq<Word>, depth: nat, t: Calls)
    ensures RunFrom(c, depth, Flat(t)) == Perform(c, depth, t)
    decreases t
  {
    if t.Call? {
      var call := Command(true, t.address, false);
      var called := Push(c, depth, t.address);
      FlatIs(t);
      OneMove(c, depth, call, Flat(t.inner) + ([RETURN] + Flat(t.rest)));
      RunFromJoin(called, depth, Flat(t.inner), [RETURN] + Flat(t.rest));
      FlatPerforms(called, depth, t.inner);
      var back := Perform(called, depth, t.inner);
      OneMove(back, depth, RETURN, Flat(t.rest));
      FlatPerforms(DropLast(back), depth, t.rest);
    }
  }

  lemma PrefixJoin<T>(a: seq<T>, b: seq<T>, j: nat)
    requires j <= |a + b|
    ensures (a + b)[..j] == if j <= |a| then a[..j] else a + b[..j - |a|]
    ensures j < |a + b| ==> (a + b)[j] == if j < |a| then a[j] else b[j - |a|]
  {
  }

  lemma CallPrefix(call: Command, inner: seq<Command>, rest: seq<Command>, whole: seq<Command>, j: nat)
    requires 0 < j < |whole| && whole == [call] + (inner + ([RETURN] + rest))
    ensures if j <= |inner| then whole[..j] == [call] + inner[..j - 1] && whole[j] == inner[j - 1]
            else if j == |inner| + 1 then whole[..j] == [call] + inner
            else whole[j] == rest[j - |inner| - 2] && whole[..j] == [call] + (inner + ([RETURN] + rest[..j - |inner| - 2]))
  {
    var after := [RETURN] + rest;
    PrefixJoin([call], inner + after, j);
    PrefixJoin(inner, after, j - 1);
    if j > |inner| {
      PrefixJoin([RETURN], rest, j - 1 - |inner|);
    }
  }

  /** Where in a flat call position j is: at the call, within the callee, at the return, or after it. */
  lemma FlatPrefix(t: Calls, j: nat)
    requires t.Call? && j < |Flat(t)|
    ensures var call, n := [Command(true, t.address, false)], |Flat(t.inner)|;
            if j == 0 then !Flat(t)[j].pop
            else if j <= n then Flat(t)[..j] == call + Flat(t.inner)[..j - 1] && Flat(t)[j] == Flat(t.inner)[j - 1]
            else if j == n + 1 then Flat(t)[..j] == call + Flat(t.inner)
            else j - n - 2 < |Flat(t.rest)| && Flat(t)[j] == Flat(t.rest)[j - n - 2]
                 && Flat(t)[..j] == call + (Flat(t.inner) + ([RETURN] + Flat(t.rest)[..j - n - 2]))
  {
    FlatIs(t);
    if j > 0 {
      CallPrefix(Command(true, t.address, false), Flat(t.inner), Flat(t.rest), Flat(t), j);
    }
  }

  lemma FlatIs(t: Calls)
    requires t.Call?
    ensures Flat(t) == [Command(true, t.address, false)] + (Flat(t.inner) + ([RETURN] + Flat(t.rest)))
  {
  }

  /** What a prefix of a flat call has done. */
  lemma PrefixRuns(c: seq<Word>, depth: nat, t: Calls, j: nat)
    requires t.Call? && 0 < j < |Flat(t)|
    ensures var called, n := Push(c, depth, t.address), |Flat(t.inner)|;
            var back := Perform(called, depth, t.inner);
            RunFrom(c, depth, Flat(t)[..j]) ==
            if j <= n then RunFrom(called, depth, Flat(t.inner)[..j - 1])
            else if j == n + 1 then back
            else RunFrom(DropLast(back), depth, Flat(t.rest)[..j - n - 2])
  {
    var call, n := Command(true, t.address, false), |Flat(t.inner)|;
    var called := Push(c, depth, t.address);
    FlatPrefix(t, j);
    if j <= n {
      OneMove(c, depth, call, Flat(t.inner)[..j - 1]);
    } else {
      FlatPerforms(called, depth, t.inner);
      if j == n + 1 {
        OneMove(c, depth, call, Flat(t.inner));
      } else {
        AfterReturn(c, depth, call, Flat(t.inner), Flat(t.rest)[..j - n - 2]);
      }
    }
  }

  lemma AfterReturn(c: seq<Word>, depth: nat, call: Command, inner: seq<Command>, rest: seq<Command>)
    ensures RunFrom(c, depth, [call] + (inner + ([RETURN] + rest))) ==
            RunFrom(DropLast(RunFrom(Next(c, depth, call), depth, inner)), depth, rest)
  {
    OneMove(c, depth, call, inner + ([RETURN] + rest));
    RunFromJoin(Next(c, depth, call), depth, inner, [RETURN] + rest);
    OneMove(RunFrom(Next(c, depth, call), depth, inner), depth, RETURN, rest);
  }

  /** Which part of a flat call position j is in. */
  lemma FlatPosition(t: Calls, j: nat)
    requires t.Call? && j < |Flat(t)|
    ensures var n := |Flat(t.inner)|;
            if j == 0 then !Flat(t)[j].pop
            else if j <= n then Flat(t)[j] == Flat(t.inner)[j - 1]
            else if j == n + 1 then true
            else j - n - 2 < |Flat(t.rest)| && Flat(t)[j] == Flat(t.rest)[j - n - 2]
  {
    FlatPrefix(t, j);
  }

  /** A callee leaves at least its own return address. */
  lemma CalleeLeaves(c: seq<Word>, depth: nat, t: Calls)
    requires t.Call? && |c| <= depth && Nesting(t) <= depth
    ensures |Push(c, depth, t.address)| <= depth && 0 < |Perform(Push(c, depth, t.address), depth, t.inner)| <= depth
  {
    SurvivingAfter(Push(c, depth, t.address), depth, t.inner);
  }

  /** Every return of calls nested at most `depth` deep finds an entry. */
  lemma {:induction false} ReturnsFindEntries(c: seq<Word>, depth: nat, t: Calls, j: nat)
    requires |c| <= depth && Nesting(t) <= depth && j < |Flat(t)| && Flat(t)[j].pop
    ensures RunFrom(c, depth, Flat(t)[..j]) != []
    decreases t
  {
    match t
    case Nothing =>
    case Call(a, inner, rest) =>
      var n, called := |Flat(inner)|, Push(c, depth, a);
      FlatPosition(t, j);
      CalleeLeaves(c, depth, t);
      PrefixRuns(c, depth, t, j);
      if j <= n {
        ReturnsFindEntries(called, depth, inner, j - 1);
      } else if j > n + 1 {
        var after := DropLast(Perform(called, depth, inner));
        ReturnsFindEntries(after, depth, rest, j - n - 2);
      }
  }

  lemma ReturnPredicted(depth: nat, ms: seq<Command>, t: Calls, j: nat)
    requires depth > 0 && Nesting(t) <= depth && j < |Flat(t)| && Flat(t)[j].pop
    ensures var c, s := Run(depth, ms + Flat(t)[..j]), IdealRun(ms + Flat(t)[..j]);
            c != [] && s != [] && c[|c| - 1] == s[|s| - 1]
  {
    PredictsIdealTop(depth, ms);
    RunJoin(depth, ms, Flat(t)[..j]);
    ReturnsFindEntries(Run(depth, ms), depth, t, j);
    PredictsIdealTop(depth, ms + Flat(t)[..j]);
  }

  /**
    After any run, calls nested at most `depth` deep leave the top min(entries,
    depth - nesting) of the entries there were; meanwhile `ReturnPredicted` has
    every return predicted with the top of the unbounded stack.
   */
  lemma BalancedRun(depth: nat, ms: seq<Command>, t: Calls)
    requires depth > 0 && Nesting(t) <= depth
    ensures var c := Run(depth, ms + Flat(t)); IsSuffix(c, Run(depth, ms)) && |c| == Min(|Run(depth, ms)|, depth - Nesting(t))
  {
    PredictsIdealTop(depth, ms);
    RunJoin(depth, ms, Flat(t));
    FlatPerforms(Run(depth, ms), depth, t);
    BalancedCalls(Run(depth, ms), depth, t);
  }

  // ---------------------------------------------------------------- the clocked object

  /** `depth` entries, of which the first sp are valid. */
  class ReturnAddressStack {
    const depth: nat
    const stack: array<Word>
    var sp: nat

    ghost predicate Valid()
      reads this
    {
      depth > 0 && stack.Length == depth && sp <= depth
    }

    function Contents(): seq<Word>
      requires Valid()
      reads this, stack
    {
      stack[..sp]
    }

    constructor (depth: nat)
      requires depth > 0
      ensures Valid() && this.depth == depth && Contents() == [] && fresh(stack)
    {
      this.depth := depth;
      stack := new Word[depth](_ => 0);
      sp := 0;
    }

    method Predict() returns (valid: bool, address: Word)
      requires Valid()
      ensures valid <==> Contents() != []
      ensures valid ==> address == Contents()[sp - 1]
      ensures !valid ==> address == 0
    {
      valid := sp > 0;
      address := if sp > 0 then stack[sp - 1] else 0;
    }

    method Shift()
      requires Valid()
      modifies stack
      ensures forall i | 0 <= i < depth - 1 :: stack[i] == old(stack[i + 1])
    {
      var i := 0;
      while i < depth - 1
        invariant 0 <= i <= depth - 1
        invariant forall j | 0 <= j < i :: stack[j] == old(stack[j + 1])
        invariant forall j | i <= j < depth :: stack[j] == old(stack[j])
      {
        stack[i] := stack[i + 1];
        i := i + 1;
      }
    }

    /** One clock edge; a restore takes priority over the command. */
    method Clock(m: Command, restore: bool, restoreValid: bool, restoreAddress: Word)
      requires Valid()
      modifies this, stack
      ensures Valid()
      ensures Contents() ==
              if restore then
                if restoreValid && |old(Contents())| < depth then old(Contents()) + [restoreAddress] else old(Contents())
              else Next(old(Contents()), depth, m)
    {
      if restore {
        if restoreValid && sp < depth {
          stack[sp] := restoreAddress;
          sp := sp + 1;
        }
      } else if m.push && m.pop {
        var tos := if sp == 0 then depth - 1 else sp - 1;
        stack[tos] := m.address;
      } else if m.push {
        if sp < depth {
          stack[sp] := m.address;
          sp := sp + 1;
        } else {
          Shift();
          stack[depth - 1] := m.address;
          assert Contents() == old(Contents())[1..] + [m.address];
        }
      } else if m.pop {
        if sp > 0 { sp := sp - 1; }
      }
    }
  }

  /** A new stack clocked through any calls and returns: what it predicts is the top of the unbounded stack. */
  method PredictAfter(depth: nat, ms: seq<Command>) returns (valid: bool, address: Word)
    requires depth > 0
    ensures valid <==> SizeAfter(depth, ms) > 0
    ensures valid ==> IdealRun(ms) != [] && address == IdealRun(ms)[|IdealRun(ms)| - 1]
    ensures !valid ==> address == 0
  {
    var r := new ReturnAddressStack(depth);
    var i := 0;
    while i < |ms|
      invariant 0 <= i <= |ms| && r.Valid() && r.depth == depth && fresh(r) && fresh(r.stack)
      invariant r.Contents() == Run(depth, ms[..i])
    {
      assert ms[..i + 1][..i] == ms[..i];
      r.Clock(ms[i], false, false, 0);
      i := i + 1;
    }
    assert ms[..i] == ms;
    EntriesExactly(depth, ms);
    PredictsIdealTop(depth, ms);
    valid, address := r.Predict();
  }
}
