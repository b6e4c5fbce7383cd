/** The fully associative indirect branch target buffer: one entry per (address, register hash), replaced by age. */
module IndirectTargets {
  import opened Basics
  import opened Words

  datatype Entry = Entry(valid: bool, tag: nat, hash: nat, target: Word, age: nat)

  datatype Update = Update(pc: Word, hash: nat, target: Word)

  /** One cycle: an address is always looked up, and a resolved jump may be reported. */
  datatype Input = Input(pc: Word, update: Option<Update>)

  function Tag(pc: Word): nat { pc / 4 }

  function Reset(n: nat): seq<Entry> { seq(n, _ => Entry(false, 0, 0, 0, 0)) }

  // ---------------------------------------------------------------- selection

  /** The lowest set index, or the last index when none is set. */
  function First(v: seq<bool>): (i: nat)
    requires v != []
    ensures i < |v| && (v[i] || true !in v)
    ensures forall j | 0 <= j < i :: !v[j]
  {
    if v[0] || |v| == 1 then 0 else 1 + First(v[1..])
  }

  function Lowest(v: seq<nat>): (m: nat)
    requires v != []
    ensures m in v && forall x | x in v :: m <= x
  {
    if |v| == 1 then v[0] else
      var rest := Lowest(v[1..]);
      assert v == [v[0]] + v[1..];
      if v[0] < rest then v[0] else rest
  }

  function Highest(v: seq<nat>): (m: nat)
    requires v != []
    ensures m in v && forall x | x in v :: x <= m
  {
    if |v| == 1 then v[0] else
      var rest := Highest(v[1..]);
      assert v == [v[0]] + v[1..];
      if v[0] > rest then v[0] else rest
  }

  predicate Matches(e: Entry, pc: Word) { e.valid && e.tag == Tag(pc) }

  predicate HitAny(s: seq<Entry>, pc: Word) { exists i | 0 <= i < |s| :: Matches(s[i], pc) }

  function HitAges(s: seq<Entry>, pc: Word): (v: seq<nat>)
    ensures |v| == |s|
  {
    seq(|s|, i requires 0 <= i < |s| => if Matches(s[i], pc) then s[i].age else |s| - 1)
  }

  /** The matching entries of lowest age; several once their ages have saturated. */
  predicate MostRecent(s: seq<Entry>, pc: Word, i: nat)
    requires i < |s|
  {
    Matches(s[i], pc) && s[i].age == Lowest(HitAges(s, pc))
  }

  function RecentBits(s: seq<Entry>, pc: Word): (v: seq<bool>)
    ensures |v| == |s|
  {
    seq(|s|, i requires 0 <= i < |s| => MostRecent(s, pc, i))
  }

  function HitIndex(s: seq<Entry>, pc: Word): (i: nat)
    requires s != []
    ensures i < |s|
  {
    First(RecentBits(s, pc))
  }

  function Predicted(s: seq<Entry>, pc: Word): Option<Word>
    requires s != []
  {
    if HitAny(s, pc) then Some(s[HitIndex(s, pc)].target) else None
  }

  predicate SameKey(e: Entry, u: Update) { e.valid && e.tag == Tag(u.pc) && e.hash == u.hash }

  function Ages(s: seq<Entry>): (v: seq<nat>)
    ensures |v| == |s|
  {
    seq(|s|, i requires 0 <= i < |s| => s[i].age)
  }

  /** An existing entry for the key, else a free one, else the first of the oldest. */
  function Slot(s: seq<Entry>, u: Update): (i: nat)
    requires s != []
    ensures i < |s|
  {
    var existing := seq(|s|, i requires 0 <= i < |s| => SameKey(s[i], u));
    var free := seq(|s|, i requires 0 <= i < |s| => !s[i].valid);
    if true in existing then First(existing)
    else if true in free then First(free)
    else First(seq(|s|, i requires 0 <= i < |s| => s[i].valid && s[i].age == Highest(Ages(s))))
  }

  // ---------------------------------------------------------------- one cycle

  predicate Touched(s: seq<Entry>, input: Input, i: nat)
    requires i < |s|
  {
    match input.update
    case Some(u) => i == Slot(s, u)
    case None => MostRecent(s, input.pc, i)
  }

  predicate TouchEvent(s: seq<Entry>, input: Input) { input.update.Some? || HitAny(s, input.pc) }

  function NextAge(s: seq<Entry>, input: Input, i: nat): nat
    requires i < |s|
  {
    if !TouchEvent(s, input) then s[i].age
    else if Touched(s, input, i) then 0
    else if s[i].valid && s[i].age < |s| - 1 then s[i].age + 1
    else s[i].age
  }

  function NextEntry(s: seq<Entry>, input: Input, i: nat): Entry
    requires i < |s|
  {
    match input.update
    case Some(u) =>
      if i == Slot(s, u) then Entry(true, Tag(u.pc), u.hash, u.target, NextAge(s, input, i))
      else s[i].(age := NextAge(s, input, i))
    case None => s[i].(age := NextAge(s, input, i))
  }

  function Next(s: seq<Entry>, input: Input): (t: seq<Entry>)
    ensures |t| == |s|
  {
    seq(|s|, i requires 0 <= i < |s| => NextEntry(s, input, i))
  }

  function Run(n: nat, inputs: seq<Input>): (s: seq<Entry>)
    ensures |s| == n
  {
    if inputs == [] then Reset(n) else Next(Run(n, inputs[..|inputs| - 1]), inputs[|inputs| - 1])
  }

  // ---------------------------------------------------------------- what the slot is

  lemma SlotChoice(s: seq<Entry>, u: Update)
    requires s != []
    ensures var k := Slot(s, u);
            if exists j | 0 <= j < |s| :: SameKey(s[j], u) then SameKey(s[k], u)
            else s[k].valid ==> forall j | 0 <= j < |s| :: s[j].valid && s[j].age <= s[k].age
  {
    var existing := seq(|s|, i requires 0 <= i < |s| => SameKey(s[i], u));
    var free := seq(|s|, i requires 0 <= i < |s| => !s[i].valid);
    var oldest := seq(|s|, i requires 0 <= i < |s| => s[i].valid && s[i].age == Highest(Ages(s)));
    assert forall j | 0 <= j < |s| :: existing[j] == SameKey(s[j], u);
    assert forall j | 0 <= j < |s| :: free[j] == !s[j].valid;
    if true !in existing && true !in free {
      assert forall j | 0 <= j < |s| :: Ages(s)[j] == s[j].age && !free[j];
      var k :| 0 <= k < |s| && Ages(s)[k] == Highest(Ages(s));
      assert oldest[k];
      forall j | 0 <= j < |s| ensures s[j].age <= Highest(Ages(s)) {
        assert Ages(s)[j] in Ages(s);
      }
    }
  }

  /** No two valid entries hold the same key. */
  ghost predicate Unique(s: seq<Entry>) {
    forall i, j | 0 <= i < j < |s| && s[i].valid && s[j].valid :: s[i].tag != s[j].tag || s[i].hash != s[j].hash
  }

  lemma UniqueStep(s: seq<Entry>, input: Input)
    requires s != [] && Unique(s)
    ensures Unique(Next(s, input))
  {
    if input.update.Some? {
      var u := input.update.value;
      SlotChoice(s, u);
      forall i, j | 0 <= i < j < |s| && Next(s, input)[i].valid && Next(s, input)[j].valid
        ensures Next(s, input)[i].tag != Next(s, input)[j].tag || Next(s, input)[i].hash != Next(s, input)[j].hash
      {
        assert i == Slot(s, u) ==> !SameKey(s[j], u);
        assert j == Slot(s, u) ==> !SameKey(s[i], u);
      }
    }
  }

  /** Over every run, keys stay unique. */
  lemma {:induction false} KeysUnique(n: nat, inputs: seq<Input>)
    requires n > 0
    ensures Unique(Run(n, inputs))
  {
    if inputs != [] {
      KeysUnique(n, inputs[..|inputs| - 1]);
      UniqueStep(Run(n, inputs[..|inputs| - 1]), inputs[|inputs| - 1]);
    }
  }

  // ---------------------------------------------------------------- targets

  /** The target of the latest update for a key, remembered without bound. */
  function LatestUpdate(inputs: seq<Input>, tag: nat, hash: nat): Option<Word> {
    if inputs == [] then None
    else
      var u := inputs[|inputs| - 1].update;
      if u.Some? && Tag(u.value.pc) == tag && u.value.hash == hash then Some(u.value.target)
      else LatestUpdate(inputs[..|inputs| - 1], tag, hash)
  }

  lemma EntryStep(s: seq<Entry>, input: Input, i: nat)
    requires i < |s| && Unique(s) && Next(s, input)[i].valid
    ensures var e := Next(s, input)[i];
            var u := input.update;
            if u.Some? && Tag(u.value.pc) == e.tag && u.value.hash == e.hash then e.target == u.value.target
            else s[i].valid && e.tag == s[i].tag && e.hash == s[i].hash && e.target == s[i].target
  {
    if input.update.Some? {
      SlotChoice(s, input.update.value);
    }
  }

  /** Over every run, each valid entry holds the target of the latest update for its own key. */
  lemma {:induction false} HoldsLatestTarget(n: nat, inputs: seq<Input>, i: nat)
    requires i < n && Run(n, inputs)[i].valid
    ensures var e := Run(n, inputs)[i]; LatestUpdate(inputs, e.tag, e.hash) == Some(e.target)
  {
    if inputs != [] {
      var before, input := inputs[..|inputs| - 1], inputs[|inputs| - 1];
      KeysUnique(n, before);
      EntryStep(Run(n, before), input, i);
      if Run(n, before)[i].valid {
        HoldsLatestTarget(n, before, i);
      }
    }
  }

  // ---------------------------------------------------------------- ages

  /** Touch events since entry i was last touched: an exact recency, without the age counter's bound. */
  function SinceTouched(n: nat, inputs: seq<Input>, i: nat): nat
    requires i < n
  {
    if inputs == [] then 0
    else
      var before, input := inputs[..|inputs| - 1], inputs[|inputs| - 1];
      var s := Run(n, before);
      if !TouchEvent(s, input) then SinceTouched(n, before, i)
      else if Touched(s, input, i) then 0
      else SinceTouched(n, before, i) + 1
  }

  /** Over every run, a valid entry's age is its recency, saturated at entries - 1. */
  lemma {:induction false} AgesCountTouches(n: nat, inputs: seq<Input>, i: nat)
    requires i < n
    ensures var e := Run(n, inputs)[i];
            if e.valid then e.age == Min(n - 1, SinceTouched(n, inputs, i)) else e.age == 0
  {
    if inputs != [] {
      AgesCountTouches(n, inputs[..|inputs| - 1], i);
    }
  }

  /** An entry that an update evicts is the least recently touched, except among saturated ones. */
  lemma EvictsLeastRecent(n: nat, inputs: seq<Input>, u: Update, j: nat)
    requires j < n
    requires var s := Run(n, inputs); s[Slot(s, u)].valid && !SameKey(s[Slot(s, u)], u)
    ensures var s := Run(n, inputs);
            && s[j].valid
            && (SinceTouched(n, inputs, j) <= SinceTouched(n, inputs, Slot(s, u))
                || SinceTouched(n, inputs, Slot(s, u)) >= n - 1)
  {
    var s := Run(n, inputs);
    SlotChoice(s, u);
    AgesCountTouches(n, inputs, j);
    AgesCountTouches(n, inputs, Slot(s, u));
  }

  lemma HitChoice(s: seq<Entry>, pc: Word)
    requires HitAny(s, pc) && forall i | 0 <= i < |s| :: s[i].age < |s|
    ensures var k := HitIndex(s, pc);
            && Matches(s[k], pc)
            && forall j | 0 <= j < |s| && Matches(s[j], pc) :: s[k].age <= s[j].age
  {
    var ages := HitAges(s, pc);
    var recent := RecentBits(s, pc);
    var h :| 0 <= h < |s| && Matches(s[h], pc);
    var k :| 0 <= k < |s| && ages[k] == Lowest(ages);
    assert ages[h] in ages;
    assert recent[k] || recent[h];
    forall j | 0 <= j < |s| && Matches(s[j], pc) ensures Lowest(ages) <= s[j].age {
      assert ages[j] in ages;
    }
  }

  /**
    * A predicted target was the latest one reported for that address under some register hash, and no other hash of
    * that address was touched more recently, except among saturated entries.
    */
  lemma PredictsMostRecent(n: nat, inputs: seq<Input>, pc: Word, j: nat)
    requires j < n && HitAny(Run(n, inputs), pc) && Matches(Run(n, inputs)[j], pc)
    ensures var s := Run(n, inputs);
            var k := HitIndex(s, pc);
            && Predicted(s, pc) == LatestUpdate(inputs, Tag(pc), s[k].hash)
            && (SinceTouched(n, inputs, k) <= SinceTouched(n, inputs, j) || SinceTouched(n, inputs, j) >= n - 1)
  {
    var s := Run(n, inputs);
    forall i | 0 <= i < n ensures s[i].age < n {
      AgesCountTouches(n, inputs, i);
    }
    HitChoice(s, pc);
    AgesCountTouches(n, inputs, j);
    AgesCountTouches(n, inputs, HitIndex(s, pc));
    HoldsLatestTarget(n, inputs, HitIndex(s, pc));
  }

  // ---------------------------------------------------------------- learning

  lemma FirstOf(v: seq<bool>, k: nat)
    requires k < |v| && v[k] && forall j | 0 <= j < |v| && j != k :: !v[j]
    ensures First(v) == k
  {
    assert true in v;
  }

  lemma LowestIs(v: seq<nat>, m: nat)
    requires v != [] && m in v && forall x | x in v :: m <= x
    ensures Lowest(v) == m
  {
  }

  /** An update's own entry is the only one of age zero among the valid ones. */
  lemma UpdatedIsYoungest(s: seq<Entry>, input: Input, u: Update, j: nat)
    requires s != [] && input.update == Some(u) && j < |s| && Next(s, input)[j].valid
    ensures Next(s, input)[j].age == 0 <==> j == Slot(s, u)
  {
  }

  /** What an update reports is predicted from the next cycle on. */
  lemma LearnsAtOnce(s: seq<Entry>, input: Input, u: Update)
    requires s != [] && input.update == Some(u)
    ensures Predicted(Next(s, input), u.pc) == Some(u.target)
  {
    var t, k := Next(s, input), Slot(s, u);
    assert Matches(t[k], u.pc);
    var ages := HitAges(t, u.pc);
    assert ages[k] == 0 by { UpdatedIsYoungest(s, input, u, k); }
    LowestIs(ages, 0);
    forall j | 0 <= j < |s| ensures RecentBits(t, u.pc)[j] <==> j == k {
      if t[j].valid { UpdatedIsYoungest(s, input, u, j); }
    }
    FirstOf(RecentBits(t, u.pc), k);
  }

  /** So over every run. */
  lemma Learns(n: nat, inputs: seq<Input>, input: Input, u: Update)
    requires n > 0 && input.update == Some(u)
    ensures Predicted(Run(n, inputs + [input]), u.pc) == Some(u.target)
  {
    assert (inputs + [input])[..|inputs|] == inputs;
    LearnsAtOnce(Run(n, inputs), input, u);
  }

  // ---------------------------------------------------------------- keeping what was learnt

  predicate HeldAt(s: seq<Entry>, i: nat, tag: nat, hash: nat) { i < |s| && s[i].valid && s[i].tag == tag && s[i].hash == hash }

  predicate Held(s: seq<Entry>, tag: nat, hash: nat) { exists i | 0 <= i < |s| :: HeldAt(s, i, tag, hash) }

  /** An update with a new key, when all entries are taken, costs the first of the oldest its place. */
  predicate Costs(s: seq<Entry>, input: Input, i: nat)
    requires i < |s|
  {
    && input.update.Some? && !Held(s, Tag(input.update.value.pc), input.update.value.hash)
    && (forall j | 0 <= j < |s| :: s[j].valid && s[j].age <= s[i].age)
    && forall j | 0 <= j < i :: s[j].age < s[i].age
  }

  lemma OldestFirst(s: seq<Entry>, i: nat)
    requires i < |s| && forall j | 0 <= j < |s| :: s[j].valid && s[j].age <= s[i].age
    requires forall j | 0 <= j < i :: s[j].age < s[i].age
    ensures First(seq(|s|, j requires 0 <= j < |s| => s[j].valid && s[j].age == Highest(Ages(s)))) == i
  {
    var oldest := seq(|s|, j requires 0 <= j < |s| => s[j].valid && s[j].age == Highest(Ages(s)));
    assert Ages(s)[i] in Ages(s);
    assert oldest[i];
    assert true in oldest;
  }

  lemma SlotCosts(s: seq<Entry>, input: Input, i: nat)
    requires i < |s| && Costs(s, input, i)
    ensures Slot(s, input.update.value) == i
  {
    var u := input.update.value;
    var existing := seq(|s|, j requires 0 <= j < |s| => SameKey(s[j], u));
    var free := seq(|s|, j requires 0 <= j < |s| => !s[j].valid);
    forall j | 0 <= j < |s| ensures !existing[j] {
      assert !HeldAt(s, j, Tag(u.pc), u.hash);
    }
    assert true !in free;
    OldestFirst(s, i);
  }

  /** The slot an update takes is its key's own, or a free one, or the one it costs. */
  lemma SlotKinds(s: seq<Entry>, input: Input)
    requires s != [] && input.update.Some?
    ensures var u := input.update.value;
            var k := Slot(s, u);
            SameKey(s[k], u) || !s[k].valid || Costs(s, input, k)
  {
    var u := input.update.value;
    var k := Slot(s, u);
    SlotChoice(s, u);
    if !SameKey(s[k], u) && s[k].valid {
      assert forall j | 0 <= j < |s| :: !SameKey(s[j], u) && s[j].valid && s[j].age <= s[k].age;
      var oldest := seq(|s|, j requires 0 <= j < |s| => s[j].valid && s[j].age == Highest(Ages(s)));
      SlotIsOldest(s, u, oldest);
    }
  }

  lemma SlotIsOldest(s: seq<Entry>, u: Update, oldest: seq<bool>)
    requires s != [] && |oldest| == |s| && forall j | 0 <= j < |s| :: s[j].valid && !SameKey(s[j], u)
    requires forall j | 0 <= j < |s| :: oldest[j] == (s[j].valid && s[j].age == Highest(Ages(s)))
    ensures Slot(s, u) == First(oldest) && forall j | 0 <= j < Slot(s, u) :: s[j].age < Highest(Ages(s))
    ensures s[Slot(s, u)].age == Highest(Ages(s))
  {
    var existing := seq(|s|, j requires 0 <= j < |s| => SameKey(s[j], u));
    var free := seq(|s|, j requires 0 <= j < |s| => !s[j].valid);
    assert true !in existing && true !in free;
    assert oldest == seq(|s|, j requires 0 <= j < |s| => s[j].valid && s[j].age == Highest(Ages(s)));
    forall j | 0 <= j < |s| ensures s[j].age <= Highest(Ages(s)) {
      assert Ages(s)[j] in Ages(s);
    }
    var k :| 0 <= k < |s| && Ages(s)[k] == Highest(Ages(s));
    assert oldest[k] && true in oldest;
  }

  /** A key is held in the next cycle if and only if it is reported now, or was held and its entry is not the one lost. */
  lemma HeldNext(s: seq<Entry>, input: Input, tag: nat, hash: nat)
    requires s != [] && Unique(s)
    ensures Held(Next(s, input), tag, hash) <==>
            || (input.update.Some? && Tag(input.update.value.pc) == tag && input.update.value.hash == hash)
            || exists i | 0 <= i < |s| :: HeldAt(s, i, tag, hash) && !Costs(s, input, i)
  {
    var t := Next(s, input);
    if input.update.Some? {
      var u := input.update.value;
      var k := Slot(s, u);
      SlotKinds(s, input);
      assert HeldAt(t, k, Tag(u.pc), u.hash);
      forall i | 0 <= i < |s| ensures Costs(s, input, i) ==> i == k {
        if Costs(s, input, i) { SlotCosts(s, input, i); }
      }
      forall i | 0 <= i < |s| && i != k ensures HeldAt(t, i, tag, hash) == HeldAt(s, i, tag, hash) {
      }
    } else {
      forall i | 0 <= i < |s| ensures HeldAt(t, i, tag, hash) == HeldAt(s, i, tag, hash) && !Costs(s, input, i) {
      }
    }
  }

  // ---------------------------------------------------------------- how long at least

  /** The entry that gives the prediction, or one for the same address just as young. */
  predicate GivesPrediction(s: seq<Entry>, pc: Word, i: nat)
    requires i < |s|
  {
    && s[i].valid && s[i].tag == pc / 4
    && forall j | 0 <= j < |s| && s[j].valid && s[j].tag == pc / 4 :: s[i].age <= s[j].age
  }

  /** Made young, one step older, or as it was. */
  predicate Aged(s: seq<Entry>, t: seq<Entry>, young: bool, touch: bool, i: nat)
    requires |s| == |t| && i < |s|
  {
    t[i].age == if young then 0 else if touch && s[i].valid && s[i].age < |s| - 1 then s[i].age + 1 else s[i].age
  }

  lemma RecentGives(s: seq<Entry>, pc: Word, i: nat)
    requires i < |s| && forall j | 0 <= j < |s| :: s[j].age < |s|
    ensures MostRecent(s, pc, i) <==> GivesPrediction(s, pc, i)
  {
    var ages := HitAges(s, pc);
    forall j | 0 <= j < |s| ensures Lowest(ages) <= ages[j] {
      assert ages[j] in ages;
    }
    var k :| 0 <= k < |s| && ages[k] == Lowest(ages);
    if MostRecent(s, pc, i) {
      forall j | 0 <= j < |s| && s[j].valid && s[j].tag == pc / 4 ensures s[i].age <= s[j].age {
        assert Lowest(ages) <= ages[j];
      }
    }
    if GivesPrediction(s, pc, i) {
      assert ages[i] in ages;
      assert ages[i] <= ages[k] by {
        assert Matches(s[k], pc) ==> s[i].age <= s[k].age;
      }
    }
  }

  /** In one cycle: an update makes its own entry young, a lookup that hits those that give the prediction; the others age. */
  lemma AgesNext(s: seq<Entry>, input: Input, i: nat)
    requires i < |s| && Unique(s) && forall j | 0 <= j < |s| :: s[j].age < |s|
    ensures var t := Next(s, input);
            match input.update
            case Some(u) => Aged(s, t, HeldAt(t, i, u.pc / 4, u.hash), true, i)
            case None =>
              if exists j | 0 <= j < |s| :: s[j].valid && s[j].tag == input.pc / 4
              then Aged(s, t, GivesPrediction(s, input.pc, i), true, i) else t[i] == s[i]
  {
    match input.update
    case Some(u) =>
      SlotChoice(s, u);
    case None =>
      RecentGives(s, input.pc, i);
      assert (exists j | 0 <= j < |s| :: s[j].valid && s[j].tag == input.pc / 4) <==> HitAny(s, input.pc) by {
        if HitAny(s, input.pc) {
          var j :| 0 <= j < |s| && Matches(s[j], input.pc);
        } else {
          forall j | 0 <= j < |s| ensures !(s[j].valid && s[j].tag == input.pc / 4) {
            assert !Matches(s[j], input.pc);
          }
        }
      }
  }

  /** No lookup finds two entries for its address equally young. */
  predicate NoTies(n: nat, inputs: seq<Input>) {
    inputs != [] ==>
      var before, input := inputs[..|inputs| - 1], inputs[|inputs| - 1];
      var s := Run(n, before);
      && NoTies(n, before)
      && (input.update.None? ==>
            forall i, j | 0 <= i < j < n :: !(GivesPrediction(s, input.pc, i) && GivesPrediction(s, input.pc, j)))
  }

  /** Valid entries below the age limit are of different ages. */
  ghost predicate AgesApart(s: seq<Entry>) {
    && (forall i | 0 <= i < |s| :: s[i].age < |s|)
    && forall i, j | 0 <= i < j < |s| && s[i].valid && s[j].valid && s[i].age == s[j].age :: s[i].age == |s| - 1
  }

  lemma ApartStep(s: seq<Entry>, input: Input)
    requires Unique(s) && AgesApart(s)
    requires input.update.None? ==>
               forall i, j | 0 <= i < j < |s| :: !(GivesPrediction(s, input.pc, i) && GivesPrediction(s, input.pc, j))
    ensures AgesApart(Next(s, input))
  {
    var t := Next(s, input);
    forall i | 0 <= i < |s| ensures t[i].age < |s| {
    }
    forall i, j | 0 <= i < j < |s| && t[i].valid && t[j].valid && t[i].age == t[j].age ensures t[i].age == |s| - 1 {
      AgesNext(s, input, i);
      AgesNext(s, input, j);
      if input.update.Some? {
        UniqueStep(s, input);
        SlotChoice(s, input.update.value);
      }
    }
  }

  lemma {:induction false} AgesStayApart(n: nat, inputs: seq<Input>)
    requires n > 0 && NoTies(n, inputs)
    ensures AgesApart(Run(n, inputs))
  {
    if inputs != [] {
      var before, input := inputs[..|inputs| - 1], inputs[|inputs| - 1];
      AgesStayApart(n, before);
      KeysUnique(n, before);
      ApartStep(Run(n, before), input);
    }
  }

  /** Different numbers below m are at most m. */
  lemma {:induction false} Pigeons(v: seq<nat>, m: nat)
    requires (forall i | 0 <= i < |v| :: v[i] < m) && forall i, j | 0 <= i < j < |v| :: v[i] != v[j]
    ensures |v| <= m
    decreases m
  {
    if v != [] {
      assert v[0] < m;
      if k :| 0 <= k < |v| && v[k] == m - 1 {
        Pigeons(v[..k] + v[k + 1..], m - 1);
      } else {
        Pigeons(v, m - 1);
      }
    }
  }

  /** So only an entry at the age limit is ever lost. */
  lemma LostIsOld(s: seq<Entry>, input: Input, i: nat)
    requires AgesApart(s) && i < |s| && Costs(s, input, i)
    ensures s[i].age == |s| - 1
  {
    if s[i].age < |s| - 1 {
      Pigeons(Ages(s), |s| - 1);
    }
  }

  /** A key reported not n cycles ago is held, by an entry no older than that. */
  lemma {:induction false} RecentHeld(n: nat, before: seq<Input>, input: Input, u: Update, after: seq<Input>) returns (i: nat)
    requires n > 0 && input.update == Some(u) && |after| < n && NoTies(n, before + [input] + after)
    ensures HeldAt(Run(n, before + [input] + after), i, Tag(u.pc), u.hash)
    ensures Run(n, before + [input] + after)[i].age <= |after|
    decreases |after|
  {
    var all := before + [input] + after;
    var most := all[..|all| - 1];
    KeysUnique(n, most);
    if after == [] {
      assert most == before && all[|all| - 1] == input;
      i := Slot(Run(n, before), u);
    } else {
      assert most == before + [input] + after[..|after| - 1];
      i := RecentHeld(n, before, input, u, after[..|after| - 1]);
      AgesStayApart(n, most);
      RecentStep(Run(n, most), all[|all| - 1], i, |after| - 1);
    }
  }

  lemma RecentStep(s: seq<Entry>, input: Input, i: nat, age: nat)
    requires i < |s| && Unique(s) && AgesApart(s) && s[i].valid && s[i].age <= age < |s| - 1
    ensures HeldAt(Next(s, input), i, s[i].tag, s[i].hash) && Next(s, input)[i].age <= age + 1
  {
    if input.update.Some? {
      SlotKinds(s, input);
      if Costs(s, input, i) {
        LostIsOld(s, input, i);
      }
    }
  }

  /** Three entries: two for address 0 and one for address 4, each reported, the last twice; then a lookup of address 0. */
  function TiedInputs(): seq<Input> {
    [Input(8, Some(Update(0, 1, 100))), Input(8, Some(Update(0, 2, 200))), Input(8, Some(Update(4, 1, 300))),
     Input(8, Some(Update(4, 1, 300))), Input(0, None)]
  }

  lemma SlotIs(s: seq<Entry>, u: Update, k: nat)
    requires k < |s| && (forall j | 0 <= j < |s| && j != k :: !SameKey(s[j], u))
    requires SameKey(s[k], u) || (!s[k].valid && forall j | 0 <= j < k :: s[j].valid)
    ensures Slot(s, u) == k
  {
    var existing := seq(|s|, i requires 0 <= i < |s| => SameKey(s[i], u));
    var free := seq(|s|, i requires 0 <= i < |s| => !s[i].valid);
    if SameKey(s[k], u) {
      assert existing[k];
    } else {
      assert true !in existing && free[k];
    }
  }

  lemma RunNext(n: nat, inputs: seq<Input>, i: nat)
    requires i < |inputs|
    ensures Run(n, inputs[..i + 1]) == Next(Run(n, inputs[..i]), inputs[i])
  {
    assert inputs[..i + 1][..i] == inputs[..i];
  }

  lemma FirstTwo(u: Update, v: Update, s: seq<Entry>)
    requires u == Update(0, 1, 100) && v == Update(0, 2, 200)
    requires s == Next(Next(Reset(3), Input(8, Some(u))), Input(8, Some(v)))
    ensures s == [Entry(true, 0, 1, 100, 1), Entry(true, 0, 2, 200, 0), Entry(false, 0, 0, 0, 0)]
  {
    SlotIs(Reset(3), u, 0);
    var s1 := Next(Reset(3), Input(8, Some(u)));
    assert s1 == [Entry(true, 0, 1, 100, 0), Entry(false, 0, 0, 0, 0), Entry(false, 0, 0, 0, 0)];
    SlotIs(s1, v, 1);
  }

  lemma LastTwice(s: seq<Entry>, w: Update, t: seq<Entry>)
    requires s == [Entry(true, 0, 1, 100, 1), Entry(true, 0, 2, 200, 0), Entry(false, 0, 0, 0, 0)]
    requires w == Update(4, 1, 300) && t == Next(Next(s, Input(8, Some(w))), Input(8, Some(w)))
    ensures t == [Entry(true, 0, 1, 100, 2), Entry(true, 0, 2, 200, 2), Entry(true, 1, 1, 300, 0)]
  {
    SlotIs(s, w, 2);
    var s3 := Next(s, Input(8, Some(w)));
    assert s3 == [Entry(true, 0, 1, 100, 2), Entry(true, 0, 2, 200, 1), Entry(true, 1, 1, 300, 0)];
    SlotIs(s3, w, 2);
  }

  /** A lookup of address 0 finds both its entries equally old and makes both young. */
  lemma TieBroken(s: seq<Entry>, t: seq<Entry>)
    requires s == [Entry(true, 0, 1, 100, 2), Entry(true, 0, 2, 200, 2), Entry(true, 1, 1, 300, 0)]
    requires t == Next(s, Input(0, None))
    ensures GivesPrediction(s, 0, 0) && GivesPrediction(s, 0, 1)
    ensures t == [Entry(true, 0, 1, 100, 0), Entry(true, 0, 2, 200, 0), Entry(true, 1, 1, 300, 1)]
  {
    assert GivesPrediction(s, 0, 0) && GivesPrediction(s, 0, 1) && !GivesPrediction(s, 0, 2);
    AgesNext(s, Input(0, None), 0);
    AgesNext(s, Input(0, None), 1);
    AgesNext(s, Input(0, None), 2);
  }

  lemma TiedRun() returns (s: seq<Entry>)
    ensures s == Run(3, TiedInputs()[..4])
    ensures s == [Entry(true, 0, 1, 100, 2), Entry(true, 0, 2, 200, 2), Entry(true, 1, 1, 300, 0)]
  {
    var inputs := TiedInputs();
    assert inputs[..0] == [];
    RunNext(3, inputs, 0);
    RunNext(3, inputs, 1);
    FirstTwo(Update(0, 1, 100), Update(0, 2, 200), Run(3, inputs[..2]));
    RunNext(3, inputs, 2);
    RunNext(3, inputs, 3);
    LastTwice(Run(3, inputs[..2]), Update(4, 1, 300), Run(3, inputs[..4]));
    s := Run(3, inputs[..4]);
  }

  lemma TieSeen(n: nat, before: seq<Input>, input: Input, i: nat, j: nat)
    requires i < j < n && input.update.None?
    requires GivesPrediction(Run(n, before), input.pc, i) && GivesPrediction(Run(n, before), input.pc, j)
    ensures !NoTies(n, before + [input])
  {
    assert (before + [input])[..|before|] == before;
  }

  lemma ThirdIsOldest(s: seq<Entry>, u: Update)
    requires s == [Entry(true, 0, 1, 100, 0), Entry(true, 0, 2, 200, 0), Entry(true, 1, 1, 300, 1)] && u.pc / 4 > 1
    ensures HeldAt(s, 2, 1, 1) && Costs(s, Input(8, Some(u)), 2)
  {
    forall j | 0 <= j < 3 ensures !HeldAt(s, j, Tag(u.pc), u.hash) {
    }
  }

  /** After that run an update with a new key costs the entry reported not three cycles ago: a tie can cost a recent key. */
  lemma TiesCostTheRecent(u: Update)
    requires u.pc / 4 > 1
    ensures var inputs := TiedInputs();
            && !NoTies(3, inputs) && inputs[3].update == Some(Update(4, 1, 300))
            && HeldAt(Run(3, inputs), 2, 1, 1) && Costs(Run(3, inputs), Input(8, Some(u)), 2)
  {
    var inputs := TiedInputs();
    assert inputs[..5] == inputs == inputs[..4] + [inputs[4]];
    var s := TiedRun();
    RunNext(3, inputs, 4);
    TieBroken(s, Run(3, inputs));
    TieSeen(3, inputs[..4], inputs[4], 0, 1);
    ThirdIsOldest(Run(3, inputs), u);
  }

  // ---------------------------------------------------------------- the clocked object

  class IndirectBuffer {
    const n: nat
    const valid: array<bool>
    const tags: array<nat>
    const hashes: array<nat>
    const targets: array<Word>
    const ages: array<nat>

    ghost predicate Valid() {
      && n > 0
      && valid.Length == tags.Length == hashes.Length == targets.Length == ages.Length == n
      && tags != hashes && tags != ages && hashes != ages
    }

    ghost function Entries(): (s: seq<Entry>)
      requires Valid()
      reads valid, tags, hashes, targets, ages
      ensures |s| == n
    {
      seq(n, i requires 0 <= i < n reads valid, tags, hashes, targets, ages =>
        Entry(valid[i], tags[i], hashes[i], targets[i], ages[i]))
    }

    constructor (entries: nat)
      requires entries > 0
      ensures Valid() && n == entries && Entries() == Reset(entries)
      ensures fresh(valid) && fresh(tags) && fresh(hashes) && fresh(targets) && fresh(ages)
    {
      n := entries;
      valid := new bool[entries](_ => false);
      tags := new nat[entries](_ => 0);
      hashes := new nat[entries](_ => 0);
      targets := new Word[entries](_ => 0);
      ages := new nat[entries](_ => 0);
    }

    /** Resets the touched entries and ages the other valid ones, before any entry becomes valid. */
    method Age(touched: seq<bool>)
      requires Valid() && |touched| == n
      modifies ages
      ensures forall i | 0 <= i < n :: ages[i]
                == if touched[i] then 0
                   else if valid[i] && old(ages[i]) < n - 1 then old(ages[i]) + 1
                   else old(ages[i])
    {
      for i := 0 to n
        invariant forall j | 0 <= j < i :: ages[j]
                    == if touched[j] then 0
                       else if valid[j] && old(ages[j]) < n - 1 then old(ages[j]) + 1
                       else old(ages[j])
        invariant forall j | i <= j < n :: ages[j] == old(ages[j])
      {
        if touched[i] {
          ages[i] := 0;
        } else if valid[i] && ages[i] < n - 1 {
          ages[i] := ages[i] + 1;
        }
      }
    }

    method Predict(pc: Word) returns (hit: bool, target: Word, recent: seq<bool>)
      requires Valid()
      ensures hit == HitAny(Entries(), pc)
      ensures target == if hit then Predicted(Entries(), pc).value else 0
      ensures recent == RecentBits(Entries(), pc)
    {
      ghost var s := Entries();
      var matching := seq(n, i requires 0 <= i < n reads valid, tags => valid[i] && tags[i] == Tag(pc));
      var hitAges := seq(n, i requires 0 <= i < n reads ages => if matching[i] then ages[i] else n - 1);
      assert hitAges == HitAges(s, pc);
      var least := Lowest(hitAges);
      recent := seq(n, i requires 0 <= i < n reads ages => matching[i] && ages[i] == least);
      assert recent == RecentBits(s, pc);
      hit := true in matching;
      assert forall i | 0 <= i < n :: matching[i] == Matches(s[i], pc);
      target := if hit then targets[First(recent)] else 0;
    }

    method Choose(u: Update) returns (slot: nat)
      requires Valid()
      ensures slot == Slot(Entries(), u)
    {
      ghost var s := Entries();
      var existing := seq(n, i requires 0 <= i < n reads valid, tags, hashes =>
        valid[i] && tags[i] == Tag(u.pc) && hashes[i] == u.hash);
      var free := seq(n, i requires 0 <= i < n reads valid => !valid[i]);
      assert existing == seq(n, i requires 0 <= i < n => SameKey(s[i], u));
      assert free == seq(n, i requires 0 <= i < n => !s[i].valid);
      var highest := Highest(ages[..]);
      assert ages[..] == Ages(s);
      var oldest := seq(n, i requires 0 <= i < n reads valid, ages => valid[i] && ages[i] == highest);
      assert oldest == seq(n, i requires 0 <= i < n => s[i].valid && s[i].age == Highest(Ages(s)));
      slot := if true in existing then First(existing) else if true in free then First(free) else First(oldest);
    }

    method Record(u: Update, ghost input: Input)
      requires Valid() && input.update == Some(u)
      modifies valid, tags, hashes, targets, ages
      ensures Entries() == Next(old(Entries()), input)
    {
      var slot := Choose(u);
      Age(seq(n, i => i == slot));
      valid[slot], tags[slot], hashes[slot], targets[slot] := true, Tag(u.pc), u.hash, u.target;
      assert forall i | 0 <= i < n :: Entries()[i] == NextEntry(old(Entries()), input, i);
    }

    method Refresh(recent: seq<bool>, ghost input: Input)
      requires Valid() && input.update == None && HitAny(Entries(), input.pc)
      requires recent == RecentBits(Entries(), input.pc)
      modifies ages
      ensures Entries() == Next(old(Entries()), input)
    {
      Age(recent);
      assert forall i | 0 <= i < n :: Entries()[i] == NextEntry(old(Entries()), input, i);
    }

    method Clock(input: Input) returns (hit: bool, target: Word)
      requires Valid()
      modifies valid, tags, hashes, targets, ages
      ensures hit == HitAny(old(Entries()), input.pc)
      ensures target == if hit then Predicted(old(Entries()), input.pc).value else 0
      ensures Entries() == Next(old(Entries()), input)
    {
      var recent;
      hit, target, recent := Predict(input.pc);
      if input.update.Some? {
        Record(input.update.value, input);
      } else if hit {
        Refresh(recent, input);
      } else {
        assert Next(Entries(), input) == Entries();
      }
    }
  }

  lemma PredictionAfter(n: nat, inputs: seq<Input>, pc: Word, k: nat)
    requires n > 0 && HitAny(Run(n, inputs), pc) && k == HitIndex(Run(n, inputs), pc)
    ensures Matches(Run(n, inputs)[k], pc)
    ensures Predicted(Run(n, inputs), pc) == LatestUpdate(inputs, Tag(pc), Run(n, inputs)[k].hash)
    ensures forall j | 0 <= j < n && Matches(Run(n, inputs)[j], pc) ::
              SinceTouched(n, inputs, k) <= SinceTouched(n, inputs, j) || SinceTouched(n, inputs, j) >= n - 1
  {
    forall i | 0 <= i < n ensures Run(n, inputs)[i].age < n {
      AgesCountTouches(n, inputs, i);
    }
    HitChoice(Run(n, inputs), pc);
    PredictsMostRecent(n, inputs, pc, k);
    forall j | 0 <= j < n && Matches(Run(n, inputs)[j], pc)
      ensures SinceTouched(n, inputs, k) <= SinceTouched(n, inputs, j) || SinceTouched(n, inputs, j) >= n - 1
    {
      PredictsMostRecent(n, inputs, pc, j);
    }
  }

  /** A new buffer clocked through any lookups and updates: what it predicts next. */
  method PredictAfter(entries: nat, inputs: seq<Input>, pc: Word) returns (hit: bool, target: Word, ghost k: nat)
    requires entries > 0
    ensures k < entries && (hit <==> HitAny(Run(entries, inputs), pc))
    ensures var s := Run(entries, inputs);
            hit ==> && Matches(s[k], pc) && LatestUpdate(inputs, Tag(pc), s[k].hash) == Some(target)
                    && forall j | 0 <= j < entries && Matches(s[j], pc) ::
                         SinceTouched(entries, inputs, k) <= SinceTouched(entries, inputs, j)
                         || SinceTouched(entries, inputs, j) >= entries - 1
    ensures !hit ==> target == 0
    ensures inputs != [] && inputs[|inputs| - 1].update.Some? && inputs[|inputs| - 1].update.value.pc == pc ==>
              hit && target == inputs[|inputs| - 1].update.value.target
  {
    var b := new IndirectBuffer(entries);
    var i := 0;
    while i < |inputs|
      invariant 0 <= i <= |inputs| && b.Valid() && b.n == entries && b.Entries() == Run(entries, inputs[..i])
      invariant fresh(b.valid) && fresh(b.tags) && fresh(b.hashes) && fresh(b.targets) && fresh(b.ages)
    {
      assert inputs[..i + 1][..i] == inputs[..i];
      hit, target := b.Clock(inputs[i]);
      i := i + 1;
    }
    assert inputs[..i] == inputs;
    var recent;
    hit, target, recent := b.Predict(pc);
    k := HitIndex(Run(entries, inputs), pc);
    if inputs != [] && inputs[|inputs| - 1].update.Some? && inputs[|inputs| - 1].update.value.pc == pc {
      LearnsAtOnce(Run(entries, inputs[..|inputs| - 1]), inputs[|inputs| - 1], inputs[|inputs| - 1].update.value);
    }
    if hit {
      PredictionAfter(entries, inputs, pc, k);
    }
  }
}
