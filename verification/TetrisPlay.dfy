/** The seven-piece bag and the game loop in place. */
module TetrisPlay {
  import opened TetrisGrid
  import opened TetrisGame
  import opened TetrisRules
  import opened TetrisField

  // ---------------------------------------------------------------- the bag

  /** All seven shapes, each once. */
  ghost predicate IsBag(s: seq<nat>) { |s| == 7 && multiset(s) == multiset{0, 1, 2, 3, 4, 5, 6} }

  /** One bag after another. */
  ghost predicate WholeBags(s: seq<nat>) {
    s == [] || (|s| >= 7 && IsBag(s[|s| - 7..]) && WholeBags(s[..|s| - 7]))
  }

  lemma BagCount(s: seq<nat>, shape: nat)
    requires IsBag(s) && shape < 7
    ensures multiset(s)[shape] == 1
  {
  }

  lemma CountSplit(a: seq<nat>, b: seq<nat>, shape: nat)
    ensures multiset(a + b)[shape] == multiset(a)[shape] + multiset(b)[shape]
  {
  }

  /** After whole bags every shape has come up equally often. */
  lemma {:induction false} EveryShapeAlike(s: seq<nat>, shape: nat)
    requires WholeBags(s) && shape < 7
    ensures multiset(s)[shape] * 7 == |s|
    decreases |s|
  {
    if s != [] {
      var before, bag := s[..|s| - 7], s[|s| - 7..];
      EveryShapeAlike(before, shape);
      BagCount(bag, shape);
      CountSplit(before, bag, shape);
      assert s == before + bag;
    }
  }

  lemma BagShape(s: seq<nat>, i: nat)
    requires IsBag(s) && i < 7
    ensures s[i] < 7
  {
    assert s[i] in multiset(s);
  }

  /** What was dealt is whole bags and then the first pos shapes of the present one. */
  ghost predicate Dealt(dealt: seq<nat>, bag: seq<nat>, pos: nat) {
    && IsBag(bag) && pos <= 7 && pos <= |dealt|
    && dealt[|dealt| - pos..] == bag[..pos] && WholeBags(dealt[..|dealt| - pos])
  }

  lemma DealtMore(dealt: seq<nat>, bag: seq<nat>, pos: nat)
    requires Dealt(dealt, bag, pos) && pos < 7
    ensures Dealt(dealt + [bag[pos]], bag, pos + 1) && bag[pos] < 7
  {
    var more := dealt + [bag[pos]];
    BagShape(bag, pos);
    assert more[..|more| - (pos + 1)] == dealt[..|dealt| - pos];
    assert more[|more| - (pos + 1)..] == dealt[|dealt| - pos..] + [bag[pos]];
  }

  lemma DealtWhole(dealt: seq<nat>, bag: seq<nat>, another: seq<nat>)
    requires Dealt(dealt, bag, 7) && IsBag(another)
    ensures Dealt(dealt, another, 0)
  {
    assert bag[..7] == bag;
    assert dealt[..|dealt|] == dealt;
  }

  class Bag {
    const bag: array<nat>
    var pos: nat
    ghost var dealt: seq<nat>

    ghost predicate Valid()
      reads this, bag
    {
      bag.Length == 7 && Dealt(dealt, bag[..], pos)
    }

    constructor (random: seq<nat>)
      requires |random| == 6
      ensures Valid() && dealt == [] && fresh(bag)
    {
      bag := new nat[7](_ => 0);
      pos := 0;
      dealt := [];
      new;
      Shuffle(random);
    }

    method Swap(i: nat, j: nat)
      requires bag.Length == 7 && i < 7 && j < 7
      modifies bag
      ensures multiset(bag[..]) == multiset(old(bag[..]))
    {
      bag[i], bag[j] := bag[j], bag[i];
    }

    /** Six exchanges, the last place first, each with a random place not after it. */
    method Shuffle(random: seq<nat>)
      requires |random| == 6 && bag.Length == 7
      modifies bag, this`pos
      ensures IsBag(bag[..]) && pos == 0
    {
      for i := 0 to 7
        invariant forall j | 0 <= j < i :: bag[j] == j
      {
        bag[i] := i;
      }
      assert bag[..] == [0, 1, 2, 3, 4, 5, 6];
      var k := 6;
      while k > 0
        invariant 0 <= k <= 6 && IsBag(bag[..])
      {
        Swap(k, random[6 - k] % (k + 1));
        k := k - 1;
      }
      pos := 0;
    }

    method Refill(random: seq<nat>)
      requires |random| == 6 && Valid() && pos == 7
      modifies bag, this`pos
      ensures Valid() && pos == 0
    {
      ghost var used := bag[..];
      Shuffle(random);
      DealtWhole(dealt, used, bag[..]);
    }

    method Deal() returns (shape: nat)
      requires Valid() && pos < 7
      modifies this`pos, this`dealt
      ensures Valid() && shape < 7 && dealt == old(dealt) + [shape]
    {
      DealtMore(dealt, bag[..], pos);
      shape := bag[pos];
      pos := pos + 1;
      dealt := dealt + [shape];
    }

    /** A used-up bag is shuffled first. */
    method Draw(random: seq<nat>) returns (shape: nat)
      requires |random| == 6 && Valid()
      modifies this, bag
      ensures Valid() && shape < 7 && dealt == old(dealt) + [shape]
    {
      if pos >= 7 {
        Refill(random);
      }
      shape := Deal();
    }
  }

  // ---------------------------------------------------------------- the loop

  class GameLoop {
    const grid: Field
    const current: Block
    const next: Block
    var over: bool
    var tick: nat
    var lastDrop: nat
    ghost var locked: nat
    ghost var cleared: nat

    ghost function Footprint(): set<object> { {this, grid, grid.rows, grid.colors, grid.relief, current, next} }

    ghost predicate Valid() {
      && grid.Valid() && current != next
    }

    ghost function State(): Played
      requires Valid()
      reads Footprint()
    {
      Played(Game(grid.State(), current.State(), next.State(), over, tick, lastDrop), locked, cleared)
    }

    constructor (first: nat, second: nat)
      requires first < 7 && second < 7
      ensures Valid() && fresh(Footprint()) && State() == Start(first, second)
    {
      grid := new Field();
      current := new Block(first);
      next := new Block(second);
      over, tick, lastDrop, locked, cleared := false, 0, 0, 0, 0;
    }

    method SettlePiece()
      requires Valid()
      modifies grid, grid.rows, grid.colors, grid.relief, this`locked, this`cleared
      ensures var added := Add(old(grid.State()), current.State());
              && grid.State() == ClearLines(added).0
              && cleared == old(cleared) + FullRows(added.rows)
              && locked == old(locked) + Inside(current.State(), 4)
    {
      locked := locked + Inside(current.State(), 4);
      grid.BlockAdd(current.Value());
      cleared := cleared + FullRows(grid.Board());
      var count := grid.ClearAll();
    }

    /** The next piece enters; the game is over if it has no room. */
    method NextPiece(shape: nat)
      requires Valid() && next.shape < 7 && shape < 7
      modifies current, next, this`over
      ensures current.State() == TetrisGame.Spawn(old(next.shape)) && next.State() == TetrisGame.Spawn(shape)
      ensures over == (old(over) || Collides(grid.Board(), current.State()))
    {
      var kind := next.shape;
      current.Spawn(kind);
      next.Spawn(shape);
      var hit := grid.BlockCollides(current.Value());
      if hit {
        over := true;
      }
    }

    /** The piece becomes part of the grid and the next one takes its place. */
    method LockPiece(shape: nat)
      requires Valid() && next.shape < 7 && shape < 7
      modifies Footprint()
      ensures State() == Lock(old(State()), shape)
    {
      SettlePiece();
      NextPiece(shape);
    }

    method DescendOrLock(shape: nat)
      requires Valid() && next.shape < 7 && shape < 7
      modifies Footprint()
      ensures State() == Descend(old(State()), shape)
    {
      var moved := current.Shift(grid, Down);
      if !moved {
        LockPiece(shape);
      }
    }

    method CountDrop(points: nat)
      requires Valid()
      modifies grid`score, this`lastDrop
      ensures State() == DroppedNow(Score(old(State()), points))
    {
      grid.score := (grid.score + points) % 0x1_0000_0000;
      lastDrop := tick;
    }

    method RememberDrop()
      requires Valid()
      modifies this`lastDrop
      ensures State() == DroppedNow(old(State()))
    {
      lastDrop := tick;
    }

    method SoftDropPiece(shape: nat)
      requires Valid() && next.shape < 7 && shape < 7
      modifies Footprint()
      ensures State() == DroppedNow(Score(Descend(old(State()), shape), 1))
    {
      DescendOrLock(shape);
      CountDrop(1);
    }

    method FallAndScore()
      requires Valid()
      modifies current, grid`score
      ensures var h := old(State());
              var q := Drop(h.game.grid.rows, h.game.current);
              State() == Score(WithCurrent(h, q), 2 * (h.game.current.y - q.y))
    {
      var distance := current.Fall(grid);
      grid.score := (grid.score + distance * 2) % 0x1_0000_0000;
    }

    method HardDropPiece(shape: nat)
      requires Valid() && next.shape < 7 && shape < 7
      modifies Footprint()
      ensures State() == Respond(old(State()), Event(HardDrop, shape, 0))
    {
      FallAndScore();
      LockPiece(shape);
      RememberDrop();
    }

    method HandleInput(e: Event)
      requires Valid() && next.shape < 7 && e.first < 7
      modifies Footprint()
      ensures State() == Respond(old(State()), e)
    {
      match e.input {
        case Nothing =>
        case MoveLeft => var moved := current.Shift(grid, Left);
        case MoveRight => var moved := current.Shift(grid, Right);
        case Turn => var turned := current.Turn(grid);
        case SoftDrop => SoftDropPiece(e.first);
        case HardDrop => HardDropPiece(e.first);
        case Pause(quit) =>
          if quit {
            over := true;
          } else {
            lastDrop := tick;
          }
        case Quit => over := true;
      }
    }

    method ApplyGravity(shape: nat)
      requires Valid() && next.shape < 7 && shape < 7
      modifies Footprint()
      ensures State() == Gravity(old(State()), shape)
    {
      tick := (tick + 1) % 0x1_0000_0000;
      if (tick - lastDrop) % 0x1_0000_0000 >= INTERVAL {
        DescendOrLock(shape);
        lastDrop := tick;
      }
    }

    method OnePass(e: Event)
      requires Valid() && Sound(State()) && e.first < 7 && e.second < 7
      modifies Footprint()
      ensures State() == Pass(old(State()), e) && Sound(State()) && PassDoes(old(State()), State(), e)
    {
      PassRules(State(), e);
      PassSound(State(), e);
      if !over {
        RespondSound(State(), e);
        HandleInput(e);
        if !over {
          ApplyGravity(e.second);
        }
      }
    }

    /** The whole loop, for any inputs. */
    method Loop(events: seq<Event>) returns (ghost states: seq<Played>)
      requires Valid() && Sound(State()) && Drawn(events)
      modifies Footprint()
      ensures State() == Play(old(State()), events) && Sound(State())
      ensures Went(states, events) && states[0] == old(State()) && states[|events|] == State()
    {
      states := EveryPassRuled(State(), events);
      var i := 0;
      while i < |events|
        invariant 0 <= i <= |events|
        invariant Sound(State()) && Drawn(events[..i])
        invariant State() == Play(old(State()), events[..i])
      {
        PlayOneMore(old(State()), events, i);
        OnePass(events[i]);
        i := i + 1;
      }
      assert events[..|events|] == events;
    }
  }

  lemma PlayOneMore(h: Played, events: seq<Event>, i: nat)
    requires Sound(h) && Drawn(events) && i < |events|
    ensures Drawn(events[..i]) && Drawn(events[..i + 1]) && events[i].first < 7 && events[i].second < 7
    ensures Play(h, events[..i + 1]) == Pass(Play(h, events[..i]), events[i])
  {
    assert events[..i + 1][..i] == events[..i];
    assert events[i] in events;
  }
}
