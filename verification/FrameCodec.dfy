/** Run-length and delta compression of animation frames, and what decoding their opcodes means. */
module FrameCodec {
  import opened Basics

  /** A palette index. */
  type Color = x: int | 0 <= x < 16

  type Frame = seq<Color>

  const END_OF_FRAME: Byte := 0xFF

  // ---------------------------------------------------------------- what opcodes mean

  datatype Action = Select(color: Color) | Skip(count: nat) | Repeat(count: nat) | Ignore | End

  function ParseBaseline(op: Byte): Action {
    if op == END_OF_FRAME then End
    else if op / 16 == 0 then Select(op % 16)
    else if op / 16 == 2 then Repeat(op % 16 + 1)
    else if op / 16 == 3 then Repeat((op % 16 + 1) * 16)
    else Ignore
  }

  function ParseDelta(op: Byte): Action {
    if op == END_OF_FRAME then End
    else if op / 16 == 0 then Select(op % 16)
    else if op / 16 == 1 then Skip(op % 16 + 1)
    else if op / 16 == 2 then Repeat(op % 16 + 1)
    else if op / 16 == 3 then Skip((op % 16 + 1) * 16)
    else if op / 16 == 4 then Repeat((op % 16 + 1) * 16)
    else if op / 16 == 5 then Skip((op % 16 + 1) * 64)
    else Ignore
  }

  function Parse(parse: Byte -> Action, ops: seq<Byte>): (actions: seq<Action>)
    ensures |actions| == |ops|
  {
    seq(|ops|, i requires 0 <= i < |ops| => parse(ops[i]))
  }

  function Solid(color: Color, n: nat): (f: Frame)
    ensures |f| == n
  {
    seq(n, _ => color)
  }

  /** The pixels that actions emit one after another; skips mean nothing here. */
  function Emit(color: Color, actions: seq<Action>): Frame
    decreases |actions|
  {
    if actions == [] then []
    else match actions[0]
      case End => []
      case Select(c) => Emit(c, actions[1..])
      case Repeat(n) => Solid(color, n) + Emit(color, actions[1..])
      case _ => Emit(color, actions[1..])
  }

  /** Paints count pixels from pos, stopping at the end of the frame. */
  function Paint(f: Frame, pos: nat, count: nat, color: Color): (g: Frame)
    ensures |g| == |f|
  {
    seq(|f|, i requires 0 <= i < |f| => if pos <= i < pos + count then color else f[i])
  }

  /** The frame that actions make of f, from pos on. */
  function Apply(f: Frame, pos: nat, color: Color, actions: seq<Action>): (g: Frame)
    ensures |g| == |f|
    decreases |actions|
  {
    if actions == [] || pos >= |f| then f
    else match actions[0]
      case End => f
      case Select(c) => Apply(f, pos, c, actions[1..])
      case Skip(n) => Apply(f, pos + n, color, actions[1..])
      case Repeat(n) => Apply(Paint(f, pos, n, color), pos + n, color, actions[1..])
      case Ignore => Apply(f, pos, color, actions[1..])
  }

  function DecodeBaseline(ops: seq<Byte>): Frame { Emit(0, Parse(ParseBaseline, ops)) }

  function DecodeDelta(p: Frame, ops: seq<Byte>): (f: Frame)
    ensures |f| == |p|
  {
    Apply(p, 0, 0, Parse(ParseDelta, ops))
  }

  // ---------------------------------------------------------------- what the encoders produce

  function MapColor(c: char): (p: Color)
    ensures p <= 12
  {
    match c
    case '.' => 1
    case '\'' => 2
    case '@' => 3
    case '%' => 4
    case '$' => 5
    case '-' => 6
    case '>' => 6
    case '&' => 7
    case '+' => 8
    case '#' => 9
    case '=' => 10
    case ';' => 11
    case '*' => 12
    case _ => 0
  }

  /** The colours in the order of their numbers; the two reds share theirs, and what is no colour is background. */
  lemma ColorsInOrder(i: nat, c: char)
    requires i < 13
    ensures MapColor(",.'@%$-&+#=;*"[i]) == i && MapColor('>') == MapColor('-')
    ensures c !in ",.'@%$-&+#=;*>" ==> MapColor(c) == 0
  {
    var colors := ",.'@%$-&+#=;*>";
    assert colors == [',', '.', '\'', '@', '%', '$', '-', '&', '+', '#', '=', ';', '*', '>'];
    assert forall k | 0 <= k < 14 :: colors[k] in colors;
  }

  function Colors(pixels: seq<char>): (f: Frame)
    ensures |f| == |pixels|
  {
    seq(|pixels|, i requires 0 <= i < |pixels| => MapColor(pixels[i]))
  }

  /** How much of a run of n the next repeat covers: all of it, or whole chunks of 16 up to 256. */
  function RepeatCount(n: nat): (c: nat)
    requires n > 0
    ensures 0 < c <= n
  {
    if n <= 16 then n else if n <= 256 then n / 16 * 16 else 256
  }

  /** The opcode for that chunk; the kind of the long form depends on the stream. */
  function RepeatOp(n: nat, long: nat): (op: Byte)
    requires n > 0 && (long == 3 || long == 4)
    ensures ParseBaseline(op) == (if n <= 16 || long == 3 then Repeat(RepeatCount(n)) else Ignore)
    ensures long == 4 ==> ParseDelta(op) == Repeat(RepeatCount(n))
  {
    if n <= 16 then 0x20 + n - 1 else if n <= 256 then 16 * long + n / 16 - 1 else 16 * long + 15
  }

  function RepeatOps(n: nat, long: nat): seq<Byte>
    requires long == 3 || long == 4
  {
    if n == 0 then [] else [RepeatOp(n, long)] + RepeatOps(n - RepeatCount(n), long)
  }

  /** How much of a stretch of n the next skip covers. */
  function SkipCount(n: nat): (c: nat)
    requires n > 0
    ensures 0 < c <= n
  {
    if n <= 16 then n else if n <= 256 then n / 16 * 16 else if n <= 1024 then n / 64 * 64 else 1024
  }

  function SkipOp(n: nat): (op: Byte)
    requires n > 0
    ensures ParseDelta(op) == Skip(SkipCount(n))
  {
    if n <= 16 then 0x10 + n - 1
    else if n <= 256 then 0x30 + n / 16 - 1
    else if n <= 1024 then 0x50 + n / 64 - 1
    else 0x50 + 15
  }

  function SkipOps(n: nat): seq<Byte> {
    if n == 0 then [] else [SkipOp(n)] + SkipOps(n - SkipCount(n))
  }

  function SelectOps(current: int, color: Color): (ops: seq<Byte>)
    ensures color != current ==> |ops| == 1 && ParseBaseline(ops[0]) == ParseDelta(ops[0]) == Select(color)
  {
    if color != current then [color] else []
  }

  /** The longest run of one colour from i. */
  function SameColor(f: Frame, i: nat, color: Color): (n: nat)
    ensures n == 0 || i + n <= |f|
    decreases |f| - i
  {
    if i < |f| && f[i] == color then 1 + SameColor(f, i + 1, color) else 0
  }

  /** The longest stretch from i that the previous frame already shows. */
  function Unchanged(p: Frame, f: Frame, i: nat): (n: nat)
    requires |p| == |f|
    ensures n == 0 || i + n <= |f|
    decreases |f| - i
  {
    if i < |f| && f[i] == p[i] then 1 + Unchanged(p, f, i + 1) else 0
  }

  /** The longest stretch from i of changed pixels of one colour. */
  function Changed(p: Frame, f: Frame, i: nat, color: Color): (n: nat)
    requires |p| == |f|
    ensures n == 0 || i + n <= |f|
    decreases |f| - i
  {
    if i < |f| && f[i] == color && p[i] != f[i] then 1 + Changed(p, f, i + 1, color) else 0
  }

  /** One round of the frame encoder: the colour if that is new, then the run's length. */
  function Run(f: Frame, i: nat, current: int): seq<Byte>
    requires i < |f|
  {
    SelectOps(current, f[i]) + RepeatOps(SameColor(f, i, f[i]), 3)
  }

  function EncodeFrom(f: Frame, i: nat, current: int): seq<Byte>
    requires i <= |f|
    decreases |f| - i
  {
    if i == |f| then [END_OF_FRAME]
    else Run(f, i, current) + EncodeFrom(f, i + SameColor(f, i, f[i]), f[i])
  }

  /** One round of the delta encoder: the pixels to skip, then a run to repaint unless the frame ends first. */
  function Round(p: Frame, f: Frame, i: nat, current: int): seq<Byte>
    requires |p| == |f| && i < |f|
  {
    var k := i + Unchanged(p, f, i);
    SkipOps(k - i)
    + if k == |f| then [] else SelectOps(current, f[k]) + RepeatOps(Changed(p, f, k, f[k]), 4)
  }

  function RoundEnd(p: Frame, f: Frame, i: nat): (end: nat)
    requires |p| == |f| && i < |f|
    ensures i < end <= |f|
  {
    var k := i + Unchanged(p, f, i);
    if k == |f| then k else
      UnchangedSpec(p, f, i);
      k + Changed(p, f, k, f[k])
  }

  function RoundColor(p: Frame, f: Frame, i: nat, current: int): int
    requires |p| == |f| && i < |f|
  {
    var k := i + Unchanged(p, f, i);
    if k == |f| then current else f[k]
  }

  function EncodeDeltaFrom(p: Frame, f: Frame, i: nat, current: int): seq<Byte>
    requires |p| == |f| && i <= |f|
    decreases |f| - i
  {
    if i == |f| then [END_OF_FRAME]
    else Round(p, f, i, current) + EncodeDeltaFrom(p, f, RoundEnd(p, f, i), RoundColor(p, f, i, current))
  }

  function Encode(f: Frame): seq<Byte> { EncodeFrom(f, 0, -1) }

  function EncodeDelta(p: Frame, f: Frame): seq<Byte>
    requires |p| == |f|
  {
    EncodeDeltaFrom(p, f, 0, -1)
  }

  // ---------------------------------------------------------------- the runs are maximal

  lemma {:induction false} SameColorSpec(f: Frame, i: nat, color: Color)
    ensures var n := SameColor(f, i, color);
            && (forall j | i <= j < i + n :: f[j] == color)
            && (i + n < |f| ==> f[i + n] != color)
    decreases |f| - i
  {
    if i < |f| && f[i] == color {
      SameColorSpec(f, i + 1, color);
    }
  }

  lemma {:induction false} UnchangedSpec(p: Frame, f: Frame, i: nat)
    requires |p| == |f|
    ensures var n := Unchanged(p, f, i);
            && (forall j | i <= j < i + n :: f[j] == p[j])
            && (i + n < |f| ==> f[i + n] != p[i + n])
    decreases |f| - i
  {
    if i < |f| && f[i] == p[i] {
      UnchangedSpec(p, f, i + 1);
    }
  }

  lemma {:induction false} ChangedSpec(p: Frame, f: Frame, i: nat, color: Color)
    requires |p| == |f|
    ensures var n := Changed(p, f, i, color);
            && (forall j | i <= j < i + n :: f[j] == color && p[j] != color)
            && (i + n < |f| ==> f[i + n] != color || p[i + n] == color)
    decreases |f| - i
  {
    if i < |f| && f[i] == color && p[i] != f[i] {
      ChangedSpec(p, f, i + 1, color);
    }
  }

  // ---------------------------------------------------------------- round trips

  lemma ParseConcat(parse: Byte -> Action, a: seq<Byte>, b: seq<Byte>)
    ensures Parse(parse, a + b) == Parse(parse, a) + Parse(parse, b)
  {
  }

  lemma EmitFirst(color: Color, action: Action, rest: seq<Action>)
    ensures Emit(color, [action] + rest) ==
            if action.End? then []
            else if action.Select? then Emit(action.color, rest)
            else if action.Repeat? then Solid(color, action.count) + Emit(color, rest)
            else Emit(color, rest)
  {
    assert ([action] + rest)[1..] == rest;
  }

  lemma SolidSplit(color: Color, a: nat, b: nat, rest: Frame)
    ensures Solid(color, a) + (Solid(color, b) + rest) == Solid(color, a + b) + rest
  {
  }

  lemma {:induction false} RepeatsEmit(n: nat, color: Color, rest: seq<Action>)
    ensures Emit(color, Parse(ParseBaseline, RepeatOps(n, 3)) + rest) == Solid(color, n) + Emit(color, rest)
    decreases n
  {
    var actions := Parse(ParseBaseline, RepeatOps(n, 3));
    if n == 0 {
      assert actions + rest == rest;
      assert Solid(color, 0) + Emit(color, rest) == Emit(color, rest);
    } else {
      var count := RepeatCount(n);
      var more := Parse(ParseBaseline, RepeatOps(n - count, 3));
      assert actions + rest == [Repeat(count)] + (more + rest);
      EmitFirst(color, Repeat(count), more + rest);
      RepeatsEmit(n - count, color, rest);
      SolidSplit(color, count, n - count, Emit(color, rest));
    }
  }

  lemma SelectEmits(current: int, color: Color, was: Color, rest: seq<Action>)
    requires current == -1 || current == was
    ensures Emit(was, Parse(ParseBaseline, SelectOps(current, color)) + rest) == Emit(color, rest)
  {
    var actions := Parse(ParseBaseline, SelectOps(current, color));
    if color != current {
      assert actions == [Select(color)];
      EmitFirst(was, Select(color), rest);
    } else {
      assert actions + rest == rest;
    }
  }

  lemma RunDecodes(current: int, color: Color, was: Color, n: nat, rest: seq<Byte>)
    requires current == -1 || current == was
    ensures Emit(was, Parse(ParseBaseline, SelectOps(current, color) + RepeatOps(n, 3) + rest))
         == Solid(color, n) + Emit(color, Parse(ParseBaseline, rest))
  {
    var a, b, c := Parse(ParseBaseline, SelectOps(current, color)), Parse(ParseBaseline, RepeatOps(n, 3)),
                   Parse(ParseBaseline, rest);
    ParseConcat(ParseBaseline, SelectOps(current, color) + RepeatOps(n, 3), rest);
    ParseConcat(ParseBaseline, SelectOps(current, color), RepeatOps(n, 3));
    assert a + b + c == a + (b + c);
    SelectEmits(current, color, was, b + c);
    RepeatsEmit(n, color, c);
  }

  lemma RunIsSolid(f: Frame, i: nat)
    requires i < |f|
    ensures var n := SameColor(f, i, f[i]); n > 0 && i + n <= |f| && f[i..] == Solid(f[i], n) + f[i + n..]
  {
    SameColorSpec(f, i, f[i]);
  }

  lemma {:induction false} EncodeFromDecodes(f: Frame, i: nat, current: int, was: Color)
    requires i <= |f| && (current == -1 || current == was)
    ensures Emit(was, Parse(ParseBaseline, EncodeFrom(f, i, current))) == f[i..]
    decreases |f| - i
  {
    if i < |f| {
      RunIsSolid(f, i);
      var n := SameColor(f, i, f[i]);
      EncodeFromDecodes(f, i + n, f[i], f[i]);
      RunDecodes(current, f[i], was, n, EncodeFrom(f, i + n, f[i]));
    } else {
      assert Parse(ParseBaseline, [END_OF_FRAME]) == [End];
    }
  }

  /** Decoding a frame's run-length code gives the frame back, whatever its size. */
  lemma BaselineRoundTrip(f: Frame)
    ensures DecodeBaseline(Encode(f)) == f
  {
    EncodeFromDecodes(f, 0, -1, 0);
  }

  lemma ApplyFirst(f: Frame, pos: nat, color: Color, action: Action, rest: seq<Action>)
    requires pos < |f|
    ensures Apply(f, pos, color, [action] + rest) ==
            if action.End? then f
            else if action.Select? then Apply(f, pos, action.color, rest)
            else if action.Skip? then Apply(f, pos + action.count, color, rest)
            else if action.Repeat? then Apply(Paint(f, pos, action.count, color), pos + action.count, color, rest)
            else Apply(f, pos, color, rest)
  {
    assert ([action] + rest)[1..] == rest;
  }

  lemma {:induction false} SkipsSkip(n: nat, f: Frame, pos: nat, color: Color, rest: seq<Action>)
    requires pos + n <= |f|
    ensures Apply(f, pos, color, Parse(ParseDelta, SkipOps(n)) + rest) == Apply(f, pos + n, color, rest)
    decreases n
  {
    var actions := Parse(ParseDelta, SkipOps(n));
    if n == 0 {
      assert actions + rest == rest;
    } else {
      var count := SkipCount(n);
      var more := Parse(ParseDelta, SkipOps(n - count));
      assert actions + rest == [Skip(count)] + (more + rest);
      ApplyFirst(f, pos, color, Skip(count), more + rest);
      SkipsSkip(n - count, f, pos + count, color, rest);
    }
  }

  lemma PaintMore(f: Frame, pos: nat, a: nat, b: nat, color: Color)
    ensures Paint(Paint(f, pos, a, color), pos + a, b, color) == Paint(f, pos, a + b, color)
  {
  }

  lemma {:induction false} RepeatsPaint(n: nat, f: Frame, pos: nat, color: Color, rest: seq<Action>)
    requires pos + n <= |f|
    ensures Apply(f, pos, color, Parse(ParseDelta, RepeatOps(n, 4)) + rest)
         == Apply(Paint(f, pos, n, color), pos + n, color, rest)
    decreases n
  {
    var actions := Parse(ParseDelta, RepeatOps(n, 4));
    if n == 0 {
      assert actions + rest == rest;
      assert Paint(f, pos, 0, color) == f;
    } else {
      var count := RepeatCount(n);
      var more := Parse(ParseDelta, RepeatOps(n - count, 4));
      assert actions + rest == [Repeat(count)] + (more + rest);
      ApplyFirst(f, pos, color, Repeat(count), more + rest);
      RepeatsPaint(n - count, Paint(f, pos, count, color), pos + count, color, rest);
      PaintMore(f, pos, count, n - count, color);
    }
  }

  lemma SelectApplies(current: int, color: Color, was: Color, f: Frame, pos: nat, rest: seq<Action>)
    requires (current == -1 || current == was) && pos < |f|
    ensures Apply(f, pos, was, Parse(ParseDelta, SelectOps(current, color)) + rest) == Apply(f, pos, color, rest)
  {
    var actions := Parse(ParseDelta, SelectOps(current, color));
    if color != current {
      assert actions == [Select(color)];
      ApplyFirst(f, pos, was, Select(color), rest);
    } else {
      assert actions + rest == rest;
    }
  }

  /** The frame decoded so far: new up to i, old from there. */
  function Mixed(p: Frame, f: Frame, i: nat): (g: Frame)
    requires |p| == |f| && i <= |f|
    ensures |g| == |f|
  {
    f[..i] + p[i..]
  }

  lemma MixedRun(p: Frame, f: Frame, i: nat)
    requires |p| == |f| && i < |f|
    ensures var k := i + Unchanged(p, f, i);
            && Mixed(p, f, i) == Mixed(p, f, k)
            && (k < |f| ==>
                 var n := Changed(p, f, k, f[k]);
                 n > 0 && Paint(Mixed(p, f, k), k, n, f[k]) == Mixed(p, f, k + n))
  {
    UnchangedSpec(p, f, i);
    var k := i + Unchanged(p, f, i);
    if k < |f| {
      ChangedSpec(p, f, k, f[k]);
    }
  }

  lemma ParseFour(parse: Byte -> Action, a: seq<Byte>, b: seq<Byte>, c: seq<Byte>, d: seq<Byte>)
    ensures Parse(parse, a + (b + c) + d) == Parse(parse, a) + (Parse(parse, b) + (Parse(parse, c) + Parse(parse, d)))
  {
  }

  lemma RunApplies(m: Frame, i: nat, s: nat, n: nat, current: int, was: Color, color: Color, rest: seq<Byte>)
    requires n > 0 && i + s + n <= |m| && (current == -1 || current == was)
    ensures Apply(m, i, was, Parse(ParseDelta, SkipOps(s) + (SelectOps(current, color) + RepeatOps(n, 4)) + rest))
         == Apply(Paint(m, i + s, n, color), i + s + n, color, Parse(ParseDelta, rest))
  {
    ParseFour(ParseDelta, SkipOps(s), SelectOps(current, color), RepeatOps(n, 4), rest);
    var after := Parse(ParseDelta, rest);
    var repeats := Parse(ParseDelta, RepeatOps(n, 4)) + after;
    SkipsSkip(s, m, i, was, Parse(ParseDelta, SelectOps(current, color)) + repeats);
    SelectApplies(current, color, was, m, i + s, repeats);
    RepeatsPaint(n, m, i + s, color, after);
  }

  /** One round of the encoder decodes to one more stretch of the new frame. */
  lemma RoundApplies(p: Frame, f: Frame, i: nat, current: int, was: Color, rest: seq<Byte>)
    requires |p| == |f| && i < |f| && (current == -1 || current == was)
    ensures var end, color := RoundEnd(p, f, i), RoundColor(p, f, i, current);
            Apply(Mixed(p, f, i), i, was, Parse(ParseDelta, Round(p, f, i, current) + rest))
            == Apply(Mixed(p, f, end), end, if color == -1 then was else color, Parse(ParseDelta, rest))
  {
    MixedRun(p, f, i);
    var m := Mixed(p, f, i);
    var s := Unchanged(p, f, i);
    if i + s == |f| {
      assert Round(p, f, i, current) == SkipOps(s);
      ParseConcat(ParseDelta, SkipOps(s), rest);
      SkipsSkip(s, m, i, was, Parse(ParseDelta, rest));
    } else {
      RunApplies(m, i, s, Changed(p, f, i + s, f[i + s]), current, was, f[i + s], rest);
    }
  }

  lemma {:induction false} EncodeDeltaDecodes(p: Frame, f: Frame, i: nat, current: int, was: Color)
    requires |p| == |f| && i <= |f| && (current == -1 || current == was)
    ensures Apply(Mixed(p, f, i), i, was, Parse(ParseDelta, EncodeDeltaFrom(p, f, i, current))) == f
    decreases |f| - i
  {
    if i == |f| {
      assert Mixed(p, f, i) == f;
    } else {
      var end, color := RoundEnd(p, f, i), RoundColor(p, f, i, current);
      RoundApplies(p, f, i, current, was, EncodeDeltaFrom(p, f, end, color));
      EncodeDeltaDecodes(p, f, end, color, if color == -1 then was else color);
    }
  }

  /** Decoding a delta over the frame it was made against gives the new frame, whatever its size. */
  lemma DeltaRoundTrip(p: Frame, f: Frame)
    requires |p| == |f|
    ensures DecodeDelta(p, EncodeDelta(p, f)) == f
  {
    assert Mixed(p, f, 0) == p;
    EncodeDeltaDecodes(p, f, 0, -1, 0);
  }

  // ---------------------------------------------------------------- any stream of opcodes

  lemma {:induction false} EmitPast(color: Color, a: seq<Action>, x: Action, b: seq<Action>)
    ensures x.Ignore? ==> Emit(color, a + ([x] + b)) == Emit(color, a + b)
    ensures x.End? ==> Emit(color, a + ([x] + b)) == Emit(color, a)
    decreases |a|
  {
    if a == [] {
      assert a + ([x] + b) == [x] + b && a + b == b;
      EmitFirst(color, x, b);
    } else {
      var first, rest := a[0], a[1..];
      assert a + ([x] + b) == [first] + (rest + ([x] + b)) && a + b == [first] + (rest + b) && a == [first] + rest;
      EmitFirst(color, first, rest + ([x] + b));
      EmitFirst(color, first, rest + b);
      EmitFirst(color, first, rest);
      EmitPast(color, rest, x, b);
      if first.Select? {
        EmitPast(first.color, rest, x, b);
      }
    }
  }

  /** A frame's opcodes of no meaning do nothing wherever they stand, and what follows the end mark does not count. */
  lemma BaselineStream(a: seq<Byte>, op: Byte, b: seq<Byte>)
    ensures op / 16 !in {0, 2, 3} && op != 0xFF ==> DecodeBaseline(a + [op] + b) == DecodeBaseline(a + b)
    ensures op == 0xFF ==> DecodeBaseline(a + [op] + b) == DecodeBaseline(a)
  {
    ParseConcat(ParseBaseline, a, [op] + b);
    ParseConcat(ParseBaseline, [op], b);
    ParseConcat(ParseBaseline, a, b);
    assert a + [op] + b == a + ([op] + b);
    assert Parse(ParseBaseline, [op]) == [ParseBaseline(op)];
    EmitPast(0, Parse(ParseBaseline, a), ParseBaseline(op), Parse(ParseBaseline, b));
  }

  lemma ApplyOutside(f: Frame, pos: nat, color: Color, actions: seq<Action>)
    requires pos >= |f|
    ensures Apply(f, pos, color, actions) == f
  {
  }

  lemma {:induction false} ApplyPast(f: Frame, pos: nat, color: Color, a: seq<Action>, x: Action, b: seq<Action>)
    ensures x.Ignore? ==> Apply(f, pos, color, a + ([x] + b)) == Apply(f, pos, color, a + b)
    ensures x.End? ==> Apply(f, pos, color, a + ([x] + b)) == Apply(f, pos, color, a)
    decreases |a|
  {
    if pos >= |f| {
      ApplyOutside(f, pos, color, a + ([x] + b));
      ApplyOutside(f, pos, color, a + b);
      ApplyOutside(f, pos, color, a);
    } else if a == [] {
      assert a + ([x] + b) == [x] + b && a + b == b;
      ApplyFirst(f, pos, color, x, b);
    } else {
      var first, rest := a[0], a[1..];
      assert a + ([x] + b) == [first] + (rest + ([x] + b)) && a + b == [first] + (rest + b) && a == [first] + rest;
      ApplyFirst(f, pos, color, first, rest + ([x] + b));
      ApplyFirst(f, pos, color, first, rest + b);
      ApplyFirst(f, pos, color, first, rest);
      match first
      case Select(c) => ApplyPast(f, pos, c, rest, x, b);
      case Skip(n) => ApplyPast(f, pos + n, color, rest, x, b);
      case Repeat(n) => ApplyPast(Paint(f, pos, n, color), pos + n, color, rest, x, b);
      case Ignore => ApplyPast(f, pos, color, rest, x, b);
      case End =>
    }
  }

  /** The same for deltas, which know more opcodes. */
  lemma DeltaStream(p: Frame, a: seq<Byte>, op: Byte, b: seq<Byte>)
    ensures op / 16 > 5 && op != 0xFF ==> DecodeDelta(p, a + [op] + b) == DecodeDelta(p, a + b)
    ensures op == 0xFF ==> DecodeDelta(p, a + [op] + b) == DecodeDelta(p, a)
  {
    ParseConcat(ParseDelta, a, [op] + b);
    ParseConcat(ParseDelta, [op], b);
    ParseConcat(ParseDelta, a, b);
    assert a + [op] + b == a + ([op] + b);
    assert Parse(ParseDelta, [op]) == [ParseDelta(op)];
    ApplyPast(p, 0, 0, Parse(ParseDelta, a), ParseDelta(op), Parse(ParseDelta, b));
  }

  // ---------------------------------------------------------------- animations

  /** The baseline decoder on the device: truncated to the buffer, or filled up with background. */
  function Fit(f: Frame, n: nat): (g: Frame)
    ensures |g| == n && forall i | 0 <= i < n :: g[i] == if i < |f| then f[i] else 0
  {
    if |f| >= n then f[..n] else f + Solid(0, n - |f|)
  }

  ghost predicate SameSize(fs: seq<Frame>, n: nat) { forall k | 0 <= k < |fs| :: |fs[k]| == n }

  /** The first frame stands alone; every later one is a delta against its predecessor. */
  function EncodeAt(fs: seq<Frame>, n: nat, k: nat): seq<Byte>
    requires SameSize(fs, n) && k < |fs|
  {
    if k == 0 then Encode(fs[0]) else EncodeDelta(fs[k - 1], fs[k])
  }

  function EncodeAll(fs: seq<Frame>, n: nat): (cs: seq<seq<Byte>>)
    requires SameSize(fs, n)
    ensures |cs| == |fs|
  {
    seq(|fs|, k requires 0 <= k < |fs| => EncodeAt(fs, n, k))
  }

  /** Frame k made of its opcodes and whatever the buffer held. */
  function Load(was: Frame, data: seq<Byte>, k: nat): (now: Frame)
    ensures |now| == |was|
  {
    if k == 0 then Fit(DecodeBaseline(data), |was|) else DecodeDelta(was, data)
  }

  /** The buffer after loading the first k frames one over the other. */
  function Play(load: (Frame, seq<Byte>, nat) -> Frame, cs: seq<seq<Byte>>, blank: Frame, k: nat): Frame
    requires k <= |cs|
  {
    if k == 0 then blank else load(Play(load, cs, blank, k - 1), cs[k - 1], k - 1)
  }

  lemma LoadStep(fs: seq<Frame>, n: nat, k: nat, was: Frame)
    requires SameSize(fs, n) && k < |fs| && |was| == n && (k > 0 ==> was == fs[k - 1])
    ensures Load(was, EncodeAt(fs, n, k), k) == fs[k]
  {
    if k == 0 {
      BaselineRoundTrip(fs[0]);
    } else {
      DeltaRoundTrip(fs[k - 1], fs[k]);
    }
  }

  lemma {:induction false} PlayReproduces(load: (Frame, seq<Byte>, nat) -> Frame, cs: seq<seq<Byte>>, fs: seq<Frame>,
                                          blank: Frame, k: nat)
    requires |cs| == |fs| && 0 < k <= |fs|
    requires load(blank, cs[0], 0) == fs[0]
    requires forall i | 0 < i < |fs| :: load(fs[i - 1], cs[i], i) == fs[i]
    ensures Play(load, cs, blank, k) == fs[k - 1]
  {
    if k == 1 {
      assert Play(load, cs, blank, 0) == blank;
    } else {
      PlayReproduces(load, cs, fs, blank, k - 1);
    }
  }

  /** Decoding a compressed animation in order, each delta over the frame decoded before it, reproduces every frame. */
  lemma AnimationRoundTrip(fs: seq<Frame>, n: nat, blank: Frame, k: nat)
    requires SameSize(fs, n) && |blank| == n && k < |fs|
    ensures Play(Load, EncodeAll(fs, n), blank, k + 1) == fs[k]
  {
    LoadStep(fs, n, 0, blank);
    forall i | 0 < i < |fs| ensures Load(fs[i - 1], EncodeAll(fs, n)[i], i) == fs[i] {
      LoadStep(fs, n, i, fs[i - 1]);
    }
    PlayReproduces(Load, EncodeAll(fs, n), fs, blank, k + 1);
  }

  // ---------------------------------------------------------------- the 16-bit offset table

  function Flatten(cs: seq<seq<Byte>>): seq<Byte> {
    if cs == [] then [] else Flatten(cs[..|cs| - 1]) + cs[|cs| - 1]
  }

  function Offset(cs: seq<seq<Byte>>, k: nat): nat
    requires k <= |cs|
  {
    |Flatten(cs[..k])|
  }

  /** What the device reads as frame k: both ends come through 16-bit variables. */
  function Slice(cs: seq<seq<Byte>>, k: nat): seq<Byte>
    requires k < |cs|
  {
    var data := Flatten(cs);
    var lo, hi := Offset(cs, k) % 0x10000, Offset(cs, k + 1) % 0x10000;
    if lo <= hi <= |data| then data[lo..hi] else []
  }

  lemma {:induction false} FlattenSplit(cs: seq<seq<Byte>>, k: nat)
    requires k < |cs|
    ensures Offset(cs, k + 1) == Offset(cs, k) + |cs[k]| <= |Flatten(cs)|
    ensures Flatten(cs)[Offset(cs, k)..Offset(cs, k + 1)] == cs[k]
    decreases |cs|
  {
    assert cs[..k + 1][..k] == cs[..k];
    if k == |cs| - 1 {
      assert cs[..k + 1] == cs;
    } else {
      var front := cs[..|cs| - 1];
      FlattenSplit(front, k);
      assert front[..k] == cs[..k] && front[..k + 1] == cs[..k + 1];
    }
  }

  /** The frame whose end offset is the first beyond 16 bits. */
  lemma {:induction false} Crossing(cs: seq<seq<Byte>>, m: nat) returns (k: nat)
    requires m <= |cs| && Offset(cs, m) >= 0x10000
    ensures k < m && Offset(cs, k) < 0x10000 <= Offset(cs, k + 1)
  {
    assert cs[..0] == [];
    if Offset(cs, m - 1) < 0x10000 {
      k := m - 1;
    } else {
      k := Crossing(cs, m - 1);
    }
  }

  lemma SliceWhole(cs: seq<seq<Byte>>, k: nat)
    requires k < |cs| && |Flatten(cs)| < 0x10000
    ensures Slice(cs, k) == cs[k]
  {
    FlattenSplit(cs, k);
    SmallModulo(Offset(cs, k));
    SmallModulo(Offset(cs, k + 1));
  }

  lemma SmallModulo(x: nat)
    requires x < 0x10000
    ensures x % 0x10000 == x
  {
  }

  lemma SliceBroken(cs: seq<seq<Byte>>, k: nat)
    requires k < |cs| && Offset(cs, k) < 0x10000 <= Offset(cs, k + 1)
    ensures Slice(cs, k) != cs[k]
  {
    FlattenSplit(cs, k);
    assert |Slice(cs, k)| < |cs[k]|;
  }

  /** Every frame is read back whole exactly when the compressed animation is shorter than 64 KiB. */
  lemma OffsetsExactlyWhen(cs: seq<seq<Byte>>)
    ensures (forall k | 0 <= k < |cs| :: Slice(cs, k) == cs[k]) <==> |Flatten(cs)| < 0x10000
  {
    if |Flatten(cs)| < 0x10000 {
      forall k | 0 <= k < |cs| ensures Slice(cs, k) == cs[k] {
        SliceWhole(cs, k);
      }
    } else {
      assert cs[..|cs|] == cs;
      var k := Crossing(cs, |cs|);
      SliceBroken(cs, k);
    }
  }
}
