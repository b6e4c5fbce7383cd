/** The generator's encoders and decoders and the device's in-place decoder, against what the opcodes mean. */
module FrameTools {
  import opened Basics
  import opened FrameCodec

  // ---------------------------------------------------------------- the generator

  method EmitRepeats(opcodes: seq<Byte>, count: nat, long: nat) returns (out: seq<Byte>)
    requires long == 3 || long == 4
    ensures out == opcodes + RepeatOps(count, long)
  {
    out := opcodes;
    var remaining: int := count;
    while remaining > 0
      invariant remaining >= 0
      invariant out + RepeatOps(remaining, long) == opcodes + RepeatOps(count, long)
    {
      ghost var was, before := remaining, out;
      if remaining <= 16 {
        out := out + [0x20 + (remaining - 1)];
        remaining := 0;
      } else if remaining <= 256 {
        var chunks: int := if remaining / 16 < 16 then remaining / 16 else 16;
        out := out + [16 * long + (chunks - 1)];
        remaining := remaining - chunks * 16;
      } else {
        out := out + [16 * long + 0x0F];
        remaining := remaining - 256;
      }
      assert out == before + [RepeatOp(was, long)] && remaining == was - RepeatCount(was);
      assert out + RepeatOps(remaining, long) == before + ([RepeatOp(was, long)] + RepeatOps(remaining, long));
    }
  }

  method EmitSkips(opcodes: seq<Byte>, count: nat) returns (out: seq<Byte>)
    ensures out == opcodes + SkipOps(count)
  {
    out := opcodes;
    var remaining: int := count;
    while remaining > 0
      invariant remaining >= 0
      invariant out + SkipOps(remaining) == opcodes + SkipOps(count)
    {
      ghost var was, before := remaining, out;
      if remaining <= 16 {
        out := out + [0x10 + (remaining - 1)];
        remaining := 0;
      } else if remaining <= 256 {
        var chunks: int := if remaining / 16 < 16 then remaining / 16 else 16;
        out := out + [0x30 + (chunks - 1)];
        remaining := remaining - chunks * 16;
      } else if remaining <= 1024 {
        var chunks: int := if remaining / 64 < 16 then remaining / 64 else 16;
        out := out + [0x50 + (chunks - 1)];
        remaining := remaining - chunks * 64;
      } else {
        out := out + [0x50 + 0x0F];
        remaining := remaining - 1024;
      }
      assert out == before + [SkipOp(was)] && remaining == was - SkipCount(was);
      assert out + SkipOps(remaining) == before + ([SkipOp(was)] + SkipOps(remaining));
    }
  }

  method CountSame(pixels: seq<char>, i: nat, color: Color) returns (count: nat)
    requires i < |pixels| && MapColor(pixels[i]) == color
    ensures count == SameColor(Colors(pixels), i, color) && 0 < count && i + count <= |pixels|
  {
    ghost var f := Colors(pixels);
    count := 1;
    while i + count < |pixels| && MapColor(pixels[i + count]) == color
      invariant 1 <= count && i + count <= |pixels|
      invariant count + SameColor(f, i + count, color) == SameColor(f, i, color)
    {
      count := count + 1;
    }
  }

  /** One run of the frame encoder. */
  method EmitRun(opcodes: seq<Byte>, pixels: seq<char>, i: nat, current: int)
    returns (out: seq<Byte>, next: nat, color: int)
    requires i < |pixels|
    ensures var f := Colors(pixels);
            && color == f[i] && next == i + SameColor(f, i, f[i]) && i < next <= |f|
            && out == opcodes + Run(f, i, current)
  {
    color := MapColor(pixels[i]);
    out := opcodes;
    if color != current {
      out := out + [color];
    }
    assert out == opcodes + SelectOps(current, color);
    var count := CountSame(pixels, i, color);
    out := EmitRepeats(out, count, 3);
    next := i + count;
  }

  lemma RoundJoins(done: seq<Byte>, round: seq<Byte>, rest: seq<Byte>)
    ensures done + round + rest == done + (round + rest)
  {
  }

  lemma RunRemains(opcodes: seq<Byte>, f: Frame, i: nat, current: int)
    requires i < |f|
    ensures i + SameColor(f, i, f[i]) <= |f|
    ensures opcodes + EncodeFrom(f, i, current) == opcodes + Run(f, i, current) + EncodeFrom(f, i + SameColor(f, i, f[i]), f[i])
  {
    RoundJoins(opcodes, Run(f, i, current), EncodeFrom(f, i + SameColor(f, i, f[i]), f[i]));
  }

  lemma RoundRemains(opcodes: seq<Byte>, p: Frame, f: Frame, i: nat, current: int)
    requires |p| == |f| && i < |f|
    ensures opcodes + EncodeDeltaFrom(p, f, i, current) ==
            opcodes + Round(p, f, i, current) + EncodeDeltaFrom(p, f, RoundEnd(p, f, i), RoundColor(p, f, i, current))
  {
    RoundJoins(opcodes, Round(p, f, i, current), EncodeDeltaFrom(p, f, RoundEnd(p, f, i), RoundColor(p, f, i, current)));
  }

  /** One run, and what remains to be emitted after it. */
  method EmitNextRun(opcodes: seq<Byte>, pixels: seq<char>, i: nat, current: int)
    returns (out: seq<Byte>, next: nat, color: int)
    requires i < |pixels|
    ensures i < next <= |pixels|
    ensures out + EncodeFrom(Colors(pixels), next, color) == opcodes + EncodeFrom(Colors(pixels), i, current)
  {
    RunRemains(opcodes, Colors(pixels), i, current);
    out, next, color := EmitRun(opcodes, pixels, i, current);
  }

  /** A frame of the wrong size is refused. */
  method CompressFrame(pixels: seq<char>, size: nat) returns (r: Option<seq<Byte>>)
    ensures r == if |pixels| == size then Some(Encode(Colors(pixels))) else None
  {
    if |pixels| != size {
      return None;
    }
    var opcodes: seq<Byte> := [];
    var i: nat := 0;
    var current: int := -1;
    while i < |pixels|
      invariant i <= |pixels|
      invariant opcodes + EncodeFrom(Colors(pixels), i, current) == Encode(Colors(pixels))
    {
      opcodes, i, current := EmitNextRun(opcodes, pixels, i, current);
    }
    return Some(opcodes + [END_OF_FRAME]);
  }

  method CountChanged(p: Frame, f: Frame, k: nat, color: Color) returns (run: nat)
    requires |p| == |f| && k < |f| && p[k] != f[k] && f[k] == color
    ensures run == Changed(p, f, k, color) && k + run <= |f|
  {
    run := 1;
    while k + run < |f| && f[k + run] == color && p[k + run] != f[k + run]
      invariant 1 <= run && k + run <= |f|
      invariant run + Changed(p, f, k + run, color) == Changed(p, f, k, color)
    {
      run := run + 1;
    }
  }

  method EmitChanged(opcodes: seq<Byte>, p: Frame, f: Frame, k: nat, current: int)
    returns (out: seq<Byte>, next: nat, color: int)
    requires |p| == |f| && k < |f| && p[k] != f[k]
    ensures color == f[k] && next == k + Changed(p, f, k, f[k]) <= |f|
    ensures out == opcodes + (SelectOps(current, f[k]) + RepeatOps(Changed(p, f, k, f[k]), 4))
  {
    color := f[k];
    out := opcodes;
    if color != current {
      out := out + [color];
    }
    assert out == opcodes + SelectOps(current, color);
    var run := CountChanged(p, f, k, color);
    out := EmitRepeats(out, run, 4);
    next := k + run;
    RoundJoins(opcodes, SelectOps(current, color), RepeatOps(run, 4));
  }

  method CountUnchanged(p: Frame, f: Frame, i: nat) returns (skip: nat)
    requires |p| == |f| && i <= |f|
    ensures skip == Unchanged(p, f, i)
  {
    skip := 0;
    while i + skip < |f| && p[i + skip] == f[i + skip]
      invariant i + skip <= |f|
      invariant skip + Unchanged(p, f, i + skip) == Unchanged(p, f, i)
    {
      skip := skip + 1;
    }
  }

  /** One round of the delta encoder. */
  method EmitRound(opcodes: seq<Byte>, p: Frame, f: Frame, i: nat, current: int)
    returns (out: seq<Byte>, next: nat, color: int)
    requires |p| == |f| && i < |f|
    ensures out == opcodes + Round(p, f, i, current)
    ensures next == RoundEnd(p, f, i) && color == RoundColor(p, f, i, current)
  {
    var skip := CountUnchanged(p, f, i);
    UnchangedSpec(p, f, i);
    out, next, color := opcodes, i, current;
    if skip > 0 {
      out := EmitSkips(opcodes, skip);
      next := i + skip;
    }
    assert out == opcodes + SkipOps(skip);
    if next < |f| {
      RoundJoins(opcodes, SkipOps(skip), SelectOps(current, f[next]) + RepeatOps(Changed(p, f, next, f[next]), 4));
      out, next, color := EmitChanged(out, p, f, next, current);
    }
  }

  method CompressDelta(prev: seq<char>, curr: seq<char>, size: nat) returns (r: Option<seq<Byte>>)
    ensures r == if |prev| == size && |curr| == size then Some(EncodeDelta(Colors(prev), Colors(curr))) else None
  {
    if |prev| != size || |curr| != size {
      return None;
    }
    var p, f := Colors(prev), Colors(curr);
    var opcodes: seq<Byte> := [];
    var i: nat := 0;
    var current: int := -1;
    while i < size
      invariant i <= size
      invariant opcodes + EncodeDeltaFrom(p, f, i, current) == EncodeDelta(p, f)
    {
      RoundRemains(opcodes, p, f, i, current);
      opcodes, i, current := EmitRound(opcodes, p, f, i, current);
    }
    return Some(opcodes + [END_OF_FRAME]);
  }

  lemma Unparsed(parse: Byte -> Action, ops: seq<Byte>, i: nat)
    requires i < |ops|
    ensures Parse(parse, ops)[i..] == [parse(ops[i])] + Parse(parse, ops)[i + 1..]
  {
  }

  /** One opcode of a frame's stream. */
  method BaselineStep(out: Frame, color: Color, opcode: Byte, ghost rest: seq<Action>) returns (more: Frame, next: Color)
    requires opcode != 0xFF
    ensures more + Emit(next, rest) == out + Emit(color, [ParseBaseline(opcode)] + rest)
  {
    more, next := out, color;
    EmitFirst(color, ParseBaseline(opcode), rest);
    if opcode / 16 == 0 {
      next := opcode % 16;
    } else if opcode / 16 == 2 {
      var count := opcode % 16 + 1;
      more := out + seq(count, _ => color);
    } else if opcode / 16 == 3 {
      var count := (opcode % 16 + 1) * 16;
      more := out + seq(count, _ => color);
    }
  }

  method DecompressBaseline(opcodes: seq<Byte>) returns (out: Frame)
    ensures out == DecodeBaseline(opcodes)
  {
    out := [];
    var color: Color := 0;
    var i := 0;
    ghost var actions := Parse(ParseBaseline, opcodes);
    while i < |opcodes|
      invariant 0 <= i <= |opcodes|
      invariant out + Emit(color, actions[i..]) == DecodeBaseline(opcodes)
    {
      var opcode := opcodes[i];
      i := i + 1;
      Unparsed(ParseBaseline, opcodes, i - 1);
      if opcode == 0xFF {
        EmitFirst(color, ParseBaseline(opcode), actions[i..]);
        assert out + [] == out;
        return;
      }
      out, color := BaselineStep(out, color, opcode, actions[i..]);
    }
    assert actions[i..] == [] && out + [] == out;
  }

  /** One opcode of a delta stream. */
  method DeltaStep(out: Frame, pos: nat, color: Color, opcode: Byte, ghost rest: seq<Action>)
    returns (more: Frame, next: nat, ink: Color)
    requires opcode != 0xFF && pos < |out|
    ensures |more| == |out| && Apply(more, next, ink, rest) == Apply(out, pos, color, [ParseDelta(opcode)] + rest)
  {
    more, next, ink := out, pos, color;
    ApplyFirst(out, pos, color, ParseDelta(opcode), rest);
    if opcode / 16 == 0 {
      ink := opcode % 16;
    } else if opcode / 16 == 1 {
      next := pos + (opcode % 16 + 1);
    } else if opcode / 16 == 2 {
      more, next := RepeatPixels(out, pos, opcode % 16 + 1, color);
    } else if opcode / 16 == 3 {
      next := pos + (opcode % 16 + 1) * 16;
    } else if opcode / 16 == 4 {
      more, next := RepeatPixels(out, pos, (opcode % 16 + 1) * 16, color);
    } else if opcode / 16 == 5 {
      next := pos + (opcode % 16 + 1) * 64;
    }
  }

  method DecompressDelta(prev: Frame, opcodes: seq<Byte>) returns (out: Frame)
    ensures out == DecodeDelta(prev, opcodes)
  {
    out := prev;
    var pos := 0;
    var color: Color := 0;
    var i := 0;
    ghost var actions := Parse(ParseDelta, opcodes);
    assert actions[0..] == actions;
    while i < |opcodes| && pos < |prev|
      invariant 0 <= i <= |opcodes| && |out| == |prev| && pos >= 0
      invariant Apply(out, pos, color, actions[i..]) == DecodeDelta(prev, opcodes)
      decreases |opcodes| - i
    {
      var opcode := opcodes[i];
      i := i + 1;
      Unparsed(ParseDelta, opcodes, i - 1);
      if opcode == 0xFF {
        ApplyFirst(out, pos, color, ParseDelta(opcode), actions[i..]);
        return;
      }
      out, pos, color := DeltaStep(out, pos, color, opcode, actions[i..]);
    }
  }

  /** Stops at the end of the frame. */
  method RepeatPixels(f: Frame, pos: nat, count: nat, color: Color) returns (g: Frame, end: nat)
    requires pos <= |f|
    ensures g == Paint(f, pos, count, color) && end == if pos + count <= |f| then pos + count else |f|
  {
    g, end := f, pos;
    for i := 0 to count
      invariant pos <= end <= |f| && end == if pos + i <= |f| then pos + i else |f|
      invariant g == Paint(f, pos, i, color)
    {
      if end < |f| {
        g := g[end := color];
        end := end + 1;
      }
    }
  }

  // ---------------------------------------------------------------- the device

  /** How many pixels a baseline action draws. */
  function Drawn(action: Action): nat { if action.Repeat? then action.count else 0 }

  lemma EmitDrawn(color: Color, action: Action, rest: seq<Action>, done: Frame)
    requires !action.End?
    ensures done + Emit(color, [action] + rest)
         == done + Solid(color, Drawn(action)) + Emit(if action.Select? then action.color else color, rest)
  {
    EmitFirst(color, action, rest);
    var next := if action.Select? then action.color else color;
    assert done + Solid(color, Drawn(action)) + Emit(next, rest) == done + (Solid(color, Drawn(action)) + Emit(next, rest));
    if !action.Repeat? {
      assert Solid(color, 0) + Emit(next, rest) == Emit(next, rest);
    }
  }

  /** The two frame buffers of the player, decoded into in place. */
  class FramePlayer {
    const frame: array<Color>
    const prev: array<Color>

    ghost predicate Valid() { frame.Length == prev.Length && frame != prev }

    constructor (size: nat)
      ensures Valid() && fresh(frame) && fresh(prev) && frame.Length == size
      ensures frame[..] == prev[..] == Solid(0, size)
    {
      frame := new Color[size](_ => 0);
      prev := new Color[size](_ => 0);
    }

    method Copy(dest: array<Color>, src: array<Color>)
      requires dest.Length == src.Length && dest != src
      modifies dest
      ensures dest[..] == src[..]
    {
      var i := 0;
      while i < dest.Length
        invariant 0 <= i <= dest.Length && dest[..i] == src[..i]
      {
        dest[i] := src[i];
        i := i + 1;
      }
    }

    method PaintPixels(pos: nat, count: nat, color: Color) returns (end: nat)
      requires Valid() && pos <= frame.Length
      modifies frame
      ensures frame[..] == Paint(old(frame[..]), pos, count, color)
      ensures end == if pos + count <= frame.Length then pos + count else frame.Length
    {
      end := pos;
      var i := 0;
      while i < count && end < frame.Length
        invariant 0 <= i <= count && end == pos + i <= frame.Length
        invariant frame[..] == Paint(old(frame[..]), pos, i, color)
      {
        frame[end] := color;
        end := end + 1;
        i := i + 1;
      }
    }

    /** Carries out one opcode of a baseline stream. */
    method Draw(opcode: Byte, out: nat, color: Color) returns (end: nat, next: Color)
      requires Valid() && out <= frame.Length && opcode != END_OF_FRAME
      modifies frame
      ensures var action := ParseBaseline(opcode);
              && next == (if action.Select? then action.color else color)
              && frame[..] == Paint(old(frame[..]), out, Drawn(action), color)
              && end == if out + Drawn(action) <= frame.Length then out + Drawn(action) else frame.Length
    {
      end, next := out, color;
      assert frame[..] == Paint(frame[..], out, 0, color);
      if opcode / 16 == 0 {
        next := opcode % 16;
      } else if opcode / 16 == 2 {
        end := PaintPixels(out, opcode as int % 16 + 1, color);
      } else if opcode / 16 == 3 {
        end := PaintPixels(out, (opcode as int % 16 + 1) * 16, color);
      }
    }

    /** Writes the pixels of a baseline stream, as many as fit. */
    method DecodeRuns(data: seq<Byte>) returns (out: nat)
      requires Valid()
      modifies frame
      ensures var d := DecodeBaseline(data);
              && out == (if |d| <= frame.Length then |d| else frame.Length)
              && frame[..out] == d[..out]
    {
      out := 0;
      var p := 0;
      var color: Color := 0;
      ghost var actions := Parse(ParseBaseline, data);
      ghost var produced: Frame := [];
      assert actions[0..] == actions;
      while out < frame.Length && p < |data|
        invariant out <= frame.Length && 0 <= p <= |data|
        invariant DecodeBaseline(data) == produced + Emit(color, actions[p..])
        invariant out == if |produced| <= frame.Length then |produced| else frame.Length
        invariant forall j | 0 <= j < out :: frame[j] == produced[j]
        decreases |data| - p
      {
        var opcode := data[p];
        p := p + 1;
        Unparsed(ParseBaseline, data, p - 1);
        if opcode == 0xFF {
          EmitFirst(color, End, actions[p..]);
          assert produced + [] == produced;
          return;
        }
        ghost var drawn := Solid(color, Drawn(ParseBaseline(opcode)));
        EmitDrawn(color, ParseBaseline(opcode), actions[p..], produced);
        out, color := Draw(opcode, out, color);
        produced := produced + drawn;
      }
      if p == |data| {
        assert actions[p..] == [] && produced + [] == produced;
      }
    }

    /** A baseline stream that is too long is truncated; one that is too short leaves background. */
    method DecodeBaselineFrame(data: seq<Byte>)
      requires Valid()
      modifies frame
      ensures frame[..] == Fit(DecodeBaseline(data), frame.Length)
    {
      var out := DecodeRuns(data);
      ghost var start, painted := out, frame[..];
      while out < frame.Length
        invariant start <= out <= frame.Length
        invariant forall j | 0 <= j < start :: frame[j] == painted[j]
        invariant forall j | start <= j < out :: frame[j] == 0
      {
        frame[out] := 0;
        out := out + 1;
      }
      assert frame[..start] == DecodeBaseline(data)[..start];
    }

    /** One opcode of a delta stream, painted in place. */
    method PaintStep(pos: nat, color: Color, opcode: Byte, ghost rest: seq<Action>) returns (next: nat, ink: Color)
      requires Valid() && opcode != 0xFF && pos < frame.Length
      modifies frame
      ensures Apply(frame[..], next, ink, rest) == Apply(old(frame[..]), pos, color, [ParseDelta(opcode)] + rest)
    {
      next, ink := pos, color;
      ApplyFirst(frame[..], pos, color, ParseDelta(opcode), rest);
      if opcode / 16 == 0 {
        ink := opcode % 16;
      } else if opcode / 16 == 1 {
        next := pos + (opcode % 16 + 1);
      } else if opcode / 16 == 2 {
        next := PaintPixels(pos, opcode % 16 + 1, color);
      } else if opcode / 16 == 3 {
        next := pos + (opcode % 16 + 1) * 16;
      } else if opcode / 16 == 4 {
        next := PaintPixels(pos, (opcode % 16 + 1) * 16, color);
      } else if opcode / 16 == 5 {
        next := pos + (opcode % 16 + 1) * 64;
      }
    }

    method DecodeDeltaFrame(data: seq<Byte>)
      requires Valid()
      modifies frame
      ensures frame[..] == DecodeDelta(prev[..], data)
    {
      Copy(frame, prev);
      var pos, p := 0, 0;
      var color: Color := 0;
      ghost var actions := Parse(ParseDelta, data);
      assert actions[0..] == actions;
      while pos < frame.Length && p < |data|
        invariant 0 <= p <= |data| && pos >= 0
        invariant Apply(frame[..], pos, color, actions[p..]) == DecodeDelta(prev[..], data)
        decreases |data| - p
      {
        var opcode := data[p];
        p := p + 1;
        Unparsed(ParseDelta, data, p - 1);
        if opcode == 0xFF {
          ApplyFirst(frame[..], pos, color, ParseDelta(opcode), actions[p..]);
          break;
        }
        pos, color := PaintStep(pos, color, opcode, actions[p..]);
      }
    }

    /** Decodes frame `index` from the concatenated animation; deltas apply to the frame decoded last. */
    method LoadFrame(cs: seq<seq<Byte>>, index: nat)
      requires Valid() && index < |cs|
      modifies frame, prev
      ensures prev[..] == frame[..] == Load(old(prev[..]), Slice(cs, index), index)
    {
      if index == 0 {
        DecodeBaselineFrame(Slice(cs, 0));
      } else {
        DecodeDeltaFrame(Slice(cs, index));
      }
      Copy(prev, frame);
    }
  }

  method LoadNext(player: FramePlayer, ghost fs: seq<Frame>, cs: seq<seq<Byte>>, index: nat)
    requires player.Valid() && SameSize(fs, player.frame.Length) && cs == EncodeAll(fs, player.frame.Length)
    requires |Flatten(cs)| < 0x10000 && index < |cs|
    requires index > 0 ==> player.prev[..] == fs[index - 1]
    modifies player.frame, player.prev
    ensures player.frame[..] == player.prev[..] == fs[index]
  {
    SliceWhole(cs, index);
    LoadStep(fs, player.frame.Length, index, player.prev[..]);
    player.LoadFrame(cs, index);
  }

  /** The player's start: every frame of a compressed animation shorter than 64 KiB comes out as it went in. */
  method LoadAnimation(player: FramePlayer, ghost fs: seq<Frame>, cs: seq<seq<Byte>>) returns (shown: seq<Frame>)
    requires player.Valid() && SameSize(fs, player.frame.Length) && cs == EncodeAll(fs, player.frame.Length)
    requires |Flatten(cs)| < 0x10000
    modifies player.frame, player.prev
    ensures shown == fs
  {
    shown := [];
    var index := 0;
    while index < |cs|
      invariant 0 <= index <= |cs| && shown == fs[..index]
      invariant index > 0 ==> player.prev[..] == fs[index - 1]
    {
      LoadNext(player, fs, cs, index);
      shown := shown + [player.frame[..]];
      index := index + 1;
    }
  }
}
