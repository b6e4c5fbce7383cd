/** What the 16-bit offsets mean for the frames shown, and an animation they are too small for. */
module FrameOffsets {
  import opened Basics
  import opened FrameCodec

  const PIXEL_COUNT := 4096
  const FRAME_COUNT := 12

  // ---------------------------------------------------------------- how long codes get

  lemma {:induction false} SkipsShort(n: nat)
    ensures |SkipOps(n)| <= n
    decreases n
  {
    if n > 0 {
      SkipsShort(n - SkipCount(n));
    }
  }

  lemma {:induction false} RepeatsShort(n: nat, long: nat)
    requires long == 3 || long == 4
    ensures |RepeatOps(n, long)| <= n
    decreases n
  {
    if n > 0 {
      RepeatsShort(n - RepeatCount(n), long);
    }
  }

  lemma RunShort(f: Frame, i: nat, current: int)
    requires i < |f|
    ensures |Run(f, i, current)| <= 2 * SameColor(f, i, f[i]) && SameColor(f, i, f[i]) > 0
  {
    RepeatsShort(SameColor(f, i, f[i]), 3);
  }

  lemma {:induction false} EncodeFromShort(f: Frame, i: nat, current: int)
    requires i <= |f|
    ensures |EncodeFrom(f, i, current)| <= 2 * (|f| - i) + 1
    decreases |f| - i
  {
    if i < |f| {
      RunShort(f, i, current);
      var next := i + SameColor(f, i, f[i]);
      EncodeFromShort(f, next, f[i]);
      assert |EncodeFrom(f, i, current)| == |Run(f, i, current)| + |EncodeFrom(f, next, f[i])|;
    }
  }

  lemma RoundShort(p: Frame, f: Frame, i: nat, current: int)
    requires |p| == |f| && i < |f|
    ensures |Round(p, f, i, current)| <= 2 * (RoundEnd(p, f, i) - i)
  {
    var k := i + Unchanged(p, f, i);
    SkipsShort(k - i);
    if k < |f| {
      UnchangedSpec(p, f, i);
      RepeatsShort(Changed(p, f, k, f[k]), 4);
    }
  }

  lemma {:induction false} EncodeDeltaFromShort(p: Frame, f: Frame, i: nat, current: int)
    requires |p| == |f| && i <= |f|
    ensures |EncodeDeltaFrom(p, f, i, current)| <= 2 * (|f| - i) + 1
    decreases |f| - i
  {
    if i < |f| {
      RoundShort(p, f, i, current);
      var next, color := RoundEnd(p, f, i), RoundColor(p, f, i, current);
      EncodeDeltaFromShort(p, f, next, color);
      assert |EncodeDeltaFrom(p, f, i, current)| == |Round(p, f, i, current)| + |EncodeDeltaFrom(p, f, next, color)|;
    }
  }

  /** At most two bytes a pixel and the end mark. */
  lemma EncodedShort(fs: seq<Frame>, n: nat, k: nat)
    requires SameSize(fs, n) && k < |fs|
    ensures |EncodeAll(fs, n)[k]| <= 2 * n + 1
  {
    if k == 0 {
      EncodeFromShort(fs[0], 0, -1);
    } else {
      EncodeDeltaFromShort(fs[k - 1], fs[k], 0, -1);
    }
  }

  // ---------------------------------------------------------------- the frames shown

  /** What the device reads for each frame. */
  function Slices(cs: seq<seq<Byte>>): (s: seq<seq<Byte>>)
    ensures |s| == |cs|
  {
    seq(|cs|, k requires 0 <= k < |cs| => Slice(cs, k))
  }

  ghost predicate ShownRight(fs: seq<Frame>, n: nat, blank: Frame, k: nat)
    requires SameSize(fs, n) && k < |fs|
  {
    Play(Load, Slices(EncodeAll(fs, n)), blank, k + 1) == fs[k]
  }

  /** A code that crosses the limit, and is itself shorter than it, is read as nothing. */
  lemma CrossingReadsNothing(cs: seq<seq<Byte>>, k: nat)
    requires k < |cs| && Offset(cs, k) < 0x10000 <= Offset(cs, k + 1) && |cs[k]| < 0x10000
    ensures Slice(cs, k) == []
  {
    FlattenSplit(cs, k);
    SmallModulo(Offset(cs, k));
    SmallModulo(Offset(cs, k + 1) - 0x10000);
    assert Offset(cs, k + 1) % 0x10000 == (Offset(cs, k + 1) - 0x10000) % 0x10000;
  }

  /** Then the frame before is shown once more. */
  lemma NothingKeepsFrame(was: Frame, k: nat)
    requires k > 0
    ensures Load(was, [], k) == was
  {
  }

  /** In an animation whose frames all differ from their predecessors, the frame that crosses the limit is shown wrong. */
  lemma CrossingShownWrong(fs: seq<Frame>, n: nat, blank: Frame, k: nat)
    requires SameSize(fs, n) && |blank| == n && 0 < k < |fs| && 2 * n + 1 < 0x10000
    requires Offset(EncodeAll(fs, n), k) < 0x10000 <= Offset(EncodeAll(fs, n), k + 1)
    requires fs[k] != fs[k - 1] && ShownRight(fs, n, blank, k - 1)
    ensures !ShownRight(fs, n, blank, k)
  {
    EncodedShort(fs, n, k);
    CrossingReadsNothing(EncodeAll(fs, n), k);
    NothingKeepsFrame(fs[k - 1], k);
  }

  lemma FirstFits(fs: seq<Frame>, n: nat, k: nat)
    requires SameSize(fs, n) && k < |fs| && 2 * n + 1 < 0x10000 && 0x10000 <= Offset(EncodeAll(fs, n), k + 1)
    ensures k > 0
  {
    EncodedShort(fs, n, 0);
    FlattenSplit(EncodeAll(fs, n), 0);
    assert EncodeAll(fs, n)[..0] == [];
  }

  /**
    * Every frame of an animation in which each differs from the one before is shown as it was, if and only if the compressed
    * animation is shorter than 64 KiB.
    */
  lemma ShownExactlyWhen(fs: seq<Frame>, n: nat, blank: Frame)
    requires SameSize(fs, n) && |blank| == n && 2 * n + 1 < 0x10000
    requires forall k | 0 < k < |fs| :: fs[k] != fs[k - 1]
    ensures (forall k | 0 <= k < |fs| :: ShownRight(fs, n, blank, k)) <==> |Flatten(EncodeAll(fs, n))| < 0x10000
  {
    var cs := EncodeAll(fs, n);
    if |Flatten(cs)| < 0x10000 {
      forall k | 0 <= k < |cs| ensures Slice(cs, k) == cs[k] {
        SliceWhole(cs, k);
      }
      assert Slices(cs) == cs;
      forall k | 0 <= k < |fs| ensures ShownRight(fs, n, blank, k) {
        AnimationRoundTrip(fs, n, blank, k);
      }
    } else {
      assert cs[..|cs|] == cs;
      var k := Crossing(cs, |cs|);
      FirstFits(fs, n, k);
      if ShownRight(fs, n, blank, k - 1) {
        CrossingShownWrong(fs, n, blank, k);
      }
    }
  }

  // ---------------------------------------------------------------- an animation beyond the limit

  /** Two colours in turn along the frame, and in turn from frame to frame. */
  function Flicker(k: nat): (f: Frame)
    ensures |f| == PIXEL_COUNT
  {
    seq(PIXEL_COUNT, i => (i + k) % 2 + 1)
  }

  function Flickering(): (fs: seq<Frame>)
    ensures |fs| == FRAME_COUNT
  {
    seq(FRAME_COUNT, k requires 0 <= k => Flicker(k))
  }

  /** No two neighbouring pixels are alike. */
  ghost predicate Restless(f: Frame) { forall i | 0 <= i < |f| - 1 :: f[i] != f[i + 1] }

  lemma OneRepeat(long: nat)
    requires long == 3 || long == 4
    ensures |RepeatOps(1, long)| == 1
  {
    assert RepeatOps(0, long) == [];
  }

  lemma {:induction false} RestlessCode(f: Frame, i: nat, current: int)
    requires Restless(f) && i <= |f| && (i < |f| ==> current != f[i])
    ensures |EncodeFrom(f, i, current)| == 2 * (|f| - i) + 1
    decreases |f| - i
  {
    if i < |f| {
      SameColorSpec(f, i, f[i]);
      assert SameColor(f, i, f[i]) == 1;
      OneRepeat(3);
      RestlessCode(f, i + 1, f[i]);
    }
  }

  lemma {:induction false} RestlessDelta(p: Frame, f: Frame, i: nat, current: int)
    requires |p| == |f| && Restless(f) && (forall j | 0 <= j < |f| :: p[j] != f[j]) && i <= |f| && (i < |f| ==> current != f[i])
    ensures |EncodeDeltaFrom(p, f, i, current)| == 2 * (|f| - i) + 1
    decreases |f| - i
  {
    if i < |f| {
      ChangedSpec(p, f, i, f[i]);
      assert Unchanged(p, f, i) == 0 && Changed(p, f, i, f[i]) == 1;
      assert SkipOps(0) == [];
      OneRepeat(4);
      RestlessDelta(p, f, i + 1, f[i]);
    }
  }

  lemma {:induction false} EvenLengths(cs: seq<seq<Byte>>, m: nat)
    requires forall k | 0 <= k < |cs| :: |cs[k]| == m
    ensures |Flatten(cs)| == m * |cs|
  {
    if cs != [] {
      EvenLengths(cs[..|cs| - 1], m);
      assert m * |cs| == m * (|cs| - 1) + m;
    }
  }

  /** A flickering animation of the program's own format is half as long again as the offsets can say. */
  lemma FlickeringTooLong()
    ensures SameSize(Flickering(), PIXEL_COUNT) && forall k | 0 < k < FRAME_COUNT :: Flickering()[k] != Flickering()[k - 1]
    ensures |Flatten(EncodeAll(Flickering(), PIXEL_COUNT))| == 98316
  {
    var fs := Flickering();
    var cs := EncodeAll(fs, PIXEL_COUNT);
    forall k | 0 <= k < FRAME_COUNT ensures |cs[k]| == 8193 && (k > 0 ==> fs[k] != fs[k - 1]) {
      if k == 0 {
        RestlessCode(fs[0], 0, -1);
      } else {
        RestlessDelta(fs[k - 1], fs[k], 0, -1);
        assert fs[k][0] != fs[k - 1][0];
      }
    }
    EvenLengths(cs, 8193);
  }

  /** So one of its frames is shown wrong. */
  lemma FlickeringShownWrong(blank: Frame)
    requires |blank| == PIXEL_COUNT
    ensures SameSize(Flickering(), PIXEL_COUNT)
    ensures exists k | 0 <= k < FRAME_COUNT :: !ShownRight(Flickering(), PIXEL_COUNT, blank, k)
  {
    FlickeringTooLong();
    ShownExactlyWhen(Flickering(), PIXEL_COUNT, blank);
  }
}
