/** The display's side: raster counters and the pixel pipeline, clocked by the pixel clock. */
module VideoScan {
  import opened Words
  import opened VideoUpload

  const H_ACTIVE := 640
  const H_TOTAL := 832
  const V_ACTIVE := 480
  const V_TOTAL := 520
  const FRAME_CLOCKS := 832 * 520

  type Palette = p: seq<nat> | |p| == 16 witness [0, 0, 0, 0, 0, 0, 0, 0, 0, 0, 0, 0, 0, 0, 0, 0]

  /** What the processor's side presents: control bits, palette and pixel memory. */
  datatype Screen = Screen(enable: bool, blank: bool, frame: nat, palette: Palette, ram: seq<Word>)

  ghost predicate Presentable(c: Screen) {
    c.frame < FRAMES && |c.ram| == FRAMES * WORDS
  }

  datatype Scan = Scan(
    h: nat, v: nat, frames: nat, timingError: bool,
    x1: nat, y1: nat, x2: nat, y2: nat,
    hActive1: bool, vActive1: bool, hActive2: bool, vActive2: bool,
    hSync1: bool, vSync1: bool, hSync2: bool, vSync2: bool,
    inDisplay1: bool, nibble1: nat, word: Word,
    frame1: nat, frame2: nat, enable1: bool, enable2: bool, blank1: bool, blank2: bool,
    palette1: Palette, palette2: Palette)

  // ---------------------------------------------------------------- combinational logic

  predicate InDisplay(x: nat, y: nat) { 128 <= x < 512 && 48 <= y < 432 }

  /** Multiply-shift division by the scale, taking bits 23 to 16 of the product, then a clamp. */
  function Scaled(x: nat, margin: nat): (r: nat)
    ensures r < 64
  {
    var rel := if x >= margin then x - margin else 0;
    var div := rel * 10923 / 65536 % 256;
    if div >= 64 then 63 else div % 64
  }

  function PixelIndex(x: nat, y: nat): (i: nat)
    ensures i < PIXELS
  {
    Scaled(y, 48) * 64 + Scaled(x, 128)
  }

  function Fetch(ram: seq<Word>, address: nat): Word {
    if address % 8192 < |ram| then ram[address % 8192] else 0
  }

  // ---------------------------------------------------------------- one pixel clock

  function Next(s: Scan, c: Screen): Scan { Edge(s, c, PixelIndex(s.x1, s.y1)) }

  function NextH(h: nat): nat { if h == H_TOTAL - 1 then 0 else (h + 1) % 1024 }

  function NextV(h: nat, v: nat): nat {
    if h != H_TOTAL - 1 then v else if v == V_TOTAL - 1 then 0 else (v + 1) % 1024
  }

  /** Frames are counted to two. */
  function NextFrames(h: nat, v: nat, frames: nat): nat {
    if h == H_TOTAL - 1 && v == V_TOTAL - 1 && frames < 2 then frames + 1 else frames
  }

  /** The registers' next values, given the pixel index computed from the delayed coordinates. */
  function Edge(s: Scan, c: Screen, pixel: nat): Scan {
    Latched(s, c, pixel % 8, Fetch(c.ram, s.frame2 * WORDS + pixel / 8))
  }

  /** The same, given the nibble's place and the word fetched. */
  function Latched(s: Scan, c: Screen, nibble: nat, fetched: Word): Scan {
    Scan(
      NextH(s.h), NextV(s.h, s.v), NextFrames(s.h, s.v, s.frames),
      if s.h >= H_TOTAL || s.v >= V_TOTAL then !s.timingError else s.timingError,
      s.h, s.v, s.x1, s.y1,
      s.h < H_ACTIVE, s.v < V_ACTIVE, s.hActive1, s.vActive1,
      !(664 <= s.h < 704), !(489 <= s.v < 492), s.hSync1, s.vSync1,
      InDisplay(s.x1, s.y1), nibble, fetched,
      c.frame, s.frame1, c.enable, s.enable1, c.blank, s.blank1,
      c.palette, s.palette1)
  }

  datatype Output = Output(x: nat, y: nat, color: nat, active: bool, hSync: bool, vSync: bool)

  /** The pins; nothing is shown during the first frame. */
  function Pins(s: Scan): Output {
    var color := if s.blank2 then 0 else if s.enable2 && s.inDisplay1 then s.palette2[NibbleAt(s.word, s.nibble1)] else 1;
    var active := s.hActive2 && s.vActive2;
    Output(s.x2, s.y2, if active && s.frames > 0 then color else 0, active, s.hSync2, s.vSync2)
  }

  /** Power-up: the counters are reset, the delay registers hold anything. */
  predicate Starts(s: Scan) { s.h == 0 && s.v == 0 && s.frames == 0 && !s.timingError }

  function Run(s: Scan, cs: seq<Screen>): Scan
    decreases |cs|
  {
    if cs == [] then s else Next(Run(s, cs[..|cs| - 1]), cs[|cs| - 1])
  }

  // ---------------------------------------------------------------- what should be shown

  /** The picture: a 64 by 64 image scaled six times, centred on a background. */
  function Shown(c: Screen, x: nat, y: nat): nat
    requires Presentable(c)
  {
    if x >= H_ACTIVE || y >= V_ACTIVE then 0
    else if c.blank then 0
    else if c.enable && InDisplay(x, y) then c.palette[PixelOf(c.ram, c.frame, (y - 48) / 6 * 64 + (x - 128) / 6)]
    else 1
  }

  /** Multiplying by 10923 and dropping 16 bits divides by six, over the whole range of a 10-bit coordinate. */
  lemma MultiplyShiftDivides(rel: nat)
    requires rel < 1024
    ensures rel * 10923 / 65536 == rel / 6 && rel / 6 < 256
  {
    var q, m := rel / 6, rel % 6;
    assert rel == 6 * q + m;
    assert rel * 10923 == q * 65536 + (2 * q + m * 10923);
    assert 0 <= 2 * q + m * 10923 < 65536;
  }

  lemma ScaledInDisplay(x: nat, margin: nat)
    requires margin <= x < margin + 384
    ensures Scaled(x, margin) == (x - margin) / 6
  {
    MultiplyShiftDivides(x - margin);
  }

  lemma FetchPixel(c: Screen, pixel: nat)
    requires Presentable(c) && pixel < PIXELS
    ensures NibbleAt(Fetch(c.ram, c.frame * WORDS + pixel / 8), pixel % 8) == PixelOf(c.ram, c.frame, pixel)
  {
    var a := c.frame * WORDS + pixel / 8;
    assert a % 8192 == a;
  }

  lemma ShownAt(c: Screen, x: nat, y: nat)
    requires Presentable(c)
    ensures Shown(c, x, y) ==
            if x >= H_ACTIVE || y >= V_ACTIVE || c.blank then 0
            else if c.enable && InDisplay(x, y) then
              var pixel := PixelIndex(x, y);
              c.palette[NibbleAt(Fetch(c.ram, c.frame * WORDS + pixel / 8), pixel % 8)]
            else 1
  {
    FetchPixel(c, PixelIndex(x, y));
    if InDisplay(x, y) {
      ScaledInDisplay(x, 128);
      ScaledInDisplay(y, 48);
    }
  }

  /** What the delay registers hold after three clocks of a steady screen, whatever pixel indices came earlier. */
  lemma DelaysMatch(r: Scan, c: Screen, p: nat, q: nat, pixel: nat)
    ensures var s := Edge(r, c, p);
            var b := Edge(Edge(s, c, q), c, pixel);
            && b.x2 == s.h && b.y2 == s.v
            && b.hActive2 == (s.h < H_ACTIVE) && b.vActive2 == (s.v < V_ACTIVE)
            && b.hSync2 == !(664 <= s.h < 704) && b.vSync2 == !(489 <= s.v < 492)
            && b.inDisplay1 == InDisplay(s.h, s.v) && b.nibble1 == pixel % 8
            && b.word == Fetch(c.ram, c.frame * WORDS + pixel / 8)
            && b.enable2 == c.enable && b.blank2 == c.blank && b.palette2 == c.palette
  {
  }

  /** Three clocks of a steady screen: the pins show the pixel where the raster stood two clocks ago. */
  lemma PipelineAligned(r: Scan, c: Screen)
    requires Presentable(c)
    ensures var s := Next(r, c);
            var b := Next(Next(s, c), c);
            Pins(b) == Output(s.h, s.v, if b.frames > 0 then Shown(c, s.h, s.v) else 0,
                              s.h < H_ACTIVE && s.v < V_ACTIVE, !(664 <= s.h < 704), !(489 <= s.v < 492))
  {
    var s := Next(r, c);
    var a := Next(s, c);
    DelaysMatch(r, c, PixelIndex(r.x1, r.y1), PixelIndex(s.x1, s.y1), PixelIndex(a.x1, a.y1));
    ShownAt(c, s.h, s.v);
  }

  // ---------------------------------------------------------------- the raster over a whole run

  /** Column, line and frame number of the raster, one clock after another. */
  datatype Position = Position(column: nat, line: nat, frame: nat)

  function Advanced(p: Position): Position {
    if p.column < 831 then p.(column := p.column + 1)
    else if p.line < 519 then Position(0, p.line + 1, p.frame)
    else Position(0, 0, p.frame + 1)
  }

  function PositionAfter(t: nat): Position {
    if t == 0 then Position(0, 0, 0) else Advanced(PositionAfter(t - 1))
  }

  lemma NextColumn(t: nat)
    ensures (t + 1) % 832 == if t % 832 == 831 then 0 else t % 832 + 1
    ensures (t + 1) / 832 == if t % 832 == 831 then t / 832 + 1 else t / 832
  {
  }

  lemma NextLine(l: nat)
    ensures (l + 1) % 520 == if l % 520 == 519 then 0 else l % 520 + 1
    ensures (l + 1) / 520 == if l % 520 == 519 then l / 520 + 1 else l / 520
  {
  }

  lemma {:induction false} PositionClosed(t: nat)
    ensures PositionAfter(t) == Position(t % 832, t / 832 % 520, t / 832 / 520)
  {
    if t > 0 {
      PositionClosed(t - 1);
      NextColumn(t - 1);
      NextLine((t - 1) / 832);
    }
  }

  ghost predicate At(s: Scan, p: Position) {
    && s.h == p.column < 832 && s.v == p.line < 520
    && s.frames == (if p.frame < 2 then p.frame else 2)
    && !s.timingError
  }

  lemma RasterStep(s: Scan, c: Screen, pixel: nat, p: Position)
    requires At(s, p)
    ensures At(Edge(s, c, pixel), Advanced(p))
  {
  }

  /**
    * Over every run from power-up the raster is where the clock count says, counters never reach their totals, and the
    * timing-error flag never toggles.
    */
  lemma {:induction false} RasterPosition(s: Scan, cs: seq<Screen>)
    requires Starts(s)
    ensures At(Run(s, cs), PositionAfter(|cs|))
    decreases |cs|
  {
    if cs != [] {
      var before := Run(s, cs[..|cs| - 1]);
      RasterPosition(s, cs[..|cs| - 1]);
      RasterStep(before, cs[|cs| - 1], PixelIndex(before.x1, before.y1), PositionAfter(|cs| - 1));
    }
  }

  lemma RunSplit(s: Scan, cs: seq<Screen>, c: Screen)
    ensures Run(s, cs + [c]) == Next(Run(s, cs), c)
  {
    assert (cs + [c])[..|cs|] == cs;
  }

  /** Three more clocks of one screen. */
  function Steadily(before: seq<Screen>, c: Screen): (cs: seq<Screen>)
    ensures |cs| == |before| + 3
  {
    before + [c] + [c] + [c]
  }

  lemma SteadyRun(s: Scan, before: seq<Screen>, c: Screen)
    ensures Run(s, before + [c]) == Next(Run(s, before), c)
    ensures Run(s, Steadily(before, c)) == Next(Next(Next(Run(s, before), c), c), c)
  {
    RunSplit(s, before, c);
    RunSplit(s, before + [c], c);
    RunSplit(s, before + [c] + [c], c);
  }

  lemma FramesCounted(s: Scan, cs: seq<Screen>)
    requires Starts(s) && |cs| >= FRAME_CLOCKS
    ensures Run(s, cs).frames > 0
  {
    RasterPosition(s, cs);
    PositionClosed(|cs|);
    assert |cs| / 832 >= 520;
  }

  lemma SteadyPins(r: Scan, c: Screen, p: Position)
    requires Presentable(c) && At(Next(r, c), p) && Next(Next(Next(r, c), c), c).frames > 0
    ensures Pins(Next(Next(Next(r, c), c), c))
            == Output(p.column, p.line, Shown(c, p.column, p.line), p.column < H_ACTIVE && p.line < V_ACTIVE,
                      !(664 <= p.column < 704), !(489 <= p.line < 492))
  {
    PipelineAligned(r, c);
  }

  /**
    What a position of the screen is to show: an image pixel six screen pixels
    wide and high, background beside the picture, nothing outside the screen.
   */
  ghost predicate Depicts(c: Screen, x: nat, y: nat, color: nat)
    requires Presentable(c)
  {
    && (x >= 640 || y >= 480 || c.blank ==> color == 0)
    && (x < 640 && y < 480 && !c.blank && (!c.enable || x < 128 || x >= 512 || y < 48 || y >= 432) ==> color == 1)
    && (c.enable && !c.blank ==>
          forall row, col | 0 <= row < 64 && 0 <= col < 64 && OnPixel(row, col, x, y) ::
            color == c.palette[PixelOf(c.ram, c.frame, 64 * row + col)])
  }

  /** The screen position belongs to the image pixel in that row and column. */
  predicate OnPixel(row: nat, col: nat, x: nat, y: nat) {
    48 + 6 * row <= y < 54 + 6 * row && 128 + 6 * col <= x < 134 + 6 * col
  }

  lemma ShownDepicts(c: Screen, x: nat, y: nat)
    requires Presentable(c)
    ensures Depicts(c, x, y, Shown(c, x, y))
  {
    if c.enable && !c.blank {
      forall row, col | 0 <= row < 64 && 0 <= col < 64 && OnPixel(row, col, x, y)
        ensures Shown(c, x, y) == c.palette[PixelOf(c.ram, c.frame, 64 * row + col)]
      {
        assert (y - 48) / 6 == row && (x - 128) / 6 == col;
      }
    }
  }

  /** Every position of the picture belongs to a pixel. */
  lemma PixelUnder(x: nat, y: nat) returns (row: nat, col: nat)
    requires 128 <= x < 512 && 48 <= y < 432
    ensures row < 64 && col < 64 && OnPixel(row, col, x, y)
  {
    row, col := (y - 48) / 6, (x - 128) / 6;
  }

  ghost predicate SteadyOnPins(pins: Output, c: Screen, at: Position)
    requires Presentable(c)
  {
    && pins.x == at.column && pins.y == at.line && Depicts(c, pins.x, pins.y, pins.color)
    && (pins.active <==> at.column < 640 && at.line < 480)
    && (pins.hSync <==> !(664 <= at.column < 704)) && (pins.vSync <==> !(489 <= at.line < 492))
  }

  lemma SteadyAfter(s: Scan, before: seq<Screen>, c: Screen, at: Position)
    requires Presentable(c) && At(Run(s, before + [c]), at) && Run(s, Steadily(before, c)).frames > 0
    ensures SteadyOnPins(Pins(Run(s, Steadily(before, c))), c, at)
  {
    SteadyRun(s, before, c);
    SteadyPins(Run(s, before), c, at);
    ShownDepicts(c, at.column, at.line);
  }

  /**
    * After the first frame, whatever was presented before, three clocks of a steady screen show its pixel at the reported
    * position, which is the raster position of two clocks ago.
    */
  lemma ShowsThePicture(s: Scan, before: seq<Screen>, c: Screen)
    requires Starts(s) && Presentable(c) && |before| + 3 >= FRAME_CLOCKS
    ensures SteadyOnPins(Pins(Run(s, Steadily(before, c))), c, PositionAfter(|before| + 1))
  {
    FramesCounted(s, Steadily(before, c));
    RasterPosition(s, before + [c]);
    SteadyAfter(s, before, c, PositionAfter(|before| + 1));
  }

  /** During the first frame the screen is dark, whatever is presented. */
  lemma FirstFrameDark(s: Scan, cs: seq<Screen>)
    requires Starts(s) && |cs| < 832 * 520
    ensures Pins(Run(s, cs)).color == 0
  {
    RasterPosition(s, cs);
    PositionClosed(|cs|);
    assert |cs| / 832 < 520;
  }

  // ---------------------------------------------------------------- the clocked object

  /** The raster counters, the first-frame guard and the lost-sync flag. */
  class Raster {
    var h: nat
    var v: nat
    var frames: nat
    var timingError: bool

    ghost predicate Counts(t: nat)
      reads this
    {
      && h == t % 832 && v == t / 832 % 520
      && frames == (if t / 832 / 520 < 2 then t / 832 / 520 else 2)
      && !timingError
    }

    constructor ()
      ensures Counts(0)
    {
      h, v, frames, timingError := 0, 0, 0, false;
    }

    /** One pixel clock. */
    method Advance()
      modifies this
      ensures h == NextH(old(h)) && v == NextV(old(h), old(v)) && frames == NextFrames(old(h), old(v), old(frames))
      ensures timingError == if old(h) >= H_TOTAL || old(v) >= V_TOTAL then !old(timingError) else old(timingError)
    {
      var anomaly := h >= H_TOTAL || v >= V_TOTAL;
      if h == H_TOTAL - 1 && v == V_TOTAL - 1 && frames < 2 {
        frames := frames + 1;
      }
      if h == H_TOTAL - 1 {
        h := 0;
        v := if v == V_TOTAL - 1 then 0 else (v + 1) % 1024;
      } else {
        h := (h + 1) % 1024;
      }
      timingError := timingError != anomaly;
    }

    /** The same for counters that follow the clock count. */
    method Tick(ghost t: nat)
      requires Counts(t)
      modifies this
      ensures Counts(t + 1)
    {
      NextColumn(t);
      NextLine(t / 832);
      Advance();
    }
  }

  /** One stage of delay registers. */
  datatype Stage = Stage(x: nat, y: nat, hActive: bool, vActive: bool, hSync: bool, vSync: bool,
                         frame: nat, enable: bool, blank: bool, palette: Palette)

  /** The raster with two stages of delay registers behind it. */
  class Display {
    const raster: Raster
    var first: Stage
    var second: Stage
    var inDisplay: bool
    var nibble: nat
    var word: Word

    function State(): Scan
      reads this, raster
    {
      Scan(raster.h, raster.v, raster.frames, raster.timingError, first.x, first.y, second.x, second.y,
           first.hActive, first.vActive, second.hActive, second.vActive,
           first.hSync, first.vSync, second.hSync, second.vSync, inDisplay, nibble, word,
           first.frame, second.frame, first.enable, second.enable, first.blank, second.blank, first.palette, second.palette)
    }

    /** Power-up leaves anything in the delay registers. */
    constructor (first: Stage, second: Stage, inDisplay: bool, nibble: nat, word: Word)
      ensures fresh(raster) && Starts(State())
    {
      raster := new Raster();
      this.first, this.second, this.inDisplay, this.nibble, this.word := first, second, inDisplay, nibble, word;
    }

    /** Every stage takes over what the one before it held. */
    method Latch(c: Screen, place: nat, fetched: Word)
      modifies this, raster
      ensures State() == Latched(old(State()), c, place, fetched)
    {
      inDisplay, nibble, word := InDisplay(first.x, first.y), place, fetched;
      second := first;
      first := Stage(raster.h, raster.v, raster.h < H_ACTIVE, raster.v < V_ACTIVE,
                     !(664 <= raster.h < 704), !(489 <= raster.v < 492), c.frame, c.enable, c.blank, c.palette);
      raster.Advance();
    }

    /** One pixel clock. */
    method Clock(c: Screen)
      modifies this, raster
      ensures State() == Next(old(State()), c)
    {
      var pixel := PixelIndex(first.x, first.y);
      Latch(c, pixel % 8, Fetch(c.ram, second.frame * WORDS + pixel / 8));
    }

    method ClockAll(cs: seq<Screen>)
      modifies this, raster
      ensures State() == Run(old(State()), cs)
    {
      var i := 0;
      while i < |cs|
        invariant 0 <= i <= |cs| && State() == Run(old(State()), cs[..i])
      {
        Clock(cs[i]);
        assert cs[..i + 1][..i] == cs[..i];
        i := i + 1;
      }
      assert cs[..i] == cs;
    }

    /** From power-up through any first frame, three clocks of a steady screen put its pixel on the pins. */
    method Present(before: seq<Screen>, c: Screen) returns (pins: Output)
      requires Starts(State()) && Presentable(c) && |before| + 3 >= FRAME_CLOCKS
      modifies this, raster
      ensures SteadyOnPins(pins, c, PositionAfter(|before| + 1))
    {
      ghost var s := State();
      ClockAll(Steadily(before, c));
      pins := Pins(State());
      ShowsThePicture(s, before, c);
    }
  }
}
