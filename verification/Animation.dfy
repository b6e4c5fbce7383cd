/** From compressed frames to the screen: decoding, uploading and scanning out put together. */
module Animation {
  import opened Basics
  import opened Words
  import opened FrameCodec
  import opened FrameTools
  import opened VideoUpload
  import opened VideoScan

  ghost predicate Animated(fs: seq<Frame>) {
    |fs| == FRAMES && SameSize(fs, PIXELS)
  }

  /** The display memory holds the first k frames. */
  ghost predicate Holds(ram: seq<Word>, fs: seq<Frame>, k: nat)
    requires Animated(fs) && k <= FRAMES && |ram| == FRAMES * WORDS
  {
    forall m, p | 0 <= m < k && 0 <= p < PIXELS :: PixelOf(ram, m, p) == fs[m][p]
  }

  lemma HoldsMore(ram: seq<Word>, was: seq<Word>, fs: seq<Frame>, k: nat)
    requires Animated(fs) && k < FRAMES && |was| == FRAMES * WORDS
    requires Filled(ram, was, k, fs[k], WORDS) && Holds(was, fs, k)
    ensures Holds(ram, fs, k + 1)
  {
    forall m, p | 0 <= m < k + 1 && 0 <= p < PIXELS ensures PixelOf(ram, m, p) == fs[m][p] {
      FilledPixels(ram, was, k, fs[k], m, p);
      assert fs[k][p] % 16 == fs[k][p];
    }
  }

  /** The program's start: every frame is decoded and uploaded. */
  method UploadAnimation(player: FramePlayer, port: VideoPort, ghost fs: seq<Frame>, cs: seq<seq<Byte>>)
    requires player.Valid() && player.frame.Length == PIXELS && port.Valid()
    requires {player.frame, player.prev} !! {port, port.palette, port.ram}
    requires Animated(fs) && cs == EncodeAll(fs, PIXELS) && |Flatten(cs)| < 0x10000
    modifies player.frame, player.prev, port, port.palette, port.ram
    ensures Holds(port.ram[..], fs, FRAMES)
    ensures port.ctrl == old(port.ctrl) && port.palette[..] == old(port.palette[..])
  {
    var k := 0;
    while k < FRAMES
      invariant 0 <= k <= FRAMES
      invariant k > 0 ==> player.prev[..] == fs[k - 1]
      invariant Holds(port.ram[..], fs, k)
      invariant port.ctrl == old(port.ctrl) && port.palette[..] == old(port.palette[..])
    {
      LoadNext(player, fs, cs, k);
      ghost var was := port.ram[..];
      Upload(port, k, player.frame[..]);
      HoldsMore(port.ram[..], was, fs, k);
      k := k + 1;
    }
  }

  /** The display memory's pixels are the frame's. */
  lemma FrameShown(c: Screen, fs: seq<Frame>, x: nat, y: nat, color: nat, row: nat, col: nat)
    requires Presentable(c) && Animated(fs) && Holds(c.ram, fs, FRAMES) && c.enable && !c.blank
    requires Depicts(c, x, y, color) && row < 64 && col < 64 && OnPixel(row, col, x, y)
    ensures color == c.palette[fs[c.frame][64 * row + col]]
  {
    assert PixelOf(c.ram, c.frame, 64 * row + col) == fs[c.frame][64 * row + col];
  }

  /**
    * With the animation uploaded and a frame selected, every pixel of that frame after the first covers six by six
    * screen pixels with its palette entry, and the screen around the picture is background.
    */
  lemma AnimationOnScreen(s: Scan, before: seq<Screen>, c: Screen, fs: seq<Frame>, pins: Output)
    requires Starts(s) && Presentable(c) && |before| + 3 >= FRAME_CLOCKS
    requires Animated(fs) && Holds(c.ram, fs, FRAMES) && c.enable && !c.blank
    requires pins == Pins(VideoScan.Run(s, Steadily(before, c)))
    ensures pins.x == (|before| + 1) % 832 && pins.y == (|before| + 1) / 832 % 520
    ensures forall row, col | 0 <= row < 64 && 0 <= col < 64 && OnPixel(row, col, pins.x, pins.y) ::
              pins.color == c.palette[fs[c.frame][64 * row + col]]
    ensures pins.x < 640 && pins.y < 480 && (pins.x < 128 || pins.x >= 512 || pins.y < 48 || pins.y >= 432) ==> pins.color == 1
  {
    ShowsThePicture(s, before, c);
    PositionClosed(|before| + 1);
    forall row, col | 0 <= row < 64 && 0 <= col < 64 && OnPixel(row, col, pins.x, pins.y)
      ensures pins.color == c.palette[fs[c.frame][64 * row + col]]
    {
      FrameShown(c, fs, pins.x, pins.y, pins.color, row, col);
    }
  }

  /** What the registers present to the display. */
  function Presented(r: Registers): Screen
    requires |r.palette| == 16
  {
    Screen(r.ctrl % 2 == 1, r.ctrl / 2 % 2 == 1, r.ctrl / 16 % 16, r.palette, r.ram)
  }

  lemma PresentedShown(r: Registers, s: Scan, before: seq<Screen>, fs: seq<Frame>, pins: Output)
    requires |r.palette| == 16 && |r.ram| == FRAMES * WORDS && Animated(fs) && Starts(s) && |before| + 3 >= FRAME_CLOCKS
    requires Holds(r.ram, fs, FRAMES) && r.ctrl % 4 == 1 && r.ctrl / 16 % 16 < 12
    requires pins == Pins(VideoScan.Run(s, Steadily(before, Presented(r))))
    ensures forall row, col | 0 <= row < 64 && 0 <= col < 64 && OnPixel(row, col, pins.x, pins.y) ::
              pins.color == r.palette[fs[r.ctrl / 16 % 16][64 * row + col]]
  {
    assert r.ctrl / 2 % 2 == 0;
    AnimationOnScreen(s, before, Presented(r), fs, pins);
  }

  /**
    * Whatever was written before: with the frames in memory, the display enabled and not blanked, the pins show the frame
    * that bits 7 to 4 of the control register select, in the colours of the palette registers.
    */
  lemma SelectedFrameShown(accesses: seq<Access>, r: Registers, s: Scan, before: seq<Screen>, fs: seq<Frame>, pins: Output)
    requires Animated(fs) && Starts(s) && |before| + 3 >= FRAME_CLOCKS && r == WriteAll(Powered(), accesses)
    requires Holds(r.ram, fs, FRAMES) && r.ctrl % 4 == 1 && pins == Pins(VideoScan.Run(s, Steadily(before, Presented(r))))
    ensures r.ctrl / 16 % 16 < 12
    ensures forall row, col | 0 <= row < 64 && 0 <= col < 64 && OnPixel(row, col, pins.x, pins.y) ::
              pins.color == r.palette[fs[r.ctrl / 16 % 16][64 * row + col]]
  {
    SelectsExistingFrame(accesses);
    PresentedShown(r, s, before, fs, pins);
  }
}
