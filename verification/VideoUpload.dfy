/** The processor's side of the display: its registers, the streaming upload, and how pixels are packed. */
module VideoUpload {
  import opened Words

  const FRAMES := 12
  const PIXELS := 4096
  const WORDS := 512

  type Nibble = x: int | 0 <= x < 16

  // ---------------------------------------------------------------- packing

  /** The first pixel in the lowest nibble. */
  function Pack(pixels: seq<int>): int {
    if pixels == [] then 0 else pixels[0] % 16 + 16 * Pack(pixels[1..])
  }

  /** Bits 4i+3 to 4i of a word. */
  function NibbleAt(w: nat, i: nat): Nibble {
    if i == 0 then w % 16 else NibbleAt(w / 16, i - 1)
  }

  function Power16(n: nat): nat { if n == 0 then 1 else 16 * Power16(n - 1) }

  /** Packing loses nothing but the pixels' upper bits, and eight pixels fill a word. */
  lemma {:induction false} PackRoundTrip(pixels: seq<int>, i: nat)
    requires i < |pixels|
    ensures 0 <= Pack(pixels) < Power16(|pixels|)
    ensures NibbleAt(Pack(pixels), i) == pixels[i] % 16
    decreases |pixels|
  {
    var rest := Pack(pixels[1..]);
    assert 0 <= rest < Power16(|pixels| - 1) by {
      if |pixels| > 1 { PackRoundTrip(pixels[1..], 0); }
    }
    assert Pack(pixels) / 16 == rest && Pack(pixels) % 16 == pixels[0] % 16;
    if i > 0 {
      PackRoundTrip(pixels[1..], i - 1);
    }
  }

  function PackWord(pixels: seq<int>): (w: Word)
    requires |pixels| == 8
  {
    PackRoundTrip(pixels, 0);
    assert Power16(8) == 16 * (16 * (16 * (16 * Power16(4)))) && Power16(4) == 65536;
    Pack(pixels)
  }

  // ---------------------------------------------------------------- the registers

  datatype Registers = Registers(ctrl: Word, uploadAddr: Word, palette: seq<nat>, ram: seq<Word>)

  function Powered(): Registers {
    Registers(0, 0, seq(16, _ => 0), seq(FRAMES * WORDS, _ => 0))
  }

  function FrameSelect(ctrl: Word): nat { ctrl / 16 % 16 }

  /** The frame being uploaded: one out of range means the last. */
  function UploadFrame(uploadAddr: Word): (k: nat)
    ensures k < FRAMES
  {
    var k := uploadAddr / 65536 % 16;
    if k >= FRAMES then FRAMES - 1 else k
  }

  /** The pixel address after a streamed word. */
  function Advance(pixel: nat): nat {
    var next := (pixel + 8) % 65536;
    if next >= PIXELS then 0 else next
  }

  /** A write beyond the memory has no effect; its address is 13 bits wide. */
  function Store(ram: seq<Word>, address: nat, data: Word): (r: seq<Word>)
    ensures |r| == |ram|
  {
    if address % 8192 < |ram| then ram[address % 8192 := data] else ram
  }

  /** One bus write, by the address's low byte. */
  function Write(r: Registers, address: nat, data: Word): Registers
    requires |r.palette| == 16
  {
    if address == 0x20 then
      if FrameSelect(data) < FRAMES then r.(ctrl := data)
      else r.(ctrl := r.ctrl / 256 * 256 + FrameSelect(r.ctrl) * 16 + data % 2)
    else if address == 0x10 then r.(uploadAddr := data)
    else if address == 0x14 then
      var pixel := r.uploadAddr % 65536;
      r.(uploadAddr := UploadFrame(r.uploadAddr) * 65536 + Advance(pixel),
         ram := Store(r.ram, UploadFrame(r.uploadAddr) * WORDS + pixel / 8, data))
    else if 0x24 <= address < 0x64 then r.(palette := r.palette[(address - 0x24) / 4 := data % 64])
    else r
  }

  datatype Access = Access(address: nat, data: Word)

  function WriteAll(r: Registers, accesses: seq<Access>): (s: Registers)
    requires |r.palette| == 16
    ensures |s.palette| == 16 && |s.ram| == |r.ram|
    decreases |accesses|
  {
    if accesses == [] then r
    else
      var last := accesses[|accesses| - 1];
      Write(WriteAll(r, accesses[..|accesses| - 1]), last.address, last.data)
  }

  lemma KeepsFrame(ctrl: Word, enable: nat)
    requires enable < 2
    ensures FrameSelect(ctrl / 256 * 256 + FrameSelect(ctrl) * 16 + enable) == FrameSelect(ctrl)
  {
    var c := ctrl / 256 * 256 + FrameSelect(ctrl) * 16 + enable;
    assert c / 16 == ctrl / 256 * 16 + FrameSelect(ctrl);
  }

  /** Whatever is written, the display never selects a frame that does not exist. */
  lemma {:induction false} SelectsExistingFrame(accesses: seq<Access>)
    ensures FrameSelect(WriteAll(Powered(), accesses).ctrl) < FRAMES
    decreases |accesses|
  {
    if accesses != [] {
      var before, last := accesses[..|accesses| - 1], accesses[|accesses| - 1];
      SelectsExistingFrame(before);
      KeepsFrame(WriteAll(Powered(), before).ctrl, last.data % 2);
    }
  }

  // ---------------------------------------------------------------- single writes

  /** A palette write sets exactly its entry, to six bits, and nothing else. */
  lemma PaletteWrite(r: Registers, k: nat, byte: nat, data: Word, j: nat)
    requires |r.palette| == 16 && k < 16 && byte < 4 && j < 16
    ensures var s := Write(r, 0x24 + 4 * k + byte, data);
            && |s.palette| == 16 && s.palette[j] == (if j == k then data % 64 else r.palette[j])
            && s.ctrl == r.ctrl && s.uploadAddr == r.uploadAddr && s.ram == r.ram
  {
  }

  /** A control write that selects an existing frame is taken as it is; any other only changes the lowest four bits, to enable. */
  lemma ControlWrite(r: Registers, data: Word)
    requires |r.palette| == 16
    ensures var s := Write(r, 0x20, data);
            && (data / 16 % 16 < 12 ==> s.ctrl == data)
            && (data / 16 % 16 >= 12 ==> s.ctrl / 16 == r.ctrl / 16 && s.ctrl % 16 == data % 2)
            && s.palette == r.palette && s.uploadAddr == r.uploadAddr && s.ram == r.ram
  {
    if data / 16 % 16 >= 12 {
      var c := r.ctrl / 256 * 256 + FrameSelect(r.ctrl) * 16 + data % 2;
      assert c / 16 == r.ctrl / 256 * 16 + FrameSelect(r.ctrl) == r.ctrl / 16;
    }
  }

  lemma UploadFields(uploadAddr: Word, high: nat, k: nat, p: nat)
    requires k < 16 && p < 4096 && uploadAddr == high * 0x10_0000 + k * 0x1_0000 + p
    ensures uploadAddr % 0x1_0000 == p && UploadFrame(uploadAddr) == if k < 12 then k else 11
  {
    assert uploadAddr / 0x1_0000 == high * 16 + k;
  }

  lemma StreamStores(r: Registers, frame: nat, p: nat, data: Word)
    requires |r.palette| == 16 && p < 4096 && r.uploadAddr % 0x1_0000 == p && UploadFrame(r.uploadAddr) == frame
    ensures var s := Write(r, 0x14, data);
            && s.ram == Store(r.ram, 512 * frame + p / 8, data)
            && s.uploadAddr == 0x1_0000 * frame + (if p + 8 < 4096 then p + 8 else 0)
            && s.ctrl == r.ctrl && s.palette == r.palette
  {
  }

  /** A streamed word goes to pixel p of frame k, a frame too high meaning the last, and the next eight pixels come next. */
  lemma StreamWrite(r: Registers, high: nat, k: nat, p: nat, data: Word)
    requires |r.palette| == 16 && |r.ram| == 12 * 512 && k < 16 && p < 4096
    requires r.uploadAddr == high * 0x10_0000 + k * 0x1_0000 + p
    ensures var s, frame := Write(r, 0x14, data), if k < 12 then k else 11;
            && |s.ram| == |r.ram|
            && (forall a | 0 <= a < |r.ram| :: s.ram[a] == if a == 512 * frame + p / 8 then data else r.ram[a])
            && s.uploadAddr == 0x1_0000 * frame + (if p + 8 < 4096 then p + 8 else 0)
            && s.ctrl == r.ctrl && s.palette == r.palette
  {
    var frame := if k < 12 then k else 11;
    UploadFields(r.uploadAddr, high, k, p);
    StreamStores(r, frame, p, data);
    assert (512 * frame + p / 8) % 8192 == 512 * frame + p / 8 < |r.ram|;
  }

  /** The upload address is taken as it is, and no other address does anything. */
  lemma OtherWrites(r: Registers, address: nat, data: Word)
    requires |r.palette| == 16 && address != 0x14 && address != 0x20 && !(0x24 <= address < 0x64)
    ensures Write(r, address, data) == if address == 0x10 then r.(uploadAddr := data) else r
  {
  }

  // ---------------------------------------------------------------- uploading a frame

  /** Pixel p of frame k. */
  function PixelOf(ram: seq<Word>, k: nat, p: nat): Nibble
    requires |ram| == FRAMES * WORDS && k < FRAMES && p < PIXELS
  {
    NibbleAt(ram[k * WORDS + p / 8], p % 8)
  }

  function ImageWord(pixels: seq<int>, i: nat): Word
    requires |pixels| == PIXELS && i < WORDS
  {
    PackWord(pixels[8 * i..8 * i + 8])
  }

  /** The memory after the first j words of an image went to frame k. */
  ghost predicate Filled(ram: seq<Word>, was: seq<Word>, k: nat, pixels: seq<int>, j: nat)
    requires |pixels| == PIXELS && k < FRAMES && j <= WORDS
  {
    && |ram| == |was| == FRAMES * WORDS
    && (forall i | 0 <= i < j :: ram[k * WORDS + i] == ImageWord(pixels, i))
    && (forall a | 0 <= a < |ram| && !(k * WORDS <= a < k * WORDS + j) :: ram[a] == was[a])
  }

  lemma StoreFills(ram: seq<Word>, was: seq<Word>, k: nat, pixels: seq<int>, j: nat)
    requires |pixels| == PIXELS && k < FRAMES && j < WORDS && Filled(ram, was, k, pixels, j)
    ensures Filled(Store(ram, k * WORDS + j, ImageWord(pixels, j)), was, k, pixels, j + 1)
  {
    var a := k * WORDS + j;
    assert a % 8192 == a;
  }

  lemma StreamAddress(k: nat, j: nat)
    requires k < FRAMES && j < WORDS
    ensures var a := k * 65536 + 8 * j;
            && a % 65536 / 8 == j && UploadFrame(a) == k && Advance(a % 65536) == 8 * (j + 1) % PIXELS
  {
    assert (k * 65536 + 8 * j) % 65536 == 8 * j;
  }

  lemma StreamStep(r: Registers, was: seq<Word>, k: nat, pixels: seq<int>, j: nat)
    requires |r.palette| == 16 && |pixels| == PIXELS && k < FRAMES && j < WORDS
    requires Filled(r.ram, was, k, pixels, j) && r.uploadAddr == k * 65536 + 8 * j
    ensures var s := Write(r, 0x14, ImageWord(pixels, j));
            && Filled(s.ram, was, k, pixels, j + 1)
            && s.uploadAddr == k * 65536 + 8 * (j + 1) % PIXELS
            && s.ctrl == r.ctrl && s.palette == r.palette
  {
    StreamAddress(k, j);
    StoreFills(r.ram, was, k, pixels, j);
  }

  /** A filled frame holds the image's pixels, and every other frame is as it was. */
  lemma FilledPixels(ram: seq<Word>, was: seq<Word>, k: nat, pixels: seq<int>, m: nat, p: nat)
    requires |pixels| == PIXELS && k < FRAMES && m < FRAMES && p < PIXELS
    requires Filled(ram, was, k, pixels, WORDS)
    ensures PixelOf(ram, m, p) == if m == k then pixels[p] % 16 else PixelOf(was, m, p)
  {
    var i := p / 8;
    assert i < WORDS;
    if m == k {
      var part := pixels[8 * i..8 * i + 8];
      PackRoundTrip(part, p % 8);
      assert part[p % 8] == pixels[p];
      assert ram[k * WORDS + i] == ImageWord(pixels, i);
    } else {
      var a := m * WORDS + i;
      assert !(k * WORDS <= a < k * WORDS + WORDS);
    }
  }

  /** The memory-mapped peripheral. */
  class VideoPort {
    var ctrl: Word
    var uploadAddr: Word
    const palette: array<nat>
    const ram: array<Word>

    ghost predicate Valid() { palette.Length == 16 && ram.Length == FRAMES * WORDS }

    ghost function State(): Registers
      requires Valid()
      reads this, palette, ram
    {
      Registers(ctrl, uploadAddr, palette[..], ram[..])
    }

    constructor ()
      ensures Valid() && State() == Powered() && fresh(palette) && fresh(ram)
    {
      ctrl, uploadAddr := 0, 0;
      palette := new nat[16](_ => 0);
      ram := new Word[FRAMES * WORDS](_ => 0);
    }

    /** Stores a word of pixels at the upload address and moves the address on. */
    method Stream(data: Word)
      requires Valid()
      modifies this, ram
      ensures State() == Write(old(State()), 0x14, data)
    {
      var pixel := uploadAddr % 65536;
      var frame := uploadAddr / 65536 % 16;
      if frame >= 12 {
        frame := 11;
      }
      var target := (frame * 512 + pixel / 8) % 8192;
      if target < ram.Length {
        ram[target] := data;
      }
      var next := (pixel + 8) % 65536;
      uploadAddr := frame * 65536 + if next >= 4096 then 0 else next;
    }

    /** Selecting a frame that does not exist only changes the enable bit and clears its three neighbours. */
    method SetControl(data: Word)
      requires Valid()
      modifies this`ctrl
      ensures State() == Write(old(State()), 0x20, data)
    {
      if FrameSelect(data) < FRAMES {
        ctrl := data;
      } else {
        ctrl := ctrl / 256 * 256 + FrameSelect(ctrl) * 16 + data % 2;
      }
    }

    method BusWrite(address: nat, data: Word)
      requires Valid()
      modifies this, palette, ram
      ensures State() == Write(old(State()), address, data)
    {
      if address == 0x20 {
        SetControl(data);
      } else if address == 0x10 {
        uploadAddr := data;
      } else if address == 0x14 {
        Stream(data);
      } else if 0x24 <= address < 0x64 {
        palette[(address - 0x24) / 4] := data % 64;
      }
    }
  }

  method UploadWord(port: VideoPort, k: nat, pixels: seq<int>, j: nat, ghost was: seq<Word>)
    requires port.Valid() && |pixels| == PIXELS && k < FRAMES && j < WORDS
    requires Filled(port.ram[..], was, k, pixels, j) && port.uploadAddr == k * 65536 + 8 * j
    modifies port, port.palette, port.ram
    ensures Filled(port.ram[..], was, k, pixels, j + 1)
    ensures port.uploadAddr == k * 65536 + 8 * (j + 1) % PIXELS
    ensures port.ctrl == old(port.ctrl) && port.palette[..] == old(port.palette[..])
  {
    StreamStep(port.State(), was, k, pixels, j);
    port.BusWrite(0x14, PackWord(pixels[8 * j..8 * j + 8]));
  }

  /** The program's upload of one image: an address, then 512 packed words. */
  method Upload(port: VideoPort, k: nat, pixels: seq<int>)
    requires port.Valid() && |pixels| == PIXELS && k < FRAMES
    modifies port, port.palette, port.ram
    ensures Filled(port.ram[..], old(port.ram[..]), k, pixels, WORDS)
    ensures port.uploadAddr == k * 65536
    ensures port.ctrl == old(port.ctrl) && port.palette[..] == old(port.palette[..])
  {
    ghost var was := port.ram[..];
    port.BusWrite(0x10, k % 16 * 65536);
    var j := 0;
    while j < WORDS
      invariant 0 <= j <= WORDS
      invariant Filled(port.ram[..], was, k, pixels, j)
      invariant port.uploadAddr == k * 65536 + 8 * j % PIXELS
      invariant port.ctrl == old(port.ctrl) && port.palette[..] == old(port.palette[..])
    {
      UploadWord(port, k, pixels, j, was);
      j := j + 1;
    }
  }
}
