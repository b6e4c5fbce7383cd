/**
  Byte lanes of the memory stage: which bytes of a bus word a load returns, and
  which bytes of it a store changes.
 */
module LoadStore {
  import opened Basics
  import opened Words
  import opened PipelineCpu

  const LB := 0
  const LH := 1
  const LW := 2
  const LBU := 4
  const LHU := 5
  const SB := 0
  const SH := 1
  const SW := 2

  /** Byte lane k of a word. */
  function Lane(w: Word, k: nat): Byte
    requires k < 4
  {
    if k == 0 then w % 0x100
    else if k == 1 then w / 0x100 % 0x100
    else if k == 2 then w / 0x1_0000 % 0x100
    else w / 0x100_0000
  }

  function Join(b0: Byte, b1: Byte, b2: Byte, b3: Byte): Word {
    b0 + 0x100 * b1 + 0x1_0000 * b2 + 0x100_0000 * b3
  }

  lemma Split8(x: int, q: int, r: int)
    requires x == 0x100 * q + r && 0 <= r < 0x100
    ensures x / 0x100 == q && x % 0x100 == r
  {
  }

  lemma Split16(x: int, q: int, r: int)
    requires x == 0x1_0000 * q + r && 0 <= r < 0x1_0000
    ensures x / 0x1_0000 == q && x % 0x1_0000 == r
  {
  }

  lemma Split24(x: int, q: int, r: int)
    requires x == 0x100_0000 * q + r && 0 <= r < 0x100_0000
    ensures x / 0x100_0000 == q
  {
  }

  /** Every bit slice of a word in terms of its bytes. */
  lemma Slices(b0: Byte, b1: Byte, b2: Byte, b3: Byte)
    ensures var w := Join(b0, b1, b2, b3);
            && Lane(w, 0) == b0 && Lane(w, 1) == b1 && Lane(w, 2) == b2 && Lane(w, 3) == b3
            && w % 0x1_0000 == b0 + 0x100 * b1
            && w / 0x100 % 0x1_0000 == b1 + 0x100 * b2
            && w / 0x1_0000 == b2 + 0x100 * b3
  {
    var w := Join(b0, b1, b2, b3);
    Split8(w, b1 + 0x100 * b2 + 0x1_0000 * b3, b0);
    Split8(b1 + 0x100 * b2 + 0x1_0000 * b3, b2 + 0x100 * b3, b1);
    Split8(b2 + 0x100 * b3, b3, b2);
    Split16(w, b2 + 0x100 * b3, b0 + 0x100 * b1);
    Split16(b1 + 0x100 * b2 + 0x1_0000 * b3, b3, b1 + 0x100 * b2);
    Split24(w, b3, b0 + 0x100 * b1 + 0x1_0000 * b2);
  }

  /** A word is its four bytes. */
  lemma Bytes(w: Word) returns (b0: Byte, b1: Byte, b2: Byte, b3: Byte)
    ensures w == Join(b0, b1, b2, b3)
  {
    b0 := w % 0x100;
    var x := w / 0x100;
    b1 := x % 0x100;
    var y := x / 0x100;
    b2, b3 := y % 0x100, y / 0x100;
  }

  // ---------------------------------------------------------------- the units

  /** Replication of the sign bit above a byte or a halfword. */
  function SignedByte(b: Byte): Word { if b >= 0x80 then 0xFFFF_FF00 + b else b }
  function SignedHalf(h: int): Word
    requires 0 <= h < 0x1_0000
  {
    if h >= 0x8000 then 0xFFFF_0000 + h else h
  }

  /** What the Read state latches from the bus word. */
  function Extract(funct3: nat, address: Word, data: Word): Word {
    var index := address % 4;
    if funct3 == LB then
      SignedByte(if index == 0 then data % 0x100
                 else if index == 1 then data / 0x100 % 0x100
                 else if index == 2 then data / 0x1_0000 % 0x100
                 else data / 0x100_0000)
    else if funct3 == LBU then
      (if index == 0 then data % 0x100
       else if index == 1 then data / 0x100 % 0x100
       else if index == 2 then data / 0x1_0000 % 0x100
       else data / 0x100_0000)
    else if funct3 == LH then
      SignedHalf(if index == 0 then data % 0x1_0000
                 else if index == 1 then data / 0x100 % 0x1_0000
                 else data / 0x1_0000)
    else if funct3 == LHU then
      (if index == 0 then data % 0x1_0000
       else if index == 1 then data / 0x100 % 0x1_0000
       else data / 0x1_0000)
    else if funct3 == LW then data
    else 0
  }

  function StoreData(funct3: nat, address: Word, value: Word): Word {
    var index := address % 4;
    if funct3 == SB then
      (value % 0x100) * (if index == 0 then 1 else if index == 1 then 0x100 else if index == 2 then 0x1_0000 else 0x100_0000)
    else if funct3 == SH then
      (value % 0x1_0000) * (if index == 0 then 1 else if index == 1 then 0x100 else 0x1_0000)
    else value
  }

  function StoreStrobe(funct3: nat, address: Word): Strobe {
    var index := address % 4;
    if funct3 == SB then [index == 0, index == 1, index == 2, index == 3]
    else if funct3 == SH then [index == 0, index <= 1, index >= 1, index >= 2]
    else if funct3 == SW then [true, true, true, true]
    else NO_STROBE
  }

  /** A strobed write of one word. */
  function Merge(was: Word, data: Word, strobe: Strobe): Word {
    Join(if strobe[0] then Lane(data, 0) else Lane(was, 0),
         if strobe[1] then Lane(data, 1) else Lane(was, 1),
         if strobe[2] then Lane(data, 2) else Lane(was, 2),
         if strobe[3] then Lane(data, 3) else Lane(was, 3))
  }

  // ---------------------------------------------------------------- the devices behind the bus

  const DEVICE_SPAN := 0x2000_0000

  /** The slave an address selects: bits 31:29. */
  function Index(address: Word): (i: nat)
    ensures i < 8
  {
    address / DEVICE_SPAN
  }

  /** The eighth of the address space that belongs to slave j: memory, display, UART, and five without a device. */
  predicate InRegion(address: Word, j: nat) { 0x2000_0000 * j <= address < 0x2000_0000 * (j + 1) }

  /** Every address is in exactly one slave's region, and that slave is selected. */
  lemma SelectsRegion(address: Word, j: nat)
    ensures j < 8 && InRegion(address, j) <==> j == Index(address)
  {
  }

  /** A word is read from the device of its region, and written to that one alone. */
  lemma WordsByRegion(d: Devices, address: Word, data: Word, strobe: Strobe, j: nat)
    requires j < 8
    ensures InRegion(address, j) ==> ReadWord(d, address) == Lookup(d[j], address)
    ensures WriteWord(d, address, data, strobe)[j] ==
            if InRegion(address, j) then Written(d[j], address, data, strobe) else d[j]
  {
    SelectsRegion(address, j);
  }

  /** Word memories of the eight address regions. */
  type Devices = s: seq<map<Word, Word>> | |s| == 8 witness [map[], map[], map[], map[], map[], map[], map[], map[]]

  function Lookup(words: map<Word, Word>, address: Word): Word { if address in words then words[address] else 0 }

  function ReadWord(d: Devices, address: Word): Word { Lookup(d[Index(address)], address) }

  function Written(words: map<Word, Word>, address: Word, data: Word, strobe: Strobe): map<Word, Word> {
    words[address := Merge(Lookup(words, address), data, strobe)]
  }

  function WriteWord(d: Devices, address: Word, data: Word, strobe: Strobe): Devices {
    d[Index(address) := Written(d[Index(address)], address, data, strobe)]
  }

  // ---------------------------------------------------------------- the byte-addressed memory they form

  function ByteAt(d: Devices, address: Word): Byte { Lane(ReadWord(d, Align(address)), address % 4) }

  function LoadSize(funct3: nat): nat {
    if funct3 == LB || funct3 == LBU then 1 else if funct3 == LH || funct3 == LHU then 2 else 4
  }

  function StoreSize(funct3: nat): nat { if funct3 == SB then 1 else if funct3 == SH then 2 else 4 }

  predicate IsLoad(funct3: nat) { funct3 == LB || funct3 == LH || funct3 == LW || funct3 == LBU || funct3 == LHU }
  predicate IsStore(funct3: nat) { funct3 == SB || funct3 == SH || funct3 == SW }

  /** The access does not leave its word. */
  predicate WithinWord(address: Word, size: nat) { address % 4 + size <= 4 }

  /** Little-endian value of the n bytes at an address. */
  function Value(d: Devices, address: Word, n: nat): nat
    requires n <= 4 && WithinWord(address, n)
  {
    if n == 0 then 0
    else if n == 1 then ByteAt(d, address)
    else if n == 2 then ByteAt(d, address) + 0x100 * ByteAt(d, address + 1)
    else if n == 3 then ByteAt(d, address) + 0x100 * ByteAt(d, address + 1) + 0x1_0000 * ByteAt(d, address + 2)
    else ByteAt(d, address) + 0x100 * ByteAt(d, address + 1) + 0x1_0000 * ByteAt(d, address + 2)
         + 0x100_0000 * ByteAt(d, address + 3)
  }

  /** The two's-complement number that n bytes denote. */
  function SignedValue(n: nat, v: int): int {
    if n == 1 && v >= 0x80 then v - 0x100
    else if n == 2 && v >= 0x8000 then v - 0x1_0000
    else v
  }

  lemma AlignWithin(address: Word, k: nat)
    requires address % 4 + k < 4
    ensures Align(address + k) == Align(address) && (address + k) % 4 == address % 4 + k
  {
  }

  /** Extraction in terms of lanes. */
  lemma ExtractLanes(funct3: nat, address: Word, w: Word)
    requires IsLoad(funct3) && WithinWord(address, LoadSize(funct3))
    ensures var i := address % 4;
            Extract(funct3, address, w) ==
            if funct3 == LB then SignedByte(Lane(w, i))
            else if funct3 == LBU then Lane(w, i)
            else if funct3 == LH then SignedHalf(Lane(w, i) + 0x100 * Lane(w, i + 1))
            else if funct3 == LHU then Lane(w, i) + 0x100 * Lane(w, i + 1)
            else Join(Lane(w, 0), Lane(w, 1), Lane(w, 2), Lane(w, 3))
  {
    var b0, b1, b2, b3 := Bytes(w);
    Slices(b0, b1, b2, b3);
  }

  lemma StaysInMemory(address: Word, k: nat)
    requires address % 4 + k < 4
    ensures address + k < MODULUS
  {
    var q := address / 4;
    assert address == 4 * q + address % 4;
    assert q < 0x4000_0000;
  }

  /** The lane of the addressed word in which a byte of the access is. */
  lemma LaneOf(d: Devices, address: Word, k: nat, p: Word)
    requires address % 4 + k < 4 && p == address + k
    ensures ByteAt(d, p) == Lane(ReadWord(d, Align(address)), address % 4 + k)
  {
    AlignWithin(address, k);
  }

  lemma ByteLoaded(d: Devices, funct3: nat, address: Word)
    requires funct3 == LB || funct3 == LBU
    ensures Extract(funct3, address, ReadWord(d, Align(address))) ==
            if funct3 == LBU then ByteAt(d, address) else Wrap(SignedValue(1, ByteAt(d, address)))
  {
    ExtractLanes(funct3, address, ReadWord(d, Align(address)));
  }

  lemma HalfLoaded(d: Devices, funct3: nat, address: Word, p: Word, v: nat)
    requires (funct3 == LH || funct3 == LHU) && WithinWord(address, 2) && p == address + 1
    requires v == ByteAt(d, address) + 0x100 * ByteAt(d, p)
    ensures Extract(funct3, address, ReadWord(d, Align(address))) == if funct3 == LHU then v else Wrap(SignedValue(2, v))
  {
    LaneOf(d, address, 1, p);
    ExtractLanes(funct3, address, ReadWord(d, Align(address)));
  }

  lemma WordLoaded(d: Devices, address: Word, p: Word, q: Word, r: Word)
    requires WithinWord(address, 4) && p == address + 1 && q == address + 2 && r == address + 3
    ensures Extract(LW, address, ReadWord(d, Align(address))) == Join(ByteAt(d, address), ByteAt(d, p), ByteAt(d, q), ByteAt(d, r))
  {
    LaneOf(d, address, 1, p);
    LaneOf(d, address, 2, q);
    LaneOf(d, address, 3, r);
    ExtractLanes(LW, address, ReadWord(d, Align(address)));
  }

  lemma HalfExpected(d: Devices, funct3: nat, address: Word)
    requires (funct3 == LH || funct3 == LHU) && WithinWord(address, 2)
    ensures Extract(funct3, address, ReadWord(d, Align(address))) ==
            if funct3 == LHU then Value(d, address, 2) else Wrap(SignedValue(2, Value(d, address, 2)))
  {
    StaysInMemory(address, 1);
    HalfLoaded(d, funct3, address, address + 1, Value(d, address, 2));
  }

  lemma WordExpected(d: Devices, address: Word)
    requires WithinWord(address, 4)
    ensures Extract(LW, address, ReadWord(d, Align(address))) == Value(d, address, 4)
  {
    StaysInMemory(address, 3);
    WordLoaded(d, address, address + 1, address + 2, address + 3);
  }

  lemma WholeWordUnsigned(d: Devices, address: Word)
    requires WithinWord(address, 4)
    ensures Wrap(SignedValue(4, Value(d, address, 4))) == Value(d, address, 4)
  {
    WordExpected(d, address);
  }

  /** A load that stays within a word returns the current bytes, sign- or zero-extended to 32 bits. */
  lemma LoadReturnsBytes(d: Devices, funct3: nat, address: Word)
    requires IsLoad(funct3) && WithinWord(address, LoadSize(funct3))
    ensures var v := Value(d, address, LoadSize(funct3));
            Extract(funct3, address, ReadWord(d, Align(address))) ==
            if funct3 == LBU || funct3 == LHU then v else Wrap(SignedValue(LoadSize(funct3), v))
  {
    if LoadSize(funct3) == 1 {
      ByteLoaded(d, funct3, address);
    } else if LoadSize(funct3) == 2 {
      HalfExpected(d, funct3, address);
    } else {
      WordExpected(d, address);
      WholeWordUnsigned(d, address);
    }
  }

  /** The strobes of a store select exactly its bytes. */
  lemma StrobeLanes(funct3: nat, address: Word, k: nat)
    requires IsStore(funct3) && WithinWord(address, StoreSize(funct3)) && k < 4
    ensures StoreStrobe(funct3, address)[k] <==> address % 4 <= k < address % 4 + StoreSize(funct3)
  {
  }

  lemma LowPart(b0: Byte, b1: Byte, b2: Byte, b3: Byte)
    ensures Join(b0, b1, b2, b3) % 0x100 == b0 && Join(b0, b1, b2, b3) % 0x1_0000 == b0 + 0x100 * b1
  {
    Slices(b0, b1, b2, b3);
  }

  /** What a store puts on the bus, byte by byte. */
  lemma StoreBytes(funct3: nat, address: Word, b0: Byte, b1: Byte, b2: Byte, b3: Byte)
    requires IsStore(funct3) && WithinWord(address, StoreSize(funct3))
    ensures var i := address % 4;
            StoreData(funct3, address, Join(b0, b1, b2, b3)) ==
            if funct3 == SB then
              Join(if i == 0 then b0 else 0, if i == 1 then b0 else 0, if i == 2 then b0 else 0, if i == 3 then b0 else 0)
            else if funct3 == SH then
              Join(if i == 0 then b0 else 0, if i == 0 then b1 else if i == 1 then b0 else 0,
                   if i == 1 then b1 else if i == 2 then b0 else 0, if i == 2 then b1 else 0)
            else Join(b0, b1, b2, b3)
  {
    LowPart(b0, b1, b2, b3);
  }

  /** The lanes a store writes to hold the matching bytes of the value. */
  lemma DataLanes(funct3: nat, address: Word, value: Word, k: nat)
    requires IsStore(funct3) && WithinWord(address, StoreSize(funct3))
    requires address % 4 <= k < address % 4 + StoreSize(funct3)
    ensures Lane(StoreData(funct3, address, value), k) == Lane(value, k - address % 4)
  {
    var b0, b1, b2, b3 := Bytes(value);
    var i := address % 4;
    Slices(b0, b1, b2, b3);
    StoreBytes(funct3, address, b0, b1, b2, b3);
    if funct3 == SB {
      Slices(if i == 0 then b0 else 0, if i == 1 then b0 else 0, if i == 2 then b0 else 0, if i == 3 then b0 else 0);
    } else if funct3 == SH {
      Slices(if i == 0 then b0 else 0, if i == 0 then b1 else if i == 1 then b0 else 0,
             if i == 1 then b1 else if i == 2 then b0 else 0, if i == 2 then b1 else 0);
    }
  }

  lemma MergeLane(was: Word, data: Word, strobe: Strobe, k: nat)
    requires k < 4
    ensures Lane(Merge(was, data, strobe), k) == if strobe[k] then Lane(data, k) else Lane(was, k)
  {
    Slices(if strobe[0] then Lane(data, 0) else Lane(was, 0), if strobe[1] then Lane(data, 1) else Lane(was, 1),
           if strobe[2] then Lane(data, 2) else Lane(was, 2), if strobe[3] then Lane(data, 3) else Lane(was, 3));
  }

  lemma MergeTwice(was: Word, data: Word, strobe: Strobe)
    ensures Merge(Merge(was, data, strobe), data, strobe) == Merge(was, data, strobe)
  {
    MergeLane(was, data, strobe, 0);
    MergeLane(was, data, strobe, 1);
    MergeLane(was, data, strobe, 2);
    MergeLane(was, data, strobe, 3);
  }

  /** The word memories take the same write twice as once. */
  lemma WriteTwice(d: Devices, address: Word, data: Word, strobe: Strobe)
    ensures WriteWord(WriteWord(d, address, data, strobe), address, data, strobe) == WriteWord(d, address, data, strobe)
  {
    var words := d[Index(address)];
    MergeTwice(Lookup(words, address), data, strobe);
    var once := Written(words, address, data, strobe);
    assert Written(once, address, data, strobe) == once;
  }

  /** A store that stays within a word changes exactly its bytes. */
  lemma StoreChangesExactly(d: Devices, funct3: nat, address: Word, value: Word, b: Word)
    requires IsStore(funct3) && WithinWord(address, StoreSize(funct3))
    ensures var d' := WriteWord(d, Align(address), StoreData(funct3, address, value), StoreStrobe(funct3, address));
            ByteAt(d', b) == if address <= b < address + StoreSize(funct3) then Lane(value, b - address) else ByteAt(d, b)
  {
    var data, strobe, k := StoreData(funct3, address, value), StoreStrobe(funct3, address), b % 4;
    MergeLane(ReadWord(d, Align(address)), data, strobe, k);
    SameWord(address, StoreSize(funct3), b);
    if Align(b) == Align(address) {
      StrobeLanes(funct3, address, k);
      if strobe[k] { DataLanes(funct3, address, value, k); }
    }
  }

  /** Which addresses of a word an access covers. */
  lemma SameWord(address: Word, size: nat, b: Word)
    requires WithinWord(address, size)
    ensures address <= b < address + size <==>
            Align(b) == Align(address) && address % 4 <= b % 4 < address % 4 + size
    ensures Align(b) == Align(address) ==> b - address == b % 4 - address % 4
  {
    var q, r := address / 4, b / 4;
    assert address == 4 * q + address % 4 && b == 4 * r + b % 4;
    if address <= b < address + size { assert r == q; }
  }

  /** The memory stage's units and this memory, as the pipeline takes them. */
  function Units(alu: (nat, Word, Word) -> Word): Isa<Devices> {
    Isa(alu, Extract, StoreData, StoreStrobe, ReadWord, WriteWord)
  }
}
