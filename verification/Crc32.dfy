/**
 CRC32C: the 8-byte-stride `crc32` over the SSE 4.2 instructions, the table-driven
 byte-at-a-time reference and the compile-time form are one function. A `crc32`
 instruction is defined bit by bit: it shifts its operand in, least significant
 bit first.
 */
module Crc32 {
  import opened CrcTable
  import opened LinearRegister

  function FlipLow(crc: bv32): bv32 { crc ^ 1 }

  function ClearLow(crc: bv32): bv32 { crc & 0xFFFF_FFFE }

  function LowBit(x: bv32): bool { x & 1 == 1 }

  function Half(x: bv32): bv32 { x >> 1 }

  function Xor(x: bv32, y: bv32): bv32 { x ^ y }

  function LowBitWide(x: bv64): bool { x & 1 == 1 }

  function HalfWide(x: bv64): bv64 { x >> 1 }

  /** The `n` lowest bits of an instruction operand, lowest first. */
  function Bits(x: bv64, n: nat): seq<bool> {
    BitsOf(LowBitWide, HalfWide, x, n)
  }

  /** What the `crc32` instruction does with an operand of `n` bits. */
  function Feed(crc: bv32, x: bv64, n: nat): bv32 {
    Fold(Shift, FlipLow, crc, Bits(x, n))
  }

  function LowByte(x: bv32): byte { (x & 0xFF) as bv8 }

  /** One step of the table form: `(crc >> 8) ^ table[(crc ^ b) & 0xFF]`. */
  function StepWith(table: byte -> bv32, crc: bv32, b: byte): bv32 {
    Xor(crc >> 8, table(LowByte(Xor(crc, b as bv32))))
  }

  /** The checksum of a buffer, byte by byte. */
  function CrcWith(table: byte -> bv32, buf: seq<byte>, crc: bv32): bv32 {
    if buf == [] then crc else CrcWith(table, buf[1..], StepWith(table, crc, buf[0]))
  }

  function Crc(buf: seq<byte>, crc: bv32): bv32 {
    CrcWith(Table, buf, crc)
  }

  // ---- exclusive or, one fact at a time ----

  lemma XorHalves(x: bv32, y: bv32)
    ensures (x ^ y) >> 1 == (x >> 1) ^ (y >> 1)
  {
  }

  lemma XorLowBits(x: bv32, y: bv32)
    ensures (x ^ y) & 1 == 1 <==> (x & 1 == 1) != (y & 1 == 1)
  {
  }

  lemma XorSwaps(x: bv32, y: bv32, z: bv32)
    ensures (x ^ y) ^ z == (x ^ z) ^ y && (x ^ y) ^ z == x ^ (y ^ z)
  {
  }

  lemma XorTwice(x: bv32, y: bv32, z: bv32)
    ensures (x ^ z) ^ (y ^ z) == x ^ y
  {
  }

  // ---- the shift register is linear ----

  lemma ShiftXor(x: bv32, y: bv32)
    ensures Shift(x ^ y) == Shift(x) ^ Shift(y)
  {
    XorLowBits(x, y);
    XorHalves(x, y);
    if x & 1 == 1 {
      if y & 1 == 1 {
        XorTwice(x >> 1, y >> 1, POLYNOMIAL);
      } else {
        XorSwaps(x >> 1, y >> 1, POLYNOMIAL);
      }
    } else {
      if y & 1 == 1 {
        XorSwaps(x >> 1, y >> 1, POLYNOMIAL);
      }
    }
  }

  lemma FlipCarries(x: bv32, y: bv32)
    requires LowBit(y)
    ensures Xor(x, y) == Xor(FlipLow(x), ClearLow(y))
  {
  }

  lemma ClearLowOfEven(y: bv32)
    requires !LowBit(y)
    ensures ClearLow(y) == y
  {
  }

  lemma ShiftOfClear(y: bv32)
    ensures Shift(ClearLow(y)) == Half(y)
  {
    assert (y & 0xFFFF_FFFE) & 1 == 0;
    assert (y & 0xFFFF_FFFE) >> 1 == y >> 1;
  }

  lemma ShiftDistributes()
    ensures Distributes(Shift, Xor)
  {
    forall x, y ensures Shift(Xor(x, y)) == Xor(Shift(x), Shift(y)) {
      ShiftXor(x, y);
    }
  }

  lemma ShiftClears()
    ensures Clears(Shift, Xor, FlipLow, LowBit, Half, ClearLow)
  {
    forall x, y | LowBit(y) ensures Xor(x, y) == Xor(FlipLow(x), ClearLow(y)) {
      FlipCarries(x, y);
    }
    forall y | !LowBit(y) ensures ClearLow(y) == y {
      ClearLowOfEven(y);
    }
    forall y ensures Shift(ClearLow(y)) == Half(y) {
      ShiftOfClear(y);
    }
  }

  lemma ShiftPeels()
    ensures Peels(Shift, Xor, FlipLow, LowBit, Half)
  {
    ShiftDistributes();
    ShiftClears();
    LinearPeels(Shift, Xor, FlipLow, LowBit, Half, ClearLow);
  }

  // ---- a byte of the register ----

  function ByteBits(x: bv32): seq<bool> {
    BitsOf(LowBit, Half, x, 8)
  }

  lemma FourHalves(x: bv32, n: nat)
    ensures Iterate(Half, x, n + 4) == Iterate(Half, x >> 4, n)
  {
    assert Iterate(Half, x, n + 4) == Iterate(Half, x >> 1, n + 3);
    assert Iterate(Half, x >> 1, n + 3) == Iterate(Half, x >> 2, n + 2);
    assert Iterate(Half, x >> 2, n + 2) == Iterate(Half, x >> 3, n + 1);
    assert Iterate(Half, x >> 3, n + 1) == Iterate(Half, x >> 4, n);
  }

  lemma MoreHalves(x: bv32, n: nat)
    ensures Iterate(Half, x, n + 8) == Iterate(Half, x >> 8, n)
  {
    FourHalves(x, n + 4);
    FourHalves(x >> 4, n);
    assert (x >> 4) >> 4 == x >> 8;
  }

  lemma EightHalves(x: bv32)
    ensures Iterate(Half, x, 8) == x >> 8
  {
    MoreHalves(x, 0);
  }

  lemma ByteIsSmall(i: byte)
    ensures i as bv32 >> 8 == 0
  {
  }

  lemma ByteRunsOut(i: byte)
    ensures Iterate(Half, i as bv32, 8) == 0
  {
    EightHalves(i as bv32);
    ByteIsSmall(i);
  }

  lemma ZeroIsNeutral()
    ensures forall x :: Xor(0, x) == x && Xor(x, 0) == x
  {
  }

  /** Feeding a byte, in terms of the register combined with the byte. */
  lemma FoldOfByte(crc: bv32, b: byte)
    ensures Fold(Shift, FlipLow, crc, ByteBits(b as bv32))
         == Xor(Fold(Shift, FlipLow, 0, ByteBits(Xor(crc, b as bv32))), Iterate(Half, Xor(crc, b as bv32), 8))
  {
    ShiftPeels();
    ZeroIsNeutral();
    ByteRunsOut(b);
    FoldFromZero(Shift, Xor, FlipLow, LowBit, Half, 0, crc, b as bv32, 8);
  }

  // ---- the table ----

  lemma IterateIsShift8(x: bv32)
    ensures Iterate(Shift, x, 8) == Shift8(x)
  {
    var y := Shift(Shift(Shift(Shift(x))));
    assert Iterate(Shift, y, 4) == Iterate(Shift, Shift(y), 3) == Iterate(Shift, Shift(Shift(y)), 2)
        == Iterate(Shift, Shift(Shift(Shift(y))), 1) == Shift8(x);
    assert Iterate(Shift, x, 8) == Iterate(Shift, Shift(x), 7) == Iterate(Shift, Shift(Shift(x)), 6)
        == Iterate(Shift, Shift(Shift(Shift(x))), 5) == Iterate(Shift, y, 4);
  }

  lemma TableIsIterate(i: byte)
    ensures Table(i) == Iterate(Shift, i as bv32, 8)
  {
    TableIsShift8(i);
    IterateIsShift8(i as bv32);
  }

  lemma IterateIsFold(i: byte)
    ensures Iterate(Shift, i as bv32, 8) == Fold(Shift, FlipLow, 0, ByteBits(i as bv32))
  {
    ShiftPeels();
    ZeroIsNeutral();
    ByteRunsOut(i);
    FoldIsIterate(Shift, Xor, FlipLow, LowBit, Half, 0, i as bv32, 8);
  }

  /** An entry of the table is its own index, fed into an empty register. */
  lemma TableIsFold(i: byte)
    ensures Table(i) == Fold(Shift, FlipLow, 0, ByteBits(i as bv32))
  {
    TableIsIterate(i);
    IterateIsFold(i);
  }

  lemma MaskedBits(x: bv32)
    ensures ByteBits(x & 0xFF) == ByteBits(x)
  {
  }

  lemma ByteEntersLow(crc: bv32, b: byte)
    ensures Xor(crc, b as bv32) >> 8 == crc >> 8
  {
  }

  lemma LowByteFits(x: bv32)
    ensures LowByte(x) as bv32 == x & 0xFF
  {
  }

  /** Every entry of the table is its own index, fed into an empty register. */
  ghost predicate IsCrcTable(table: byte -> bv32) {
    forall i :: table(i) == Fold(Shift, FlipLow, 0, ByteBits(i as bv32))
  }

  lemma TableIsCrcTable()
    ensures IsCrcTable(Table)
  {
    forall i ensures Table(i) == Fold(Shift, FlipLow, 0, ByteBits(i as bv32)) {
      TableIsFold(i);
    }
  }

  lemma EntryIsFold(table: byte -> bv32, x: bv32)
    requires IsCrcTable(table)
    ensures table(LowByte(x)) == Fold(Shift, FlipLow, 0, ByteBits(x))
  {
    LowByteFits(x);
    MaskedBits(x);
  }

  lemma FoldOfByteShifted(crc: bv32, b: byte)
    ensures Fold(Shift, FlipLow, crc, ByteBits(b as bv32))
         == Xor(Fold(Shift, FlipLow, 0, ByteBits(Xor(crc, b as bv32))), Xor(crc, b as bv32) >> 8)
  {
    FoldOfByte(crc, b);
    EightHalves(Xor(crc, b as bv32));
  }

  lemma XorCommutes(x: bv32, y: bv32)
    ensures Xor(x, y) == Xor(y, x)
  {
  }

  lemma EntryMixesIn(crc: bv32, b: byte, entry: bv32)
    requires entry == Fold(Shift, FlipLow, 0, ByteBits(Xor(crc, b as bv32)))
    ensures Xor(crc >> 8, entry) == Fold(Shift, FlipLow, crc, ByteBits(b as bv32))
  {
    hide *;
    FoldOfByteShifted(crc, b);
    ByteEntersLow(crc, b);
    XorCommutes(crc >> 8, entry);
  }

  /** A table step feeds the bits of its byte. */
  lemma StepIsFold(table: byte -> bv32, crc: bv32, b: byte)
    requires IsCrcTable(table)
    ensures StepWith(table, crc, b) == Fold(Shift, FlipLow, crc, ByteBits(b as bv32))
  {
    EntryIsFold(table, Xor(crc, b as bv32));
    EntryMixesIn(crc, b, table(LowByte(Xor(crc, b as bv32))));
  }

  // ---- a byte of an operand ----

  lemma FourHalvesWide(x: bv64, n: nat)
    ensures Iterate(HalfWide, x, n + 4) == Iterate(HalfWide, x >> 4, n)
  {
    assert Iterate(HalfWide, x, n + 4) == Iterate(HalfWide, x >> 1, n + 3);
    assert Iterate(HalfWide, x >> 1, n + 3) == Iterate(HalfWide, x >> 2, n + 2);
    assert Iterate(HalfWide, x >> 2, n + 2) == Iterate(HalfWide, x >> 3, n + 1);
    assert Iterate(HalfWide, x >> 3, n + 1) == Iterate(HalfWide, x >> 4, n);
  }

  lemma MoreHalvesWide(x: bv64, n: nat)
    ensures Iterate(HalfWide, x, n + 8) == Iterate(HalfWide, x >> 8, n)
  {
    FourHalvesWide(x, n + 4);
    FourHalvesWide(x >> 4, n);
    assert (x >> 4) >> 4 == x >> 8;
  }

  lemma EightHalvesWide(x: bv64)
    ensures Iterate(HalfWide, x, 8) == x >> 8
  {
    MoreHalvesWide(x, 0);
  }

  lemma SameOctet(x: bv64)
    ensures Octet(LowBitWide, HalfWide, x) == Octet(LowBit, Half, (x & 0xFF) as bv32)
  {
  }

  lemma ByteIsOctet(y: bv32)
    ensures ByteBits(y) == Octet(LowBit, Half, y)
  {
    hide Octet, LowBit, Half;
    BitsAreOctet(LowBit, Half, y);
  }

  lemma FirstOctetWide(x: bv64, n: nat)
    ensures Bits(x, n + 8) == Octet(LowBitWide, HalfWide, x) + Bits(x >> 8, n)
  {
    hide Octet;
    FirstOctet(LowBitWide, HalfWide, x, n);
    EightHalvesWide(x);
  }

  /** The first byte of an operand is fed before the rest. */
  lemma FirstByte(x: bv64, n: nat)
    ensures Bits(x, n + 8) == ByteBits((x & 0xFF) as bv32) + Bits(x >> 8, n)
  {
    hide Octet, ByteBits, Bits;
    ByteIsOctet((x & 0xFF) as bv32);
    FirstOctetWide(x, n);
    SameOctet(x);
  }

  // ---- little-endian operands ----

  /** The bytes of a buffer read as one operand. */
  function Load(bytes: seq<byte>): bv64 {
    if bytes == [] then 0 else Join(bytes[0], Load(bytes[1..]))
  }

  /** A byte in front of the bytes of `rest`. */
  function Join(b: byte, rest: bv64): bv64 { b as bv64 | (rest << 8) }

  /** Only the `n` low bytes are used. */
  ghost predicate Fits(x: bv64, n: nat)
    decreases n
  {
    if n == 0 then x == 0 else Fits(x >> 8, n - 1)
  }

  lemma {:induction false} FitsMore(x: bv64, n: nat)
    requires Fits(x, n)
    ensures Fits(x, n + 1)
    decreases n
  {
    if n == 0 {
      assert x >> 8 == 0;
    } else {
      FitsMore(x >> 8, n - 1);
    }
  }

  lemma {:induction false} FitsUpTo(x: bv64, m: nat, n: nat)
    requires Fits(x, m) && m <= n
    ensures Fits(x, n)
    decreases n - m
  {
    if m < n {
      FitsMore(x, m);
      FitsUpTo(x, m + 1, n);
    }
  }

  lemma SevenBytes(x: bv64)
    requires Fits(x, 7)
    ensures x >> 56 == 0
  {
    assert Fits(x >> 8, 6) && Fits(x >> 16, 5) && Fits(x >> 24, 4) && Fits(x >> 32, 3);
    assert Fits(x >> 40, 2) && Fits(x >> 48, 1) && Fits(x >> 56, 0);
  }

  lemma LoadByte(b: byte, rest: bv64)
    ensures (Join(b, rest) & 0xFF) as bv32 == b as bv32
    ensures rest >> 56 == 0 ==> Join(b, rest) >> 8 == rest
  {
  }

  lemma LoadByteFits(b: byte, rest: bv64, n: nat)
    requires Fits(rest, n) && n <= 7
    ensures Fits(Join(b, rest), n + 1) && Join(b, rest) >> 8 == rest
  {
    FitsUpTo(rest, n, 7);
    SevenBytes(rest);
    LoadByte(b, rest);
  }

  lemma {:induction false} LoadFits(bytes: seq<byte>)
    requires |bytes| <= 8
    ensures Fits(Load(bytes), |bytes|)
    ensures bytes != [] ==> Load(bytes) >> 8 == Load(bytes[1..])
  {
    hide Fits, Join;
    if bytes != [] {
      LoadFits(bytes[1..]);
      LoadByteFits(bytes[0], Load(bytes[1..]), |bytes| - 1);
    } else {
      NothingFits();
    }
  }

  lemma NothingFits()
    ensures Fits(0, 0)
  {
  }

  lemma FeedFirstByte(crc: bv32, x: bv64, y: bv32, rest: bv64, n: nat)
    requires y == (x & 0xFF) as bv32 && rest == x >> 8
    ensures Feed(crc, x, n + 8) == Feed(Fold(Shift, FlipLow, crc, ByteBits(y)), rest, n)
  {
    FirstByte(x, n);
    FoldAppend(Shift, FlipLow, crc, ByteBits(y), Bits(rest, n));
  }

  /** An operand whose bytes, lowest first, are those of a buffer. */
  ghost predicate Holds(x: bv64, bytes: seq<byte>)
    decreases bytes
  {
    bytes == [] || ((x & 0xFF) as bv32 == bytes[0] as bv32 && Holds(x >> 8, bytes[1..]))
  }

  lemma LoadFirst(bytes: seq<byte>)
    requires 0 < |bytes| <= 8
    ensures (Load(bytes) & 0xFF) as bv32 == bytes[0] as bv32
    ensures Load(bytes) >> 8 == Load(bytes[1..])
  {
    hide Fits, Join;
    LoadFits(bytes);
    LoadByte(bytes[0], Load(bytes[1..]));
  }

  lemma {:induction false} LoadHolds(bytes: seq<byte>)
    requires |bytes| <= 8
    ensures Holds(Load(bytes), bytes)
  {
    hide Load;
    if bytes != [] {
      LoadHolds(bytes[1..]);
      LoadFirst(bytes);
    }
  }

  lemma FeedOneStep(table: byte -> bv32, crc: bv32, x: bv64, b: byte, n: nat)
    requires IsCrcTable(table) && (x & 0xFF) as bv32 == b as bv32
    ensures Feed(crc, x, n + 8) == Feed(StepWith(table, crc, b), x >> 8, n)
  {
    FeedFirstByte(crc, x, b as bv32, x >> 8, n);
    StepIsFold(table, crc, b);
  }

  /** An instruction over some bytes is that many table steps. */
  lemma {:induction false} FeedIsSteps(table: byte -> bv32, x: bv64, bytes: seq<byte>, crc: bv32, bits: nat)
    requires IsCrcTable(table) && Holds(x, bytes) && bits == 8 * |bytes|
    ensures Feed(crc, x, bits) == CrcWith(table, bytes, crc)
    decreases bytes
  {
    if bytes != [] {
      FeedOneStep(table, crc, x, bytes[0], bits - 8);
      FeedIsSteps(table, x >> 8, bytes[1..], StepWith(table, crc, bytes[0]), bits - 8);
    }
  }

  lemma {:induction false} CrcSplits(table: byte -> bv32, front: seq<byte>, back: seq<byte>, crc: bv32)
    ensures CrcWith(table, front + back, crc) == CrcWith(table, back, CrcWith(table, front, crc))
  {
    if front == [] {
      assert front + back == back;
    } else {
      assert (front + back)[1..] == front[1..] + back;
      CrcSplits(table, front[1..], back, StepWith(table, crc, front[0]));
    }
  }

  lemma AbsorbWith(table: byte -> bv32, front: seq<byte>, bytes: seq<byte>, bits: nat, seed: bv32)
    requires IsCrcTable(table) && |bytes| <= 8 && bits == 8 * |bytes|
    ensures Feed(CrcWith(table, front, seed), Load(bytes), bits) == CrcWith(table, front + bytes, seed)
  {
    LoadHolds(bytes);
    FeedIsSteps(table, Load(bytes), bytes, CrcWith(table, front, seed), bits);
    CrcSplits(table, front, bytes, seed);
  }

  /** One instruction moves the checksum of a prefix on by its operand. */
  lemma Absorb(front: seq<byte>, bytes: seq<byte>, bits: nat, seed: bv32)
    requires |bytes| <= 8 && bits == 8 * |bytes|
    ensures Feed(Crc(front, seed), Load(bytes), bits) == Crc(front + bytes, seed)
  {
    TableIsCrcTable();
    AbsorbWith(Table, front, bytes, bits, seed);
  }

  /** All bits of a buffer, in the order they are shifted in. */
  function BufferBits(buf: seq<byte>): seq<bool> {
    if buf == [] then [] else ByteBits(buf[0] as bv32) + BufferBits(buf[1..])
  }

  lemma {:induction false} CrcWithIsFold(table: byte -> bv32, buf: seq<byte>, seed: bv32)
    requires IsCrcTable(table)
    ensures CrcWith(table, buf, seed) == Fold(Shift, FlipLow, seed, BufferBits(buf))
  {
    hide StepWith, ByteBits;
    if buf != [] {
      StepIsFold(table, seed, buf[0]);
      FoldAppend(Shift, FlipLow, seed, ByteBits(buf[0] as bv32), BufferBits(buf[1..]));
      CrcWithIsFold(table, buf[1..], StepWith(table, seed, buf[0]));
    }
  }

  /** The checksum of any buffer is its bits, shifted into the register one by one. */
  lemma CrcIsFold(buf: seq<byte>, seed: bv32)
    ensures Crc(buf, seed) == Fold(Shift, FlipLow, seed, BufferBits(buf))
  {
    TableIsCrcTable();
    CrcWithIsFold(Table, buf, seed);
  }

  // ---- the three forms ----

  /** One instruction over the next `n` bytes. */
  method FeedBytes(buf: seq<byte>, p: nat, n: nat, crc: bv32, ghost seed: bv32) returns (next: bv32)
    requires n <= 8 && p + n <= |buf|
    requires crc == Crc(buf[..p], seed)
    ensures next == Crc(buf[..p + n], seed)
  {
    next := Feed(crc, Load(buf[p..p + n]), 8 * n);
    Absorb(buf[..p], buf[p..p + n], 8 * n, seed);
    assert buf[..p] + buf[p..p + n] == buf[..p + n];
  }

  /** The fast form: eight bytes per instruction, then what is left. */
  method Crc32(buf: seq<byte>, seed: bv32) returns (crc: bv32)
    ensures crc == Crc(buf, seed)
  {
    crc := seed;
    var p, len := 0, |buf|;
    while len >= 8
      invariant p <= |buf| && p + len == |buf|
      invariant crc == Crc(buf[..p], seed)
    {
      crc := FeedBytes(buf, p, 8, crc, seed);
      p, len := p + 8, len - 8;
    }
    crc := FeedRemaining(buf, p, crc, seed);
  }

  /** The switch over what is left: an odd byte first, then falling through to whole operands. */
  method FeedRemaining(buf: seq<byte>, p: nat, running: bv32, ghost seed: bv32) returns (crc: bv32)
    requires p <= |buf| < p + 8
    requires running == Crc(buf[..p], seed)
    ensures crc == Crc(buf, seed)
  {
    hide Crc;
    if (|buf| - p) % 2 == 1 {
      var next := FeedBytes(buf, p, 1, running, seed);
      crc := FeedEven(buf, p + 1, next, seed);
    } else {
      crc := FeedEven(buf, p, running, seed);
    }
  }

  /** Six, four, two or no bytes: an operand of four and one of two. */
  method FeedEven(buf: seq<byte>, p: nat, running: bv32, ghost seed: bv32) returns (crc: bv32)
    requires p <= |buf| < p + 8 && (|buf| - p) % 2 == 0
    requires running == Crc(buf[..p], seed)
    ensures crc == Crc(buf, seed)
  {
    hide Crc;
    if |buf| - p >= 4 {
      var next := FeedBytes(buf, p, 4, running, seed);
      crc := FeedPair(buf, p + 4, next, seed);
    } else {
      crc := FeedPair(buf, p, running, seed);
    }
  }

  method FeedPair(buf: seq<byte>, p: nat, running: bv32, ghost seed: bv32) returns (crc: bv32)
    requires p == |buf| || p + 2 == |buf|
    requires running == Crc(buf[..p], seed)
    ensures crc == Crc(buf, seed)
  {
    hide Crc;
    assert buf[..|buf|] == buf;
    if |buf| - p == 2 {
      crc := FeedBytes(buf, p, 2, running, seed);
    } else {
      crc := running;
    }
  }

  /** The byte-at-a-time loop over the table. */
  method Crc32Reference(buf: seq<byte>, seed: bv32) returns (crc: bv32)
    ensures crc == Crc(buf, seed)
  {
    crc := seed;
    var p, len := 0, |buf|;
    while len > 0
      invariant p <= |buf| && p + len == |buf|
      invariant CrcWith(Table, buf[p..], crc) == Crc(buf, seed)
    {
      crc := StepWith(Table, crc, buf[p]);
      p, len := p + 1, len - 1;
    }
  }

  // ---- the compile-time form reads plain, signed chars ----

  /** A char promoted to int: bit 7 is copied upwards. */
  function SignExtended(b: byte): bv32 {
    if b & 0x80 == 0 then b as bv32 else 0xFFFF_FF00 | b as bv32
  }

  function Crc32Constexpr(str: seq<byte>, crc: bv32, pos: nat): bv32
    requires pos <= |str|
    decreases |str| - pos
  {
    if pos == |str| then crc
    else Crc32Constexpr(str, Xor(crc >> 8, Table(LowByte(Xor(crc, SignExtended(str[pos]))))), pos + 1)
  }

  /** The copied sign bits are masked off again. */
  lemma SignIsMasked(crc: bv32, b: byte)
    ensures LowByte(Xor(crc, SignExtended(b))) == LowByte(Xor(crc, b as bv32))
  {
  }

  lemma ConstexprStep(crc: bv32, b: byte)
    ensures Xor(crc >> 8, Table(LowByte(Xor(crc, SignExtended(b))))) == StepWith(Table, crc, b)
  {
    hide Table, Xor, LowByte, SignExtended;
    SignIsMasked(crc, b);
  }

  lemma {:induction false} ConstexprIsCrc(str: seq<byte>, crc: bv32, pos: nat)
    requires pos <= |str|
    ensures Crc32Constexpr(str, crc, pos) == Crc(str[pos..], crc)
    decreases |str| - pos
  {
    hide StepWith, Table, Xor, LowByte, SignExtended;
    if pos < |str| {
      ConstexprStep(crc, str[pos]);
      ConstexprIsCrc(str, StepWith(Table, crc, str[pos]), pos + 1);
    }
  }
}
