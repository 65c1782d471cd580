/** The CRC-16 of the device (crc16.h) and of the host tool (crc16_ccit_maker.py): both table loops compute
    the same function, that function is a polynomial remainder, and the algebra and error detection follow. */
module Crc16 {
  import opened Wrappers
  import opened Crc16Table
  import opened CrcRegister

  const BYTE_MASKS: seq<bv8> := [0x80, 0x40, 0x20, 0x10, 0x08, 0x04, 0x02, 0x01]

  predicate ByteMeets(b: bv8, mask: bv8) {
    b & mask != 0
  }

  predicate ByteBit(b: bv8, i: nat)
    requires i < 8
  {
    ByteMeets(b, BYTE_MASKS[i])
  }

  /** The bits of a byte, most significant first. */
  function BitsOf(b: bv8): (bits: Bits)
    ensures |bits| == 8
  {
    seq(8, i requires 0 <= i < 8 => ByteBit(b, i))
  }

  /** The bits of a message, in transmission order. */
  function MessageBits(m: Bytes): (bits: Bits)
    ensures |bits| == 8 * |m|
  {
    if m == [] then [] else MessageBits(m[..|m| - 1]) + BitsOf(m[|m| - 1])
  }

  /** The register after the bytes of m, started at r. */
  function CrcFrom(r: Register, m: Bytes): Register {
    Feed(r, MessageBits(m))
  }

  function Crc(m: Bytes): Register {
    CrcFrom(Zeros(16), m)
  }

  /** The bits of a 16-bit word, most significant first. */
  const MASKS: seq<bv16> :=
    [0x8000, 0x4000, 0x2000, 0x1000, 0x0800, 0x0400, 0x0200, 0x0100,
     0x0080, 0x0040, 0x0020, 0x0010, 0x0008, 0x0004, 0x0002, 0x0001]

  predicate Meets(x: bv16, mask: bv16) {
    x & mask != 0
  }

  predicate HasBit(x: bv16, i: nat)
    requires i < 16
  {
    Meets(x, MASKS[i])
  }

  /** The register that a 16-bit machine word stands for. */
  function Word(x: bv16): Register {
    seq(16, i requires 0 <= i < 16 => HasBit(x, i))
  }

  /** mask has exactly one bit set. */
  predicate OneBit(mask: bv16) {
    mask != 0 && mask & (mask - 1) == 0
  }

  lemma MaskIsOneBit(i: nat)
    requires i < 16
    ensures OneBit(MASKS[i])
    ensures MASKS[i] >> 1 == if i < 15 then MASKS[i + 1] else 0
    ensures MASKS[i] == 0x1000 <==> i == 3
    ensures MASKS[i] == 0x0020 <==> i == 10
    ensures MASKS[i] == 0x0001 <==> i == 15
  {}

  lemma XorBit(x: bv16, y: bv16, mask: bv16)
    requires OneBit(mask)
    ensures Meets(x ^ y, mask) <==> Meets(x, mask) != Meets(y, mask)
  {}

  /** The bit of y selected by mask is what one step makes of x. */
  predicate StepsToMask(x: bv16, y: bv16, mask: bv16) {
    Meets(y, mask) ==
    (Meets(x, mask >> 1) != (Meets(x, 0x8000) && (mask == 0x1000 || mask == 0x0020 || mask == 0x0001)))
  }

  lemma StepBit(x: bv16, mask: bv16)
    requires OneBit(mask)
    ensures StepsToMask(x, BitStep(x), mask)
  {}

  lemma XorBitAt(x: bv16, y: bv16, i: nat)
    requires i < 16
    ensures HasBit(x ^ y, i) == (HasBit(x, i) != HasBit(y, i))
  {
    hide Meets;
    MaskIsOneBit(i);
    XorBit(x, y, MASKS[i]);
  }

  lemma WordXor(x: bv16, y: bv16)
    ensures Word(x ^ y) == Xor(Word(x), Word(y))
  {
    hide HasBit;
    forall i | 0 <= i < 16
      ensures Word(x ^ y)[i] == Xor(Word(x), Word(y))[i]
    {
      XorBitAt(x, y, i);
    }
  }

  /** Bit i of y is what one step makes of x. */
  predicate StepsTo(x: bv16, y: bv16, i: nat)
    requires i < 16
  {
    HasBit(y, i) == ((i < 15 && HasBit(x, i + 1)) != (HasBit(x, 0) && (i == 3 || i == 10 || i == 15)))
  }

  lemma MaskToIndex(x: bv16, y: bv16, i: nat)
    requires i < 16 && StepsToMask(x, y, MASKS[i])
    ensures StepsTo(x, y, i)
  {
    hide Meets;
    MaskIsOneBit(i);
    MeetsNothing(x);
  }

  lemma MeetsNothing(x: bv16)
    ensures !Meets(x, 0)
  {}

  lemma StepBitAt(x: bv16, i: nat)
    requires i < 16
    ensures StepsTo(x, BitStep(x), i)
  {
    hide StepsTo, StepsToMask, BitStep;
    MaskIsOneBit(i);
    StepBit(x, MASKS[i]);
    MaskToIndex(x, BitStep(x), i);
  }

  lemma WordBits(x: bv16, i: nat)
    requires i < 16
    ensures Word(x)[i] == HasBit(x, i)
  {}

  lemma WordStepAt(x: bv16, y: bv16, i: nat)
    requires i < 16 && StepsTo(x, y, i)
    ensures Word(y)[i] == ((i < 15 && Word(x)[i + 1]) != (Word(x)[0] && (i == 3 || i == 10 || i == 15)))
  {
    WordBits(y, i);
    WordBits(x, 0);
    if i < 15 {
      WordBits(x, i + 1);
    }
  }

  lemma WordStep(x: bv16)
    ensures Word(BitStep(x)) == FeedBit(Word(x), false)
  {
    var r, s := Word(x), Word(BitStep(x));
    forall i | 0 <= i < 16
      ensures s[i] == FeedBit(r, false)[i]
    {
      StepBitAt(x, i);
      WordStepAt(x, BitStep(x), i);
      FeedBitAt(r, false, i);
    }
  }

  lemma WordEight(x: bv16)
    ensures Word(EightBitSteps(x)) == Feed(Word(x), Zeros(8))
  {
    var r := Word(x);
    WordStep(x);
    var x1 := BitStep(x); WordStep(x1);
    var x2 := BitStep(x1); WordStep(x2);
    var x3 := BitStep(x2); WordStep(x3);
    var x4 := BitStep(x3); WordStep(x4);
    var x5 := BitStep(x4); WordStep(x5);
    var x6 := BitStep(x5); WordStep(x6);
    var x7 := BitStep(x6); WordStep(x7);
    FeedEightZeros(r);
  }

  lemma FeedEightZeros(r: Register)
    ensures Feed(r, Zeros(8)) ==
            FeedBit(FeedBit(FeedBit(FeedBit(FeedBit(FeedBit(FeedBit(FeedBit(r, false), false), false), false),
                                            false), false), false), false)
  {
    assert Zeros(8)[1..] == Zeros(7);
    assert Zeros(7)[1..] == Zeros(6);
    assert Zeros(6)[1..] == Zeros(5);
    assert Zeros(5)[1..] == Zeros(4);
    assert Zeros(4)[1..] == Zeros(3);
    assert Zeros(3)[1..] == Zeros(2);
    assert Zeros(2)[1..] == Zeros(1);
    assert Zeros(1)[1..] == Zeros(0);
  }

  lemma WordZero()
    ensures Word(0) == Zeros(16)
  {}

  lemma AllBitsClear(z: bv16)
    requires forall i | 0 <= i < 16 :: z & MASKS[i] == 0
    ensures z == 0
  {
    assert z & MASKS[0] == 0 && z & MASKS[1] == 0 && z & MASKS[2] == 0 && z & MASKS[3] == 0;
    assert z & MASKS[4] == 0 && z & MASKS[5] == 0 && z & MASKS[6] == 0 && z & MASKS[7] == 0;
    assert z & MASKS[8] == 0 && z & MASKS[9] == 0 && z & MASKS[10] == 0 && z & MASKS[11] == 0;
    assert z & MASKS[12] == 0 && z & MASKS[13] == 0 && z & MASKS[14] == 0 && z & MASKS[15] == 0;
  }

  lemma XorSelf(x: bv16, y: bv16)
    requires x ^ y == 0
    ensures x == y
  {}

  lemma WordInjective(x: bv16, y: bv16)
    requires Word(x) == Word(y)
    ensures x == y
  {
    WordXor(x, y);
    forall i | 0 <= i < 16
      ensures (x ^ y) & MASKS[i] == 0
    {
      assert !Xor(Word(x), Word(y))[i];
      assert !Word(x ^ y)[i];
    }
    AllBitsClear(x ^ y);
    XorSelf(x, y);
  }

  // ---- The table loops -----------------------------------------------------------------------------

  /** The part of the register that is shifted out through the table, and the part that is kept. */
  lemma SplitRegister(x: bv16, b: bv8)
    ensures x ^ ((b as bv16) << 8) == (x & 0x00FF) ^ (((((x >> 8) as bv8) ^ b) as bv16) << 8)
    ensures EightBitSteps(x & 0x00FF) == x << 8
  {
    LowByteMoves(x & 0x00FF);
    assert (x & 0x00FF) << 8 == x << 8;
  }

  lemma LowByteMoves(x: bv16)
    requires x & 0xFF00 == 0
    ensures EightBitSteps(x) == x << 8
  {}

  lemma ByteMaskInWord(i: nat)
    requires i < 16
    ensures if i < 8 then MASKS[i] == (BYTE_MASKS[i] as bv16) << 8 else MASKS[i] <= 0x80
  {}

  lemma ByteShiftedIn(b: bv8, mask: bv8)
    ensures Meets((b as bv16) << 8, (mask as bv16) << 8) <==> ByteMeets(b, mask)
  {}

  lemma ByteAbove(b: bv8, mask: bv16)
    requires mask <= 0x80
    ensures !Meets((b as bv16) << 8, mask)
  {}

  lemma ByteInWord(b: bv8, i: nat)
    requires i < 16
    ensures HasBit((b as bv16) << 8, i) == (i < 8 && ByteBit(b, i))
  {
    hide Meets, ByteMeets;
    ByteMaskInWord(i);
    if i < 8 {
      ByteShiftedIn(b, BYTE_MASKS[i]);
    } else {
      ByteAbove(b, MASKS[i]);
    }
  }

  lemma AddByteAt(x: bv16, b: bv8, moved: bv16, i: nat)
    requires i < 16 && moved == (b as bv16) << 8
    ensures HasBit(x ^ moved, i) == (HasBit(x, i) != (i < 8 && ByteBit(b, i)))
  {
    hide HasBit, ByteBit;
    XorBitAt(x, moved, i);
    ByteInWord(b, i);
  }

  lemma AddByte(x: bv16, b: bv8, moved: bv16, sum: bv16)
    requires moved == (b as bv16) << 8 && sum == x ^ moved
    ensures AddBits(Word(x), BitsOf(b)) == Word(sum)
  {
    hide HasBit, ByteBit;
    var r, s := Word(x), Word(sum);
    forall i | 0 <= i < 16
      ensures AddBits(r, BitsOf(b))[i] == s[i]
    {
      AddByteAt(x, b, moved, i);
    }
  }

  lemma FeedByteInTwoParts(r: Register, low: Register, high: Register, bits: Bits)
    requires |bits| == 8 && AddBits(r, bits) == Xor(low, high)
    ensures Xor(Feed(low, Zeros(8)), Feed(high, Zeros(8))) == Feed(r, bits)
  {
    FeedLinear(low, high, Zeros(8), Zeros(8));
    assert Xor(Zeros(8), Zeros(8)) == Zeros(8);
    FeedAtOnce(r, bits);
  }

  lemma StepInTwoParts(x: bv16, b: bv8, low: bv16, high: bv16, kept: bv16, entry: bv16)
    requires x ^ ((b as bv16) << 8) == low ^ high
    requires Word(kept) == Feed(Word(low), Zeros(8)) && Word(entry) == Feed(Word(high), Zeros(8))
    ensures Word(kept ^ entry) == Feed(Word(x), BitsOf(b))
  {
    AddByte(x, b, (b as bv16) << 8, low ^ high);
    WordXor(low, high);
    WordXor(kept, entry);
    FeedByteInTwoParts(Word(x), Word(low), Word(high), BitsOf(b));
  }

  lemma ExpectedWord(i: bv8)
    ensures Word(Expected(i)) == Feed(Word((i as bv16) << 8), Zeros(8))
  {
    WordEight((i as bv16) << 8);
  }

  lemma KeptWord(x: bv16)
    ensures Word(x << 8) == Feed(Word(x & 0x00FF), Zeros(8))
  {
    SplitRegister(x, 0);
    WordEight(x & 0x00FF);
  }

  /** The index of the table entry for the byte b when the register is x, and the entry's place in the register. */
  function TableIndex(x: bv16, b: bv8): bv8 {
    ((x >> 8) as bv8) ^ b
  }

  function HighPart(index: bv8): bv16 {
    (index as bv16) << 8
  }

  function LowPart(x: bv16): bv16 {
    x & 0x00FF
  }

  function KeptPart(x: bv16): bv16 {
    x << 8
  }

  lemma SplitParts(x: bv16, b: bv8)
    ensures x ^ ((b as bv16) << 8) == LowPart(x) ^ HighPart(TableIndex(x, b))
    ensures Word(KeptPart(x)) == Feed(Word(LowPart(x)), Zeros(8))
  {
    SplitRegister(x, b);
    KeptWord(x);
  }

  /** Shifting a byte out through the table is the same as shifting eight bits out one at a time. */
  lemma TableStep(x: bv16, b: bv8, entry: bv16)
    requires Word(entry) == Feed(Word(HighPart(TableIndex(x, b))), Zeros(8))
    ensures Word(KeptPart(x) ^ entry) == Feed(Word(x), BitsOf(b))
  {
    hide Word, Feed, BitsOf, LowPart, HighPart, KeptPart, TableIndex;
    SplitParts(x, b);
    StepInTwoParts(x, b, LowPart(x), HighPart(TableIndex(x, b)), KeptPart(x), entry);
  }

  /** The table read of both programs: the index is a byte held in a wider integer. */
  method TableEntry(index: bv32, ghost i: bv8) returns (entry: bv16)
    requires index == i as bv32
    ensures Word(entry) == Feed(Word(HighPart(i)), Zeros(8))
  {
    entry := ReadTable(index, i);
    ExpectedWord(i);
  }

  /** C and Python compute in integers wider than 16 bits and cut the result back. */
  lemma Widen(crc: bv32, x: bv16, b: bv8, index: bv32, i: bv8)
    requires crc == x as bv32 && index == ((crc >> 8) ^ (b as bv32)) & 0x00FF && i == TableIndex(x, b)
    ensures index == i as bv32
  {}

  lemma Narrow(crc: bv32, x: bv16, entry: bv16, sum: bv32, y: bv16)
    requires crc == x as bv32 && sum == (crc << 8) ^ (entry as bv32) && y == KeptPart(x) ^ entry
    ensures sum & 0xFFFF == y as bv32
  {}

  lemma Truncate(wide: bv32, x: bv16)
    requires wide == x as bv32
    ensures wide <= 0xFFFF && wide as bv16 == x
  {}

  lemma NoBytes(r: Register)
    ensures CrcFrom(r, []) == r
  {}

  lemma CrcAppendByte(r: Register, m: Bytes, b: bv8)
    ensures CrcFrom(r, m + [b]) == Feed(CrcFrom(r, m), BitsOf(b))
  {
    assert (m + [b])[..|m|] == m;
    FeedAppend(r, MessageBits(m), BitsOf(b));
  }

  /** `(crc << 8) ^ table[((crc >> 8) ^ byte) & 0x00FF]`, the expression both loops evaluate in integers
      wider than 16 bits. Every value is below 2^24, so 32 bits hold Python's integers exactly. */
  method WideStep(crc: bv32, b: bv8, ghost x: bv16) returns (sum: bv32, ghost y: bv16)
    requires crc == x as bv32
    ensures sum & 0xFFFF == y as bv32 && Word(y) == Feed(Word(x), BitsOf(b))
  {
    hide Word, Feed, BitsOf, HighPart, KeptPart, TableIndex;
    var index := ((crc >> 8) ^ (b as bv32)) & 0x00FF;
    ghost var i := TableIndex(x, b);
    Widen(crc, x, b, index, i);
    var entry := TableEntry(index, i);
    sum := (crc << 8) ^ (entry as bv32);
    y := KeptPart(x) ^ entry;
    TableStep(x, b, entry);
    Narrow(crc, x, entry, sum, y);
  }

  /** crc16_ccitt of crc16.h over len bytes of memory from address buf: `crc` is an `unsigned short`, so it is
      promoted before the expression and the result is truncated to 16 bits by the assignment. */
  method DeviceCrc(memory: array<bv8>, buf: nat, len: nat) returns (crc: bv16)
    requires buf + len <= memory.Length
    ensures Word(crc) == Crc(memory[buf..buf + len])
  {
    hide Word, CrcFrom, Feed, BitsOf;
    crc := 0;
    WordZero();
    NoBytes(Zeros(16));
    assert memory[buf..buf + 0] == [];
    for counter := 0 to len
      invariant Word(crc) == Crc(memory[buf..buf + counter])
    {
      CrcAppendByte(Zeros(16), memory[buf..buf + counter], memory[buf + counter]);
      assert memory[buf..buf + counter] + [memory[buf + counter]] == memory[buf..buf + counter + 1];
      ghost var y;
      var sum: bv32;
      sum, y := WideStep(crc as bv32, memory[buf + counter], crc);
      Truncate(sum & 0xFFFF, y);
      crc := (sum & 0xFFFF) as bv16;
    }
  }

  /** crc16_ccitt of crc16_ccit_maker.py: `crc` is a Python integer, cut back with `& 0xFFFF` each round. */
  method HostCrc(initial: bv16, buf: Bytes) returns (crc: bv32)
    ensures crc <= 0xFFFF && Word(crc as bv16) == CrcFrom(Word(initial), buf)
  {
    crc := initial as bv32;
    ghost var x := initial;
    for i := 0 to |buf|
      invariant crc == x as bv32 && Word(x) == CrcFrom(Word(initial), buf[..i])
    {
      CrcAppendByte(Word(initial), buf[..i], buf[i]);
      assert buf[..i] + [buf[i]] == buf[..i + 1];
      crc, x := WideStep(crc, buf[i], x);
      crc := crc & 0xFFFF;
    }
    assert buf[..|buf|] == buf;
    Truncate(crc, x);
  }

  /** Started at 0, the two programs agree on every message. */
  method DeviceAndHostAgree(buf: array<bv8>) returns (device: bv16, host: bv32)
    ensures device as bv32 == host
  {
    device := DeviceCrc(buf, 0, buf.Length);
    host := HostCrc(0, buf[..]);
    assert buf[0..0 + buf.Length] == buf[..];
    WordZero();
    WordInjective(device, host as bv16);
  }

  // ---- What the CRC is and what it detects ---------------------------------------------------------

  /** The CRC is the remainder of message * x^16 divided by x^16 + x^12 + x^5 + 1. */
  lemma CrcIsRemainder(m: Bytes)
    ensures Crc(m) == Remainder(MessageBits(m) + Zeros(16))
  {
    FeedDivides(Zeros(16), MessageBits(m));
    assert Xor(MessageBits(m) + Zeros(16), Zeros(16) + Zeros(8 * |m|)) == MessageBits(m) + Zeros(16);
  }

  lemma CrcOfZero()
    ensures Crc([0]) == Word(0)
  {
    assert forall i | 0 <= i < 8 :: !BitsOf(0)[i];
    assert BitsOf(0) == Zeros(8);
    assert MessageBits([0]) == Zeros(8);
    IdleZeros(8);
    WordZero();
  }

  lemma {:induction false} MessageBitsAppend(a: Bytes, b: Bytes)
    ensures MessageBits(a + b) == MessageBits(a) + MessageBits(b)
    decreases |b|
  {
    if b == [] {
      assert a + b == a;
    } else {
      var k := |b| - 1;
      assert (a + b)[..|a + b| - 1] == a + b[..k];
      MessageBitsAppend(a, b[..k]);
    }
  }

  /** A checksum may be continued: start from the CRC of the first part. */
  lemma CrcContinues(r: Register, a: Bytes, b: Bytes)
    ensures CrcFrom(CrcFrom(r, a), b) == CrcFrom(r, a + b)
  {
    MessageBitsAppend(a, b);
    FeedAppend(r, MessageBits(a), MessageBits(b));
  }

  function XorBytes(a: Bytes, b: Bytes): (c: Bytes)
    requires |a| == |b|
    ensures |c| == |a|
  {
    seq(|a|, i requires 0 <= i < |a| => a[i] ^ b[i])
  }

  lemma ByteBitXor(a: bv8, b: bv8, mask: bv8)
    requires mask & (mask - 1) == 0
    ensures (a ^ b) & mask != 0 <==> ((a & mask != 0) != (b & mask != 0))
  {}

  lemma ByteMaskIsOneBit(i: nat)
    requires i < 8
    ensures BYTE_MASKS[i] & (BYTE_MASKS[i] - 1) == 0
  {}

  lemma BitsOfXor(a: bv8, b: bv8)
    ensures BitsOf(a ^ b) == Xor(BitsOf(a), BitsOf(b))
  {
    forall i | 0 <= i < 8
      ensures BitsOf(a ^ b)[i] == Xor(BitsOf(a), BitsOf(b))[i]
    {
      ByteMaskIsOneBit(i);
      ByteBitXor(a, b, BYTE_MASKS[i]);
    }
  }

  lemma XorAppend(a: Bits, b: Bits, c: Bits, d: Bits)
    requires |a| == |c| && |b| == |d|
    ensures Xor(a + b, c + d) == Xor(a, c) + Xor(b, d)
  {}

  lemma {:induction false} MessageBitsXor(a: Bytes, b: Bytes, c: Bytes)
    requires |a| == |b| && c == XorBytes(a, b)
    ensures MessageBits(c) == Xor(MessageBits(a), MessageBits(b))
    decreases |a|
  {
    if a != [] {
      var k := |a| - 1;
      MessageBitsXor(a[..k], b[..k], c[..k]);
      BitsOfXor(a[k], b[k]);
      XorAppend(MessageBits(a[..k]), BitsOf(a[k]), MessageBits(b[..k]), BitsOf(b[k]));
    }
  }

  lemma CrcLinear(a: Bytes, b: Bytes)
    requires |a| == |b|
    ensures Crc(XorBytes(a, b)) == Xor(Crc(a), Crc(b))
  {
    MessageBitsXor(a, b, XorBytes(a, b));
    assert Xor(Zeros(16), Zeros(16)) == Zeros(16);
    FeedLinear(Zeros(16), Zeros(16), MessageBits(a), MessageBits(b));
  }

  function HighByte(x: bv16): bv8 {
    (x >> 8) as bv8
  }

  function LowByte(x: bv16): bv8 {
    (x & 0x00FF) as bv8
  }

  lemma WordByteBit(x: bv16, high: bv8, low: bv8, mask: bv8, highMask: bv16, lowMask: bv16)
    requires high == HighByte(x) && low == LowByte(x)
    requires highMask == (mask as bv16) << 8 && lowMask == mask as bv16
    ensures ByteMeets(high, mask) <==> Meets(x, highMask)
    ensures ByteMeets(low, mask) <==> Meets(x, lowMask)
  {}

  lemma LowByteMask(i: nat)
    requires i < 8
    ensures MASKS[i] == (BYTE_MASKS[i] as bv16) << 8 && MASKS[i + 8] == BYTE_MASKS[i] as bv16
  {}

  lemma WordBytesAt(x: bv16, high: bv8, low: bv8, i: nat)
    requires i < 8 && high == HighByte(x) && low == LowByte(x)
    ensures ByteBit(high, i) == HasBit(x, i) && ByteBit(low, i) == HasBit(x, i + 8)
  {
    hide Meets, ByteMeets, HighByte, LowByte;
    LowByteMask(i);
    WordByteBit(x, high, low, BYTE_MASKS[i], MASKS[i], MASKS[i + 8]);
  }

  /** A word is its two bytes, high byte first. */
  lemma WordBytes(x: bv16, high: bv8, low: bv8)
    requires high == HighByte(x) && low == LowByte(x)
    ensures BitsOf(high) + BitsOf(low) == Word(x)
  {
    forall i | 0 <= i < 8
      ensures BitsOf(high)[i] == Word(x)[i] && BitsOf(low)[i] == Word(x)[i + 8]
    {
      WordBytesAt(x, high, low, i);
    }
  }

  lemma MessageBitsTwo(high: bv8, low: bv8)
    ensures MessageBits([high, low]) == BitsOf(high) + BitsOf(low)
  {
    assert [high, low][..1] == [high];
    assert [high][..0] == [];
  }

  lemma FeedItself(r: Register)
    ensures Feed(r, r) == Zeros(16)
  {
    FeedAtOnce(r, r);
    assert AddBits(r, r) == Zeros(16);
    IdleZeros(16);
  }

  /** A message followed by its own CRC, high byte first, has CRC zero. */
  lemma CrcOfMessageWithCrc(m: Bytes, x: bv16, high: bv8, low: bv8)
    requires Word(x) == Crc(m) && high == HighByte(x) && low == LowByte(x)
    ensures Crc(m + [high, low]) == Zeros(16)
  {
    CrcContinues(Zeros(16), m, [high, low]);
    MessageBitsTwo(high, low);
    WordBytes(x, high, low);
    FeedItself(Crc(m));
  }

  // ---- The check value -----------------------------------------------------------------------------

  /** The register, as a word, after one byte more. */
  function ByteRound(x: bv16, b: bv8): bv16 {
    EightBitSteps(x ^ ((b as bv16) << 8))
  }

  lemma RoundFeeds(m: Bytes, x: bv16, b: bv8)
    requires Crc(m) == Word(x)
    ensures Crc(m + [b]) == Word(ByteRound(x, b))
  {
    hide Word, Feed, BitsOf, CrcFrom, EightBitSteps;
    CrcAppendByte(Zeros(16), m, b);
    AddByte(x, b, (b as bv16) << 8, x ^ ((b as bv16) << 8));
    WordEight(x ^ ((b as bv16) << 8));
    FeedAtOnce(Word(x), BitsOf(b));
  }

  lemma PrefixFeeds(m: Bytes, k: nat, x: bv16, b: bv8)
    requires k < |m| && b == m[k] && Crc(m[..k]) == Word(x)
    ensures Crc(m[..k + 1]) == Word(ByteRound(x, b))
  {
    hide Word, Crc, ByteRound;
    RoundFeeds(m[..k], x, b);
    assert m[..k] + [b] == m[..k + 1];
  }

  lemma CheckRounds()
    ensures ByteRound(0x0000, 0x31) == 0x2672
    ensures ByteRound(0x2672, 0x32) == 0x20B5
    ensures ByteRound(0x20B5, 0x33) == 0x9752
    ensures ByteRound(0x9752, 0x34) == 0xD789
    ensures ByteRound(0xD789, 0x35) == 0x546C
    ensures ByteRound(0x546C, 0x36) == 0x20E4
    ensures ByteRound(0x20E4, 0x37) == 0x86D6
    ensures ByteRound(0x86D6, 0x38) == 0x9015
    ensures ByteRound(0x9015, 0x39) == 0x31C3
  {}

  /** The CRC of the characters 1 to 9, by which CRC algorithms are told apart, is 0x31C3. */
  lemma CheckValue()
    ensures Crc([0x31, 0x32, 0x33, 0x34, 0x35, 0x36, 0x37, 0x38, 0x39]) == Word(0x31C3)
  {
    hide Crc, Word, ByteRound;
    CheckRounds();
    NothingRead();
    var m: Bytes := [0x31, 0x32, 0x33, 0x34, 0x35, 0x36, 0x37, 0x38, 0x39];
    assert m[..0] == [];
    PrefixFeeds(m, 0, 0x0000, 0x31);
    PrefixFeeds(m, 1, 0x2672, 0x32);
    PrefixFeeds(m, 2, 0x20B5, 0x33);
    PrefixFeeds(m, 3, 0x9752, 0x34);
    PrefixFeeds(m, 4, 0xD789, 0x35);
    PrefixFeeds(m, 5, 0x546C, 0x36);
    PrefixFeeds(m, 6, 0x20E4, 0x37);
    PrefixFeeds(m, 7, 0x86D6, 0x38);
    PrefixFeeds(m, 8, 0x9015, 0x39);
    assert m[..9] == m;
  }

  lemma NothingRead()
    ensures Crc([]) == Word(0)
  {
    NoBytes(Zeros(16));
    WordZero();
  }

  /** The error pattern d has all its ones within sixteen consecutive bits starting at p. */
  ghost predicate BurstAt(d: Bits, p: nat) {
    forall i | 0 <= i < |d| :: d[i] ==> p <= i < p + 16
  }

  lemma BurstShape(d: Bits, p: nat) returns (before: nat, burst: Bits, after: nat)
    requires BurstAt(d, p) && exists i :: 0 <= i < |d| && d[i]
    ensures d == Zeros(before) + burst + Zeros(after)
    ensures |burst| <= 16 && exists i :: 0 <= i < |burst| && burst[i]
  {
    var k :| 0 <= k < |d| && d[k];
    var end := if p + 16 <= |d| then p + 16 else |d|;
    before, burst, after := p, d[p..end], |d| - end;
    assert burst[k - p];
  }

  lemma AppendInjective(a: Bits, b: Bits, c: Bits, d: Bits)
    requires |a| == |c| && a + b == c + d
    ensures a == c && b == d
  {
    assert a == (a + b)[..|a|] && b == (a + b)[|a|..];
    assert c == (c + d)[..|c|] && d == (c + d)[|c|..];
  }

  lemma {:induction false} MessageBitsInjective(a: Bytes, b: Bytes)
    requires |a| == |b| && MessageBits(a) == MessageBits(b)
    ensures a == b
    decreases |a|
  {
    if a != [] {
      var k := |a| - 1;
      AppendInjective(MessageBits(a[..k]), BitsOf(a[k]), MessageBits(b[..k]), BitsOf(b[k]));
      MessageBitsInjective(a[..k], b[..k]);
      BitsOfInjective(a[k], b[k]);
      assert a == a[..k] + [a[k]] && b == b[..k] + [b[k]];
    }
  }

  lemma AllByteBitsClear(z: bv8)
    requires forall i | 0 <= i < 8 :: z & BYTE_MASKS[i] == 0
    ensures z == 0
  {
    assert z & BYTE_MASKS[0] == 0 && z & BYTE_MASKS[1] == 0 && z & BYTE_MASKS[2] == 0 && z & BYTE_MASKS[3] == 0;
    assert z & BYTE_MASKS[4] == 0 && z & BYTE_MASKS[5] == 0 && z & BYTE_MASKS[6] == 0 && z & BYTE_MASKS[7] == 0;
  }

  lemma ByteXorSelf(x: bv8, y: bv8)
    requires x ^ y == 0
    ensures x == y
  {}

  lemma BitsOfInjective(x: bv8, y: bv8)
    requires BitsOf(x) == BitsOf(y)
    ensures x == y
  {
    BitsOfXor(x, y);
    forall i | 0 <= i < 8
      ensures (x ^ y) & BYTE_MASKS[i] == 0
    {
      assert !Xor(BitsOf(x), BitsOf(y))[i];
      assert !BitsOf(x ^ y)[i];
    }
    AllByteBitsClear(x ^ y);
    ByteXorSelf(x, y);
  }

  /** Two different images of the same length whose difference lies within sixteen consecutive bits have
      different CRCs: a download check that accepts one rejects the other. */
  lemma BurstDetected(a: Bytes, b: Bytes, p: nat)
    requires |a| == |b| && a != b && BurstAt(Xor(MessageBits(a), MessageBits(b)), p)
    ensures Crc(a) != Crc(b)
  {
    var d := Xor(MessageBits(a), MessageBits(b));
    if forall i | 0 <= i < |d| :: !d[i] {
      assert forall i | 0 <= i < |d| :: MessageBits(a)[i] == MessageBits(b)[i] by {
        assert forall i | 0 <= i < |d| :: d[i] == (MessageBits(a)[i] != MessageBits(b)[i]);
      }
      MessageBitsInjective(a, b);
    } else {
      var before, burst, after := BurstShape(d, p);
      BurstLeavesRemainder(before, burst, after);
      FeedLinear(Zeros(16), Zeros(16), MessageBits(a), MessageBits(b));
      assert Xor(Zeros(16), Zeros(16)) == Zeros(16);
      assert Xor(Crc(a), Crc(a)) == Zeros(16);
    }
  }

  /** Two images of the same length that differ in an odd number of bits have different CRCs. */
  lemma OddErrorDetected(a: Bytes, b: Bytes)
    requires |a| == |b| && Odd(Xor(MessageBits(a), MessageBits(b)))
    ensures Crc(a) != Crc(b)
  {
    OddXor(MessageBits(a), MessageBits(b));
    FeedParity(Zeros(16), MessageBits(a));
    FeedParity(Zeros(16), MessageBits(b));
  }
}
