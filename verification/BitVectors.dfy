/** svf2xsvf.py and xsvfdump.py: bit vectors, from hexadecimal text to bytes and back to hexadecimal text. */
module BitVectors {
  import opened Wrappers

  type Octet = b: int | 0 <= b < 256
  type Octets = seq<Octet>

  // ---- Numbers -------------------------------------------------------------------------------------

  function Pow2(n: nat): (p: nat)
    ensures p > 0
  {
    if n == 0 then 1 else 2 * Pow2(n - 1)
  }

  function Bit(b: bool): nat {
    if b then 1 else 0
  }

  /** The number a bit vector stands for; the most significant bit comes first. */
  function ValueOf(bits: Bits): nat {
    if bits == [] then 0 else 2 * ValueOf(bits[..|bits| - 1]) + Bit(bits[|bits| - 1])
  }

  /** The number some bytes stand for, most significant byte first. */
  function BigEndian(bytes: Octets): nat {
    if bytes == [] then 0 else 256 * BigEndian(bytes[..|bytes| - 1]) + bytes[|bytes| - 1]
  }

  predicate IsHexDigit(c: char) {
    '0' <= c <= '9' || 'a' <= c <= 'f' || 'A' <= c <= 'F'
  }

  /** What s_hex lets through. */
  predicate IsHex(s: string) {
    forall i :: 0 <= i < |s| ==> IsHexDigit(s[i])
  }

  type Hex = s: string | IsHex(s)

  function Digit(c: char): (d: nat)
    requires IsHexDigit(c)
    ensures d < 16
  {
    if c <= '9' then c as int - '0' as int
    else if c <= 'F' then c as int - 'A' as int + 10
    else c as int - 'a' as int + 10
  }

  /** The digits of either case by their values. */
  lemma DigitValues(c: char)
    ensures '0' <= c <= '9' ==> Digit(c) == c as int - 48
    ensures 'A' <= c <= 'F' ==> Digit(c) == c as int - 65 + 10
    ensures 'a' <= c <= 'f' ==> Digit(c) == c as int - 97 + 10
  {}

  /** The number a hexadecimal string stands for. */
  function NumberOf(hex: Hex): nat {
    if hex == [] then 0 else 16 * NumberOf(hex[..|hex| - 1]) + Digit(hex[|hex| - 1])
  }

  lemma ValueBound(bits: Bits)
    ensures ValueOf(bits) < Pow2(|bits|)
  {}

  lemma {:induction false} ValueAppend(a: Bits, b: Bits)
    ensures ValueOf(a + b) == ValueOf(a) * Pow2(|b|) + ValueOf(b)
    decreases |b|
  {
    if b == [] {
      assert a + b == a;
    } else {
      var k := |b| - 1;
      ValueAppend(a, b[..k]);
      assert (a + b)[..|a + b| - 1] == a + b[..k];
      Doubled(ValueOf(a), Pow2(k));
    }
  }

  lemma Doubled(v: nat, p: nat)
    ensures v * (2 * p) == 2 * (v * p)
  {}

  /** The last n bits of a vector are its number modulo 2^n. */
  lemma LastBits(bits: Bits, n: nat)
    requires n <= |bits|
    ensures ValueOf(bits[|bits| - n..]) == ValueOf(bits) % Pow2(n)
  {
    hide Pow2, ValueOf;
    var a, b := bits[..|bits| - n], bits[|bits| - n..];
    assert bits == a + b;
    ValueAppend(a, b);
    ValueBound(b);
    Remainder(ValueOf(a), Pow2(n), ValueOf(b));
  }

  lemma SameQuotient(q: int, r: int, p: int, t: int, m: int)
    requires 0 <= r < m && 0 <= t < m && q * m + r == p * m + t
    ensures r == t
  {
    var d := q - p;
    assert d * m == q * m - p * m == t - r;
    if d > 0 {
      AtLeast(d, m);
    } else if d < 0 {
      AtLeast(-d, m);
    }
  }

  lemma AtLeast(d: int, m: int)
    requires d > 0 && m > 0
    ensures d * m >= m
  {
    assert (d - 1) * m >= 0;
  }

  lemma Remainder(q: nat, m: nat, r: nat)
    requires r < m
    ensures (q * m + r) % m == r
  {
    var x := q * m + r;
    SameQuotient(q, r, x / m, x % m, m);
  }

  lemma NoQuotient(q: nat, m: nat, r: nat)
    requires m > 0 && q * m + r < m
    ensures q == 0 && q * m == 0
  {
    if q > 0 {
      AtLeast(q, m);
    }
  }

  /** A number that fits n bits is in the last n bits. */
  lemma SmallInLastBits(bits: Bits, a: Bits, b: Bits)
    requires bits == a + b && ValueOf(bits) < Pow2(|b|)
    ensures ValueOf(b) == ValueOf(bits)
  {
    hide Pow2, ValueOf;
    ValueAppend(a, b);
    NoQuotient(ValueOf(a), Pow2(|b|), ValueOf(b));
  }

  /** A number has one bit vector of each length. */
  lemma {:induction false} ValueInjective(a: Bits, b: Bits)
    requires |a| == |b| && ValueOf(a) == ValueOf(b)
    ensures a == b
    decreases |a|
  {
    if a != [] {
      var k := |a| - 1;
      ValueInjective(a[..k], b[..k]);
      assert a == a[..k] + [a[k]] && b == b[..k] + [b[k]];
    }
  }

  // ---- From hexadecimal to bits --------------------------------------------------------------------

  /** The four bits of a hexadecimal digit. */
  function Nibble(d: nat): (bits: Bits)
    requires d < 16
    ensures |bits| == 4 && ValueOf(bits) == d
  {
    var bits := [d / 8 == 1, d / 4 % 2 == 1, d / 2 % 2 == 1, d % 2 == 1];
    NibbleValue(bits, d);
    bits
  }

  lemma NibbleValue(bits: Bits, d: nat)
    requires d < 16 && bits == [d / 8 == 1, d / 4 % 2 == 1, d / 2 % 2 == 1, d % 2 == 1]
    ensures ValueOf(bits) == d
  {
    assert bits[..3][..2] == bits[..2] && bits[..2][..1] == bits[..1] && bits[..1][..0] == [];
    assert ValueOf(bits[..1]) == d / 8;
    assert ValueOf(bits[..2]) == d / 4;
    assert ValueOf(bits[..3]) == d / 2;
  }

  /** All bits of a hexadecimal string. */
  function Expand(hex: Hex): (bits: Bits)
    ensures |bits| == 4 * |hex|
  {
    if hex == [] then [] else Expand(hex[..|hex| - 1]) + Nibble(Digit(hex[|hex| - 1]))
  }

  lemma {:induction false} ExpandValue(hex: Hex)
    ensures ValueOf(Expand(hex)) == NumberOf(hex)
    decreases |hex|
  {
    if hex == [] {
      NoBits(1);
    } else {
      hide Pow2, ValueOf, Nibble, Digit;
      var front, last := hex[..|hex| - 1], Nibble(Digit(hex[|hex| - 1]));
      ExpandValue(front);
      ValueAppend(Expand(front), last);
      FourIsPow();
    }
  }

  /** The bitCount least significant bits of a hexadecimal number. */
  function HexBits(hex: Hex, bitCount: nat): (bits: Bits)
    requires bitCount <= 4 * |hex|
    ensures |bits| == bitCount
  {
    Expand(hex)[4 * |hex| - bitCount..]
  }

  lemma HexBitsValue(hex: Hex, bitCount: nat)
    requires bitCount <= 4 * |hex|
    ensures ValueOf(HexBits(hex, bitCount)) == NumberOf(hex) % Pow2(bitCount)
  {
    hide Pow2, ValueOf, NumberOf, Expand;
    ExpandValue(hex);
    LastBits(Expand(hex), bitCount);
  }

  /** (c & mask) != 0 for mask 1, 2, 4, 8: the bits of a digit from the lowest up. */
  predicate Masked(d: nat, k: nat)
    requires d < 16 && k < 4
  {
    d / Pow2(k) % 2 == 1
  }

  lemma MaskedNibble(d: nat, k: nat)
    requires d < 16 && k < 4
    ensures Masked(d, k) == Nibble(d)[3 - k]
  {
    assert Pow2(1) == 2 && Pow2(2) == 4 && Pow2(3) == 8;
  }

  function Reversed(bits: Bits): (r: Bits)
    ensures |r| == |bits| && forall i :: 0 <= i < |r| ==> r[i] == bits[|bits| - 1 - i]
  {
    seq(|bits|, i requires 0 <= i < |bits| => bits[|bits| - 1 - i])
  }

  /** makeBitArray: the digits are scanned from the last, the bits of each from the lowest. The vector stands for
      the number modulo 2^bitCount; too few digits are an error. */
  method MakeBitArray(hexString: Hex, bitCount: nat) returns (r: Option<Bits>)
    ensures r.None? <==> 4 * |hexString| < bitCount
    ensures r.Some? ==> r.value == HexBits(hexString, bitCount)
    ensures r.Some? ==> |r.value| == bitCount && ValueOf(r.value) == NumberOf(hexString) % Pow2(bitCount)
  {
    var a: Bits := [];
    ghost var all := Expand(hexString);
    var length := bitCount;
    var i := |hexString|;
    while i > 0 && length > 0
      invariant 0 <= i <= |hexString| && length == bitCount - |a|
      invariant length == 0 || |a| == 4 * (|hexString| - i)
      invariant |a| <= |all| && forall j :: 0 <= j < |a| ==> a[j] == all[|all| - 1 - j]
    {
      i := i - 1;
      var d := Digit(hexString[i]);
      var k := 0;
      while k < 4 && length > 0
        invariant 0 <= k <= 4 && length == bitCount - |a|
        invariant length > 0 || k > 0
        invariant |a| == 4 * (|hexString| - i - 1) + k
        invariant |a| <= |all| && forall j :: 0 <= j < |a| ==> a[j] == all[|all| - 1 - j]
      {
        MaskedNibble(d, k);
        DigitBits(hexString, i, 3 - k);
        a := a + [Masked(d, k)];
        length := length - 1;
        k := k + 1;
      }
    }
    if length > 0 {
      return None;
    }
    var bits := Reversed(a);
    assert bits == HexBits(hexString, bitCount);
    HexBitsValue(hexString, bitCount);
    return Some(bits);
  }

  lemma {:induction false} DigitBits(hex: Hex, i: nat, k: nat)
    requires i < |hex| && k < 4
    ensures Expand(hex)[4 * i + k] == Nibble(Digit(hex[i]))[k]
    decreases |hex|
  {
    hide Nibble, Digit;
    var front := hex[..|hex| - 1];
    if i < |front| {
      DigitBits(front, i, k);
    }
  }

  // ---- From bits to bytes --------------------------------------------------------------------------

  function ByteCount(n: int): int {
    (n + 7) / 8
  }

  lemma ByteOf(bits: Bits)
    requires |bits| <= 8
    ensures ValueOf(bits) < 256
  {
    ValueBound(bits);
    assert Pow2(4) == 16 && Pow2(8) == 256;
    PowMonotone(|bits|, 8);
  }

  lemma PowMonotone(a: nat, b: nat)
    requires a <= b
    ensures Pow2(a) <= Pow2(b)
  {}

  /** A bit vector in bytes; the first byte takes what does not fill a whole one. */
  function Pack(bits: Bits): (bytes: Octets)
    ensures |bytes| == ByteCount(|bits|)
  {
    if bits == [] then []
    else if |bits| <= 8 then
      ByteOf(bits);
      [ValueOf(bits)]
    else
      var k := |bits| - 8;
      ByteOf(bits[k..]);
      Pack(bits[..k]) + [ValueOf(bits[k..])]
  }

  lemma FourIsPow()
    ensures Pow2(4) == 16
  {}

  lemma EightIsPow()
    ensures Pow2(8) == 256
  {
    FourIsPow();
  }

  lemma {:induction false} PackValue(bits: Bits)
    ensures BigEndian(Pack(bits)) == ValueOf(bits)
    decreases |bits|
  {
    hide Pow2, ValueOf;
    if |bits| > 8 {
      var k := |bits| - 8;
      PackValue(bits[..k]);
      assert bits == bits[..k] + bits[k..];
      ValueAppend(bits[..k], bits[k..]);
      EightIsPow();
    } else if bits != [] {
      ByteOf(bits);
      assert Pack(bits)[..0] == [];
    } else {
      NoBits(1);
    }
  }

  function ByteBits(b: Octet): (bits: Bits)
    ensures |bits| == 8 && ValueOf(bits) == b
  {
    var bits := Nibble(b / 16) + Nibble(b % 16);
    ValueAppend(Nibble(b / 16), Nibble(b % 16));
    assert Pow2(4) == 16;
    bits
  }

  function Spread(bytes: Octets): (bits: Bits)
    ensures |bits| == 8 * |bytes|
  {
    if bytes == [] then [] else Spread(bytes[..|bytes| - 1]) + ByteBits(bytes[|bytes| - 1])
  }

  lemma {:induction false} SpreadValue(bytes: Octets)
    ensures ValueOf(Spread(bytes)) == BigEndian(bytes)
    decreases |bytes|
  {
    if bytes == [] {
      NoBits(1);
    } else {
      hide Pow2, ValueOf, ByteBits;
      var front, last := bytes[..|bytes| - 1], ByteBits(bytes[|bytes| - 1]);
      SpreadValue(front);
      ValueAppend(Spread(front), last);
      EightIsPow();
    }
  }

  /** What a player makes of bytes when it expects n bits: it ignores the unused bits of the first byte. */
  function Unpack(bytes: Octets, n: nat): (bits: Bits)
    requires n <= 8 * |bytes|
    ensures |bits| == n
  {
    Spread(bytes)[8 * |bytes| - n..]
  }

  lemma UnpackPack(bits: Bits)
    ensures Unpack(Pack(bits), |bits|) == bits
  {
    hide Pow2, ValueOf, BigEndian, Spread, Pack;
    var bytes := Pack(bits);
    var all, n := Spread(bytes), 8 * |bytes| - |bits|;
    PackValue(bits);
    SpreadValue(bytes);
    ValueBound(bits);
    SmallInLastBits(all, all[..n], all[n..]);
    ValueInjective(all[n..], bits);
  }

  lemma OneMoreBit(front: Bits, b: bool, k: nat)
    requires k > 0
    ensures ValueOf(front + [b]) * Pow2(k - 1) == ValueOf(front) * Pow2(k) + if b then Pow2(k - 1) else 0
  {
    var v, p := ValueOf(front), Pow2(k - 1);
    assert (front + [b])[..|front|] == front;
    assert (2 * v + Bit(b)) * p == v * (2 * p) + Bit(b) * p;
  }

  lemma NoBits(p: nat)
    ensures ValueOf([]) * p == 0
  {}

  lemma OneIsPow()
    ensures Pow2(0) == 1
  {}

  lemma HalfPow(k: nat)
    ensures Pow2(k) / 2 == if k == 0 then 0 else Pow2(k - 1)
  {}

  /** The inner loop of makeXSVFbytes: one byte, from the bit firstBit down. */
  method MakeByte(bitarray: Bits, bitNdx: nat, firstBit: nat) returns (byte: Octet, next: nat)
    requires firstBit < 8 && bitNdx + firstBit < |bitarray|
    ensures next == bitNdx + firstBit + 1 && byte == ValueOf(bitarray[bitNdx..next])
  {
    hide ValueOf, Pow2;
    NoBits(Pow2(firstBit + 1));
    var mask := Pow2(firstBit);
    var sum := 0;
    ghost var k := firstBit + 1;
    next := bitNdx;
    assert bitarray[bitNdx..next] == [];
    while mask != 0
      invariant 0 <= k <= firstBit + 1 && next == bitNdx + firstBit + 1 - k
      invariant mask == if k == 0 then 0 else Pow2(k - 1)
      invariant sum == ValueOf(bitarray[bitNdx..next]) * Pow2(k)
      decreases k
    {
      OneMoreBit(bitarray[bitNdx..next], bitarray[next], k);
      HalfPow(k - 1);
      assert bitarray[bitNdx..next + 1] == bitarray[bitNdx..next] + [bitarray[next]];
      if bitarray[next] {
        sum := sum + mask;
      }
      mask := mask / 2;
      next := next + 1;
      k := k - 1;
    }
    ByteOf(bitarray[bitNdx..next]);
    OneIsPow();
    byte := sum;
  }

  /** makeXSVFbytes: ceil(n / 8) bytes that stand for the same number. */
  method MakeXSVFBytes(bitarray: Bits) returns (ba: Octets)
    ensures ba == Pack(bitarray)
    ensures |ba| == (|bitarray| + 7) / 8 && BigEndian(ba) == ValueOf(bitarray)
  {
    var bitCount := |bitarray|;
    var byteCount := (bitCount + 7) / 8;
    ba := [];
    var firstBit := bitCount % 8 - 1;
    if firstBit == -1 {
      firstBit := 7;
    }
    var bitNdx: nat := 0;
    for byteNdx := 0 to byteCount
      invariant 0 <= firstBit < 8 && (if byteNdx == 0 then bitNdx == 0 else firstBit == 7 && bitNdx > 0)
      invariant byteNdx < byteCount ==> bitNdx + firstBit + 1 + 8 * (byteCount - byteNdx - 1) == bitCount
      invariant byteNdx == byteCount ==> bitNdx == bitCount
      invariant ba == Pack(bitarray[..bitNdx])
    {
      var byte, next := MakeByte(bitarray, bitNdx, firstBit);
      PackMore(bitarray, bitNdx, next);
      ba := ba + [byte];
      bitNdx := next;
      firstBit := 7;
    }
    assert bitarray[..bitNdx] == bitarray;
    PackValue(bitarray);
  }

  lemma PackMore(bits: Bits, m: nat, n: nat)
    requires m < n <= |bits| && n - m <= 8 && (m > 0 ==> n == m + 8)
    ensures ValueOf(bits[m..n]) < 256
    ensures Pack(bits[..n]) == Pack(bits[..m]) + [ValueOf(bits[m..n])]
  {
    ByteOf(bits[m..n]);
    assert bits[..n][m..] == bits[m..n];
    if m > 0 {
      assert bits[..n][..m] == bits[..m];
    } else {
      assert bits[..n] == bits[m..n];
    }
  }

  // ---- From bytes to hexadecimal -------------------------------------------------------------------

  /** "%x" of a digit. */
  function HexChar(d: nat): (c: char)
    requires d < 16
    ensures IsHexDigit(c) && Digit(c) == d
  {
    if d < 10 then '0' + d as char else 'a' + (d - 10) as char
  }

  function HexOf(bytes: Octets): (hex: Hex)
    ensures |hex| == 2 * |bytes|
  {
    if bytes == [] then []
    else
      var b := bytes[|bytes| - 1];
      HexOf(bytes[..|bytes| - 1]) + [HexChar(b / 16), HexChar(b % 16)]
  }

  lemma {:induction false} HexOfValue(bytes: Octets)
    ensures NumberOf(HexOf(bytes)) == BigEndian(bytes)
    decreases |bytes|
  {
    if bytes != [] {
      var front, b := bytes[..|bytes| - 1], bytes[|bytes| - 1];
      HexOfValue(front);
      var hex := HexOf(bytes);
      assert hex[..|hex| - 1][..|hex| - 2] == HexOf(front);
    }
  }

  /** The loop of bytes2hexString over the bytes it has read. */
  method BytesToHexString(bytebuf: Octets) returns (hex: Hex)
    ensures hex == HexOf(bytebuf) && |hex| == 2 * |bytebuf| && NumberOf(hex) == BigEndian(bytebuf)
    ensures forall i :: 0 <= i < |hex| ==> '0' <= hex[i] <= '9' || 'a' <= hex[i] <= 'f'
  {
    hex := [];
    for i := 0 to |bytebuf|
      invariant hex == HexOf(bytebuf[..i])
      invariant forall j :: 0 <= j < |hex| ==> '0' <= hex[j] <= '9' || 'a' <= hex[j] <= 'f'
    {
      var b := bytebuf[i];
      assert bytebuf[..i + 1][..i] == bytebuf[..i];
      hex := hex + [HexChar(b / 16), HexChar(b % 16)];
    }
    assert bytebuf[..|bytebuf|] == bytebuf;
    HexOfValue(bytebuf);
  }

  /** The number survives the whole way: a hexadecimal number of the statement, cut to n bits and packed, is
      printed by the dumper as the same number modulo 2^n. */
  lemma PrintedNumber(hex: Hex, n: nat)
    requires n <= 4 * |hex|
    ensures NumberOf(HexOf(Pack(HexBits(hex, n)))) == NumberOf(hex) % Pow2(n)
  {
    HexOfValue(Pack(HexBits(hex, n)));
    PackValue(HexBits(hex, n));
    HexBitsValue(hex, n);
  }
}
