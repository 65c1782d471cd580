/** The CRC register as the 16 coefficients of a polynomial remainder over GF(2), most significant first,
    and the algebra of shifting message bits into it. Nothing here knows about tables or machine words. */
module CrcRegister {
  import opened Wrappers

  type Register = r: Bits | |r| == 16 witness Zeros(16)

  function Zeros(n: nat): Bits {
    seq(n, i => false)
  }

  /** x^12 + x^5 + 1, what x^16 is congruent to. */
  const GENERATOR: Register :=
    [false, false, false, true, false, false, false, false,
     false, false, true, false, false, false, false, true]

  function Xor(a: Bits, b: Bits): (c: Bits)
    requires |a| == |b|
    ensures |c| == |a|
  {
    seq(|a|, i requires 0 <= i < |a| => a[i] != b[i])
  }

  /** Shift one message bit into the register. */
  function FeedBit(r: Register, b: bool): Register {
    if r[0] != b then Xor(r[1..] + [false], GENERATOR) else r[1..] + [false]
  }

  lemma FeedBitAt(r: Register, b: bool, i: nat)
    requires i < 16
    ensures GENERATOR[i] <==> i == 3 || i == 10 || i == 15
    ensures FeedBit(r, b)[i] == ((i < 15 && r[i + 1]) != (r[0] != b && (i == 3 || i == 10 || i == 15)))
  {}

  /** Shift the message bits in, first bit first. */
  function Feed(r: Register, bits: Bits): Register
    decreases |bits|
  {
    if bits == [] then r else Feed(FeedBit(r, bits[0]), bits[1..])
  }

  lemma {:induction false} FeedAppend(r: Register, a: Bits, b: Bits)
    ensures Feed(r, a + b) == Feed(Feed(r, a), b)
    decreases |a|
  {
    if a == [] {
      assert a + b == b;
    } else {
      assert (a + b)[1..] == a[1..] + b;
      FeedAppend(FeedBit(r, a[0]), a[1..], b);
    }
  }

  /** Superposition: the register is linear in its start value and the message together. */
  lemma {:induction false} FeedLinear(r: Register, s: Register, a: Bits, b: Bits)
    requires |a| == |b|
    ensures Feed(Xor(r, s), Xor(a, b)) == Xor(Feed(r, a), Feed(s, b))
    decreases |a|
  {
    if a != [] {
      assert FeedBit(Xor(r, s), Xor(a, b)[0]) == Xor(FeedBit(r, a[0]), FeedBit(s, b[0]));
      assert Xor(a, b)[1..] == Xor(a[1..], b[1..]);
      FeedLinear(FeedBit(r, a[0]), FeedBit(s, b[0]), a[1..], b[1..]);
    }
  }

  /** The register r with up to sixteen bits added to it, left-justified. */
  function AddBits(r: Register, bits: Bits): Register
    requires |bits| <= 16
  {
    Xor(r, bits + Zeros(16 - |bits|))
  }

  /** Up to sixteen bits may be added to the register first and the register stepped afterwards. */
  lemma {:induction false} FeedAtOnce(r: Register, bits: Bits)
    requires |bits| <= 16
    ensures Feed(r, bits) == Feed(AddBits(r, bits), Zeros(|bits|))
    decreases |bits|
  {
    if bits == [] {
      assert AddBits(r, bits) == r;
    } else {
      var rest := bits[1..];
      FeedAtOnce(FeedBit(r, bits[0]), rest);
      assert Zeros(|bits|)[1..] == Zeros(|rest|);
      assert AddBits(FeedBit(r, bits[0]), rest) == FeedBit(AddBits(r, bits), false);
    }
  }

  /** The generator's constant term is 1, so a step can be undone. */
  lemma StepInjective(r: Register)
    requires FeedBit(r, false) == Zeros(16)
    ensures r == Zeros(16)
  {
    assert FeedBit(r, false)[15] == false;
    assert !r[0];
    forall i | 1 <= i < 16
      ensures !r[i]
    {
      assert FeedBit(r, false)[i - 1] == r[i];
    }
  }

  lemma {:induction false} IdleZeros(n: nat)
    ensures Feed(Zeros(16), Zeros(n)) == Zeros(16)
  {
    if n > 0 {
      assert FeedBit(Zeros(16), false) == Zeros(16);
      assert Zeros(n)[1..] == Zeros(n - 1);
      IdleZeros(n - 1);
    }
  }

  lemma {:induction false} IdleInjective(r: Register, n: nat)
    requires Feed(r, Zeros(n)) == Zeros(16)
    ensures r == Zeros(16)
    decreases n
  {
    if n > 0 {
      assert Zeros(n)[1..] == Zeros(n - 1);
      IdleInjective(FeedBit(r, false), n - 1);
      StepInjective(r);
    }
  }

  /** A nonzero message whose ones all lie within sixteen consecutive bits leaves a nonzero register. */
  lemma BurstLeavesRemainder(before: nat, burst: Bits, after: nat)
    requires |burst| <= 16 && exists i :: 0 <= i < |burst| && burst[i]
    ensures Feed(Zeros(16), Zeros(before) + burst + Zeros(after)) != Zeros(16)
  {
    FeedAppend(Zeros(16), Zeros(before) + burst, Zeros(after));
    FeedAppend(Zeros(16), Zeros(before), burst);
    IdleZeros(before);
    FeedAtOnce(Zeros(16), burst);
    var i :| 0 <= i < |burst| && burst[i];
    assert AddBits(Zeros(16), burst)[i] != Zeros(16)[i];
    if Feed(Zeros(16), Zeros(before) + burst + Zeros(after)) == Zeros(16) {
      IdleInjective(Feed(Zeros(16), burst), after);
      IdleInjective(AddBits(Zeros(16), burst), |burst|);
    }
  }

  /** Whether the number of ones is odd. */
  function Odd(bits: Bits): bool {
    if bits == [] then false else bits[0] != Odd(bits[1..])
  }

  lemma {:induction false} OddXor(a: Bits, b: Bits)
    requires |a| == |b|
    ensures Odd(Xor(a, b)) == (Odd(a) != Odd(b))
  {
    if a != [] {
      assert Xor(a, b)[1..] == Xor(a[1..], b[1..]);
      OddXor(a[1..], b[1..]);
    }
  }

  lemma {:induction false} OddAppend(a: Bits, b: Bits)
    ensures Odd(a + b) == (Odd(a) != Odd(b))
  {
    if a == [] {
      assert a + b == b;
    } else {
      assert (a + b)[1..] == a[1..] + b;
      OddAppend(a[1..], b);
    }
  }

  lemma {:induction false} OddZeros(n: nat)
    ensures !Odd(Zeros(n))
  {
    if n > 0 {
      assert Zeros(n)[1..] == Zeros(n - 1);
      OddZeros(n - 1);
    }
  }

  lemma OddGenerator()
    ensures Odd(GENERATOR)
  {
    OddZeros(3);
    OddZeros(6);
    OddZeros(4);
    OddAppend(Zeros(4), [true]);
    OddAppend([true], Zeros(4) + [true]);
    OddAppend(Zeros(6), [true] + (Zeros(4) + [true]));
    OddAppend([true], Zeros(6) + ([true] + (Zeros(4) + [true])));
    OddAppend(Zeros(3), [true] + (Zeros(6) + ([true] + (Zeros(4) + [true]))));
    assert GENERATOR == Zeros(3) + ([true] + (Zeros(6) + ([true] + (Zeros(4) + [true]))));
  }

  /** x + 1 divides the generator, so the register keeps the parity of what was fed. */
  lemma {:induction false} FeedParity(r: Register, bits: Bits)
    ensures Odd(Feed(r, bits)) == (Odd(r) != Odd(bits))
    decreases |bits|
  {
    if bits != [] {
      var shifted := r[1..] + [false];
      OddAppend(r[1..], [false]);
      OddXor(shifted, GENERATOR);
      OddGenerator();
      FeedParity(FeedBit(r, bits[0]), bits[1..]);
    }
  }

  // ---- Long division -------------------------------------------------------------------------------

  /** The dividend after its leading term has been cancelled with the divisor. */
  function Cancel(d: Bits): (c: Bits)
    requires |d| > 16
    ensures |c| == |d| - 1
  {
    if d[0] then Xor(d[1..], GENERATOR + Zeros(|d| - 17)) else d[1..]
  }

  /** Schoolbook division by x^16 + x^12 + x^5 + 1: cancel leading terms until degree 15 is left. */
  function Remainder(d: Bits): Register
    requires |d| >= 16
    decreases |d|
  {
    if |d| == 16 then d else Remainder(Cancel(d))
  }

  /** The product of q and the divisor (a leading 1 and the generator), as |q| + 16 coefficients. */
  function TimesDivisor(q: Bits): (p: Bits)
    ensures |p| == |q| + 16
  {
    if q == [] then Zeros(16)
    else if q[0] then [true] + Xor(GENERATOR + Zeros(|q| - 1), TimesDivisor(q[1..]))
    else [false] + TimesDivisor(q[1..])
  }

  /** d = q * divisor + r. */
  ghost predicate Divides(d: Bits, q: Bits, r: Register) {
    |d| == |q| + 16 && d == Xor(TimesDivisor(q), Zeros(|q|) + r)
  }

  lemma XorMoves(a: Bits, g: Bits, t: Bits, z: Bits)
    requires |a| == |g| == |t| == |z|
    ensures a == Xor(Xor(g, t), z) <==> Xor(a, g) == Xor(t, z)
  {
    var left, right, moved := Xor(Xor(g, t), z), Xor(a, g), Xor(t, z);
    assert forall i | 0 <= i < |a| :: a[i] == left[i] <==> right[i] == moved[i];
    if a == left {
      assert forall i | 0 <= i < |a| :: right[i] == moved[i];
    }
    if right == moved {
      assert forall i | 0 <= i < |a| :: a[i] == left[i];
    }
  }

  lemma XorHead(h: bool, t: Bits, z: Bits)
    requires |z| == |t|
    ensures Xor([h] + t, [false] + z) == [h] + Xor(t, z)
  {}

  lemma HeadTail(d: Bits, h: bool, t: Bits)
    requires d != []
    ensures d == [h] + t <==> d[0] == h && d[1..] == t
  {}

  lemma DividesStep(d: Bits, q: Bits, r: Register)
    requires q != [] && |d| == |q| + 16
    ensures Divides(d, q, r) <==> d[0] == q[0] && Divides(Cancel(d), q[1..], r)
  {
    var rest, z := TimesDivisor(q[1..]), Zeros(|q| - 1) + r;
    var g := GENERATOR + Zeros(|q| - 1);
    var t := if q[0] then Xor(g, rest) else rest;
    assert TimesDivisor(q) == [q[0]] + t;
    assert Zeros(|q|) + r == [false] + z;
    XorHead(q[0], t, z);
    HeadTail(d, q[0], Xor(t, z));
    XorMoves(d[1..], g, rest, z);
  }

  lemma {:induction false} RemainderExists(d: Bits) returns (q: Bits)
    requires |d| >= 16
    ensures Divides(d, q, Remainder(d))
    decreases |d|
  {
    if |d| == 16 {
      q := [];
    } else {
      var rest := RemainderExists(Cancel(d));
      q := [d[0]] + rest;
      assert q[1..] == rest;
      DividesStep(d, q, Remainder(d));
    }
  }

  lemma {:induction false} RemainderUnique(d: Bits, q: Bits, r: Register)
    requires Divides(d, q, r)
    ensures r == Remainder(d)
    decreases |d|
  {
    if q == [] {
      assert d == r;
    } else {
      DividesStep(d, q, r);
      RemainderUnique(Cancel(d), q[1..], r);
    }
  }

  /** Remainder is the remainder: the only register r for which d is a multiple of the divisor plus r. */
  lemma RemainderCharacterised(d: Bits, r: Register)
    requires |d| >= 16
    ensures r == Remainder(d) <==> exists q :: Divides(d, q, r)
  {
    var q := RemainderExists(d);
    forall p | Divides(d, p, r)
      ensures r == Remainder(d)
    {
      RemainderUnique(d, p, r);
    }
  }

  /** The shift register divides: what it holds after the message is the remainder of message * x^16. */
  lemma {:induction false} FeedDivides(r: Register, m: Bits)
    ensures Feed(r, m) == Remainder(Xor(m + Zeros(16), r + Zeros(|m|)))
    decreases |m|
  {
    var d := Xor(m + Zeros(16), r + Zeros(|m|));
    if m == [] {
      assert d == r;
    } else {
      FeedDivides(FeedBit(r, m[0]), m[1..]);
      CancelFeeds(r, m, d);
    }
  }

  lemma CancelFeeds(r: Register, m: Bits, d: Bits)
    requires m != [] && d == Xor(m + Zeros(16), r + Zeros(|m|))
    ensures Cancel(d) == Xor(m[1..] + Zeros(16), FeedBit(r, m[0]) + Zeros(|m| - 1))
  {
    var next := FeedBit(r, m[0]) + Zeros(|m| - 1);
    forall i | 0 <= i < |d| - 1
      ensures Cancel(d)[i] == Xor(m[1..] + Zeros(16), next)[i]
    {
      assert d[i + 1] == ((m + Zeros(16))[i + 1] != (r + Zeros(|m|))[i + 1]);
      if i < 16 {
        FeedBitAt(r, m[0], i);
      }
    }
  }
}
