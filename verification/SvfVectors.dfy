/** svf2xsvf.py: the vectors that belong to a shift command. What a statement does not give again stays as it was,
    unless the length changes. */
module SvfVectors {
  import opened Wrappers
  import opened BitVectors

  /** What a vector set is for; LSDR shares the set of SDR. */
  datatype Name = HIR | HDR | TIR | TDR | SIR | SDR

  datatype Part = Tdi | Tdo | Mask | Smask

  /** A MASKSET as a value. */
  datatype Vectors = Vectors(mask: Bits, smask: Bits, tdi: Bits, tdo: Bits, size: nat) {
    function Get(part: Part): Bits {
      match part
      case Tdi => tdi
      case Tdo => tdo
      case Mask => mask
      case Smask => smask
    }

    function With(part: Part, bits: Bits): Vectors {
      match part
      case Tdi => this.(tdi := bits)
      case Tdo => this.(tdo := bits)
      case Mask => this.(mask := bits)
      case Smask => this.(smask := bits)
    }

    /** All four vectors have the length the set says it has. */
    predicate Even() {
      |mask| == |smask| == |tdi| == |tdo| == size
    }
  }

  const EMPTY := Vectors([], [], [], [], 0)

  /** bytearray(n), and the same with ones. */
  function Constant(n: nat, b: bool): (bits: Bits)
    ensures |bits| == n && forall i :: 0 <= i < n ==> bits[i] == b
  {
    seq(n, i => b)
  }

  /** A part of a statement and the hexadecimal digits it comes with. */
  datatype Given = Given(part: Part, hex: Hex)

  function Resized(bits: Bits, n: nat, b: bool): Bits {
    if n != |bits| then Constant(n, b) else bits
  }

  /** syncLengths. */
  function Synced(v: Vectors, name: Name, sawMask: bool, newSize: nat): Vectors {
    if v.size == newSize then v
    else if newSize == 0 then EMPTY
    else
      var mask := if name == SIR && !sawMask then Constant(newSize, false) else v.mask;
      Vectors(Resized(mask, newSize, name == SDR), Resized(v.smask, newSize, false),
              Resized(v.tdi, newSize, false), Resized(v.tdo, newSize, false), newSize)
  }

  /** The parts of a statement, in the order given. None when one has too few digits, which ends the compiler. */
  function Taken(v: Vectors, given: seq<Given>, length: nat): Option<Vectors>
    decreases |given|
  {
    if given == [] then Some(v)
    else if 4 * |given[0].hex| < length then None
    else Taken(v.With(given[0].part, HexBits(given[0].hex, length)), given[1..], length)
  }

  predicate Saw(given: seq<Given>, part: Part) {
    exists i :: 0 <= i < |given| && given[i].part == part
  }

  /** A whole statement: its parts, then syncLengths. */
  function Shifted(v: Vectors, name: Name, given: seq<Given>, length: nat): Option<Vectors> {
    match Taken(v, given, length)
    case None => None
    case Some(taken) => Some(Synced(taken, name, Saw(given, Mask), length))
  }

  // ---- What the vectors come to --------------------------------------------------------------------

  /** The digits a statement gives last for a part. */
  function LastGiven(given: seq<Given>, part: Part): (hex: Option<Hex>)
    ensures hex.Some? <==> Saw(given, part)
  {
    if given == [] then None
    else if given[|given| - 1].part == part then Some(given[|given| - 1].hex)
    else
      assert forall i :: 0 <= i < |given| - 1 ==> given[i] == given[..|given| - 1][i];
      LastGiven(given[..|given| - 1], part)
  }

  /** What SVF says a part is after a statement of this length: what the statement gives; if it gives nothing, what
      it was before; and if it does not have that length any more, zeros, or ones for the mask of SDR. */
  function Intended(v: Vectors, name: Name, given: seq<Given>, length: nat, part: Part): Bits
    requires forall i :: 0 <= i < |given| ==> length <= 4 * |given[i].hex|
  {
    match LastGiven(given, part)
    case Some(hex) => if length <= 4 * |hex| then HexBits(hex, length) else []
    case None => if length == v.size then v.Get(part) else Constant(length, name == SDR && part == Mask)
  }

  lemma {:induction false} TakenParts(v: Vectors, given: seq<Given>, length: nat, part: Part)
    requires Taken(v, given, length).Some?
    ensures forall i :: 0 <= i < |given| ==> length <= 4 * |given[i].hex|
    ensures Taken(v, given, length).value.size == v.size
    ensures
      var bits := Taken(v, given, length).value.Get(part);
      match LastGiven(given, part)
      case None => bits == v.Get(part)
      case Some(hex) => length <= 4 * |hex| && bits == HexBits(hex, length)
    decreases |given|
  {
    if given != [] {
      var w := v.With(given[0].part, HexBits(given[0].hex, length));
      TakenParts(w, given[1..], length, part);
      LastOfRest(given, part);
      assert forall i :: 1 <= i < |given| ==> given[i] == given[1..][i - 1];
    }
  }

  lemma {:induction false} LastOfRest(given: seq<Given>, part: Part)
    requires given != []
    ensures LastGiven(given, part) ==
            if Saw(given[1..], part) then LastGiven(given[1..], part)
            else if given[0].part == part then Some(given[0].hex) else None
    decreases |given|
  {
    var k := |given| - 1;
    if k > 0 {
      assert given[1..][..k - 1] == given[..k][1..];
      assert given[1..][k - 1] == given[k];
      if given[k].part != part {
        LastOfRest(given[..k], part);
      }
    }
  }

  /** The statement fails exactly when some part has too few digits. */
  lemma {:induction false} TakenFails(v: Vectors, given: seq<Given>, length: nat)
    ensures Taken(v, given, length).None? <==> exists i :: 0 <= i < |given| && 4 * |given[i].hex| < length
    decreases |given|
  {
    if given != [] && length <= 4 * |given[0].hex| {
      TakenFails(v.With(given[0].part, HexBits(given[0].hex, length)), given[1..], length);
      if i :| 0 <= i < |given| && 4 * |given[i].hex| < length {
        assert given[1..][i - 1] == given[i];
      }
      if j :| 0 <= j < |given[1..]| && 4 * |given[1..][j].hex| < length {
        assert given[j + 1] == given[1..][j];
      }
    }
  }

  /** Every statement leaves all four vectors with exactly the length it names, and each is what SVF says. */
  lemma ShiftMeaning(v: Vectors, name: Name, given: seq<Given>, length: nat, part: Part)
    requires v.Even() && Shifted(v, name, given, length).Some?
    ensures forall i :: 0 <= i < |given| ==> length <= 4 * |given[i].hex|
    ensures
      var w := Shifted(v, name, given, length).value;
      w.Even() && w.size == length && w.Get(part) == Intended(v, name, given, length, part)
  {
    hide HexBits, Taken, LastGiven;
    var taken := Taken(v, given, length).value;
    PartMeaning(v, taken, name, given, length, Tdi);
    PartMeaning(v, taken, name, given, length, Tdo);
    PartMeaning(v, taken, name, given, length, Mask);
    PartMeaning(v, taken, name, given, length, Smask);
    PartMeaning(v, taken, name, given, length, part);
    var w := Synced(taken, name, Saw(given, Mask), length);
    assert w.Get(Tdi) == w.tdi && w.Get(Tdo) == w.tdo && w.Get(Mask) == w.mask && w.Get(Smask) == w.smask;
  }

  lemma PartMeaning(v: Vectors, taken: Vectors, name: Name, given: seq<Given>, length: nat, part: Part)
    requires v.Even() && Taken(v, given, length) == Some(taken)
    ensures forall i :: 0 <= i < |given| ==> length <= 4 * |given[i].hex|
    ensures
      var w := Synced(taken, name, Saw(given, Mask), length);
      w.size == length && |w.Get(part)| == length && w.Get(part) == Intended(v, name, given, length, part)
  {
    hide HexBits, Taken, LastGiven, Synced;
    TakenParts(v, given, length, part);
    SyncPart(taken, name, Saw(given, Mask), length, part, Saw(given, part));
  }

  /** A part that was not given still has the old length, one that was given the new. */
  lemma SyncPart(taken: Vectors, name: Name, sawMask: bool, length: nat, part: Part, saw: bool)
    requires |taken.Get(part)| == if saw then length else taken.size
    requires part == Mask ==> saw == sawMask
    ensures
      var w := Synced(taken, name, sawMask, length);
      && w.size == length && |w.Get(part)| == length
      && w.Get(part) == if saw || length == taken.size then taken.Get(part)
                        else Constant(length, name == SDR && part == Mask)
  {
    if length == 0 {
      assert Constant(length, name == SDR && part == Mask) == [];
    }
  }

  // ---- The class -----------------------------------------------------------------------------------

  class MaskSet {
    const name: Name
    var mask: Bits
    var smask: Bits
    var tdi: Bits
    var tdo: Bits
    var size: nat

    ghost function View(): Vectors
      reads this
    {
      Vectors(mask, smask, tdi, tdo, size)
    }

    constructor (name: Name)
      ensures this.name == name && View() == EMPTY
    {
      this.name := name;
      mask, smask, tdi, tdo, size := [], [], [], [], 0;
    }

    method Empty()
      modifies this
      ensures View() == EMPTY
    {
      mask, smask, tdi, tdo, size := [], [], [], [], 0;
    }

    method SyncLengths(sawMask: bool, newSize: nat)
      modifies this
      ensures View() == Synced(old(View()), name, sawMask, newSize)
    {
      if size == newSize {
        return;
      }
      if newSize == 0 {
        Empty();
        return;
      }
      if name == SIR && !sawMask {
        mask := Constant(newSize, false);
      }
      if newSize != |mask| {
        mask := Constant(newSize, name == SDR);
      }
      if newSize != |tdo| {
        tdo := Constant(newSize, false);
      }
      if newSize != |tdi| {
        tdi := Constant(newSize, false);
      }
      if newSize != |smask| {
        smask := Constant(newSize, false);
      }
      size := newSize;
    }

    /** The loop over the parts of a statement; false when a part has too few digits. */
    method TakeParts(given: seq<Given>, length: nat) returns (ok: bool, sawTdo: bool, sawMask: bool)
      modifies this
      ensures ok <==> Taken(old(View()), given, length).Some?
      ensures ok ==> View() == Taken(old(View()), given, length).value
      ensures ok ==> (sawTdo <==> Saw(given, Tdo)) && (sawMask <==> Saw(given, Mask))
    {
      hide HexBits, NumberOf, ValueOf, Pow2;
      sawTdo, sawMask := false, false;
      ghost var all := Taken(View(), given, length);
      assert given[0..] == given;
      for i := 0 to |given|
        invariant Taken(View(), given[i..], length) == all
        invariant sawTdo <==> exists j :: 0 <= j < i && given[j].part == Tdo
        invariant sawMask <==> exists j :: 0 <= j < i && given[j].part == Mask
      {
        assert given[i..][1..] == given[i + 1..];
        var bits := MakeBitArray(given[i].hex, length);
        if bits.None? {
          return false, sawTdo, sawMask;
        }
        match given[i].part {
          case Tdi => tdi := bits.value;
          case Tdo =>
            sawTdo := true;
            tdo := bits.value;
          case Mask =>
            sawMask := true;
            mask := bits.value;
          case Smask => smask := bits.value;
        }
      }
      return true, sawTdo, sawMask;
    }

    /** A whole statement. */
    method Shift(given: seq<Given>, length: nat) returns (ok: bool, sawTdo: bool)
      modifies this
      ensures ok <==> Shifted(old(View()), name, given, length).Some?
      ensures ok ==> View() == Shifted(old(View()), name, given, length).value && (sawTdo <==> Saw(given, Tdo))
    {
      var sawMask;
      ok, sawTdo, sawMask := TakeParts(given, length);
      if ok {
        SyncLengths(sawMask, length);
      }
    }
  }
}
