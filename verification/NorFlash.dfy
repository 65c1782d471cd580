/** NOR flash as a value: erasing a sector sets its bytes to 0xFF, programming a page can only clear bits.
    A power cut can fall between any two of these operations, never inside one. */
module NorFlash {
  import opened Wrappers

  const CHIP_SIZE := 0x20_0000
  const PAGE_SIZE := 256
  const SECTOR_SIZE := 4096

  type Memory = m: Bytes | |m| == CHIP_SIZE witness Erased(CHIP_SIZE)

  datatype Op = Erase(sector: nat) | Program(page: nat, data: Bytes) {
    function Start(): nat {
      match this
      case Erase(s) => 4096 * s
      case Program(p, _) => 256 * p
    }

    function End(): nat {
      match this
      case Erase(s) => 4096 * s + 4096
      case Program(p, _) => 256 * p + 256
    }

    predicate Legal() {
      End() <= CHIP_SIZE && (Program? ==> |data| == PAGE_SIZE)
    }

    predicate Inside(low: nat, high: nat) {
      low <= Start() && End() <= high
    }
  }

  type FlashOp = op: Op | op.Legal() witness Erase(0)

  function Erased(n: nat): Bytes {
    seq(n, i => 0xFF as bv8)
  }

  /** Programming can only clear bits: a byte becomes the old byte AND the data byte. */
  function Clear(byte: bv8, data: bv8): bv8 {
    byte & data
  }

  function Apply(m: Memory, op: FlashOp): Memory {
    seq(CHIP_SIZE, i requires 0 <= i < CHIP_SIZE =>
      if op.Start() <= i < op.End() then
        if op.Erase? then 0xFF else Clear(m[i], op.data[i - op.Start()])
      else m[i])
  }

  lemma AppliedByte(m: Memory, op: FlashOp, i: nat)
    requires i < CHIP_SIZE
    ensures !(op.Start() <= i < op.End()) ==> Apply(m, op)[i] == m[i]
    ensures op.Start() <= i < op.End() && op.Erase? ==> Apply(m, op)[i] == 0xFF
    ensures op.Start() <= i < op.End() && op.Program? ==> Apply(m, op)[i] == Clear(m[i], op.data[i - op.Start()])
  {}

  /** The flash after a list of operations, first operation first. */
  function ApplyAll(m: Memory, ops: seq<FlashOp>): Memory {
    if ops == [] then m else Apply(ApplyAll(m, ops[..|ops| - 1]), ops[|ops| - 1])
  }

  ghost predicate AllInside(ops: seq<FlashOp>, low: nat, high: nat) {
    forall i | 0 <= i < |ops| :: ops[i].Inside(low, high)
  }

  /** m and n hold the same bytes from low up to high. */
  ghost predicate Agree(m: Memory, n: Memory, low: nat, high: nat) {
    forall i | 0 <= i < CHIP_SIZE && low <= i < high :: m[i] == n[i]
  }

  lemma {:induction false} ApplyAllAppend(m: Memory, a: seq<FlashOp>, b: seq<FlashOp>)
    ensures ApplyAll(m, a + b) == ApplyAll(ApplyAll(m, a), b)
    decreases |b|
  {
    if b == [] {
      assert a + b == a;
    } else {
      var k := |b| - 1;
      assert (a + b)[..|a + b| - 1] == a + b[..k];
      ApplyAllAppend(m, a, b[..k]);
    }
  }

  lemma ApplyOne(m: Memory, a: seq<FlashOp>, op: FlashOp)
    ensures ApplyAll(m, a + [op]) == Apply(ApplyAll(m, a), op)
  {
    assert (a + [op])[..|a|] == a;
  }

  lemma ApplyNext(m: Memory, ops: seq<FlashOp>, k: nat)
    requires k < |ops|
    ensures ops[..k + 1] == ops[..k] + [ops[k]]
    ensures ApplyAll(m, ops[..k + 1]) == Apply(ApplyAll(m, ops[..k]), ops[k])
  {
    assert ops[..k + 1] == ops[..k] + [ops[k]];
    ApplyOne(m, ops[..k], ops[k]);
  }

  /** Operations leave every byte outside the area they work in unchanged. */
  lemma {:induction false} OutsideUnchanged(m: Memory, ops: seq<FlashOp>, low: nat, high: nat)
    requires AllInside(ops, low, high)
    ensures forall i | 0 <= i < CHIP_SIZE && !(low <= i < high) :: ApplyAll(m, ops)[i] == m[i]
    decreases |ops|
  {
    if ops != [] {
      var k := |ops| - 1;
      assert AllInside(ops[..k], low, high);
      OutsideUnchanged(m, ops[..k], low, high);
      assert ops[k].Inside(low, high);
    }
  }

  lemma DisjointUnchanged(m: Memory, ops: seq<FlashOp>, low: nat, high: nat, a: nat, b: nat)
    requires AllInside(ops, low, high) && (b <= low || high <= a)
    ensures Agree(ApplyAll(m, ops), m, a, b)
  {
    OutsideUnchanged(m, ops, low, high);
  }

  // ---- Erasing and programming a range -------------------------------------------------------------

  function EraseOps(sector: nat, count: nat): (ops: seq<FlashOp>)
    requires 4096 * (sector + count) <= CHIP_SIZE
    ensures |ops| == count
  {
    seq(count, i requires 0 <= i < count => Erase(sector + i))
  }

  function PageOf(data: Bytes, i: nat): (page: Bytes)
    requires 256 * (i + 1) <= |data|
    ensures |page| == PAGE_SIZE
  {
    data[256 * i..256 * i + 256]
  }

  /** Programs for the given number of pages of data. */
  function ProgramOps(page: nat, data: Bytes, pages: nat): (ops: seq<FlashOp>)
    requires |data| == 256 * pages && 256 * (page + pages) <= CHIP_SIZE
    ensures |ops| == pages
  {
    seq(pages, i requires 0 <= i < pages => Program(page + i, PageOf(data, i)))
  }

  lemma EraseInside(sector: nat, count: nat)
    requires 4096 * (sector + count) <= CHIP_SIZE
    ensures AllInside(EraseOps(sector, count), 4096 * sector, 4096 * (sector + count))
  {}

  lemma ProgramInside(page: nat, data: Bytes, pages: nat, k: nat)
    requires |data| == 256 * pages && 256 * (page + pages) <= CHIP_SIZE && k <= pages
    ensures AllInside(ProgramOps(page, data, pages)[..k], 256 * page, 256 * (page + k))
  {}

  lemma {:induction false} ErasedByte(m: Memory, sector: nat, count: nat, i: nat)
    requires 4096 * (sector + count) <= CHIP_SIZE && i < CHIP_SIZE
    ensures ApplyAll(m, EraseOps(sector, count))[i] ==
            if 4096 * sector <= i < 4096 * (sector + count) then 0xFF else m[i]
    decreases count
  {
    if count > 0 {
      var ops := EraseOps(sector, count);
      ErasedByte(m, sector, count - 1, i);
      assert ops[..count - 1] == EraseOps(sector, count - 1);
      assert ops[..count] == ops;
      assert ops[count - 1] == Erase(sector + count - 1);
      ApplyNext(m, ops, count - 1);
      AppliedByte(ApplyAll(m, ops[..count - 1]), ops[count - 1], i);
    }
  }

  lemma PageByte(data: Bytes, k: nat, i: nat)
    requires 256 * (k + 1) <= |data| && 256 * k <= i < 256 * (k + 1)
    ensures PageOf(data, k)[i - 256 * k] == data[i]
  {}

  lemma ProgramAt(page: nat, data: Bytes, pages: nat, k: nat)
    requires |data| == 256 * pages && 256 * (page + pages) <= CHIP_SIZE && k < pages
    ensures ProgramOps(page, data, pages)[k] == Program(page + k, PageOf(data, k))
  {}

  lemma ProgrammedPage(m: Memory, page: nat, data: Bytes, pages: nat, k: nat, i: nat)
    requires |data| == 256 * pages && 256 * (page + pages) <= CHIP_SIZE && k < pages && i < CHIP_SIZE
    ensures Apply(m, ProgramOps(page, data, pages)[k])[i] ==
            if 256 * (page + k) <= i < 256 * (page + k + 1) then Clear(m[i], data[i - 256 * page]) else m[i]
  {
    hide Apply, ProgramOps, PageOf, Clear;
    var op := ProgramOps(page, data, pages)[k];
    ProgramAt(page, data, pages, k);
    AppliedByte(m, op, i);
    if op.Start() <= i < op.End() {
      PageByte(data, k, i - 256 * page);
    }
  }

  lemma {:induction false} ProgrammedByte(m: Memory, page: nat, data: Bytes, pages: nat, k: nat, i: nat)
    requires |data| == 256 * pages && 256 * (page + pages) <= CHIP_SIZE && k <= pages && i < CHIP_SIZE
    ensures ApplyAll(m, ProgramOps(page, data, pages)[..k])[i] ==
            if 256 * page <= i < 256 * (page + k) then Clear(m[i], data[i - 256 * page]) else m[i]
    decreases k
  {
    if k > 0 {
      hide ApplyAll, Apply, ProgramOps, Clear;
      var ops := ProgramOps(page, data, pages);
      ProgrammedByte(m, page, data, pages, k - 1, i);
      ApplyNext(m, ops, k - 1);
      ProgrammedPage(ApplyAll(m, ops[..k - 1]), page, data, pages, k - 1, i);
    }
  }

  lemma AndOnes(x: bv8, y: bv8)
    ensures x == 0xFF ==> x & y == y
    ensures y == 0xFF ==> x & y == x
  {}

  // ---- Erasing sectors and then programming them ---------------------------------------------------

  ghost predicate CanRewrite(sector: nat, count: nat, data: Bytes, pages: nat) {
    4096 * (sector + count) <= CHIP_SIZE && |data| == 256 * pages && pages <= 16 * count
  }

  /** Erase count sectors, then program pages of data from the start of the first. */
  function RewriteOps(sector: nat, count: nat, data: Bytes, pages: nat): (ops: seq<FlashOp>)
    requires CanRewrite(sector, count, data, pages)
    ensures |ops| == count + pages
  {
    EraseOps(sector, count) + ProgramOps(16 * sector, data, pages)
  }

  lemma RewriteInside(sector: nat, count: nat, data: Bytes, pages: nat)
    requires CanRewrite(sector, count, data, pages)
    ensures AllInside(RewriteOps(sector, count, data, pages), 4096 * sector, 4096 * (sector + count))
  {
    var ops := RewriteOps(sector, count, data, pages);
    forall i | 0 <= i < |ops|
      ensures ops[i].Inside(4096 * sector, 4096 * (sector + count))
    {
      if i >= count {
        assert ops[i] == ProgramOps(16 * sector, data, pages)[i - count];
      }
    }
  }

  /** What byte i holds when a rewrite is cut after k of its operations: while erasing, the sectors erased so
      far are blank; while programming, which acts as assignment because the flash is blank, the pages
      programmed so far hold the data and the rest is blank. Everything else is untouched throughout. */
  function RewrittenByte(m: Memory, sector: nat, count: nat, data: Bytes, pages: nat, k: nat, i: nat): bv8
    requires CanRewrite(sector, count, data, pages) && k <= count + pages && i < CHIP_SIZE
  {
    if k <= count then
      if 4096 * sector <= i < 4096 * (sector + k) then 0xFF else m[i]
    else if 4096 * sector <= i < 4096 * sector + 256 * (k - count) then data[i - 4096 * sector]
    else if 4096 * sector <= i < 4096 * (sector + count) then 0xFF
    else m[i]
  }

  lemma RewriteCut(m: Memory, sector: nat, count: nat, data: Bytes, pages: nat, k: nat, i: nat)
    requires CanRewrite(sector, count, data, pages) && k <= count + pages && i < CHIP_SIZE
    ensures ApplyAll(m, RewriteOps(sector, count, data, pages)[..k])[i] ==
            RewrittenByte(m, sector, count, data, pages, k, i)
  {
    hide ApplyAll, ProgramOps;
    var ops := RewriteOps(sector, count, data, pages);
    if k <= count {
      assert ops[..k] == EraseOps(sector, k);
      ErasedByte(m, sector, k, i);
    } else {
      var erase, program := EraseOps(sector, count), ProgramOps(16 * sector, data, pages)[..k - count];
      assert ops[..k] == erase + program;
      ApplyAllAppend(m, erase, program);
      ErasedByte(m, sector, count, i);
      ProgrammedBlank(ApplyAll(m, erase), 16 * sector, data, pages, k - count, i);
    }
  }

  /** Where the flash is blank, programming acts as assignment. */
  lemma ProgrammedBlank(m: Memory, page: nat, data: Bytes, pages: nat, k: nat, i: nat)
    requires |data| == 256 * pages && 256 * (page + pages) <= CHIP_SIZE && k <= pages && i < CHIP_SIZE
    requires 256 * page <= i < 256 * (page + k) ==> m[i] == 0xFF
    ensures ApplyAll(m, ProgramOps(page, data, pages)[..k])[i] ==
            if 256 * page <= i < 256 * (page + k) then data[i - 256 * page] else m[i]
  {
    hide ApplyAll, ProgramOps;
    ProgrammedByte(m, page, data, pages, k, i);
    if 256 * page <= i < 256 * (page + k) {
      AndOnes(m[i], data[i - 256 * page]);
    }
  }

  /** Byte i after a completed rewrite. */
  lemma RewriteDone(m: Memory, sector: nat, count: nat, data: Bytes, pages: nat, i: nat)
    requires CanRewrite(sector, count, data, pages) && i < CHIP_SIZE
    ensures ApplyAll(m, RewriteOps(sector, count, data, pages))[i] ==
            if 4096 * sector <= i < 4096 * sector + |data| then data[i - 4096 * sector]
            else if 4096 * sector <= i < 4096 * (sector + count) then 0xFF else m[i]
  {
    hide ApplyAll, RewriteOps;
    var ops := RewriteOps(sector, count, data, pages);
    RewriteCut(m, sector, count, data, pages, count + pages, i);
    assert ops[..count + pages] == ops;
  }

  // ---- Copying one range over another --------------------------------------------------------------

  ghost predicate CanCopy(sector: nat, count: nat, from: nat, pages: nat) {
    && 4096 * (sector + count) <= CHIP_SIZE && from + 256 * pages <= CHIP_SIZE && pages <= 16 * count
    && (from + 256 * pages <= 4096 * sector || 4096 * (sector + count) <= from)
  }

  /** Replace the sectors by pages read from elsewhere in the flash. */
  function CopyRangeOps(m: Memory, sector: nat, count: nat, from: nat, pages: nat): (ops: seq<FlashOp>)
    requires CanCopy(sector, count, from, pages)
    ensures |ops| == count + pages
  {
    RewriteOps(sector, count, m[from..from + 256 * pages], pages)
  }

  /** While the target is rewritten the source still holds what the copy started from. */
  lemma SourceIntact(m: Memory, sector: nat, count: nat, from: nat, pages: nat, k: nat, i: nat)
    requires CanCopy(sector, count, from, pages) && k <= count + pages && i < pages
    ensures
      var now, at := ApplyAll(m, CopyRangeOps(m, sector, count, from, pages)[..k]), from + 256 * i;
      now[at..at + 256] == PageOf(m[from..from + 256 * pages], i)
  {
    hide ApplyAll, RewriteOps;
    var data, at := m[from..from + 256 * pages], from + 256 * i;
    var now := ApplyAll(m, CopyRangeOps(m, sector, count, from, pages)[..k]);
    forall j | 0 <= j < 256
      ensures now[at..at + 256][j] == PageOf(data, i)[j]
    {
      RewriteCut(m, sector, count, data, pages, k, at + j);
      assert now[at + j] == m[at + j];
      assert PageOf(data, i)[j] == data[256 * i + j] == m[at + j];
    }
  }

  /** Operation number first + i programs page i of the target with page i of the source, read from the flash
      as it is by then. */
  ghost predicate CopiesPage(initial: Memory, before: seq<FlashOp>, ops: seq<FlashOp>, first: nat, page: nat,
                             from: nat, i: nat) {
    && first + i < |ops| && 256 * (page + i + 1) <= CHIP_SIZE && from + 256 * (i + 1) <= CHIP_SIZE
    && before + ops[..first + i + 1] ==
       before + ops[..first + i] +
       [Program(page + i, ApplyAll(initial, before + ops[..first + i])[from + 256 * i..from + 256 * i + 256])]
  }

  lemma CopyOpAt(m: Memory, sector: nat, count: nat, from: nat, pages: nat, i: nat)
    requires CanCopy(sector, count, from, pages) && i < pages
    ensures
      var ops, at := CopyRangeOps(m, sector, count, from, pages), from + 256 * i;
      ops[count + i] == Program(16 * sector + i, ApplyAll(m, ops[..count + i])[at..at + 256])
  {
    SourceIntact(m, sector, count, from, pages, count + i, i);
  }

  lemma CopiesPageInLog(initial: Memory, before: seq<FlashOp>, m: Memory, ops: seq<FlashOp>, first: nat,
                        page: nat, from: nat, i: nat)
    requires m == ApplyAll(initial, before) && first + i < |ops|
    requires 256 * (page + i + 1) <= CHIP_SIZE && from + 256 * (i + 1) <= CHIP_SIZE
    requires ops[first + i] ==
             Program(page + i, ApplyAll(m, ops[..first + i])[from + 256 * i..from + 256 * i + 256])
    ensures CopiesPage(initial, before, ops, first, page, from, i)
  {
    ApplyAllAppend(initial, before, ops[..first + i]);
    assert before + ops[..first + i + 1] == before + ops[..first + i] + [ops[first + i]];
  }

  lemma CopiesEachPage(initial: Memory, before: seq<FlashOp>, sector: nat, count: nat, from: nat, pages: nat, i: nat)
    requires CanCopy(sector, count, from, pages) && i < pages
    ensures CopiesPage(initial, before, CopyRangeOps(ApplyAll(initial, before), sector, count, from, pages),
                       count, 16 * sector, from, i)
  {
    var m := ApplyAll(initial, before);
    CopyOpAt(m, sector, count, from, pages, i);
    CopiesPageInLog(initial, before, m, CopyRangeOps(m, sector, count, from, pages), count, 16 * sector, from, i);
  }

  lemma CopiedByte(m: Memory, sector: nat, count: nat, from: nat, pages: nat, i: nat)
    requires CanCopy(sector, count, from, pages) && i < 256 * pages
    ensures ApplyAll(m, CopyRangeOps(m, sector, count, from, pages))[4096 * sector + i] == m[from + i]
  {
    hide ApplyAll, RewriteOps;
    RewriteDone(m, sector, count, m[from..from + 256 * pages], pages, 4096 * sector + i);
  }
}
