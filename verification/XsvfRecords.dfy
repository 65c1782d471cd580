/** The XSVF format: the records svf2xsvf.py writes, as bytes, and xsvfdump.py, which reads them back. */
module XsvfRecords {
  import opened Wrappers
  import opened BitVectors

  // The opcodes the writer uses.
  const XCOMPLETE: Octet := 0
  const XTDOMASK: Octet := 1
  const XSIR: Octet := 2
  const XSDR: Octet := 3
  const XREPEAT: Octet := 7
  const XSDRSIZE: Octet := 8
  const XSDRTDO: Octet := 9
  const XSTATE: Octet := 18
  const XENDIR: Octet := 19
  const XENDDR: Octet := 20
  const XSIR2: Octet := 21
  const XCOMMENT: Octet := 22
  const XWAITSTATE: Octet := 24
  const LCOUNT: Octet := 25
  const LDELAY: Octet := 26
  const LSDR: Octet := 27
  const XTRST: Octet := 28

  /** A record with its fields; those that are bit vectors are packed. */
  datatype Record =
    | Complete
    | TdoMask(mask: Octets)
    | Sir(length: int, tdi: Octets)
    | Sdr(tdi: Octets)
    | Repeat(times: int)
    | SdrSize(size: int)
    | SdrTdo(tdi: Octets, tdo: Octets)
    | GoTo(state: int)
    | EndIr(pause: int)
    | EndDr(pause: int)
    | Sir2(length: int, tdi: Octets)
    | Comment(text: Octets)
    | WaitState(runState: int, endState: int, clocks: int, usecs: int)
    | LoopCount(count: int)
    | LoopDelay(runState: int, clocks: int, usecs: int)
    | LoopSdr(tdi: Octets, tdo: Octets)
    | Trst(mode: int)

  // ---- Integers in bytes ---------------------------------------------------------------------------

  predicate IsByte(n: int) {
    0 <= n < 256
  }

  /** What ">i" can hold. */
  predicate IsInt(n: int) {
    -0x8000_0000 <= n < 0x8000_0000
  }

  /** struct.pack ">i": four bytes in two's complement, most significant first. */
  function PackInt(n: int): (bytes: Octets)
    requires IsInt(n)
    ensures |bytes| == 4
  {
    var u := n % 0x1_0000_0000;
    [u / 0x100_0000, u / 0x1_0000 % 256, u / 256 % 256, u % 256]
  }

  /** struct.unpack ">i". */
  function UnpackInt(bytes: Octets): int
    requires |bytes| == 4
  {
    var a: int, b: int, c: int, d: int := bytes[0], bytes[1], bytes[2], bytes[3];
    var u := 0x100_0000 * a + 0x1_0000 * b + 256 * c + d;
    if u < 0x8000_0000 then u else u - 0x1_0000_0000
  }

  lemma IntRoundTrip(n: int)
    requires IsInt(n)
    ensures UnpackInt(PackInt(n)) == n
  {
    var u := n % 0x1_0000_0000;
    assert u == if n < 0 then n + 0x1_0000_0000 else n;
    assert u / 0x1_0000 == 256 * (u / 0x100_0000) + u / 0x1_0000 % 256;
    assert u / 256 == 256 * (u / 0x1_0000) + u / 256 % 256;
  }

  /** Two's complement, most significant byte first. */
  lemma PackedNumber(n: int)
    requires IsInt(n)
    ensures BigEndian(PackInt(n)) == if n < 0 then n + 0x1_0000_0000 else n
  {
    var u := n % 0x1_0000_0000;
    var b := PackInt(n);
    assert u == if n < 0 then n + 0x1_0000_0000 else n;
    assert b[..3][..2] == b[..2] && b[..2][..1] == b[..1] && b[..1][..0] == [];
    assert u / 0x1_0000 == 256 * (u / 0x100_0000) + u / 0x1_0000 % 256;
    assert u / 256 == 256 * (u / 0x1_0000) + u / 256 % 256;
    assert BigEndian(b[..1]) == u / 0x100_0000;
    assert BigEndian(b[..2]) == u / 0x1_0000;
    assert BigEndian(b[..3]) == u / 256;
  }

  // ---- Records in bytes ----------------------------------------------------------------------------

  function Opcode(r: Record): Octet {
    match r
    case Complete => XCOMPLETE
    case TdoMask(_) => XTDOMASK
    case Sir(_, _) => XSIR
    case Sdr(_) => XSDR
    case Repeat(_) => XREPEAT
    case SdrSize(_) => XSDRSIZE
    case SdrTdo(_, _) => XSDRTDO
    case GoTo(_) => XSTATE
    case EndIr(_) => XENDIR
    case EndDr(_) => XENDDR
    case Sir2(_, _) => XSIR2
    case Comment(_) => XCOMMENT
    case WaitState(_, _, _, _) => XWAITSTATE
    case LoopCount(_) => LCOUNT
    case LoopDelay(_, _, _) => LDELAY
    case LoopSdr(_, _) => LSDR
    case Trst(_) => XTRST
  }

  /** The fields of a record fit the bytes they are given, and bit vectors have the length the decoder will expect
      when the last size sent is size. */
  predicate Framed(r: Record, size: int) {
    match r
    case Complete => true
    case TdoMask(mask) => |mask| == ByteCount(size)
    case Sir(length, tdi) => IsByte(length) && |tdi| == ByteCount(length)
    case Sdr(tdi) => |tdi| == ByteCount(size)
    case Repeat(times) => IsByte(times)
    case SdrSize(n) => IsInt(n)
    case SdrTdo(tdi, tdo) => |tdi| == |tdo| == ByteCount(size)
    case GoTo(state) => IsByte(state)
    case EndIr(pause) => IsByte(pause)
    case EndDr(pause) => IsByte(pause)
    case Sir2(length, tdi) => 0 <= length < 0x8000 && |tdi| == ByteCount(length)
    case Comment(text) => 0 !in text
    case WaitState(runState, endState, clocks, usecs) =>
      IsByte(runState) && IsByte(endState) && IsInt(clocks) && IsInt(usecs)
    case LoopCount(count) => IsInt(count)
    case LoopDelay(runState, clocks, usecs) => IsByte(runState) && IsInt(clocks) && IsInt(usecs)
    case LoopSdr(tdi, tdo) => |tdi| == |tdo| == ByteCount(size)
    case Trst(mode) => IsByte(mode)
  }

  /** What follows the opcode. ">h" is the last two bytes of ">i" as long as the length is not negative. */
  function Body(r: Record, size: int): Octets
    requires Framed(r, size)
  {
    match r
    case Complete => []
    case TdoMask(mask) => mask
    case Sir(length, tdi) => [length] + tdi
    case Sdr(tdi) => tdi
    case Repeat(times) => [times]
    case SdrSize(n) => PackInt(n)
    case SdrTdo(tdi, tdo) => tdi + tdo
    case GoTo(state) => [state]
    case EndIr(pause) => [pause]
    case EndDr(pause) => [pause]
    case Sir2(length, tdi) => [length / 256, length % 256] + tdi
    case Comment(text) => text + [0]
    case WaitState(runState, endState, clocks, usecs) => [runState] + ([endState] + (PackInt(clocks) + PackInt(usecs)))
    case LoopCount(count) => PackInt(count)
    case LoopDelay(runState, clocks, usecs) => [runState] + (PackInt(clocks) + PackInt(usecs))
    case LoopSdr(tdi, tdo) => tdi + tdo
    case Trst(mode) => [mode]
  }

  function Encode(r: Record, size: int): Octets
    requires Framed(r, size)
  {
    [Opcode(r)] + Body(r, size)
  }

  function SizeAfter(r: Record, size: int): int {
    if r.SdrSize? then r.size else size
  }

  function SizeAfterAll(records: seq<Record>, size: int): int {
    if records == [] then size else SizeAfterAll(records[1..], SizeAfter(records[0], size))
  }

  predicate AllFramed(records: seq<Record>, size: int) {
    records == [] || (Framed(records[0], size) && AllFramed(records[1..], SizeAfter(records[0], size)))
  }

  function EncodeAll(records: seq<Record>, size: int): Octets
    requires AllFramed(records, size)
  {
    if records == [] then []
    else Encode(records[0], size) + EncodeAll(records[1..], SizeAfter(records[0], size))
  }

  lemma {:induction false} EncodeAppend(a: seq<Record>, b: seq<Record>, size: int)
    requires AllFramed(a, size) && AllFramed(b, SizeAfterAll(a, size))
    ensures AllFramed(a + b, size)
    ensures EncodeAll(a + b, size) == EncodeAll(a, size) + EncodeAll(b, SizeAfterAll(a, size))
    ensures SizeAfterAll(a + b, size) == SizeAfterAll(b, SizeAfterAll(a, size))
  {
    hide Encode, Framed;
    if a == [] {
      assert a + b == b;
    } else {
      EncodeAppend(a[1..], b, SizeAfter(a[0], size));
      assert (a + b)[1..] == a[1..] + b && (a + b)[0] == a[0];
    }
  }

  // ---- The dumper ----------------------------------------------------------------------------------

  /** f.read(n) on what is left of the file: at most that many bytes, and all of them if n is -1. Less than that
      raises an exception. */
  function Front(rest: Octets, n: int): (front: Octets)
    requires n >= -1
  {
    if n < 0 || n > |rest| then rest else rest[..n]
  }

  function Behind(rest: Octets, n: int): (behind: Octets)
    requires n >= -1
    ensures |behind| <= |rest|
  {
    if n < 0 || n > |rest| then [] else rest[n..]
  }

  /** A byte, or -1 at the end of the file. */
  function ByteAt(rest: Octets): int {
    if rest == [] then -1 else rest[0]
  }

  /** What one opcode and what follows it come to: a record, an opcode that no writer uses, or an exception, which
      a file that ends too early raises, or a negative length. */
  datatype Shown = Shown(record: Record, rest: Octets, size: int) | Unknown | Raised

  function ShowBits(rest: Octets, length: int, record: Octets -> Record, size: int): Shown {
    if ByteCount(length) < -1 then Raised
    else Shown(record(Front(rest, ByteCount(length))), Behind(rest, ByteCount(length)), size)
  }

  function ShowTwoBits(rest: Octets, length: int, record: (Octets, Octets) -> Record, size: int): Shown {
    var n := ByteCount(length);
    if n < -1 then Raised
    else
      var next := Behind(rest, n);
      Shown(record(Front(rest, n), Front(next, n)), Behind(next, n), size)
  }

  function ShowByte(rest: Octets, record: int -> Record, size: int): Shown {
    Shown(record(ByteAt(rest)), Behind(rest, 1), size)
  }

  /** The two integers at the end of XWAITSTATE and LDELAY. */
  function ShowTimes(rest: Octets, record: (int, int) -> Record, size: int): Shown {
    if |rest| < 8 then Raised
    else Shown(record(UnpackInt(rest[..4]), UnpackInt(rest[4..][..4])), rest[4..][4..], size)
  }

  /** The characters up to a NUL; without one the loop runs into the end of the file and raises an exception. */
  function CommentText(rest: Octets): (text: Option<Octets>)
    ensures text.Some? ==> |text.value| < |rest|
  {
    if rest == [] then None
    else if rest[0] == 0 then Some([])
    else
      match CommentText(rest[1..])
      case None => None
      case Some(text) => Some([rest[0]] + text)
  }

  function ShowComment(rest: Octets, size: int): Shown {
    match CommentText(rest)
    case None => Raised
    case Some(text) => Shown(Comment(text), Behind(rest, |text| + 1), size)
  }

  function ShowSir2(rest: Octets, size: int): Shown {
    if |rest| < 2 then Raised
    else
      var high: int, low: int := rest[0], rest[1];
      var length := 256 * high + low;
      ShowBits(rest[2..], length, bits => Sir2(length, bits), size)
  }

  function ShowWaitState(rest: Octets, size: int): Shown {
    var next := Behind(rest, 1);
    ShowTimes(Behind(next, 1), (clocks, usecs) => WaitState(ByteAt(rest), ByteAt(next), clocks, usecs), size)
  }

  /** ShowOpcode, on what is left of the file behind the opcode. */
  function Show(op: Octet, rest: Octets, size: int): (shown: Shown)
    ensures shown.Shown? ==> |shown.rest| <= |rest|
  {
    if op == XCOMPLETE then Shown(Complete, rest, size)
    else if op == XTDOMASK then ShowBits(rest, size, bits => TdoMask(bits), size)
    else if op == XSIR then ShowBits(Behind(rest, 1), ByteAt(rest), bits => Sir(ByteAt(rest), bits), size)
    else if op == XSDR then ShowBits(rest, size, bits => Sdr(bits), size)
    else if op == XREPEAT then ShowByte(rest, n => Repeat(n), size)
    else if op == XSDRSIZE then
      if |rest| < 4 then Raised else Shown(SdrSize(UnpackInt(rest[..4])), rest[4..], UnpackInt(rest[..4]))
    else if op == XSDRTDO then ShowTwoBits(rest, size, (tdi, tdo) => SdrTdo(tdi, tdo), size)
    else if op == XSTATE then ShowByte(rest, n => GoTo(n), size)
    else if op == XENDIR then ShowByte(rest, n => EndIr(n), size)
    else if op == XENDDR then ShowByte(rest, n => EndDr(n), size)
    else if op == XSIR2 then ShowSir2(rest, size)
    else if op == XCOMMENT then ShowComment(rest, size)
    else if op == XWAITSTATE then ShowWaitState(rest, size)
    else if op == LCOUNT then
      if |rest| < 4 then Raised else Shown(LoopCount(UnpackInt(rest[..4])), rest[4..], size)
    else if op == LDELAY then
      ShowTimes(Behind(rest, 1), (clocks, usecs) => LoopDelay(ByteAt(rest), clocks, usecs), size)
    else if op == LSDR then ShowTwoBits(rest, size, (tdi, tdo) => LoopSdr(tdi, tdo), size)
    else if op == XTRST then ShowByte(rest, n => Trst(n), size)
    else Unknown
  }

  /** How a dump ends: at the end of the file, at an opcode the writer does not use, or in an exception. */
  datatype End = Finished | UnknownOpcode | Exception

  datatype Dumped = Dumped(records: seq<Record>, end: End)

  function DumpAll(data: Octets, size: int): Dumped
    decreases |data|
  {
    if data == [] then Dumped([], Finished)
    else
      match Show(data[0], data[1..], size)
      case Unknown => Dumped([], UnknownOpcode)
      case Raised => Dumped([], Exception)
      case Shown(record, rest, next) =>
        var later := DumpAll(rest, next);
        Dumped([record] + later.records, later.end)
  }

  /** xsvfdump.py itself: the open file, as the bytes not read yet, and Xsdrsize. */
  class Dumper {
    var rest: Octets
    var xsdrsize: int

    constructor (file: Octets)
      ensures rest == file && xsdrsize == 0
    {
      rest, xsdrsize := file, 0;
    }

    /** f.read(n). */
    method Read(n: int) returns (bytes: Octets)
      requires n >= -1
      modifies this`rest
      ensures bytes == Front(old(rest), n) && rest == Behind(old(rest), n)
    {
      bytes := Front(rest, n);
      rest := Behind(rest, n);
    }

    method ReadByte() returns (b: int)
      modifies this`rest
      ensures b == ByteAt(old(rest)) && rest == Behind(old(rest), 1)
    {
      var bytes := Read(1);
      b := if bytes == [] then -1 else bytes[0];
    }

    /** The bytes that bytes2hexString reads; BitVectors.BytesToHexString prints them. A length of less than -15 raises
        an exception. */
    method ReadBits(length: int) returns (bytes: Option<Octets>)
      modifies this`rest
      ensures length < -15 ==> bytes == None
      ensures length >= -15 ==>
                bytes == Some(Front(old(rest), ByteCount(length))) && rest == Behind(old(rest), ByteCount(length))
    {
      var byteCount := (length + 7) / 8;
      if byteCount < -1 {
        return None;
      }
      var bytebuf := Read(byteCount);
      bytes := Some(bytebuf);
    }

    /** struct.unpack of four bytes, which raises an exception when there are fewer. */
    method ReadInt() returns (n: Option<int>)
      modifies this`rest
      ensures |old(rest)| < 4 ==> n == None
      ensures |old(rest)| >= 4 ==> n == Some(UnpackInt(old(rest)[..4])) && rest == old(rest)[4..]
    {
      var bytes := Read(4);
      n := if |bytes| < 4 then None else Some(UnpackInt(bytes));
    }

    /** The two integers at the end of a record. */
    method ReadTimes() returns (times: Option<(int, int)>)
      modifies this`rest
      ensures |old(rest)| < 8 ==> times == None
      ensures |old(rest)| >= 8 ==>
                && times == Some((UnpackInt(old(rest)[..4]), UnpackInt(old(rest)[4..][..4])))
                && rest == old(rest)[4..][4..]
    {
      var clocks := ReadInt();
      if clocks.None? {
        return None;
      }
      var usecs := ReadInt();
      if usecs.None? {
        return None;
      }
      times := Some((clocks.value, usecs.value));
    }

    /** The loop that collects a comment; chr(-1) at the end of the file raises an exception. */
    method ReadComment() returns (text: Option<Octets>)
      modifies this`rest
      ensures text == CommentText(old(rest))
      ensures text.Some? ==> rest == Behind(old(rest), |text.value| + 1)
    {
      var cmt: Octets := [];
      var b := ReadByte();
      while b != 0 && b != -1
        invariant -1 <= b < 256
        invariant cmt <= old(rest) && 0 !in cmt
        invariant b == ByteAt(old(rest)[|cmt|..]) && rest == Behind(old(rest)[|cmt|..], 1)
        decreases |rest|, b != -1
      {
        cmt := cmt + [b];
        b := ReadByte();
      }
      CommentFound(old(rest), cmt);
      text := if b == 0 then Some(cmt) else None;
    }

    /** ShowOpcode, for the opcodes the writer uses. */
    method ShowOpcode(op: Octet) returns (result: Result)
      modifies this
      ensures match Show(op, old(rest), old(xsdrsize))
              case Unknown => result == Refused
              case Raised => result == Failed
              case Shown(record, behind, size) => result == Printed(record) && rest == behind && xsdrsize == size
    {
      hide UnpackInt, CommentText;
      result := Refused;
      if op == XCOMPLETE {
        result := Printed(Complete);
      } else if op == XTDOMASK {
        var mask := ReadBits(xsdrsize);
        if mask.None? {
          return Failed;
        }
        result := Printed(TdoMask(mask.value));
      } else if op == XSIR {
        var length := ReadByte();
        var tdi := ReadBits(length);
        result := Printed(Sir(length, tdi.value));
      } else if op == XSDR {
        var tdi := ReadBits(xsdrsize);
        if tdi.None? {
          return Failed;
        }
        result := Printed(Sdr(tdi.value));
      } else if op == XREPEAT {
        var times := ReadByte();
        result := Printed(Repeat(times));
      } else if op == XSDRSIZE {
        var size := ReadInt();
        if size.None? {
          return Failed;
        }
        xsdrsize := size.value;
        result := Printed(SdrSize(xsdrsize));
      } else if op == XSDRTDO || op == LSDR {
        var tdi := ReadBits(xsdrsize);
        if tdi.None? {
          return Failed;
        }
        var tdo := ReadBits(xsdrsize);
        result := Printed(if op == LSDR then LoopSdr(tdi.value, tdo.value) else SdrTdo(tdi.value, tdo.value));
      } else if op == XSTATE {
        var b := ReadByte();
        result := Printed(GoTo(b));
      } else if op == XENDIR || op == XENDDR {
        var b := ReadByte();
        result := Printed(if op == XENDIR then EndIr(b) else EndDr(b));
      } else if op == XTRST {
        var mode := ReadByte();
        result := Printed(Trst(mode));
      } else if op == XSIR2 {
        result := ShowLongSir();
      } else if op == XCOMMENT {
        var text := ReadComment();
        if text.None? {
          return Failed;
        }
        result := Printed(Comment(text.value));
      } else if op == XWAITSTATE {
        var runState := ReadByte();
        var endState := ReadByte();
        var times := ReadTimes();
        if times.None? {
          return Failed;
        }
        result := Printed(WaitState(runState, endState, times.value.0, times.value.1));
      } else if op == LDELAY {
        var runState := ReadByte();
        var times := ReadTimes();
        if times.None? {
          return Failed;
        }
        result := Printed(LoopDelay(runState, times.value.0, times.value.1));
      } else if op == LCOUNT {
        var count := ReadInt();
        if count.None? {
          return Failed;
        }
        result := Printed(LoopCount(count.value));
      }
    }

    method ShowLongSir() returns (result: Result)
      modifies this`rest
      ensures match ShowSir2(old(rest), xsdrsize)
              case Unknown => false
              case Raised => result == Failed
              case Shown(record, behind, size) => result == Printed(record) && rest == behind && xsdrsize == size
    {
      hide ByteCount;
      var bytes := Read(2);
      if |bytes| < 2 {
        return Failed;
      }
      var high: int, low: int := bytes[0], bytes[1];
      var length := 256 * high + low;
      CountOfLength(length);
      var tdi := ReadBits(length);
      result := Printed(Sir2(length, tdi.value));
    }

    /** main: opcode by opcode to the end of the file. */
    method Dump() returns (records: seq<Record>, end: End)
      modifies this
      ensures Dumped(records, end) == DumpAll(old(rest), old(xsdrsize))
    {
      records := [];
      var opcode := ReadByte();
      while opcode != -1
        invariant -1 <= opcode < 256 && (opcode == -1 ==> rest == [])
        invariant
          var now := DumpAll(if opcode == -1 then [] else [opcode] + rest, xsdrsize);
          DumpAll(old(rest), old(xsdrsize)) == Dumped(records + now.records, now.end)
        decreases |rest|, opcode != -1
      {
        ghost var data, size := [opcode] + rest, xsdrsize;
        assert data[1..] == rest;
        var result := ShowOpcode(opcode);
        if result == Refused {
          return records, UnknownOpcode;
        } else if result == Failed {
          return records, Exception;
        }
        records := records + [result.record];
        opcode := ReadByte();
      }
      return records, Finished;
    }
  }

  lemma CountOfLength(length: int)
    requires length >= 0
    ensures ByteCount(length) >= 0
  {}

  datatype Result = Printed(record: Record) | Refused | Failed

  /** The first bytes of a file have been collected for a comment, and the next is a NUL or there is none. */
  lemma {:induction false} CommentFound(rest: Octets, cmt: Octets)
    requires cmt <= rest && 0 !in cmt && ByteAt(rest[|cmt|..]) <= 0
    ensures CommentText(rest) == if |cmt| < |rest| then Some(cmt) else None
    decreases |cmt|
  {
    if cmt != [] {
      assert cmt[0] in cmt && rest[1..][|cmt| - 1..] == rest[|cmt|..];
      CommentFound(rest[1..], cmt[1..]);
      assert cmt == [cmt[0]] + cmt[1..];
    }
  }

  /** What a file that ends in the middle of a record comes to. Integers and comments raise an exception; a bit vector
      is what is left of the file. */
  lemma CutRecord(op: Octet, rest: Octets, size: int)
    ensures op in {8, 25} && |rest| < 4 ==> Show(op, rest, size) == Raised
    ensures op == 21 && |rest| < 2 ==> Show(op, rest, size) == Raised
    ensures op == 24 && |rest| < 10 ==> Show(op, rest, size) == Raised
    ensures op == 26 && |rest| < 9 ==> Show(op, rest, size) == Raised
    ensures op == 22 && 0 !in rest ==> Show(op, rest, size) == Raised
    ensures op == 3 && |rest| < (size + 7) / 8 ==> Show(op, rest, size) == Shown(Sdr(rest), [], size)
    ensures op in {1, 3, 9, 27} && size < -15 ==> Show(op, rest, size) == Raised
    ensures op in {5, 6} || op > 28 ==> Show(op, rest, size) == Unknown
  {
    if op == 22 && 0 !in rest {
      NoNul(rest);
    }
  }

  lemma {:induction false} NoNul(rest: Octets)
    requires 0 !in rest
    ensures CommentText(rest) == None
    decreases |rest|
  {
    if rest != [] {
      assert rest[0] in rest && 0 !in rest[1..];
      NoNul(rest[1..]);
    }
  }

  // ---- The round trip ------------------------------------------------------------------------------

  lemma FrontOf(a: Octets, tail: Octets, n: nat)
    requires n == |a|
    ensures Front(a + tail, n) == a && Behind(a + tail, n) == tail
  {}

  lemma OneByte(b: Octet, tail: Octets)
    ensures ByteAt([b] + tail) == b && Behind([b] + tail, 1) == tail
  {}

  lemma TwoBits(a: Octets, b: Octets, tail: Octets, size: int, record: (Octets, Octets) -> Record)
    requires |a| == |b| == ByteCount(size)
    ensures ShowTwoBits((a + b) + tail, size, record, size) == Shown(record(a, b), tail, size)
  {
    assert (a + b) + tail == a + (b + tail);
    FrontOf(a, b + tail, ByteCount(size));
    FrontOf(b, tail, ByteCount(size));
  }

  lemma Times(clocks: int, usecs: int, tail: Octets, size: int, record: (int, int) -> Record)
    requires IsInt(clocks) && IsInt(usecs)
    ensures ShowTimes((PackInt(clocks) + PackInt(usecs)) + tail, record, size)
            == Shown(record(clocks, usecs), tail, size)
  {
    hide PackInt, UnpackInt;
    var a, b := PackInt(clocks), PackInt(usecs);
    assert (a + b) + tail == a + (b + tail);
    FrontOf(a, b + tail, 4);
    FrontOf(b, tail, 4);
    IntRoundTrip(clocks);
    IntRoundTrip(usecs);
  }

  lemma {:induction false} CommentRoundTrip(text: Octets, tail: Octets)
    requires 0 !in text
    ensures CommentText((text + [0]) + tail) == Some(text)
    decreases |text|
  {
    var all := (text + [0]) + tail;
    if text != [] {
      assert text[0] in text;
      assert all[0] == text[0] && all[1..] == (text[1..] + [0]) + tail;
      CommentRoundTrip(text[1..], tail);
      assert text == [text[0]] + text[1..];
    }
  }

  lemma Prepend(b: Octet, body: Octets, tail: Octets)
    ensures ([b] + body) + tail == [b] + (body + tail)
  {}

  lemma IntRecord(n: int, tail: Octets)
    requires IsInt(n)
    ensures
      var rest := PackInt(n) + tail;
      |rest| >= 4 && UnpackInt(rest[..4]) == n && rest[4..] == tail
  {
    hide PackInt, UnpackInt;
    FrontOf(PackInt(n), tail, 4);
    IntRoundTrip(n);
  }

  /** A record that the decoder expects reads back as itself, and leaves what follows it unread. */
  lemma RecordRoundTrip(r: Record, size: int, tail: Octets)
    requires Framed(r, size)
    ensures Show(Opcode(r), Body(r, size) + tail, size) == Shown(r, tail, SizeAfter(r, size))
  {
    hide Show, Framed, Body, SizeAfter, Opcode;
    if r.TdoMask? || r.Sir? || r.Sdr? || r.Sir2? {
      VectorRoundTrip(r, size, tail);
    } else if r.SdrTdo? || r.LoopSdr? {
      TwoVectorsRoundTrip(r, size, tail);
    } else if r.Complete? || r.Repeat? || r.GoTo? || r.EndIr? || r.EndDr? || r.Trst? {
      ByteRoundTrip(r, size, tail);
    } else {
      LongRoundTrip(r, size, tail);
    }
  }

  /** Records that carry one bit vector. */
  lemma VectorRoundTrip(r: Record, size: int, tail: Octets)
    requires Framed(r, size) && (r.TdoMask? || r.Sdr? || r.Sir? || r.Sir2?)
    ensures Show(Opcode(r), Body(r, size) + tail, size) == Shown(r, tail, SizeAfter(r, size))
  {
    hide ShowTwoBits, ShowTimes, ShowWaitState, ShowComment, ShowByte, ShowSir2;
    match r {
      case TdoMask(mask) => FrontOf(mask, tail, ByteCount(size));
      case Sdr(tdi) => FrontOf(tdi, tail, ByteCount(size));
      case Sir(length, tdi) =>
        Prepend(length, tdi, tail);
        OneByte(length, tdi + tail);
        FrontOf(tdi, tail, ByteCount(length));
      case Sir2(length, tdi) => Sir2RoundTrip(length, tdi, tail, size);
    }
  }

  /** Records that carry two. */
  lemma TwoVectorsRoundTrip(r: Record, size: int, tail: Octets)
    requires Framed(r, size) && (r.SdrTdo? || r.LoopSdr?)
    ensures Show(Opcode(r), Body(r, size) + tail, size) == Shown(r, tail, SizeAfter(r, size))
  {
    hide ShowBits, ShowTwoBits, ShowTimes, ShowWaitState, ShowComment, ShowByte, ShowSir2;
    match r {
      case SdrTdo(tdi, tdo) => TwoBits(tdi, tdo, tail, size, (tdi, tdo) => SdrTdo(tdi, tdo));
      case LoopSdr(tdi, tdo) => TwoBits(tdi, tdo, tail, size, (tdi, tdo) => LoopSdr(tdi, tdo));
    }
  }

  /** Records of at most one byte. */
  lemma ByteRoundTrip(r: Record, size: int, tail: Octets)
    requires Framed(r, size) && (r.Complete? || r.Repeat? || r.GoTo? || r.EndIr? || r.EndDr? || r.Trst?)
    ensures Show(Opcode(r), Body(r, size) + tail, size) == Shown(r, tail, SizeAfter(r, size))
  {
    hide ShowBits, ShowTwoBits, ShowTimes, ShowWaitState, ShowComment, ShowSir2;
    match r {
      case Complete => assert [] + tail == tail;
      case Repeat(times) => OneByte(times, tail);
      case GoTo(state) => OneByte(state, tail);
      case EndIr(pause) => OneByte(pause, tail);
      case EndDr(pause) => OneByte(pause, tail);
      case Trst(mode) => OneByte(mode, tail);
    }
  }

  /** Records with integers or text. */
  lemma LongRoundTrip(r: Record, size: int, tail: Octets)
    requires Framed(r, size) && (r.SdrSize? || r.Comment? || r.WaitState? || r.LoopCount? || r.LoopDelay?)
    ensures Show(Opcode(r), Body(r, size) + tail, size) == Shown(r, tail, SizeAfter(r, size))
  {
    hide PackInt, UnpackInt, ShowBits, ShowTwoBits, ShowTimes, ShowWaitState, ShowByte, ShowSir2, CommentText;
    match r {
      case SdrSize(n) => IntRecord(n, tail);
      case Comment(text) =>
        CommentRoundTrip(text, tail);
        FrontOf(text + [0], tail, |text| + 1);
      case WaitState(runState, endState, clocks, usecs) =>
        WaitStateRoundTrip(runState, endState, clocks, usecs, tail, size);
      case LoopCount(count) => IntRecord(count, tail);
      case LoopDelay(runState, clocks, usecs) =>
        var times := PackInt(clocks) + PackInt(usecs);
        Prepend(runState, times, tail);
        OneByte(runState, times + tail);
        Times(clocks, usecs, tail, size, (clocks, usecs) => LoopDelay(runState, clocks, usecs));
    }
  }

  lemma Sir2RoundTrip(length: int, tdi: Octets, tail: Octets, size: int)
    requires 0 <= length < 0x8000 && |tdi| == ByteCount(length)
    ensures ShowSir2(([length / 256, length % 256] + tdi) + tail, size) == Shown(Sir2(length, tdi), tail, size)
  {
    var rest := ([length / 256, length % 256] + tdi) + tail;
    assert rest[0] == length / 256 && rest[1] == length % 256 && rest[2..] == tdi + tail;
    FrontOf(tdi, tail, ByteCount(length));
  }

  lemma WaitStateRoundTrip(runState: int, endState: int, clocks: int, usecs: int, tail: Octets, size: int)
    requires IsByte(runState) && IsByte(endState) && IsInt(clocks) && IsInt(usecs)
    ensures ShowWaitState(([runState] + ([endState] + (PackInt(clocks) + PackInt(usecs)))) + tail, size)
            == Shown(WaitState(runState, endState, clocks, usecs), tail, size)
  {
    hide PackInt, UnpackInt, ShowTimes;
    var times := PackInt(clocks) + PackInt(usecs);
    Prepend(runState, [endState] + times, tail);
    Prepend(endState, times, tail);
    OneByte(runState, ([endState] + times) + tail);
    OneByte(endState, times + tail);
    Times(clocks, usecs, tail, size, (clocks, usecs) => WaitState(runState, endState, clocks, usecs));
  }

  /** The dumper takes whatever the writer puts together apart again, and goes on with what follows it. */
  lemma {:induction false} DumpContinues(records: seq<Record>, size: int, tail: Octets)
    requires AllFramed(records, size)
    ensures
      var later := DumpAll(tail, SizeAfterAll(records, size));
      DumpAll(EncodeAll(records, size) + tail, size) == Dumped(records + later.records, later.end)
    decreases |records|
  {
    hide Show, Body, Framed, DumpAll;
    if records == [] {
      assert EncodeAll(records, size) + tail == tail;
      assert [] + DumpAll(tail, size).records == DumpAll(tail, size).records;
    } else {
      var r, next := records[0], SizeAfter(records[0], size);
      var more := EncodeAll(records[1..], next);
      var later := DumpAll(tail, SizeAfterAll(records, size));
      DumpContinues(records[1..], next, tail);
      DumpOne(r, size, more + tail);
      Regroup([Opcode(r)] + Body(r, size), more, tail);
      Regroup([Opcode(r)], Body(r, size), more + tail);
      Regroup([r], records[1..], later.records);
      assert records == [r] + records[1..];
    }
  }

  lemma DumpOne(r: Record, size: int, rest: Octets)
    requires Framed(r, size)
    ensures
      var later := DumpAll(rest, SizeAfter(r, size));
      DumpAll([Opcode(r)] + (Body(r, size) + rest), size) == Dumped([r] + later.records, later.end)
  {
    hide Show, Body, Framed;
    var data := [Opcode(r)] + (Body(r, size) + rest);
    assert data[1..] == Body(r, size) + rest;
    RecordRoundTrip(r, size, rest);
  }

  /** It consumes every byte of what the writer puts together, meets no unknown opcode, and finds exactly the records
      that were written. */
  lemma FramingRoundTrip(records: seq<Record>, size: int)
    requires AllFramed(records, size)
    ensures DumpAll(EncodeAll(records, size), size) == Dumped(records, Finished)
  {
    DumpContinues(records, size, []);
    assert EncodeAll(records, size) + [] == EncodeAll(records, size);
  }

  /** Behind such records, a record that is cut short or an opcode that is not known ends the dump, each in its own way;
      the records before it have been shown. */
  lemma DumpStops(records: seq<Record>, size: int, op: Octet, rest: Octets)
    requires AllFramed(records, size)
    ensures op in {5, 6} || op > 28 ==>
              DumpAll(EncodeAll(records, size) + ([op] + rest), size) == Dumped(records, UnknownOpcode)
    ensures (op in {8, 25} && |rest| < 4) || (op == 21 && |rest| < 2) || (op == 24 && |rest| < 10)
            || (op == 26 && |rest| < 9) || (op == 22 && 0 !in rest) ==>
              DumpAll(EncodeAll(records, size) + ([op] + rest), size) == Dumped(records, Exception)
  {
    hide Show, Framed, EncodeAll;
    DumpContinues(records, size, [op] + rest);
    CutRecord(op, rest, SizeAfterAll(records, size));
    assert ([op] + rest)[1..] == rest;
  }

  /** Different record sequences have different files. */
  lemma EncodingInjective(a: seq<Record>, b: seq<Record>, size: int)
    requires AllFramed(a, size) && AllFramed(b, size) && EncodeAll(a, size) == EncodeAll(b, size)
    ensures a == b
  {
    FramingRoundTrip(a, size);
    FramingRoundTrip(b, size);
  }
}
