/** svf2xsvf.py: the statements of an SVF file as the parser delivers them, and what each of them means. */
module SvfStatements {
  import opened Wrappers
  import opened BitVectors
  import opened XsvfRecords
  import opened SvfVectors
  import opened SvfCompiler

  /** The shift commands; LSDR works on the vectors of SDR. */
  datatype ShiftOp = OpSDR | OpSIR | OpLSDR | OpHDR | OpHIR | OpTDR | OpTIR

  /** The states RUNTEST and LDELAY accept. */
  datatype Stable = Reset | Idle | DrPause | IrPause {
    /** Its place among the sixteen TAP states. */
    function Code(): int {
      match this
      case Reset => 0
      case Idle => 1
      case DrPause => 6
      case IrPause => 13
    }
  }

  /** Any of the sixteen TAP states, by its place. */
  type TapState = n: nat | n < 16

  datatype TrstMode = On | Off | Z | Absent {
    function Code(): int {
      match this
      case On => 0
      case Off => 1
      case Z => 2
      case Absent => 3
    }

    function Name(): string {
      match this
      case On => "ON"
      case Off => "OFF"
      case Z => "Z"
      case Absent => "ABSENT"
    }
  }

  /** A statement. Times are in microseconds; what an unmentioned time or count defaults to is 0. */
  datatype Statement =
    | ShiftCommand(op: ShiftOp, length: nat, given: seq<Given>)
    | RunTest(runState: Option<Stable>, runCount: int, minTime: int, endState: Option<Stable>)
    | Delay(runState: Option<Stable>, runCount: int, minTime: int, endState: Option<Stable>)
    | LoopCommand(count: int)
    | EndDrCommand(pause: bool)
    | EndIrCommand(pause: bool)
    | StateCommand(states: seq<TapState>)
    | Frequency
    | TrstCommand(mode: TrstMode)

  datatype Line = Line(number: nat, statement: Statement)

  /** What the compiler remembers between statements, apart from what it has sent. */
  datatype Svf = Svf(hir: Vectors, hdr: Vectors, tir: Vectors, tdr: Vectors, sir: Vectors, sdr: Vectors,
                     runState: Option<Stable>, endState: Option<Stable>)

  const START := Svf(EMPTY, EMPTY, EMPTY, EMPTY, EMPTY, EMPTY, None, None)

  // ---- Comments ------------------------------------------------------------------------------------

  function Decimal(n: nat): (s: string)
    ensures forall i :: 0 <= i < |s| ==> '0' <= s[i] <= '9'
  {
    if n < 10 then ['0' + n as char] else Decimal(n / 10) + ['0' + (n % 10) as char]
  }

  /** What encode makes of plain ASCII text. */
  predicate IsAscii(s: string) {
    forall i :: 0 <= i < |s| ==> 0 < s[i] as int < 128
  }

  function Ascii(s: string): (bytes: Octets)
    requires IsAscii(s)
    ensures 0 !in bytes
  {
    seq(|s|, i requires 0 <= i < |s| => s[i] as int)
  }

  function Remark(text: string, number: nat): (e: Event)
    requires IsAscii(text)
    ensures Good(e)
  {
    Other(Comment(Ascii(text + " @" + Decimal(number))))
  }

  // ---- Vectors -------------------------------------------------------------------------------------

  /** combineBitVectors: the header is sent first and comes last. */
  function Combine(trailer: Bits, meat: Bits, header: Bits): (bits: Bits)
    ensures |bits| == |trailer| + |meat| + |header|
  {
    trailer + (meat + header)
  }

  /** The header is in the least significant bits, the trailer in the most significant. */
  lemma CombinedValue(trailer: Bits, meat: Bits, header: Bits)
    ensures ValueOf(Combine(trailer, meat, header)) ==
            (ValueOf(trailer) * Pow2(|meat|) + ValueOf(meat)) * Pow2(|header|) + ValueOf(header)
  {
    hide ValueOf, Pow2;
    assert Combine(trailer, meat, header) == (trailer + meat) + header;
    ValueAppend(trailer + meat, header);
    ValueAppend(trailer, meat);
  }

  function SetOf(s: Svf, op: ShiftOp): Vectors {
    match op
    case OpSDR => s.sdr
    case OpSIR => s.sir
    case OpLSDR => s.sdr
    case OpHDR => s.hdr
    case OpHIR => s.hir
    case OpTDR => s.tdr
    case OpTIR => s.tir
  }

  function NameOf(op: ShiftOp): Name {
    match op
    case OpSDR => SDR
    case OpSIR => SIR
    case OpLSDR => SDR
    case OpHDR => HDR
    case OpHIR => HIR
    case OpTDR => TDR
    case OpTIR => TIR
  }

  function WithSet(s: Svf, op: ShiftOp, v: Vectors): Svf {
    match op
    case OpSDR => s.(sdr := v)
    case OpSIR => s.(sir := v)
    case OpLSDR => s.(sdr := v)
    case OpHDR => s.(hdr := v)
    case OpHIR => s.(hir := v)
    case OpTDR => s.(tdr := v)
    case OpTIR => s.(tir := v)
  }

  // ---- Meanings ------------------------------------------------------------------------------------

  /** What a statement comes to. When it is not ok the compiler stops after these events. */
  datatype Turn = Turn(svf: Svf, events: seq<Event>, ok: bool)

  function DrMask(s: Svf, checked: bool): Bits {
    Combine(s.tdr.mask, if checked then s.sdr.mask else Constant(s.sdr.size, false), s.hdr.mask)
  }

  function DrTdi(s: Svf): Bits {
    Combine(s.tdr.tdi, s.sdr.tdi, s.hdr.tdi)
  }

  function DrTdo(s: Svf): Bits {
    Combine(s.tdr.tdo, s.sdr.tdo, s.hdr.tdo)
  }

  function IrTdi(s: Svf): Bits {
    Combine(s.tir.tdi, s.sir.tdi, s.hir.tdi)
  }

  /** A data shift without TDO compares nothing of what comes out of the device itself. */
  function DrEvent(s: Svf, op: ShiftOp, sawTdo: bool): Event {
    if op == OpLSDR then DrShift(Looped, DrMask(s, true), DrTdi(s), DrTdo(s))
    else if sawTdo then DrShift(Checked, DrMask(s, true), DrTdi(s), DrTdo(s))
    else DrShift(Plain, DrMask(s, false), DrTdi(s), [])
  }

  function SirRecord(tdi: Bits): Record {
    if |tdi| > 255 then Sir2(|tdi|, Pack(tdi)) else Sir(|tdi|, Pack(tdi))
  }

  function SirMeaning(s: Svf, number: nat): Turn {
    var remark, r := Remark("SIR", number), SirRecord(IrTdi(s));
    if Framed(r, 0) then Turn(s, [remark, Other(r)], true) else Turn(s, [remark], false)
  }

  /** The events of a shift once its vectors are in place; header and trailer commands only set vectors. */
  function Shifting(s: Svf, op: ShiftOp, sawTdo: bool, number: nat): Turn {
    match op
    case OpSIR => SirMeaning(s, number)
    case OpSDR => Turn(s, [Remark("SDR", number), DrEvent(s, op, sawTdo)], true)
    case OpLSDR => Turn(s, [Remark("LSDR", number), DrEvent(s, op, sawTdo)], true)
    case _ => Turn(s, [], true)
  }

  /** The states named in a RUNTEST or LDELAY stay in force for those that name none; a run state is also the end
      state unless another is given. */
  function WithStates(s: Svf, runState: Option<Stable>, endState: Option<Stable>): Svf {
    var t := if runState.Some? then s.(runState := runState, endState := runState) else s;
    if endState.Some? then t.(endState := endState) else t
  }

  function TimesName(delay: bool): (name: string)
    ensures IsAscii(name)
  {
    if delay then "LDELAY" else "RUNTEST"
  }

  function TimesRecord(delay: bool, run: int, end: int, runCount: int, minTime: int): Record {
    if delay then LoopDelay(run, runCount, minTime) else WaitState(run, end, runCount, minTime)
  }

  function RunTestMeaning(s: Svf, runState: Option<Stable>, runCount: int, minTime: int, endState: Option<Stable>,
                          delay: bool, number: nat): Turn
  {
    var t := WithStates(s, runState, endState);
    if t.runState.None? || t.endState.None? then Turn(t, [], false)
    else
      var remark := Remark(TimesName(delay), number);
      var run, end := t.runState.value.Code(), t.endState.value.Code();
      var r := TimesRecord(delay, run, end, runCount, minTime);
      if Framed(r, 0) then Turn(t, [remark, Other(r)], true) else Turn(t, [remark], false)
  }

  function StateEvents(states: seq<TapState>): (events: seq<Event>)
    ensures |events| == |states| && AllGood(events)
  {
    seq(|states|, i requires 0 <= i < |states| => Other(GoTo(states[i])))
  }

  function Meaning(s: Svf, line: Line): Turn {
    var number := line.number;
    match line.statement
    case ShiftCommand(op, length, given) =>
      (match Shifted(SetOf(s, op), NameOf(op), given, length)
       case None => Turn(s, [], false)
       case Some(v) => Shifting(WithSet(s, op, v), op, Saw(given, Tdo), number))
    case RunTest(runState, runCount, minTime, endState) =>
      RunTestMeaning(s, runState, runCount, minTime, endState, false, number)
    case Delay(runState, runCount, minTime, endState) =>
      RunTestMeaning(s, runState, runCount, minTime, endState, true, number)
    case LoopCommand(count) =>
      var remark := Remark("LCOUNT", number);
      if IsInt(count) then Turn(s, [remark, Other(LoopCount(count))], true) else Turn(s, [remark], false)
    case EndDrCommand(pause) => Turn(s, [Remark("ENDDR", number), Other(EndDr(if pause then 1 else 0))], true)
    case EndIrCommand(pause) => Turn(s, [Remark("ENDIR", number), Other(EndIr(if pause then 1 else 0))], true)
    case StateCommand(states) =>
      Turn(s, if states == [] then [] else [Remark("STATE", number)] + StateEvents(states), true)
    case Frequency => Turn(s, [], true)
    case TrstCommand(mode) => Turn(s, [Remark("TRST " + mode.Name(), number), Other(Trst(mode.Code()))], true)
  }

  /** Statement by statement, up to the first that stops the compiler. */
  function Meanings(s: Svf, lines: seq<Line>): seq<Event>
    decreases |lines|
  {
    if lines == [] then []
    else
      var t := Meaning(s, lines[0]);
      t.events + if t.ok then Meanings(t.svf, lines[1..]) else []
  }

  /** A whole file: it starts with XREPEAT 0 and ends with XCOMPLETE, however it goes in between. */
  function Program(lines: seq<Line>): seq<Event> {
    [Other(Repeat(0))] + (Meanings(START, lines) + [Other(Complete)])
  }

  // ---- The invariant -------------------------------------------------------------------------------

  /** Shift lengths for which three vectors together still have a size that ">i" can hold. */
  const MAX_LENGTH := 0x2000_0000

  predicate Fits(line: Line) {
    line.statement.ShiftCommand? ==> line.statement.length < MAX_LENGTH
  }

  predicate AllFit(lines: seq<Line>) {
    forall i :: 0 <= i < |lines| ==> Fits(lines[i])
  }

  predicate Sound(v: Vectors) {
    v.Even() && v.size < MAX_LENGTH
  }

  predicate Inv(s: Svf) {
    && Sound(s.hir) && Sound(s.hdr) && Sound(s.tir) && Sound(s.tdr) && Sound(s.sir) && Sound(s.sdr)
    && (s.runState.Some? ==> s.endState.Some?)
  }

  lemma ShiftKeeps(s: Svf, op: ShiftOp, given: seq<Given>, length: nat)
    requires Inv(s) && length < MAX_LENGTH && Shifted(SetOf(s, op), NameOf(op), given, length).Some?
    ensures Inv(WithSet(s, op, Shifted(SetOf(s, op), NameOf(op), given, length).value))
  {
    hide Shifted;
    ShiftMeaning(SetOf(s, op), NameOf(op), given, length, Tdi);
  }

  /** The vectors combined for a shift all have the same length, so its event is one that can be sent. */
  lemma DrEventGood(s: Svf, op: ShiftOp, sawTdo: bool)
    requires Inv(s)
    ensures Good(DrEvent(s, op, sawTdo))
  {}

  /** What a data shift sends, in terms of the statement: each vector is the one the statement gives for its part,
      or the one in force, between the vectors of the trailer and of the header. */
  lemma SdrMeaning(s: Svf, line: Line)
    requires Inv(s) && Meaning(s, line).ok
    requires line.statement.ShiftCommand? && line.statement.op == OpSDR
    ensures
      var length, given := line.statement.length, line.statement.given;
      && (forall i :: 0 <= i < |given| ==> length <= 4 * |given[i].hex|)
      && var checked := Saw(given, Tdo);
         var mask := if checked then Intended(s.sdr, SDR, given, length, Mask) else Constant(length, false);
         Meaning(s, line).events ==
         [Remark("SDR", line.number),
          DrShift(if checked then Checked else Plain,
                  Combine(s.tdr.mask, mask, s.hdr.mask),
                  Combine(s.tdr.tdi, Intended(s.sdr, SDR, given, length, Tdi), s.hdr.tdi),
                  if checked then Combine(s.tdr.tdo, Intended(s.sdr, SDR, given, length, Tdo), s.hdr.tdo) else [])]
  {
    hide Shifted, Intended, Remark, Combine;
    var length, given := line.statement.length, line.statement.given;
    ShiftMeaning(s.sdr, SDR, given, length, Mask);
    ShiftMeaning(s.sdr, SDR, given, length, Tdi);
    ShiftMeaning(s.sdr, SDR, given, length, Tdo);
  }

  /** What LSDR sends: always masked and compared, also when the statement gives no TDO. */
  lemma LsdrMeaning(s: Svf, line: Line)
    requires Inv(s) && Meaning(s, line).ok
    requires line.statement.ShiftCommand? && line.statement.op == OpLSDR
    ensures
      var length, given := line.statement.length, line.statement.given;
      && (forall i :: 0 <= i < |given| ==> length <= 4 * |given[i].hex|)
      && Meaning(s, line).events ==
         [Remark("LSDR", line.number),
          DrShift(Looped, Combine(s.tdr.mask, Intended(s.sdr, SDR, given, length, Mask), s.hdr.mask),
                  Combine(s.tdr.tdi, Intended(s.sdr, SDR, given, length, Tdi), s.hdr.tdi),
                  Combine(s.tdr.tdo, Intended(s.sdr, SDR, given, length, Tdo), s.hdr.tdo))]
  {
    hide Shifted, Intended, Remark, Combine;
    var length, given := line.statement.length, line.statement.given;
    ShiftMeaning(s.sdr, SDR, given, length, Mask);
    ShiftMeaning(s.sdr, SDR, given, length, Tdi);
    ShiftMeaning(s.sdr, SDR, given, length, Tdo);
  }

  /** What SIR sends: its input vector between those of the trailer and the header, in a record that has room for its
      length; from 32768 bits on there is none and the compiler stops. */
  lemma SirInput(s: Svf, number: nat, length: nat, given: seq<Given>)
    requires Inv(s) && forall i :: 0 <= i < |given| ==> length <= 4 * |given[i].hex|
    ensures
      var t := Meaning(s, Line(number, ShiftCommand(OpSIR, length, given)));
      var tdi := Combine(s.tir.tdi, Intended(s.sir, SIR, given, length, Tdi), s.hir.tdi);
      && |tdi| == s.tir.size + length + s.hir.size && (t.ok <==> |tdi| < 0x8000)
      && t.events == [Remark("SIR", number)]
                     + if |tdi| < 256 then [Other(Sir(|tdi|, Pack(tdi)))]
                       else if t.ok then [Other(Sir2(|tdi|, Pack(tdi)))] else []
  {
    hide Shifted, Intended, Remark, Combine, Pack;
    TakenFails(s.sir, given, length);
    ShiftedExactly(s.sir, SIR, given, length);
    ShiftMeaning(s.sir, SIR, given, length, Tdi);
  }

  lemma ShiftedExactly(v: Vectors, name: Name, given: seq<Given>, length: nat)
    ensures Shifted(v, name, given, length).Some? <==> Taken(v, given, length).Some?
  {}

  /** Which vectors a shift command sets, to what it gives for them, and that it leaves all others alone. Header and
      trailer commands come to nothing in the file. */
  lemma ShiftSets(s: Svf, number: nat, op: ShiftOp, length: nat, given: seq<Given>, v: Vectors)
    requires Inv(s) && forall i :: 0 <= i < |given| ==> length <= 4 * |given[i].hex|
    requires v.size == length
    requires
      var was: (Vectors, Name) := match op
        case OpHDR => (s.hdr, HDR)
        case OpHIR => (s.hir, HIR)
        case OpTDR => (s.tdr, TDR)
        case OpTIR => (s.tir, TIR)
        case OpSIR => (s.sir, SIR)
        case _ => (s.sdr, SDR);
      forall part :: v.Get(part) == Intended(was.0, was.1, given, length, part)
    ensures
      var t := Meaning(s, Line(number, ShiftCommand(op, length, given)));
      && t.svf == (match op
                   case OpHDR => s.(hdr := v)
                   case OpHIR => s.(hir := v)
                   case OpTDR => s.(tdr := v)
                   case OpTIR => s.(tir := v)
                   case OpSIR => s.(sir := v)
                   case _ => s.(sdr := v))
      && (op.OpHDR? || op.OpHIR? || op.OpTDR? || op.OpTIR? ==> t.ok && t.events == [])
  {
    hide Shifted, Intended, Shifting;
    var was, name := SetOf(s, op), NameOf(op);
    TakenFails(was, given, length);
    ShiftedExactly(was, name, given, length);
    var w := Shifted(was, name, given, length).value;
    forall part: Part
      ensures w.Get(part) == v.Get(part)
    {
      ShiftMeaning(was, name, given, length, part);
    }
    ShiftMeaning(was, name, given, length, Tdi);
    SameVectors(v, w);
    ShiftingSets(WithSet(s, op, w), op, Saw(given, Tdo), number);
  }

  lemma SameVectors(v: Vectors, w: Vectors)
    requires v.size == w.size && forall part: Part :: w.Get(part) == v.Get(part)
    ensures v == w
  {
    assert w.Get(Tdi) == v.Get(Tdi) && w.Get(Tdo) == v.Get(Tdo);
    assert w.Get(Mask) == v.Get(Mask) && w.Get(Smask) == v.Get(Smask);
  }

  lemma ShiftingSets(s: Svf, op: ShiftOp, sawTdo: bool, number: nat)
    ensures Shifting(s, op, sawTdo, number).svf == s
    ensures op.OpHDR? || op.OpHIR? || op.OpTDR? || op.OpTIR? ==> Shifting(s, op, sawTdo, number) == Turn(s, [], true)
  {
    hide Remark, Combine;
  }

  ghost predicate GoodTurn(t: Turn) {
    AllGood(t.events) && (t.ok ==> Inv(t.svf))
  }

  lemma ShiftingGood(s: Svf, op: ShiftOp, sawTdo: bool, number: nat)
    requires Inv(s)
    ensures GoodTurn(Shifting(s, op, sawTdo, number))
  {
    hide DrEvent, Remark;
    DrEventGood(s, op, sawTdo);
  }

  lemma RunTestGood(s: Svf, runState: Option<Stable>, runCount: int, minTime: int, endState: Option<Stable>,
                    delay: bool, number: nat)
    requires Inv(s)
    ensures GoodTurn(RunTestMeaning(s, runState, runCount, minTime, endState, delay, number))
  {
    hide Remark;
  }

  /** Every statement keeps all vector sets even and comes to events that can be sent. */
  lemma MeaningGood(s: Svf, line: Line)
    requires Inv(s) && Fits(line)
    ensures GoodTurn(Meaning(s, line))
  {
    hide Shifted, Shifting, RunTestMeaning, Remark;
    match line.statement {
      case ShiftCommand(op, length, given) =>
        var v := Shifted(SetOf(s, op), NameOf(op), given, length);
        if v.Some? {
          ShiftKeeps(s, op, given, length);
          ShiftingGood(WithSet(s, op, v.value), op, Saw(given, Tdo), line.number);
        }
      case RunTest(runState, runCount, minTime, endState) =>
        RunTestGood(s, runState, runCount, minTime, endState, false, line.number);
      case Delay(runState, runCount, minTime, endState) =>
        RunTestGood(s, runState, runCount, minTime, endState, true, line.number);
      case _ =>
    }
  }

  lemma {:induction false} MeaningsGood(s: Svf, lines: seq<Line>)
    requires Inv(s) && AllFit(lines)
    ensures AllGood(Meanings(s, lines))
    decreases |lines|
  {
    hide Meaning, Good, Fits;
    if lines != [] {
      var t := Meaning(s, lines[0]);
      MeaningGood(s, lines[0]);
      if t.ok {
        assert forall i :: 0 <= i < |lines[1..]| ==> lines[1..][i] == lines[i + 1];
        MeaningsGood(t.svf, lines[1..]);
      }
    }
  }

  lemma ProgramGood(lines: seq<Line>)
    requires AllFit(lines)
    ensures AllGood(Program(lines))
  {
    MeaningsGood(START, lines);
  }

  /** The whole tool chain: for every sequence of statements, the dumper reads the compiled file to its end, and
      what it finds plays as exactly what the statements mean, each shift with the size, mask, input and expected
      output that its vectors had at that moment. */
  lemma CompiledFileMeansProgram(lines: seq<Line>)
    requires AllFit(lines)
    ensures
      AllGood(Program(lines))
      && var dumped := DumpAll(Written(Program(lines)), 0);
         dumped.end == Finished && Play(FRESH, dumped.records).events == Program(lines)
  {
    hide Program;
    ProgramGood(lines);
    DumpedFilePlays(Program(lines));
  }
}
