/** What the statements of an SVF file come to in the XSVF file, byte by byte and in the numbers of the format: the
    opcodes, the TAP states, and integers with the most significant byte first. */
module SvfBytes {
  import opened Wrappers
  import opened BitVectors
  import opened XsvfRecords
  import opened SvfCompiler
  import opened SvfStatements

  // ---- Comments ------------------------------------------------------------------------------------

  /** The characters of a text as bytes. */
  function Chars(s: string): (bytes: Octets)
    requires IsAscii(s)
    ensures |bytes| == |s| && forall i :: 0 <= i < |s| ==> bytes[i] == s[i] as int
  {
    Ascii(s)
  }

  /** The comment in front of each statement: opcode 22, the text, the line number, a NUL. */
  function CommentBytes(text: string, number: nat): Octets
    requires IsAscii(text)
  {
    [22] + (Chars(text + " @" + Decimal(number)) + [0])
  }

  /** The number that decimal digits stand for. */
  function NumberOfDigits(s: string): int {
    if s == [] then 0 else 10 * NumberOfDigits(s[..|s| - 1]) + (s[|s| - 1] as int - '0' as int)
  }

  lemma {:induction false} DecimalNumber(n: nat)
    ensures NumberOfDigits(Decimal(n)) == n && Decimal(n) != [] && (n > 0 ==> Decimal(n)[0] != '0')
    decreases n
  {
    if n >= 10 {
      DecimalNumber(n / 10);
      var front, last := Decimal(n / 10), ['0' + (n % 10) as char];
      assert (front + last)[..|front|] == front;
    } else {
      assert Decimal(n)[..0] == [];
    }
  }

  lemma RemarkBytes(sent: Sent, text: string, number: nat)
    requires IsAscii(text)
    ensures EventBytes(sent, Remark(text, number)) == CommentBytes(text, number)
  {}

  /** A statement that comes to its comment and one record. */
  lemma TwoEvents(sent: Sent, text: string, number: nat, r: Record)
    requires IsAscii(text) && SelfContained(r)
    ensures EventsBytes(sent, [Remark(text, number), Other(r)]) == CommentBytes(text, number) + Encode(r, 0)
  {
    hide EventBytes, Encode, Remark, CommentBytes, SelfContained;
    var remark := Remark(text, number);
    assert [remark, Other(r)] == [remark] + [Other(r)];
    BytesOfOne(sent, remark);
    RemarkBytes(sent, text, number);
    BytesOfLast(sent, [remark], r);
  }

  lemma OneEvent(sent: Sent, text: string, number: nat)
    requires IsAscii(text)
    ensures EventsBytes(sent, [Remark(text, number)]) == CommentBytes(text, number)
  {
    hide EventBytes, Remark, CommentBytes;
    BytesOfOne(sent, Remark(text, number));
    RemarkBytes(sent, text, number);
  }

  /** The TAP states and the modes of TRST by their numbers in the file. */
  lemma Numbers()
    ensures Reset.Code() == 0 && Idle.Code() == 1 && DrPause.Code() == 6 && IrPause.Code() == 13
    ensures On.Code() == 0 && Off.Code() == 1 && Z.Code() == 2 && Absent.Code() == 3
    ensures On.Name() == "ON" && Off.Name() == "OFF" && Z.Name() == "Z" && Absent.Name() == "ABSENT"
  {}

  // ---- RUNTEST and LDELAY --------------------------------------------------------------------------

  /** Opcode 26 or 24, the states, and two integers of four bytes each. */
  function TimesBytes(delay: bool, run: Octet, end: Octet, runCount: int, minTime: int): Octets {
    var times := if IsInt(runCount) && IsInt(minTime) then PackInt(runCount) + PackInt(minTime) else [];
    if delay then [26] + ([run] + times) else [24] + ([run] + ([end] + times))
  }

  /** RUNTEST: its comment, opcode 24, the run state, the end state, the clocks and the microseconds. A run state stays
      in force for later statements and is also the end state, unless one is given. Without states in force the
      compiler stops at once, with a number too large for four bytes behind the comment. */
  lemma RunTestBytes(s: Svf, sent: Sent, number: nat, runState: Option<Stable>, runCount: int, minTime: int,
                     endState: Option<Stable>)
    ensures
      var t := Meaning(s, Line(number, RunTest(runState, runCount, minTime, endState)));
      var run := if runState.Some? then runState else s.runState;
      var end := if endState.Some? then endState else if runState.Some? then runState else s.endState;
      && t.svf == s.(runState := run, endState := end) && AllGood(t.events)
      && (t.ok <==> run.Some? && end.Some? && IsInt(runCount) && IsInt(minTime))
      && (run.None? || end.None? ==> EventsBytes(sent, t.events) == [])
      && (run.Some? && end.Some? && !t.ok ==> EventsBytes(sent, t.events) == CommentBytes("RUNTEST", number))
      && (t.ok ==> EventsBytes(sent, t.events)
                   == CommentBytes("RUNTEST", number)
                      + ([24] + ([run.value.Code()] + ([end.value.Code()] + (PackInt(runCount) + PackInt(minTime))))))
  {
    hide Remark, EventsBytes, CommentBytes, PackInt;
    RunTestGoodAnyway(s, runState, runCount, minTime, endState, false, number);
    var t := WithStates(s, runState, endState);
    BytesOfNone(sent);
    OneEvent(sent, "RUNTEST", number);
    if t.runState.Some? && t.endState.Some? && IsInt(runCount) && IsInt(minTime) {
      var run, end := t.runState.value.Code(), t.endState.value.Code();
      TwoEvents(sent, "RUNTEST", number, WaitState(run, end, runCount, minTime));
    }
  }

  /** LDELAY: the same with opcode 26 and no end state. */
  lemma DelayBytes(s: Svf, sent: Sent, number: nat, runState: Option<Stable>, runCount: int, minTime: int,
                   endState: Option<Stable>)
    ensures
      var t := Meaning(s, Line(number, Delay(runState, runCount, minTime, endState)));
      var run := if runState.Some? then runState else s.runState;
      var end := if endState.Some? then endState else if runState.Some? then runState else s.endState;
      && t.svf == s.(runState := run, endState := end) && AllGood(t.events)
      && (t.ok <==> run.Some? && end.Some? && IsInt(runCount) && IsInt(minTime))
      && (run.None? || end.None? ==> EventsBytes(sent, t.events) == [])
      && (run.Some? && end.Some? && !t.ok ==> EventsBytes(sent, t.events) == CommentBytes("LDELAY", number))
      && (t.ok ==> EventsBytes(sent, t.events)
                   == CommentBytes("LDELAY", number)
                      + ([26] + ([run.value.Code()] + (PackInt(runCount) + PackInt(minTime)))))
  {
    hide Remark, EventsBytes, CommentBytes, PackInt;
    RunTestGoodAnyway(s, runState, runCount, minTime, endState, true, number);
    var t := WithStates(s, runState, endState);
    BytesOfNone(sent);
    OneEvent(sent, "LDELAY", number);
    if t.runState.Some? && t.endState.Some? && IsInt(runCount) && IsInt(minTime) {
      TwoEvents(sent, "LDELAY", number, LoopDelay(t.runState.value.Code(), runCount, minTime));
    }
  }

  lemma RunTestGoodAnyway(s: Svf, runState: Option<Stable>, runCount: int, minTime: int, endState: Option<Stable>,
                          delay: bool, number: nat)
    ensures AllGood(RunTestMeaning(s, runState, runCount, minTime, endState, delay, number).events)
  {
    hide Remark;
  }

  // ---- The other statements ------------------------------------------------------------------------

  /** ENDDR: opcode 20, and 1 for DRPAUSE or 0 for IDLE. */
  lemma EndDrBytes(s: Svf, sent: Sent, number: nat, pause: bool)
    ensures
      var t := Meaning(s, Line(number, EndDrCommand(pause)));
      && t.ok && t.svf == s && AllGood(t.events)
      && EventsBytes(sent, t.events) == CommentBytes("ENDDR", number) + ([20] + [if pause then 1 else 0])
  {
    hide Remark, EventsBytes, CommentBytes;
    TwoEvents(sent, "ENDDR", number, EndDr(if pause then 1 else 0));
  }

  /** ENDIR: opcode 19, and 1 for IRPAUSE or 0 for IDLE. */
  lemma EndIrBytes(s: Svf, sent: Sent, number: nat, pause: bool)
    ensures
      var t := Meaning(s, Line(number, EndIrCommand(pause)));
      && t.ok && t.svf == s && AllGood(t.events)
      && EventsBytes(sent, t.events) == CommentBytes("ENDIR", number) + ([19] + [if pause then 1 else 0])
  {
    hide Remark, EventsBytes, CommentBytes;
    TwoEvents(sent, "ENDIR", number, EndIr(if pause then 1 else 0));
  }

  /** TRST: opcode 28 and the number of the mode. */
  lemma TrstBytes(s: Svf, sent: Sent, number: nat, mode: TrstMode)
    ensures
      var t := Meaning(s, Line(number, TrstCommand(mode)));
      && t.ok && t.svf == s && AllGood(t.events)
      && EventsBytes(sent, t.events) == CommentBytes("TRST " + mode.Name(), number) + ([28] + [mode.Code()])
  {
    hide Remark, EventsBytes, CommentBytes;
    TwoEvents(sent, "TRST " + mode.Name(), number, Trst(mode.Code()));
  }

  /** LCOUNT: opcode 25 and the count. One too large for four bytes stops the compiler behind the comment. */
  lemma LoopCountBytes(s: Svf, sent: Sent, number: nat, count: int)
    ensures
      var t := Meaning(s, Line(number, LoopCommand(count)));
      && (t.ok <==> IsInt(count)) && t.svf == s && AllGood(t.events)
      && EventsBytes(sent, t.events)
         == CommentBytes("LCOUNT", number) + if IsInt(count) then [25] + PackInt(count) else []
  {
    hide Remark, EventsBytes, CommentBytes, PackInt;
    OneEvent(sent, "LCOUNT", number);
    if IsInt(count) {
      TwoEvents(sent, "LCOUNT", number, LoopCount(count));
    }
  }

  /** Opcode 18 and its number for each TAP state. */
  function PathBytes(states: seq<TapState>): Octets {
    if states == [] then []
    else
      var state: Octet := states[|states| - 1];
      PathBytes(states[..|states| - 1]) + ([18] + [state])
  }

  lemma {:induction false} PathEncoded(sent: Sent, number: nat, states: seq<TapState>)
    ensures AllGood([Remark("STATE", number)] + StateEvents(states))
    ensures EventsBytes(sent, [Remark("STATE", number)] + StateEvents(states))
            == CommentBytes("STATE", number) + PathBytes(states)
    decreases |states|
  {
    hide Remark, EventsBytes, CommentBytes;
    var first := [Remark("STATE", number)];
    if states == [] {
      OneEvent(sent, "STATE", number);
      assert first + StateEvents(states) == first;
    } else {
      var k := |states| - 1;
      var state: Octet := states[k];
      PathEncoded(sent, number, states[..k]);
      BytesOfLast(sent, first + StateEvents(states[..k]), GoTo(states[k]));
      assert StateEvents(states) == StateEvents(states[..k]) + [Other(GoTo(states[k]))];
      Regroup(first, StateEvents(states[..k]), [Other(GoTo(states[k]))]);
      Regroup(CommentBytes("STATE", number), PathBytes(states[..k]), [18] + [state]);
    }
  }

  /** STATE: one comment and the path behind it, or nothing for an empty path. FREQUENCY comes to nothing. */
  lemma StateBytes(s: Svf, sent: Sent, number: nat, states: seq<TapState>)
    ensures
      var t := Meaning(s, Line(number, StateCommand(states)));
      && t.ok && t.svf == s && AllGood(t.events)
      && EventsBytes(sent, t.events) == if states == [] then [] else CommentBytes("STATE", number) + PathBytes(states)
    ensures Meaning(s, Line(number, Frequency)) == Turn(s, [], true)
  {
    hide Remark, EventsBytes, CommentBytes;
    BytesOfNone(sent);
    PathEncoded(sent, number, states);
  }

  /** A data shift: opcode 8 and the size if it is not the one sent last, opcode 1 and the mask if it is not, and then
      opcode 3 with the input, or 9 or 27 with the input and the expected output. */
  lemma ShiftBytes(sent: Sent, text: string, number: nat, kind: Kind, mask: Bits, tdi: Bits, tdo: Bits)
    requires IsAscii(text) && Good(DrShift(kind, mask, tdi, tdo))
    ensures
      var size := if sent.size != |tdi| then [8] + PackInt(|tdi|) else [];
      var masking := if sent.mask != mask then [1] + Pack(mask) else [];
      var data := match kind
        case Plain => [3] + Pack(tdi)
        case Checked => [9] + (Pack(tdi) + Pack(tdo))
        case Looped => [27] + (Pack(tdi) + Pack(tdo));
      EventsBytes(sent, [Remark(text, number), DrShift(kind, mask, tdi, tdo)])
      == CommentBytes(text, number) + (size + (masking + data))
  {
    hide Pack, PackInt, Remark, CommentBytes, EventsBytes;
    var remark, e := Remark(text, number), DrShift(kind, mask, tdi, tdo);
    RemarkBytes(sent, text, number);
    RemarkSendsNothing(sent, text, number);
    BytesOfTwo(sent, remark, e);
  }

  lemma RemarkSendsNothing(sent: Sent, text: string, number: nat)
    requires IsAscii(text)
    ensures SentAfter(sent, Remark(text, number)) == sent
  {}

  lemma BytesOfTwo(sent: Sent, a: Event, b: Event)
    requires Good(a) && Good(b) && SentAfter(sent, a) == sent
    ensures EventsBytes(sent, [a, b]) == EventBytes(sent, a) + EventBytes(sent, b)
  {
    hide EventBytes, SentAfter;
    BytesOfOne(sent, a);
    assert [a, b][..1] == [a] && [a][..0] == [];
    assert SentAfterAll(sent, [a]) == sent;
  }

  /** SIR: opcode 2 and the length in one byte, or 21 and the length in two, and then the input. */
  lemma SirBytes(s: Svf, sent: Sent, number: nat)
    ensures
      var t := SirMeaning(s, number);
      var tdi := Combine(s.tir.tdi, s.sir.tdi, s.hir.tdi);
      && t.svf == s && AllGood(t.events) && (t.ok <==> |tdi| < 0x8000)
      && EventsBytes(sent, t.events) == CommentBytes("SIR", number) + SirPart(tdi)
  {
    hide Remark, EventsBytes, CommentBytes, Combine, SirRecord, Encode, SirPart;
    var tdi := Combine(s.tir.tdi, s.sir.tdi, s.hir.tdi);
    SirEncoded(tdi);
    OneEvent(sent, "SIR", number);
    if |tdi| < 0x8000 {
      TwoEvents(sent, "SIR", number, SirRecord(tdi));
    } else {
      assert SirPart(tdi) == [] by {
        NoSirPart(tdi);
      }
    }
  }

  function SirPart(tdi: Bits): Octets {
    if |tdi| < 256 then ([2] + [|tdi|]) + Pack(tdi)
    else if |tdi| < 0x8000 then ([21] + [|tdi| / 256, |tdi| % 256]) + Pack(tdi)
    else []
  }

  lemma NoSirPart(tdi: Bits)
    requires |tdi| >= 0x8000
    ensures SirPart(tdi) == []
  {}

  lemma SirEncoded(tdi: Bits)
    ensures Framed(SirRecord(tdi), 0) == SelfContained(SirRecord(tdi)) == (|tdi| < 0x8000)
    ensures |tdi| < 0x8000 ==> Encode(SirRecord(tdi), 0) == SirPart(tdi)
  {
    hide Pack;
    if |tdi| < 256 {
      Regroup([2], [|tdi|], Pack(tdi));
    } else if |tdi| < 0x8000 {
      Regroup([21], [|tdi| / 256, |tdi| % 256], Pack(tdi));
    }
  }

  /** The whole file: opcode 7 with a count of 0, the statements, and opcode 0, also when a statement stops the
      compiler. */
  lemma FileBytes(lines: seq<Line>)
    requires AllFit(lines)
    ensures AllGood(Program(lines)) && AllGood(Meanings(START, lines))
    ensures Written(Program(lines)) == ([7] + [0]) + (EventsBytes(NOTHING_SENT, Meanings(START, lines)) + [0])
  {
    hide EventsBytes, Written, Meanings, EventBytes;
    MeaningsGood(START, lines);
    var first, middle, last := [Other(Repeat(0))], Meanings(START, lines), Other(Complete);
    FirstBytes();
    WrittenAppend(first, middle + [last]);
    BytesOfLast(NOTHING_SENT, middle, Complete);
  }

  lemma FirstBytes()
    ensures AllGood([Other(Repeat(0))]) && Written([Other(Repeat(0))]) == [7] + [0]
    ensures SentAfterAll(NOTHING_SENT, [Other(Repeat(0))]) == NOTHING_SENT
    ensures Good(Other(Complete)) && Encode(Complete, 0) == [0]
  {
    hide Written;
    var none: seq<Event> := [];
    WrittenMore(none, Other(Repeat(0)));
    assert none + [Other(Repeat(0))] == [Other(Repeat(0))];
    NothingWritten();
  }

  lemma NothingWritten()
    ensures Written([]) == []
  {}
}
