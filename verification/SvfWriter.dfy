/** svf2xsvf.py in its own form: the vector sets, the settings last sent and the output file, changed statement by
    statement. Proves that the file it leaves is the compiled program of its statements. */
module SvfWriter {
  import opened Wrappers
  import opened BitVectors
  import opened XsvfRecords
  import opened SvfVectors
  import opened SvfCompiler
  import opened SvfStatements
  import opened SvfBytes

  class Writer {
    const hir: MaskSet
    const hdr: MaskSet
    const tir: MaskSet
    const tdr: MaskSet
    const sir: MaskSet
    const sdr: MaskSet
    var runState: Option<Stable>
    var endState: Option<Stable>
    /** The last ones sent. */
    var xsdrsize: int
    var xtdomask: Bits
    var output: Octets
    /** What the file says so far. */
    ghost var events: seq<Event>

    ghost function Sets(): set<object> {
      {hir, hdr, tir, tdr, sir, sdr}
    }

    ghost function View(): Svf
      reads this, Sets()
    {
      Svf(hir.View(), hdr.View(), tir.View(), tdr.View(), sir.View(), sdr.View(), runState, endState)
    }

    ghost predicate Valid()
      reads this
    {
      && hir.name == HIR && hdr.name == HDR && tir.name == TIR && tdr.name == TDR && sir.name == SIR && sdr.name == SDR
      && AllGood(events) && output == Written(events)
      && Sent(xsdrsize, xtdomask) == SentAfterAll(NOTHING_SENT, events)
    }

    constructor ()
      ensures Valid() && events == [] && View() == START && fresh(Sets())
    {
      hir := new MaskSet(HIR);
      hdr := new MaskSet(HDR);
      tir := new MaskSet(TIR);
      tdr := new MaskSet(TDR);
      sir := new MaskSet(SIR);
      sdr := new MaskSet(SDR);
      runState, endState := None, None;
      xsdrsize, xtdomask, output, events := -1, [], [], [];
    }

    /** output.write of the bytes of a record that says everything itself. */
    method Write(bytes: Octets, ghost r: Record)
      requires Valid() && SelfContained(r) && bytes == Encode(r, 0)
      modifies this`output, this`events
      ensures Valid() && events == old(events) + [Other(r)]
    {
      hide SelfContained, Encode, Written, AllGood, SentAfterAll;
      WrittenMore(events, Other(r));
      output := output + bytes;
      events := events + [Other(r)];
    }

    method WriteComment(text: string, number: nat)
      requires Valid() && IsAscii(text)
      modifies this`output, this`events
      ensures Valid() && events == old(events) + [Remark(text, number)]
    {
      var comment := Ascii(text + " @" + Decimal(number));
      Write([XCOMMENT] + (comment + [0]), Comment(comment));
    }

    // The three parts of a data shift.

    method SendSize(tdi: Bits)
      requires IsInt(|tdi|)
      modifies this`output, this`xsdrsize
      ensures output == old(output) + SizeBytes(Sent(old(xsdrsize), xtdomask), tdi) && xsdrsize == |tdi|
    {
      hide PackInt;
      if xsdrsize != |tdi| {
        xsdrsize := |tdi|;
        output := output + ([XSDRSIZE] + PackInt(xsdrsize));
      }
    }

    method SendMask(mask: Bits)
      modifies this`output, this`xtdomask
      ensures output == old(output) + MaskBytes(Sent(xsdrsize, old(xtdomask)), mask) && xtdomask == mask
    {
      hide Pack;
      if xtdomask != mask {
        xtdomask := mask;
        var obuf := MakeXSVFBytes(mask);
        output := output + ([XTDOMASK] + obuf);
      }
    }

    method SendData(kind: Kind, tdi: Bits, tdo: Bits)
      modifies this`output
      ensures output == old(output) + DataBytes(kind, tdi, tdo)
    {
      hide Pack;
      var input := MakeXSVFBytes(tdi);
      if kind == Plain {
        output := output + ([XSDR] + input);
      } else {
        var expected := MakeXSVFBytes(tdo);
        output := output + ([if kind == Checked then XSDRTDO else LSDR] + (input + expected));
      }
    }

    /** A data shift, with the size and the mask before it if they have changed. */
    method WriteShift(kind: Kind, mask: Bits, tdi: Bits, tdo: Bits)
      requires Valid() && Good(DrShift(kind, mask, tdi, tdo))
      modifies this`output, this`events, this`xsdrsize, this`xtdomask
      ensures Valid() && events == old(events) + [DrShift(kind, mask, tdi, tdo)]
    {
      hide Written, SizeBytes, MaskBytes, DataBytes, AllGood, SentAfterAll;
      ghost var e := DrShift(kind, mask, tdi, tdo);
      ghost var sent, written := Sent(xsdrsize, xtdomask), output;
      WrittenMore(events, e);
      SendSize(tdi);
      assert MaskBytes(Sent(xsdrsize, xtdomask), mask) == MaskBytes(sent, mask) by {
        SameMask(sent, xsdrsize, mask);
      }
      SendMask(mask);
      SendData(kind, tdi, tdo);
      ghost var a, b, c := SizeBytes(sent, tdi), MaskBytes(sent, mask), DataBytes(kind, tdi, tdo);
      Regroup(written, a, b);
      Regroup(written, a + b, c);
      Regroup(a, b, c);
      events := events + [e];
    }

    /** SIR. A vector too long for the two bytes of XSIR2 raises an exception. */
    method WriteSir(number: nat) returns (ok: bool)
      requires Valid()
      modifies this`output, this`events
      ensures Valid()
      ensures
        var t := SirMeaning(old(View()), number);
        events == old(events) + t.events && ok == t.ok
    {
      hide Pack, Remark, Encode, Written, Combine, AllGood, SentAfterAll, SelfContained, SirRecord;
      WriteComment("SIR", number);
      var tdi := Combine(tir.tdi, sir.tdi, hir.tdi);
      SirEncoded(tdi);
      var obuf := SirHead(|tdi|);
      if obuf.None? {
        return false;
      }
      var bits := MakeXSVFBytes(tdi);
      Write(obuf.value + bits, SirRecord(tdi));
      return true;
    }

    /** The opcode and the length of an SIR, which must fit two bytes. */
    method SirHead(length: nat) returns (obuf: Option<Octets>)
      ensures obuf.None? <==> length >= 0x8000
      ensures length < 256 ==> obuf == Some([2] + [length])
      ensures 256 <= length < 0x8000 ==> obuf == Some([21] + [length / 256, length % 256])
    {
      if length > 255 {
        if length >= 0x8000 {
          return None;
        }
        return Some([XSIR2] + [length / 256, length % 256]);
      }
      return Some([XSIR] + [length]);
    }

    /** What a shift command does once its vectors are in place. */
    method WriteShiftOp(op: ShiftOp, sawTdo: bool, number: nat) returns (ok: bool)
      requires Valid() && Inv(View())
      modifies this`output, this`events, this`xsdrsize, this`xtdomask
      ensures Valid()
      ensures
        var t := Shifting(old(View()), op, sawTdo, number);
        events == old(events) + t.events && ok == t.ok
    {
      hide SirMeaning, Remark, Written, Combine, AllGood, SentAfterAll;
      DrEventGood(View(), op, sawTdo);
      ok := true;
      match op {
        case OpSIR => ok := WriteSir(number);
        case OpSDR =>
          WriteComment("SDR", number);
          if !sawTdo {
            var mask := Combine(tdr.mask, Constant(sdr.size, false), hdr.mask);
            var tdi := Combine(tdr.tdi, sdr.tdi, hdr.tdi);
            WriteShift(Plain, mask, tdi, []);
          } else {
            WriteChecked(Checked);
          }
        case OpLSDR =>
          WriteComment("LSDR", number);
          WriteChecked(Looped);
        case _ =>
      }
    }

    method WriteChecked(kind: Kind)
      requires Valid() && kind != Plain && Good(DrShift(kind, DrMask(View(), true), DrTdi(View()), DrTdo(View())))
      modifies this`output, this`events, this`xsdrsize, this`xtdomask
      ensures Valid()
      ensures events == old(events) + [DrShift(kind, DrMask(old(View()), true), DrTdi(old(View())), DrTdo(old(View())))]
    {
      hide Written, Combine, AllGood, SentAfterAll;
      var mask := Combine(tdr.mask, sdr.mask, hdr.mask);
      var tdi := Combine(tdr.tdi, sdr.tdi, hdr.tdi);
      var tdo := Combine(tdr.tdo, sdr.tdo, hdr.tdo);
      WriteShift(kind, mask, tdi, tdo);
    }

    function SetFor(op: ShiftOp): MaskSet {
      match op
      case OpSDR => sdr
      case OpSIR => sir
      case OpLSDR => sdr
      case OpHDR => hdr
      case OpHIR => hir
      case OpTDR => tdr
      case OpTIR => tir
    }

    /** A shift command: gather its parts into the vector set it names, then write. */
    method ShiftStatement(op: ShiftOp, length: nat, given: seq<Given>, number: nat) returns (ok: bool)
      requires Valid() && Inv(View()) && length < MAX_LENGTH
      modifies this, Sets()
      ensures Valid()
      ensures
        var t := Meaning(old(View()), Line(number, ShiftCommand(op, length, given)));
        events == old(events) + t.events && ok == t.ok && (ok ==> View() == t.svf)
    {
      hide Shifted, Shifting, Written, Inv, AllGood, SentAfterAll;
      var maskSet := SetFor(op);
      var sawTdo;
      ok, sawTdo := maskSet.Shift(given, length);
      if ok {
        assert View() == WithSet(old(View()), op, maskSet.View());
        ShiftKeeps(old(View()), op, given, length);
        ShiftingKeepsSets(View(), op, sawTdo, number);
        ok := WriteShiftOp(op, sawTdo, number);
      }
    }

    /** The states a RUNTEST or LDELAY names, or those named before it. */
    method SetStates(run: Option<Stable>, end: Option<Stable>)
      modifies this`runState, this`endState
      ensures View() == WithStates(old(View()), run, end)
    {
      if run.Some? {
        runState := run;
        endState := run;
      }
      if end.Some? {
        endState := end;
      }
    }

    /** writeRUNTEST. A number too large for four bytes raises an exception after the comment. */
    method WriteRunTest(run: int, end: int, runCount: int, minTime: int, delay: bool, number: nat) returns (ok: bool)
      requires Valid() && IsByte(run) && IsByte(end)
      modifies this`output, this`events
      ensures Valid()
      ensures
        var remark := Remark(TimesName(delay), number);
        var r := TimesRecord(delay, run, end, runCount, minTime);
        && ok == Framed(r, 0)
        && events == old(events) + if ok then [remark, Other(r)] else [remark]
      ensures ok ==> output == old(output) + (CommentBytes(TimesName(delay), number)
                                              + TimesBytes(delay, run, end, runCount, minTime))
    {
      hide Written, Remark, PackInt, AllGood, SentAfterAll, CommentBytes, EventsBytes;
      if IsInt(runCount) && IsInt(minTime) {
        TwoMore(events, TimesName(delay), number, TimesRecord(delay, run, end, runCount, minTime));
      }
      WriteComment(TimesName(delay), number);
      ok := IsInt(runCount) && IsInt(minTime);
      if ok && delay {
        Write([LDELAY] + ([run] + (PackInt(runCount) + PackInt(minTime))), LoopDelay(run, runCount, minTime));
      } else if ok {
        Write([XWAITSTATE] + ([run] + ([end] + (PackInt(runCount) + PackInt(minTime)))),
              WaitState(run, end, runCount, minTime));
      }
    }

    /** RUNTEST and LDELAY. A state never given raises an exception before anything is written. */
    method RunTestStatement(run: Option<Stable>, runCount: int, minTime: int, end: Option<Stable>, delay: bool,
                            number: nat) returns (ok: bool)
      requires Valid()
      modifies this`output, this`events, this`runState, this`endState
      ensures Valid()
      ensures
        var t := RunTestMeaning(old(View()), run, runCount, minTime, end, delay, number);
        events == old(events) + t.events && ok == t.ok && (ok ==> View() == t.svf)
    {
      hide Written, Remark, WithStates, AllGood, SentAfterAll;
      SetStates(run, end);
      if runState.None? || endState.None? {
        return false;
      }
      ok := WriteRunTest(runState.value.Code(), endState.value.Code(), runCount, minTime, delay, number);
    }

    /** STATE: a record for each state, behind one comment. */
    method StateStatement(states: seq<TapState>, number: nat)
      requires Valid()
      modifies this`output, this`events
      ensures Valid()
      ensures events == old(events) + Meaning(old(View()), Line(number, StateCommand(states))).events
    {
      hide Written, Remark, AllGood, SentAfterAll;
      ghost var before := events;
      for i := 0 to |states|
        invariant Valid()
        invariant events == before + if i == 0 then [] else [Remark("STATE", number)] + StateEvents(states)[..i]
      {
        if i == 0 {
          WriteComment("STATE", number);
        }
        Write([XSTATE] + [states[i]], GoTo(states[i]));
        assert StateEvents(states)[..i + 1] == StateEvents(states)[..i] + [Other(GoTo(states[i]))];
      }
      assert StateEvents(states)[..|states|] == StateEvents(states);
    }

    method LoopStatement(count: int, number: nat) returns (ok: bool)
      requires Valid()
      modifies this`output, this`events
      ensures Valid()
      ensures
        var t := Meaning(old(View()), Line(number, LoopCommand(count)));
        events == old(events) + t.events && ok == t.ok
    {
      hide Written, Remark, PackInt, AllGood, SentAfterAll;
      WriteComment("LCOUNT", number);
      if !IsInt(count) {
        return false;
      }
      Write([LCOUNT] + PackInt(count), LoopCount(count));
      return true;
    }

    /** The statements that come to one record of one byte. */
    method ByteStatement(text: string, op: Octet, argument: Octet, number: nat, ghost r: Record)
      requires Valid() && IsAscii(text) && SelfContained(r) && Encode(r, 0) == [op] + [argument]
      modifies this`output, this`events
      ensures Valid() && events == old(events) + [Remark(text, number), Other(r)]
    {
      hide Written, Remark, AllGood, SentAfterAll;
      WriteComment(text, number);
      Write([op] + [argument], r);
    }

    /** One pass of the statement loop. */
    method Process(line: Line) returns (ok: bool)
      requires Valid() && Inv(View()) && Fits(line)
      modifies this, Sets()
      ensures Valid()
      ensures
        var t := Meaning(old(View()), line);
        events == old(events) + t.events && ok == t.ok && (ok ==> View() == t.svf)
      ensures
        var t := Meaning(old(View()), line);
        && AllGood(t.events)
        && output == old(output) + EventsBytes(Sent(old(xsdrsize), old(xtdomask)), t.events)
    {
      hide Written, Meaning, AllGood, SentAfterAll, EventsBytes, Inv, Fits;
      MeaningAdds(View(), line, events);
      ok := Dispatch(line);
    }

    method Dispatch(line: Line) returns (ok: bool)
      requires Valid() && Inv(View()) && Fits(line)
      modifies this, Sets()
      ensures Valid()
      ensures
        var t := Meaning(old(View()), line);
        events == old(events) + t.events && ok == t.ok && (ok ==> View() == t.svf)
    {
      hide Written, Remark, Inv, Shifted, Shifting, RunTestMeaning, AllGood, SentAfterAll, SelfContained, Encode;
      var number := line.number;
      ok := true;
      match line.statement {
        case ShiftCommand(op, length, given) => ok := ShiftStatement(op, length, given, number);
        case RunTest(run, runCount, minTime, end) => ok := RunTestStatement(run, runCount, minTime, end, false, number);
        case Delay(run, runCount, minTime, end) => ok := RunTestStatement(run, runCount, minTime, end, true, number);
        case LoopCommand(count) => ok := LoopStatement(count, number);
        case EndDrCommand(pause) =>
          var argument: Octet := if pause then 1 else 0;
          OneByteRecords(argument);
          ByteStatement("ENDDR", XENDDR, argument, number, EndDr(argument));
        case EndIrCommand(pause) =>
          var argument: Octet := if pause then 1 else 0;
          OneByteRecords(argument);
          ByteStatement("ENDIR", XENDIR, argument, number, EndIr(argument));
        case StateCommand(states) => StateStatement(states, number);
        case Frequency =>
        case TrstCommand(mode) =>
          OneByteRecords(mode.Code());
          ByteStatement("TRST " + mode.Name(), XTRST, mode.Code(), number, Trst(mode.Code()));
      }
    }

    /** The statements, up to the first that fails. */
    method ProcessAll(lines: seq<Line>)
      requires Valid() && Inv(View()) && AllFit(lines)
      modifies this, Sets()
      ensures Valid() && events == old(events) + Meanings(old(View()), lines)
    {
      hide Written, Meaning, Inv, AllGood, SentAfterAll, Meanings, Fits;
      ghost var all := events + Meanings(View(), lines);
      var ok := true;
      var i := 0;
      assert lines[0..] == lines;
      while i < |lines| && ok
        invariant i <= |lines| && Valid() && (ok ==> Inv(View()))
        invariant all == if ok then events + Meanings(View(), lines[i..]) else events
        decreases |lines| - i
      {
        ghost var before, t := events, Meaning(View(), lines[i]);
        MeaningGood(View(), lines[i]);
        OneMeaning(View(), lines, i);
        ok := Process(lines[i]);
        i := i + 1;
        if ok {
          Regroup(before, t.events, Meanings(View(), lines[i..]));
        }
      }
      if ok {
        NoMeaning(View(), lines[i..]);
      }
    }

    /** The whole compiler: XREPEAT first, the statements, and XCOMPLETE in any case. */
    method Convert(lines: seq<Line>)
      requires Valid() && View() == START && events == [] && AllFit(lines)
      modifies this, Sets()
      ensures Valid() && events == Program(lines) && output == Written(Program(lines))
      ensures AllGood(Meanings(START, lines))
      ensures output == ([7] + [0]) + (EventsBytes(NOTHING_SENT, Meanings(START, lines)) + [0])
    {
      FileBytes(lines);
      hide EventsBytes, Written, Inv, AllGood, SentAfterAll, Meanings, SelfContained, Encode, Program;
      EndRecords();
      StartInv();
      Write([XREPEAT] + [0], Repeat(0));
      ProcessAll(lines);
      Write([XCOMPLETE], Complete);
      ProgramParts(lines);
    }
  }

  lemma OneByteRecords(n: Octet)
    ensures SelfContained(EndDr(n)) && Encode(EndDr(n), 0) == [XENDDR] + [n]
    ensures SelfContained(EndIr(n)) && Encode(EndIr(n), 0) == [XENDIR] + [n]
    ensures SelfContained(Trst(n)) && Encode(Trst(n), 0) == [XTRST] + [n]
  {}

  lemma EndRecords()
    ensures SelfContained(Repeat(0)) && Encode(Repeat(0), 0) == [XREPEAT] + [0]
    ensures SelfContained(Complete) && Encode(Complete, 0) == [XCOMPLETE]
  {}

  lemma ProgramParts(lines: seq<Line>)
    ensures Program(lines) == ([Other(Repeat(0))] + Meanings(START, lines)) + [Other(Complete)]
  {
    hide Meanings;
    Regroup([Other(Repeat(0))], Meanings(START, lines), [Other(Complete)]);
  }

  lemma NoMeaning(s: Svf, lines: seq<Line>)
    requires lines == []
    ensures Meanings(s, lines) == []
  {}

  lemma StartInv()
    ensures Inv(START)
  {}

  lemma ShiftingKeepsSets(s: Svf, op: ShiftOp, sawTdo: bool, number: nat)
    ensures Shifting(s, op, sawTdo, number).svf == s
  {}

  lemma SameMask(sent: Sent, size: int, mask: Bits)
    ensures MaskBytes(Sent(size, sent.mask), mask) == MaskBytes(sent, mask)
  {}

  lemma MeaningAdds(s: Svf, line: Line, events: seq<Event>)
    requires Inv(s) && Fits(line) && AllGood(events)
    ensures
      var t := Meaning(s, line);
      && AllGood(t.events) && AllGood(events + t.events)
      && Written(events + t.events) == Written(events) + EventsBytes(SentAfterAll(NOTHING_SENT, events), t.events)
  {
    hide Meaning, AllGood, Written, EventsBytes, Inv, Fits;
    MeaningGood(s, line);
    WrittenAppend(events, Meaning(s, line).events);
  }

  lemma TwoMore(events: seq<Event>, text: string, number: nat, r: Record)
    requires AllGood(events) && IsAscii(text) && SelfContained(r)
    ensures AllGood((events + [Remark(text, number)]) + [Other(r)])
    ensures Written((events + [Remark(text, number)]) + [Other(r)])
            == Written(events) + (CommentBytes(text, number) + Encode(r, 0))
  {
    hide Written, EventsBytes, CommentBytes, Remark, Encode, SelfContained, SentAfterAll;
    var more := [Remark(text, number), Other(r)];
    assert (events + [Remark(text, number)]) + [Other(r)] == events + more;
    WrittenAppend(events, more);
    TwoEvents(SentAfterAll(NOTHING_SENT, events), text, number, r);
  }

  lemma OneMeaning(s: Svf, lines: seq<Line>, i: nat)
    requires i < |lines|
    ensures
      var t := Meaning(s, lines[i]);
      Meanings(s, lines[i..]) == t.events + if t.ok then Meanings(t.svf, lines[i + 1..]) else []
  {
    assert lines[i..][1..] == lines[i + 1..];
  }
}
