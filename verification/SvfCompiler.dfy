/** svf2xsvf.py: what a sequence of SVF statements means, and the records it is compiled to. The size of a shift and
    the TDO mask are sent only when they change. */
module SvfCompiler {
  import opened Wrappers
  import opened BitVectors
  import opened XsvfRecords

  // ---- Shifts and how they are sent ----------------------------------------------------------------

  /** XSDR, XSDRTDO and LSDR. */
  datatype Kind = Plain | Checked | Looped

  /** What a player is to do: shift a vector through the data registers and compare what comes out under a mask, or
      something a single record says completely. A plain shift has no expected output. */
  datatype Event = DrShift(kind: Kind, mask: Bits, tdi: Bits, tdo: Bits) | Other(record: Record)

  /** A record whose meaning does not depend on records before it. */
  predicate SelfContained(r: Record) {
    match r
    case TdoMask(_) => false
    case Sdr(_) => false
    case SdrSize(_) => false
    case SdrTdo(_, _) => false
    case LoopSdr(_, _) => false
    case _ => Framed(r, 0)
  }

  predicate Good(e: Event) {
    match e
    case DrShift(kind, mask, tdi, tdo) =>
      |mask| == |tdi| && IsInt(|tdi|) && |tdo| == if kind == Plain then 0 else |tdi|
    case Other(r) => SelfContained(r)
  }

  predicate AllGood(events: seq<Event>) {
    forall i :: 0 <= i < |events| ==> Good(events[i])
  }

  /** The size and the mask last sent. */
  datatype Sent = Sent(size: int, mask: Bits)

  const NOTHING_SENT := Sent(-1, [])

  function Data(kind: Kind, tdi: Bits, tdo: Bits): Record {
    match kind
    case Plain => Sdr(Pack(tdi))
    case Checked => SdrTdo(Pack(tdi), Pack(tdo))
    case Looped => LoopSdr(Pack(tdi), Pack(tdo))
  }

  function SizePart(sent: Sent, tdi: Bits): seq<Record> {
    if sent.size != |tdi| then [SdrSize(|tdi|)] else []
  }

  function MaskPart(sent: Sent, mask: Bits): seq<Record> {
    if sent.mask != mask then [TdoMask(Pack(mask))] else []
  }

  /** The records for one event. */
  function Compile(sent: Sent, e: Event): seq<Record> {
    match e
    case Other(r) => [r]
    case DrShift(kind, mask, tdi, tdo) => SizePart(sent, tdi) + (MaskPart(sent, mask) + [Data(kind, tdi, tdo)])
  }

  /** The same without change detection. */
  function CompileNaively(e: Event): seq<Record> {
    match e
    case Other(r) => [r]
    case DrShift(kind, mask, tdi, tdo) => [SdrSize(|tdi|), TdoMask(Pack(mask)), Data(kind, tdi, tdo)]
  }

  function SentAfter(sent: Sent, e: Event): Sent {
    if e.DrShift? then Sent(|e.tdi|, e.mask) else sent
  }

  function SentAfterAll(sent: Sent, events: seq<Event>): Sent {
    if events == [] then sent else SentAfter(SentAfterAll(sent, events[..|events| - 1]), events[|events| - 1])
  }

  function CompileAll(sent: Sent, events: seq<Event>): seq<Record> {
    if events == [] then []
    else
      var k := |events| - 1;
      CompileAll(sent, events[..k]) + Compile(SentAfterAll(sent, events[..k]), events[k])
  }

  function CompileAllNaively(events: seq<Event>): seq<Record> {
    if events == [] then []
    else CompileAllNaively(events[..|events| - 1]) + CompileNaively(events[|events| - 1])
  }

  // ---- Playing records -----------------------------------------------------------------------------

  /** What a player has to remember between records. */
  datatype Player = Player(size: int, mask: Bits)

  const FRESH := Player(0, [])

  /** Octets read as a vector of the size last sent. */
  function Read(bytes: Octets, size: int): Bits {
    if 0 <= size <= 8 * |bytes| then Unpack(bytes, size) else []
  }

  function PlayerAfter(p: Player, r: Record): Player {
    match r
    case SdrSize(n) => Player(n, p.mask)
    case TdoMask(mask) => Player(p.size, Read(mask, p.size))
    case _ => p
  }

  function EventsOf(p: Player, r: Record): seq<Event> {
    match r
    case SdrSize(_) => []
    case TdoMask(_) => []
    case Sdr(tdi) => [DrShift(Plain, p.mask, Read(tdi, p.size), [])]
    case SdrTdo(tdi, tdo) => [DrShift(Checked, p.mask, Read(tdi, p.size), Read(tdo, p.size))]
    case LoopSdr(tdi, tdo) => [DrShift(Looped, p.mask, Read(tdi, p.size), Read(tdo, p.size))]
    case _ => [Other(r)]
  }

  datatype Played = Played(player: Player, events: seq<Event>)

  function Play(p: Player, records: seq<Record>): Played {
    if records == [] then Played(p, [])
    else
      var first := Play(p, records[..|records| - 1]);
      var r := records[|records| - 1];
      Played(PlayerAfter(first.player, r), first.events + EventsOf(first.player, r))
  }

  lemma {:induction false} PlayAppend(p: Player, a: seq<Record>, b: seq<Record>)
    ensures
      var first := Play(p, a);
      var second := Play(first.player, b);
      Play(p, a + b) == Played(second.player, first.events + second.events)
    decreases |b|
  {
    hide PlayerAfter, EventsOf;
    if b == [] {
      assert a + b == a;
    } else {
      var k := |b| - 1;
      PlayAppend(p, a, b[..k]);
      assert (a + b)[..|a + b| - 1] == a + b[..k] && (a + b)[|a + b| - 1] == b[k];
      var first := Play(p, a);
      var middle := Play(first.player, b[..k]);
      Regroup(first.events, middle.events, EventsOf(middle.player, b[k]));
    }
  }

  lemma PlayNone(p: Player)
    ensures Play(p, []) == Played(p, [])
  {}

  lemma PlayOne(p: Player, r: Record)
    ensures Play(p, [r]) == Played(PlayerAfter(p, r), EventsOf(p, r))
  {
    assert [r][..0] == [];
  }

  lemma ReadPacked(bits: Bits)
    ensures Read(Pack(bits), |bits|) == bits
  {
    hide Pack, Unpack;
    UnpackPack(bits);
  }

  /** The player has what was last sent. Before anything is sent it has a size that no shift relies on. */
  predicate InStep(p: Player, sent: Sent) {
    p.mask == sent.mask && (sent.size >= 0 ==> p.size == sent.size)
  }

  lemma SizeArrives(p: Player, sent: Sent, tdi: Bits)
    requires InStep(p, sent)
    ensures Play(p, SizePart(sent, tdi)) == Played(Player(|tdi|, p.mask), [])
  {
    if sent.size != |tdi| {
      PlayOne(p, SdrSize(|tdi|));
    }
  }

  lemma MaskArrives(p: Player, sent: Sent, mask: Bits)
    requires p.mask == sent.mask && p.size == |mask|
    ensures Play(p, MaskPart(sent, mask)) == Played(Player(p.size, mask), [])
  {
    if sent.mask != mask {
      PlayOne(p, TdoMask(Pack(mask)));
      ReadPacked(mask);
    }
  }

  lemma DataArrives(p: Player, kind: Kind, tdi: Bits, tdo: Bits)
    requires p.size == |tdi| && |tdo| == if kind == Plain then 0 else |tdi|
    ensures Play(p, [Data(kind, tdi, tdo)]) == Played(p, [DrShift(kind, p.mask, tdi, tdo)])
  {
    hide Play, Pack, Read;
    PlayOne(p, Data(kind, tdi, tdo));
    ReadPacked(tdi);
    ReadPacked(tdo);
  }

  /** One event arrives as it was meant, whatever was sent before. */
  lemma EventArrives(p: Player, sent: Sent, e: Event)
    requires InStep(p, sent) && Good(e)
    ensures
      var played := Play(p, Compile(sent, e));
      played.events == [e] && InStep(played.player, SentAfter(sent, e))
  {
    hide Play, Data, SizePart, MaskPart;
    match e {
      case Other(r) => PlayOne(p, r);
      case DrShift(kind, mask, tdi, tdo) =>
        var size, data := Player(|tdi|, p.mask), [Data(kind, tdi, tdo)];
        SizeArrives(p, sent, tdi);
        MaskArrives(size, sent, mask);
        DataArrives(Player(|tdi|, mask), kind, tdi, tdo);
        PlayAppend(size, MaskPart(sent, mask), data);
        PlayAppend(p, SizePart(sent, tdi), MaskPart(sent, mask) + data);
    }
  }

  lemma {:induction false} EventsArrive(p: Player, sent: Sent, events: seq<Event>)
    requires InStep(p, sent) && AllGood(events)
    ensures
      var played := Play(p, CompileAll(sent, events));
      played.events == events && InStep(played.player, SentAfterAll(sent, events))
    decreases |events|
  {
    hide Compile, Good, SentAfter, Play;
    PlayNone(p);
    if events != [] {
      var k := |events| - 1;
      var before, last := SentAfterAll(sent, events[..k]), events[k];
      EventsArrive(p, sent, events[..k]);
      var first := Play(p, CompileAll(sent, events[..k]));
      EventArrives(first.player, before, last);
      PlayAppend(p, CompileAll(sent, events[..k]), Compile(before, last));
      assert events == events[..k] + [last];
    }
  }

  lemma {:induction false} NaiveArrives(p: Player, events: seq<Event>)
    requires AllGood(events)
    ensures Play(p, CompileAllNaively(events)).events == events
    decreases |events|
  {
    hide CompileNaively, Good, Play;
    PlayNone(p);
    if events != [] {
      var k := |events| - 1;
      NaiveArrives(p, events[..k]);
      var first := Play(p, CompileAllNaively(events[..k]));
      NaiveOne(first.player, events[k]);
      PlayAppend(p, CompileAllNaively(events[..k]), CompileNaively(events[k]));
      assert events == events[..k] + [events[k]];
    }
  }

  lemma NaiveOne(p: Player, e: Event)
    requires Good(e)
    ensures Play(p, CompileNaively(e)).events == [e]
  {
    match e {
      case Other(r) => PlayOne(p, r);
      case DrShift(kind, mask, tdi, tdo) =>
        var records := CompileNaively(e);
        assert records == [SdrSize(|tdi|)] + ([TdoMask(Pack(mask))] + [Data(kind, tdi, tdo)]);
        PlayOne(p, SdrSize(|tdi|));
        PlayOne(Player(|tdi|, p.mask), TdoMask(Pack(mask)));
        ReadPacked(mask);
        DataArrives(Player(|tdi|, mask), kind, tdi, tdo);
        PlayAppend(Player(|tdi|, p.mask), [TdoMask(Pack(mask))], [Data(kind, tdi, tdo)]);
        PlayAppend(p, [SdrSize(|tdi|)], [TdoMask(Pack(mask))] + [Data(kind, tdi, tdo)]);
    }
  }

  /** Change detection loses nothing: the stream that sends size and mask only when they change plays as the events
      it was compiled from, and so does the one that always sends them. */
  lemma ChangeDetectionIsFaithful(events: seq<Event>)
    requires AllGood(events)
    ensures Play(FRESH, CompileAll(NOTHING_SENT, events)).events == events
    ensures Play(FRESH, CompileAllNaively(events)).events == events
  {
    EventsArrive(FRESH, NOTHING_SENT, events);
    NaiveArrives(FRESH, events);
  }

  // ---- Framing -------------------------------------------------------------------------------------

  predicate SizeInStep(size: int, sent: Sent) {
    sent.size >= 0 ==> size == sent.size
  }

  lemma EventFramed(size: int, sent: Sent, e: Event)
    requires SizeInStep(size, sent) && Good(e)
    ensures AllFramed(Compile(sent, e), size) && SizeInStep(SizeAfterAll(Compile(sent, e), size), SentAfter(sent, e))
  {
    match e {
      case Other(r) => OneFramed(r, size);
      case DrShift(kind, mask, tdi, tdo) =>
        var a, b, c := SizePart(sent, tdi), MaskPart(sent, mask), [Data(kind, tdi, tdo)];
        SizeFramed(size, sent, tdi);
        MaskFramed(|tdi|, sent, mask);
        OneFramed(c[0], |tdi|);
        EncodeAppend(b, c, |tdi|);
        EncodeAppend(a, b + c, size);
    }
  }

  lemma SizeFramed(size: int, sent: Sent, tdi: Bits)
    requires SizeInStep(size, sent) && IsInt(|tdi|)
    ensures AllFramed(SizePart(sent, tdi), size) && SizeAfterAll(SizePart(sent, tdi), size) == |tdi|
  {
    if sent.size != |tdi| {
      OneFramed(SdrSize(|tdi|), size);
    }
  }

  lemma MaskFramed(size: int, sent: Sent, mask: Bits)
    requires size == |mask|
    ensures AllFramed(MaskPart(sent, mask), size) && SizeAfterAll(MaskPart(sent, mask), size) == size
  {
    if sent.mask != mask {
      OneFramed(TdoMask(Pack(mask)), size);
    }
  }

  lemma OneFramed(r: Record, size: int)
    requires Framed(r, size)
    ensures AllFramed([r], size) && EncodeAll([r], size) == Encode(r, size)
    ensures SizeAfterAll([r], size) == SizeAfter(r, size)
  {}

  lemma {:induction false} EventsFramed(size: int, sent: Sent, events: seq<Event>)
    requires SizeInStep(size, sent) && AllGood(events)
    ensures AllFramed(CompileAll(sent, events), size)
    ensures SizeInStep(SizeAfterAll(CompileAll(sent, events), size), SentAfterAll(sent, events))
    decreases |events|
  {
    hide Compile, Good, SentAfter, Framed;
    if events != [] {
      var k := |events| - 1;
      EventsFramed(size, sent, events[..k]);
      var records, before := CompileAll(sent, events[..k]), SentAfterAll(sent, events[..k]);
      EventFramed(SizeAfterAll(records, size), before, events[k]);
      EncodeAppend(records, Compile(before, events[k]), size);
    }
  }

  /** What the compiler writes for some events. */
  function Written(events: seq<Event>): Octets
    requires AllGood(events)
  {
    EventsFramed(0, NOTHING_SENT, events);
    EncodeAll(CompileAll(NOTHING_SENT, events), 0)
  }

  /** From statements to bytes and back: the dumper reads the whole file without meeting anything it does not know,
      and the records it finds play as exactly the events that were compiled. */
  lemma DumpedFilePlays(events: seq<Event>)
    requires AllGood(events)
    ensures
      var dumped := DumpAll(Written(events), 0);
      dumped.end == Finished && dumped.records == CompileAll(NOTHING_SENT, events)
      && Play(FRESH, dumped.records).events == events
  {
    EventsFramed(0, NOTHING_SENT, events);
    FramingRoundTrip(CompileAll(NOTHING_SENT, events), 0);
    EventsArrive(FRESH, NOTHING_SENT, events);
  }

  // ---- The bytes of one event ----------------------------------------------------------------------

  function SizeBytes(sent: Sent, tdi: Bits): Octets
    requires IsInt(|tdi|)
  {
    if sent.size != |tdi| then [XSDRSIZE] + PackInt(|tdi|) else []
  }

  function MaskBytes(sent: Sent, mask: Bits): Octets {
    if sent.mask != mask then [XTDOMASK] + Pack(mask) else []
  }

  function DataBytes(kind: Kind, tdi: Bits, tdo: Bits): Octets {
    match kind
    case Plain => [XSDR] + Pack(tdi)
    case Checked => [XSDRTDO] + (Pack(tdi) + Pack(tdo))
    case Looped => [LSDR] + (Pack(tdi) + Pack(tdo))
  }

  function EventBytes(sent: Sent, e: Event): Octets
    requires Good(e)
  {
    match e
    case Other(r) => Encode(r, 0)
    case DrShift(kind, mask, tdi, tdo) => SizeBytes(sent, tdi) + (MaskBytes(sent, mask) + DataBytes(kind, tdi, tdo))
  }

  /** The bytes that events add to a file when this was sent before. */
  function EventsBytes(sent: Sent, events: seq<Event>): Octets
    requires AllGood(events)
  {
    if events == [] then []
    else
      var k := |events| - 1;
      EventsBytes(sent, events[..k]) + EventBytes(SentAfterAll(sent, events[..k]), events[k])
  }

  lemma DataEncoded(kind: Kind, tdi: Bits, tdo: Bits)
    requires |tdo| == if kind == Plain then 0 else |tdi|
    ensures Framed(Data(kind, tdi, tdo), |tdi|) && Encode(Data(kind, tdi, tdo), |tdi|) == DataBytes(kind, tdi, tdo)
  {}

  lemma SizeEncoded(size: int, sent: Sent, tdi: Bits)
    requires SizeInStep(size, sent) && IsInt(|tdi|)
    ensures AllFramed(SizePart(sent, tdi), size) && EncodeAll(SizePart(sent, tdi), size) == SizeBytes(sent, tdi)
  {
    if sent.size != |tdi| {
      OneFramed(SdrSize(|tdi|), size);
    }
  }

  lemma MaskEncoded(size: int, sent: Sent, mask: Bits)
    requires size == |mask|
    ensures AllFramed(MaskPart(sent, mask), size) && EncodeAll(MaskPart(sent, mask), size) == MaskBytes(sent, mask)
  {
    if sent.mask != mask {
      OneFramed(TdoMask(Pack(mask)), size);
    }
  }

  lemma EventEncoded(size: int, sent: Sent, e: Event)
    requires SizeInStep(size, sent) && Good(e)
    ensures AllFramed(Compile(sent, e), size) && EncodeAll(Compile(sent, e), size) == EventBytes(sent, e)
  {
    match e {
      case Other(r) => OneFramed(r, size);
      case DrShift(kind, mask, tdi, tdo) =>
        hide SizePart, MaskPart, Data, SizeBytes, MaskBytes, DataBytes;
        var a, b, c := SizePart(sent, tdi), MaskPart(sent, mask), [Data(kind, tdi, tdo)];
        SizeFramed(size, sent, tdi);
        SizeEncoded(size, sent, tdi);
        MaskFramed(|tdi|, sent, mask);
        MaskEncoded(|tdi|, sent, mask);
        DataEncoded(kind, tdi, tdo);
        OneFramed(c[0], |tdi|);
        EncodeAppend(b, c, |tdi|);
        EncodeAppend(a, b + c, size);
    }
  }

  /** What one more event adds to the file. */
  lemma WrittenMore(events: seq<Event>, e: Event)
    requires AllGood(events) && Good(e)
    ensures AllGood(events + [e])
    ensures Written(events + [e]) == Written(events) + EventBytes(SentAfterAll(NOTHING_SENT, events), e)
    ensures SentAfterAll(NOTHING_SENT, events + [e]) == SentAfter(SentAfterAll(NOTHING_SENT, events), e)
  {
    hide Compile, EventBytes, Good;
    var records, sent := CompileAll(NOTHING_SENT, events), SentAfterAll(NOTHING_SENT, events);
    assert (events + [e])[..|events|] == events && (events + [e])[|events|] == e;
    EventsFramed(0, NOTHING_SENT, events);
    EventEncoded(SizeAfterAll(records, 0), sent, e);
    EncodeAppend(records, Compile(sent, e), 0);
  }

  lemma {:induction false} WrittenAppend(events: seq<Event>, more: seq<Event>)
    requires AllGood(events) && AllGood(more)
    ensures AllGood(events + more)
    ensures Written(events + more) == Written(events) + EventsBytes(SentAfterAll(NOTHING_SENT, events), more)
    ensures SentAfterAll(NOTHING_SENT, events + more) == SentAfterAll(SentAfterAll(NOTHING_SENT, events), more)
    decreases |more|
  {
    hide Written, EventBytes, Good, SentAfter;
    if more == [] {
      assert events + more == events;
    } else {
      var k := |more| - 1;
      WrittenAppend(events, more[..k]);
      WrittenMore(events + more[..k], more[k]);
      assert (events + more[..k]) + [more[k]] == events + more;
      SentInTwoParts(SentAfterAll(NOTHING_SENT, events), more, k);
    }
  }

  lemma SentInTwoParts(sent: Sent, more: seq<Event>, k: nat)
    requires |more| == k + 1
    ensures SentAfterAll(sent, more) == SentAfter(SentAfterAll(sent, more[..k]), more[k])
  {}

  lemma BytesOfOne(sent: Sent, e: Event)
    requires Good(e)
    ensures EventsBytes(sent, [e]) == EventBytes(sent, e)
  {
    assert [e][..0] == [];
  }

  lemma BytesOfNone(sent: Sent)
    ensures EventsBytes(sent, []) == []
  {}

  lemma BytesOfLast(sent: Sent, events: seq<Event>, r: Record)
    requires AllGood(events) && Good(Other(r))
    ensures EventsBytes(sent, events + [Other(r)]) == EventsBytes(sent, events) + Encode(r, 0)
  {
    assert (events + [Other(r)])[..|events|] == events;
  }
}
