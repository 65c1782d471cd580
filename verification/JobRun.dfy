/** The update job in terms of the state machine: what it does is a run, and what follows from that for the image that
    ends up installed. */
module JobRun {
  import opened Wrappers
  import opened NorFlash
  import opened FlashControl
  import opened DeviceConfig
  import opened OtaDownload
  import opened OtaSystem
  import opened BootLoader
  import opened UpdateJob
  import C = Crc16

  // ---- A job on its own ----------------------------------------------------------------------------

  function FetchState(s: State, ops: seq<FlashOp>, k: nat): State
    requires k <= |ops|
  {
    State(ApplyAll(s.flash, ops[..k]), Downloading, s.image)
  }

  function RequestState(l: ValidLayout, s: State, ops: seq<FlashOp>, buffer: Bytes, k: nat): State
    requires ConfigBuffer(l, buffer) && k <= |ConfigOps(l, buffer)|
  {
    var mid := ApplyAll(s.flash, ops);
    State(ApplyAll(mid, ConfigOps(l, buffer)[..k]), Saving(MakeRequest, mid, buffer, k), s.image)
  }

  /** The states of an accepted job: it downloads with ops, then saves the request in buffer. */
  function JobStates(l: ValidLayout, s: State, ops: seq<FlashOp>, buffer: Bytes): (states: seq<State>)
    requires ConfigBuffer(l, buffer)
    ensures |states| == |ops| + |ConfigOps(l, buffer)| + 3
  {
    var n := |ConfigOps(l, buffer)|;
    [s]
    + seq(|ops| + 1, k requires 0 <= k <= |ops| => FetchState(s, ops, k))
    + seq(n + 1, k requires 0 <= k <= n => RequestState(l, s, ops, buffer, k))
  }

  lemma FetchStep(l: ValidLayout, s: State, ops: seq<FlashOp>, k: nat, high: nat)
    requires k < |ops| && AllInside(ops, Ota.Start(), high)
    ensures Next(l, FetchState(s, ops, k), FetchState(s, ops, k + 1), high)
  {
    ApplyNext(s.flash, ops, k);
    assert ops[k].Inside(Ota.Start(), high);
    assert DownloadStep(FetchState(s, ops, k), FetchState(s, ops, k + 1), high);
  }

  lemma RequestStep(l: ValidLayout, s: State, ops: seq<FlashOp>, buffer: Bytes, k: nat, high: nat)
    requires ConfigBuffer(l, buffer) && k < |ConfigOps(l, buffer)|
    ensures SaveStep(l, RequestState(l, s, ops, buffer, k), RequestState(l, s, ops, buffer, k + 1))
    ensures Next(l, RequestState(l, s, ops, buffer, k), RequestState(l, s, ops, buffer, k + 1), high)
  {
    ApplyNext(ApplyAll(s.flash, ops), ConfigOps(l, buffer), k);
    assert SaveStep(l, RequestState(l, s, ops, buffer, k), RequestState(l, s, ops, buffer, k + 1));
  }

  /** What a buffer with a request says of it. */
  ghost predicate Asks(l: ValidLayout, buffer: Bytes, firmware: Firmware)
    requires |buffer| >= l.size
  {
    var info := OtaInfo(l, buffer);
    InfoEnabled(l, info) && InfoSize(info) == firmware.size as nat && InfoCrc(info) == C.Word(firmware.crc)
  }

  lemma RequestAsks(l: ValidLayout, config: Bytes, firmware: Firmware, behind: Bytes)
    requires |config| == l.size && |behind| >= PAGE_SIZE
    ensures Asks(l, RequestBuffer(l, config, firmware, behind), firmware)
  {
    BufferInfo(l, RequestBuffer(l, config, firmware, behind));
    RequestWritten(l, config, firmware.size, firmware.crc);
  }

  /** The request in buffer is one that the flash m backs. */
  ghost predicate Supported(l: ValidLayout, buffer: Bytes, m: Memory) {
    && ConfigBuffer(l, buffer)
    && InfoEnabled(l, OtaInfo(l, buffer)) && Backed(l, OtaInfo(l, buffer), m)
  }

  lemma AsksBacked(l: ValidLayout, buffer: Bytes, firmware: Firmware, m: Memory)
    requires ConfigBuffer(l, buffer) && Asks(l, buffer, firmware) && Matches(m, firmware)
    ensures Supported(l, buffer, m)
  {}

  lemma RequestBegins(l: ValidLayout, s: State, t: State, mid: Memory, buffer: Bytes, image: Image, high: nat)
    requires Supported(l, buffer, mid)
    requires s == State(mid, Downloading, image)
    requires t == State(mid, Saving(MakeRequest, mid, buffer, 0), image)
    ensures Next(l, s, t, high)
  {
    assert Request(l, s, t);
  }

  lemma FetchLast(s: State, ops: seq<FlashOp>)
    ensures FetchState(s, ops, |ops|) == State(ApplyAll(s.flash, ops), Downloading, s.image)
  {
    assert ops[..|ops|] == ops;
  }

  lemma RequestFirst(l: ValidLayout, s: State, ops: seq<FlashOp>, buffer: Bytes, mid: Memory)
    requires ConfigBuffer(l, buffer) && mid == ApplyAll(s.flash, ops)
    ensures RequestState(l, s, ops, buffer, 0) == State(mid, Saving(MakeRequest, mid, buffer, 0), s.image)
  {
    assert ConfigOps(l, buffer)[..0] == [];
  }

  lemma MiddleStep(l: ValidLayout, s: State, ops: seq<FlashOp>, buffer: Bytes, mid: Memory, high: nat)
    requires Supported(l, buffer, mid) && mid == ApplyAll(s.flash, ops)
    ensures Next(l, FetchState(s, ops, |ops|), RequestState(l, s, ops, buffer, 0), high)
  {
    FetchLast(s, ops);
    RequestFirst(l, s, ops, buffer, mid);
    RequestBegins(l, FetchState(s, ops, |ops|), RequestState(l, s, ops, buffer, 0), mid, buffer, s.image, high);
  }

  lemma StartStep(l: ValidLayout, s: State, ops: seq<FlashOp>, high: nat)
    requires s.phase.Running?
    ensures Next(l, s, FetchState(s, ops, 0), high)
  {
    assert ops[..0] == [];
    assert StartDownload(s, FetchState(s, ops, 0));
  }

  lemma FetchStateAt(l: ValidLayout, s: State, ops: seq<FlashOp>, buffer: Bytes, k: nat)
    requires ConfigBuffer(l, buffer) && k <= |ops|
    ensures JobStates(l, s, ops, buffer)[k + 1] == FetchState(s, ops, k)
  {}

  lemma RequestStateAt(l: ValidLayout, s: State, ops: seq<FlashOp>, buffer: Bytes, k: nat)
    requires ConfigBuffer(l, buffer) && k <= |ConfigOps(l, buffer)|
    ensures JobStates(l, s, ops, buffer)[|ops| + 2 + k] == RequestState(l, s, ops, buffer, k)
  {}

  lemma FetchPart(l: ValidLayout, s: State, ops: seq<FlashOp>, buffer: Bytes, k: nat, high: nat)
    requires AllInside(ops, Ota.Start(), high) && ConfigBuffer(l, buffer) && k < |ops|
    ensures Next(l, JobStates(l, s, ops, buffer)[k + 1], JobStates(l, s, ops, buffer)[k + 2], high)
  {
    FetchStep(l, s, ops, k, high);
    FetchStateAt(l, s, ops, buffer, k);
    FetchStateAt(l, s, ops, buffer, k + 1);
  }

  lemma RequestPart(l: ValidLayout, s: State, ops: seq<FlashOp>, buffer: Bytes, k: nat, high: nat)
    requires ConfigBuffer(l, buffer) && k < |ConfigOps(l, buffer)|
    ensures Next(l, JobStates(l, s, ops, buffer)[|ops| + 2 + k], JobStates(l, s, ops, buffer)[|ops| + 2 + (k + 1)],
                 high)
  {
    RequestStep(l, s, ops, buffer, k, high);
    RequestStateAt(l, s, ops, buffer, k);
    RequestStateAt(l, s, ops, buffer, k + 1);
  }

  lemma MiddlePart(l: ValidLayout, s: State, ops: seq<FlashOp>, buffer: Bytes, mid: Memory, high: nat)
    requires Supported(l, buffer, mid) && mid == ApplyAll(s.flash, ops)
    ensures Next(l, JobStates(l, s, ops, buffer)[|ops| + 1], JobStates(l, s, ops, buffer)[|ops| + 2], high)
  {
    MiddleStep(l, s, ops, buffer, mid, high);
    FetchStateAt(l, s, ops, buffer, |ops|);
    RequestStateAt(l, s, ops, buffer, 0);
  }

  lemma JobStep(l: ValidLayout, s: State, ops: seq<FlashOp>, buffer: Bytes, i: nat, high: nat)
    requires s.phase.Running? && AllInside(ops, Ota.Start(), high)
    requires Supported(l, buffer, ApplyAll(s.flash, ops))
    requires i + 1 < |JobStates(l, s, ops, buffer)|
    ensures Next(l, JobStates(l, s, ops, buffer)[i], JobStates(l, s, ops, buffer)[i + 1], high)
  {
    if i == 0 {
      StartStep(l, s, ops, high);
      FetchStateAt(l, s, ops, buffer, 0);
    } else if i <= |ops| {
      FetchPart(l, s, ops, buffer, i - 1, high);
    } else if i == |ops| + 1 {
      MiddlePart(l, s, ops, buffer, ApplyAll(s.flash, ops), high);
    } else {
      RequestPart(l, s, ops, buffer, i - |ops| - 2, high);
    }
  }

  lemma JobFlash(l: ValidLayout, s: State, ops: seq<FlashOp>, buffer: Bytes, k: nat)
    requires ConfigBuffer(l, buffer) && k <= |ops + ConfigOps(l, buffer)|
    ensures Visits(JobStates(l, s, ops, buffer), ApplyAll(s.flash, (ops + ConfigOps(l, buffer))[..k]))
  {
    var states, save := JobStates(l, s, ops, buffer), ConfigOps(l, buffer);
    PrefixFlash(s.flash, ops, save, k);
    if k <= |ops| {
      FetchStateAt(l, s, ops, buffer, k);
    } else {
      RequestStateAt(l, s, ops, buffer, k - |ops|);
    }
  }

  lemma JobEnds(l: ValidLayout, s: State, ops: seq<FlashOp>, buffer: Bytes)
    requires ConfigBuffer(l, buffer)
    ensures
      var states := JobStates(l, s, ops, buffer);
      states[|states| - 1].flash == ApplyAll(s.flash, ops + ConfigOps(l, buffer))
      && states[|states| - 1].image == s.image
  {
    hide ApplyAll, ConfigOps;
    var save := ConfigOps(l, buffer);
    ApplyAllAppend(s.flash, ops, save);
    assert save[..|save|] == save;
    RequestStateAt(l, s, ops, buffer, |save|);
  }

  /** An accepted job is a run of the state machine that passes through the flash of every prefix of its
      operations: every power cut inside it is one of that run. */
  lemma JobIsRun(l: ValidLayout, s: State, ops: seq<FlashOp>, config: Bytes, firmware: Firmware, behind: Bytes, k: nat,
                 high: nat)
    requires s.phase.Running? && AllInside(ops, Ota.Start(), high)
    requires |config| == l.size && |behind| >= PAGE_SIZE
    requires Matches(ApplyAll(s.flash, ops), firmware)
    requires k <= |ops + ConfigOps(l, RequestBuffer(l, config, firmware, behind))|
    ensures
      var buffer := RequestBuffer(l, config, firmware, behind);
      var states, all := JobStates(l, s, ops, buffer), ops + ConfigOps(l, buffer);
      && Run(l, states, high) && states[0] == s && states[|states| - 1].flash == ApplyAll(s.flash, all)
      && Visits(states, ApplyAll(s.flash, all[..k]))
  {
    var buffer := RequestBuffer(l, config, firmware, behind);
    RequestAsks(l, config, firmware, behind);
    AsksBacked(l, buffer, firmware, ApplyAll(s.flash, ops));
    JobRuns(l, s, ops, buffer, high);
    JobFlash(l, s, ops, buffer, k);
    JobEnds(l, s, ops, buffer);
  }

  /** The states of a job whose download does not get to its end. */
  function FaultedStates(s: State, ops: seq<FlashOp>): (states: seq<State>)
    ensures |states| == |ops| + 2
  {
    [s] + seq(|ops| + 1, k requires 0 <= k <= |ops| => FetchState(s, ops, k))
  }

  lemma FaultedStateAt(s: State, ops: seq<FlashOp>, k: nat)
    requires k <= |ops|
    ensures FaultedStates(s, ops)[k + 1] == FetchState(s, ops, k)
  {}

  lemma FaultedStep(l: ValidLayout, s: State, ops: seq<FlashOp>, i: nat, high: nat)
    requires s.phase.Running? && AllInside(ops, Ota.Start(), high) && i <= |ops|
    ensures Next(l, FaultedStates(s, ops)[i], FaultedStates(s, ops)[i + 1], high)
  {
    hide FetchState, Next;
    FaultedStateAt(s, ops, i);
    if i == 0 {
      StartStep(l, s, ops, high);
    } else {
      FaultedStateAt(s, ops, i - 1);
      FetchStep(l, s, ops, i - 1, high);
    }
  }

  lemma FaultedEnd(s: State, ops: seq<FlashOp>)
    ensures Last(FaultedStates(s, ops)) == State(ApplyAll(s.flash, ops), Downloading, s.image)
  {
    FaultedStateAt(s, ops, |ops|);
    FetchLast(s, ops);
  }

  lemma FaultedVisits(s: State, ops: seq<FlashOp>, k: nat)
    requires k <= |ops|
    ensures Visits(FaultedStates(s, ops), ApplyAll(s.flash, ops[..k]))
  {
    hide ApplyAll, FaultedStates;
    FaultedStateAt(s, ops, k);
  }

  lemma FaultedJobIsRun(l: ValidLayout, s: State, ops: seq<FlashOp>, k: nat, high: nat)
    requires s.phase.Running? && AllInside(ops, Ota.Start(), high) && k <= |ops|
    ensures
      var states := FaultedStates(s, ops);
      && Run(l, states, high) && states[0] == s && Last(states).flash == ApplyAll(s.flash, ops)
      && Visits(states, ApplyAll(s.flash, ops[..k]))
  {
    hide ApplyAll, Next, FetchState;
    var states := FaultedStates(s, ops);
    forall i | 0 <= i < |states| - 1
      ensures Next(l, states[i], states[i + 1], high)
    {
      FaultedStep(l, s, ops, i, high);
    }
    FaultedEnd(s, ops);
    FaultedVisits(s, ops, k);
  }

  /** The states of a job that downloads with ops and then gives up. */
  function RejectedStates(s: State, ops: seq<FlashOp>): (states: seq<State>)
    ensures |states| == |ops| + 3
  {
    FaultedStates(s, ops) + [State(ApplyAll(s.flash, ops), Running, s.image)]
  }

  lemma GiveUpStep(l: ValidLayout, s: State, t: State, high: nat)
    requires s.phase.Downloading? && t == s.(phase := Running)
    ensures Next(l, s, t, high)
  {
    assert GiveUp(s, t);
  }

  /** A rejected job is a run of the state machine too. */
  lemma RejectedJobIsRun(l: ValidLayout, s: State, ops: seq<FlashOp>, k: nat, high: nat)
    requires s.phase.Running? && AllInside(ops, Ota.Start(), high) && k <= |ops|
    ensures
      var states := RejectedStates(s, ops);
      && Run(l, states, high) && states[0] == s
      && states[|states| - 1] == State(ApplyAll(s.flash, ops), Running, s.image)
      && Visits(states, ApplyAll(s.flash, ops[..k]))
  {
    hide ApplyAll, Next, FaultedStates;
    var states, end := FaultedStates(s, ops), State(ApplyAll(s.flash, ops), Running, s.image);
    FaultedJobIsRun(l, s, ops, k, high);
    FaultedEnd(s, ops);
    GiveUpStep(l, Last(states), end, high);
    RunGrows(l, states, end, high);
    var i :| 0 <= i < |states| && states[i].flash == ApplyAll(s.flash, ops[..k]);
    assert (states + [end])[i] == states[i];
  }

  /** A run from s that performs done, passing through the flash of every prefix of it. */
  ghost predicate Performs(l: ValidLayout, states: seq<State>, s: State, done: seq<FlashOp>, high: nat) {
    && Run(l, states, high) && states[0] == s && Last(states).flash == ApplyAll(s.flash, done)
    && forall k :: 0 <= k <= |done| ==> Visits(states, ApplyAll(s.flash, done[..k]))
  }

  lemma NothingPerformed(l: ValidLayout, s: State, high: nat)
    ensures Performs(l, [s], s, [], high)
  {
    hide ApplyAll;
    var done: seq<FlashOp> := [];
    NoOps(s.flash);
    forall k | 0 <= k <= |done|
      ensures Visits([s], ApplyAll(s.flash, done[..k]))
    {
      assert done[..k] == [] && [s][0].flash == s.flash;
    }
  }

  lemma NoOps(m: Memory)
    ensures ApplyAll(m, []) == m
  {}

  /** The states a job passes through, for what becomes of it. */
  function StatesOf(l: ValidLayout, s: State, config: Bytes, job: Job, verdict: Verdict, ops: seq<FlashOp>)
    : (states: seq<State>)
    requires |config| == l.size && SaneJob(job)
  {
    if job.jobType != "OTA" || job.params.None? || !job.newer then
      [s]
    else
      match verdict
      case DriverFault => FaultedStates(s, ops)
      case Rejected => RejectedStates(s, ops)
      case Accepted =>
        var disabled := WithStatus(l, config, false);
        JobStates(l, s, ops, RequestBuffer(l, disabled, job.params.value, job.behind))
  }

  /** The content of the job's download, if it gets that far, fits the download area. */
  predicate JobFits(job: Job, deliveries: seq<Bytes>)
    requires SaneJob(job)
  {
    job.jobType == "OTA" && job.params.Some? && job.newer ==> ContentFits(job.link, deliveries)
  }

  /** Whatever a job document does to the flash is a run of the state machine that passes through the flash of every
      prefix of its operations. The download of that run stays in its area if the content fits there. */
  lemma DocumentPerforms(l: ValidLayout, s: State, config: Bytes, job: Job, deliveries: seq<Bytes>, verdict: Verdict,
                         d: Download, done: seq<FlashOp>, after: Bytes, high: nat)
    requires s.phase.Running? && |config| == l.size && SaneJob(job)
    requires DocumentDone(l, s.flash, config, job, deliveries, verdict, d, done, after)
    requires high == CHIP_SIZE || (high == Ota.End() && JobFits(job, deliveries))
    ensures Performs(l, StatesOf(l, s, config, job, verdict, d.ops), s, done, high)
  {
    hide Matches, ConfigOps, WithStatus, Requested, JobStates, RejectedStates, FaultedStates, Next, Fetched;
    hide ContentFits, RequestBuffer, ApplyAll;
    var states := StatesOf(l, s, config, job, verdict, d.ops);
    if job.jobType != "OTA" || job.params.None? || !job.newer {
      NothingPerformed(l, s, high);
    } else {
      FetchedInArea(s.flash, job.link, deliveries, d);
      forall k | 0 <= k <= |done|
        ensures Run(l, states, high) && states[0] == s && Last(states).flash == ApplyAll(s.flash, done)
        ensures Visits(states, ApplyAll(s.flash, done[..k]))
      {
        match verdict
        case DriverFault => FaultedJobIsRun(l, s, d.ops, k, high);
        case Rejected => RejectedJobIsRun(l, s, d.ops, k, high);
        case Accepted => JobIsRun(l, s, d.ops, WithStatus(l, config, false), job.params.value, job.behind, k, high);
      }
      assert done[..0] == [];
    }
  }

  /** A job document as a run. Where its download fits its area, which the program does not check, the run keeps the
      invariant in every state; unless the job reboots the device or faults, it ends with the application running. */
  lemma DocumentIsRun(l: ValidLayout, s: State, config: Bytes, job: Job, deliveries: seq<Bytes>, verdict: Verdict,
                      d: Download, done: seq<FlashOp>, after: Bytes)
    returns (states: seq<State>)
    requires s.phase.Running? && |config| == l.size && SaneJob(job)
    requires DocumentDone(l, s.flash, config, job, deliveries, verdict, d, done, after)
    ensures Performs(l, states, s, done, CHIP_SIZE)
    ensures verdict.Rejected? || job.jobType != "OTA" ==> Last(states) == s.(flash := ApplyAll(s.flash, done))
    ensures JobFits(job, deliveries) ==> Performs(l, states, s, done, Ota.End())
    ensures JobFits(job, deliveries) && Inv(l, s) ==> forall i :: 0 <= i < |states| ==> Inv(l, states[i])
  {
    hide Matches, ConfigOps, WithStatus, Requested, JobStates, Next, Inv, Fetched, Visits, ContentFits, RequestBuffer;
    states := StatesOf(l, s, config, job, verdict, d.ops);
    DocumentPerforms(l, s, config, job, deliveries, verdict, d, done, after, CHIP_SIZE);
    if JobFits(job, deliveries) {
      DocumentPerforms(l, s, config, job, deliveries, verdict, d, done, after, Ota.End());
      if Inv(l, s) {
        forall i | 0 <= i < |states|
          ensures Inv(l, states[i])
        {
          RunKeepsInv(l, states, i);
        }
      }
    }
  }

  lemma JobRuns(l: ValidLayout, s: State, ops: seq<FlashOp>, buffer: Bytes, high: nat)
    requires s.phase.Running? && AllInside(ops, Ota.Start(), high)
    requires Supported(l, buffer, ApplyAll(s.flash, ops))
    ensures Run(l, JobStates(l, s, ops, buffer), high) && JobStates(l, s, ops, buffer)[0] == s
  {
    var states := JobStates(l, s, ops, buffer);
    forall i | 0 <= i < |states| - 1
      ensures Next(l, states[i], states[i + 1], high)
    {
      JobStep(l, s, ops, buffer, i, high);
    }
  }

  lemma {:induction false} RunKeepsInv(l: ValidLayout, states: seq<State>, i: nat)
    requires Run(l, states, Ota.End()) && Inv(l, states[0]) && i < |states|
    ensures Inv(l, states[i])
    decreases i
  {
    if i > 0 {
      RunKeepsInv(l, states, i - 1);
      assert Next(l, states[i - 1], states[i - 1 + 1], Ota.End());
      StepKeepsInvariant(l, states[i - 1], states[i]);
    }
  }

  // ---- From the job to the installed image ---------------------------------------------------------

  ghost function Last(states: seq<State>): State
    requires states != []
  {
    states[|states| - 1]
  }

  /** A run that starts a download and performs ops on the download area; the certificate may be written at any time
      beside it. */
  ghost predicate Fetches(states: seq<State>, ops: seq<FlashOp>, high: nat)
    decreases |states|
  {
    && states != []
    && if |states| == 1 then ops == []
       else
         var before := states[..|states| - 1];
         var s, t := Last(before), Last(states);
         || (Fetches(before, ops, high) && (StartDownload(s, t) || CertificateStep(s, t)))
         || (ops != [] && Fetches(before, ops[..|ops| - 1], high) && Fetch(s, t, ops[|ops| - 1], high))
  }

  ghost predicate Fetch(s: State, t: State, op: FlashOp, high: nat) {
    s.phase.Downloading? && op.Inside(Ota.Start(), high) && t == s.(flash := Apply(s.flash, op))
  }

  /** A run that begins with the request of buffer and performs k operations of its save; the certificate may be
      written at any time beside it. */
  ghost predicate Saves(l: ValidLayout, states: seq<State>, buffer: Bytes, k: nat)
    decreases |states|
  {
    && states != [] && ConfigBuffer(l, buffer)
    && if |states| == 1 then k == 0 && states[0].phase == Saving(MakeRequest, states[0].flash, buffer, 0)
       else
         var before := states[..|states| - 1];
         var s, t := Last(before), Last(states);
         || (Saves(l, before, buffer, k) && CertificateStep(s, t))
         || (k > 0 && Saves(l, before, buffer, k - 1) && SaveStep(l, s, t))
  }

  /** Whatever goes on beside it, only the job's own operations change the download area. */
  lemma {:induction false} FetchesOnly(states: seq<State>, ops: seq<FlashOp>, high: nat)
    requires Fetches(states, ops, high)
    ensures Agree(Last(states).flash, ApplyAll(states[0].flash, ops), Ota.Start(), Ota.End())
    decreases |states|
  {
    if |states| > 1 {
      var before := states[..|states| - 1];
      var s, t := Last(before), Last(states);
      if Fetches(before, ops, high) && (StartDownload(s, t) || CertificateStep(s, t)) {
        FetchesOnly(before, ops, high);
        if CertificateStep(s, t) {
          CertificateLeaves(s, t);
        }
      } else {
        FetchesOnly(before, ops[..|ops| - 1], high);
        AgreeAfterOp(s.flash, ApplyAll(states[0].flash, ops[..|ops| - 1]), ops[|ops| - 1], Ota.Start(), Ota.End());
      }
    }
  }

  lemma CertificateLeaves(s: State, t: State)
    requires CertificateStep(s, t)
    ensures Agree(t.flash, s.flash, Ota.Start(), Ota.End())
    ensures Agree(t.flash, s.flash, CONFIG, CONFIG + CONFIG_LIMIT)
  {
    var low, high := CERT, CERT + 4096 * Sectors(CERT_INFO_SIZE);
    var op: FlashOp :| op.Inside(low, high) && t.flash == Apply(s.flash, op);
    OneOp(s.flash, op, low, high);
  }

  lemma SaveStepLeaves(l: ValidLayout, s: State, t: State)
    requires SaveStep(l, s, t)
    ensures Agree(t.flash, s.flash, Ota.Start(), Ota.End())
  {
    var op := ConfigOps(l, s.phase.buffer)[s.phase.next];
    ConfigOpsInside(l, s.phase.buffer);
    assert op.Inside(CONFIG, CONFIG + CONFIG_LIMIT);
    OneOp(s.flash, op, CONFIG, CONFIG + CONFIG_LIMIT);
  }

  /** How far the save has come, and that it leaves the download area alone. */
  lemma {:induction false} SavesOnly(l: ValidLayout, states: seq<State>, buffer: Bytes, k: nat)
    requires Saves(l, states, buffer, k)
    ensures k <= |ConfigOps(l, buffer)| && Last(states).phase == Saving(MakeRequest, states[0].flash, buffer, k)
    ensures SavedSoFar(l, Last(states).flash, states[0].flash, buffer, k)
    ensures Agree(Last(states).flash, states[0].flash, Ota.Start(), Ota.End())
    decreases |states|
  {
    hide ConfigOps;
    if |states| == 1 {
      assert ConfigOps(l, buffer)[..0] == [];
    } else {
      var before := states[..|states| - 1];
      var s, t := Last(before), Last(states);
      if Saves(l, before, buffer, k) && CertificateStep(s, t) {
        SavesOnly(l, before, buffer, k);
        CertificateLeaves(s, t);
      } else {
        SavesOnly(l, before, buffer, k - 1);
        SaveStepLeaves(l, s, t);
        SavedOneMore(l, s.flash, states[0].flash, buffer, k - 1);
      }
    }
  }

  /** A save that has come to its end leaves a request for the image behind. */
  lemma SavedRequest(l: ValidLayout, save: seq<State>, buffer: Bytes, firmware: Firmware)
    requires ConfigBuffer(l, buffer) && Saves(l, save, buffer, |ConfigOps(l, buffer)|) && Asks(l, buffer, firmware)
    ensures Enabled(l, Last(save).flash) && InfoSize(Info(l, Last(save).flash)) == firmware.size as nat
    ensures Agree(Last(save).flash, save[0].flash, Ota.Start(), Ota.End())
  {
    SavesOnly(l, save, buffer, |ConfigOps(l, buffer)|);
    SavedInfo(l, Last(save).flash, save[0].flash, buffer);
  }

  /** The verdict depends on the download area alone. */
  lemma SameVerdict(link: Link, d: Download, m: Memory, n: Memory, firmware: Firmware)
    requires Agree(m, n, Ota.Start(), Ota.End())
    ensures VerdictOf(link, d, m, firmware) == VerdictOf(link, d, n, firmware)
  {
    var size := firmware.size as nat;
    if size <= APPLICATION_SIZE {
      SameOta(m, n, size);
    }
  }

  /** From the job to the installed image. fetch is the download of a job, which its CRC check accepts, save the save
      of its request, and after what follows the reboot; the certificate may be written during the job, and power
      may fail any number of times in after. Every time the boot loader jumps, the application area holds exactly
      what the job left in the download area, with the announced CRC: over a connection the first bytes received, if
      no more were announced than came; without one what was there before. */
  lemma AcceptedJobIsInstalled(l: ValidLayout, fetch: seq<State>, link: Link, deliveries: seq<Bytes>, d: Download,
                               firmware: Firmware, save: seq<State>, buffer: Bytes, after: seq<State>, high: nat,
                               i: nat)
    requires Fetches(fetch, d.ops, high) && Sane(link, firmware) && Fetched(fetch[0].flash, link, deliveries, d)
    requires VerdictOf(link, d, Last(fetch).flash, firmware) == Accepted
    requires ConfigBuffer(l, buffer) && Saves(l, save, buffer, |ConfigOps(l, buffer)|) && Asks(l, buffer, firmware)
    requires save[0].flash == Last(fetch).flash
    requires QuietRun(l, after) && after[0] == Last(save).(phase := Off) && i < |after| && after[i].phase.Running?
    ensures
      var size := firmware.size as nat;
      var app := Load(after[i].flash, App.Start(), size);
      && C.Crc(app) == C.Word(firmware.crc)
      && app == Load(ApplyAll(fetch[0].flash, d.ops), Ota.Start(), size)
      && (link.NoConnection? ==> app == Load(fetch[0].flash, Ota.Start(), size))
      && (link.Connected? ==> app == AreaAfter(d.stream)[..size])
      && (link.Connected? && size <= |d.stream| ==> app == d.stream[..size])
      && (link.Connected? ==> (app <= d.stream <==> size <= |d.stream|))
  {
    assert fetch != [] && save != [] && after != [];
    hide AreaAfter, QuietRun, Asks, Updating, Fetches, Saves, Fetched, VerdictOf, ConfigOps, ApplyAll, Inv, Enabled;
    var size, mid := firmware.size as nat, ApplyAll(fetch[0].flash, d.ops);
    JobLeaves(l, fetch, link, d, firmware, save, buffer, high);
    AcceptedMatches(link, d, mid, firmware);
    CrashSafeUpdate(l, after, Load(mid, Ota.Start(), size), i);
    if link.Connected? {
      AcceptedImage(fetch[0].flash, link, deliveries, d, firmware);
    } else {
      NothingFetched(fetch[0].flash, link, deliveries, d);
    }
  }

  lemma AcceptedMatches(link: Link, d: Download, m: Memory, firmware: Firmware)
    requires VerdictOf(link, d, m, firmware) == Accepted
    ensures Matches(m, firmware)
  {}

  lemma NothingFetched(before: Memory, link: Link, deliveries: seq<Bytes>, d: Download)
    requires BodyFits(link) && Fetched(before, link, deliveries, d) && link.NoConnection?
    ensures ApplyAll(before, d.ops) == before
  {}

  /** What an accepted job leaves when it reboots the device: a request for the image that the CRC check has accepted,
      which is still in the download area. */
  lemma JobLeaves(l: ValidLayout, fetch: seq<State>, link: Link, d: Download, firmware: Firmware, save: seq<State>,
                  buffer: Bytes, high: nat)
    requires Fetches(fetch, d.ops, high) && firmware.size as nat <= APPLICATION_SIZE
    requires VerdictOf(link, d, Last(fetch).flash, firmware) == Accepted
    requires ConfigBuffer(l, buffer) && Saves(l, save, buffer, |ConfigOps(l, buffer)|) && Asks(l, buffer, firmware)
    requires save[0].flash == Last(fetch).flash
    ensures
      var size, end, mid := firmware.size as nat, Last(save).flash, ApplyAll(fetch[0].flash, d.ops);
      && VerdictOf(link, d, mid, firmware) == Accepted
      && Enabled(l, end) && InfoSize(Info(l, end)) == size
      && Load(end, Ota.Start(), size) == Load(mid, Ota.Start(), size)
  {
    assert fetch != [] && save != [];
    hide Asks, Fetches, Saves, VerdictOf, ConfigOps, ApplyAll, Enabled;
    var size, mid := firmware.size as nat, ApplyAll(fetch[0].flash, d.ops);
    FetchesOnly(fetch, d.ops, high);
    SameVerdict(link, d, Last(fetch).flash, mid, firmware);
    SavedRequest(l, save, buffer, firmware);
    SameOta(Last(save).flash, save[0].flash, size);
    SameOta(Last(fetch).flash, mid, size);
  }

  // Such runs are runs of the state machine, and the states of an accepted job are one of them.

  lemma {:induction false} FetchesIsRun(l: ValidLayout, states: seq<State>, ops: seq<FlashOp>, high: nat)
    requires Fetches(states, ops, high)
    ensures Run(l, states, high)
    decreases |states|
  {
    hide Next, QuietNext;
    if |states| > 1 {
      var before := states[..|states| - 1];
      FetchesIsRun(l, before, if Fetches(before, ops, high) then ops else ops[..|ops| - 1], high);
      FetchesStep(l, states, ops, high);
      RunGrows(l, before, Last(states), high);
      assert states == before + [Last(states)];
    }
  }

  lemma FetchesStep(l: ValidLayout, states: seq<State>, ops: seq<FlashOp>, high: nat)
    requires Fetches(states, ops, high) && |states| > 1
    ensures Next(l, states[|states| - 2], Last(states), high)
  {
    var s, t := states[|states| - 2], Last(states);
    if !(StartDownload(s, t) || CertificateStep(s, t)) {
      assert DownloadStep(s, t, high);
    }
  }

  lemma {:induction false} SavesIsRun(l: ValidLayout, states: seq<State>, buffer: Bytes, k: nat, high: nat)
    requires Saves(l, states, buffer, k)
    ensures Run(l, states, high)
    decreases |states|
  {
    hide ConfigOps, SaveStep, CertificateStep;
    if |states| > 1 {
      var before := states[..|states| - 1];
      SavesIsRun(l, before, buffer, if Saves(l, before, buffer, k) then k else k - 1, high);
      assert Next(l, Last(before), Last(states), high);
      RunGrows(l, before, Last(states), high);
      assert states == before + [Last(states)];
    }
  }

  lemma RunGrows(l: ValidLayout, states: seq<State>, t: State, high: nat)
    requires Run(l, states, high) && Next(l, Last(states), t, high)
    ensures Run(l, states + [t], high)
  {
    hide Next;
    var all := states + [t];
    forall i | 0 <= i < |all| - 1
      ensures Next(l, all[i], all[i + 1], high)
    {
      if i < |states| - 1 {
        assert Next(l, states[i], states[i + 1], high);
      }
    }
  }

  lemma {:induction false} SavesFirst(l: ValidLayout, states: seq<State>, buffer: Bytes, k: nat)
    requires Saves(l, states, buffer, k)
    ensures states[0].phase == Saving(MakeRequest, states[0].flash, buffer, 0)
    decreases |states|
  {
    hide ConfigOps, SaveStep, CertificateStep;
    if |states| > 1 {
      var before := states[..|states| - 1];
      SavesFirst(l, before, buffer, if Saves(l, before, buffer, k) then k else k - 1);
    }
  }

  /** A download, and the save of a request that the downloaded area backs, are one run. */
  lemma AcceptedJobIsRun(l: ValidLayout, fetch: seq<State>, ops: seq<FlashOp>, save: seq<State>, buffer: Bytes, k: nat,
                         high: nat)
    requires Fetches(fetch, ops, high) && Saves(l, save, buffer, k) && Last(fetch).phase.Downloading?
    requires save[0].flash == Last(fetch).flash && save[0].image == Last(fetch).image
    requires Supported(l, buffer, save[0].flash)
    ensures Run(l, fetch + save, high)
  {
    hide Next, Supported;
    FetchesIsRun(l, fetch, ops, high);
    SavesIsRun(l, save, buffer, k, high);
    SavesFirst(l, save, buffer, k);
    RequestBegins(l, Last(fetch), save[0], save[0].flash, buffer, save[0].image, high);
    var all, n := fetch + save, |fetch|;
    forall i | 0 <= i < |all| - 1
      ensures Next(l, all[i], all[i + 1], high)
    {
      if i < n - 1 {
        assert Next(l, fetch[i], fetch[i + 1], high);
      } else if i >= n {
        var j := i - n;
        assert Next(l, save[j], save[j + 1], high);
      }
    }
  }

  lemma {:induction false} JobFetches(l: ValidLayout, s: State, ops: seq<FlashOp>, buffer: Bytes, k: nat, high: nat)
    requires s.phase.Running? && AllInside(ops, Ota.Start(), high) && ConfigBuffer(l, buffer) && k <= |ops|
    ensures Fetches(JobStates(l, s, ops, buffer)[..k + 2], ops[..k], high)
    decreases k
  {
    hide JobStates, ConfigOps;
    var states := JobStates(l, s, ops, buffer)[..k + 2];
    FetchStateAt(l, s, ops, buffer, k);
    if k == 0 {
      JobStarts(l, s, ops, buffer);
      assert ops[..0] == [];
      assert Fetches(states[..1], [], high);
      assert StartDownload(states[0], states[1]);
    } else {
      JobFetches(l, s, ops, buffer, k - 1, high);
      FetchStateAt(l, s, ops, buffer, k - 1);
      ApplyNext(s.flash, ops, k - 1);
      assert states[..k + 1] == JobStates(l, s, ops, buffer)[..k + 1];
      assert ops[..k][..k - 1] == ops[..k - 1];
      assert ops[k - 1].Inside(Ota.Start(), high);
    }
  }

  lemma JobStarts(l: ValidLayout, s: State, ops: seq<FlashOp>, buffer: Bytes)
    requires ConfigBuffer(l, buffer)
    ensures JobStates(l, s, ops, buffer)[0] == s
    ensures FetchState(s, ops, 0) == State(s.flash, Downloading, s.image)
  {
    assert ops[..0] == [];
  }

  lemma SavesGrows(l: ValidLayout, before: seq<State>, t: State, buffer: Bytes, k: nat)
    requires Saves(l, before, buffer, k) && SaveStep(l, Last(before), t)
    ensures Saves(l, before + [t], buffer, k + 1)
  {
    hide SaveStep, CertificateStep, ConfigOps;
    SavesOnly(l, before, buffer, k);
    SaveStepRoom(l, Last(before), t, buffer, k);
    var states := before + [t];
    assert states[..|states| - 1] == before;
  }

  lemma SaveStepRoom(l: ValidLayout, s: State, t: State, buffer: Bytes, k: nat)
    requires ConfigBuffer(l, buffer) && SaveStep(l, s, t) && s.phase.buffer == buffer && s.phase.next == k
    ensures k < |ConfigOps(l, buffer)|
  {}

  lemma {:induction false} JobSaves(l: ValidLayout, s: State, ops: seq<FlashOp>, buffer: Bytes, k: nat)
    requires ConfigBuffer(l, buffer) && k <= |ConfigOps(l, buffer)|
    ensures Saves(l, JobStates(l, s, ops, buffer)[|ops| + 2..|ops| + 3 + k], buffer, k)
    decreases k
  {
    hide JobStates, ConfigOps, SaveStep, CertificateStep, RequestState, Saves;
    var n, all := |ops| + 2, JobStates(l, s, ops, buffer);
    RequestStateAt(l, s, ops, buffer, k);
    if k == 0 {
      assert all[n..n + 1] == [RequestState(l, s, ops, buffer, 0)];
      SavesBegins(l, s, ops, buffer);
    } else {
      JobSaves(l, s, ops, buffer, k - 1);
      RequestStateAt(l, s, ops, buffer, k - 1);
      RequestStep(l, s, ops, buffer, k - 1, CHIP_SIZE);
      SavesGrows(l, all[n..n + k], RequestState(l, s, ops, buffer, k), buffer, k - 1);
      assert all[n..n + 1 + k] == all[n..n + k] + [RequestState(l, s, ops, buffer, k)];
    }
  }

  lemma SavesBegins(l: ValidLayout, s: State, ops: seq<FlashOp>, buffer: Bytes)
    requires ConfigBuffer(l, buffer)
    ensures Saves(l, [RequestState(l, s, ops, buffer, 0)], buffer, 0)
  {
    RequestFirst(l, s, ops, buffer, ApplyAll(s.flash, ops));
  }

  /** The states of a job on its own are the download and the save of such a run. */
  lemma JobFetchesAndSaves(l: ValidLayout, s: State, ops: seq<FlashOp>, buffer: Bytes, high: nat)
    requires s.phase.Running? && AllInside(ops, Ota.Start(), high) && ConfigBuffer(l, buffer)
    ensures
      var states, n := JobStates(l, s, ops, buffer), |ops| + 2;
      && Fetches(states[..n], ops, high) && Saves(l, states[n..], buffer, |ConfigOps(l, buffer)|)
      && Last(states[..n]).flash == states[n..][0].flash == ApplyAll(s.flash, ops)
  {
    hide Fetches, Saves, ConfigOps;
    var states, n := JobStates(l, s, ops, buffer), |ops| + 2;
    var m := |ConfigOps(l, buffer)|;
    JobFetches(l, s, ops, buffer, |ops|, high);
    assert ops[..|ops|] == ops;
    JobSaves(l, s, ops, buffer, m);
    assert states[n..n + 1 + m] == states[n..];
    FetchStateAt(l, s, ops, buffer, |ops|);
    FetchLast(s, ops);
    RequestStateAt(l, s, ops, buffer, 0);
    RequestFirst(l, s, ops, buffer, ApplyAll(s.flash, ops));
  }
}
