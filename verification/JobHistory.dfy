/** What all the job documents of a session do to the flash, one after the other, as one run of the state machine. */
module JobHistory {
  import opened Wrappers
  import opened NorFlash
  import opened FlashControl
  import opened DeviceConfig
  import opened OtaSystem
  import opened BootLoader
  import opened UpdateJob
  import opened JobRun

  /** A job document that has been worked on: what it found, what it brought, and what became of it. */
  datatype Document = Document(before: Memory, config: Bytes, job: Job, deliveries: seq<Bytes>, verdict: Verdict,
                               d: Download, done: seq<FlashOp>, after: Bytes)
  {
    /** Neither a reboot nor a driver fault ends the session with it. */
    predicate GoesOn() {
      verdict.Rejected? || (verdict.Accepted? && job.jobType != "OTA")
    }
  }

  ghost predicate Documented(l: ValidLayout, doc: Document) {
    && |doc.config| == l.size && SaneJob(doc.job)
    && DocumentDone(l, doc.before, doc.config, doc.job, doc.deliveries, doc.verdict, doc.d, doc.done, doc.after)
  }

  /** All operations of the documents. */
  function AllDone(docs: seq<Document>): seq<FlashOp> {
    if docs == [] then [] else AllDone(docs[..|docs| - 1]) + docs[|docs| - 1].done
  }

  /** Each document found the flash and the configuration in memory that the one before it left; all but the last let
      the session go on. */
  ghost predicate History(l: ValidLayout, m: Memory, config: Bytes, docs: seq<Document>) {
    docs != [] ==>
      var front, last := docs[..|docs| - 1], docs[|docs| - 1];
      && History(l, m, config, front) && (front != [] ==> front[|front| - 1].GoesOn())
      && Documented(l, last) && last.before == ApplyAll(m, AllDone(front)) && last.config == ConfigAfter(config, front)
  }

  function ConfigAfter(config: Bytes, docs: seq<Document>): Bytes {
    if docs == [] then config else docs[|docs| - 1].after
  }

  lemma NoHistory(l: ValidLayout, m: Memory, config: Bytes)
    ensures History(l, m, config, []) && AllDone([]) == []
  {}

  lemma HistoryGrows(l: ValidLayout, m: Memory, config: Bytes, docs: seq<Document>, doc: Document)
    requires History(l, m, config, docs) && (docs != [] ==> docs[|docs| - 1].GoesOn())
    requires Documented(l, doc) && doc.before == ApplyAll(m, AllDone(docs)) && doc.config == ConfigAfter(config, docs)
    ensures History(l, m, config, docs + [doc]) && AllDone(docs + [doc]) == AllDone(docs) + doc.done
  {
    hide ApplyAll, Documented;
    assert (docs + [doc])[..|docs|] == docs;
  }

  /** No download of the documents has more content than its area holds. */
  ghost predicate AllContentFits(docs: seq<Document>) {
    forall i | 0 <= i < |docs| :: SaneJob(docs[i].job) && JobFits(docs[i].job, docs[i].deliveries)
  }

  /** Two runs, the second of which begins where the first ends. */
  lemma RunsJoin(l: ValidLayout, a: seq<State>, b: seq<State>, high: nat)
    requires Run(l, a, high) && Run(l, b, high) && Last(a) == b[0]
    ensures Run(l, a + b[1..], high) && Last(a + b[1..]) == Last(b)
  {
    hide Next;
    var all, n := a + b[1..], |a| - 1;
    forall i | 0 <= i < |all| - 1
      ensures Next(l, all[i], all[i + 1], high)
    {
      if i < n {
        assert Next(l, a[i], a[i + 1], high);
      } else {
        var j := i - n;
        assert all[i] == b[j] && all[i + 1] == b[j + 1];
        assert Next(l, b[j], b[j + 1], high);
      }
    }
  }

  lemma VisitsJoin(a: seq<State>, b: seq<State>, flash: Memory)
    requires a != [] && b != [] && Last(a) == b[0] && (Visits(a, flash) || Visits(b, flash))
    ensures Visits(a + b[1..], flash)
  {
    var all, n := a + b[1..], |a| - 1;
    if Visits(a, flash) {
      var i :| 0 <= i < |a| && a[i].flash == flash;
      assert all[i].flash == flash;
    } else {
      var i :| 0 <= i < |b| && b[i].flash == flash;
      assert all[n + i] == b[i];
    }
  }

  lemma PerformsJoin(l: ValidLayout, a: seq<State>, b: seq<State>, s: State, first: seq<FlashOp>, second: seq<FlashOp>,
                     high: nat)
    requires Performs(l, a, s, first, high) && Performs(l, b, Last(a), second, high)
    ensures Performs(l, a + b[1..], s, first + second, high)
  {
    hide Next, ApplyAll, Visits;
    RunsJoin(l, a, b, high);
    forall k | 0 <= k <= |first + second|
      ensures Visits(a + b[1..], ApplyAll(s.flash, (first + second)[..k]))
    {
      PrefixFlash(s.flash, first, second, k);
      VisitsJoin(a, b, ApplyAll(s.flash, (first + second)[..k]));
    }
    ApplyAllAppend(s.flash, first, second);
  }

  /** Everything that the documents do to the flash is one run, which passes through the flash of every prefix of it.
      If no content is larger than the download area, that run keeps the invariant in every state. */
  lemma {:induction false} HistoryIsRun(l: ValidLayout, s: State, config: Bytes, docs: seq<Document>)
    returns (states: seq<State>)
    requires s.phase.Running? && History(l, s.flash, config, docs)
    ensures Performs(l, states, s, AllDone(docs), CHIP_SIZE)
    ensures docs == [] || docs[|docs| - 1].GoesOn() ==> Last(states) == s.(flash := ApplyAll(s.flash, AllDone(docs)))
    ensures AllContentFits(docs) ==> Performs(l, states, s, AllDone(docs), Ota.End())
    ensures AllContentFits(docs) && Inv(l, s) ==> forall i :: 0 <= i < |states| ==> Inv(l, states[i])
    decreases |docs|
  {
    hide Performs, Inv, ApplyAll, DocumentDone, SaneJob, JobFits;
    if docs == [] {
      states := [s];
      NothingPerformed(l, s, CHIP_SIZE);
      NothingPerformed(l, s, Ota.End());
      NoOps(s.flash);
    } else {
      var front, doc := docs[..|docs| - 1], docs[|docs| - 1];
      var before := HistoryIsRun(l, s, config, front);
      var mid := s.(flash := ApplyAll(s.flash, AllDone(front)));
      PerformsEnds(l, before, s, AllDone(front), CHIP_SIZE);
      var more := DocumentIsRun(l, mid, doc.config, doc.job, doc.deliveries, doc.verdict, doc.d, doc.done, doc.after);
      PerformsEnds(l, more, mid, doc.done, CHIP_SIZE);
      states := before + more[1..];
      PerformsJoin(l, before, more, s, AllDone(front), doc.done, CHIP_SIZE);
      ApplyAllAppend(s.flash, AllDone(front), doc.done);
      if AllContentFits(docs) {
        assert AllContentFits(front);
        assert JobFits(docs[|docs| - 1].job, docs[|docs| - 1].deliveries);
        PerformsJoin(l, before, more, s, AllDone(front), doc.done, Ota.End());
        if Inv(l, s) {
          assert before[|before| - 1] == mid;
        }
      }
    }
  }

  lemma PerformsEnds(l: ValidLayout, states: seq<State>, s: State, done: seq<FlashOp>, high: nat)
    requires Performs(l, states, s, done, high)
    ensures states != [] && states[0] == s && Last(states).flash == ApplyAll(s.flash, done)
  {}
}
