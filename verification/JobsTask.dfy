/** iot_jobs_handler.c in its own form: the globals of the jobs task and the functions that change them, each
    proved to do what JobHandler says. */
module JobsTask {
  import opened Wrappers
  import opened JobList
  import opened JobHandler
  import opened FlashControl
  import opened DeviceConfig
  import opened UpdateJob
  import opened JobHistory
  import JobRun
  import S = OtaSystem
  import D = OtaDownload
  import N = NorFlash

  /** How the procedure comes back: with a result, not at all because the device reboots, or from a job that drove
      the flash driver outside its contract. */
  datatype Result = Returned(ok: bool) | Rebooted | Faulted

  class Task {
    const jobs: Queue
    var getAccepted: bool
    var startNextAccepted: bool
    var updateAccepted: bool
    var started: bool
    var execution: Execution
    var thing: string
    var watching: bool

    ghost var added: seq<string>
    ghost var deleted: seq<string>
    ghost var acks: nat
    ghost var sent: seq<Publication>

    ghost predicate Valid()
      reads this, jobs, jobs.list
    {
      jobs.Valid()
    }

    ghost function View(): Jobs
      reads this, jobs
    {
      Jobs(jobs.ids, getAccepted, startNextAccepted, updateAccepted, started, execution, thing, watching,
           added, deleted, acks, sent)
    }

    constructor ()
      ensures Valid() && View() == INITIAL && fresh(jobs) && fresh(jobs.list)
    {
      jobs := new Queue();
      getAccepted, startNextAccepted, updateAccepted, started := false, false, false, false;
      execution, thing, watching := NO_EXECUTION, "(null)", false;
      added, deleted, acks, sent := [], [], 0, [];
    }

    /** The part of the callback that queues a job. */
    method QueueJob(id: string) returns (queued: bool)
      requires Valid() && IsId(id)
      modifies this`added, jobs, jobs.list
      ensures Valid() && View() == Offer(old(View()), id)
      ensures queued <==> Accepts(old(jobs.ids), id)
    {
      var exist := jobs.IsExistJobId(id);
      if exist {
        return false;
      }
      queued := jobs.AddJobId(id);
      if queued {
        added := added + [id];
      }
    }

    // The three comparisons of the callback, each with its branch.

    method TryGetBranch(m: Message) returns (stops: bool)
      requires Valid() && (m.queued.Some? ==> IsId(m.queued.value))
      modifies this`getAccepted, this`added, jobs, jobs.list
      ensures Valid() && View() == TryGet(old(View()), m)
      ensures stops <==> Stops(old(View()), m)
    {
      stops := false;
      if m.topic <= GetTopic(thing) {
        getAccepted := true;
        if m.queued.Some? {
          var queued := QueueJob(m.queued.value);
          stops := !queued;
        }
      }
    }

    method TryStartNextBranch(m: Message)
      requires Valid()
      modifies this`startNextAccepted, this`execution
      ensures Valid() && View() == TryStartNext(old(View()), m)
    {
      if m.topic <= StartNextTopic(thing) {
        startNextAccepted := true;
        if m.next.Some? && !started {
          execution := m.next.value;
        }
      }
    }

    method TryUpdateBranch(m: Message)
      requires Valid()
      modifies this`updateAccepted, this`acks
      ensures Valid() && View() == TryUpdate(old(View()), m)
    {
      var id := if watching then execution.id else "(null)";
      if m.topic <= UpdateTopic(thing, id) {
        updateAccepted := true;
        acks := acks + 1;
      }
    }

    /** iot_jobs_event_callback, for a PUBLISH packet. */
    method EventCallback(m: Message)
      requires Valid() && (m.queued.Some? ==> IsId(m.queued.value))
      modifies this, jobs, jobs.list
      ensures Valid() && View() == OnMessage(old(View()), m)
    {
      var stops := TryGetBranch(m);
      if stops {
        return;
      }
      TryStartNextBranch(m);
      TryUpdateBranch(m);
    }

    /** mqtt_transport_yield: the messages that have come in go to the callback. */
    method Yield(messages: seq<Message>)
      requires Valid() && Readable(messages)
      modifies this, jobs, jobs.list
      ensures Valid() && View() == OnMessages(old(View()), messages)
    {
      hide OnMessage;
      assert messages[..0] == [];
      for i := 0 to |messages|
        invariant Valid() && View() == OnMessages(old(View()), messages[..i])
      {
        EventCallback(messages[i]);
        assert messages[..i + 1][..i] == messages[..i];
      }
      assert messages[..|messages|] == messages;
    }

    /** The test at the end of a pass: a flag that is set is cleared. */
    method TakeFlag(answer: Answer) returns (taken: bool)
      requires Valid()
      modifies this`getAccepted, this`startNextAccepted, this`updateAccepted
      ensures Valid() && taken == Noticed(old(View()), answer)
      ensures View() == if taken then Take(old(View()), answer) else old(View())
    {
      match answer {
        case GetAnswer =>
          taken := getAccepted;
          getAccepted := false;
        case StartNextAnswer =>
          taken := startNextAccepted;
          startNextAccepted := false;
        case UpdateAnswer =>
          taken := updateAccepted;
          updateAccepted := false;
      }
    }

    /** One pass of a wait, not past the timeout. */
    method WaitPass(answer: Answer, e: Exchange, i: nat) returns (taken: bool)
      requires Valid() && i < |e.passes| && !Late(e, i) && Readable(e.passes[i].messages)
      modifies this, jobs, jobs.list
      ensures Valid()
      ensures WaitFrom(old(View()), answer, e, i) ==
              if taken then Waited(true, View()) else WaitFrom(View(), answer, e, i + 1)
    {
      Yield(e.passes[i].messages);
      taken := TakeFlag(answer);
    }

    /** The wait loops, which differ in the flag they look at. */
    method Wait(answer: Answer, e: Exchange) returns (ok: bool)
      requires Valid() && Ends(e) && ReadableExchange(e)
      modifies this, jobs, jobs.list
      ensures Valid() && Waited(ok, View()) == WaitFrom(old(View()), answer, e, 0)
    {
      hide OnMessages, Elapsed, Noticed, Take, Readable;
      ghost var last: nat :| last < |e.passes| && Late(e, last);
      ghost var result := WaitFrom(View(), answer, e, 0);
      var i := 0;
      ok := false;
      while !ok && !Late(e, i)
        invariant i <= last && Valid()
        invariant if ok then Waited(true, View()) == result else WaitFrom(View(), answer, e, i) == result
        decreases !ok, last - i
      {
        ok := WaitPass(answer, e, i);
        if !ok {
          i := i + 1;
        }
      }
    }

    /** mqtt_transport_publish: whether it succeeds is part of the exchange. */
    method Publish(topic: string, status: string)
      modifies this`sent
      ensures View() == Published(old(View()), topic, status)
    {
      sent := sent + [Publication(topic, status)];
    }

    /** iot_jobs_get_procedure. */
    method GetProcedure(thingName: string, e: Exchange) returns (ok: bool)
      requires Valid() && Ends(e) && ReadableExchange(e)
      modifies this, jobs, jobs.list
      ensures Valid() && Waited(ok, View()) == GetJobs(old(View()), thingName, e)
    {
      thing := thingName;
      Publish(JobsTopic(thing) + "get", "");
      if !e.published {
        return false;
      }
      ok := Wait(GetAnswer, e);
    }

    /** iot_jobs_start_next_procedure. */
    method StartNextProcedure(thingName: string, e: Exchange) returns (ok: bool)
      requires Valid() && Ends(e) && ReadableExchange(e)
      modifies this, jobs, jobs.list
      ensures Valid() && Waited(ok, View()) == StartNext(old(View()), thingName, e)
    {
      thing := thingName;
      Publish(JobsTopic(thing) + "start-next", "");
      if !e.published {
        return false;
      }
      ok := Wait(StartNextAnswer, e);
    }

    /** iot_jobs_update_job_status_procedure. */
    method UpdateStatusProcedure(thingName: string, status: string, e: Exchange) returns (ok: bool)
      requires Valid() && Ends(e) && ReadableExchange(e)
      modifies this, jobs, jobs.list
      ensures Valid() && Waited(ok, View()) == UpdateStatus(old(View()), thingName, status, e)
    {
      thing := thingName;
      watching := true;
      Publish(JobsTopic(thing) + execution.id + "/update", status);
      if !e.published {
        return false;
      }
      ok := Wait(UpdateAnswer, e);
    }

    /** Report the result of a job and, if the server acknowledges it, drop the head of the queue. */
    method Report(thingName: string, status: string, e: Exchange)
      requires Valid() && Ends(e) && ReadableExchange(e)
      modifies this, jobs, jobs.list
      ensures Valid() && View() == Reported(old(View()), thingName, status, e)
    {
      var ok := UpdateStatusProcedure(thingName, status, e);
      if ok {
        if jobs.ids != [] {
          deleted := deleted + [jobs.ids[0]];
        }
        var _ := jobs.DelFirstJobId();
      }
    }

    /** The part of the procedure that runs a job the server has started, and reports how it went. */
    method RunJob(flash: FlashDevice, l: ValidLayout, app: AppCommon, transport: D.Transport, job: Job,
                  thingName: string, update: Exchange)
      returns (verdict: Verdict, ghost d: Download, ghost done: seq<N.FlashOp>)
      requires Valid() && flash.Valid() && |app.config| == l.size && SaneJob(job)
      requires Ends(update) && ReadableExchange(update)
      modifies this, jobs, jobs.list, flash, flash.cells, app, transport
      ensures Valid() && flash.Valid() && |app.config| == l.size && flash.log == old(flash.log) + done
      ensures DocumentDone(l, old(flash.Contents()), old(app.config), job, old(transport.deliveries), verdict, d, done,
                           app.config)
      ensures app.enableReboot == (old(app.enableReboot) || (job.jobType == "OTA" && verdict.Accepted?))
      ensures View() == JobRan(old(View()).(started := true), thingName, EndOf(verdict), update).state
    {
      hide Reported, DocumentDone, JobRan, SaneJob, ReadableExchange, Ends, FlashDevice.Valid, FlashDevice.Contents;
      started := true;
      ghost var running := View();
      verdict, d, done := UpdateJob.StartJobDocument(flash, l, app, job, transport);
      assert View() == running;
      if verdict == DriverFault {
        JobLost(running, thingName, update);
        return;
      }
      EndJob(thingName, verdict == Accepted, update);
    }

    /** The mark of the job is taken back, and its result reported. */
    method EndJob(thingName: string, succeeded: bool, update: Exchange)
      requires Valid() && Ends(update) && ReadableExchange(update)
      modifies this, jobs, jobs.list
      ensures Valid()
      ensures View() == JobRan(old(View()), thingName, if succeeded then Succeeded else Failed, update).state
    {
      hide Reported;
      started := false;
      Report(thingName, if succeeded then "SUCCEEDED" else "FAILED", update);
    }

    /** The job is forgotten that ran before, and the server asked for the next one. */
    method AskForJob(thingName: string, next: Exchange) returns (ok: bool)
      requires Valid() && Ends(next) && ReadableExchange(next)
      modifies this, jobs, jobs.list
      ensures Valid() && Waited(ok, View()) == Asked(old(View()), thingName, next)
    {
      hide Ask;
      execution, started := NO_EXECUTION, false;
      ok := StartNextProcedure(thingName, next);
    }

    /** iot_jobs_start_job_document_procedure. job carries what the document of the started job turns out to be; its
        type is the one the callback has stored. ran says whether a job was started at all. */
    method StartJobProcedure(flash: FlashDevice, l: ValidLayout, app: AppCommon, transport: D.Transport, job: Job,
                             thingName: string, next: Exchange, update: Exchange)
      returns (result: Result, ghost ran: bool, ghost verdict: Verdict, ghost d: Download, ghost done: seq<N.FlashOp>)
      requires Valid() && flash.Valid() && |app.config| == l.size && SaneJob(job)
      requires Ends(next) && ReadableExchange(next) && Ends(update) && ReadableExchange(update)
      modifies this, jobs, jobs.list, flash, flash.cells, app, transport
      ensures Valid() && flash.Valid() && |app.config| == l.size && flash.log == old(flash.log) + done
      ensures ran <==> CanStart(old(View())) && Asked(old(View()), thingName, next).ok
      ensures !ran ==> done == [] && app.config == old(app.config) && !app.enableReboot
      ensures
        var jobType := Asked(old(View()), thingName, next).state.execution.jobType;
        ran ==> && DocumentDone(l, old(flash.Contents()), old(app.config), job.(jobType := jobType),
                                old(transport.deliveries), verdict, d, done, app.config)
                && app.enableReboot == (jobType == "OTA" && verdict.Accepted?)
      ensures result.Faulted? <==> ran && verdict.DriverFault?
      ensures result.Rebooted? <==> ran && app.enableReboot
      ensures View() == StartJob(old(View()), thingName, next, EndOf(verdict), update).state
      ensures result.Returned? ==> result.ok == if ran then verdict.Accepted? else !CanStart(old(View()))
      ensures Acknowledged(old(View()), thingName, next, EndOf(verdict), update) ==>
                && deleted == old(deleted) + [old(jobs.ids)[0]] && old(jobs.ids)[1..] <= jobs.ids
      ensures !Acknowledged(old(View()), thingName, next, EndOf(verdict), update) ==>
                deleted == old(deleted) && old(jobs.ids) <= jobs.ids
      ensures
        var topic := "$aws/things/" + thingName + "/jobs/" + "start-next/accepted";
        ran && Uncut(topic, Delivered(next, |next.passes|)) ==>
          exists n: nat :: n <= |next.passes| && Asked(old(View()), thingName, next).state.execution
                                                 == Brought(topic, Delivered(next, n), Execution("", "", ""))
    {
      hide DocumentDone, Asked, JobRan, Acknowledged, Brought;
      StartJobEffect(View(), thingName, next, update);
      ran, verdict, d, done := false, Rejected, Download(D.Returned(0), [], []), [];
      app.enableReboot := false;
      var found, _ := jobs.GetFirstJobId();
      if !found || started {
        return Returned(true), ran, verdict, d, done;
      }
      var ok := AskForJob(thingName, next);
      if !ok {
        return Returned(false), ran, verdict, d, done;
      }
      ran := true;
      var v;
      v, d, done := RunJob(flash, l, app, transport, job.(jobType := execution.jobType), thingName, update);
      verdict := v;
      result := match v
        case DriverFault => Faulted
        case Rejected => Returned(false)
        case Accepted => if app.enableReboot then Rebooted else Returned(true);
    }
  }

  lemma JobLost(s: Jobs, thing: string, update: Exchange)
    ensures JobRan(s, thing, Lost, update).state == s
  {}

  /** What the start procedure comes to, for each end of the job. */
  lemma StartJobEffect(s: Jobs, thing: string, next: Exchange, update: Exchange)
    ensures forall end: JobEnd :: Acknowledged(s, thing, next, end, update) ==>
              var t := StartJob(s, thing, next, end, update).state;
              && s.queue != [] && t.deleted == s.deleted + [s.queue[0]] && s.queue[1..] <= t.queue
    ensures forall end: JobEnd :: !Acknowledged(s, thing, next, end, update) ==>
              var t := StartJob(s, thing, next, end, update).state;
              t.deleted == s.deleted && s.queue <= t.queue
    ensures
      var topic := "$aws/things/" + thing + "/jobs/" + "start-next/accepted";
      Asked(s, thing, next).ok && Uncut(topic, Delivered(next, |next.passes|)) ==>
        exists n: nat :: n <= |next.passes| && Asked(s, thing, next).state.execution
                                               == Brought(topic, Delivered(next, n), Execution("", "", ""))
  {
    hide Asked, Brought;
    forall end: JobEnd
      ensures var t := StartJob(s, thing, next, end, update).state;
              if Acknowledged(s, thing, next, end, update)
              then s.queue != [] && t.deleted == s.deleted + [s.queue[0]] && s.queue[1..] <= t.queue
              else t.deleted == s.deleted && s.queue <= t.queue
    {
      StartJobExactly(s, thing, next, end, update);
    }
    var topic := "$aws/things/" + thing + "/jobs/" + "start-next/accepted";
    if Asked(s, thing, next).ok && Uncut(topic, Delivered(next, |next.passes|)) {
      var n := AskedBrings(s, thing, next);
    }
  }

  function EndOf(verdict: Verdict): JobEnd {
    match verdict
    case Accepted => Succeeded
    case Rejected => Failed
    case DriverFault => Lost
  }

  // ---- Whole runs of the task ----------------------------------------------------------------------

  /** What happens to the task next: a message arrives outside a wait, it asks for jobs, or it runs one. */
  datatype Act =
    | Message(message: JobHandler.Message)
    | Poll(thing: string, get: Exchange)
    | Work(thing: string, next: Exchange, job: Job, update: Exchange)

  ghost predicate SaneAct(act: Act) {
    match act
    case Message(m) => m.queued.Some? ==> IsId(m.queued.value)
    case Poll(_, get) => Ends(get) && ReadableExchange(get)
    case Work(_, next, job, update) =>
      SaneJob(job) && Ends(next) && ReadableExchange(next) && Ends(update) && ReadableExchange(update)
  }

  /** The call that an act is, for some end of the job. */
  ghost predicate IsCall(act: Act, call: Call) {
    match act
    case Message(m) => call == Arrives(m)
    case Poll(thing, get) => call == GetsJobs(thing, get)
    case Work(thing, next, _, update) => call.StartsJob? && call == StartsJob(thing, next, call.end, update)
  }

  lemma TypeKeepsSanity(job: Job, jobType: string)
    ensures SaneJob(job.(jobType := jobType)) <==> SaneJob(job)
  {}

  /** The document is that of the job the act brings; its type is the one the server has sent before. */
  ghost predicate IsDocumentOf(act: Act, doc: Document) {
    act.Work? && doc.job == act.job.(jobType := doc.job.jobType)
  }

  /** One act on the task. A job that the server lets it start is one document; nothing else touches the flash. */
  method Perform(task: Task, flash: FlashDevice, l: ValidLayout, app: AppCommon, transport: D.Transport, act: Act)
    returns (result: Result, ghost call: Call, ghost docs: seq<Document>)
    requires task.Valid() && flash.Valid() && |app.config| == l.size && SaneAct(act)
    modifies task, task.jobs, task.jobs.list, flash, flash.cells, app, transport
    ensures task.Valid() && flash.Valid() && |app.config| == l.size
    ensures IsCall(act, call) && task.View() == AfterCall(old(task.View()), call)
    ensures result.Faulted? <==> Loses(old(task.View()), call)
    ensures match act
            case Message(m) => task.View() == OnMessage(old(task.View()), m)
            case Poll(thing, get) => task.View() == GetJobs(old(task.View()), thing, get).state
            case Work(thing, next, _, update) =>
              call.StartsJob? && task.View() == StartJob(old(task.View()), thing, next, call.end, update).state
    ensures docs == [] ==> result.Returned? && flash.log == old(flash.log) && app.config == old(app.config)
    ensures docs != [] ==>
              var doc := docs[0];
              && docs == [doc] && IsDocumentOf(act, doc) && Documented(l, doc)
              && doc.before == old(flash.Contents()) && doc.config == old(app.config)
              && doc.deliveries == old(transport.deliveries)
              && flash.log == old(flash.log) + doc.done && app.config == doc.after
              && (result.Returned? ==> doc.GoesOn())
  {
    hide StartJob, DocumentDone, Ask, SaneJob;
    docs := [];
    match act {
      case Message(m) =>
        call := Arrives(m);
        task.EventCallback(m);
        result := Returned(true);
      case Poll(thing, get) =>
        call := GetsJobs(thing, get);
        var ok := task.GetProcedure(thing, get);
        result := Returned(ok);
      case Work(thing, next, job, update) =>
        ghost var ran, verdict, d, done;
        result, ran, verdict, d, done := task.StartJobProcedure(flash, l, app, transport, job, thing, next, update);
        call := StartsJob(thing, next, EndOf(verdict), update);
        if ran {
          ghost var jobType := Asked(old(task.View()), thing, next).state.execution.jobType;
          docs := [Document(old(flash.Contents()), old(app.config), job.(jobType := jobType),
                            old(transport.deliveries), verdict, d, done, app.config)];
          TypeKeepsSanity(job, jobType);
        }
    }
  }

  /** The task from power-up until it reboots, loses a job to a driver fault, or the acts end. In every such run jobs
      leave the queue in the order they entered it, none is queued twice, no more are deleted than updates were
      accepted, and no job is left marked as started unless the last act lost it. What all its jobs together do to
      the flash is a run of the state machine through every prefix of it; if every content fits the download area,
      that run keeps the invariant in every state. image is what the device was last updated to. */
  method Session(flash: FlashDevice, l: ValidLayout, app: AppCommon, transport: D.Transport, acts: seq<Act>,
                 ghost image: S.Image)
    returns (task: Task, result: Result, ghost calls: seq<Call>, ghost docs: seq<Document>, ghost states: seq<S.State>)
    requires flash.Valid() && |app.config| == l.size
    requires forall i :: 0 <= i < |acts| ==> SaneAct(acts[i])
    modifies flash, flash.cells, app, transport
    ensures |calls| <= |acts| && (result.Returned? ==> |calls| == |acts|)
    ensures forall i :: 0 <= i < |calls| ==> IsCall(acts[i], calls[i])
    ensures task.Valid() && task.View() == AfterCalls(INITIAL, calls)
    ensures task.added == task.deleted + task.jobs.ids && |task.deleted| == Spent(calls) <= task.acks
    ensures NoneRepeated(task.jobs.ids) && [] !in task.jobs.ids
    ensures task.started <==> result.Faulted?
    ensures flash.Valid() && flash.log == old(flash.log) + AllDone(docs)
    ensures History(l, old(flash.Contents()), old(app.config), docs) && app.config == ConfigAfter(old(app.config), docs)
    ensures
      var start := S.State(old(flash.Contents()), S.Running, image);
      && JobRun.Performs(l, states, start, AllDone(docs), N.CHIP_SIZE)
      && (AllContentFits(docs) ==> JobRun.Performs(l, states, start, AllDone(docs), Ota.End()))
      && (AllContentFits(docs) && S.Inv(l, start) ==> forall i :: 0 <= i < |states| ==> S.Inv(l, states[i]))
  {
    hide AfterCall, Loses, SaneAct, IsCall, Orderly, DocumentDone, History, AllContentFits, S.Inv, N.ApplyAll;
    hide JobRun.Performs, Documented, AllDone, OnMessage, GetJobs, StartJob, Spent, NoneRepeated;
    task := new Task();
    result, calls, docs := Returned(true), [], [];
    ghost var m, config := flash.Contents(), app.config;
    NoHistory(l, m, config);
    var i := 0;
    while i < |acts| && result.Returned?
      invariant i <= |acts| && i == |calls|
      invariant task.Valid() && flash.Valid() && |app.config| == l.size && fresh(task) && fresh(task.jobs)
      invariant fresh(task.jobs.list)
      invariant task.View() == AfterCalls(INITIAL, calls)
      invariant forall k :: 0 <= k < i ==> IsCall(acts[k], calls[k])
      invariant SomeLost(calls) <==> result.Faulted?
      invariant flash.log == old(flash.log) + AllDone(docs)
      invariant History(l, m, config, docs) && app.config == ConfigAfter(config, docs)
      invariant result.Returned? && docs != [] ==> docs[|docs| - 1].GoesOn()
    {
      ghost var call, more;
      N.ApplyAllAppend(flash.initial, old(flash.log), AllDone(docs));
      result, call, more := Perform(task, flash, l, app, transport, acts[i]);
      if more != [] {
        HistoryGrows(l, m, config, docs, more[0]);
        docs := docs + [more[0]];
      }
      assert (calls + [call])[..|calls|] == calls;
      calls := calls + [call];
      i := i + 1;
    }
    EveryRun(calls);
    states := HistoryIsRun(l, S.State(m, S.Running, image), config, docs);
  }

  /** Every job id that a message brings fits its buffer. */
  ghost predicate Readable(messages: seq<Message>) {
    forall i :: 0 <= i < |messages| ==> messages[i].queued.Some? ==> IsId(messages[i].queued.value)
  }

  ghost predicate ReadableExchange(e: Exchange) {
    forall i :: 0 <= i < |e.passes| ==> Readable(e.passes[i].messages)
  }
}
