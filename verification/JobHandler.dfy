/** iot_jobs_handler.c: the MQTT callback that queues jobs, the waits for the server's answers, and the procedure
    that runs the job at the head of the queue and drops it once the server has acknowledged its result. */
module JobHandler {
  import opened JobList
  import opened Wrappers

  /** A job the server has started: g_iot_jobs_execution_param. */
  datatype Execution = Execution(id: string, document: string, jobType: string)

  /** A PUBLISH packet, as its topic and what the two JSON parsers find in its payload. */
  datatype Message = Message(topic: string, queued: Option<string>, next: Option<Execution>)

  /** A call of mqtt_transport_publish: the topic, and the status that an update reports. */
  datatype Publication = Publication(topic: string, status: string)

  /** The flags, the execution parameters and the queue; and what the task has done and seen: the ids added to the
      queue, the ids deleted from it, how many update/accepted messages have been noticed, and what was published. */
  datatype Jobs = Jobs(queue: seq<string>, getAccepted: bool, startNextAccepted: bool, updateAccepted: bool,
                       started: bool, execution: Execution, thing: string, watching: bool,
                       added: seq<string>, deleted: seq<string>, acks: nat, sent: seq<Publication>)

  // ---- Topics --------------------------------------------------------------------------------------

  function GetTopic(thing: string): string {
    "$aws/things/" + thing + "/jobs/" + "get/accepted"
  }

  function StartNextTopic(thing: string): string {
    "$aws/things/" + thing + "/jobs/" + "start-next/accepted"
  }

  function UpdateTopic(thing: string, id: string): string {
    "$aws/things/" + thing + "/jobs/" + (id + "/update/accepted")
  }

  /** The id the callback compares with: the one in the execution parameters, once an update has been published;
      before that sprintf is handed a null pointer. */
  function WatchedId(s: Jobs): string {
    if s.watching then s.execution.id else "(null)"
  }

  /** The callback compares only as many characters as the received topic has. */
  predicate TopicMatches(topic: string, expected: string) {
    topic <= expected
  }

  lemma TailPrefix(head: string, a: string, b: string)
    requires head + a <= head + b
    ensures a <= b
  {
    assert forall i | 0 <= i < |a| :: a[i] == (head + a)[|head| + i] == (head + b)[|head| + i] == b[i];
  }

  /** Whether the topic that ends in a would be taken for the one that ends in b. */
  lemma TopicTail(thing: string, a: string, b: string)
    requires TopicMatches("$aws/things/" + thing + "/jobs/" + a, "$aws/things/" + thing + "/jobs/" + b)
    ensures a <= b
  {
    TailPrefix("$aws/things/" + thing + "/jobs/", a, b);
  }

  lemma UpdateTailsApart(id: string)
    requires '/' !in id
    ensures !("get/accepted" <= id + "/update/accepted") && !(id + "/update/accepted" <= "get/accepted")
    ensures !("start-next/accepted" <= id + "/update/accepted")
    ensures !(id + "/update/accepted" <= "start-next/accepted")
  {
    var tail, get, next := id + "/update/accepted", "get/accepted", "start-next/accepted";
    assert tail[|id|] == '/' && tail[|id| + 1] == 'u' && |tail| == |id| + 16;
    assert forall i | 0 <= i < |id| :: tail[i] == id[i] != '/';
    assert get[3] == '/' && get[4] == 'a' && next[10] == '/' && next[11] == 'a';
    assert forall i | 0 <= i < 10 :: next[i] != '/';
  }

  /** A message on one of the three topics sets off exactly its own branch of the callback, as long as the job id
      has no slash in it. */
  lemma TopicsApart(thing: string, id: string)
    requires '/' !in id
    ensures !TopicMatches(GetTopic(thing), StartNextTopic(thing))
    ensures !TopicMatches(GetTopic(thing), UpdateTopic(thing, id))
    ensures !TopicMatches(StartNextTopic(thing), GetTopic(thing))
    ensures !TopicMatches(StartNextTopic(thing), UpdateTopic(thing, id))
    ensures !TopicMatches(UpdateTopic(thing, id), GetTopic(thing))
    ensures !TopicMatches(UpdateTopic(thing, id), StartNextTopic(thing))
  {
    var get, next, update := "get/accepted", "start-next/accepted", id + "/update/accepted";
    UpdateTailsApart(id);
    assert get[0] != next[0];
    if TopicMatches(GetTopic(thing), StartNextTopic(thing)) {
      TopicTail(thing, get, next);
    } else if TopicMatches(GetTopic(thing), UpdateTopic(thing, id)) {
      TopicTail(thing, get, update);
    } else if TopicMatches(StartNextTopic(thing), GetTopic(thing)) {
      TopicTail(thing, next, get);
    } else if TopicMatches(StartNextTopic(thing), UpdateTopic(thing, id)) {
      TopicTail(thing, next, update);
    } else if TopicMatches(UpdateTopic(thing, id), GetTopic(thing)) {
      TopicTail(thing, update, get);
    } else if TopicMatches(UpdateTopic(thing, id), StartNextTopic(thing)) {
      TopicTail(thing, update, next);
    }
  }

  // ---- The callback --------------------------------------------------------------------------------

  predicate Accepts(queue: seq<string>, id: string) {
    !Known(queue, id) && |queue| < MAX_AWS_JOB_LIST_SIZE
  }

  function Offer(s: Jobs, id: string): Jobs {
    if Accepts(s.queue, id) then s.(queue := s.queue + [id], added := s.added + [id]) else s
  }

  function OnGet(s: Jobs, m: Message): Jobs {
    var noticed := s.(getAccepted := true);
    if m.queued.Some? then Offer(noticed, m.queued.value) else noticed
  }

  function OnStartNext(s: Jobs, m: Message): Jobs {
    var noticed := s.(startNextAccepted := true);
    if m.next.Some? && !s.started then noticed.(execution := m.next.value) else noticed
  }

  function OnUpdate(s: Jobs): Jobs {
    s.(updateAccepted := true, acks := s.acks + 1)
  }

  // The three branches, each behind its comparison.

  function TryGet(s: Jobs, m: Message): Jobs {
    if TopicMatches(m.topic, GetTopic(s.thing)) then OnGet(s, m) else s
  }

  function TryStartNext(s: Jobs, m: Message): Jobs {
    if TopicMatches(m.topic, StartNextTopic(s.thing)) then OnStartNext(s, m) else s
  }

  function TryUpdate(s: Jobs, m: Message): Jobs {
    if TopicMatches(m.topic, UpdateTopic(s.thing, WatchedId(s))) then OnUpdate(s) else s
  }

  /** A job that is not added ends the callback. */
  predicate Stops(s: Jobs, m: Message) {
    TopicMatches(m.topic, GetTopic(s.thing)) && m.queued.Some? && !Accepts(s.queue, m.queued.value)
  }

  function OnMessage(s: Jobs, m: Message): Jobs {
    if Stops(s, m) then TryGet(s, m) else TryUpdate(TryStartNext(TryGet(s, m), m), m)
  }

  function OnMessages(s: Jobs, ms: seq<Message>): Jobs {
    if ms == [] then s else OnMessage(OnMessages(s, ms[..|ms| - 1]), ms[|ms| - 1])
  }

  // What the callback does to each field, on the three topics proper and on topics too short to tell.

  /** A message on the get topic sets its flag. A job it names is queued last, unless its id is empty, an id in the
      queue starts with it, or five are queued. */
  lemma ExactGet(s: Jobs, m: Message)
    requires m.topic == "$aws/things/" + s.thing + "/jobs/" + "get/accepted" && '/' !in WatchedId(s)
    ensures
      var t := OnMessage(s, m);
      var accepted := && m.queued.Some? && m.queued.value != [] && |s.queue| < 5
                      && forall i :: 0 <= i < |s.queue| ==> !(m.queued.value <= s.queue[i]);
      t == if accepted
           then s.(getAccepted := true, queue := s.queue + [m.queued.value], added := s.added + [m.queued.value])
           else s.(getAccepted := true)
  {
    TopicsApart(s.thing, WatchedId(s));
  }

  /** A message on the update topic of the watched job, which is the one in the execution parameters once an update has
      been published, sets its flag. */
  lemma ExactUpdate(s: Jobs, m: Message)
    requires
      var id := if s.watching then s.execution.id else "(null)";
      '/' !in id && m.topic == "$aws/things/" + s.thing + "/jobs/" + id + "/update/accepted"
    ensures OnMessage(s, m) == s.(updateAccepted := true, acks := s.acks + 1)
  {
    TopicsApart(s.thing, WatchedId(s));
    Regroup("$aws/things/" + s.thing + "/jobs/", WatchedId(s), "/update/accepted");
  }

  /** A message on the start-next topic sets its flag. The job it brings is stored, with its id, document and type,
      unless a job is started. */
  lemma ExactStartNext(s: Jobs, m: Message)
    requires m.topic == "$aws/things/" + s.thing + "/jobs/" + "start-next/accepted"
    requires s.watching ==> '/' !in s.execution.id && (m.next.Some? ==> '/' !in m.next.value.id)
    ensures
      var t := OnMessage(s, m);
      && t.startNextAccepted
      && (m.next.Some? && !s.started ==>
            && t.execution.id == m.next.value.id && t.execution.document == m.next.value.document
            && t.execution.jobType == m.next.value.jobType)
      && (m.next.None? || s.started ==> t.execution == s.execution)
      && t == s.(startNextAccepted := true, execution := t.execution)
  {
    TopicsApart(s.thing, WatchedId(OnStartNext(s, m)));
  }

  /** Topics are compared only as far as the one received goes: one that ends before they differ is all three. */
  lemma ShortTopic(s: Jobs, m: Message)
    requires m.topic <= "$aws/things/" + s.thing + "/jobs/" && m.queued.None?
    ensures
      var t := OnMessage(s, m);
      t.getAccepted && t.startNextAccepted && t.updateAccepted && t.acks == s.acks + 1
  {
    var head := "$aws/things/" + s.thing + "/jobs/";
    StillPrefix(m.topic, head, "get/accepted");
    StillPrefix(m.topic, head, "start-next/accepted");
    StillPrefix(m.topic, head, WatchedId(OnStartNext(s.(getAccepted := true), m)) + "/update/accepted");
  }

  /** A job that is not queued ends the callback, before it looks at the other two topics. */
  lemma RefusedJobEnds(s: Jobs, m: Message)
    requires m.topic <= "$aws/things/" + s.thing + "/jobs/" && m.queued.Some?
    requires || |s.queue| >= 5 || m.queued.value == []
             || exists i :: 0 <= i < |s.queue| && m.queued.value <= s.queue[i]
    ensures OnMessage(s, m) == s.(getAccepted := true)
  {
    StillPrefix(m.topic, "$aws/things/" + s.thing + "/jobs/", "get/accepted");
  }

  lemma StillPrefix(a: string, b: string, c: string)
    requires a <= b
    ensures a <= b + c
  {}

  // ---- Waiting for an answer -----------------------------------------------------------------------

  datatype Answer = GetAnswer | StartNextAnswer | UpdateAnswer

  const TIMEOUT_MS := 1000

  /** One pass of a wait loop: the time it reads, and the messages mqtt_transport_yield delivers in it. */
  datatype Pass = Pass(now: nat, messages: seq<Message>)

  /** A request and the wait for its answer: whether it could be published, the time the wait starts, and its
      passes. The clock runs, so some pass is past the timeout. */
  datatype Exchange = Exchange(published: bool, start: nat, passes: seq<Pass>)

  predicate Late(e: Exchange, i: nat)
    requires i < |e.passes|
  {
    Elapsed(e.passes[i].now, e.start) > TIMEOUT_MS
  }

  predicate Ends(e: Exchange) {
    exists i :: 0 <= i < |e.passes| && Late(e, i)
  }

  predicate Noticed(s: Jobs, answer: Answer) {
    match answer
    case GetAnswer => s.getAccepted
    case StartNextAnswer => s.startNextAccepted
    case UpdateAnswer => s.updateAccepted
  }

  function Take(s: Jobs, answer: Answer): Jobs {
    match answer
    case GetAnswer => s.(getAccepted := false)
    case StartNextAnswer => s.(startNextAccepted := false)
    case UpdateAnswer => s.(updateAccepted := false)
  }

  datatype Waited = Waited(ok: bool, state: Jobs)

  /** The rest of a wait from pass i on. */
  function WaitFrom(s: Jobs, answer: Answer, e: Exchange, i: nat): Waited
    requires i <= |e.passes|
    decreases |e.passes| - i
  {
    if i == |e.passes| || Late(e, i) then Waited(false, s)
    else
      var t := OnMessages(s, e.passes[i].messages);
      if Noticed(t, answer) then Waited(true, Take(t, answer)) else WaitFrom(t, answer, e, i + 1)
  }

  function Ask(s: Jobs, answer: Answer, e: Exchange): Waited {
    if e.published then WaitFrom(s, answer, e, 0) else Waited(false, s)
  }

  // ---- The procedures ------------------------------------------------------------------------------

  /** mqtt_transport_publish. */
  function Published(s: Jobs, topic: string, status: string): Jobs {
    s.(sent := s.sent + [Publication(topic, status)])
  }

  function JobsTopic(thing: string): string {
    "$aws/things/" + thing + "/jobs/"
  }

  function GetJobs(s: Jobs, thing: string, e: Exchange): Waited {
    Ask(Published(s.(thing := thing), JobsTopic(thing) + "get", ""), GetAnswer, e)
  }

  function StartNext(s: Jobs, thing: string, e: Exchange): Waited {
    Ask(Published(s.(thing := thing), JobsTopic(thing) + "start-next", ""), StartNextAnswer, e)
  }

  function UpdateStatus(s: Jobs, thing: string, status: string, e: Exchange): Waited {
    Ask(Published(s.(thing := thing, watching := true), JobsTopic(thing) + s.execution.id + "/update", status),
        UpdateAnswer, e)
  }

  function DeleteFirst(s: Jobs): Jobs {
    if s.queue == [] then s else s.(queue := s.queue[1..], deleted := s.deleted + [s.queue[0]])
  }

  function Reported(s: Jobs, thing: string, status: string, update: Exchange): Jobs {
    var w := UpdateStatus(s, thing, status, update);
    if w.ok then DeleteFirst(w.state) else w.state
  }

  const NO_EXECUTION := Execution("", "", "")

  /** The procedure gets as far as asking the server for the next job. */
  predicate CanStart(s: Jobs) {
    s.queue != [] && !s.started
  }

  function Asked(s: Jobs, thing: string, next: Exchange): Waited {
    StartNext(s.(execution := NO_EXECUTION, started := false), thing, next)
  }

  /** How start_job_document comes back: with success, with failure, or not at all, because the job drove the flash
      driver outside its contract. */
  datatype JobEnd = Succeeded | Failed | Lost

  /** iot_jobs_start_job_document_procedure, apart from what the job itself does. The job is marked as started while
      it runs. */
  function StartJob(s: Jobs, thing: string, next: Exchange, end: JobEnd, update: Exchange): Waited {
    if !CanStart(s) then Waited(true, s)
    else
      var w := Asked(s, thing, next);
      if !w.ok then w else JobRan(w.state.(started := true), thing, end, update)
  }

  function JobRan(running: Jobs, thing: string, end: JobEnd, update: Exchange): Waited {
    if end.Lost? then Waited(false, running)
    else Waited(end.Succeeded?, Reported(running.(started := false), thing, StatusOf(end), update))
  }

  function StatusOf(end: JobEnd): string {
    if end.Succeeded? then "SUCCEEDED" else "FAILED"
  }

  // ---- What holds after every call -----------------------------------------------------------------

  /** No id later in the queue is equal to an earlier one or a prefix of it. */
  ghost predicate NoneRepeated(queue: seq<string>) {
    forall i, j :: 0 <= i < j < |queue| ==> !(queue[j] <= queue[i])
  }

  ghost predicate Orderly(s: Jobs) {
    && |s.queue| <= MAX_AWS_JOB_LIST_SIZE && [] !in s.queue && NoneRepeated(s.queue)
    && s.added == s.deleted + s.queue
    && |s.deleted| + (if s.updateAccepted then 1 else 0) <= s.acks
  }

  const INITIAL := Jobs([], false, false, false, false, NO_EXECUTION, "(null)", false, [], [], 0, [])

  lemma OfferKeeps(s: Jobs, id: string)
    requires Orderly(s)
    ensures Orderly(Offer(s, id))
  {
    if Accepts(s.queue, id) {
      var queue := s.queue + [id];
      forall i, j | 0 <= i < j < |queue|
        ensures !(queue[j] <= queue[i])
      {
        if j < |s.queue| {
          assert !(s.queue[j] <= s.queue[i]);
        }
      }
      assert s.added + [id] == s.deleted + queue;
    }
  }

  lemma GetKeeps(s: Jobs, m: Message)
    requires Orderly(s)
    ensures Orderly(TryGet(s, m))
  {
    if m.queued.Some? {
      OfferKeeps(s.(getAccepted := true), m.queued.value);
    }
  }

  lemma StartNextKeeps(s: Jobs, m: Message)
    requires Orderly(s)
    ensures Orderly(TryStartNext(s, m))
  {}

  lemma UpdateKeeps(s: Jobs, m: Message)
    requires Orderly(s)
    ensures Orderly(TryUpdate(s, m))
  {}

  lemma MessageKeeps(s: Jobs, m: Message)
    requires Orderly(s)
    ensures Orderly(OnMessage(s, m))
  {
    GetKeeps(s, m);
    StartNextKeeps(TryGet(s, m), m);
    UpdateKeeps(TryStartNext(TryGet(s, m), m), m);
  }

  lemma {:induction false} MessagesKeep(s: Jobs, ms: seq<Message>)
    requires Orderly(s)
    ensures Orderly(OnMessages(s, ms))
    decreases |ms|
  {
    if ms != [] {
      MessagesKeep(s, ms[..|ms| - 1]);
      MessageKeeps(OnMessages(s, ms[..|ms| - 1]), ms[|ms| - 1]);
    }
  }

  /** A wait keeps everything, and an update that was answered leaves an acknowledgement to spend. */
  lemma {:induction false} WaitKeeps(s: Jobs, answer: Answer, e: Exchange, i: nat)
    requires Orderly(s) && i <= |e.passes|
    ensures
      var w := WaitFrom(s, answer, e, i);
      Orderly(w.state) && (w.ok && answer.UpdateAnswer? ==> |w.state.deleted| < w.state.acks && !w.state.updateAccepted)
    decreases |e.passes| - i
  {
    if i < |e.passes| && !Late(e, i) {
      var t := OnMessages(s, e.passes[i].messages);
      MessagesKeep(s, e.passes[i].messages);
      if !Noticed(t, answer) {
        WaitKeeps(t, answer, e, i + 1);
      }
    }
  }

  lemma DeleteKeeps(s: Jobs)
    requires Orderly(s) && |s.deleted| < s.acks && !s.updateAccepted
    ensures Orderly(DeleteFirst(s))
  {
    if s.queue != [] {
      assert s.added == (s.deleted + [s.queue[0]]) + s.queue[1..];
      forall i, j | 0 <= i < j < |s.queue[1..]|
        ensures !(s.queue[1..][j] <= s.queue[1..][i])
      {
        assert !(s.queue[j + 1] <= s.queue[i + 1]);
      }
    }
  }

  lemma AskKeeps(s: Jobs, answer: Answer, e: Exchange)
    requires Orderly(s)
    ensures
      var w := Ask(s, answer, e);
      Orderly(w.state) && (w.ok && answer.UpdateAnswer? ==> |w.state.deleted| < w.state.acks && !w.state.updateAccepted)
  {
    if e.published {
      WaitKeeps(s, answer, e, 0);
    }
  }

  lemma ReportKeeps(s: Jobs, thing: string, status: string, update: Exchange)
    requires Orderly(s)
    ensures Orderly(Reported(s, thing, status, update))
  {
    hide Ask;
    var topic := JobsTopic(thing) + s.execution.id + "/update";
    AskKeeps(Published(s.(thing := thing, watching := true), topic, status), UpdateAnswer, update);
    var w := UpdateStatus(s, thing, status, update);
    if w.ok {
      DeleteKeeps(w.state);
    }
  }

  lemma AskedKeeps(s: Jobs, thing: string, next: Exchange)
    requires Orderly(s)
    ensures Orderly(Asked(s, thing, next).state)
  {
    hide Ask;
    var before := s.(execution := NO_EXECUTION, started := false, thing := thing);
    AskKeeps(Published(before, JobsTopic(thing) + "start-next", ""), StartNextAnswer, next);
  }

  /** The start procedure keeps the order, and leaves a job marked as started only if one was, or if the job got
      lost. */
  lemma StartJobKeeps(s: Jobs, thing: string, next: Exchange, end: JobEnd, update: Exchange)
    requires Orderly(s)
    ensures
      var t := StartJob(s, thing, next, end, update).state;
      && Orderly(t)
      && (t.started <==> s.started || (CanStart(s) && Asked(s, thing, next).ok && end.Lost?))
  {
    hide Asked, Reported;
    if CanStart(s) {
      var w := Asked(s, thing, next);
      AskedKeeps(s, thing, next);
      AskedGrows(s, thing, next);
      if w.ok && !end.Lost? {
        ReportKeeps(w.state.(started := false), thing, StatusOf(end), update);
        ReportedExactly(w.state.(started := false), thing, StatusOf(end), update);
      }
    }
  }

  // ---- What messages and waits leave alone ---------------------------------------------------------

  /** From s to t the callback may have queued jobs behind those that were there and counted acknowledgements. */
  ghost predicate Grows(s: Jobs, t: Jobs) {
    && t.thing == s.thing && t.watching == s.watching && t.started == s.started
    && t.deleted == s.deleted && t.sent == s.sent && s.acks <= t.acks
    && s.queue <= t.queue && t.added == s.added + t.queue[|s.queue|..]
  }

  lemma GrowsTwice(s: Jobs, t: Jobs, u: Jobs)
    requires Grows(s, t) && Grows(t, u)
    ensures Grows(s, u)
  {
    assert u.queue[|s.queue|..] == t.queue[|s.queue|..] + u.queue[|t.queue|..];
  }

  lemma StartNextGrows(s: Jobs, m: Message)
    ensures Grows(s, TryStartNext(s, m)) && TryStartNext(s, m).queue == s.queue
  {
    assert s.added + s.queue[|s.queue|..] == s.added;
  }

  lemma UpdateGrows(s: Jobs, m: Message)
    ensures Grows(s, TryUpdate(s, m))
  {
    assert s.added + s.queue[|s.queue|..] == s.added;
  }

  lemma GetGrows(s: Jobs, m: Message)
    ensures Grows(s, TryGet(s, m))
  {
    assert s.added + s.queue[|s.queue|..] == s.added;
    if m.queued.Some? {
      assert (s.queue + [m.queued.value])[|s.queue|..] == [m.queued.value];
    }
  }

  lemma MessageGrows(s: Jobs, m: Message)
    ensures Grows(s, OnMessage(s, m))
  {
    hide TryGet, TryStartNext, TryUpdate, Grows, Stops;
    var t := TryGet(s, m);
    var u := TryStartNext(t, m);
    GetGrows(s, m);
    StartNextGrows(t, m);
    UpdateGrows(u, m);
    GrowsTwice(s, t, u);
    GrowsTwice(s, u, TryUpdate(u, m));
  }

  lemma {:induction false} MessagesGrow(s: Jobs, ms: seq<Message>)
    ensures Grows(s, OnMessages(s, ms))
    decreases |ms|
  {
    hide OnMessage;
    if ms == [] {
      assert s.added + s.queue[|s.queue|..] == s.added;
    } else {
      var t := OnMessages(s, ms[..|ms| - 1]);
      MessagesGrow(s, ms[..|ms| - 1]);
      MessageGrows(t, ms[|ms| - 1]);
      GrowsTwice(s, t, OnMessages(s, ms));
    }
  }

  lemma {:induction false} WaitGrows(s: Jobs, answer: Answer, e: Exchange, i: nat)
    requires i <= |e.passes|
    ensures Grows(s, WaitFrom(s, answer, e, i).state)
    decreases |e.passes| - i
  {
    hide OnMessages;
    assert s.added + s.queue[|s.queue|..] == s.added;
    if i < |e.passes| && !Late(e, i) {
      var t := OnMessages(s, e.passes[i].messages);
      MessagesGrow(s, e.passes[i].messages);
      if !Noticed(t, answer) {
        WaitGrows(t, answer, e, i + 1);
        GrowsTwice(s, t, WaitFrom(t, answer, e, i + 1).state);
      }
    }
  }

  lemma AskGrows(s: Jobs, answer: Answer, e: Exchange)
    ensures Grows(s, Ask(s, answer, e).state)
  {
    assert s.added + s.queue[|s.queue|..] == s.added;
    if e.published {
      WaitGrows(s, answer, e, 0);
    }
  }

  /** Asking for the next job forgets the last one, publishes on the start-next topic and waits. */
  lemma AskedGrows(s: Jobs, thing: string, next: Exchange)
    ensures
      var t := Asked(s, thing, next).state;
      && t.thing == thing && t.watching == s.watching && !t.started && t.deleted == s.deleted
      && t.sent == s.sent + [Publication("$aws/things/" + thing + "/jobs/" + "start-next", "")]
      && s.acks <= t.acks && s.queue <= t.queue && t.added == s.added + t.queue[|s.queue|..]
  {
    hide Ask;
    var before := s.(execution := NO_EXECUTION, started := false, thing := thing);
    AskGrows(Published(before, JobsTopic(thing) + "start-next", ""), StartNextAnswer, next);
  }

  /** A report publishes the status on the update topic of the job and waits. If it is acknowledged the head of the
      queue is deleted, and nothing else is; jobs may have been queued behind the others meanwhile. */
  lemma ReportedExactly(s: Jobs, thing: string, status: string, update: Exchange)
    ensures
      var t := Reported(s, thing, status, update);
      && t.thing == thing && t.watching && t.started == s.started
      && t.sent == s.sent + [Publication("$aws/things/" + thing + "/jobs/" + s.execution.id + "/update", status)]
      && (if s.queue != [] && UpdateStatus(s, thing, status, update).ok
          then t.deleted == s.deleted + [s.queue[0]] && s.queue[1..] <= t.queue
          else s.queue != [] ==> t.deleted == s.deleted && s.queue <= t.queue)
  {
    hide Ask;
    var topic := JobsTopic(thing) + s.execution.id + "/update";
    AskGrows(Published(s.(thing := thing, watching := true), topic, status), UpdateAnswer, update);
  }

  // ---- What the start procedure does ---------------------------------------------------------------

  /** The state in which the result of a job is reported, and whether the report is acknowledged. */
  function BeforeReport(s: Jobs, thing: string, next: Exchange): Jobs {
    Asked(s, thing, next).state.(started := false)
  }

  predicate Acknowledged(s: Jobs, thing: string, next: Exchange, end: JobEnd, update: Exchange) {
    && CanStart(s) && Asked(s, thing, next).ok && !end.Lost?
    && UpdateStatus(BeforeReport(s, thing, next), thing, StatusOf(end), update).ok
  }

  /** With an empty queue, or a job already started, the procedure does nothing. Otherwise it publishes a start-next
      request; if that is answered and the job not lost, also the result of the job, under the id of the job that the
      answer brought: SUCCEEDED or FAILED. An acknowledged report deletes the job at the head of the queue, which was
      there before the call; without an acknowledgement nothing is deleted. Jobs that arrive meanwhile go behind. What
      comes back is true for a job that succeeded, or when there was nothing to do. */
  lemma StartJobExactly(s: Jobs, thing: string, next: Exchange, end: JobEnd, update: Exchange)
    ensures
      var w := StartJob(s, thing, next, end, update);
      var t := w.state;
      if s.queue == [] || s.started then w.ok && t == s
      else
        var asked, id := Asked(s, thing, next), Asked(s, thing, next).state.execution.id;
        var status := if end.Succeeded? then "SUCCEEDED" else "FAILED";
        var start := Publication("$aws/things/" + thing + "/jobs/" + "start-next", "");
        var result := Publication("$aws/things/" + thing + "/jobs/" + id + "/update", status);
        && w.ok == (asked.ok && end.Succeeded?)
        && t.sent == s.sent + (if asked.ok && !end.Lost? then [start, result] else [start])
        && (if Acknowledged(s, thing, next, end, update)
            then t.deleted == s.deleted + [s.queue[0]] && s.queue[1..] <= t.queue
            else t.deleted == s.deleted && s.queue <= t.queue)
  {
    hide Asked, Reported, UpdateStatus;
    if CanStart(s) {
      var w := Asked(s, thing, next);
      AskedGrows(s, thing, next);
      assert w.state.queue[0] == s.queue[0] && s.queue[1..] <= w.state.queue[1..];
      if w.ok && !end.Lost? {
        ReportedExactly(w.state.(started := false), thing, StatusOf(end), update);
      }
    }
  }

  // ---- When a wait is answered ---------------------------------------------------------------------

  /** What has been delivered before pass i. */
  function Delivered(e: Exchange, i: nat): seq<Message>
    requires i <= |e.passes|
  {
    if i == 0 then [] else Delivered(e, i - 1) + e.passes[i - 1].messages
  }

  lemma {:induction false} MessagesInTwoParts(s: Jobs, a: seq<Message>, b: seq<Message>)
    ensures OnMessages(s, a + b) == OnMessages(OnMessages(s, a), b)
    decreases |b|
  {
    hide OnMessage;
    if b == [] {
      assert a + b == a;
    } else {
      var k := |b| - 1;
      MessagesInTwoParts(s, a, b[..k]);
      assert (a + b)[..|a + b| - 1] == a + b[..k];
    }
  }

  /** The flag that each procedure waits for. */
  predicate FlagSet(s: Jobs, answer: Answer) {
    || (answer.GetAnswer? && s.getAccepted) || (answer.StartNextAnswer? && s.startNextAccepted)
    || (answer.UpdateAnswer? && s.updateAccepted)
  }

  function FlagCleared(s: Jobs, answer: Answer): Jobs {
    s.(getAccepted := s.getAccepted && !answer.GetAnswer?,
       startNextAccepted := s.startNextAccepted && !answer.StartNextAnswer?,
       updateAccepted := s.updateAccepted && !answer.UpdateAnswer?)
  }

  /** A wait goes through n passes, none of them more than 1000 ms after its start. It is answered if and only if the
      flag is set behind the last of them and not before; otherwise the next pass is too late. */
  ghost predicate WaitsFor(s: Jobs, answer: Answer, e: Exchange, w: Waited, n: nat) {
    && n <= |e.passes| && (forall j :: 0 <= j < n ==> Elapsed(e.passes[j].now, e.start) <= 1000)
    && (forall j :: 0 < j < n ==> !FlagSet(OnMessages(s, Delivered(e, j)), answer))
    && var t := OnMessages(s, Delivered(e, n));
       if w.ok then n > 0 && FlagSet(t, answer) && w.state == FlagCleared(t, answer)
       else
         && w.state == t && (n > 0 ==> !FlagSet(t, answer))
         && (n < |e.passes| ==> Elapsed(e.passes[n].now, e.start) > 1000)
  }

  lemma {:induction false} WaitExactly(s: Jobs, answer: Answer, e: Exchange, i: nat) returns (n: nat)
    requires i <= |e.passes|
    requires forall j :: 0 <= j < i ==> Elapsed(e.passes[j].now, e.start) <= 1000
    requires forall j :: 0 < j <= i ==> !FlagSet(OnMessages(s, Delivered(e, j)), answer)
    ensures WaitsFor(s, answer, e, WaitFrom(OnMessages(s, Delivered(e, i)), answer, e, i), n)
    decreases |e.passes| - i
  {
    hide OnMessages, Elapsed;
    n := i;
    if i < |e.passes| && !Late(e, i) {
      MessagesInTwoParts(s, Delivered(e, i), e.passes[i].messages);
      if Noticed(OnMessages(s, Delivered(e, i + 1)), answer) {
        n := i + 1;
      } else {
        n := WaitExactly(s, answer, e, i + 1);
      }
    }
  }

  /** A request that is not published fails at once; one that is waits. */
  lemma AskExactly(s: Jobs, answer: Answer, e: Exchange) returns (n: nat)
    ensures if e.published then WaitsFor(s, answer, e, Ask(s, answer, e), n) else Ask(s, answer, e) == Waited(false, s)
  {
    n := 0;
    if e.published {
      n := WaitExactly(s, answer, e, 0);
    }
  }

  /** The three procedures: what each publishes, and which flag it waits for. */
  lemma ProceduresExactly(s: Jobs, thing: string, status: string, e: Exchange)
    ensures
      var get := s.(thing := thing, sent := s.sent + [Publication("$aws/things/" + thing + "/jobs/" + "get", "")]);
      GetJobs(s, thing, e) == Ask(get, GetAnswer, e)
    ensures
      var next :=
        s.(thing := thing, sent := s.sent + [Publication("$aws/things/" + thing + "/jobs/" + "start-next", "")]);
      StartNext(s, thing, e) == Ask(next, StartNextAnswer, e)
    ensures
      var topic := "$aws/things/" + thing + "/jobs/" + s.execution.id + "/update";
      var update := s.(thing := thing, watching := true, sent := s.sent + [Publication(topic, status)]);
      UpdateStatus(s, thing, status, e) == Ask(update, UpdateAnswer, e)
  {}

  // ---- The job that an answer brings ---------------------------------------------------------------

  /** The job in the last of the messages on a topic that brings one. */
  function Brought(topic: string, ms: seq<Message>, otherwise: Execution): Execution {
    if ms == [] then otherwise
    else
      var m := ms[|ms| - 1];
      if m.topic == topic && m.next.Some? then m.next.value else Brought(topic, ms[..|ms| - 1], otherwise)
  }

  /** No topic is cut short so that it could be taken for this one. */
  predicate Uncut(topic: string, ms: seq<Message>) {
    forall i :: 0 <= i < |ms| ==> ms[i].topic <= topic ==> ms[i].topic == topic
  }

  lemma MessageBrings(s: Jobs, m: Message)
    requires !s.started
    requires
      var topic := "$aws/things/" + s.thing + "/jobs/" + "start-next/accepted";
      m.topic <= topic ==> m.topic == topic
    ensures
      var topic := "$aws/things/" + s.thing + "/jobs/" + "start-next/accepted";
      OnMessage(s, m).execution == if m.topic == topic && m.next.Some? then m.next.value else s.execution
  {
    hide Accepts, TopicMatches, WatchedId, UpdateTopic;
    TopicsApart(s.thing, "");
    GetBringsNothing(s, m);
    var t := TryGet(s, m);
    if m.topic == StartNextTopic(s.thing) {
      StartNextAlone(s, m);
    } else {
      NoMatch(m.topic, StartNextTopic(s.thing));
    }
  }

  lemma GetBringsNothing(s: Jobs, m: Message)
    ensures
      var t := TryGet(s, m);
      t.execution == s.execution && t.thing == s.thing && t.started == s.started
  {}

  lemma StartNextAlone(s: Jobs, m: Message)
    requires m.topic == StartNextTopic(s.thing)
    ensures TryGet(s, m) == s && !Stops(s, m) && TopicMatches(m.topic, StartNextTopic(s.thing))
  {
    TopicsApart(s.thing, "");
  }

  lemma NoMatch(topic: string, expected: string)
    requires topic <= expected ==> topic == expected
    ensures topic != expected ==> !TopicMatches(topic, expected)
  {}

  lemma {:induction false} MessagesBring(s: Jobs, topic: string, ms: seq<Message>)
    requires !s.started && topic == "$aws/things/" + s.thing + "/jobs/" + "start-next/accepted" && Uncut(topic, ms)
    ensures OnMessages(s, ms).execution == Brought(topic, ms, s.execution)
    decreases |ms|
  {
    hide OnMessage;
    if ms != [] {
      var k := |ms| - 1;
      MessagesBring(s, topic, ms[..k]);
      MessagesGrow(s, ms[..k]);
      MessageBrings(OnMessages(s, ms[..k]), ms[k]);
    }
  }

  /** The start procedure goes on with the job that the messages of the wait have brought last, and with an empty one
      if they brought none. */
  lemma AskedBrings(s: Jobs, thing: string, next: Exchange) returns (n: nat)
    requires Asked(s, thing, next).ok
    requires Uncut("$aws/things/" + thing + "/jobs/" + "start-next/accepted", Delivered(next, |next.passes|))
    ensures 0 < n <= |next.passes|
    ensures forall j :: 0 <= j < n ==> Elapsed(next.passes[j].now, next.start) <= 1000
    ensures
      var topic := "$aws/things/" + thing + "/jobs/" + "start-next/accepted";
      Asked(s, thing, next).state.execution == Brought(topic, Delivered(next, n), Execution("", "", ""))
  {
    hide OnMessages, Elapsed;
    var topic := "$aws/things/" + thing + "/jobs/" + "start-next/accepted";
    var before :=
      Published(s.(execution := NO_EXECUTION, started := false, thing := thing), JobsTopic(thing) + "start-next", "");
    n := AskExactly(before, StartNextAnswer, next);
    DeliveredMore(next, n, |next.passes|);
    MessagesBring(before, topic, Delivered(next, n));
  }

  lemma {:induction false} DeliveredMore(e: Exchange, i: nat, j: nat)
    requires i <= j <= |e.passes|
    ensures Delivered(e, i) <= Delivered(e, j)
    decreases j
  {
    if i < j {
      DeliveredMore(e, i, j - 1);
    }
  }

  /** What can happen to the jobs task between power-up and reboot: a message arrives outside a wait, it asks for
      jobs, or it runs the one at the head of the queue. */
  datatype Call =
    | Arrives(message: Message)
    | GetsJobs(thing: string, get: Exchange)
    | StartsJob(thing: string, next: Exchange, end: JobEnd, update: Exchange)

  function AfterCall(s: Jobs, call: Call): Jobs {
    match call
    case Arrives(m) => OnMessage(s, m)
    case GetsJobs(thing, get) => GetJobs(s, thing, get).state
    case StartsJob(thing, next, end, update) => StartJob(s, thing, next, end, update).state
  }

  function AfterCalls(s: Jobs, calls: seq<Call>): Jobs {
    if calls == [] then s else AfterCall(AfterCalls(s, calls[..|calls| - 1]), calls[|calls| - 1])
  }

  /** Whether a call runs a job that gets lost. */
  predicate Loses(s: Jobs, call: Call) {
    call.StartsJob? && CanStart(s) && Asked(s, call.thing, call.next).ok && call.end.Lost?
  }

  lemma CallKeeps(s: Jobs, call: Call)
    requires Orderly(s)
    ensures Orderly(AfterCall(s, call)) && (AfterCall(s, call).started <==> s.started || Loses(s, call))
    ensures |AfterCall(s, call).deleted| == |s.deleted| + if Spends(s, call) then 1 else 0
  {
    hide Ask, StartJob, Asked, UpdateStatus, OnMessage;
    match call {
      case Arrives(m) =>
        MessageKeeps(s, m);
        MessageGrows(s, m);
      case GetsJobs(thing, get) =>
        var before := Published(s.(thing := thing), JobsTopic(thing) + "get", "");
        AskKeeps(before, GetAnswer, get);
        AskGrows(before, GetAnswer, get);
      case StartsJob(thing, next, end, update) =>
        StartJobKeeps(s, thing, next, end, update);
        StartJobExactly(s, thing, next, end, update);
    }
  }

  /** Whether a call runs a job whose report is acknowledged. */
  predicate Spends(s: Jobs, call: Call) {
    call.StartsJob? && Acknowledged(s, call.thing, call.next, call.end, call.update)
  }

  /** How many of the calls since power-up did. */
  function Spent(calls: seq<Call>): nat {
    if calls == [] then 0
    else
      var front := calls[..|calls| - 1];
      Spent(front) + if Spends(AfterCalls(INITIAL, front), calls[|calls| - 1]) then 1 else 0
  }

  /** One of the calls since power-up lost its job. */
  predicate SomeLost(calls: seq<Call>) {
    && calls != []
    && var front := calls[..|calls| - 1];
       SomeLost(front) || Loses(AfterCalls(INITIAL, front), calls[|calls| - 1])
  }

  /** After any number of calls since power-up: jobs leave the queue in the order they entered it, none is queued
      twice or is a prefix of one queued before it, none is empty, at most five are queued, as many were deleted as
      reports were acknowledged, which are no more than updates were accepted, and a job is marked as started if and
      only if one of the calls lost its job. */
  lemma {:induction false} EveryRun(calls: seq<Call>)
    ensures
      var s := AfterCalls(INITIAL, calls);
      && s.added == s.deleted + s.queue && |s.deleted| == Spent(calls) <= s.acks
      && |s.queue| <= MAX_AWS_JOB_LIST_SIZE && [] !in s.queue && NoneRepeated(s.queue) && Orderly(s)
      && (s.started <==> SomeLost(calls))
    decreases |calls|
  {
    hide AfterCall, Loses, Spends;
    if calls != [] {
      EveryRun(calls[..|calls| - 1]);
      CallKeeps(AfterCalls(INITIAL, calls[..|calls| - 1]), calls[|calls| - 1]);
    }
  }

  /** The test for a job already queued is wrong in one way only: it also holds for an id that is a proper prefix
      of a queued one. */
  lemma KnownExactly(queue: seq<string>, id: string)
    requires id != []
    ensures Known(queue, id) <==> id in queue || exists i :: 0 <= i < |queue| && id < queue[i]
  {
    if Known(queue, id) {
      var i :| 0 <= i < |queue| && id <= queue[i];
      assert |id| == |queue[i]| ==> id == queue[i];
    }
    if id in queue {
      var i :| 0 <= i < |queue| && queue[i] == id;
      assert id <= queue[i];
    }
    forall i | 0 <= i < |queue| && id < queue[i]
      ensures id <= queue[i]
    {}
  }

  /** A job that was never queued can be refused: "job-1" after "job-10". */
  lemma NewJobRefused()
    ensures !Accepts(["job-10"], "job-1") && "job-1" !in ["job-10"]
    ensures Accepts(["job-1"], "job-10")
  {
    assert "job-1" <= ["job-10"][0];
    assert |"job-10"| > |["job-1"][0]|;
  }
}
