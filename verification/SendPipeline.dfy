/**
 The asynchronous message send of src/core/send_pipeline.c on top of the job
 queue of src/pow/pow_queue.c. A send is a chain of one or two proofs of work:
 the acknowledgement, then the message that embeds it. Callers, the single worker
 and a shutdown interleave freely; what a send does is recorded in its trace.
 */
module SendPipeline {
  import opened Numerals

  const KEY_MAX := 40

  datatype Stage = Ack | Msg

  /** What one send does to the world and to its own memory, in order. */
  datatype Effect =
    | Erase                         // the signing key is overwritten
    | Offer(stage: Stage, rc: int)  // a proof of work handed to the queue, with the queue's answer
    | SentRow                       // the row of the sent table is written
    | InboxRow                      // a message to oneself is copied to the inbox
    | Report(rc: int)               // the done callback
    | Free                          // the job is released

  type MessageId = id: seq<byte> | |id| == 32 witness seq(32, _ => 0)

  datatype Job = Job(id: MessageId, toSelf: bool, returned: int, trace: seq<Effect>)

  // ----------------------------------------------------------------- the monitor

  datatype Monitor = Monitor(key: bool, row: bool, reported: Option<int>, freed: bool)

  /**
   The rules of a send: nothing happens after the release; a message proof of work is
   offered only once the signing key is gone; the callback runs at most once, and with
   success only after the sent row; the key is gone before the memory is released.
   */
  function Observe(m: Monitor, e: Effect): Option<Monitor> {
    if m.freed then None
    else match e
      case Erase => Some(m.(key := false))
      case Offer(stage, _) => if stage.Msg? && m.key then None else Some(m)
      case SentRow => Some(m.(row := true))
      case InboxRow => Some(m)
      case Report(rc) => if m.reported.Some? || (rc == 0 && !m.row) then None else Some(m.(reported := Some(rc)))
      case Free => if m.key then None else Some(m.(freed := true))
  }

  function Watch(trace: seq<Effect>): Option<Monitor> {
    if |trace| == 0 then Some(Monitor(true, false, None, false))
    else
      var before := Watch(trace[..|trace| - 1]);
      if before.None? then None else Observe(before.value, trace[|trace| - 1])
  }

  lemma WatchSnoc(trace: seq<Effect>, e: Effect)
    requires Watch(trace).Some?
    ensures Watch(trace + [e]) == Observe(Watch(trace).value, e)
  {
    assert (trace + [e])[..|trace|] == trace;
  }

  // -------------------------------------------------------------- steps of a job

  function Do(job: Job, e: Effect): Job {
    job.(trace := job.trace + [e])
  }

  /** `msg_job_free` */
  function Release(job: Job): Job {
    Do(Do(job, Erase), Free)
  }

  /** `msg_job_fail` */
  function Fail(job: Job): Job {
    Release(Do(job, Report(-1)))
  }

  /** The end of a message whose proof of work is done. */
  function Succeed(job: Job): Job {
    var stored := Do(job, SentRow);
    Release(Do(if job.toSelf then Do(stored, InboxRow) else stored, Report(0)))
  }

  /** Nothing of the job is left; its callback ran if and only if the call had returned 0. */
  ghost predicate Over(job: Job) {
    var w := Watch(job.trace);
    && w.Some? && w.value.freed && !w.value.key
    && (job.returned == 0 <==> w.value.reported.Some?)
    && (w.value.reported == Some(0) <==> w.value.row)
  }

  /** The job waits for a proof of work. */
  ghost predicate Waits(job: Job, stage: Stage) {
    && job.returned == 0
    && Watch(job.trace) == Some(Monitor(stage.Ack?, false, None, false))
  }

  lemma ReleaseOver(job: Job)
    requires var w := Watch(job.trace);
             w.Some? && !w.value.freed && (job.returned == 0 <==> w.value.reported.Some?)
             && (w.value.reported == Some(0) <==> w.value.row)
    ensures Over(Release(job))
  {
    WatchSnoc(job.trace, Erase);
    WatchSnoc(Do(job, Erase).trace, Free);
  }

  lemma FailOver(job: Job)
    requires job.returned == 0 && Watch(job.trace).Some?
    requires var m := Watch(job.trace).value; !m.freed && m.reported.None? && !m.row
    ensures Over(Fail(job))
  {
    WatchSnoc(job.trace, Report(-1));
    ReleaseOver(Do(job, Report(-1)));
  }

  lemma SucceedOver(job: Job)
    requires Waits(job, Msg)
    ensures Over(Succeed(job))
  {
    WatchSnoc(job.trace, SentRow);
    var stored := Do(job, SentRow);
    WatchSnoc(stored.trace, InboxRow);
    var copied := if job.toSelf then Do(stored, InboxRow) else stored;
    WatchSnoc(copied.trace, Report(0));
    ReleaseOver(Do(copied, Report(0)));
  }

  // -------------------------------------------------------------------- the queue

  /** Work in the queue: a stage of a send, or another module's proof of work. */
  datatype Work = Of(job: nat, stage: Stage) | Foreign
  datatype Ticket = Ticket(key: seq<byte>, work: Work)

  /**
   `running` is the ticket the worker holds; `called` tells that its callback has
   run; `discard` is the list a shutdown detached.
   */
  datatype State = State(jobs: seq<Job>, pending: seq<Ticket>, running: Option<Ticket>, called: bool,
                         stopping: bool, discard: seq<Ticket>, maxPending: nat)

  function KeyOf(id: MessageId): (key: seq<byte>)
    ensures |key| == 33
  {
    [83 as byte] + id
  }

  predicate HasKey(ts: seq<Ticket>, key: seq<byte>) {
    exists i :: 0 <= i < |ts| && ts[i].key == key
  }

  /** `key_in_flight`: the worker itself does not look at the job it is running. */
  predicate InFlight(s: State, key: seq<byte>, onWorker: bool) {
    (s.running.Some? && !onWorker && s.running.value.key == key) || HasKey(s.pending, key)
  }

  /** The answer of `bm_pow_queue_submit`. */
  function Verdict(s: State, key: seq<byte>, onWorker: bool): int {
    if |key| > KEY_MAX || s.stopping || |s.pending| >= s.maxPending then -1
    else if |key| > 0 && InFlight(s, key, onWorker) then 1
    else 0
  }

  function Submit(s: State, t: Ticket, onWorker: bool): State {
    if Verdict(s, t.key, onWorker) == 0 then s.(pending := s.pending + [t]) else s
  }

  // ------------------------------------------------------------- the calls, as values

  /** One `sendMessage` call; the flags say which preparation steps succeed. */
  datatype Request = Request(id: MessageId, toSelf: bool, prepared: bool, built: bool)

  /** `bm_send_pipeline_send_message_async` with a queue */
  function Send(s: State, r: Request): (State, int) {
    var job := Job(r.id, r.toSelf, 0, []);
    if !r.prepared then (AddJob(s, Release(job.(returned := -1))), -1)
    else if r.toSelf && !r.built then (AddJob(s, Release(Do(job.(returned := -1), Erase))), -1)
    else if !r.built then (AddJob(s, Release(job.(returned := -1))), -1)
    else
      var stage := if r.toSelf then Msg else Ack;
      var rc := Verdict(s, KeyOf(r.id), false);
      var ready := if r.toSelf then Do(job, Erase) else job;
      var offered := Do(ready.(returned := rc), Offer(stage, rc));
      (Submit(AddJob(s, if rc == 0 then offered else Release(offered)),
              Ticket(KeyOf(r.id), Of(|s.jobs|, stage)), false), rc)
  }

  function AddJob(s: State, job: Job): State {
    s.(jobs := s.jobs + [job])
  }

  function PutJob(s: State, j: nat, job: Job): State
    requires j < |s.jobs|
  {
    s.(jobs := s.jobs[j := job])
  }

  /** How a finished or abandoned proof of work continues: is there an object, and do the later steps work? */
  datatype Outcome = Outcome(solved: bool, built: bool, inserted: bool)

  /** `ack_pow_done` and `build_and_submit_msg` */
  function AckDone(s: State, j: nat, o: Outcome, onWorker: bool): State
    requires j < |s.jobs|
  {
    var job := s.jobs[j];
    if !o.solved then PutJob(s, j, Fail(job))
    else if !o.built then PutJob(s, j, Fail(Do(job, Erase)))
    else
      var rc := Verdict(s, KeyOf(job.id), onWorker);
      var offered := Do(Do(job, Erase), Offer(Msg, rc));
      Submit(PutJob(s, j, if rc == 0 then offered else Fail(offered)), Ticket(KeyOf(job.id), Of(j, Msg)), onWorker)
  }

  /** `msg_pow_done` */
  function MsgDone(s: State, j: nat, o: Outcome): State
    requires j < |s.jobs|
  {
    PutJob(s, j, if o.solved && o.inserted then Succeed(s.jobs[j]) else Fail(s.jobs[j]))
  }

  function Callback(s: State, t: Ticket, o: Outcome, onWorker: bool): State
    requires t.work.Of? ==> t.work.job < |s.jobs|
  {
    match t.work
    case Foreign => s
    case Of(j, Ack) => AckDone(s, j, o, onWorker)
    case Of(j, Msg) => MsgDone(s, j, o)
  }

  // -------------------------------------------------------------------- the machine

  datatype Event =
    | SendCall(r: Request)
    | ForeignSubmit(key: seq<byte>)
    | WorkerTakes
    | WorkerCalls(o: Outcome)
    | WorkerReleases
    | ShutdownBegins
    | DiscardNext(o: Outcome)

  predicate InRange(s: State, t: Ticket) {
    t.work.Of? ==> t.work.job < |s.jobs|
  }

  predicate Enabled(s: State, e: Event) {
    match e
    case SendCall(_) => true
    case ForeignSubmit(_) => true
    case WorkerTakes => s.running.None? && !s.stopping && s.pending != []
    case WorkerCalls(_) => s.running.Some? && !s.called && InRange(s, s.running.value)
    case WorkerReleases => s.running.Some? && s.called
    case ShutdownBegins => true
    case DiscardNext(o) => s.stopping && s.running.None? && s.discard != [] && InRange(s, s.discard[0]) && !o.solved
  }

  function Step(s: State, e: Event): State
    requires Enabled(s, e)
  {
    match e
    case SendCall(r) => Send(s, r).0
    case ForeignSubmit(key) => Submit(s, Ticket(key, Foreign), false)
    case WorkerTakes => s.(running := Some(s.pending[0]), called := false, pending := s.pending[1..])
    case WorkerCalls(o) => Callback(s, s.running.value, o, true).(called := true)
    case WorkerReleases => s.(running := None, called := false)
    case ShutdownBegins => if s.stopping then s else s.(stopping := true, discard := s.pending, pending := [])
    case DiscardNext(o) => Callback(s.(discard := s.discard[1..]), s.discard[0], o, false)
  }

  predicate Permitted(s: State, run: seq<Event>)
    decreases |run|
  {
    |run| == 0 || (Enabled(s, run[0]) && Permitted(Step(s, run[0]), run[1..]))
  }

  function Run(s: State, run: seq<Event>): State
    requires Permitted(s, run)
    decreases |run|
  {
    if |run| == 0 then s else Run(Step(s, run[0]), run[1..])
  }

  function Initial(maxPending: nat): State {
    State([], [], None, false, false, [], maxPending)
  }

  // -------------------------------------------------------------------- invariant

  /** The tickets whose callback is still to come, oldest first. */
  function Live(s: State): seq<Ticket> {
    (if s.running.Some? && !s.called then [s.running.value] else []) + s.pending + s.discard
  }

  ghost predicate Linked(jobs: seq<Job>, t: Ticket) {
    t.work.Of? ==>
      t.work.job < |jobs| && t.key == KeyOf(jobs[t.work.job].id) && Waits(jobs[t.work.job], t.work.stage)
  }

  predicate Mentions(t: Ticket, j: nat) {
    t.work.Of? && t.work.job == j
  }

  ghost predicate Apart(a: Ticket, b: Ticket) {
    && (a.work.Of? && b.work.Of? ==> a.work.job != b.work.job)
    && (|a.key| > 0 ==> a.key != b.key)
  }

  /** Every live ticket belongs to one waiting job, every other job is over, and no key is live twice. */
  ghost predicate Good(jobs: seq<Job>, live: seq<Ticket>) {
    && (forall i :: 0 <= i < |live| ==> Linked(jobs, live[i]))
    && (forall i, k :: 0 <= i < k < |live| ==> Apart(live[i], live[k]))
    && (forall j :: 0 <= j < |jobs| && (forall i :: 0 <= i < |live| ==> !Mentions(live[i], j)) ==> Over(jobs[j]))
  }

  ghost predicate Inv(s: State) {
    && Good(s.jobs, Live(s))
    && (if s.stopping then s.pending == [] else s.discard == [])
    && |s.pending| <= s.maxPending && (s.called ==> s.running.Some?)
  }

  // ------------------------------------------------------ adding and removing tickets

  lemma AddOver(jobs: seq<Job>, live: seq<Ticket>, job: Job)
    requires Good(jobs, live) && Over(job)
    ensures Good(jobs + [job], live)
  {
    hide Over, Waits;
    var jobs' := jobs + [job];
    forall i | 0 <= i < |live|
      ensures Linked(jobs', live[i])
    {
      assert Linked(jobs, live[i]);
    }
  }

  lemma AddLive(jobs: seq<Job>, live: seq<Ticket>, job: Job, stage: Stage)
    requires Good(jobs, live) && Waits(job, stage) && !HasKey(live, KeyOf(job.id))
    ensures Good(jobs + [job], live + [Ticket(KeyOf(job.id), Of(|jobs|, stage))])
  {
    hide Over, Waits, KeyOf;
    var jobs', t := jobs + [job], Ticket(KeyOf(job.id), Of(|jobs|, stage));
    var live' := live + [t];
    assert Linked(jobs', t);
    forall i | 0 <= i < |live|
      ensures Linked(jobs', live[i]) && Apart(live[i], t)
    {
      assert Linked(jobs, live[i]);
    }
    forall j | 0 <= j < |jobs'| && forall i :: 0 <= i < |live'| ==> !Mentions(live'[i], j)
      ensures Over(jobs'[j])
    {
      assert Mentions(live'[|live|], |jobs|);
      forall i | 0 <= i < |live|
        ensures !Mentions(live[i], j)
      {
        assert live'[i] == live[i];
      }
    }
  }

  lemma AddForeign(jobs: seq<Job>, live: seq<Ticket>, key: seq<byte>)
    requires Good(jobs, live) && (|key| > 0 ==> !HasKey(live, key))
    ensures Good(jobs, live + [Ticket(key, Foreign)])
  {
    hide Over, Waits, KeyOf;
    var live' := live + [Ticket(key, Foreign)];
    forall i | 0 <= i < |live|
      ensures Apart(live[i], Ticket(key, Foreign))
    {
      assert Linked(jobs, live[i]);
    }
    forall j | 0 <= j < |jobs| && forall i :: 0 <= i < |live'| ==> !Mentions(live'[i], j)
      ensures Over(jobs[j])
    {
      forall i | 0 <= i < |live|
        ensures !Mentions(live[i], j)
      {
        assert live'[i] == live[i];
      }
    }
  }

  /** The callback of the oldest ticket ends its job. */
  lemma PopOver(jobs: seq<Job>, live: seq<Ticket>, job: Job)
    requires Good(jobs, live) && live != [] && live[0].work.Of? && live[0].work.job < |jobs| && Over(job)
    ensures Good(jobs[live[0].work.job := job], live[1..])
  {
    hide Over, Waits, KeyOf;
    var j0, rest := live[0].work.job, live[1..];
    var jobs' := jobs[j0 := job];
    forall i | 0 <= i < |rest|
      ensures Linked(jobs', rest[i])
    {
      assert Linked(jobs, live[i + 1]) && Apart(live[0], live[i + 1]);
    }
    forall i, k | 0 <= i < k < |rest|
      ensures Apart(rest[i], rest[k])
    {
      assert Apart(live[i + 1], live[k + 1]);
    }
    forall j | 0 <= j < |jobs'| && forall i :: 0 <= i < |rest| ==> !Mentions(rest[i], j)
      ensures Over(jobs'[j])
    {
      if j != j0 {
        forall i | 0 <= i < |live|
          ensures !Mentions(live[i], j)
        {
          assert i > 0 ==> live[i] == rest[i - 1];
        }
      }
    }
  }

  lemma PopForeign(jobs: seq<Job>, live: seq<Ticket>)
    requires Good(jobs, live) && live != [] && live[0].work.Foreign?
    ensures Good(jobs, live[1..])
  {
    hide Over, Waits, KeyOf;
    var rest := live[1..];
    forall i | 0 <= i < |rest|
      ensures Linked(jobs, rest[i])
    {
      assert Linked(jobs, live[i + 1]);
    }
    forall i, k | 0 <= i < k < |rest|
      ensures Apart(rest[i], rest[k])
    {
      assert Apart(live[i + 1], live[k + 1]);
    }
    forall j | 0 <= j < |jobs| && forall i :: 0 <= i < |rest| ==> !Mentions(rest[i], j)
      ensures Over(jobs[j])
    {
      forall i | 0 <= i < |live|
        ensures !Mentions(live[i], j)
      {
        assert i > 0 ==> live[i] == rest[i - 1];
      }
    }
  }

  /** The callback of the oldest ticket queues the next stage of the same job. */
  lemma PopAgain(jobs: seq<Job>, live: seq<Ticket>, job: Job)
    requires Good(jobs, live) && live != [] && live[0].work.Of? && live[0].work.job < |jobs|
    requires Waits(job, Msg) && job.id == jobs[live[0].work.job].id
    ensures Good(jobs[live[0].work.job := job], live[1..] + [Ticket(KeyOf(job.id), Of(live[0].work.job, Msg))])
  {
    hide Over, Waits, KeyOf;
    var j0, rest := live[0].work.job, live[1..];
    var jobs', t := jobs[j0 := job], Ticket(KeyOf(job.id), Of(j0, Msg));
    var live' := rest + [t];
    assert Linked(jobs, live[0]) && Linked(jobs', t);
    forall i | 0 <= i < |rest|
      ensures Linked(jobs', live'[i]) && Apart(live'[i], t)
    {
      assert Linked(jobs, live[i + 1]) && Apart(live[0], live[i + 1]) && live'[i] == live[i + 1];
    }
    forall i, k | 0 <= i < k < |live'|
      ensures Apart(live'[i], live'[k])
    {
      if k < |rest| {
        assert Apart(live[i + 1], live[k + 1]);
      }
    }
    forall j | 0 <= j < |jobs'| && forall i :: 0 <= i < |live'| ==> !Mentions(live'[i], j)
      ensures Over(jobs'[j])
    {
      assert Mentions(live'[|rest|], j0);
      forall i | 0 <= i < |live|
        ensures !Mentions(live[i], j)
      {
        assert i > 0 ==> live[i] == live'[i - 1];
      }
    }
  }

  // ------------------------------------------------------------------ one event

  lemma OfferedWaits(job: Job, stage: Stage, rc: int)
    requires Watch(job.trace) == Some(Monitor(stage.Ack?, false, None, false))
    ensures Watch(Do(job, Offer(stage, rc)).trace) == Watch(job.trace)
  {
    WatchSnoc(job.trace, Offer(stage, rc));
  }

  lemma ErasedWaits(job: Job, key: bool)
    requires Watch(job.trace) == Some(Monitor(key, false, None, false))
    ensures Watch(Do(job, Erase).trace) == Some(Monitor(false, false, None, false))
  {
    WatchSnoc(job.trace, Erase);
  }

  /** A submit that is not refused makes no live key appear twice. */
  lemma VerdictFresh(s: State, key: seq<byte>)
    requires Inv(s) && |key| > 0 && Verdict(s, key, false) == 0
    ensures !HasKey(Live(s), key)
  {
    var live := Live(s);
    var k := if s.running.Some? && !s.called then 1 else 0;
    forall i | 0 <= i < |live|
      ensures live[i].key != key
    {
      if i >= k {
        assert live[i] == s.pending[i - k];
      }
    }
  }

  lemma SendInv(s: State, r: Request)
    requires Inv(s)
    ensures Inv(Send(s, r).0)
  {
    var job := Job(r.id, r.toSelf, 0, []);
    if !r.prepared || !r.built {
      var failed := job.(returned := -1);
      ErasedWaits(failed, true);
      ReleaseOver(failed);
      ReleaseOver(Do(failed, Erase));
      AddOver(s.jobs, Live(s), Release(failed));
      AddOver(s.jobs, Live(s), Release(Do(failed, Erase)));
    } else {
      SubmitInv(s, r, job);
    }
  }

  lemma SubmitInv(s: State, r: Request, job: Job)
    requires Inv(s) && r.prepared && r.built && job == Job(r.id, r.toSelf, 0, [])
    ensures Inv(Send(s, r).0)
  {
    hide Good, Watch, KeyOf, HasKey;
    var stage := if r.toSelf then Msg else Ack;
    var rc := Verdict(s, KeyOf(r.id), false);
    WatchEmpty();
    ErasedWaits(job, true);
    var ready := if r.toSelf then Do(job, Erase) else job;
    OfferedWaits(ready, stage, rc);
    var offered := Do(ready.(returned := rc), Offer(stage, rc));
    if rc == 0 {
      VerdictFresh(s, KeyOf(r.id));
      AddLive(s.jobs, Live(s), offered, stage);
      assert Live(Send(s, r).0) == Live(s) + [Ticket(KeyOf(r.id), Of(|s.jobs|, stage))];
    } else {
      ReleaseOver(offered);
      AddOver(s.jobs, Live(s), Release(offered));
      assert Live(Send(s, r).0) == Live(s);
    }
  }

  lemma WatchEmpty()
    ensures Watch([]) == Some(Monitor(true, false, None, false))
  {
  }

  /** The callback of the oldest live ticket keeps the queue sound; `rest` is the state with that ticket taken off. */
  lemma CallbackInv(s: State, rest: State, t: Ticket, o: Outcome, onWorker: bool)
    requires Inv(s) && Live(s) == [t] + Live(rest) && rest.jobs == s.jobs && InRange(s, t)
    requires if rest.stopping then rest.pending == [] else rest.discard == []
    requires |rest.pending| <= rest.maxPending && (rest.called ==> rest.running.Some?)
    ensures Inv(Callback(rest, t, o, onWorker))
  {
    var live := Live(s);
    assert live[0] == t && live[1..] == Live(rest);
    if t.work.Foreign? {
      PopForeign(s.jobs, live);
    } else {
      assert Linked(s.jobs, live[0]);
      var job := s.jobs[t.work.job];
      hide Good, Watch, KeyOf, HasKey;
      if t.work.stage.Msg? {
        if o.solved && o.inserted {
          SucceedOver(job);
          PopOver(s.jobs, live, Succeed(job));
        } else {
          FailOver(job);
          PopOver(s.jobs, live, Fail(job));
        }
      } else {
        AckDoneInv(s, rest, t, o, onWorker);
      }
    }
  }

  lemma AckDoneInv(s: State, rest: State, t: Ticket, o: Outcome, onWorker: bool)
    requires Inv(s) && Live(s) != [] && Live(s)[0] == t && Live(s)[1..] == Live(rest) && rest.jobs == s.jobs
    requires t.work.Of? && t.work.stage.Ack? && Linked(s.jobs, t)
    requires if rest.stopping then rest.pending == [] else rest.discard == []
    requires |rest.pending| <= rest.maxPending && (rest.called ==> rest.running.Some?)
    ensures Inv(AckDone(rest, t.work.job, o, onWorker))
  {
    hide Good, Watch, KeyOf, HasKey;
    var live, j := Live(s), t.work.job;
    var job := s.jobs[j];
    ErasedWaits(job, true);
    if !o.solved {
      FailOver(job);
      PopOver(s.jobs, live, Fail(job));
    } else if !o.built {
      FailOver(Do(job, Erase));
      PopOver(s.jobs, live, Fail(Do(job, Erase)));
    } else {
      var rc := Verdict(rest, KeyOf(job.id), onWorker);
      OfferedWaits(Do(job, Erase), Msg, rc);
      var offered := Do(Do(job, Erase), Offer(Msg, rc));
      var after := AckDone(rest, j, o, onWorker);
      if rc == 0 {
        PopAgain(s.jobs, live, offered);
        assert Live(after) == Live(rest) + [Ticket(KeyOf(job.id), Of(j, Msg))];
      } else {
        FailOver(offered);
        PopOver(s.jobs, live, Fail(offered));
        assert Live(after) == Live(rest);
      }
    }
  }

  lemma ForeignInv(s: State, key: seq<byte>)
    requires Inv(s)
    ensures Inv(Submit(s, Ticket(key, Foreign), false))
  {
    if Verdict(s, key, false) == 0 {
      if |key| > 0 {
        VerdictFresh(s, key);
      }
      hide Good;
      AddForeign(s.jobs, Live(s), key);
      assert Live(Submit(s, Ticket(key, Foreign), false)) == Live(s) + [Ticket(key, Foreign)];
    }
  }

  lemma StepInv(s: State, e: Event)
    requires Inv(s) && Enabled(s, e)
    ensures Inv(Step(s, e))
  {
    hide Good, Send, Submit, Callback, Verdict;
    match e
    case SendCall(r) => SendInv(s, r);
    case ForeignSubmit(key) => ForeignInv(s, key);
    case WorkerTakes => assert Live(Step(s, e)) == Live(s);
    case WorkerCalls(o) => WorkerCallsInv(s, o);
    case WorkerReleases => assert Live(Step(s, e)) == Live(s);
    case ShutdownBegins => assert Live(Step(s, e)) == Live(s);
    case DiscardNext(o) =>
      var rest := s.(discard := s.discard[1..]);
      assert Live(s) == [s.discard[0]] + Live(rest);
      CallbackInv(s, rest, s.discard[0], o, false);
  }

  lemma WorkerCallsInv(s: State, o: Outcome)
    requires Inv(s) && Enabled(s, WorkerCalls(o))
    ensures Inv(Step(s, WorkerCalls(o)))
  {
    hide Good;
    var rest := s.(called := true);
    assert Live(s) == [s.running.value] + Live(rest);
    CallbackInv(s, rest, s.running.value, o, true);
    assert Step(s, WorkerCalls(o)) == Callback(rest, s.running.value, o, true);
  }

  lemma {:induction false} RunInv(s: State, run: seq<Event>)
    requires Inv(s) && Permitted(s, run)
    ensures Inv(Run(s, run))
    decreases |run|
  {
    hide Inv, Step, Enabled;
    if |run| > 0 {
      StepInv(s, run[0]);
      RunInv(Step(s, run[0]), run[1..]);
    }
  }

  // ----------------------------------------------------------------- theorems

  /** How often the callback of a send ran. */
  function Reports(trace: seq<Effect>): nat {
    if |trace| == 0 then 0 else Reports(trace[..|trace| - 1]) + if trace[|trace| - 1].Report? then 1 else 0
  }

  function Frees(trace: seq<Effect>): nat {
    if |trace| == 0 then 0 else Frees(trace[..|trace| - 1]) + if trace[|trace| - 1].Free? then 1 else 0
  }

  /** What the monitor has seen of a trace it lets through. */
  lemma {:induction false} WatchCounts(trace: seq<Effect>)
    requires Watch(trace).Some?
    ensures var m := Watch(trace).value;
            && Reports(trace) == (if m.reported.Some? then 1 else 0) && Frees(trace) == (if m.freed then 1 else 0)
            && (m.row <==> SentRow in trace) && (!m.key <==> Erase in trace)
            && (forall rc :: Report(rc) in trace <==> m.reported == Some(rc))
  {
    if |trace| > 0 {
      var front, last := trace[..|trace| - 1], trace[|trace| - 1];
      WatchCounts(front);
      assert forall e :: e in trace <==> e in front || e == last by {
        assert trace == front + [last];
      }
    }
  }

  /** The orders the monitor enforces. */
  predicate Ordered(trace: seq<Effect>, i: nat)
    requires i < |trace|
  {
    && (trace[i] == Free ==> i == |trace| - 1)
    && (trace[i] == Report(0) ==> SentRow in trace[..i])
    && (trace[i].Offer? && trace[i].stage.Msg? ==> Erase in trace[..i])
  }

  lemma {:induction false} WatchOrders(trace: seq<Effect>, i: nat)
    requires Watch(trace).Some? && i < |trace|
    ensures Ordered(trace, i)
  {
    var n := |trace| - 1;
    var front := trace[..n];
    WatchCounts(front);
    hide Reports, Frees;
    if i < n {
      WatchOrders(front, i);
      assert trace[..i] == front[..i] && trace[i] == front[i];
      if trace[i] == Free {
        FreeSeen(front, i);
      }
    }
  }

  lemma {:induction false} FreeSeen(trace: seq<Effect>, i: nat)
    requires Watch(trace).Some? && i < |trace| && trace[i] == Free
    ensures Watch(trace).value.freed
  {
    if i < |trace| - 1 {
      FreeSeen(trace[..|trace| - 1], i);
    }
  }

  /**
   In every reachable state, for every send that is over: the callback ran exactly once
   if the call returned 0 and never otherwise; the job was released exactly once, after
   everything else; success was reported only after the sent row was written, and a
   written row was reported as success; every message proof of work was offered after
   the signing key was erased.
   */
  lemma SendCompletes(maxPending: nat, run: seq<Event>, j: nat)
    requires Permitted(Initial(maxPending), run)
    requires var s := Run(Initial(maxPending), run);
             j < |s.jobs| && forall t :: t in Live(s) ==> !Mentions(t, j)
    ensures var job := Run(Initial(maxPending), run).jobs[j];
            var trace := job.trace;
            && Reports(trace) == (if job.returned == 0 then 1 else 0) && Frees(trace) == 1
            && |trace| > 0 && trace[|trace| - 1] == Free
            && (Report(0) in trace <==> SentRow in trace)
            && (forall i :: 0 <= i < |trace| ==> Ordered(trace, i))
  {
    var s := Run(Initial(maxPending), run);
    RunInv(Initial(maxPending), run);
    forall i | 0 <= i < |Live(s)|
      ensures !Mentions(Live(s)[i], j)
    {
      assert Live(s)[i] in Live(s);
    }
    hide Run, Permitted, Reports, Frees;
    assert Over(s.jobs[j]);
    var trace := s.jobs[j].trace;
    WatchCounts(trace);
    FreedLast(trace);
    forall i | 0 <= i < |trace|
      ensures Ordered(trace, i)
    {
      WatchOrders(trace, i);
    }
  }

  lemma FreedLast(trace: seq<Effect>)
    requires Watch(trace).Some? && Watch(trace).value.freed
    ensures |trace| > 0 && trace[|trace| - 1] == Free
  {
  }

  /** A send with a live ticket has not reported, has not been released, and returned 0. */
  lemma LiveSendUntouched(maxPending: nat, run: seq<Event>, t: Ticket)
    requires Permitted(Initial(maxPending), run)
    requires t in Live(Run(Initial(maxPending), run)) && t.work.Of?
    ensures var s := Run(Initial(maxPending), run);
            && t.work.job < |s.jobs| && s.jobs[t.work.job].returned == 0
            && Reports(s.jobs[t.work.job].trace) == 0 && Frees(s.jobs[t.work.job].trace) == 0
  {
    var s := Run(Initial(maxPending), run);
    RunInv(Initial(maxPending), run);
    var i :| 0 <= i < |Live(s)| && Live(s)[i] == t;
    hide Run, Permitted, Reports, Frees;
    assert Linked(s.jobs, Live(s)[i]);
    WatchCounts(s.jobs[t.work.job].trace);
  }

  /**
   No two waiting sends share a message id, and the second stage of a send is never
   refused as a duplicate: only a full or stopping queue refuses it.
   */
  lemma SecondStageNoDuplicate(maxPending: nat, run: seq<Event>)
    requires Permitted(Initial(maxPending), run)
    requires var s := Run(Initial(maxPending), run);
             s.running.Some? && !s.called && s.running.value.work.Of?
    ensures var s := Run(Initial(maxPending), run);
            Verdict(s, s.running.value.key, true) == 0
            <==> !s.stopping && |s.pending| < s.maxPending
  {
    var s := Run(Initial(maxPending), run);
    RunInv(Initial(maxPending), run);
    hide Run, Permitted;
    var live, key := Live(s), s.running.value.key;
    assert Linked(s.jobs, live[0]);
    forall i | 0 <= i < |s.pending|
      ensures s.pending[i].key != key
    {
      assert live[i + 1] == s.pending[i] && Apart(live[0], live[i + 1]);
    }
  }

  lemma DistinctIds(maxPending: nat, run: seq<Event>, i: nat, k: nat)
    requires Permitted(Initial(maxPending), run)
    requires var live := Live(Run(Initial(maxPending), run)); i < k < |live| && live[i].work.Of? && live[k].work.Of?
    ensures var s := Run(Initial(maxPending), run); var live := Live(s);
            && live[i].work.job < |s.jobs| && live[k].work.job < |s.jobs|
            && s.jobs[live[i].work.job].id != s.jobs[live[k].work.job].id
  {
    var s := Run(Initial(maxPending), run);
    RunInv(Initial(maxPending), run);
    hide Run, Permitted;
    var live := Live(s);
    assert Linked(s.jobs, live[i]) && Linked(s.jobs, live[k]) && Apart(live[i], live[k]);
  }

  // ------------------------------------------------------------------ draining

  function Load(ts: seq<Ticket>): nat {
    if |ts| == 0 then 0 else Load(ts[..|ts| - 1]) + Cost(ts[|ts| - 1])
  }

  /** Worker steps a waiting ticket can still cause: take, call, release, and once more for a second stage. */
  function Cost(t: Ticket): nat {
    if t.work.Of? && t.work.stage.Ack? then 6 else 3
  }

  function Left(s: State): nat {
    Load(s.pending) + Load(s.discard) +
    if s.running.None? then 0 else if s.called then 1 else Cost(s.running.value) - 1
  }

  predicate Workers(e: Event) {
    e.WorkerTakes? || e.WorkerCalls? || e.WorkerReleases? || e.DiscardNext?
  }

  predicate Idle(s: State) {
    s.running.None? && s.pending == [] && s.discard == []
  }

  lemma {:induction false} LoadFirst(ts: seq<Ticket>)
    requires |ts| > 0
    ensures Load(ts) == Cost(ts[0]) + Load(ts[1..])
  {
    var n := |ts| - 1;
    if n > 0 {
      LoadFirst(ts[..n]);
      assert ts[..n][1..] == ts[1..][..n - 1];
    }
  }

  lemma LoadSnoc(ts: seq<Ticket>, t: Ticket)
    ensures Load(ts + [t]) == Load(ts) + Cost(t)
  {
    assert (ts + [t])[..|ts|] == ts;
  }

  lemma CallbackLoad(s: State, t: Ticket, o: Outcome, onWorker: bool)
    requires InRange(s, t)
    ensures var s' := Callback(s, t, o, onWorker);
            && Load(s'.pending) <= Load(s.pending) + Cost(t) - 3
            && s'.(jobs := s.jobs, pending := s.pending) == s
  {
    if t.work.Of? && t.work.stage.Ack? {
      LoadSnoc(s.pending, Ticket(KeyOf(s.jobs[t.work.job].id), Of(t.work.job, Msg)));
    }
    hide Load;
  }

  /** Every step of the worker or of a shutdown uses up some of the remaining work. */
  lemma WorkerProgress(s: State, e: Event)
    requires Inv(s) && Enabled(s, e) && Workers(e)
    ensures Left(Step(s, e)) < Left(s)
  {
    hide Load, Callback, Good;
    match e
    case WorkerTakes => LoadFirst(s.pending);
    case WorkerCalls(o) => CallbackLoad(s, s.running.value, o, true);
    case WorkerReleases =>
    case DiscardNext(o) => LoadFirst(s.discard); CallbackLoad(s.(discard := s.discard[1..]), s.discard[0], o, false);
  }

  /** While anything is queued, running or detached, some worker step is possible. */
  lemma SomeStep(s: State) returns (e: Event)
    requires Inv(s) && !Idle(s)
    ensures Workers(e) && Enabled(s, e)
  {
    if s.running.Some? {
      if s.called {
        e := WorkerReleases;
      } else {
        e := WorkerCalls(Outcome(false, false, false));
        assert Linked(s.jobs, Live(s)[0]);
      }
    } else if s.stopping {
      e := DiscardNext(Outcome(false, false, false));
      assert Live(s)[0] == s.discard[0] && Linked(s.jobs, Live(s)[0]);
    } else {
      e := WorkerTakes;
    }
  }

  /** When nothing is left in the queue every send is over. */
  lemma IdleAllOver(s: State, j: nat)
    requires Inv(s) && Idle(s) && j < |s.jobs|
    ensures Over(s.jobs[j])
  {
    assert Live(s) == [];
  }

  predicate AllWorkers(run: seq<Event>) {
    |run| == 0 || (Workers(run[0]) && AllWorkers(run[1..]))
  }

  /**
   With no new submissions the queue drains: the worker can take at most `Left(s)`
   steps, and once none is possible every send ever made is over.
   */
  lemma {:induction false} QueueDrains(s: State, run: seq<Event>)
    requires Inv(s) && Permitted(s, run) && AllWorkers(run)
    ensures |run| <= Left(s)
    ensures (forall e :: Workers(e) ==> !Enabled(Run(s, run), e)) ==>
              Idle(Run(s, run)) && forall j :: 0 <= j < |Run(s, run).jobs| ==> Over(Run(s, run).jobs[j])
    decreases |run|
  {
    hide Left, Over, Good;
    if |run| == 0 {
      if !Idle(s) {
        var e := SomeStep(s);
      } else {
        forall j | 0 <= j < |s.jobs|
          ensures Over(s.jobs[j])
        {
          IdleAllOver(s, j);
        }
      }
    } else {
      StepInv(s, run[0]);
      WorkerProgress(s, run[0]);
      QueueDrains(Step(s, run[0]), run[1..]);
    }
  }

  // -------------------------------------------------------------- without a queue

  /** The same call with no queue: each proof of work runs at once, in the caller. */
  function SendNow(r: Request, o: Outcome): Job {
    var job := Job(r.id, r.toSelf, 0, []);
    if !r.prepared then Release(job.(returned := -1))
    else if r.toSelf && !r.built then Release(Do(job.(returned := -1), Erase))
    else if !r.built then Release(job.(returned := -1))
    else
      var acked := if r.toSelf then job else Do(job, Offer(Ack, 0));
      if !r.toSelf && !o.built then Fail(Do(acked, Erase))
      else
        var offered := Do(Do(acked, Erase), Offer(Msg, 0));
        if o.inserted then Succeed(offered) else Fail(offered)
  }

  lemma SendNowOver(r: Request, o: Outcome)
    ensures Over(SendNow(r, o)) && (SendNow(r, o).returned == 0 <==> r.prepared && r.built)
  {
    var job := Job(r.id, r.toSelf, 0, []);
    WatchEmpty();
    hide Watch;
    var failed := job.(returned := -1);
    ErasedWaits(failed, true);
    ReleaseOver(failed);
    ReleaseOver(Do(failed, Erase));
    OfferedWaits(job, Ack, 0);
    var acked := if r.toSelf then job else Do(job, Offer(Ack, 0));
    ErasedWaits(acked, true);
    FailOver(Do(acked, Erase));
    OfferedWaits(Do(acked, Erase), Msg, 0);
    var offered := Do(Do(acked, Erase), Offer(Msg, 0));
    SucceedOver(offered);
    FailOver(offered);
    hide Over;
  }

  // --------------------------------------------------------------- the methods

  class Pipeline {
    var jobs: seq<Job>
    var pending: seq<Ticket>
    var running: Option<Ticket>
    var called: bool
    var stopping: bool
    var discard: seq<Ticket>
    const maxPending: nat

    ghost function View(): State
      reads this
    {
      State(jobs, pending, running, called, stopping, discard, maxPending)
    }

    constructor (maxPending: nat)
      ensures View() == Initial(maxPending)
    {
      jobs, pending, running, called, stopping, discard := [], [], None, false, false, [];
      this.maxPending := maxPending;
    }

    /** `key_in_flight` */
    method KeyInFlight(key: seq<byte>, onWorker: bool) returns (b: bool)
      ensures b == InFlight(View(), key, onWorker)
    {
      if running.Some? && !onWorker && running.value.key == key {
        return true;
      }
      for i := 0 to |pending|
        invariant forall k :: 0 <= k < i ==> pending[k].key != key
      {
        if pending[i].key == key {
          return true;
        }
      }
      return false;
    }

    /** `bm_pow_queue_submit` */
    method QueueSubmit(t: Ticket, onWorker: bool) returns (rc: int)
      modifies this`pending
      ensures rc == Verdict(old(View()), t.key, onWorker) && View() == Submit(old(View()), t, onWorker)
    {
      if |t.key| > KEY_MAX || stopping || |pending| >= maxPending {
        return -1;
      }
      if |t.key| > 0 {
        var dup := KeyInFlight(t.key, onWorker);
        if dup {
          return 1;
        }
      }
      pending := pending + [t];
      return 0;
    }

    method Perform(j: nat, e: Effect)
      requires j < |jobs|
      modifies this`jobs
      ensures View() == PutJob(old(View()), j, Do(old(jobs[j]), e))
    {
      jobs := jobs[j := jobs[j].(trace := jobs[j].trace + [e])];
    }

    /** `msg_job_free` */
    method JobFree(j: nat)
      requires j < |jobs|
      modifies this`jobs
      ensures View() == PutJob(old(View()), j, Release(old(jobs[j])))
    {
      Perform(j, Erase);
      Perform(j, Free);
    }

    /** `msg_job_fail` */
    method JobFail(j: nat)
      requires j < |jobs|
      modifies this`jobs
      ensures View() == PutJob(old(View()), j, Fail(old(jobs[j])))
    {
      Perform(j, Report(-1));
      JobFree(j);
    }

    /** `msg_pow_done` */
    method MsgPowDone(j: nat, o: Outcome)
      requires j < |jobs|
      modifies this`jobs
      ensures View() == MsgDone(old(View()), j, o)
    {
      if !o.solved || !o.inserted {
        JobFail(j);
        return;
      }
      Perform(j, SentRow);
      if jobs[j].toSelf {
        Perform(j, InboxRow);
      }
      Perform(j, Report(0));
      JobFree(j);
    }

    /** `ack_pow_done` and `build_and_submit_msg` */
    method AckPowDone(j: nat, o: Outcome, onWorker: bool)
      requires j < |jobs|
      modifies this`jobs, this`pending
      ensures View() == AckDone(old(View()), j, o, onWorker)
    {
      hide KeyOf;
      if !o.solved {
        JobFail(j);
        return;
      }
      Perform(j, Erase);
      if !o.built {
        JobFail(j);
        return;
      }
      VerdictIgnoresJobs(old(View()), jobs, KeyOf(jobs[j].id), onWorker);
      var rc := QueueSubmit(Ticket(KeyOf(jobs[j].id), Of(j, Msg)), onWorker);
      Perform(j, Offer(Msg, rc));
      VerdictIgnoresJobs(old(View()), AckDone(old(View()), j, o, onWorker).jobs, KeyOf(jobs[j].id), onWorker);
      if rc != 0 {
        JobFail(j);
      }
    }

    /** `bm_send_pipeline_send_message_async` */
    method SendMessageAsync(r: Request) returns (rc: int)
      modifies this`jobs, this`pending
      ensures (View(), rc) == Send(old(View()), r)
    {
      hide KeyOf, InFlight;
      var j := |jobs|;
      jobs := jobs + [Job(r.id, r.toSelf, 0, [])];
      if !r.prepared {
        rc := Abandon(j, -1);
        assert jobs == old(jobs) + [jobs[j]];
        return;
      }
      if r.toSelf {
        Perform(j, Erase);
      }
      if !r.built {
        rc := Abandon(j, -1);
        assert jobs == old(jobs) + [jobs[j]];
        return;
      }
      var stage := if r.toSelf then Msg else Ack;
      VerdictIgnoresJobs(old(View()), jobs, KeyOf(r.id), false);
      rc := QueueSubmit(Ticket(KeyOf(r.id), Of(j, stage)), false);
      Perform(j, Offer(stage, rc));
      VerdictIgnoresJobs(old(View()), Send(old(View()), r).0.jobs, KeyOf(r.id), false);
      if rc != 0 {
        rc := Abandon(j, rc);
      }
      assert jobs == old(jobs) + [jobs[j]];
    }

    /** The same call without a queue: each proof of work is done, and its callback run, inside the call. */
    method SendMessageNow(r: Request, o: Outcome) returns (rc: int)
      modifies this`jobs
      ensures jobs == old(jobs) + [SendNow(r, o)] && rc == SendNow(r, o).returned
    {
      var j := |jobs|;
      jobs := jobs + [Job(r.id, r.toSelf, 0, [])];
      if r.prepared && r.toSelf {
        Perform(j, Erase);
      }
      if !r.prepared || !r.built {
        rc := Abandon(j, -1);
        assert jobs == old(jobs) + [jobs[j]];
        return;
      }
      if !r.toSelf {
        Perform(j, Offer(Ack, 0));
        Perform(j, Erase);
        if !o.built {
          JobFail(j);
          assert jobs == old(jobs) + [jobs[j]];
          return 0;
        }
      }
      Perform(j, Offer(Msg, 0));
      MsgPowDone(j, o.(solved := true));
      assert jobs == old(jobs) + [jobs[j]];
      rc := 0;
    }

    /** The call fails: the job is released without a report. */
    method Abandon(j: nat, code: int) returns (rc: int)
      requires j < |jobs|
      modifies this`jobs
      ensures rc == code && View() == PutJob(old(View()), j, Release(old(jobs[j]).(returned := code)))
    {
      jobs := jobs[j := jobs[j].(returned := code)];
      JobFree(j);
      rc := code;
    }

    /** The worker takes the oldest ticket. */
    method TakeNext()
      requires Enabled(View(), WorkerTakes)
      modifies this
      ensures View() == Step(old(View()), WorkerTakes)
    {
      running := Some(pending[0]);
      called := false;
      pending := pending[1..];
    }

    method RunCallback(t: Ticket, o: Outcome, onWorker: bool)
      requires InRange(View(), t)
      modifies this`jobs, this`pending
      ensures View() == Callback(old(View()), t, o, onWorker)
    {
      match t.work {
        case Foreign =>
        case Of(j, Ack) => AckPowDone(j, o, onWorker);
        case Of(j, Msg) => MsgPowDone(j, o);
      }
    }

    /** `bm_pow_queue_shutdown`, inside the lock */
    method BeginShutdown()
      modifies this
      ensures View() == Step(old(View()), ShutdownBegins)
    {
      if stopping {
        return;
      }
      stopping := true;
      discard := pending;
      pending := [];
    }

    /** `bm_pow_queue_shutdown`, after the worker has stopped: every detached ticket gets its callback. */
    method DiscardRest(o: Outcome)
      requires Inv(View()) && stopping && running.None? && !o.solved
      modifies this
      ensures View() == DiscardAll(old(View()), o) && Inv(View()) && Idle(View())
    {
      hide Good, Callback;
      while discard != []
        invariant Inv(View()) && stopping && running.None?
        invariant DiscardAll(View(), o) == old(DiscardAll(View(), o))
        decreases |discard|
      {
        ghost var before := View();
        DiscardStep(before, o);
        var t := discard[0];
        discard := discard[1..];
        RunCallback(t, o, false);
      }
    }
  }

  /** One callback after the other for the detached tickets. */
  function DiscardAll(s: State, o: Outcome): State
    requires !o.solved
    decreases |s.discard|
  {
    if Enabled(s, DiscardNext(o)) then
      CallbackLoad(s.(discard := s.discard[1..]), s.discard[0], o, false);
      DiscardAll(Step(s, DiscardNext(o)), o)
    else s
  }

  lemma DiscardStep(s: State, o: Outcome)
    requires Inv(s) && s.stopping && s.running.None? && s.discard != [] && !o.solved
    ensures Enabled(s, DiscardNext(o)) && InRange(s, s.discard[0])
    ensures var s' := Step(s, DiscardNext(o));
            && Inv(s') && s'.stopping && s'.running.None? && s'.discard == s.discard[1..]
            && DiscardAll(s, o) == DiscardAll(s', o)
  {
    DiscardHeadInRange(s);
    StepInv(s, DiscardNext(o));
    CallbackLoad(s.(discard := s.discard[1..]), s.discard[0], o, false);
    hide Good, Callback;
  }

  predicate Detached(ts: seq<Ticket>, j: nat) {
    exists i :: 0 <= i < |ts| && Mentions(ts[i], j)
  }

  lemma DetachedRest(ts: seq<Ticket>, j: nat)
    requires |ts| > 0
    ensures Detached(ts, j) <==> Mentions(ts[0], j) || Detached(ts[1..], j)
  {
    if Detached(ts, j) && !Mentions(ts[0], j) {
      var i :| 0 <= i < |ts| && Mentions(ts[i], j);
      assert ts[1..][i - 1] == ts[i];
    }
    if Detached(ts[1..], j) {
      var i :| 0 <= i < |ts[1..]| && Mentions(ts[1..][i], j);
      assert ts[i + 1] == ts[1..][i];
    }
  }

  /** After a shutdown every detached send has reported failure and is released, and no other send is touched. */
  lemma {:induction false} DiscardFails(s: State, o: Outcome, j: nat)
    requires Inv(s) && s.stopping && s.running.None? && !o.solved && j < |s.jobs|
    ensures var s' := DiscardAll(s, o);
            && Inv(s') && Idle(s') && |s'.jobs| == |s.jobs|
            && s'.jobs[j] == (if Detached(s.discard, j) then Fail(s.jobs[j]) else s.jobs[j])
            && Over(s'.jobs[j])
    decreases |s.discard|
  {
    hide Good, Watch, KeyOf, Fail;
    if s.discard == [] {
      IdleAllOver(s, j);
    } else {
      DiscardStep(s, o);
      var s' := Step(s, DiscardNext(o));
      DetachedRest(s.discard, j);
      DiscardFails(s', o, j);
      if Mentions(s.discard[0], j) {
        NotTwiceDetached(s, j);
      }
    }
  }

  lemma NotTwiceDetached(s: State, j: nat)
    requires Inv(s) && s.running.None? && s.stopping && s.discard != [] && Mentions(s.discard[0], j)
    ensures !Detached(s.discard[1..], j)
  {
    var live := Live(s);
    assert live == s.discard;
    forall i | 0 <= i < |s.discard| - 1
      ensures !Mentions(s.discard[1..][i], j)
    {
      assert Apart(live[0], live[i + 1]);
    }
  }

  lemma DiscardHeadInRange(s: State)
    requires Inv(s) && s.stopping && s.running.None? && s.discard != []
    ensures InRange(s, s.discard[0])
  {
    assert Live(s)[0] == s.discard[0] && Linked(s.jobs, Live(s)[0]);
  }

  lemma VerdictIgnoresJobs(s: State, jobs: seq<Job>, key: seq<byte>, onWorker: bool)
    ensures Verdict(s.(jobs := jobs), key, onWorker) == Verdict(s, key, onWorker)
  {
  }
}
