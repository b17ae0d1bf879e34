/**
 Which sends succeed: over every run of the send pipeline, told by the calls, the
 outcomes of the proofs of work and the room in the queue; and in which order the
 callbacks come.
 */
module SendOutcomes {
  import opened Numerals
  import opened SendPipeline

  // ------------------------------------------------------------------ what an event does

  /** The ticket whose callback the event runs. */
  function Called(s: State, e: Event): Option<Ticket>
    requires Enabled(s, e)
  {
    if e.WorkerCalls? then s.running else if e.DiscardNext? then Some(s.discard[0]) else None
  }

  /** There is room for one more ticket. */
  predicate Room(s: State) {
    !s.stopping && |s.pending| < s.maxPending
  }

  /** The key is that of the running or of a queued ticket. */
  predicate Taken(s: State, key: seq<byte>) {
    HasKey(s.pending + (if s.running.Some? then [s.running.value] else []), key)
  }

  /** What a call returns. */
  function Returns(s: State, r: Request): int {
    if !r.prepared || !r.built || !Room(s) then -1 else if Taken(s, KeyOf(r.id)) then 1 else 0
  }

  /** A stage went well: its proof of work was found, and what follows it worked. */
  predicate Well(s: State, stage: Stage, o: Outcome) {
    o.solved && if stage.Ack? then o.built && Room(s) else o.inserted
  }

  function FirstStage(toSelf: bool): Stage {
    if toSelf then Msg else Ack
  }

  /** The tickets that the event adds. */
  function Arrivals(s: State, e: Event): seq<Ticket>
    requires Enabled(s, e)
  {
    match e
    case SendCall(r) =>
      if Returns(s, r) == 0 then [Ticket(KeyOf(r.id), Of(|s.jobs|, FirstStage(r.toSelf)))] else []
    case ForeignSubmit(key) =>
      if |key| <= 40 && Room(s) && (key == [] || !Taken(s, key)) then [Ticket(key, Foreign)] else []
    case WorkerCalls(o) => SecondStage(s, s.running.value, o)
    case DiscardNext(o) => SecondStage(s, s.discard[0], o)
    case _ => []
  }

  function SecondStage(s: State, t: Ticket, o: Outcome): seq<Ticket> {
    if t.work.Of? && t.work.stage.Ack? && Well(s, Ack, o) then [Ticket(t.key, Of(t.work.job, Msg))] else []
  }

  lemma KeyTaken(s: State, key: seq<byte>)
    ensures Taken(s, key) <==> InFlight(s, key, false)
  {
    var all := s.pending + (if s.running.Some? then [s.running.value] else []);
    if HasKey(s.pending, key) {
      var i :| 0 <= i < |s.pending| && s.pending[i].key == key;
      assert all[i].key == key;
    }
    if s.running.Some? && s.running.value.key == key {
      assert all[|s.pending|].key == key;
    }
    if HasKey(all, key) {
      var i :| 0 <= i < |all| && all[i].key == key;
      assert i < |s.pending| ==> s.pending[i].key == key;
    }
  }

  lemma VerdictIs(s: State, key: seq<byte>)
    ensures Verdict(s, key, false) ==
            if |key| > 40 || !Room(s) then -1 else if |key| > 0 && Taken(s, key) then 1 else 0
  {
    KeyTaken(s, key);
    hide Taken, InFlight;
  }

  /** The worker's own second stage is refused only for want of room. */
  lemma SecondVerdict(s: State, t: Ticket)
    requires Inv(s) && s.running == Some(t) && !s.called && t.work.Of? && t.work.job < |s.jobs|
    ensures t.key == KeyOf(s.jobs[t.work.job].id)
    ensures Verdict(s, t.key, true) == if Room(s) then 0 else -1
    ensures Verdict(s.(called := true), t.key, true) == Verdict(s, t.key, true)
  {
    var live := Live(s);
    assert Linked(s.jobs, live[0]);
    forall i | 0 <= i < |s.pending|
      ensures s.pending[i].key != t.key
    {
      assert live[i + 1] == s.pending[i] && Apart(live[0], live[i + 1]);
    }
  }

  // ------------------------------------------------------------------ the order of the callbacks

  lemma DiscardFirst(s: State, o: Outcome)
    requires Inv(s) && Enabled(s, DiscardNext(o))
    ensures Live(s) == [s.discard[0]] + s.discard[1..] && Linked(s.jobs, s.discard[0])
  {
    assert Live(s) == s.discard;
    assert Linked(s.jobs, Live(s)[0]);
  }

  lemma CallbackLive(s: State, e: Event)
    requires Inv(s) && Enabled(s, e) && Called(s, e).Some?
    ensures Live(s) != [] && Live(s)[0] == Called(s, e).value
    ensures Live(Step(s, e)) == Live(s)[1..] + Arrivals(s, e)
  {
    hide Good, KeyOf, HasKey;
    var t := Called(s, e).value;
    if e.WorkerCalls? {
      if t.work.Of? {
        SecondVerdict(s, t);
      }
    } else {
      DiscardFirst(s, e.o);
    }
  }

  lemma SendLive(s: State, r: Request)
    requires Inv(s)
    ensures Live(Send(s, r).0) == Live(s) + Arrivals(s, SendCall(r)) && Send(s, r).1 == Returns(s, r)
  {
    hide Good, KeyOf, InFlight, Taken, Room;
    VerdictIs(s, KeyOf(r.id));
    VerdictIgnoresJobs(s, Send(s, r).0.jobs, KeyOf(r.id), false);
  }

  lemma ForeignLive(s: State, key: seq<byte>)
    requires Inv(s)
    ensures Live(Step(s, ForeignSubmit(key))) == Live(s) + Arrivals(s, ForeignSubmit(key))
  {
    hide Good, InFlight, Taken;
    VerdictIs(s, key);
  }

  /** The live tickets are a queue: callbacks take them off the front, and new ones join the end. */
  lemma StepLive(s: State, e: Event)
    requires Inv(s) && Enabled(s, e)
    ensures Called(s, e).Some? ==> Live(s) != [] && Live(s)[0] == Called(s, e).value
    ensures Live(Step(s, e)) == (if Called(s, e).Some? then Live(s)[1..] else Live(s)) + Arrivals(s, e)
  {
    if Called(s, e).Some? {
      CallbackLive(s, e);
    } else if e.SendCall? {
      SendLive(s, e.r);
    } else if e.ForeignSubmit? {
      ForeignLive(s, e.key);
    } else {
      hide Good;
    }
  }

  lemma RunSnoc(s: State, run: seq<Event>, e: Event)
    requires Permitted(s, run + [e])
    ensures Permitted(s, run) && Enabled(Run(s, run), e) && Run(s, run + [e]) == Step(Run(s, run), e)
    decreases |run|
  {
    hide Step, Enabled;
    if |run| == 0 {
      assert run + [e] == [e] && [e][1..] == [];
    } else {
      assert (run + [e])[1..] == run[1..] + [e] && (run + [e])[0] == run[0];
      RunSnoc(Step(s, run[0]), run[1..], e);
    }
  }

  lemma Fronts(s: State, run: seq<Event>)
    requires Permitted(s, run) && |run| > 0
    ensures var front, e := run[..|run| - 1], run[|run| - 1];
            Permitted(s, front) && Enabled(Run(s, front), e) && Run(s, run) == Step(Run(s, front), e)
  {
    var front, e := run[..|run| - 1], run[|run| - 1];
    assert run == front + [e];
    RunSnoc(s, front, e);
  }

  /** Every ticket a run queued, in order. */
  function Queued(s: State, run: seq<Event>): seq<Ticket>
    requires Permitted(s, run)
    decreases |run|
  {
    if |run| == 0 then [] else Arrivals(s, run[0]) + Queued(Step(s, run[0]), run[1..])
  }

  /** Every ticket whose callback ran, in order. */
  function CalledBack(s: State, run: seq<Event>): seq<Ticket>
    requires Permitted(s, run)
    decreases |run|
  {
    if |run| == 0 then []
    else (if Called(s, run[0]).Some? then [Called(s, run[0]).value] else []) + CalledBack(Step(s, run[0]), run[1..])
  }

  /**
   First in, first out: over every run of callers, worker and shutdown, the callbacks that ran,
   followed by the tickets still live, are the tickets that were queued, in their order.
   */
  lemma {:induction false} CallbacksInOrder(s: State, run: seq<Event>)
    requires Inv(s) && Permitted(s, run)
    ensures CalledBack(s, run) + Live(Run(s, run)) == Live(s) + Queued(s, run)
    decreases |run|
  {
    hide Inv, Step, Enabled, Live, Arrivals, Called;
    if |run| > 0 {
      var e, s' := run[0], Step(s, run[0]);
      StepLive(s, e);
      StepInv(s, e);
      CallbacksInOrder(s', run[1..]);
      Shuffle(Live(s), Called(s, e), Arrivals(s, e), Live(s'), CalledBack(s', run[1..]), Live(Run(s', run[1..])),
              Queued(s', run[1..]));
    }
  }

  lemma Shuffle(live: seq<Ticket>, t: Option<Ticket>, added: seq<Ticket>, live': seq<Ticket>, called: seq<Ticket>,
                last: seq<Ticket>, queued: seq<Ticket>)
    requires t.Some? ==> live != [] && live[0] == t.value
    requires live' == (if t.Some? then live[1..] else live) + added && called + last == live' + queued
    ensures (if t.Some? then [t.value] else []) + called + last == live + (added + queued)
  {
    if t.Some? {
      assert live == [t.value] + live[1..];
      assert [t.value] + called + last == [t.value] + (called + last);
    } else {
      assert [] + called + last == called + last;
    }
  }

  // ------------------------------------------------------------------ which sends succeed

  /** Every callback of the send went well. */
  predicate AllWell(s: State, run: seq<Event>, j: nat)
    requires Permitted(s, run)
    decreases |run|
  {
    |run| == 0
    || (Fronts(s, run);
        var front, e := run[..|run| - 1], run[|run| - 1];
        var t := Called(Run(s, front), e);
        AllWell(s, front, j)
        && (t.Some? && Mentions(t.value, j) ==> Well(Run(s, front), t.value.work.stage, e.o)))
  }

  /** The callback of that stage of the send ran. */
  predicate Ran(s: State, run: seq<Event>, j: nat, stage: Stage)
    requires Permitted(s, run)
    decreases |run|
  {
    |run| > 0
    && (Fronts(s, run);
        var front, e := run[..|run| - 1], run[|run| - 1];
        var t := Called(Run(s, front), e);
        Ran(s, front, j, stage) || (t.Some? && t.value.work == Of(j, stage)))
  }

  predicate Waiting(live: seq<Ticket>, j: nat, stage: Stage) {
    exists i :: 0 <= i < |live| && live[i].work == Of(j, stage)
  }

  predicate Live2(live: seq<Ticket>, j: nat) {
    Waiting(live, j, Ack) || Waiting(live, j, Msg)
  }

  /** What the callbacks so far say of a send. */
  ghost predicate Told(job: Job, live: seq<Ticket>, j: nat, well: bool, acked: bool, done: bool) {
    && (job.returned != 0 ==> !Live2(live, j) && Report(0) !in job.trace)
    && (job.returned == 0 ==> (Report(0) in job.trace <==> well && !Live2(live, j)))
    && (Live2(live, j) ==> well)
    && (InboxRow in job.trace <==> Report(0) in job.trace && job.toSelf)
    && (Waiting(live, j, Ack) ==> !job.toSelf)
    && (Waiting(live, j, Msg) && !job.toSelf ==> acked)
    && (Report(0) in job.trace ==> done && (!job.toSelf ==> acked))
  }

  ghost predicate AllTold(s0: State, run: seq<Event>, s: State)
    requires Permitted(s0, run)
  {
    forall j :: 0 <= j < |s.jobs| ==>
      Told(s.jobs[j], Live(s), j, AllWell(s0, run, j), Ran(s0, run, j, Ack), Ran(s0, run, j, Msg))
  }

  /** A waiting send has not reported. */
  lemma WaitingUnreported(s: State, i: nat)
    requires Inv(s) && i < |Live(s)| && Live(s)[i].work.Of?
    ensures Live(s)[i].work.job < |s.jobs|
    ensures var job := s.jobs[Live(s)[i].work.job]; job.returned == 0 && forall rc :: Report(rc) !in job.trace
  {
    var t := Live(s)[i];
    assert Linked(s.jobs, t);
    hide Watch;
    WatchCounts(s.jobs[t.work.job].trace);
  }

  /** Dropping the first ticket and adding others, as seen by one send. */
  lemma WaitingStep(live: seq<Ticket>, first: Option<Ticket>, added: seq<Ticket>, live': seq<Ticket>, j: nat,
                    stage: Stage)
    requires first.Some? ==> live != [] && live[0] == first.value
    requires live' == (if first.Some? then live[1..] else live) + added
    requires forall i, k :: 0 <= i < k < |live| ==> Apart(live[i], live[k])
    ensures Waiting(live', j, stage) <==>
            (Waiting(live, j, stage) && !(first.Some? && first.value.work == Of(j, stage))) || Waiting(added, j, stage)
  {
    var rest := if first.Some? then live[1..] else live;
    var off := if first.Some? then 1 else 0;
    if Waiting(live', j, stage) {
      var i :| 0 <= i < |live'| && live'[i].work == Of(j, stage);
      if i < |rest| {
        assert live[i + off].work == Of(j, stage);
        assert first.Some? ==> Apart(live[0], live[i + off]);
      } else {
        assert added[i - |rest|].work == Of(j, stage);
      }
    }
    if Waiting(added, j, stage) {
      var i :| 0 <= i < |added| && added[i].work == Of(j, stage);
      assert live'[|rest| + i] == added[i];
    }
    if Waiting(live, j, stage) && !(first.Some? && first.value.work == Of(j, stage)) {
      var i :| 0 <= i < |live| && live[i].work == Of(j, stage);
      assert live'[i - off] == live[i];
    }
  }

  lemma NoneNew(j: nat, stage: Stage)
    ensures !Waiting([], j, stage)
  {
  }

  lemma OneNew(t: Ticket, j: nat, stage: Stage)
    ensures Waiting([t], j, stage) <==> t.work == Of(j, stage)
  {
    assert [t][0] == t;
  }

  lemma AddedTraces(trace: seq<Effect>, e: Effect, x: Effect)
    ensures x in trace + [e] <==> x in trace || x == e
  {
  }

  /** Nothing in what a failure or a message adds to a trace is a success but the report of one. */
  lemma FailTrace(job: Job)
    ensures Fail(job).returned == job.returned && Fail(job).toSelf == job.toSelf
    ensures Report(0) in Fail(job).trace <==> Report(0) in job.trace
    ensures InboxRow in Fail(job).trace <==> InboxRow in job.trace
  {
  }

  lemma ReleaseTrace(job: Job)
    ensures Release(job).returned == job.returned && Release(job).toSelf == job.toSelf && Release(job).id == job.id
    ensures Report(0) in Release(job).trace <==> Report(0) in job.trace
    ensures InboxRow in Release(job).trace <==> InboxRow in job.trace
  {
  }

  lemma SucceedTrace(job: Job)
    ensures Succeed(job).returned == job.returned && Succeed(job).toSelf == job.toSelf
    ensures Report(0) in Succeed(job).trace
    ensures InboxRow in Succeed(job).trace <==> InboxRow in job.trace || job.toSelf
  {
  }

  /** What a callback does to the jobs, when its own second stage is refused only for want of room. */
  lemma CallbackJob(s: State, t: Ticket, o: Outcome, onWorker: bool)
    requires t.work.Of? && t.work.job < |s.jobs|
    requires o.solved ==> Verdict(s, KeyOf(s.jobs[t.work.job].id), onWorker) == if Room(s) then 0 else -1
    ensures var j, jobs' := t.work.job, Callback(s, t, o, onWorker).jobs;
            && |jobs'| == |s.jobs| && (forall i :: 0 <= i < |s.jobs| && i != j ==> jobs'[i] == s.jobs[i])
            && JobAfter(s.jobs[j], jobs'[j], t.work.stage.Msg? && Well(s, Msg, o))
  {
    hide KeyOf, Verdict, Fail, Succeed, Room, JobAfter, Do;
    var job := s.jobs[t.work.job];
    Unsuccessful(job);
    SucceedTrace(job);
  }

  lemma Unsuccessful(job: Job)
    ensures JobAfter(job, Fail(job), false) && JobAfter(job, Fail(Do(job, Erase)), false)
    ensures JobAfter(job, Succeed(job), true)
    ensures forall rc :: JobAfter(job, Do(Do(job, Erase), Offer(Msg, rc)), false)
    ensures forall rc :: JobAfter(job, Fail(Do(Do(job, Erase), Offer(Msg, rc))), false)
  {
    hide Fail, Succeed;
    FailTrace(job);
    SucceedTrace(job);
    FailTrace(Do(job, Erase));
    forall rc
      ensures JobAfter(job, Do(Do(job, Erase), Offer(Msg, rc)), false)
      ensures JobAfter(job, Fail(Do(Do(job, Erase), Offer(Msg, rc))), false)
    {
      FailTrace(Do(Do(job, Erase), Offer(Msg, rc)));
    }
  }

  /** A job as it was, but for a success if there was one. */
  predicate JobAfter(was: Job, job: Job, success: bool) {
    && job.returned == was.returned && job.toSelf == was.toSelf
    && (Report(0) in job.trace <==> Report(0) in was.trace || success)
    && (InboxRow in job.trace <==> InboxRow in was.trace || (success && was.toSelf))
  }

  /** What a callback does to its own send. */
  lemma CalledJob(s: State, e: Event)
    requires Inv(s) && Enabled(s, e) && Called(s, e).Some? && Called(s, e).value.work.Of?
    ensures var w := Called(s, e).value.work;
            && w.job < |s.jobs| == |Step(s, e).jobs|
            && (forall i :: 0 <= i < |s.jobs| && i != w.job ==> Step(s, e).jobs[i] == s.jobs[i])
            && JobAfter(s.jobs[w.job], Step(s, e).jobs[w.job], w.stage.Msg? && Well(s, Msg, e.o))
  {
    hide Good, KeyOf, Verdict, Callback, JobAfter;
    var t := Called(s, e).value;
    if e.WorkerCalls? {
      SecondVerdict(s, t);
      CallbackJob(s, t, e.o, true);
    } else {
      DiscardFirst(s, e.o);
      CallbackJob(s.(discard := s.discard[1..]), t, e.o, false);
    }
  }

  /** What a call does. */
  lemma NewJob(s: State, r: Request)
    requires Inv(s)
    ensures var s' := Send(s, r).0;
            && |s'.jobs| == |s.jobs| + 1 && s'.jobs[..|s.jobs|] == s.jobs
            && var job := s'.jobs[|s.jobs|];
               && job.id == r.id && job.toSelf == r.toSelf && job.returned == Returns(s, r)
               && Report(0) !in job.trace && InboxRow !in job.trace
  {
    hide Good, KeyOf, InFlight, Taken, Release;
    VerdictIs(s, KeyOf(r.id));
    var job := Job(r.id, r.toSelf, 0, []);
    ReleaseTrace(job.(returned := -1));
    ReleaseTrace(Do(job.(returned := -1), Erase));
    var stage := FirstStage(r.toSelf);
    var rc := Verdict(s, KeyOf(r.id), false);
    var ready := if r.toSelf then Do(job, Erase) else job;
    ReleaseTrace(Do(ready.(returned := rc), Offer(stage, rc)));
  }

  lemma OthersJobs(s: State, e: Event)
    requires Enabled(s, e) && !e.SendCall? && !(Called(s, e).Some? && Called(s, e).value.work.Of?)
    ensures Step(s, e).jobs == s.jobs
  {
    hide InFlight, HasKey;
  }

  /** No event but its own callback brings a ticket of a send that is there. */
  lemma ArrivalsOf(s: State, e: Event, j: nat, stage: Stage)
    requires Inv(s) && Enabled(s, e)
    ensures Waiting(Arrivals(s, e), j, stage) <==>
            (e.SendCall? && j == |s.jobs| && Returns(s, e.r) == 0 && stage == FirstStage(e.r.toSelf))
            || (Called(s, e).Some? && Called(s, e).value.work == Of(j, Ack) && stage.Msg? && Well(s, Ack, e.o))
  {
    hide Good, KeyOf, Taken, Room, Returns;
    NoneNew(j, stage);
    forall t: Ticket
      ensures Waiting([t], j, stage) <==> t.work == Of(j, stage)
    {
      OneNew(t, j, stage);
    }
    hide Waiting;
  }

  lemma StepWaiting(s: State, e: Event, j: nat, stage: Stage)
    requires Inv(s) && Enabled(s, e)
    ensures Waiting(Live(Step(s, e)), j, stage) <==>
            (Waiting(Live(s), j, stage) && !(Called(s, e).Some? && Called(s, e).value.work == Of(j, stage)))
            || Waiting(Arrivals(s, e), j, stage)
  {
    StepLive(s, e);
    var live := Live(s);
    hide Live, Arrivals, Called, Step, Waiting, Over, Linked;
    WaitingStep(live, Called(s, e), Arrivals(s, e), Live(Step(s, e)), j, stage);
  }

  /** A ticket of a send that is not there yet does not wait. */
  lemma NotThere(s: State, j: nat, stage: Stage)
    requires Inv(s) && j >= |s.jobs|
    ensures !Waiting(Live(s), j, stage)
  {
    forall i | 0 <= i < |Live(s)|
      ensures Live(s)[i].work != Of(j, stage)
    {
      assert Linked(s.jobs, Live(s)[i]);
    }
  }

  /** The callback of a send finds it waiting, unreported, and in no other ticket. */
  lemma CalledWaits(s: State, e: Event, j: nat)
    requires Inv(s) && Enabled(s, e) && Called(s, e).Some? && Mentions(Called(s, e).value, j)
    ensures j < |s.jobs| && s.jobs[j].returned == 0 && Report(0) !in s.jobs[j].trace
    ensures forall stage :: Waiting(Live(s), j, stage) <==> Called(s, e).value.work == Of(j, stage)
  {
    StepLive(s, e);
    WaitingUnreported(s, 0);
    var live := Live(s);
    var work := live[0].work;
    forall stage
      ensures Waiting(live, j, stage) <==> work == Of(j, stage)
    {
      if Waiting(live, j, stage) && work != Of(j, stage) {
        var i :| 0 <= i < |live| && live[i].work == Of(j, stage);
        Single(s, i);
      }
    }
  }

  lemma Single(s: State, i: nat)
    requires Inv(s) && 0 < i < |Live(s)|
    ensures Apart(Live(s)[0], Live(s)[i])
  {
  }

  lemma ToldOld(s: State, e: Event, j: nat, well: bool, acked: bool, done: bool)
    requires Inv(s) && Enabled(s, e) && j < |s.jobs| && Told(s.jobs[j], Live(s), j, well, acked, done)
    ensures j < |Step(s, e).jobs|
    ensures var t := Called(s, e);
            var mine := t.Some? && Mentions(t.value, j);
            Told(Step(s, e).jobs[j], Live(Step(s, e)), j,
                 well && (mine ==> Well(s, t.value.work.stage, e.o)),
                 acked || (t.Some? && t.value.work == Of(j, Ack)), done || (t.Some? && t.value.work == Of(j, Msg)))
  {
    hide Inv, Step, Live, Waiting, Well, Arrivals;
    StepWaiting(s, e, j, Ack);
    StepWaiting(s, e, j, Msg);
    ArrivalsOf(s, e, j, Ack);
    ArrivalsOf(s, e, j, Msg);
    if Called(s, e).Some? && Called(s, e).value.work.Of? {
      CalledJob(s, e);
      if Called(s, e).value.work.job == j {
        CalledWaits(s, e, j);
      }
    } else if e.SendCall? {
      StepIsSend(s, e.r);
      NewJob(s, e.r);
      hide Send, Returns;
      assert Step(s, e).jobs[j] == Step(s, e).jobs[..|s.jobs|][j];
    } else {
      OthersJobs(s, e);
    }
  }

  lemma StepIsSend(s: State, r: Request)
    ensures Step(s, SendCall(r)) == Send(s, r).0
  {
  }

  lemma ToldNew(s: State, r: Request, acked: bool, done: bool)
    requires Inv(s)
    ensures var s' := Step(s, SendCall(r));
            |s'.jobs| == |s.jobs| + 1 && Told(s'.jobs[|s.jobs|], Live(s'), |s.jobs|, true, acked, done)
  {
    hide Inv, Live, Waiting, Arrivals, Send, Returns, Step;
    var j := |s.jobs|;
    StepIsSend(s, r);
    NewJob(s, r);
    StepWaiting(s, SendCall(r), j, Ack);
    StepWaiting(s, SendCall(r), j, Msg);
    ArrivalsOf(s, SendCall(r), j, Ack);
    ArrivalsOf(s, SendCall(r), j, Msg);
    NotThere(s, j, Ack);
    NotThere(s, j, Msg);
  }

  /** A send that is not there yet has had no callback. */
  lemma {:induction false} NothingRan(s0: State, run: seq<Event>, j: nat)
    requires Inv(s0) && Permitted(s0, run) && j >= |Run(s0, run).jobs|
    ensures AllWell(s0, run, j)
    decreases |run|
  {
    if |run| > 0 {
      Fronts(s0, run);
      var front, e := run[..|run| - 1], run[|run| - 1];
      RunInv(s0, front);
      var s := Run(s0, front);
      JobsGrow(s, e);
      NothingRan(s0, front, j);
      hide Run, Permitted;
      if Called(s, e).Some? && Mentions(Called(s, e).value, j) {
        CalledWaits(s, e, j);
      }
    }
  }

  lemma JobsGrow(s: State, e: Event)
    requires Inv(s) && Enabled(s, e)
    ensures |Step(s, e).jobs| == |s.jobs| + if e.SendCall? then 1 else 0
  {
    hide Inv, Step, Send;
    if e.SendCall? {
      StepIsSend(s, e.r);
      NewJob(s, e.r);
    } else if Called(s, e).Some? && Called(s, e).value.work.Of? {
      CalledJob(s, e);
    } else {
      OthersJobs(s, e);
    }
  }

  lemma {:induction false} RunTold(s0: State, run: seq<Event>)
    requires Inv(s0) && s0.jobs == [] && Permitted(s0, run)
    ensures AllTold(s0, run, Run(s0, run))
    decreases |run|
  {
    if |run| > 0 {
      Fronts(s0, run);
      var front, e := run[..|run| - 1], run[|run| - 1];
      RunTold(s0, front);
      RunInv(s0, front);
      var s, s' := Run(s0, front), Run(s0, run);
      JobsGrow(s, e);
      forall j | 0 <= j < |s'.jobs|
        ensures Told(s'.jobs[j], Live(s'), j, AllWell(s0, run, j), Ran(s0, run, j, Ack), Ran(s0, run, j, Msg))
      {
        hide Run, Permitted, Told, Inv, Live, Step;
        if j < |s.jobs| {
          ToldOld(s, e, j, AllWell(s0, front, j), Ran(s0, front, j, Ack), Ran(s0, front, j, Msg));
        } else {
          NothingRan(s0, front, j);
          ToldNew(s, e.r, Ran(s0, run, j, Ack), Ran(s0, run, j, Msg));
        }
      }
    }
  }

  lemma Unmentioned(live: seq<Ticket>, j: nat)
    requires forall i :: 0 <= i < |live| ==> !Mentions(live[i], j)
    ensures !Live2(live, j)
  {
  }

  /**
   Which sends succeed, over every run: once nothing of a send is in the queue, it has reported
   success if and only if its call returned 0 and every one of its callbacks went well, with an object
   found, the next step working and, after the first stage, room in the queue. A success has been
   through its stages, and is copied to the inbox exactly when the message is to oneself.
   */
  lemma SendSucceeds(maxPending: nat, run: seq<Event>, j: nat)
    requires Permitted(Initial(maxPending), run)
    requires var s := Run(Initial(maxPending), run); j < |s.jobs| && forall t :: t in Live(s) ==> !Mentions(t, j)
    ensures var s0 := Initial(maxPending);
            var job := Run(s0, run).jobs[j];
            && (Report(0) in job.trace <==> job.returned == 0 && AllWell(s0, run, j))
            && (InboxRow in job.trace <==> Report(0) in job.trace && job.toSelf)
            && (Report(0) in job.trace ==> Ran(s0, run, j, Msg) && (!job.toSelf ==> Ran(s0, run, j, Ack)))
  {
    var s0 := Initial(maxPending);
    RunTold(s0, run);
    var s := Run(s0, run);
    forall i | 0 <= i < |Live(s)|
      ensures !Mentions(Live(s)[i], j)
    {
      assert Live(s)[i] in Live(s);
    }
    Unmentioned(Live(s), j);
    hide Run, Permitted, AllWell, Ran, Live, Live2;
    assert Told(s.jobs[j], Live(s), j, AllWell(s0, run, j), Ran(s0, run, j, Ack), Ran(s0, run, j, Msg));
  }

  /**
   What a call returns: 0 exactly when the message was prepared and built, the queue is neither full
   nor stopping, and no send with this id is queued or running; a duplicate alone returns 1; and the
   send is recorded with the request's id and whether it is to oneself.
   */
  lemma CallReturns(maxPending: nat, run: seq<Event>, r: Request)
    requires Permitted(Initial(maxPending), run)
    ensures var s := Run(Initial(maxPending), run);
            var (s', rc) := Send(s, r);
            && rc == Returns(s, r) && |s'.jobs| == |s.jobs| + 1
            && s'.jobs[|s.jobs|].id == r.id && s'.jobs[|s.jobs|].toSelf == r.toSelf && s'.jobs[|s.jobs|].returned == rc
  {
    RunInv(Initial(maxPending), run);
    hide Run, Permitted, Send, Returns;
    NewJob(Run(Initial(maxPending), run), r);
    SendLive(Run(Initial(maxPending), run), r);
  }

  /** Without a queue a send succeeds exactly when its call and every step behind the proofs of work do. */
  lemma SendNowSucceeds(r: Request, o: Outcome)
    ensures var job := SendNow(r, o);
            && (Report(0) in job.trace <==> r.prepared && r.built && (r.toSelf || o.built) && o.inserted)
            && (InboxRow in job.trace <==> Report(0) in job.trace && r.toSelf)
            && job.returned == if r.prepared && r.built then 0 else -1
  {
    var job := Job(r.id, r.toSelf, 0, []);
    var failed := job.(returned := -1);
    hide Release, Fail, Succeed;
    ReleaseTrace(failed);
    ReleaseTrace(Do(failed, Erase));
    var acked := if r.toSelf then job else Do(job, Offer(Ack, 0));
    FailTrace(Do(acked, Erase));
    var offered := Do(Do(acked, Erase), Offer(Msg, 0));
    FailTrace(offered);
    SucceedTrace(offered);
  }
}
