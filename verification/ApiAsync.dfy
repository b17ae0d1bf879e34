/**
 A suspended JSON-RPC request of src/core/api_server.c. The HTTP thread begins
 sends and registers a slot for each; completions arrive on the proof-of-work
 worker. `Request` holds what the mutex protects; the machine below lets the two
 threads interleave in every order.
 */
module ApiAsync {
  import opened Numerals

  /** A slot's life: counted, taken by the send pipeline, listed in the request, or thrown away. */
  datatype Stage = Opening | Accepted | Registered | Rejected
  datatype Outcome = Waiting | Sent(length: nat, hash: seq<byte>) | Failed
  datatype Slot = Slot(stage: Stage, outcome: Outcome, answered: bool)

  /** What a registered slot contributes to the response. */
  datatype Entry = Result(slot: nat, length: nat, hash: seq<byte>) | Error(slot: nat)

  datatype Shared = Shared(outstanding: int, suspended: bool, slots: seq<Slot>)

  // ------------------------------------------------- critical sections, as values

  function Begin(s: Shared): Shared {
    s.(outstanding := s.outstanding + 1, slots := s.slots + [Slot(Opening, Waiting, false)])
  }

  function SetStage(s: Shared, i: nat, stage: Stage): Shared
    requires i < |s.slots|
  {
    s.(slots := s.slots[i := s.slots[i].(stage := stage)])
  }

  function Reject(s: Shared, i: nat): Shared
    requires i < |s.slots|
  {
    SetStage(s, i, Rejected).(outstanding := s.outstanding - 1)
  }

  function Done(s: Shared, i: nat, o: Outcome): Shared
    requires i < |s.slots|
  {
    s.(outstanding := s.outstanding - 1, slots := s.slots[i := s.slots[i].(outcome := o)])
  }

  function Attached(slot: Slot, answered: bool): Slot {
    if slot.stage.Registered? then slot.(answered := answered) else slot
  }

  function Attach(slots: seq<Slot>, from: nat, answered: bool): seq<Slot>
    requires from <= |slots|
  {
    seq(|slots|, i requires 0 <= i < |slots| => if from <= i then Attached(slots[i], answered) else slots[i])
  }

  /**
   The entry of a slot. A slot that is not finished would be reported like a success
   of length zero: its return code is still zero.
   */
  function EntryOf(slot: Slot, i: nat): Entry {
    match slot.outcome
    case Waiting => Result(i, 0, seq(32, _ => 0))
    case Sent(length, hash) => Result(i, length, hash)
    case Failed => Error(i)
  }

  /** Entries for the first `n` slots. */
  function Entries(slots: seq<Slot>, n: nat): seq<Entry>
    requires n <= |slots|
  {
    if n == 0 then []
    else
      var s := slots[n - 1];
      Entries(slots, n - 1) + if s.stage.Registered? && s.answered then [EntryOf(s, n - 1)] else []
  }

  // --------------------------------------------------------------- the methods

  class Request {
    var outstanding: int
    var suspended: bool
    var slots: seq<Slot>

    ghost function View(): Shared
      reads this
    {
      Shared(outstanding, suspended, slots)
    }

    constructor ()
      ensures View() == Shared(0, false, [])
    {
      outstanding, suspended, slots := 0, false, [];
    }

    /** `send_slot_begin`: counted before the send is handed over. */
    method SlotBegin() returns (i: nat)
      modifies this
      ensures View() == Begin(old(View())) && i == |old(slots)|
    {
      i := |slots|;
      slots := slots + [Slot(Opening, Waiting, false)];
      outstanding := outstanding + 1;
    }

    /** `send_slot_end` */
    method SlotEnd(i: nat, submitRc: int) returns (registered: bool)
      requires i < |slots|
      modifies this
      ensures registered == (submitRc == 0)
      ensures View() == if submitRc != 0 then Reject(old(View()), i) else SetStage(old(View()), i, Registered)
    {
      if submitRc != 0 {
        outstanding := outstanding - 1;
        slots := slots[i := slots[i].(stage := Rejected)];
        return false;
      }
      slots := slots[i := slots[i].(stage := Registered)];
      return true;
    }

    /** `api_send_done`; the caller resumes the connection after leaving the lock if told so. */
    method SendDone(i: nat, rc: int, length: nat, hash: seq<byte>) returns (resume: bool)
      requires i < |slots|
      modifies this
      ensures View() == Done(old(View()), i, if rc == 0 then Sent(length, hash) else Failed)
      ensures resume == (outstanding == 0 && suspended)
    {
      var o := if rc == 0 then Sent(length, hash) else Failed;
      slots := slots[i := slots[i].(outcome := o)];
      outstanding := outstanding - 1;
      resume := outstanding == 0 && suspended;
    }

    /** Tells the slots of one handler whether their request gets an answer. */
    method AttachResponse(from: nat, answered: bool)
      requires from <= |slots|
      modifies this`slots
      ensures slots == Attach(old(slots), from, answered)
    {
      var s := from;
      ghost var before := slots;
      while s < |slots|
        invariant from <= s <= |slots| == |before|
        invariant forall j :: from <= j < s ==> slots[j] == Attached(before[j], answered)
        invariant forall j :: 0 <= j < |slots| && !(from <= j < s) ==> slots[j] == before[j]
      {
        if slots[s].stage.Registered? {
          slots := slots[s := slots[s].(answered := answered)];
        }
        s := s + 1;
      }
    }

    /** The end of the body: keep the connection waiting while a send is unfinished. */
    method TrySuspend() returns (waits: bool)
      modifies this`suspended
      ensures waits == (outstanding > 0) && suspended == (old(suspended) || waits)
    {
      waits := outstanding > 0;
      if waits {
        suspended := true;
      }
    }

    /** `finish_async_response` */
    method Finish() returns (response: seq<Entry>)
      modifies this`suspended
      ensures !suspended && response == Entries(slots, |slots|)
    {
      suspended := false;
      response := [];
      var i := 0;
      while i < |slots|
        invariant 0 <= i <= |slots| && !suspended && response == Entries(slots, i)
      {
        var s := slots[i];
        if s.stage.Registered? && s.answered {
          match s.outcome {
            case Waiting => response := response + [Result(i, 0, seq(32, _ => 0))];
            case Sent(length, hash) => response := response + [Result(i, length, hash)];
            case Failed => response := response + [Error(i)];
          }
        }
        i := i + 1;
      }
    }
  }

  // ------------------------------------------------------------- interleavings

  /** Where the HTTP library is with the request. */
  datatype Phase = Processing | Suspended | Resumed | Finished | Freed

  /**
   `waking` counts workers that left the lock with the duty to resume;
   `suspends` and `resumes` count the library calls made for the connection.
   */
  datatype State = State(shared: Shared, phase: Phase, waking: nat, suspends: nat, resumes: nat,
                         response: Option<seq<Entry>>)

  datatype Event =
    | BeginSend                       // HTTP thread, in a handler
    | PipelineAccepts                 // inside the submit call of the newest slot
    | EndSend(submitRc: int)          // HTTP thread, submit returned
    | HandlerEnds(from: nat, answered: bool)
    | BodyEnds                        // HTTP thread, suspend or answer
    | Completes(i: nat, o: Outcome)   // worker, inside the lock
    | Wakes                           // worker, after the lock
    | Reenters                        // HTTP thread, after a resume
    | RequestEnds                     // HTTP library, the request state is freed

  const INITIAL := State(Shared(0, false, []), Processing, 0, 0, 0, None)

  predicate Settled(slot: Slot) {
    slot.stage.Registered? || slot.stage.Rejected?
  }

  /** A handler is between begin and end of a send. */
  predicate MidSend(slots: seq<Slot>) {
    |slots| > 0 && !Settled(slots[|slots| - 1])
  }

  /**
   What may happen next. The pipeline completes a send it accepted exactly once, at
   any time, even before the submit call returns; a refused send never completes.
   */
  predicate Enabled(s: State, e: Event) {
    var slots := s.shared.slots;
    match e
    case BeginSend => s.phase.Processing? && !MidSend(slots)
    case PipelineAccepts => s.phase.Processing? && MidSend(slots) && slots[|slots| - 1].stage.Opening?
    case EndSend(rc) => s.phase.Processing? && MidSend(slots) && (slots[|slots| - 1].stage.Accepted? <==> rc == 0)
    case HandlerEnds(from, _) => s.phase.Processing? && !MidSend(slots) && from <= |slots|
    case BodyEnds => s.phase.Processing? && !MidSend(slots)
    case Completes(i, o) => i < |slots| && Unfinished(slots[i]) && !slots[i].stage.Opening? && !o.Waiting?
    case Wakes => s.waking > 0
    case Reenters => s.phase.Resumed?
    case RequestEnds => s.phase.Resumed? || s.phase.Finished?
  }

  function Step(s: State, e: Event): State
    requires Enabled(s, e)
  {
    var slots := s.shared.slots;
    match e
    case BeginSend => s.(shared := Begin(s.shared))
    case PipelineAccepts => s.(shared := SetStage(s.shared, |slots| - 1, Accepted))
    case EndSend(rc) =>
      s.(shared := if rc != 0 then Reject(s.shared, |slots| - 1) else SetStage(s.shared, |slots| - 1, Registered))
    case HandlerEnds(from, answered) => s.(shared := s.shared.(slots := Attach(slots, from, answered)))
    case BodyEnds =>
      if s.shared.outstanding > 0 then
        s.(shared := s.shared.(suspended := true), phase := Suspended, suspends := s.suspends + 1)
      else Answer(s)
    case Completes(i, o) =>
      var shared := Done(s.shared, i, o);
      s.(shared := shared, waking := s.waking + if shared.outstanding == 0 && shared.suspended then 1 else 0)
    case Wakes => s.(waking := s.waking - 1, resumes := s.resumes + 1, phase := Resumed)
    case Reenters => Answer(s)
    case RequestEnds => s.(phase := Freed)
  }

  function Answer(s: State): State {
    s.(shared := s.shared.(suspended := false), phase := Finished,
       response := Some(Entries(s.shared.slots, |s.shared.slots|)))
  }

  /** A begun send that neither completed nor was refused. */
  predicate Unfinished(slot: Slot) {
    !slot.stage.Rejected? && slot.outcome.Waiting?
  }

  function Open(slots: seq<Slot>): nat {
    if |slots| == 0 then 0
    else Open(slots[..|slots| - 1]) + if Unfinished(slots[|slots| - 1]) then 1 else 0
  }

  predicate Permitted(s: State, run: seq<Event>)
    decreases |run|
  {
    |run| == 0 || (Enabled(s, run[0]) && Permitted(Step(s, run[0]), run[1..]))
  }

  function Run(s: State, run: seq<Event>): State
    requires Permitted(s, run)
    decreases |run|
  {
    if |run| == 0 then s else Run(Step(s, run[0]), run[1..])
  }

  /** What holds between any two steps of the two threads. */
  ghost predicate Inv(s: State) {
    var slots := s.shared.slots;
    && s.shared.outstanding == Open(slots)
    && (forall i :: 0 <= i < |slots| - 1 ==> Settled(slots[i]))
    && (forall i :: 0 <= i < |slots| && (slots[i].stage.Opening? || slots[i].stage.Rejected?) ==>
          slots[i].outcome.Waiting?)
    && (MidSend(slots) ==> s.phase.Processing?)
    && (s.shared.suspended <==> s.phase.Suspended? || s.phase.Resumed? || (s.phase.Freed? && s.response.None?))
    && (s.response.Some? ==> s.phase.Finished? || s.phase.Freed?)
    && (s.phase.Finished? ==> s.response.Some?)
    && (s.response.Some? ==> s.response == Some(Entries(slots, |slots|)))
    && match s.phase
       case Processing => s.waking == 0 && s.suspends == 0 && s.resumes == 0
       case Suspended => s.suspends == 1 && s.resumes == 0 && s.waking == (if Open(slots) == 0 then 1 else 0)
       case Resumed => s.suspends == 1 && s.resumes == 1 && s.waking == 0 && Open(slots) == 0
       case Finished => s.suspends == s.resumes <= 1 && s.waking == 0 && Open(slots) == 0
       case Freed => s.suspends == s.resumes <= 1 && s.waking == 0 && Open(slots) == 0
  }

  // ------------------------------------------------------------------ lemmas

  function Weight(slot: Slot): nat {
    if Unfinished(slot) then 1 else 0
  }

  lemma {:induction false} OpenUpdate(slots: seq<Slot>, i: nat, x: Slot)
    requires i < |slots|
    ensures Open(slots[i := x]) == Open(slots) - Weight(slots[i]) + Weight(x)
  {
    var n := |slots| - 1;
    if i == n {
      assert slots[i := x][..n] == slots[..n];
    } else {
      OpenUpdate(slots[..n], i, x);
      assert slots[i := x][..n] == slots[..n][i := x];
    }
  }

  lemma OpenSnoc(slots: seq<Slot>, x: Slot)
    ensures Open(slots + [x]) == Open(slots) + Weight(x)
  {
    assert (slots + [x])[..|slots|] == slots;
  }

  lemma {:induction false} OpenNone(slots: seq<Slot>)
    ensures Open(slots) == 0 <==> forall i :: 0 <= i < |slots| ==> !Unfinished(slots[i])
  {
    if |slots| > 0 {
      OpenNone(slots[..|slots| - 1]);
      assert forall i :: 0 <= i < |slots| - 1 ==> slots[i] == slots[..|slots| - 1][i];
    }
  }

  lemma {:induction false} OpenAlike(a: seq<Slot>, b: seq<Slot>)
    requires |a| == |b| && forall i :: 0 <= i < |a| ==> Unfinished(a[i]) == Unfinished(b[i])
    ensures Open(a) == Open(b)
  {
    if |a| > 0 {
      OpenAlike(a[..|a| - 1], b[..|b| - 1]);
    }
  }

  /** What the HTTP thread does keeps the invariant. */
  lemma HttpStep(s: State, e: Event)
    requires Inv(s) && Enabled(s, e) && !e.Completes? && !e.Wakes?
    ensures Inv(Step(s, e))
  {
    hide Entries, Open;
    var slots := s.shared.slots;
    match e
    case BeginSend =>
      assert Begin(s.shared).slots[..|slots|] == slots;
      OpenSnoc(slots, Slot(Opening, Waiting, false));
    case PipelineAccepts =>
      OpenUpdate(slots, |slots| - 1, slots[|slots| - 1].(stage := Accepted));
    case EndSend(rc) =>
      OpenUpdate(slots, |slots| - 1, slots[|slots| - 1].(stage := if rc != 0 then Rejected else Registered));
    case HandlerEnds(from, answered) =>
      OpenAlike(slots, Attach(slots, from, answered));
    case BodyEnds =>
    case Reenters =>
    case RequestEnds =>
  }

  /** What a worker does keeps the invariant. */
  lemma WorkerStep(s: State, e: Event)
    requires Inv(s) && Enabled(s, e) && (e.Completes? || e.Wakes?)
    ensures Inv(Step(s, e))
  {
    hide Entries, Open;
    var slots := s.shared.slots;
    OpenNone(slots);
    match e
    case Completes(i, o) =>
      OpenUpdate(slots, i, slots[i].(outcome := o));
    case Wakes =>
  }

  lemma {:induction false} RunInv(s: State, run: seq<Event>)
    requires Inv(s) && Permitted(s, run)
    ensures Inv(Run(s, run))
    decreases |run|
  {
    hide Inv, Step, Enabled;
    if |run| > 0 {
      if run[0].Completes? || run[0].Wakes? {
        WorkerStep(s, run[0]);
      } else {
        HttpStep(s, run[0]);
      }
      RunInv(Step(s, run[0]), run[1..]);
    }
  }

  lemma InitialInv()
    ensures Inv(INITIAL)
  {
  }

  // ----------------------------------------------------------------- theorems

  /** In every interleaving `outstanding` is the number of begun sends neither completed nor refused. */
  lemma OutstandingExact(run: seq<Event>)
    requires Permitted(INITIAL, run)
    ensures var s := Run(INITIAL, run); s.shared.outstanding == Open(s.shared.slots)
  {
    InitialInv();
    RunInv(INITIAL, run);
  }

  /**
   The connection is suspended at most once, resumed at most once and never before
   the suspend; whenever a resume happens every send is over; and a request that was
   answered or freed has had all its suspends resumed.
   */
  lemma ResumedOnce(run: seq<Event>, e: Event)
    requires Permitted(INITIAL, run) && Enabled(Run(INITIAL, run), e)
    ensures var s := Run(INITIAL, run);
            && s.resumes <= s.suspends <= 1
            && (e.Wakes? ==> s.phase.Suspended? && s.suspends == 1 && s.resumes == 0
                             && forall i :: 0 <= i < |s.shared.slots| ==> !Unfinished(s.shared.slots[i]))
            && (s.phase.Finished? || s.phase.Freed? ==> s.resumes == s.suspends)
  {
    InitialInv();
    RunInv(INITIAL, run);
    OpenNone(Run(INITIAL, run).shared.slots);
    hide Run, Permitted, Open, Entries;
  }

  /**
   When the response is built every registered slot has finished, so the entry of an
   answered slot is its own result, or an error exactly when its send failed.
   */
  lemma ResponseComplete(run: seq<Event>, i: nat)
    requires Permitted(INITIAL, run)
    requires var s := Run(INITIAL, run); s.response.Some? && i < |s.shared.slots|
    ensures var s := Run(INITIAL, run);
            var slot := s.shared.slots[i];
            && (slot.stage.Registered? ==> !slot.outcome.Waiting?)
            && (slot.stage.Registered? && slot.answered && slot.outcome.Failed? <==> Error(i) in s.response.value)
            && (forall length, hash ::
                  slot.stage.Registered? && slot.answered && slot.outcome == Sent(length, hash)
                  <==> Result(i, length, hash) in s.response.value)
  {
    InitialInv();
    RunInv(INITIAL, run);
    var slots := Run(INITIAL, run).shared.slots;
    OpenNone(slots);
    EntriesMember(slots, |slots|, i);
    hide Run, Permitted, Open, Entries;
    assert !Unfinished(slots[i]);
  }

  lemma {:induction false} EntriesMember(slots: seq<Slot>, n: nat, i: nat)
    requires n <= |slots| && i < |slots|
    ensures forall e :: e in Entries(slots, n) && e.slot == i <==>
                          i < n && slots[i].stage.Registered? && slots[i].answered && e == EntryOf(slots[i], i)
  {
    if n > 0 {
      EntriesMember(slots, n - 1, i);
    }
  }

  /** After an answer, and after the request is freed, no worker step is left that could touch it. */
  lemma NoLateAccess(run: seq<Event>, e: Event)
    requires Permitted(INITIAL, run)
    requires var s := Run(INITIAL, run); s.phase.Resumed? || s.phase.Finished? || s.phase.Freed?
    ensures e.Completes? || e.Wakes? ==> !Enabled(Run(INITIAL, run), e)
    ensures Run(INITIAL, run).phase.Freed? ==> !Enabled(Run(INITIAL, run), e)
  {
    InitialInv();
    RunInv(INITIAL, run);
    OpenNone(Run(INITIAL, run).shared.slots);
    hide Run, Permitted, Open, Entries;
  }

  /** Steps a suspended request still waits for. */
  function Remaining(s: State): nat {
    Open(s.shared.slots) + if s.phase.Suspended? then 1 else 0
  }

  /**
   No wake-up is lost: a suspended request always has a send that can still complete,
   or a worker on its way to resume it; and each such step brings the resume nearer.
   */
  lemma NeverStuck(run: seq<Event>) returns (e: Event)
    requires Permitted(INITIAL, run) && Run(INITIAL, run).phase.Suspended?
    ensures (e.Completes? || e.Wakes?) && Enabled(Run(INITIAL, run), e)
    ensures Remaining(Step(Run(INITIAL, run), e)) < Remaining(Run(INITIAL, run))
    ensures Remaining(Run(INITIAL, run)) == 1 ==> Step(Run(INITIAL, run), e).phase.Resumed?
  {
    InitialInv();
    RunInv(INITIAL, run);
    var s := Run(INITIAL, run);
    OpenNone(s.shared.slots);
    hide Run, Permitted, Open, Entries;
    if s.waking > 0 {
      e := Wakes;
    } else {
      var i :| 0 <= i < |s.shared.slots| && Unfinished(s.shared.slots[i]);
      e := Completes(i, Failed);
      OpenUpdate(s.shared.slots, i, s.shared.slots[i].(outcome := Failed));
    }
  }

  predicate WorkersOnly(run: seq<Event>) {
    |run| == 0 || ((run[0].Completes? || run[0].Wakes?) && WorkersOnly(run[1..]))
  }

  /**
   From a suspended request the workers take exactly `outstanding + 1` steps, in any
   order, and only the last of them resumes the connection.
   */
  lemma {:induction false} WorkersResume(s: State, more: seq<Event>)
    requires Inv(s) && (s.phase.Suspended? || s.phase.Resumed?)
    requires Permitted(s, more) && WorkersOnly(more)
    ensures |more| <= Remaining(s) && Remaining(Run(s, more)) == Remaining(s) - |more|
    ensures Run(s, more).phase.Resumed? <==> |more| == Remaining(s)
    decreases |more|
  {
    hide Open, Entries;
    if |more| > 0 {
      OpenNone(s.shared.slots);
      WorkerStep(s, more[0]);
      if more[0].Completes? {
        OpenUpdate(s.shared.slots, more[0].i, s.shared.slots[more[0].i].(outcome := more[0].o));
      }
      WorkersResume(Step(s, more[0]), more[1..]);
    }
  }

  // ------------------------------------------------------ the response, told by the events

  /** How many sends were begun. */
  function Begins(run: seq<Event>): nat {
    if |run| == 0 then 0 else Begins(run[..|run| - 1]) + if run[|run| - 1].BeginSend? then 1 else 0
  }

  /** The `i`-th send was handed over and its submit call returned 0. */
  ghost predicate HandedOver(run: seq<Event>, i: nat) {
    exists k :: 0 <= k < |run| && run[k] == EndSend(0) && Begins(run[..k]) == i + 1
  }

  /** The last handler to end, of those that ended after the hand-over and knew the slot, had an answer. */
  ghost predicate Answered(run: seq<Event>, i: nat) {
    exists k :: 0 <= k < |run| && run[k].HandlerEnds? && run[k].from <= i && run[k].answered
                && HandedOver(run[..k], i)
                && forall l :: k < l < |run| && run[l].HandlerEnds? ==> run[l].from > i
  }

  lemma RunSnoc(s: State, run: seq<Event>, e: Event)
    requires Permitted(s, run + [e])
    ensures Permitted(s, run) && Enabled(Run(s, run), e) && Run(s, run + [e]) == Step(Run(s, run), e)
    decreases |run|
  {
    hide Step, Enabled;
    if |run| == 0 {
      assert run + [e] == [e] && [e][1..] == [];
    } else {
      assert (run + [e])[1..] == run[1..] + [e] && (run + [e])[0] == run[0];
      RunSnoc(Step(s, run[0]), run[1..], e);
    }
  }

  /** What the events say of each slot. */
  ghost predicate Told(slots: seq<Slot>, run: seq<Event>, i: nat)
    requires i < |slots|
  {
    && (slots[i].stage.Registered? <==> HandedOver(run, i))
    && (slots[i].answered <==> Answered(run, i))
    && (forall o: Outcome :: !o.Waiting? ==> (slots[i].outcome == o <==> Completes(i, o) in run))
  }

  ghost predicate AllTold(s: State, run: seq<Event>) {
    && |s.shared.slots| == Begins(run)
    && (forall i :: 0 <= i < |s.shared.slots| ==> Told(s.shared.slots, run, i))
    && (forall i: nat, o: Outcome :: Completes(i, o) in run ==> i < |s.shared.slots|)
  }

  lemma HandedOverSnoc(run: seq<Event>, e: Event, i: nat)
    ensures HandedOver(run + [e], i) <==> HandedOver(run, i) || (e == EndSend(0) && Begins(run) == i + 1)
  {
    var all := run + [e];
    assert all[..|run|] == run;
    forall k | 0 <= k < |run|
      ensures all[k] == run[k] && all[..k] == run[..k]
    {
    }
    if HandedOver(run, i) {
      var k :| 0 <= k < |run| && run[k] == EndSend(0) && Begins(run[..k]) == i + 1;
      assert all[k] == EndSend(0) && Begins(all[..k]) == i + 1;
    }
    if e == EndSend(0) && Begins(run) == i + 1 {
      assert all[|run|] == EndSend(0) && Begins(all[..|run|]) == i + 1;
    }
  }

  lemma AnsweredSnoc(run: seq<Event>, e: Event, i: nat)
    ensures Answered(run + [e], i) <==>
            if e.HandlerEnds? && e.from <= i && HandedOver(run, i) then e.answered
            else Answered(run, i) && !(e.HandlerEnds? && e.from <= i)
  {
    hide HandedOver;
    var all := run + [e];
    assert all[..|run|] == run;
    forall k | 0 <= k < |run|
      ensures all[k] == run[k] && all[..k] == run[..k]
    {
    }
    if Answered(run, i) && !(e.HandlerEnds? && e.from <= i) {
      var k :| 0 <= k < |run| && run[k].HandlerEnds? && run[k].from <= i && run[k].answered && HandedOver(run[..k], i)
               && forall l :: k < l < |run| && run[l].HandlerEnds? ==> run[l].from > i;
      assert all[k].HandlerEnds? && HandedOver(all[..k], i);
    }
    if Answered(all, i) {
      var k :| 0 <= k < |all| && all[k].HandlerEnds? && all[k].from <= i && all[k].answered && HandedOver(all[..k], i)
               && forall l :: k < l < |all| && all[l].HandlerEnds? ==> all[l].from > i;
      assert k < |run| ==> all[|run|].HandlerEnds? ==> all[|run|].from > i;
      if k < |run| {
        assert run[k].HandlerEnds? && HandedOver(run[..k], i);
        forall l | k < l < |run| && run[l].HandlerEnds?
          ensures run[l].from > i
        {
          assert all[l] == run[l];
        }
      }
    }
    if e.HandlerEnds? && e.from <= i && HandedOver(run, i) && e.answered {
      assert all[|run|].HandlerEnds? && HandedOver(all[..|run|], i);
    }
  }

  /** An answer presupposes the hand-over. */
  lemma AnsweredHanded(run: seq<Event>, i: nat)
    requires Answered(run, i)
    ensures HandedOver(run, i)
  {
    var k :| 0 <= k < |run| && run[k].HandlerEnds? && run[k].from <= i && run[k].answered && HandedOver(run[..k], i)
             && forall l :: k < l < |run| && run[l].HandlerEnds? ==> run[l].from > i;
    HandedOverLater(run, k, i);
  }

  lemma HandedOverLater(run: seq<Event>, k: nat, i: nat)
    requires k <= |run| && HandedOver(run[..k], i)
    ensures HandedOver(run, i)
  {
    var front := run[..k];
    var l :| 0 <= l < |front| && front[l] == EndSend(0) && Begins(front[..l]) == i + 1;
    assert front[..l] == run[..l];
    assert run[l] == EndSend(0) && Begins(run[..l]) == i + 1;
  }

  lemma CompletesSnoc(run: seq<Event>, e: Event, i: nat, o: Outcome)
    ensures Completes(i, o) in run + [e] <==> Completes(i, o) in run || e == Completes(i, o)
  {
  }

  lemma BeginsSnoc(run: seq<Event>, e: Event)
    ensures Begins(run + [e]) == Begins(run) + if e.BeginSend? then 1 else 0
  {
    assert (run + [e])[..|run|] == run;
  }

  /** The slot that was just begun. */
  lemma NothingToldYet(run: seq<Event>, i: nat)
    requires Begins(run) <= i
    ensures !HandedOver(run, i) && !Answered(run, i)
  {
    if HandedOver(run, i) {
      var k :| 0 <= k < |run| && run[k] == EndSend(0) && Begins(run[..k]) == i + 1;
      BeginsGrow(run, k);
    }
    if Answered(run, i) {
      AnsweredHanded(run, i);
    }
  }

  lemma {:induction false} BeginsGrow(run: seq<Event>, k: nat)
    requires k <= |run|
    ensures Begins(run[..k]) <= Begins(run)
    decreases |run|
  {
    if k == |run| {
      assert run[..k] == run;
    } else {
      BeginsGrow(run[..|run| - 1], k);
      assert run[..|run| - 1][..k] == run[..k];
    }
  }

  lemma SlotTold(s: State, run: seq<Event>, e: Event, i: nat)
    requires Inv(s) && AllTold(s, run) && Enabled(s, e) && i < |Step(s, e).shared.slots|
    ensures Told(Step(s, e).shared.slots, run + [e], i)
  {
    hide HandedOver, Answered, Open, Entries, Begins;
    HandedOverSnoc(run, e, i);
    AnsweredSnoc(run, e, i);
    forall o: Outcome
      ensures Completes(i, o) in run + [e] <==> Completes(i, o) in run || e == Completes(i, o)
    {
      CompletesSnoc(run, e, i, o);
    }
    var slots := s.shared.slots;
    if i < |slots| {
      assert Told(slots, run, i);
      if Answered(run, i) {
        AnsweredHanded(run, i);
      }
    } else {
      NothingToldYet(run, i);
    }
  }

  lemma StepTold(s: State, run: seq<Event>, e: Event)
    requires Inv(s) && AllTold(s, run) && Enabled(s, e)
    ensures AllTold(Step(s, e), run + [e])
  {
    BeginsSnoc(run, e);
    var slots' := Step(s, e).shared.slots;
    assert |slots'| == |s.shared.slots| + if e.BeginSend? then 1 else 0;
    forall i | 0 <= i < |slots'|
      ensures Told(slots', run + [e], i)
    {
      SlotTold(s, run, e, i);
    }
    hide Told, Step, Begins, Inv;
    forall i: nat, o: Outcome | Completes(i, o) in run + [e]
      ensures i < |slots'|
    {
      CompletesSnoc(run, e, i, o);
    }
  }

  lemma {:induction false} RunTold(run: seq<Event>)
    requires Permitted(INITIAL, run)
    ensures AllTold(Run(INITIAL, run), run)
  {
    if |run| > 0 {
      var front, e := run[..|run| - 1], run[|run| - 1];
      assert run == front + [e];
      RunSnoc(INITIAL, front, e);
      RunTold(front);
      InitialInv();
      RunInv(INITIAL, front);
      hide Inv, AllTold, Step, Enabled, Run, Permitted;
      StepTold(Run(INITIAL, front), front, e);
    }
  }

  /** Entries come in the order of their slots, one each. */
  lemma {:induction false} EntriesRise(slots: seq<Slot>, n: nat)
    requires n <= |slots|
    ensures forall j :: 0 <= j < |Entries(slots, n)| ==> Entries(slots, n)[j].slot < n
    ensures forall j, k :: 0 <= j < k < |Entries(slots, n)| ==> Entries(slots, n)[j].slot < Entries(slots, n)[k].slot
  {
    if n > 0 {
      EntriesRise(slots, n - 1);
    }
  }

  /**
   The response, told by the events alone: it holds the result of a send if and only if the send was
   handed over, the last handler that ended after this and knew of it had an answer, and the send
   completed with this result; the same for an error; and the entries stand in the order in which the
   sends were begun, one each.
   */
  lemma ResponseExact(run: seq<Event>, i: nat, length: nat, hash: seq<byte>)
    requires Permitted(INITIAL, run) && Run(INITIAL, run).response.Some?
    ensures var response := Run(INITIAL, run).response.value;
            && (Result(i, length, hash) in response <==> Answered(run, i) && Completes(i, Sent(length, hash)) in run)
            && (Error(i) in response <==> Answered(run, i) && Completes(i, Failed) in run)
            && forall j, k :: 0 <= j < k < |response| ==> response[j].slot < response[k].slot
  {
    InitialInv();
    RunInv(INITIAL, run);
    RunTold(run);
    var s := Run(INITIAL, run);
    var slots := s.shared.slots;
    EntriesRise(slots, |slots|);
    hide Run, Permitted, Open, Entries, HandedOver, Answered, Begins;
    if i < |slots| {
      ResponseComplete(run, i);
      assert Told(slots, run, i);
      if Answered(run, i) {
        AnsweredHanded(run, i);
      }
    } else {
      NothingToldYet(run, i);
    }
  }
}
