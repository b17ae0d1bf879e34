/**
 Whole runs of the relay state: any sequence of the calls of
 src/infra/dandelion.c under a positive clock that never goes back. The draw of
 a stem successor is two steps, because the source leaves its lock in between.
 */
module DandelionRuns {
  import opened Numerals
  import opened DandelionIndex
  import opened Dandelion

  datatype Event =
    | Note(h: Hash, isDinv: bool, now: int, jitter: nat)
    | Choose(h: Hash, target: Option<Endpoint>, now: int, jitter: nat)
    | Sweep(now: int)
    | BeginDraw(now: int)
    | EndDraw(found: Option<Endpoint>)

  /** The relay, and whether a draw is under way in the one thread that draws. */
  datatype State = State(relay: Relay, drawing: bool)

  function Step(s: State, e: Event): State {
    match e
    case Note(h, isDinv, now, jitter) => s.(relay := NoteSource(s.relay, h, isDinv, now, jitter))
    case Choose(h, target, now, jitter) => s.(relay := Decide(s.relay, h, target, now, jitter).0)
    case Sweep(now) => s.(relay := Expire(s.relay, now))
    case BeginDraw(now) =>
      if s.drawing then s
      else State(StartEpoch(s.relay, now), ReshuffleDue(s.relay, now))
    case EndDraw(found) => if s.drawing then State(SetStem(s.relay, found), false) else s
  }

  /** The events carry times from `start` on that never decrease; `EndDraw` carries none. */
  ghost predicate Clocked(run: seq<Event>, start: int, end: int)
    decreases |run|
  {
    start <= end &&
    (|run| > 0 ==>
      if run[0].EndDraw? then Clocked(run[1..], start, end)
      else start <= run[0].now && Clocked(run[1..], run[0].now, end))
  }

  function Run(s: State, run: seq<Event>): State
    decreases |run|
  {
    if |run| == 0 then s else Run(Step(s, run[0]), run[1..])
  }

  /** The one entry of a hash. */
  ghost predicate Has(r: Relay, e: Entry) {
    DistinctEntries(r.entries) && e in r.entries
  }

  // ------------------------------------------------------ distinctness

  lemma WithEntryDistinct(es: seq<Entry>, h: Hash, now: int, jitter: nat)
    requires DistinctEntries(es)
    ensures DistinctEntries(WithEntry(es, h, now, jitter))
  {
    if Scan(Hashes(es), h) == EMPTY {
      AppendDistinct(es, NewEntry(h, now, jitter));
    }
  }

  lemma {:induction false} MarkSameHashes(es: seq<Entry>, now: int, budget: nat)
    ensures |MarkOverdue(es, now, budget)| == |es|
    ensures forall i :: 0 <= i < |es| ==>
              MarkOverdue(es, now, budget)[i] == es[i]
              || (Overdue(es[i], now) && MarkOverdue(es, now, budget)[i] == es[i].(fluffedAt := now))
    decreases |es|
  {
    if |es| > 0 && budget > 0 {
      MarkSameHashes(es[1..], now, if Overdue(es[0], now) then budget - 1 else budget);
      assert forall i :: 1 <= i < |es| ==> es[i] == es[1..][i - 1];
    }
  }

  /** Every call keeps the hashes distinct. */
  lemma StepDistinct(s: State, e: Event)
    requires DistinctEntries(s.relay.entries)
    ensures DistinctEntries(Step(s, e).relay.entries)
  {
    match e
    case Note(h, _, now, jitter) =>
      WithEntryDistinct(s.relay.entries, h, now, jitter);
    case Choose(h, _, now, jitter) =>
      WithEntryDistinct(s.relay.entries, h, now, jitter);
    case Sweep(now) =>
      MarkSameHashes(s.relay.entries, now, MAX_EXPIRE_PER_CALL);
      PruneDistinct(MarkOverdue(s.relay.entries, now, MAX_EXPIRE_PER_CALL), now);
    case BeginDraw(_) =>
    case EndDraw(_) =>
  }

  // ------------------------------------------------------- one call, exactly

  /** The entry of `h` among these has been fluffed, was noted from a plain inv, or is past its deadline. */
  ghost predicate Done(es: seq<Entry>, h: Hash, now: int) {
    exists e :: e in es && e.hash == h && (e.fluffedAt != 0 || e.plainInv || now >= e.deadline)
  }

  /** What an entry is after a decision at `now`. */
  function Decided(e: Entry, fluffs: bool, now: int): Entry {
    if fluffs && e.fluffedAt == 0 then e.(fluffedAt := now) else e
  }

  lemma PlaceFacts(es: seq<Entry>, h: Hash, now: int, jitter: nat)
    requires DistinctEntries(es)
    ensures var ws, i := WithEntry(es, h, now, jitter), PositionIn(es, h, now, jitter);
            && (h in Hashes(es) ==> ws == es && i < |es|)
            && (h !in Hashes(es) ==> i == |es| && ws == es + [Entry(h, now + 10 + jitter, 0, false)])
            && (forall k :: 0 <= k < |ws| ==> (ws[k].hash == h <==> k == i))
  {
    WithEntryDistinct(es, h, now, jitter);
    var ws, i := WithEntry(es, h, now, jitter), PositionIn(es, h, now, jitter);
    forall k | 0 <= k < |ws|
      ensures ws[k].hash == h <==> k == i
    {
    }
  }

  /**
   The three answers: fluff without a successor or when the entry of the hash demands it;
   otherwise stem for the successor, and skip for every other connection.
   */
  lemma DecideExact(r: Relay, h: Hash, target: Option<Endpoint>, now: int, jitter: nat)
    requires DistinctEntries(r.entries)
    ensures var mode := Decide(r, h, target, now, jitter).1;
            && (mode == Fluff <==> !r.hasStem || Done(r.entries, h, now))
            && (mode == Stem <==> r.hasStem && !Done(r.entries, h, now) && target == Some(r.stem))
            && (mode == Skip <==> r.hasStem && !Done(r.entries, h, now) && target != Some(r.stem))
  {
    PlaceFacts(r.entries, h, now, jitter);
    var ws, i := WithEntry(r.entries, h, now, jitter), PositionIn(r.entries, h, now, jitter);
    hide WithEntry, PositionIn, Hashes;
    if h in Hashes(r.entries) {
      assert ws[i] in r.entries;
      if Done(r.entries, h, now) {
        var e :| e in r.entries && e.hash == h && (e.fluffedAt != 0 || e.plainInv || now >= e.deadline);
        var k :| 0 <= k < |r.entries| && r.entries[k] == e;
      }
    } else if Done(r.entries, h, now) {
      NotIn(r.entries, h);
    }
  }

  lemma NotIn(es: seq<Entry>, h: Hash)
    ensures h !in Hashes(es) <==> forall e :: e in es ==> e.hash != h
  {
    forall e | e in es
      ensures e.hash in Hashes(es)
    {
      var k :| 0 <= k < |es| && es[k] == e;
      assert Hashes(es)[k] == e.hash;
    }
    if h in Hashes(es) {
      var k :| 0 <= k < |es| && Hashes(es)[k] == h;
      assert es[k] in es;
    }
  }

  /**
   What a decision and a note leave behind: the entry of the hash, made if it was missing with a
   deadline ten seconds and the jitter ahead, is the only one that changes.
   */
  lemma CallEntries(r: Relay, h: Hash, target: Option<Endpoint>, now: int, jitter: nat)
    requires DistinctEntries(r.entries)
    ensures var (r', mode) := Decide(r, h, target, now, jitter);
            && r' == r.(entries := r'.entries)
            && (h in Hashes(r.entries) ==>
                  && |r'.entries| == |r.entries|
                  && forall k :: 0 <= k < |r.entries| ==>
                       r'.entries[k] == if r.entries[k].hash == h then Decided(r.entries[k], mode == Fluff, now)
                                        else r.entries[k])
            && (h !in Hashes(r.entries) ==>
                  r'.entries == r.entries + [Decided(Entry(h, now + 10 + jitter, 0, false), mode == Fluff, now)])
    ensures NoteSource(r, h, true, now, jitter) == r
    ensures var r' := NoteSource(r, h, false, now, jitter);
            && r' == r.(entries := r'.entries)
            && (h in Hashes(r.entries) ==>
                  && |r'.entries| == |r.entries|
                  && forall k :: 0 <= k < |r.entries| ==>
                       r'.entries[k] == if r.entries[k].hash == h then r.entries[k].(plainInv := true)
                                        else r.entries[k])
            && (h !in Hashes(r.entries) ==> r'.entries == r.entries + [Entry(h, now + 10 + jitter, 0, true)])
  {
    PlaceFacts(r.entries, h, now, jitter);
    hide WithEntry, PositionIn, Hashes;
  }

  /** A draw is due at the first call and when 600 seconds have passed; what it finds is the successor from then on. */
  lemma DrawExact(r: Relay, now: int, found: Option<Endpoint>)
    ensures var s := Step(State(r, false), BeginDraw(now));
            && s.drawing == (r.epochStarted == 0 || now >= r.epochStarted + 600)
            && s.relay == r.(epochStarted := if s.drawing then now else r.epochStarted)
    ensures var s := Step(State(r, true), EndDraw(found));
            && !s.drawing && s.relay.hasStem == found.Some? && (found.Some? ==> s.relay.stem == found.value)
            && s.relay == r.(hasStem := s.relay.hasStem, stem := s.relay.stem)
    ensures Step(State(r, false), EndDraw(found)) == State(r, false)
    ensures Step(State(r, true), BeginDraw(now)) == State(r, true)
  {
  }

  // -------------------------------------------------------- fluff persists

  /** Where the entry of a known hash is. */
  lemma PositionOf(es: seq<Entry>, e: Entry, now: int, jitter: nat)
    requires DistinctEntries(es) && e in es
    ensures WithEntry(es, e.hash, now, jitter) == es && es[PositionIn(es, e.hash, now, jitter)] == e
  {
    var k :| 0 <= k < |es| && es[k] == e;
    assert Hashes(es)[k] == e.hash;
  }

  /** The step of another hash leaves the entry alone. */
  lemma OthersKeep(es: seq<Entry>, e: Entry, h: Hash, now: int, jitter: nat, x: Entry)
    requires DistinctEntries(es) && e in es && e.hash != h
    ensures e in WithEntry(es, h, now, jitter)
    ensures e in WithEntry(es, h, now, jitter)[PositionIn(es, h, now, jitter) := x]
  {
    var k :| 0 <= k < |es| && es[k] == e;
    var ws, i := WithEntry(es, h, now, jitter), PositionIn(es, h, now, jitter);
    assert ws[k] == e && k != i;
    assert ws[i := x][k] == e;
  }

  /** A fluffed entry that is not stale survives any call, with the same fluff time. */
  lemma StepKeepsFluffed(s: State, ev: Event, e: Entry) returns (e': Entry)
    requires Has(s.relay, e) && e.fluffedAt > 0
    requires ev.EndDraw? || ev.now <= e.fluffedAt + PRUNE_AGE_SECONDS
    ensures Has(Step(s, ev).relay, e') && e'.hash == e.hash && e'.fluffedAt == e.fluffedAt
  {
    StepDistinct(s, ev);
    var es := s.relay.entries;
    e' := e;
    match ev
    case Note(h, isDinv, now, jitter) =>
      if !isDinv {
        var ws, i := WithEntry(es, h, now, jitter), PositionIn(es, h, now, jitter);
        if h == e.hash {
          PositionOf(es, e, now, jitter);
          e' := e.(plainInv := true);
          assert ws[i := e'][i] == e';
        } else {
          OthersKeep(es, e, h, now, jitter, ws[i].(plainInv := true));
        }
      }
    case Choose(h, _, now, jitter) =>
      var ws, i := WithEntry(es, h, now, jitter), PositionIn(es, h, now, jitter);
      if h == e.hash {
        PositionOf(es, e, now, jitter);
      } else {
        OthersKeep(es, e, h, now, jitter, ws[i].(fluffedAt := now));
      }
    case Sweep(now) =>
      var marked := MarkOverdue(es, now, MAX_EXPIRE_PER_CALL);
      MarkSameHashes(es, now, MAX_EXPIRE_PER_CALL);
      var k :| 0 <= k < |es| && es[k] == e;
      assert marked[k] == e;
      assert e in marked && !Stale(e, now);
      PruneMembers(marked, now);
    case BeginDraw(_) =>
    case EndDraw(_) =>
  }

  lemma {:induction false} RunKeepsFluffed(s: State, run: seq<Event>, e: Entry, start: int, end: int)
    returns (e': Entry)
    requires Has(s.relay, e) && e.fluffedAt > 0
    requires Clocked(run, start, end) && end <= e.fluffedAt + PRUNE_AGE_SECONDS
    ensures Has(Run(s, run).relay, e') && e'.hash == e.hash && e'.fluffedAt == e.fluffedAt
    decreases |run|
  {
    if |run| == 0 {
      e' := e;
    } else {
      ClockedBound(run, start, end);
      var mid := StepKeepsFluffed(s, run[0], e);
      e' := RunKeepsFluffed(Step(s, run[0]), run[1..], mid,
                            if run[0].EndDraw? then start else run[0].now, end);
    }
  }

  lemma {:induction false} ClockedBound(run: seq<Event>, start: int, end: int)
    requires Clocked(run, start, end) && |run| > 0
    ensures run[0].EndDraw? || start <= run[0].now <= end
  {
    if !run[0].EndDraw? {
      assert Clocked(run[1..], run[0].now, end);
    }
  }

  /** A decision to fluff records when it was first made. */
  lemma FluffRecorded(r: Relay, h: Hash, target: Option<Endpoint>, now: int, jitter: nat) returns (e: Entry)
    requires DistinctEntries(r.entries) && now > 0
    requires forall x :: x in r.entries ==> 0 <= x.fluffedAt <= now
    requires Decide(r, h, target, now, jitter).1 == Fluff
    ensures Has(Decide(r, h, target, now, jitter).0, e) && e.hash == h && 0 < e.fluffedAt <= now
    ensures (forall x :: x in r.entries && x.hash == h ==> x.fluffedAt == 0) ==> e.fluffedAt == now
  {
    StepDistinct(State(r, false), Choose(h, target, now, jitter));
    var ws, i := WithEntry(r.entries, h, now, jitter), PositionIn(r.entries, h, now, jitter);
    var r' := Decide(r, h, target, now, jitter).0;
    e := r'.entries[i];
    assert e in r'.entries;
    if i < |r.entries| {
      assert ws[i] == r.entries[i] && ws[i] in r.entries;
    }
  }

  /**
   Once a decision for a hash is to fluff, every decision for it stays so until
   300 seconds after the entry's fluff time, whatever else happens meanwhile.
   */
  lemma FluffPersists(s: State, run: seq<Event>, e: Entry, start: int, t: int, target: Option<Endpoint>, jitter: nat)
    requires Has(s.relay, e) && e.fluffedAt > 0
    requires Clocked(run, start, t) && t <= e.fluffedAt + PRUNE_AGE_SECONDS
    ensures Decide(Run(s, run).relay, e.hash, target, t, jitter).1 == Fluff
  {
    var e' := RunKeepsFluffed(s, run, e, start, t);
    PositionOf(Run(s, run).relay.entries, e', t, jitter);
  }

  /** What survives a sweep is not stale, and comes from an entry of the same hash that was overdue or already it. */
  lemma SurvivorFrom(es: seq<Entry>, t: int, x: Entry) returns (k: nat)
    requires x in Prune(MarkOverdue(es, t, MAX_EXPIRE_PER_CALL), t)
    ensures k < |es| && !Stale(x, t) && (x == es[k] || (Overdue(es[k], t) && x == es[k].(fluffedAt := t)))
  {
    var marked := MarkOverdue(es, t, MAX_EXPIRE_PER_CALL);
    PruneMembers(marked, t);
    MarkSameHashes(es, t, MAX_EXPIRE_PER_CALL);
    hide Prune, MarkOverdue;
    k :| 0 <= k < |marked| && marked[k] == x;
  }

  /** A sweep past the 300 seconds removes every trace of the hash. */
  lemma SweepForgets(s: State, e: Entry, t: int)
    requires Has(s.relay, e) && e.fluffedAt > 0 && t > e.fluffedAt + PRUNE_AGE_SECONDS
    ensures e.hash !in Hashes(Step(s, Sweep(t)).relay.entries)
  {
    hide Prune, MarkOverdue;
    var es, kept := s.relay.entries, Step(s, Sweep(t)).relay.entries;
    var l :| 0 <= l < |es| && es[l] == e;
    forall j | 0 <= j < |kept|
      ensures kept[j].hash != e.hash
    {
      var k := SurvivorFrom(es, t, kept[j]);
      assert k != l ==> es[k].hash != es[l].hash;
    }
  }

  lemma FreshDecision(r: Relay, h: Hash, target: Option<Endpoint>, now: int, jitter: nat)
    requires h !in Hashes(r.entries)
    ensures Decide(r, h, target, now, jitter).1 == Fluff <==> !r.hasStem
  {
  }

  /**
   Past those 300 seconds a sweep forgets the hash, and the next decision for
   it is to fluff only if there is no stem successor: the bound is exact.
   */
  lemma FluffForgotten(s: State, e: Entry, t: int, target: Option<Endpoint>, jitter: nat)
    requires Has(s.relay, e) && e.fluffedAt > 0 && t > e.fluffedAt + PRUNE_AGE_SECONDS
    ensures Decide(Step(s, Sweep(t)).relay, e.hash, target, t, jitter).1 == Fluff <==> !s.relay.hasStem
  {
    SweepForgets(s, e, t);
    FreshDecision(Step(s, Sweep(t)).relay, e.hash, target, t, jitter);
  }

  const INIT := State(Relay([], false, Endpoint("", 0), 0), false)

  /** Draw a successor, hear of a hash at 890 and fluff it at 1000. */
  function FluffedAt1000(h: Hash, succ: Endpoint): seq<Event> {
    [BeginDraw(1), EndDraw(Some(succ)), Choose(h, None, 890, 0), Choose(h, None, 1000, 0)]
  }

  lemma DrawStep(succ: Endpoint)
    ensures Step(Step(INIT, BeginDraw(1)), EndDraw(Some(succ))) == State(Relay([], true, succ, 1), false)
  {
  }

  lemma FirstDecision(s: State, h: Hash)
    requires s.relay.entries == [] && s.relay.hasStem
    ensures Step(s, Choose(h, None, 890, 0)) == s.(relay := s.relay.(entries := [Entry(h, 900, 0, false)]))
  {
    assert Scan(Hashes([]), h) == EMPTY && [] + [Entry(h, 900, 0, false)] == [Entry(h, 900, 0, false)];
    hide Scan, Hashes;
  }

  lemma SecondDecision(s: State, h: Hash)
    requires s.relay.entries == [Entry(h, 900, 0, false)]
    ensures Step(s, Choose(h, None, 1000, 0)) == s.(relay := s.relay.(entries := [Entry(h, 900, 1000, false)]))
  {
    hide WithEntry, PositionIn;
    var e := Entry(h, 900, 0, false);
    PositionOf([e], e, 1000, 0);
    assert [e][0 := e.(fluffedAt := 1000)] == [Entry(h, 900, 1000, false)];
  }

  lemma RunFour(s: State, a: Event, b: Event, c: Event, d: Event)
    ensures Run(s, [a, b, c, d]) == Step(Step(Step(Step(s, a), b), c), d)
  {
    hide Step;
    assert [a, b, c, d][1..] == [b, c, d] && [b, c, d][1..] == [c, d] && [c, d][1..] == [d] && [d][1..] == [];
    var s1 := Step(s, a);
    var s2 := Step(s1, b);
    assert Run(s2, [c, d]) == Run(Step(s2, c), [d]);
    assert Run(s1, [b, c, d]) == Run(s2, [c, d]);
  }

  lemma FluffedState(h: Hash, succ: Endpoint)
    ensures Run(INIT, FluffedAt1000(h, succ)) == State(Relay([Entry(h, 900, 1000, false)], true, succ, 1), false)
  {
    hide Step, Run;
    var s := State(Relay([], true, succ, 1), false);
    DrawStep(succ);
    FirstDecision(s, h);
    SecondDecision(s.(relay := s.relay.(entries := [Entry(h, 900, 0, false)])), h);
    RunFour(INIT, BeginDraw(1), EndDraw(Some(succ)), Choose(h, None, 890, 0), Choose(h, None, 1000, 0));
  }

  /**
   The 300 seconds do not start afresh with a later decision to fluff: in a run from
   start-up a hash fluffed at 1000 and again at 1200 is held back at 1301.
   */
  lemma LaterFluffDoesNotExtend(h: Hash, succ: Endpoint)
    ensures var s := Run(INIT, FluffedAt1000(h, succ));
            && Decide(s.relay, h, None, 1200, 0).1 == Fluff
            && Step(s, Choose(h, None, 1200, 0)) == s
            && Decide(Step(s, Sweep(1301)).relay, h, None, 1301, 0).1 == Skip
  {
    var e := Entry(h, 900, 1000, false);
    var s := State(Relay([e], true, succ, 1), false);
    FluffedState(h, succ);
    hide Run;
    PositionOf([e], e, 1200, 0);
    FluffForgotten(s, e, 1301, None, 0);
  }

  ghost predicate FluffedBy(r: Relay, t: int) {
    forall x :: x in r.entries ==> 0 <= x.fluffedAt <= t
  }

  lemma StepFluffedBy(s: State, ev: Event, t: int)
    requires FluffedBy(s.relay, t) && t >= 0
    requires ev.EndDraw? || ev.now >= t
    ensures FluffedBy(Step(s, ev).relay, if ev.EndDraw? then t else ev.now)
  {
    hide Prune, MarkOverdue, WithEntry, PositionIn;
    var es := s.relay.entries;
    match ev
    case Note(h, _, now, jitter) =>
      WithEntryFrom(es, h, now, jitter, t);
    case Choose(h, _, now, jitter) =>
      WithEntryFrom(es, h, now, jitter, t);
    case Sweep(now) =>
      forall x | x in Step(s, ev).relay.entries
        ensures 0 <= x.fluffedAt <= now
      {
        var k := SurvivorFrom(es, now, x);
        assert es[k] in es;
      }
    case BeginDraw(_) =>
    case EndDraw(_) =>
  }

  lemma WithEntryFrom(es: seq<Entry>, h: Hash, now: int, jitter: nat, t: int)
    requires forall x :: x in es ==> 0 <= x.fluffedAt <= t
    requires t >= 0
    ensures forall x :: x in WithEntry(es, h, now, jitter) ==> 0 <= x.fluffedAt <= t
  {
    assert forall x :: x in WithEntry(es, h, now, jitter) ==> x in es || x == NewEntry(h, now, jitter);
  }

  /** Along a run the hashes stay distinct and no entry claims to have been fluffed in the future. */
  lemma {:induction false} RunSane(s: State, run: seq<Event>, start: int, end: int)
    requires DistinctEntries(s.relay.entries) && FluffedBy(s.relay, start) && start >= 0
    requires Clocked(run, start, end)
    ensures DistinctEntries(Run(s, run).relay.entries) && FluffedBy(Run(s, run).relay, end)
    decreases |run|
  {
    if |run| > 0 {
      StepDistinct(s, run[0]);
      StepFluffedBy(s, run[0], start);
      RunSane(Step(s, run[0]), run[1..], if run[0].EndDraw? then start else run[0].now, end);
    }
  }

  /**
   From start-up: a hash that is decided to be fluffed at time `t` for the
   first time is decided the same way at every time up to `t + 300`.
   */
  lemma FirstFluffLasts(before: seq<Event>, h: Hash, target: Option<Endpoint>, t: int, jitter: nat,
                        after: seq<Event>, t': int, target': Option<Endpoint>, jitter': nat)
    requires Clocked(before, 1, t)
    requires var s := Run(INIT, before);
             && (forall x :: x in s.relay.entries && x.hash == h ==> x.fluffedAt == 0)
             && Decide(s.relay, h, target, t, jitter).1 == Fluff
    requires Clocked(after, t, t') && t' <= t + PRUNE_AGE_SECONDS
    ensures Decide(Run(Step(Run(INIT, before), Choose(h, target, t, jitter)), after).relay, h, target', t', jitter').1
            == Fluff
  {
    var s := Run(INIT, before);
    RunSane(INIT, before, 1, t);
    var e := FluffRecorded(s.relay, h, target, t, jitter);
    FluffPersists(Step(s, Choose(h, target, t, jitter)), after, e, t, t', target', jitter');
  }

  // ----------------------------------------------------- plain inv is never stemmed

  /** The entry of the hash is there after every step of the run. */
  ghost predicate Lives(s: State, run: seq<Event>, h: Hash)
    decreases |run|
  {
    h in Hashes(s.relay.entries) && (|run| > 0 ==> Lives(Step(s, run[0]), run[1..], h))
  }

  ghost predicate Plain(r: Relay, h: Hash) {
    DistinctEntries(r.entries) && forall e :: e in r.entries && e.hash == h ==> e.plainInv
  }

  lemma NotingMakesPlain(s: State, h: Hash, now: int, jitter: nat)
    requires DistinctEntries(s.relay.entries)
    ensures var s' := Step(s, Note(h, false, now, jitter));
            Plain(s'.relay, h) && h in Hashes(s'.relay.entries)
  {
    StepDistinct(s, Note(h, false, now, jitter));
    var es := Step(s, Note(h, false, now, jitter)).relay.entries;
    var i := PositionIn(s.relay.entries, h, now, jitter);
    assert Hashes(es)[i] == h;
    forall e | e in es && e.hash == h
      ensures e.plainInv
    {
      var k :| 0 <= k < |es| && es[k] == e;
      assert k == i;
    }
  }

  /** Noting and deciding change entries in place: hashes stay where they are, the flag is never cleared. */
  lemma InPlace(s: State, ev: Event, i: nat)
    requires (ev.Note? || ev.Choose?) && i < |s.relay.entries|
    ensures var es, es' := s.relay.entries, Step(s, ev).relay.entries;
            i < |es'| && es'[i].hash == es[i].hash && (es[i].plainInv ==> es'[i].plainInv)
  {
  }

  lemma SweepKeepsPlain(s: State, now: int, h: Hash)
    requires Plain(s.relay, h)
    ensures forall e :: e in Step(s, Sweep(now)).relay.entries && e.hash == h ==> e.plainInv
  {
    var es := s.relay.entries;
    var marked := MarkOverdue(es, now, MAX_EXPIRE_PER_CALL);
    MarkSameHashes(es, now, MAX_EXPIRE_PER_CALL);
    PruneMembers(marked, now);
    hide MarkOverdue, Prune;
    forall e | e in Prune(marked, now) && e.hash == h
      ensures e.plainInv
    {
      var k :| 0 <= k < |marked| && marked[k] == e;
      assert es[k] in es;
    }
  }

  lemma StepKeepsPlain(s: State, ev: Event, h: Hash)
    requires Plain(s.relay, h) && h in Hashes(s.relay.entries)
    ensures Plain(Step(s, ev).relay, h)
  {
    StepDistinct(s, ev);
    var es := s.relay.entries;
    if ev.Sweep? {
      SweepKeepsPlain(s, ev.now, h);
    } else if ev.Note? || ev.Choose? {
      var i := Scan(Hashes(es), h);
      assert es[i] in es;
      InPlace(s, ev, i);
      hide *;
      OnlyEntry(Step(s, ev).relay, i, h);
    }
  }

  lemma OnlyEntry(r: Relay, i: nat, h: Hash)
    requires DistinctEntries(r.entries) && i < |r.entries| && r.entries[i].hash == h && r.entries[i].plainInv
    ensures Plain(r, h)
  {
    forall e | e in r.entries && e.hash == h
      ensures e == r.entries[i]
    {
      var k :| 0 <= k < |r.entries| && r.entries[k] == e;
    }
  }

  lemma {:induction false} RunKeepsPlain(s: State, run: seq<Event>, h: Hash)
    requires Plain(s.relay, h) && Lives(s, run, h)
    ensures Plain(Run(s, run).relay, h) && h in Hashes(Run(s, run).relay.entries)
    decreases |run|
  {
    if |run| > 0 {
      StepKeepsPlain(s, run[0], h);
      RunKeepsPlain(Step(s, run[0]), run[1..], h);
    }
  }

  /** A hash noted from a plain inv is never stemmed while its entry lives. */
  lemma PlainNeverStemmed(s: State, h: Hash, noted: int, jitter: nat, run: seq<Event>,
                          target: Option<Endpoint>, t: int, jitter': nat)
    requires DistinctEntries(s.relay.entries)
    requires Lives(Step(s, Note(h, false, noted, jitter)), run, h)
    ensures Decide(Run(Step(s, Note(h, false, noted, jitter)), run).relay, h, target, t, jitter').1 == Fluff
  {
    var s' := Step(s, Note(h, false, noted, jitter));
    NotingMakesPlain(s, h, noted, jitter);
    RunKeepsPlain(s', run, h);
    var es := Run(s', run).relay.entries;
    var i := Scan(Hashes(es), h);
    assert es[i] in es;
  }

  // ------------------------------------------------------------ the successor

  /** A stem is only ever answered for the current successor. */
  lemma StemOnlySuccessor(r: Relay, h: Hash, target: Option<Endpoint>, now: int, jitter: nat)
    requires Decide(r, h, target, now, jitter).1 == Stem
    ensures r.hasStem && target == Some(r.stem)
  {
  }

  /** The times at which a run starts an epoch. */
  function Epochs(s: State, run: seq<Event>): seq<int>
    decreases |run|
  {
    if |run| == 0 then []
    else
      var rest := Epochs(Step(s, run[0]), run[1..]);
      if run[0].BeginDraw? && !s.drawing && ReshuffleDue(s.relay, run[0].now) then [run[0].now] + rest else rest
  }

  /** The endpoints that are answered with a stem, in order. */
  function Stemmed(s: State, run: seq<Event>): seq<Endpoint>
    decreases |run|
  {
    if |run| == 0 then []
    else
      var rest := Stemmed(Step(s, run[0]), run[1..]);
      if run[0].Choose? && run[0].target.Some?
         && Decide(s.relay, run[0].h, run[0].target, run[0].now, run[0].jitter).1 == Stem
      then [run[0].target.value] + rest else rest
  }

  /** How often a list of endpoints, after `prev`, moves to another one. */
  function Switches(prev: Endpoint, ts: seq<Endpoint>): nat
    decreases |ts|
  {
    if |ts| == 0 then 0 else (if ts[0] == prev then 0 else 1) + Switches(ts[0], ts[1..])
  }

  lemma OneMoreSwitch(a: Endpoint, b: Endpoint, ts: seq<Endpoint>)
    ensures Switches(a, ts) <= Switches(b, ts) + 1
  {
  }

  /** Stems go to the current successor only, so they move to another endpoint only when it changes. */
  lemma {:induction false} StemsFollow(s: State, run: seq<Event>)
    ensures Switches(s.relay.stem, Stemmed(s, run)) <= Changes(s, run)
    decreases |run|
  {
    if |run| > 0 {
      var s' := Step(s, run[0]);
      StemsFollow(s', run[1..]);
      var rest := Stemmed(s', run[1..]);
      OneMoreSwitch(s.relay.stem, s'.relay.stem, rest);
      if Stemmed(s, run) != rest {
        var e := run[0];
        StemOnlySuccessor(s.relay, e.h, e.target, e.now, e.jitter);
        assert ([e.target.value] + rest)[1..] == rest;
      }
    }
  }

  /** How often a run changes the successor. */
  function Changes(s: State, run: seq<Event>): nat
    decreases |run|
  {
    if |run| == 0 then 0
    else
      var s' := Step(s, run[0]);
      Changes(s', run[1..])
      + if s'.relay.hasStem == s.relay.hasStem && s'.relay.stem == s.relay.stem then 0 else 1
  }

  lemma {:induction false} EpochsApart(s: State, run: seq<Event>, start: int, end: int)
    requires Clocked(run, start, end) && start > 0 && s.relay.epochStarted >= 0
    ensures forall i :: 0 <= i < |Epochs(s, run)| ==> Epochs(s, run)[i] > 0
    ensures s.relay.epochStarted > 0 && |Epochs(s, run)| > 0 ==>
              Epochs(s, run)[0] >= s.relay.epochStarted + EPOCH_SECONDS
    ensures forall i :: 0 < i < |Epochs(s, run)| ==> Epochs(s, run)[i] >= Epochs(s, run)[i - 1] + EPOCH_SECONDS
    decreases |run|
  {
    if |run| > 0 {
      ClockedBound(run, start, end);
      EpochsApart(Step(s, run[0]), run[1..], if run[0].EndDraw? then start else run[0].now, end);
    }
  }

  lemma {:induction false} ChangesBounded(s: State, run: seq<Event>)
    ensures Changes(s, run) <= |Epochs(s, run)| + if s.drawing then 1 else 0
    decreases |run|
  {
    if |run| > 0 {
      ChangesBounded(Step(s, run[0]), run[1..]);
    }
  }

  /**
   Epochs start at least 600 seconds apart and each changes the successor at most once, so
   a stretch of time contains at most one change per epoch begun in it; and the endpoints
   that are answered with a stem change no more often than the successor.
   */
  lemma SuccessorPerEpoch(s: State, run: seq<Event>, start: int, end: int)
    requires Clocked(run, start, end) && start > 0 && s.relay.epochStarted >= 0 && !s.drawing
    ensures Changes(s, run) <= |Epochs(s, run)|
    ensures forall i, j :: 0 <= i <= j < |Epochs(s, run)| ==>
              Epochs(s, run)[j] - Epochs(s, run)[i] >= EPOCH_SECONDS * (j - i)
    ensures Changes(s, run) > 1 ==> end - start >= EPOCH_SECONDS * (Changes(s, run) - 1)
    ensures Switches(s.relay.stem, Stemmed(s, run)) <= Changes(s, run)
  {
    StemsFollow(s, run);
    hide Stemmed, Switches;
    ChangesBounded(s, run);
    EpochsApart(s, run, start, end);
    var es := Epochs(s, run);
    forall i, j | 0 <= i <= j < |es|
      ensures es[j] - es[i] >= EPOCH_SECONDS * (j - i)
    {
      Spread(es, i, j);
    }
    EpochsWithin(s, run, start, end);
    if Changes(s, run) > 1 {
      Spread(es, 0, |es| - 1);
    }
  }

  lemma {:induction false} Spread(es: seq<int>, i: nat, j: nat)
    requires i <= j < |es|
    requires forall k :: 0 < k < |es| ==> es[k] >= es[k - 1] + EPOCH_SECONDS
    ensures es[j] - es[i] >= EPOCH_SECONDS * (j - i)
    decreases j
  {
    if i < j { Spread(es, i, j - 1); }
  }

  lemma {:induction false} EpochsWithin(s: State, run: seq<Event>, start: int, end: int)
    requires Clocked(run, start, end)
    ensures forall i :: 0 <= i < |Epochs(s, run)| ==> start <= Epochs(s, run)[i] <= end
    decreases |run|
  {
    if |run| > 0 {
      ClockedBound(run, start, end);
      EpochsWithin(Step(s, run[0]), run[1..], if run[0].EndDraw? then start else run[0].now, end);
    }
  }

  // ------------------------------------------------------------------ sweeps

  function OverdueCount(es: seq<Entry>, now: int): nat {
    if |es| == 0 then 0 else (if Overdue(es[0], now) then 1 else 0) + OverdueCount(es[1..], now)
  }

  lemma {:induction false} MarkCounts(es: seq<Entry>, now: int, budget: nat)
    requires now > 0
    ensures |MarkedHashes(es, now, budget)| == Min(budget, OverdueCount(es, now))
    ensures OverdueCount(MarkOverdue(es, now, budget), now) ==
            OverdueCount(es, now) - Min(budget, OverdueCount(es, now))
    decreases |es|
  {
    if |es| > 0 && budget > 0 {
      MarkCounts(es[1..], now, if Overdue(es[0], now) then budget - 1 else budget);
      MarkHead(es, now, budget);
      assert MarkOverdue(es, now, budget)[1..] ==
             MarkOverdue(es[1..], now, if Overdue(es[0], now) then budget - 1 else budget);
    }
  }

  /**
   A sweep marks an entry exactly when it is overdue and fewer than `budget` overdue ones stand
   before it, and hands its hash out at that place.
   */
  lemma {:induction false} MarkExact(es: seq<Entry>, now: int, budget: nat, i: nat)
    requires now > 0 && i < |es|
    ensures |MarkOverdue(es, now, budget)| == |es|
    ensures var before := OverdueCount(es[..i], now);
            var marked := Overdue(es[i], now) && before < budget;
            && MarkOverdue(es, now, budget)[i] == (if marked then es[i].(fluffedAt := now) else es[i])
            && (marked ==> before < |MarkedHashes(es, now, budget)|
                           && MarkedHashes(es, now, budget)[before] == es[i].hash)
    decreases |es|
  {
    MarkSameHashes(es, now, budget);
    if budget == 0 {
      MarkDone(es, now, budget);
    } else {
      MarkHead(es, now, budget);
      MarkSameHashes(es[1..], now, if Overdue(es[0], now) then budget - 1 else budget);
      if i == 0 {
        assert es[..0] == [];
      } else {
        MarkExact(es[1..], now, if Overdue(es[0], now) then budget - 1 else budget, i - 1);
        assert es[..i][1..] == es[1..][..i - 1] && es[..i][0] == es[0];
        hide MarkOverdue, MarkedHashes;
      }
    }
  }

  /** The hashes on hand are announced in their order: each behind those on hand before it. */
  lemma {:induction false} HeldPlaces(hashes: seq<Hash>, pool: Option<set<Hash>>, i: nat)
    requires i < |hashes| && pool.Some? && hashes[i] in pool.value
    ensures |HeldIn(hashes[..i], pool)| < |HeldIn(hashes, pool)|
    ensures HeldIn(hashes, pool)[|HeldIn(hashes[..i], pool)|] == hashes[i]
  {
    if i > 0 {
      HeldPlaces(hashes[1..], pool, i - 1);
      assert hashes[..i][1..] == hashes[1..][..i - 1];
    } else {
      assert hashes[..0] == [];
    }
  }

  /** How many of the entries a prune keeps. */
  function Kept(es: seq<Entry>, now: int): nat {
    if |es| == 0 then 0 else (if Stale(es[0], now) then 0 else 1) + Kept(es[1..], now)
  }

  /** Pruning keeps the entries that are not stale, each at its place among them. */
  lemma {:induction false} PruneExact(es: seq<Entry>, now: int, i: nat)
    requires i < |es|
    ensures |Prune(es, now)| == Kept(es, now)
    ensures !Stale(es[i], now) ==>
              Kept(es[..i], now) < |Prune(es, now)| && Prune(es, now)[Kept(es[..i], now)] == es[i]
  {
    if i == 0 {
      assert es[..0] == [];
      if |es| > 1 {
        PruneExact(es[1..], now, 0);
      }
    } else {
      PruneExact(es[1..], now, i - 1);
      assert es[..i][1..] == es[1..][..i - 1] && es[..i][0] == es[0];
    }
  }

  lemma {:induction false} PruneKeepsOverdue(es: seq<Entry>, now: int)
    ensures OverdueCount(Prune(es, now), now) == OverdueCount(es, now)
  {
    if |es| > 0 {
      PruneKeepsOverdue(es[1..], now);
      if !Stale(es[0], now) {
        assert Prune(es, now)[1..] == Prune(es[1..], now);
      }
    }
  }

  /**
   One sweep: exactly the first min(64, overdue) overdue entries leave the stem
   phase, their hashes are returned, and only entries fluffed more than 300
   seconds ago disappear.
   */
  lemma SweepMoves(s: State, now: int)
    requires now > 0
    ensures var n := OverdueCount(s.relay.entries, now);
            && |MarkedHashes(s.relay.entries, now, MAX_EXPIRE_PER_CALL)| == Min(MAX_EXPIRE_PER_CALL, n)
            && OverdueCount(Step(s, Sweep(now)).relay.entries, now) == n - Min(MAX_EXPIRE_PER_CALL, n)
    ensures forall e :: e in s.relay.entries && !Overdue(e, now) ==>
              (e in Step(s, Sweep(now)).relay.entries <==> !Stale(e, now))
  {
    hide MarkOverdue, MarkedHashes, OverdueCount;
    var es := s.relay.entries;
    var marked := MarkOverdue(es, now, MAX_EXPIRE_PER_CALL);
    MarkCounts(es, now, MAX_EXPIRE_PER_CALL);
    PruneKeepsOverdue(marked, now);
    PruneMembers(marked, now);
    MarkSameHashes(es, now, MAX_EXPIRE_PER_CALL);
    forall e | e in es && !Overdue(e, now)
      ensures e in marked
    {
      var k :| 0 <= k < |es| && es[k] == e;
      assert marked[k] == e;
    }
  }

  function Sweeps(s: State, times: seq<int>): State
    decreases |times|
  {
    if |times| == 0 then s else Sweeps(Step(s, Sweep(times[0])), times[1..])
  }

  ghost predicate Rising(times: seq<int>) {
    forall i, j :: 0 <= i < j < |times| ==> times[i] <= times[j]
  }

  /** No entry that is still stemming becomes overdue between the two times. */
  ghost predicate NoNewcomers(es: seq<Entry>, from: int, to: int) {
    forall e :: e in es && Overdue(e, to) ==> Overdue(e, from)
  }

  lemma {:induction false} SameOverdue(es: seq<Entry>, a: int, b: int)
    requires a <= b && NoNewcomers(es, a, b)
    ensures OverdueCount(es, a) == OverdueCount(es, b)
  {
    if |es| > 0 {
      assert es[0] in es;
      assert forall e :: e in es[1..] ==> e in es;
      SameOverdue(es[1..], a, b);
    }
  }

  lemma SweepAddsNoNewcomers(s: State, a: int, b: int)
    requires a > 0 && a <= b && NoNewcomers(s.relay.entries, a, b)
    ensures NoNewcomers(Step(s, Sweep(a)).relay.entries, a, b)
  {
    var es := s.relay.entries;
    var marked := MarkOverdue(es, a, MAX_EXPIRE_PER_CALL);
    MarkSameHashes(es, a, MAX_EXPIRE_PER_CALL);
    PruneMembers(marked, a);
    forall e | e in Prune(marked, a) && Overdue(e, b)
      ensures Overdue(e, a)
    {
      var k :| 0 <= k < |marked| && marked[k] == e;
      assert es[k] in es;
    }
  }

  /**
   A backlog that no newcomer joins shrinks by 64 per sweep until it is gone:
   it is drained after one sweep per 64 entries, rounded up.
   */
  lemma {:induction false} BacklogDrains(s: State, times: seq<int>, end: int)
    requires |times| > 0 && times[0] > 0 && Rising(times + [end])
    requires NoNewcomers(s.relay.entries, times[0], end)
    ensures OverdueCount(Sweeps(s, times).relay.entries, end) ==
            var n := OverdueCount(s.relay.entries, times[0]);
            n - Min(n, MAX_EXPIRE_PER_CALL * |times|)
    ensures MAX_EXPIRE_PER_CALL * |times| >= OverdueCount(s.relay.entries, times[0]) ==>
            OverdueCount(Sweeps(s, times).relay.entries, end) == 0
    decreases |times|
  {
    var t := times[0];
    var s' := Step(s, Sweep(t));
    assert t <= end by { assert (times + [end])[0] <= (times + [end])[|times|]; }
    SweepMoves(s, t);
    SweepAddsNoNewcomers(s, t, end);
    if |times| == 1 {
      SameOverdue(s'.relay.entries, t, end);
      assert Sweeps(s', times[1..]) == s';
    } else {
      var u := times[1];
      assert t <= u <= end by {
        assert (times + [end])[0] <= (times + [end])[1];
        assert (times + [end])[1] <= (times + [end])[|times|];
      }
      assert times[1..] + [end] == (times + [end])[1..];
      SameOverdue(s'.relay.entries, t, u);
      BacklogDrains(s', times[1..], end);
    }
  }
}
