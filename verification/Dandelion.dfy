/**
 The stem/fluff decisions of src/infra/dandelion.c: what each call does to the
 relay state, as a value (`Relay`), and the object with its entry array and its
 index that the source keeps, each method proved against that value.
 */
module Dandelion {
  import opened Numerals
  import opened DandelionIndex

  const EPOCH_SECONDS := 600
  const TIMEOUT_BASE_SECONDS := 10
  const PRUNE_AGE_SECONDS := 300
  const MAX_EXPIRE_PER_CALL := 64

  datatype Entry = Entry(hash: Hash, deadline: int, fluffedAt: int, plainInv: bool)

  datatype Endpoint = Endpoint(ip: string, port: int)

  datatype Mode = Fluff | Stem | Skip

  /** The state the source keeps, without its index. `epochStarted == 0` means no draw yet. */
  datatype Relay = Relay(entries: seq<Entry>, hasStem: bool, stem: Endpoint, epochStarted: int)

  function Hashes(entries: seq<Entry>): (hs: seq<Hash>)
    ensures |hs| == |entries| && forall i :: 0 <= i < |hs| ==> hs[i] == entries[i].hash
  {
    seq(|entries|, i requires 0 <= i < |entries| => entries[i].hash)
  }

  ghost predicate DistinctEntries(entries: seq<Entry>) {
    forall i, j :: 0 <= i < j < |entries| ==> entries[i].hash != entries[j].hash
  }

  // ---------------------------------------------------- the calls, as values

  /** A fresh entry; `jitter` is the truncated exponential delay. */
  function NewEntry(h: Hash, now: int, jitter: nat): Entry {
    Entry(h, now + TIMEOUT_BASE_SECONDS + jitter, 0, false)
  }

  /** The entries with `h` among them. */
  function WithEntry(entries: seq<Entry>, h: Hash, now: int, jitter: nat): seq<Entry> {
    if Scan(Hashes(entries), h) != EMPTY then entries else entries + [NewEntry(h, now, jitter)]
  }

  function PositionIn(entries: seq<Entry>, h: Hash, now: int, jitter: nat): (i: nat)
    ensures i < |WithEntry(entries, h, now, jitter)| && WithEntry(entries, h, now, jitter)[i].hash == h
  {
    var i := Scan(Hashes(entries), h);
    if i != EMPTY then i else |entries|
  }

  /** `bm_dandelion_note_source` */
  function NoteSource(r: Relay, h: Hash, isDinv: bool, now: int, jitter: nat): Relay {
    if isDinv then r else
    var es := WithEntry(r.entries, h, now, jitter);
    var i := PositionIn(r.entries, h, now, jitter);
    r.(entries := es[i := es[i].(plainInv := true)])
  }

  predicate MustFluff(r: Relay, e: Entry, now: int) {
    e.fluffedAt != 0 || now >= e.deadline || !r.hasStem || e.plainInv
  }

  /** `bm_dandelion_decide` */
  function Decide(r: Relay, h: Hash, target: Option<Endpoint>, now: int, jitter: nat): (Relay, Mode) {
    var es := WithEntry(r.entries, h, now, jitter);
    var i := PositionIn(r.entries, h, now, jitter);
    if MustFluff(r, es[i], now) then
      (r.(entries := if es[i].fluffedAt == 0 then es[i := es[i].(fluffedAt := now)] else es), Fluff)
    else
      (r.(entries := es), if target == Some(r.stem) then Stem else Skip)
  }

  predicate Overdue(e: Entry, now: int) {
    e.fluffedAt == 0 && now >= e.deadline
  }

  /** At most `budget` overdue entries, in array order, become fluffed. */
  function MarkOverdue(entries: seq<Entry>, now: int, budget: nat): seq<Entry> {
    if |entries| == 0 || budget == 0 then entries
    else if Overdue(entries[0], now) then
      [entries[0].(fluffedAt := now)] + MarkOverdue(entries[1..], now, budget - 1)
    else [entries[0]] + MarkOverdue(entries[1..], now, budget)
  }

  function MarkedHashes(entries: seq<Entry>, now: int, budget: nat): seq<Hash> {
    if |entries| == 0 || budget == 0 then []
    else if Overdue(entries[0], now) then [entries[0].hash] + MarkedHashes(entries[1..], now, budget - 1)
    else MarkedHashes(entries[1..], now, budget)
  }

  /** Replacing the first element of the unprocessed part moves it to the processed part. */
  lemma Advance<T>(front: seq<T>, rest: seq<T>, x: T)
    requires |rest| > 0
    ensures (front + rest)[|front| := x] == (front + [x]) + rest[1..]
    ensures rest[0] == x ==> front + rest == (front + [x]) + rest[1..]
  {
  }

  lemma MarkHead(es: seq<Entry>, now: int, budget: nat)
    requires |es| > 0 && budget > 0
    ensures MarkOverdue(es, now, budget) ==
            if Overdue(es[0], now) then [es[0].(fluffedAt := now)] + MarkOverdue(es[1..], now, budget - 1)
            else [es[0]] + MarkOverdue(es[1..], now, budget)
    ensures MarkedHashes(es, now, budget) ==
            if Overdue(es[0], now) then [es[0].hash] + MarkedHashes(es[1..], now, budget - 1)
            else MarkedHashes(es[1..], now, budget)
  {
  }

  lemma MarkDone(es: seq<Entry>, now: int, budget: nat)
    requires |es| == 0 || budget == 0
    ensures MarkOverdue(es, now, budget) == es && MarkedHashes(es, now, budget) == []
  {
  }

  /** Midway through a sweep: `front` is done, `rest` is not, and the hashes of `toFluff` were marked. */
  ghost predicate Marking(was: seq<Entry>, now: int, front: seq<Entry>, rest: seq<Entry>, toFluff: seq<Hash>) {
    && |toFluff| <= MAX_EXPIRE_PER_CALL
    && MarkOverdue(was, now, MAX_EXPIRE_PER_CALL) == front + MarkOverdue(rest, now, MAX_EXPIRE_PER_CALL - |toFluff|)
    && MarkedHashes(was, now, MAX_EXPIRE_PER_CALL) == toFluff + MarkedHashes(rest, now, MAX_EXPIRE_PER_CALL - |toFluff|)
  }

  lemma MarkingStarts(was: seq<Entry>, now: int)
    ensures Marking(was, now, [], was, [])
  {
    hide MarkOverdue, MarkedHashes;
    assert [] + MarkOverdue(was, now, MAX_EXPIRE_PER_CALL) == MarkOverdue(was, now, MAX_EXPIRE_PER_CALL);
    assert [] + MarkedHashes(was, now, MAX_EXPIRE_PER_CALL) == MarkedHashes(was, now, MAX_EXPIRE_PER_CALL);
  }

  lemma MarkingStep(was: seq<Entry>, now: int, front: seq<Entry>, rest: seq<Entry>, toFluff: seq<Hash>)
    requires Marking(was, now, front, rest, toFluff) && |rest| > 0 && |toFluff| < MAX_EXPIRE_PER_CALL
    ensures var e := rest[0];
            if Overdue(e, now) then Marking(was, now, front + [e.(fluffedAt := now)], rest[1..], toFluff + [e.hash])
            else Marking(was, now, front + [e], rest[1..], toFluff)
  {
    hide MarkOverdue, MarkedHashes, Overdue;
    var e, budget := rest[0], MAX_EXPIRE_PER_CALL - |toFluff|;
    MarkHead(rest, now, budget);
    if Overdue(e, now) {
      Assoc(front, [e.(fluffedAt := now)], MarkOverdue(rest[1..], now, budget - 1));
      Assoc(toFluff, [e.hash], MarkedHashes(rest[1..], now, budget - 1));
    } else {
      Assoc(front, [e], MarkOverdue(rest[1..], now, budget));
    }
  }

  lemma MarkingEnds(was: seq<Entry>, now: int, front: seq<Entry>, rest: seq<Entry>, toFluff: seq<Hash>)
    requires Marking(was, now, front, rest, toFluff) && (rest == [] || |toFluff| >= MAX_EXPIRE_PER_CALL)
    ensures MarkOverdue(was, now, MAX_EXPIRE_PER_CALL) == front + rest
    ensures MarkedHashes(was, now, MAX_EXPIRE_PER_CALL) == toFluff
  {
    hide MarkOverdue, MarkedHashes;
    MarkDone(rest, now, MAX_EXPIRE_PER_CALL - |toFluff|);
  }

  predicate Stale(e: Entry, now: int) {
    e.fluffedAt != 0 && now - e.fluffedAt > PRUNE_AGE_SECONDS
  }

  /** The entries that are not stale, in their old order. */
  function Prune(entries: seq<Entry>, now: int): seq<Entry> {
    if |entries| == 0 then []
    else if Stale(entries[0], now) then Prune(entries[1..], now)
    else [entries[0]] + Prune(entries[1..], now)
  }

  /** `bm_dandelion_expire_and_refluff` */
  function Expire(r: Relay, now: int): Relay {
    r.(entries := Prune(MarkOverdue(r.entries, now, MAX_EXPIRE_PER_CALL), now))
  }

  /** The first half of `bm_dandelion_maybe_reshuffle`: is a new draw due? */
  predicate ReshuffleDue(r: Relay, now: int) {
    r.epochStarted == 0 || now - r.epochStarted >= EPOCH_SECONDS
  }

  function StartEpoch(r: Relay, now: int): Relay {
    if ReshuffleDue(r, now) then r.(epochStarted := now) else r
  }

  /** The second half: the outcome of the draw. */
  function SetStem(r: Relay, found: Option<Endpoint>): Relay {
    if found.Some? then r.(hasStem := true, stem := found.value) else r.(hasStem := false)
  }

  // -------------------------------------------------------------- the object

  class RelayState {
    var entries: array<Entry>
    var entryCount: nat
    var slots: array<int>
    var hasStem: bool
    var stem: Endpoint
    var epochStarted: int

    ghost predicate Valid()
      reads this, entries, slots
    {
      && entryCount <= entries.Length
      && DistinctEntries(entries[..entryCount])
      && (slots.Length == 0 ==> entryCount == 0)
      && (slots.Length > 0 ==> Ok(slots[..], Hashes(entries[..entryCount])))
    }

    ghost function View(): Relay
      requires entryCount <= entries.Length
      reads this, entries
    {
      Relay(entries[..entryCount], hasStem, stem, epochStarted)
    }

    /** `bm_dandelion_module_init` */
    constructor ()
      ensures Valid() && fresh(entries) && fresh(slots)
      ensures View().entries == [] && !hasStem && epochStarted == 0
    {
      entries := new Entry[0];
      entryCount := 0;
      slots := new int[0];
      hasStem := false;
      stem := Endpoint("", 0);
      epochStarted := 0;
    }

    /** `index_lookup`: what a scan of the entries would return. */
    method IndexLookup(h: Hash) returns (r: int)
      requires Valid()
      ensures r == Scan(Hashes(View().entries), h)
    {
      r := Lookup(slots, Hashes(entries[..entryCount]), h);
    }

    /** `find_or_create_entry` */
    method FindOrCreate(h: Hash, now: int, jitter: nat) returns (i: nat)
      requires Valid()
      modifies this, entries, slots
      ensures Valid() && (entries == old(entries) || fresh(entries)) && (slots == old(slots) || fresh(slots))
      ensures View() == old(View()).(entries := WithEntry(old(View()).entries, h, now, jitter))
      ensures i == PositionIn(old(View()).entries, h, now, jitter)
    {
      hide Ok, DistinctEntries, Distinct;
      ghost var was := entries[..entryCount];
      var existing := IndexLookup(h);
      if existing != EMPTY {
        return existing;
      }
      if entryCount >= entries.Length {
        Grow();
      }
      i := entryCount;
      entries[i] := NewEntry(h, now, jitter);
      entryCount := entryCount + 1;
      assert entries[..entryCount] == was + [NewEntry(h, now, jitter)];
      AppendDistinct(was, NewEntry(h, now, jitter));
      var hashes := Hashes(entries[..entryCount]);
      assert hashes[..i] == Hashes(was);
      slots := AddLast(slots, hashes);
    }

    /** `realloc` of the entry array to twice its size. */
    method Grow()
      requires Valid() && entryCount == entries.Length
      modifies this`entries
      ensures fresh(entries) && entryCount < entries.Length
      ensures entries[..entryCount] == old(entries[..entryCount])
    {
      var cap := if entries.Length == 0 then 64 else entries.Length * 2;
      var filler := NewEntry(seq(32, _ => 0), 0, 0);
      var grown, source, n := new Entry[cap](_ => filler), entries, entryCount;
      for i := 0 to n
        invariant grown[..i] == source[..i]
      {
        grown[i] := source[i];
      }
      entries := grown;
    }

    method Note(h: Hash, isDinv: bool, now: int, jitter: nat)
      requires Valid()
      modifies this, entries, slots
      ensures Valid() && (entries == old(entries) || fresh(entries)) && (slots == old(slots) || fresh(slots))
      ensures View() == NoteSource(old(View()), h, isDinv, now, jitter)
    {
      if isDinv {
        return;
      }
      hide Ok, DistinctEntries;
      var i := FindOrCreate(h, now, jitter);
      Put(i, entries[i].(plainInv := true));
    }

    /** Overwrites one entry without touching its hash. */
    method Put(i: nat, e: Entry)
      requires Valid() && i < entryCount && e.hash == entries[i].hash
      modifies entries
      ensures Valid() && View() == old(View()).(entries := old(View()).entries[i := e])
    {
      ghost var was := entries[..entryCount];
      entries[i] := e;
      assert entries[..entryCount] == was[i := e];
      assert Hashes(was[i := e]) == Hashes(was);
    }

    method Choose(h: Hash, target: Option<Endpoint>, now: int, jitter: nat) returns (mode: Mode)
      requires Valid()
      modifies this, entries, slots
      ensures Valid() && (entries == old(entries) || fresh(entries)) && (slots == old(slots) || fresh(slots))
      ensures (View(), mode) == Decide(old(View()), h, target, now, jitter)
    {
      hide Ok, DistinctEntries;
      var i := FindOrCreate(h, now, jitter);
      var e := entries[i];
      if e.fluffedAt != 0 || now >= e.deadline || !hasStem || e.plainInv {
        if e.fluffedAt == 0 {
          Put(i, e.(fluffedAt := now));
        }
        return Fluff;
      }
      mode := Skip;
      if target.Some? {
        if target.value.port == stem.port && target.value.ip == stem.ip {
          mode := Stem;
        }
      }
    }

    /** `bm_dandelion_maybe_reshuffle` up to the point where it leaves the lock. */
    method BeginReshuffle(now: int) returns (due: bool)
      requires Valid()
      modifies this`epochStarted
      ensures Valid() && due == ReshuffleDue(old(View()), now) && View() == StartEpoch(old(View()), now)
    {
      if epochStarted != 0 && now - epochStarted < EPOCH_SECONDS {
        return false;
      }
      epochStarted := now;
      due := true;
    }

    /** The rest of it, under the lock again, with the outcome of the draw. */
    method EndReshuffle(found: Option<Endpoint>)
      requires Valid()
      modifies this`hasStem, this`stem
      ensures Valid() && View() == SetStem(old(View()), found)
    {
      if found.Some? {
        stem := found.value;
        hasStem := true;
      } else {
        hasStem := false;
      }
    }

    /** One entry of the sweep: it is marked if it is overdue. */
    method MarkAt(i: nat, now: int, ghost front: seq<Entry>, ghost rest: seq<Entry>) returns (marked: bool)
      requires Valid() && i < entryCount && |front| == i && |rest| > 0 && View().entries == front + rest
      modifies entries
      ensures marked == Overdue(rest[0], now) && Valid() && entries[i].hash == rest[0].hash
      ensures View() ==
              old(View()).(entries := front + [if marked then rest[0].(fluffedAt := now) else rest[0]] + rest[1..])
    {
      hide Ok, DistinctEntries;
      var e := entries[i];
      assert e == View().entries[i] == rest[0];
      marked := e.fluffedAt == 0 && now >= e.deadline;
      Advance(front, rest, if marked then e.(fluffedAt := now) else e);
      if marked {
        Put(i, e.(fluffedAt := now));
      }
    }

    /** The first loop of `bm_dandelion_expire_and_refluff`. */
    method MarkLoop(now: int) returns (toFluff: seq<Hash>)
      requires Valid()
      modifies entries
      ensures Valid()
      ensures View() == old(View()).(entries := MarkOverdue(old(View()).entries, now, MAX_EXPIRE_PER_CALL))
      ensures toFluff == MarkedHashes(old(View()).entries, now, MAX_EXPIRE_PER_CALL)
    {
      hide Ok, DistinctEntries, Overdue, MarkOverdue, MarkedHashes, Marking;
      ghost var was, front := entries[..entryCount], [];
      ghost var rest := was;
      toFluff := [];
      var i := 0;
      MarkingStarts(was, now);
      while i < entryCount && |toFluff| < MAX_EXPIRE_PER_CALL
        invariant |front| == i && |front| + |rest| == entryCount
        invariant Valid() && View() == old(View()).(entries := front + rest)
        invariant Marking(was, now, front, rest, toFluff)
      {
        MarkingStep(was, now, front, rest, toFluff);
        var marked := MarkAt(i, now, front, rest);
        if marked {
          toFluff := toFluff + [entries[i].hash];
        }
        front, rest := front + [if marked then rest[0].(fluffedAt := now) else rest[0]], rest[1..];
        i := i + 1;
      }
      MarkingEnds(was, now, front, rest, toFluff);
    }

    /** `bm_dandelion_expire_and_refluff`; `pool` is the object store, or nothing if the caller has none. */
    method ExpireAndRefluff(pool: Option<set<Hash>>, now: int) returns (count: nat, broadcast: seq<Hash>)
      requires Valid()
      modifies this, entries
      ensures Valid() && entries == old(entries) && (slots == old(slots) || fresh(slots))
      ensures View() == Expire(old(View()), now)
      ensures count == |MarkedHashes(old(View()).entries, now, MAX_EXPIRE_PER_CALL)|
      ensures broadcast == HeldIn(MarkedHashes(old(View()).entries, now, MAX_EXPIRE_PER_CALL), pool)
    {
      hide Ok, MarkOverdue, MarkedHashes, Prune, HeldIn, DistinctEntries;
      var toFluff := MarkLoop(now);
      count := |toFluff|;
      PruneEntries(now);
      broadcast := Broadcast(toFluff, pool);
    }

    /** The second loop and the conditional rebuild. */
    method PruneEntries(now: int)
      requires Valid()
      modifies this, entries
      ensures Valid() && entries == old(entries) && (slots == old(slots) || fresh(slots))
      ensures View() == old(View()).(entries := Prune(old(View()).entries, now))
    {
      hide Indexes, Count;
      ghost var was := entries[..entryCount];
      var original := entryCount;
      var write := Compact(entries, entryCount, now);
      entryCount := write;
      PruneMembers(was, now);
      PruneDistinct(was, now);
      if write != original && slots.Length > 0 {
        assert |Hashes(entries[..entryCount])| < slots.Length;
        slots := Rebuild(Hashes(entries[..entryCount]), slots.Length);
      } else if slots.Length == 0 {
        assert was == [];
      }
    }

    /** `bm_dandelion_is_stemming`: creates nothing. */
    method IsStemming(h: Hash) returns (stemming: bool)
      requires Valid()
      ensures stemming <==> exists e :: e in View().entries && e.hash == h && e.fluffedAt == 0
    {
      hide Ok;
      var idx := IndexLookup(h);
      stemming := idx != EMPTY && entries[idx].fluffedAt == 0;
      ghost var es := View().entries;
      if idx != EMPTY {
        assert es[idx] in es;
      }
      forall e | e in es && e.hash == h
        ensures idx != EMPTY && e == es[idx]
      {
        var k :| 0 <= k < |es| && es[k] == e;
        assert Hashes(es)[k] == h;
      }
    }
  }

  /** The hashes of a list that the object pool holds; none without a pool. */
  function HeldIn(hashes: seq<Hash>, pool: Option<set<Hash>>): (r: seq<Hash>)
    ensures forall h :: h in r <==> h in hashes && pool.Some? && h in pool.value
  {
    if |hashes| == 0 then []
    else if pool.Some? && hashes[0] in pool.value then [hashes[0]] + HeldIn(hashes[1..], pool)
    else HeldIn(hashes[1..], pool)
  }

  /** The last loop of the expiry: announces only what is held. */
  method Broadcast(toFluff: seq<Hash>, pool: Option<set<Hash>>) returns (sent: seq<Hash>)
    ensures sent == HeldIn(toFluff, pool)
  {
    sent := [];
    assert toFluff[0..] == toFluff;
    for i := 0 to |toFluff|
      invariant HeldIn(toFluff, pool) == sent + HeldIn(toFluff[i..], pool)
    {
      assert toFluff[i..][1..] == toFluff[i + 1..];
      if pool.None? || toFluff[i] !in pool.value {
        continue;
      }
      Assoc(sent, [toFluff[i]], HeldIn(toFluff[i + 1..], pool));
      sent := sent + [toFluff[i]];
    }
  }

  /** Compaction in place: reads run ahead of writes. */
  method Compact(entries: array<Entry>, n: nat, now: int) returns (write: nat)
    requires n <= entries.Length
    modifies entries
    ensures write <= n && entries[..write] == Prune(old(entries[..n]), now)
  {
    hide Prune, Stale;
    ghost var was := entries[..n];
    assert was[0..] == was;
    write := 0;
    for i := 0 to n
      invariant write <= i && entries[i..n] == was[i..]
      invariant Prune(was, now) == entries[..write] + Prune(was[i..], now)
    {
      var e := entries[i];
      assert e == entries[i..n][0] && entries[i + 1..n] == entries[i..n][1..];
      assert was[i..][0] == e && was[i..][1..] == was[i + 1..];
      PruneHead(was[i..], now);
      if Stale(e, now) {
        continue;
      }
      ghost var front := entries[..write];
      Assoc(front, [e], Prune(was[i + 1..], now));
      if write != i {
        entries[write] := entries[i];
      }
      write := write + 1;
      assert entries[..write] == front + [e];
    }
    PruneNothing(now);
  }

  lemma PruneHead(es: seq<Entry>, now: int)
    requires |es| > 0
    ensures Prune(es, now) == if Stale(es[0], now) then Prune(es[1..], now) else [es[0]] + Prune(es[1..], now)
  {
  }

  lemma PruneNothing(now: int)
    ensures Prune([], now) == []
  {
  }

  /** Pruning keeps exactly the entries that are not stale and leaves a list it does not shorten as it was. */
  lemma {:induction false} PruneMembers(es: seq<Entry>, now: int)
    ensures |Prune(es, now)| <= |es| && (|Prune(es, now)| == |es| ==> Prune(es, now) == es)
    ensures forall e :: e in Prune(es, now) <==> e in es && !Stale(e, now)
  {
    if |es| > 0 {
      PruneMembers(es[1..], now);
      assert es == [es[0]] + es[1..];
    }
  }

  lemma {:induction false} PruneDistinct(es: seq<Entry>, now: int)
    requires DistinctEntries(es)
    ensures DistinctEntries(Prune(es, now))
  {
    if |es| > 0 {
      var p := Prune(es[1..], now);
      PruneDistinct(es[1..], now);
      PruneMembers(es[1..], now);
      forall k | 0 <= k < |p|
        ensures p[k].hash != es[0].hash
      {
        assert p[k] in p;
        assert p[k] in es[1..];
      }
    }
  }

  lemma AppendDistinct(es: seq<Entry>, e: Entry)
    requires DistinctEntries(es) && e.hash !in Hashes(es)
    ensures DistinctEntries(es + [e]) && Distinct(Hashes(es + [e]))
  {
    assert forall i :: 0 <= i < |es| ==> es[i].hash == Hashes(es)[i];
  }
}
