/**
 The backlog of requested objects of src/infra/object_sync.c: a window
 (`head`, `count`) over a growing array, filled by `getdata` messages and taken
 from the front while the connection's send queue is short.
 */
module Uploads {
  import opened Numerals
  import opened SendQueue
  import DandelionIndex
  import Inventory
  import C = Connection

  type Hash = DandelionIndex.Hash

  const MAX_INVENTORY_ITEMS := 50_000
  const REFILL_THRESHOLD := 2 * 1024 * 1024

  /** What became of a hash taken from the backlog. */
  datatype Fate = Sent | NotFound | Refused
  datatype Taken = Taken(hash: Hash, fate: Fate)

  /** How the socket and `epoll_ctl` behave during one send. */
  datatype Io = Io(script: seq<Answer>, ctlOk: bool)

  /**
   One connection's uploads: the backlog, the two counters, every hash ever
   taken with its fate, and every hash ever accepted.
   */
  datatype State = State(conn: Conn, pending: seq<Hash>, sent: nat, notFound: nat,
                         log: seq<Taken>, accepted: seq<Hash>)

  // ------------------------------------------------------- the calls, as values

  /** May another object be queued now? */
  predicate Hungry(u: State) {
    u.pending != [] && !u.conn.evict && |Flat(u.conn.queue)| < REFILL_THRESHOLD
  }

  /** One turn of the refill loop; `pool` holds the packet of every object on hand. */
  function TakeNext(u: State, pool: map<Hash, seq<byte>>, now: int, io: Io): State
    requires u.pending != []
  {
    var h, rest := u.pending[0], u.pending[1..];
    if h !in pool then
      u.(pending := rest, notFound := u.notFound + 1, log := u.log + [Taken(h, NotFound)])
    else Offer(u.(pending := rest), h, pool[h], now, io)
  }

  /** Sends one object's packet; a refusal empties the backlog. */
  function Offer(u: State, h: Hash, packet: seq<byte>, now: int, io: Io): State {
    var (c, ok) := Send(u.conn, packet, now, io.script, io.ctlOk);
    if ok then u.(conn := c, sent := u.sent + 1, log := u.log + [Taken(h, Sent)])
    else u.(conn := c, pending := [], log := u.log + [Taken(h, Refused)])
  }

  function Loop(u: State, pool: map<Hash, seq<byte>>, now: int, io: nat -> Io, k: nat): State
    decreases |u.pending|
  {
    if Hungry(u) then Loop(TakeNext(u, pool, now, io(k)), pool, now, io, k + 1) else u
  }

  /** An emptied backlog resets the counters. */
  function Settle(u: State): State {
    if u.pending == [] then u.(sent := 0, notFound := 0) else u
  }

  /** `bm_object_sync_refill_uploads` */
  function Refill(u: State, pool: map<Hash, seq<byte>>, now: int, io: nat -> Io): State {
    if u.pending == [] then u else Settle(Loop(u, pool, now, io, 0))
  }

  /** How many of `n` requested hashes still fit. */
  function Room(pending: nat, n: nat): nat {
    var room := if pending < MAX_INVENTORY_ITEMS then MAX_INVENTORY_ITEMS - pending else 0;
    if n < room then n else room
  }

  function Accept(u: State, items: seq<Hash>): State {
    u.(pending := u.pending + items[..Room(|u.pending|, |items|)],
       accepted := u.accepted + items[..Room(|u.pending|, |items|)])
  }

  /** `handle_getdata`: a malformed message, or one with too many hashes, is ignored. */
  function Getdata(u: State, payload: seq<byte>, pool: map<Hash, seq<byte>>, now: int, io: nat -> Io): State {
    var items := Inventory.Items(payload);
    if items.None? || |items.value| > MAX_INVENTORY_ITEMS then u else Refill(Accept(u, items.value), pool, now, io)
  }

  // --------------------------------------------------------------- invariant

  function Hashes(log: seq<Taken>): seq<Hash> {
    if |log| == 0 then [] else Hashes(log[..|log| - 1]) + [log[|log| - 1].hash]
  }

  /** What a taken hash puts on the send queue. */
  function Packet(t: Taken, pool: map<Hash, seq<byte>>): seq<byte> {
    if t.fate.Sent? && t.hash in pool then pool[t.hash] else []
  }

  function Packets(log: seq<Taken>, pool: map<Hash, seq<byte>>): seq<byte> {
    if |log| == 0 then [] else Packet(log[0], pool) + Packets(log[1..], pool)
  }

  /**
   Accepted hashes are taken in order, each once: what was taken is a prefix of
   what was accepted, and while the connection lives the rest is pending.
   */
  ghost predicate Good(u: State) {
    && Sound(u.conn) && |u.pending| <= MAX_INVENTORY_ITEMS
    && Hashes(u.log) <= u.accepted
    && (!u.conn.evict ==> Hashes(u.log) + u.pending == u.accepted)
  }

  lemma HashesSnoc(log: seq<Taken>, t: Taken)
    ensures Hashes(log + [t]) == Hashes(log) + [t.hash]
  {
    assert (log + [t])[..|log|] == log;
  }

  lemma FrontSplits(a: seq<Hash>, p: seq<Hash>)
    requires p != []
    ensures a + [p[0]] + p[1..] == a + p
  {
  }

  lemma SendKeeps(c: Conn, data: seq<byte>, now: int, io: Io)
    requires Sound(c)
    ensures var (c', ok) := Send(c, data, now, io.script, io.ctlOk);
            && Sound(c') && (ok ==> c'.evict == c.evict && c'.enqueued == c.enqueued + data)
            && (!ok ==> c'.evict)
            && |Flat(c'.queue)| <= |Flat(c.queue)| + |data|
  {
    var e := SendCall(data, now, io.script, io.ctlOk);
    StepSound(c, e);
    hide Flat, Flush, Sound;
    if 0 < |data| && |Flat(c.queue)| + |data| <= HARD_LIMIT {
      EnqueueSound(c, data, now);
      QueueShrinks(Enqueue(c, data, now), now, io);
    }
  }

  lemma QueueShrinks(c: Conn, now: int, io: Io)
    requires Sound(c)
    ensures var c' := Flush(c, now, io.script, io.ctlOk).0;
            c'.evict == c.evict && |Flat(c'.queue)| <= |Flat(c.queue)|
  {
    var w := FlushMoves(c, now, io.script, io.ctlOk);
  }

  /** A taken hash is marked as not found exactly when the pool lacks it, and refused exactly on a dying connection. */
  ghost predicate Honest(t: Taken, pool: map<Hash, seq<byte>>, evicted: bool) {
    && (t.fate.NotFound? <==> t.hash !in pool)
    && (t.fate.Refused? ==> evicted)
  }

  /** One turn keeps the order of the backlog, and what it sends is the object's packet. */
  lemma TakeNextGood(u: State, pool: map<Hash, seq<byte>>, now: int, io: Io) returns (t: Taken)
    requires Good(u) && Hungry(u)
    ensures var v := TakeNext(u, pool, now, io);
            && Good(v) && v.accepted == u.accepted && v.log == u.log + [t]
            && t.hash == u.pending[0] && Honest(t, pool, v.conn.evict)
            && (!v.conn.evict ==> v.conn.enqueued == u.conn.enqueued + Packet(t, pool))
  {
    hide Hashes, Sound, Flat, Send;
    var h := u.pending[0];
    var v := TakeNext(u, pool, now, io);
    t := v.log[|u.log|];
    FrontSplits(Hashes(u.log), u.pending);
    HashesSnoc(u.log, t);
    if h in pool {
      SendKeeps(u.conn, pool[h], now, io);
    }
  }

  /**
   A refill takes hashes from the front, in order, and queues exactly the packets
   of those the pool has; it stops when the backlog is empty, the send queue is
   long enough, or the connection is being evicted.
   */
  lemma {:induction false} LoopGood(u: State, pool: map<Hash, seq<byte>>, now: int, io: nat -> Io, k: nat)
    returns (taken: seq<Taken>)
    requires Good(u)
    ensures var v := Loop(u, pool, now, io, k);
            && Good(v) && !Hungry(v) && v.accepted == u.accepted && v.log == u.log + taken
            && (!v.conn.evict ==> v.conn.enqueued == u.conn.enqueued + Packets(taken, pool))
            && (forall i :: 0 <= i < |taken| ==> Honest(taken[i], pool, v.conn.evict))
            && (u.conn.evict ==> v == u)
    decreases |u.pending|
  {
    hide Sound, Flat, Good, TakeNext, Hashes;
    taken := [];
    if Hungry(u) {
      var u1 := TakeNext(u, pool, now, io(k));
      var t := TakeNextGood(u, pool, now, io(k));
      TakeNextShrinks(u, pool, now, io(k));
      var rest := LoopGood(u1, pool, now, io, k + 1);
      taken := [t] + rest;
      assert taken[1..] == rest;
      Assoc(u.conn.enqueued, Packet(t, pool), Packets(rest, pool));
      assert u.log + taken == u.log + [t] + rest;
    }
  }

  lemma TakeNextShrinks(u: State, pool: map<Hash, seq<byte>>, now: int, io: Io)
    requires u.pending != []
    ensures |TakeNext(u, pool, now, io).pending| < |u.pending|
  {
  }

  function Max(a: nat, b: nat): nat {
    if a < b then b else a
  }

  /** A refill never lifts the send queue above its prior size or the threshold plus one packet, whichever is larger. */
  lemma {:induction false} LoopBounded(u: State, pool: map<Hash, seq<byte>>, now: int, io: nat -> Io, k: nat, m: nat)
    requires Good(u) && forall h :: h in pool ==> |pool[h]| <= m
    ensures |Flat(Loop(u, pool, now, io, k).conn.queue)| <= Max(|Flat(u.conn.queue)|, REFILL_THRESHOLD - 1 + m)
    decreases |u.pending|
  {
    hide Sound, Flat, Send, Hashes;
    if Hungry(u) {
      var u1 := TakeNext(u, pool, now, io(k));
      var _ := TakeNextGood(u, pool, now, io(k));
      if u.pending[0] in pool {
        SendKeeps(u.conn, pool[u.pending[0]], now, io(k));
      }
      LoopBounded(u1, pool, now, io, k + 1, m);
    }
  }

  /**
   A refill from the front of the backlog: every hash taken is dealt with as the pool says, the packets
   of those on hand are queued in order, and it does not stop while there is a backlog, the send
   queue is short and the connection lives.
   */
  lemma RefillGood(u: State, pool: map<Hash, seq<byte>>, now: int, io: nat -> Io) returns (taken: seq<Taken>)
    requires Good(u)
    ensures var v := Refill(u, pool, now, io);
            && Good(v) && v.accepted == u.accepted && v.log == u.log + taken && (u.conn.evict ==> v.conn.evict)
            && (!v.conn.evict ==> v.conn.enqueued == u.conn.enqueued + Packets(taken, pool))
            && (forall i :: 0 <= i < |taken| ==> Honest(taken[i], pool, v.conn.evict))
            && (v.pending == [] || v.conn.evict || |Flat(v.conn.queue)| >= 2 * 1024 * 1024)
  {
    hide Sound, Hashes, Flat;
    taken := LoopGood(u, pool, now, io, 0);
    hide Loop;
    if u.pending == [] {
      NoneTaken(u, pool, now, io, taken);
    }
  }

  lemma NoneTaken(u: State, pool: map<Hash, seq<byte>>, now: int, io: nat -> Io, taken: seq<Taken>)
    requires u.pending == [] && Loop(u, pool, now, io, 0).log == u.log + taken
    ensures Loop(u, pool, now, io, 0) == u && taken == []
  {
    assert |u.log + taken| == |u.log|;
  }

  /**
   A malformed message or one over the limit is ignored. Otherwise as many of its hashes as keep the
   backlog at 50,000 join its end, in order.
   */
  lemma GetdataGood(u: State, payload: seq<byte>, pool: map<Hash, seq<byte>>, now: int, io: nat -> Io)
    returns (taken: seq<Taken>)
    requires Good(u)
    ensures var v := Getdata(u, payload, pool, now, io);
            var items := Inventory.Items(payload);
            && Good(v) && v.log == u.log + taken && (u.conn.evict ==> v.conn.evict)
            && (items.None? || |items.value| > 50_000 ==> v == u)
            && (items.Some? && |items.value| <= 50_000 ==>
                  && v.accepted == u.accepted + items.value[..Min(|items.value|, 50_000 - |u.pending|)]
                  && (!v.conn.evict ==> v.conn.enqueued == u.conn.enqueued + Packets(taken, pool))
                  && (forall i :: 0 <= i < |taken| ==> Honest(taken[i], pool, v.conn.evict))
                  && (v.pending == [] || v.conn.evict || |Flat(v.conn.queue)| >= 2 * 1024 * 1024))
  {
    hide Refill, Sound, Hashes, Packets, Flat;
    hide Inventory.Items;
    taken := [];
    if Inventory.Items(payload).Some? && |Inventory.Items(payload).value| <= MAX_INVENTORY_ITEMS {
      var items := Inventory.Items(payload).value;
      var more := items[..Room(|u.pending|, |items|)];
      assert Hashes(u.log) + (u.pending + more) == Hashes(u.log) + u.pending + more;
      taken := RefillGood(Accept(u, items), pool, now, io);
    }
  }

  // -------------------------------------------------------------------- runs

  /** Requests, refills when the socket drains, and the connection's other traffic. */
  datatype Event =
    | GetdataMsg(payload: seq<byte>, pool: map<Hash, seq<byte>>, now: int, io: nat -> Io)
    | RefillCall(pool: map<Hash, seq<byte>>, now: int, io: nat -> Io)
    | Other(call: SendQueue.Event)

  function Step(u: State, e: Event): State {
    match e
    case GetdataMsg(payload, pool, now, io) => Getdata(u, payload, pool, now, io)
    case RefillCall(pool, now, io) => Refill(u, pool, now, io)
    case Other(call) => u.(conn := SendQueue.Step(u.conn, call).0)
  }

  function Run(u: State, run: seq<Event>): State
    decreases |run|
  {
    if |run| == 0 then u else Run(Step(u, run[0]), run[1..])
  }

  lemma StepGood(u: State, e: Event)
    requires Good(u)
    ensures Good(Step(u, e)) && u.log <= Step(u, e).log && u.accepted <= Step(u, e).accepted
    ensures u.conn.evict ==> Step(u, e).conn.evict
  {
    hide Sound, Refill, Getdata, Flat, Hashes, Flush;
    match e
    case GetdataMsg(payload, pool, now, io) =>
      var _ := GetdataGood(u, payload, pool, now, io);
      AcceptedGrow(u, payload, pool, now, io);
    case RefillCall(pool, now, io) => var _ := RefillGood(u, pool, now, io);
    case Other(call) => StepSound(u.conn, call); EvictionSticks(u.conn, call);
  }

  lemma AcceptedGrow(u: State, payload: seq<byte>, pool: map<Hash, seq<byte>>, now: int, io: nat -> Io)
    requires Good(u)
    ensures u.accepted <= Getdata(u, payload, pool, now, io).accepted
  {
    hide Getdata, Inventory.Items;
    var _ := GetdataGood(u, payload, pool, now, io);
  }

  lemma EvictionSticks(c: Conn, call: SendQueue.Event)
    ensures c.evict ==> SendQueue.Step(c, call).0.evict
  {
  }

  /**
   Over every run: the backlog never exceeds 50,000 hashes, hashes are taken in
   the order they were accepted, none is taken twice or skipped, and on a live
   connection every accepted hash has been taken or is still waiting.
   */
  lemma {:induction false} RunFifo(u: State, run: seq<Event>)
    requires Good(u)
    ensures var v := Run(u, run);
            && Good(v) && u.log <= v.log && u.accepted <= v.accepted && |v.pending| <= MAX_INVENTORY_ITEMS
            && Hashes(v.log) <= v.accepted
            && (!v.conn.evict ==> !u.conn.evict && Hashes(v.log) + v.pending == v.accepted)
    decreases |run|
  {
    hide Sound, Hashes, Step;
    if |run| > 0 {
      StepGood(u, run[0]);
      RunFifo(Step(u, run[0]), run[1..]);
    }
  }

  // --------------------------------------------------- the window over an array

  class Uploader {
    const conn: C.Connection
    var slots: array<Hash>
    var head: nat
    var count: nat
    var sent: nat
    var notFound: nat
    ghost var log: seq<Taken>
    ghost var accepted: seq<Hash>

    ghost predicate Windowed()
      reads this
    {
      head + count <= slots.Length
    }

    ghost function Pending(): seq<Hash>
      requires Windowed()
      reads this, slots
    {
      slots[head..head + count]
    }

    ghost predicate Valid()
      reads this, conn, conn.spine
    {
      Windowed() && conn.Valid()
    }

    ghost function View(): State
      requires Windowed()
      reads this, slots, conn
    {
      State(conn.View(), Pending(), sent, notFound, log, accepted)
    }

    constructor (conn: C.Connection)
      requires conn.Valid()
      ensures Valid() && this.conn == conn && Pending() == [] && log == [] && accepted == []
    {
      this.conn := conn;
      slots := new Hash[0];
      head, count, sent, notFound := 0, 0, 0, 0;
      log, accepted := [], [];
    }

    /** Moves the window to the front of the array. */
    method Compact()
      requires Windowed()
      modifies this`head, slots
      ensures Windowed() && head == 0 && Pending() == old(Pending())
    {
      forall i | 0 <= i < count {
        slots[i] := slots[head + i];
      }
      head := 0;
    }

    /** Replaces the array by one of at least `need` slots, doubling from 64. */
    method Grow(need: nat)
      requires Windowed()
      modifies this`slots
      ensures Windowed() && fresh(slots) && need <= slots.Length && Pending() == old(Pending())
    {
      var cap := Capacity(slots.Length, need);
      var grown := new Hash[cap];
      forall i | 0 <= i < slots.Length {
        grown[i] := slots[i];
      }
      slots := grown;
    }

    /** `upload_pending_append` */
    method Append(items: seq<Hash>)
      requires Windowed()
      modifies this, slots
      ensures Windowed() && Pending() == old(Pending()) + items && (slots == old(slots) || fresh(slots))
      ensures sent == old(sent) && notFound == old(notFound) && log == old(log) && accepted == old(accepted)
    {
      if |items| == 0 {
        return;
      }
      if head > 0 && head + count + |items| > slots.Length {
        Compact();
      }
      if head + count + |items| > slots.Length {
        Grow(head + count + |items|);
      }
      Copy(items);
    }

    method Copy(items: seq<Hash>)
      requires head + count + |items| <= slots.Length
      modifies this`count, slots
      ensures Windowed() && Pending() == old(Pending()) + items
    {
      var at := head + count;
      forall i | 0 <= i < |items| {
        slots[at + i] := items[i];
      }
      count := count + |items|;
    }

    method PopFront() returns (hash: Hash)
      requires Windowed() && count > 0
      modifies this`head, this`count
      ensures Windowed() && hash == old(Pending())[0] && Pending() == old(Pending())[1..]
    {
      hash := slots[head];
      head, count := head + 1, count - 1;
    }

    /** One turn of the refill loop. */
    method TakeOne(pool: map<Hash, seq<byte>>, now: int, io: Io)
      requires Valid() && Hungry(View())
      modifies this`head, this`count, this`sent, this`notFound, this`log, conn, conn.spine
      ensures Valid() && View() == TakeNext(old(View()), pool, now, io)
      ensures forall i :: 0 <= i < |conn.spine| ==> conn.spine[i] in old(conn.spine) || fresh(conn.spine[i])
    {
      hide Offer, Sound, Flat;
      hide C.Connection.Valid;
      var hash := PopFront();
      if hash !in pool {
        notFound := notFound + 1;
        log := log + [Taken(hash, NotFound)];
      } else {
        OfferOne(hash, pool[hash], now, io);
      }
    }

    method OfferOne(hash: Hash, packet: seq<byte>, now: int, io: Io)
      requires Valid()
      modifies this`count, this`sent, this`log, conn, conn.spine
      ensures Valid() && View() == Offer(old(View()), hash, packet, now, io)
      ensures forall i :: 0 <= i < |conn.spine| ==> conn.spine[i] in old(conn.spine) || fresh(conn.spine[i])
    {
      hide Send, Sound, Flat;
      hide C.Connection.Valid;
      var ok := conn.NetworkSend(packet, now, io.script, io.ctlOk);
      if ok {
        sent := sent + 1;
        log := log + [Taken(hash, Sent)];
      } else {
        count := 0;
        log := log + [Taken(hash, Refused)];
      }
    }

    method IsHungry() returns (b: bool)
      requires Valid()
      ensures b == Hungry(View()) && (b ==> count > 0)
    {
      hide Sound, Flat;
      b := count > 0 && !conn.evict && conn.queuedBytes < REFILL_THRESHOLD;
    }

    /** `bm_object_sync_refill_uploads` */
    method RefillUploads(pool: map<Hash, seq<byte>>, now: int, io: nat -> Io)
      requires Valid()
      modifies this`head, this`count, this`sent, this`notFound, this`log, conn, conn.spine
      ensures Valid() && View() == Refill(old(View()), pool, now, io)
      ensures forall i :: 0 <= i < |conn.spine| ==> conn.spine[i] in old(conn.spine) || fresh(conn.spine[i])
    {
      hide Loop;
      hide C.Connection.Valid;
      if count == 0 {
        return;
      }
      TakeAll(pool, now, io);
      if count == 0 {
        sent, notFound, head := 0, 0, 0;
      }
    }

    /** The refill loop: objects are taken until the backlog or the room is used up. */
    method TakeAll(pool: map<Hash, seq<byte>>, now: int, io: nat -> Io)
      requires Valid()
      modifies this`head, this`count, this`sent, this`notFound, this`log, conn, conn.spine
      ensures Valid() && View() == Loop(old(View()), pool, now, io, 0)
      ensures forall i :: 0 <= i < |conn.spine| ==> conn.spine[i] in old(conn.spine) || fresh(conn.spine[i])
    {
      hide TakeNext, Hungry;
      hide C.Connection.Valid;
      var k := 0;
      var more := IsHungry();
      while more
        invariant Valid() && more == Hungry(View()) && (more ==> count > 0)
        invariant Loop(View(), pool, now, io, k) == old(Loop(View(), pool, now, io, 0))
        invariant forall i :: 0 <= i < |conn.spine| ==> conn.spine[i] in old(conn.spine) || fresh(conn.spine[i])
        decreases count, more
      {
        assert View().pending != [];
        ghost var before := View();
        TakeNextShrinks(before, pool, now, io(k));
        TakeOne(pool, now, io(k));
        k := k + 1;
        more := IsHungry();
      }
    }

    /** `handle_getdata` */
    method HandleGetdata(payload: seq<byte>, pool: map<Hash, seq<byte>>, now: int, io: nat -> Io)
      requires Valid()
      modifies this, slots, conn, conn.spine
      ensures Valid() && View() == Getdata(old(View()), payload, pool, now, io)
    {
      hide Refill;
      hide C.Connection.Valid;
      hide Inventory.Items;
      var parsed := Inventory.ParseInventory(payload);
      if parsed.None? || |parsed.value| > MAX_INVENTORY_ITEMS {
        return;
      }
      var items := parsed.value;
      var room := if count < MAX_INVENTORY_ITEMS then MAX_INVENTORY_ITEMS - count else 0;
      var n := if |items| < room then |items| else room;
      Append(items[..n]);
      accepted := accepted + items[..n];
      RefillUploads(pool, now, io);
    }
  }

  method Capacity(cap: nat, need: nat) returns (r: nat)
    ensures cap <= r && need <= r && (r == (if cap > 0 then cap else 64) || r < 2 * need)
  {
    r := if cap > 0 then cap else 64;
    while r < need
      invariant r > 0 && cap <= r && (r == (if cap > 0 then cap else 64) || r < 2 * need)
      decreases need - r
    {
      r := r * 2;
    }
  }
}
