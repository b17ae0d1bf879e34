/**
 The send queue as src/infra/network.c keeps it: chunks linked from head to
 tail, a write offset per chunk, a byte count, and the readiness flags. Every
 method is proved against the value-level calls of `SendQueue`.
 */
module Connection {
  import opened Numerals
  import opened SendQueue

  class Chunk {
    const data: seq<byte>
    var off: nat
    var next: Chunk?

    constructor (data: seq<byte>)
      ensures this.data == data && off == 0 && next == null
    {
      this.data := data;
      off := 0;
      next := null;
    }
  }

  class Connection {
    var head: Chunk?
    var tail: Chunk?
    var queuedBytes: nat
    var progress: int
    var evict: bool
    var registered: bool
    var armed: bool
    ghost var spine: seq<Chunk>
    ghost var queue: seq<seq<byte>>
    ghost var wire: seq<byte>
    ghost var enqueued: seq<byte>

    ghost function View(): Conn
      reads this
    {
      Conn(queue, wire, enqueued, progress, evict, registered, armed)
    }

    /** The `i`-th chunk still holds what the queue says and points to the next one. */
    ghost predicate Node(i: nat)
      requires i < |spine| == |queue|
      reads this`spine, this`queue, spine
    {
      && spine[i].off < |spine[i].data|
      && queue[i] == spine[i].data[spine[i].off..]
      && spine[i].next == (if i + 1 < |spine| then spine[i + 1] else null)
    }

    /** The list runs through the spine, from head to tail. */
    ghost predicate Linked()
      reads this`head, this`tail, this`spine, this`queue, spine
    {
      && |queue| == |spine|
      && (forall i, j :: 0 <= i < j < |spine| ==> spine[i] != spine[j])
      && head == (if |spine| == 0 then null else spine[0])
      && tail == (if |spine| == 0 then null else spine[|spine| - 1])
      && (forall i :: 0 <= i < |spine| ==> Node(i))
    }

    ghost predicate Valid()
      reads this, spine
    {
      Linked() && Sound(View()) && queuedBytes == |Flat(queue)|
    }

    constructor ()
      ensures Valid() && queue == [] && wire == [] && !registered && !armed && !evict
    {
      head, tail := null, null;
      queuedBytes := 0;
      progress := 0;
      evict, registered, armed := false, false, false;
      spine, queue, wire, enqueued := [], [], [], [];
    }

    /** Unlinks a finished first chunk. */
    method PopHead()
      requires Linked() && head != null
      modifies this`head, this`tail, this`spine, this`queue
      ensures Linked() && spine == old(spine[1..]) && queue == old(queue[1..])
    {
      assert Node(0);
      head := head.next;
      if head == null {
        tail := null;
      }
      spine := spine[1..];
      queue := queue[1..];
      forall i | 0 <= i < |spine|
        ensures Node(i)
      {
        assert old(Node(i + 1));
      }
    }

    /** Moves the write offset inside the first chunk. */
    method ShiftHead(n: nat)
      requires Linked() && head != null && 0 < n < |queue[0]|
      modifies this`queue, head`off
      ensures Linked() && queue == [old(queue[0])[n..]] + old(queue[1..])
    {
      assert Node(0);
      ghost var rest := queue[0][n..];
      assert rest == head.data[head.off + n..];
      head.off := head.off + n;
      queue := queue[0 := rest];
      assert queue == [rest] + old(queue[1..]);
      forall i | 0 < i < |spine|
        ensures Node(i)
      {
        assert old(Node(i));
      }
    }

    /** The list after the first `n` bytes of the first chunk are gone. */
    method Consume(n: nat)
      requires |queue| > 0 && head != null && Linked() && 0 < n <= |queue[0]|
      modifies this`head, this`tail, this`spine, this`queue, head
      ensures Linked() && (forall c :: c in spine ==> c in old(spine))
      ensures queue == if n == |old(queue[0])| then old(queue[1..]) else [old(queue[0])[n..]] + old(queue[1..])
    {
      assert Node(0);
      if head.off + n == |head.data| {
        PopHead();
      } else {
        ShiftHead(n);
      }
    }

    method HeadBytes(limit: nat) returns (n: nat)
      requires |queue| > 0 && head != null && Linked()
      ensures n == Min(limit, |queue[0]|)
    {
      assert Node(0);
      var left := |head.data| - head.off;
      n := if limit < left then limit else left;
    }

    lemma HeadFacts()
      requires Linked()
      ensures if head == null then queue == [] else head in spine && |queue| > 0 && |queue[0]| > 0
    {
      if head != null {
        assert Node(0);
      }
    }

    /** One successful `send` that accepts up to `n` bytes, cut to what the first chunk still holds. */
    method Advance(limit: nat, now: int, ghost n: nat)
      requires |queue| > 0 && head != null && Valid() && 0 < limit && n == Min(limit, |queue[0]|)
      modifies this, head
      ensures Valid() && (forall c :: c in spine ==> c in old(spine))
      ensures View() == Taken(old(View()), n, now)
      ensures Flat(old(queue)) == old(queue[0])[..n] + Flat(queue)
    {
      HeadFacts();
      hide Flat, Linked, Sound;
      SoundAfter(View(), n, now);
      var taken := HeadBytes(limit);
      wire := wire + queue[0][..n];
      Consume(taken);
      queuedBytes := queuedBytes - taken;
      progress := now;
    }

    /** `update_out_interest_locked` */
    method UpdateOutInterest(ctlOk: bool)
      requires Valid()
      modifies this`armed
      ensures Valid() && View() == UpdateInterest(old(View()), ctlOk)
    {
      hide Flat;
      var want := head != null;
      assert want == (queue != []);
      if !registered || want == armed {
        return;
      }
      if ctlOk {
        armed := want;
      }
    }

    /** `flush_locked`: writes from the front until the socket stops taking bytes, then adjusts the interest. */
    method FlushLocked(now: int, script: seq<Answer>, ctlOk: bool) returns (ok: bool)
      requires Valid()
      modifies this, spine
      ensures Valid() && (View(), ok) == Flush(old(View()), now, script, ctlOk)
      ensures forall c :: c in spine ==> c in old(spine)
    {
      hide Flat, Sound, Drained, Linked, Flushing, Flush;
      HeadFacts();
      ok := true;
      ghost var written: seq<byte> := [];
      FlushStarts(View(), now, script);
      var i := 0;
      while head != null && i < |script|
        invariant 0 <= i <= |script| && ok && Valid() && forall c :: c in spine ==> c in old(spine)
        invariant if head == null then queue == [] else head in spine && |queue| > 0 && |queue[0]| > 0
        invariant Flushing(old(View()), now, script, View(), script[i..], written)
        decreases |script| - i
      {
        var a := script[i];
        FlushGoes(old(View()), now, script, View(), script[i..], written);
        assert script[i..][0] == a && script[i..][1..] == script[i + 1..];
        match a {
          case Wrote(n) =>
            if n == 0 {
              ok := false;
              break;
            }
            ghost var size := Min(n, |queue[0]|);
            written := written + queue[0][..size];
            Advance(n, now, size);
            HeadFacts();
          case Interrupted =>
          case WouldBlock => break;
          case Broken =>
            ok := false;
            break;
        }
        i := i + 1;
      }
      FlushEnds(old(View()), now, script, View(), script[i..], written, ctlOk, ok);
      if ok {
        UpdateOutInterest(ctlOk);
      }
    }

    /** Links a fresh chunk behind the tail. */
    method Append(data: seq<byte>) returns (c: Chunk)
      requires Linked() && |data| > 0
      modifies this`head, this`tail, this`spine, this`queue, spine
      ensures fresh(c) && Linked() && spine == old(spine) + [c] && queue == old(queue) + [data]
    {
      c := new Chunk(data);
      if tail == null {
        head := c;
      } else {
        assert Node(|spine| - 1);
        tail.next := c;
      }
      tail := c;
      spine := spine + [c];
      queue := queue + [data];
      assert Node(|spine| - 1);
      forall i | 0 <= i < |spine| - 1
        ensures Node(i)
      {
        assert old(Node(i));
      }
    }

    /** Queues a packet the limit still allows. */
    method EnqueueChunk(data: seq<byte>, now: int) returns (c: Chunk)
      requires Valid() && 0 < |data| && queuedBytes + |data| <= HARD_LIMIT
      modifies this, spine
      ensures Valid() && View() == Enqueue(old(View()), data, now)
      ensures fresh(c) && spine == old(spine) + [c]
    {
      HeadFacts();
      hide Flat, Linked, Sound;
      EnqueueSound(View(), data, now);
      if head == null {
        progress := now;
      }
      c := Append(data);
      enqueued := enqueued + data;
      queuedBytes := queuedBytes + |data|;
    }

    /** `bm_network_send`: refuses what would exceed the hard limit, queues the rest and writes what it can. */
    method NetworkSend(data: seq<byte>, now: int, script: seq<Answer>, ctlOk: bool) returns (ok: bool)
      requires Valid()
      modifies this, spine
      ensures Valid() && (View(), ok) == Send(old(View()), data, now, script, ctlOk)
      ensures forall i :: 0 <= i < |spine| ==> spine[i] in old(spine) || fresh(spine[i])
    {
      hide Flat, Flush, Linked, Sound, Enqueue;
      if |data| == 0 {
        return true;
      }
      if queuedBytes + |data| > HARD_LIMIT {
        EvictSound(View());
        evict := true;
        return false;
      }
      var c := EnqueueChunk(data, now);
      ok := FlushLocked(now, script, ctlOk);
      forall i | 0 <= i < |spine|
        ensures spine[i] in old(spine) || fresh(spine[i])
      {
        assert spine[i] in spine;
      }
      if !ok {
        EvictSound(View());
        evict := true;
      }
    }

    /** `bm_network_flush` */
    method NetworkFlush(now: int, script: seq<Answer>, ctlOk: bool) returns (ok: bool)
      requires Valid()
      modifies this, spine
      ensures Valid() && (View(), ok) == Flush(old(View()), now, script, ctlOk)
      ensures forall c :: c in spine ==> c in old(spine)
    {
      ok := FlushLocked(now, script, ctlOk);
    }

    /** `bm_network_epoll_register` */
    method EpollRegister(ctlOk: bool) returns (ok: bool)
      requires Valid()
      modifies this`registered, this`armed
      ensures Valid() && (View(), ok) == Register(old(View()), ctlOk)
    {
      HeadFacts();
      hide Flat;
      var want := head != null;
      if ctlOk {
        registered := true;
        armed := want;
      }
      ok := ctlOk;
    }

    /** `send_stalled` */
    method SendStalled(now: int) returns (stalled: bool, queued: nat, since: int)
      requires Valid()
      ensures stalled == Stalled(View(), now) && queued == |Flat(queue)| && since == now - progress
    {
      queued := queuedBytes;
      since := now - progress;
      stalled := queued > 0 && since > STALL_TIMEOUT_SECONDS;
    }
  }

  lemma EvictSound(c: Conn)
    ensures Sound(c) == Sound(c.(evict := false)) == Sound(c.(evict := true))
  {
  }

  lemma FlatDropEmpty(q: seq<seq<byte>>, n: nat)
    requires |q| > 0 && n == |q[0]|
    ensures Flat([q[0][n..]] + q[1..]) == Flat(q[1..])
  {
    FlatCons([], q[1..]);
    assert q[0][n..] == [];
  }

  /** The connection after `n` bytes of its first chunk went out. */
  function Taken(c: Conn, n: nat, now: int): Conn
    requires |c.queue| > 0 && n <= |c.queue[0]|
  {
    c.(queue := if n == |c.queue[0]| then c.queue[1..] else [c.queue[0][n..]] + c.queue[1..],
       wire := c.wire + c.queue[0][..n], progress := now)
  }

  /** Taking bytes off the first chunk keeps every byte accounted for. */
  lemma SoundAfter(c: Conn, n: nat, now: int)
    requires Sound(c) && |c.queue| > 0 && 0 < n <= |c.queue[0]|
    ensures Sound(Taken(c, n, now)) && Flat(c.queue) == c.queue[0][..n] + Flat(Taken(c, n, now).queue)
  {
    hide Flat;
    FlatSplit(c.queue, n);
    if n == |c.queue[0]| {
      FlatDropEmpty(c.queue, n);
    }
    Assoc(c.wire, c.queue[0][..n], Flat(Taken(c, n, now).queue));
  }

  lemma DrainedHead(q: seq<seq<byte>>, script: seq<Answer>)
    requires |q| > 0 && |script| > 0
    ensures Drained(q, script) ==
            match script[0]
            case Wrote(n) =>
              if n == 0 then (q, false)
              else if n >= |q[0]| then Drained(q[1..], script[1..])
              else Drained([q[0][n..]] + q[1..], script[1..])
            case Interrupted => Drained(q, script[1..])
            case WouldBlock => (q, true)
            case Broken => (q, false)
  {
  }

  lemma DrainedEnd(q: seq<seq<byte>>, script: seq<Answer>)
    requires |q| == 0 || |script| == 0
    ensures Drained(q, script) == (q, true)
  {
  }

  /** Midway through a flush: `w` has been written, and the answers `left` decide the rest. */
  ghost predicate Flushing(c0: Conn, now: int, script: seq<Answer>, c: Conn, left: seq<Answer>, w: seq<byte>) {
    && Drained(c0.queue, script) == Drained(c.queue, left)
    && Flat(c0.queue) == w + Flat(c.queue)
    && c == c0.(queue := c.queue, wire := c0.wire + w, progress := if |w| > 0 then now else c0.progress)
  }

  lemma FlushStarts(c: Conn, now: int, script: seq<Answer>)
    ensures Flushing(c, now, script, c, script[0..], [])
  {
    assert script[0..] == script && c.wire + [] == c.wire && [] + Flat(c.queue) == Flat(c.queue);
  }

  /** The loop goes on after a partial or complete write and after an interruption. */
  lemma FlushGoes(c0: Conn, now: int, script: seq<Answer>, c: Conn, left: seq<Answer>, w: seq<byte>)
    requires Flushing(c0, now, script, c, left, w) && Sound(c)
    requires |left| > 0 && |c.queue| > 0 && |c.queue[0]| > 0
    ensures match left[0]
            case Wrote(k) =>
              var n := Min(k, |c.queue[0]|);
              k > 0 ==> Flushing(c0, now, script, Taken(c, n, now), left[1..], w + c.queue[0][..n])
            case Interrupted => Flushing(c0, now, script, c, left[1..], w)
            case _ => true
  {
    hide Flat, Sound, Drained;
    DrainedHead(c.queue, left);
    if left[0].Wrote? && left[0].n > 0 {
      var n := Min(left[0].n, |c.queue[0]|);
      SoundAfter(c, n, now);
      Assoc(c0.wire, w, c.queue[0][..n]);
      Assoc(w, c.queue[0][..n], Flat(Taken(c, n, now).queue));
    }
  }

  /** The loop ends: the chunks are gone, the answers are, or the last answer ended it. */
  lemma FlushEnds(c0: Conn, now: int, script: seq<Answer>, c: Conn, left: seq<Answer>, w: seq<byte>, ctlOk: bool,
                  ok: bool)
    requires Flushing(c0, now, script, c, left, w)
    requires if c.queue == [] || left == [] then ok
             else if ok then left[0] == WouldBlock else left[0] == Wrote(0) || left[0] == Broken
    ensures Flush(c0, now, script, ctlOk) == (if ok then UpdateInterest(c, ctlOk) else c, ok)
  {
    hide Flat, Drained;
    if c.queue == [] || left == [] {
      DrainedEnd(c.queue, left);
    } else {
      DrainedHead(c.queue, left);
    }
    assert Flat(c0.queue)[..|w|] == w;
  }
}
