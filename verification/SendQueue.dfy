/**
 The per-connection send queue of src/infra/network.c: a linked list of chunks,
 written out as far as the socket accepts, with write-readiness armed while
 anything is left. The socket is a script of answers; `epoll_ctl` is a flag.
 */
module SendQueue {
  import opened Numerals

  const HARD_LIMIT := 16 * 1024 * 1024
  const STALL_TIMEOUT_SECONDS := 120

  /** One answer of `send`: some bytes taken, or one of the errno cases. */
  datatype Answer = Wrote(n: nat) | Interrupted | WouldBlock | Broken

  function Flat(q: seq<seq<byte>>): seq<byte> {
    if |q| == 0 then [] else q[0] + Flat(q[1..])
  }

  /** The queue left over when the socket answers as scripted, and whether it stayed usable. */
  function Drained(q: seq<seq<byte>>, script: seq<Answer>): (seq<seq<byte>>, bool)
    decreases |script|
  {
    if |q| == 0 || |script| == 0 then (q, true)
    else match script[0]
      case Wrote(n) =>
        if n == 0 then (q, false)
        else if n >= |q[0]| then Drained(q[1..], script[1..])
        else Drained([q[0][n..]] + q[1..], script[1..])
      case Interrupted => Drained(q, script[1..])
      case WouldBlock => (q, true)
      case Broken => (q, false)
  }

  // ------------------------------------------------------- the calls, as values

  /** A connection: what is queued, what the socket took, everything ever enqueued. */
  datatype Conn = Conn(queue: seq<seq<byte>>, wire: seq<byte>, enqueued: seq<byte>, progress: int,
                       evict: bool, registered: bool, armed: bool)

  ghost predicate Sound(c: Conn) {
    && c.enqueued == c.wire + Flat(c.queue)
    && |Flat(c.queue)| <= HARD_LIMIT
    && forall i :: 0 <= i < |c.queue| ==> |c.queue[i]| > 0
  }

  /** `update_out_interest_locked` */
  function UpdateInterest(c: Conn, ctlOk: bool): Conn {
    var want := c.queue != [];
    if !c.registered || want == c.armed || !ctlOk then c else c.(armed := want)
  }

  /** `flush_locked` */
  function Flush(c: Conn, now: int, script: seq<Answer>, ctlOk: bool): (Conn, bool) {
    var (q, ok) := Drained(c.queue, script);
    var n := |Flat(c.queue)| - |Flat(q)|;
    var c' := c.(queue := q,
                 wire := c.wire + (if 0 <= n then Flat(c.queue)[..n] else []),
                 progress := if n > 0 then now else c.progress);
    (if ok then UpdateInterest(c', ctlOk) else c', ok)
  }

  /** `bm_network_send` */
  function Send(c: Conn, data: seq<byte>, now: int, script: seq<Answer>, ctlOk: bool): (Conn, bool) {
    if |data| == 0 then (c, true)
    else if |Flat(c.queue)| + |data| > HARD_LIMIT then (c.(evict := true), false)
    else
      var (c2, ok) := Flush(Enqueue(c, data, now), now, script, ctlOk);
      (if ok then c2 else c2.(evict := true), ok)
  }

  /** A packet appended; an empty queue starts the stall clock. */
  function Enqueue(c: Conn, data: seq<byte>, now: int): Conn {
    c.(queue := c.queue + [data], enqueued := c.enqueued + data,
       progress := if c.queue == [] then now else c.progress)
  }

  /** `bm_network_epoll_register` */
  function Register(c: Conn, ctlOk: bool): (Conn, bool) {
    if ctlOk then (c.(registered := true, armed := c.queue != []), true) else (c, false)
  }

  /** `send_stalled` */
  predicate Stalled(c: Conn, now: int) {
    |Flat(c.queue)| > 0 && now - c.progress > STALL_TIMEOUT_SECONDS
  }

  // ------------------------------------------------------------------ lemmas

  lemma {:induction false} FlatSnoc(q: seq<seq<byte>>, x: seq<byte>)
    ensures Flat(q + [x]) == Flat(q) + x
  {
    if |q| == 0 {
      assert q + [x] == [x];
    } else {
      FlatSnoc(q[1..], x);
      assert (q + [x])[1..] == q[1..] + [x];
    }
  }

  lemma FlatCons(x: seq<byte>, q: seq<seq<byte>>)
    ensures Flat([x] + q) == x + Flat(q)
  {
    assert ([x] + q)[1..] == q;
  }

  lemma FlatSplit(q: seq<seq<byte>>, n: nat)
    requires |q| > 0 && n <= |q[0]|
    ensures Flat(q) == q[0][..n] + Flat([q[0][n..]] + q[1..])
  {
    FlatCons(q[0][n..], q[1..]);
    assert q[0] == q[0][..n] + q[0][n..];
    Assoc(q[0][..n], q[0][n..], Flat(q[1..]));
  }

  /** Draining writes a prefix of what was queued and keeps the rest; no chunk becomes empty. */
  lemma {:induction false} DrainedSplits(q: seq<seq<byte>>, script: seq<Answer>) returns (w: seq<byte>)
    requires forall i :: 0 <= i < |q| ==> |q[i]| > 0
    ensures var q' := Drained(q, script).0;
            Flat(q) == w + Flat(q') && forall i :: 0 <= i < |q'| ==> |q'[i]| > 0
    decreases |script|
  {
    w := [];
    if |q| > 0 && |script| > 0 {
      match script[0]
      case Wrote(n) =>
        if n >= |q[0]| {
          var w' := DrainedSplits(q[1..], script[1..]);
          w := q[0] + w';
          Assoc(q[0], w', Flat(Drained(q[1..], script[1..]).0));
        } else if n > 0 {
          var rest := [q[0][n..]] + q[1..];
          FlatSplit(q, n);
          var w' := DrainedSplits(rest, script[1..]);
          w := q[0][..n] + w';
          Assoc(q[0][..n], w', Flat(Drained(rest, script[1..]).0));
        }
      case Interrupted =>
        w := DrainedSplits(q, script[1..]);
      case WouldBlock =>
      case Broken =>
    }
  }

  /** No answer breaks the connection. */
  predicate Clean(script: seq<Answer>) {
    |script| == 0 || (script[0] != Broken && script[0] != Wrote(0) && Clean(script[1..]))
  }

  predicate Blocks(script: seq<Answer>) {
    |script| > 0 && (script[0].WouldBlock? || Blocks(script[1..]))
  }

  predicate Fatal(a: Answer) {
    a.Broken? || a == Wrote(0)
  }

  /** How many bytes each answer takes off the queue, until it is empty or an answer stops the drain. */
  function Pieces(q: seq<seq<byte>>, script: seq<Answer>): seq<nat>
    decreases |script|
  {
    if |q| == 0 || |script| == 0 || Fatal(script[0]) || script[0].WouldBlock? then []
    else if script[0].Interrupted? then [0] + Pieces(q, script[1..])
    else
      var n := Min(script[0].n, |q[0]|);
      [n] + Pieces(if n == |q[0]| then q[1..] else [q[0][n..]] + q[1..], script[1..])
  }

  function Sum(ns: seq<nat>): nat {
    if |ns| == 0 then 0 else ns[0] + Sum(ns[1..])
  }

  /** A good answer takes at least one byte and no more than the socket accepted; an interruption takes none. */
  predicate Fair(a: Answer, n: nat) {
    if a.Wrote? then 1 <= n <= a.n else a.Interrupted? && n == 0
  }

  /** Draining fails only on a fatal answer, and a clean script never fails. */
  lemma {:induction false} DrainedStops(q: seq<seq<byte>>, script: seq<Answer>)
    ensures var (q', ok) := Drained(q, script);
            && (!ok ==> q' != [])
            && (Clean(script) ==> ok)
            && (ok && q' != [] && !Blocks(script) ==> Clean(script))
    decreases |script|
  {
    if |q| > 0 && |script| > 0 {
      match script[0]
      case Wrote(n) =>
        if n >= |q[0]| {
          DrainedStops(q[1..], script[1..]);
        } else if n > 0 {
          DrainedStops([q[0][n..]] + q[1..], script[1..]);
        }
      case Interrupted =>
        DrainedStops(q, script[1..]);
      case WouldBlock =>
      case Broken =>
    }
  }

  /**
   Draining uses up one answer after the other, each taking its fair piece off the front, and the
   bytes written are the sum of the pieces. It ends before the script does only with an empty
   queue, at an answer that would block, or at a fatal one, and only the last is a failure.
   */
  lemma {:induction false} DrainedAnswers(q: seq<seq<byte>>, script: seq<Answer>)
    requires forall i :: 0 <= i < |q| ==> |q[i]| > 0
    ensures var (q', ok) := Drained(q, script);
            var ps := Pieces(q, script);
            && |ps| <= |script| && |Flat(q)| == Sum(ps) + |Flat(q')|
            && (forall i :: 0 <= i < |ps| ==> Fair(script[i], ps[i]))
            && (ok ==> q' == [] || |ps| == |script| || script[|ps|].WouldBlock?)
            && (!ok ==> |ps| < |script| && Fatal(script[|ps|]))
    decreases |script|
  {
    hide Flat;
    if |q| > 0 && |script| > 0 && !Fatal(script[0]) && !script[0].WouldBlock? {
      var a, more := script[0], script[1..];
      var n := if a.Wrote? then Min(a.n, |q[0]|) else 0;
      var next := if a.Interrupted? then q else if n == |q[0]| then q[1..] else [q[0][n..]] + q[1..];
      PieceOff(q, n, next);
      DrainedAnswers(next, more);
      var ps, rest := Pieces(q, script), Pieces(next, more);
      assert ps == [n] + rest && ps[1..] == rest;
      forall i | 0 <= i < |ps|
        ensures Fair(script[i], ps[i])
      {
        assert i > 0 ==> script[i] == more[i - 1] && ps[i] == rest[i - 1];
      }
      assert |rest| < |more| ==> script[|ps|] == more[|rest|];
    }
  }

  lemma PieceOff(q: seq<seq<byte>>, n: nat, next: seq<seq<byte>>)
    requires |q| > 0 && n <= |q[0]|
    requires next == if n == 0 then q else if n == |q[0]| then q[1..] else [q[0][n..]] + q[1..]
    ensures |Flat(q)| == n + |Flat(next)|
  {
    if 0 < n < |q[0]| {
      FlatSplit(q, n);
    }
  }

  /** A flush moves some bytes `w` from the front of the queue to the socket, and does nothing else to the data. */
  lemma FlushMoves(c: Conn, now: int, script: seq<Answer>, ctlOk: bool) returns (w: seq<byte>)
    requires forall i :: 0 <= i < |c.queue| ==> |c.queue[i]| > 0
    ensures var c' := Flush(c, now, script, ctlOk).0;
            && c'.wire == c.wire + w && Flat(c.queue) == w + Flat(c'.queue) && c'.enqueued == c.enqueued
            && c'.progress == (if |w| > 0 then now else c.progress)
            && (forall i :: 0 <= i < |c'.queue| ==> |c'.queue[i]| > 0)
            && (c.queue == [] ==> c'.queue == [])
  {
    assert c.queue == [] ==> Drained(c.queue, script).0 == [];
    w := DrainedSplits(c.queue, script);
    hide Flat, Drained;
    assert Flat(c.queue)[..|w|] == w;
  }

  /** Flushing loses and reorders nothing. */
  lemma FlushSound(c: Conn, now: int, script: seq<Answer>, ctlOk: bool)
    requires Sound(c)
    ensures Sound(Flush(c, now, script, ctlOk).0)
    ensures c.wire <= Flush(c, now, script, ctlOk).0.wire
  {
    var w := FlushMoves(c, now, script, ctlOk);
    hide Flat, Flush;
    Assoc(c.wire, w, Flat(Flush(c, now, script, ctlOk).0.queue));
  }

  /**
   A successful flush of a registered connection leaves write-readiness armed exactly when
   something is queued; if the `epoll_ctl` call fails readiness stays as it was.
   */
  lemma FlushArms(c: Conn, now: int, script: seq<Answer>, ctlOk: bool)
    requires Flush(c, now, script, ctlOk).1 && c.registered
    ensures var c' := Flush(c, now, script, ctlOk).0;
            if ctlOk then c'.armed <==> c'.queue != [] else c'.armed == c.armed
  {
  }

  // ------------------------------------------------------------- one call, exactly

  /** The answers in front of the first one that would block or is fatal. */
  function Cut(script: seq<Answer>): seq<Answer> {
    if |script| == 0 || Fatal(script[0]) || script[0].WouldBlock? then [] else [script[0]] + Cut(script[1..])
  }

  /** How many bytes of chunks of these sizes good answers take, each at most the rest of one chunk. */
  function Taking(sizes: seq<nat>, answers: seq<Answer>): nat
    decreases |answers|
  {
    if |sizes| == 0 || |answers| == 0 then 0
    else
      var n := if answers[0].Wrote? then Min(answers[0].n, sizes[0]) else 0;
      n + Taking(if n == sizes[0] then sizes[1..] else sizes[0 := sizes[0] - n], answers[1..])
  }

  function Sizes(q: seq<seq<byte>>): (ns: seq<nat>)
    ensures |ns| == |q|
  {
    seq(|q|, i requires 0 <= i < |q| => |q[i]|)
  }

  /** The first answer that stops the writing is fatal, and those before it do not empty the queue. */
  predicate Breaks(q: seq<seq<byte>>, script: seq<Answer>) {
    && |Cut(script)| < |script| && Fatal(script[|Cut(script)|])
    && Taking(Sizes(q), Cut(script)) < |Flat(q)|
  }

  lemma CutHead(script: seq<Answer>)
    requires |script| > 0 && !Fatal(script[0]) && !script[0].WouldBlock?
    ensures Cut(script)[1..] == Cut(script[1..]) && |Cut(script)| == 1 + |Cut(script[1..])|
    ensures |Cut(script[1..])| < |script[1..]| ==> script[1..][|Cut(script[1..])|] == script[|Cut(script)|]
  {
  }

  /** Draining takes what the answers up to the first stop take, and fails exactly when that stop breaks it. */
  lemma {:induction false} DrainedExact(q: seq<seq<byte>>, script: seq<Answer>)
    requires forall i :: 0 <= i < |q| ==> |q[i]| > 0
    ensures var (q', ok) := Drained(q, script);
            && Taking(Sizes(q), Cut(script)) == |Flat(q)| - |Flat(q')|
            && (ok <==> !Breaks(q, script))
    decreases |script|
  {
    if |q| > 0 && |script| > 0 && !Fatal(script[0]) && !script[0].WouldBlock? {
      hide Flat;
      var a := script[0];
      var n := if a.Wrote? then Min(a.n, |q[0]|) else 0;
      var next := if n == 0 then q else if n == |q[0]| then q[1..] else [q[0][n..]] + q[1..];
      PieceOff(q, n, next);
      CutHead(script);
      assert Sizes(next) == if n == |q[0]| then Sizes(q)[1..] else Sizes(q)[0 := |q[0]| - n];
      DrainedExact(next, script[1..]);
      hide Cut;
    } else if |q| > 0 {
      NonEmpty(q);
    }
  }

  lemma NonEmpty(q: seq<seq<byte>>)
    requires |q| > 0 && |q[0]| > 0
    ensures |Flat(q)| > 0
  {
  }

  /**
   A flush, exactly: it writes as many bytes from the front of the queue as the answers before the
   first stop take, fails if and only if that stop is fatal and leaves something queued, and never
   marks the connection for eviction.
   */
  lemma FlushExact(c: Conn, now: int, script: seq<Answer>, ctlOk: bool)
    requires forall i :: 0 <= i < |c.queue| ==> |c.queue[i]| > 0
    ensures var (c', ok) := Flush(c, now, script, ctlOk);
            var n := Taking(Sizes(c.queue), Cut(script));
            && (ok <==> !Breaks(c.queue, script)) && n <= |Flat(c.queue)|
            && c'.wire == c.wire + Flat(c.queue)[..n] && Flat(c'.queue) == Flat(c.queue)[n..]
            && c'.progress == (if n > 0 then now else c.progress)
            && c'.evict == c.evict && c'.registered == c.registered && c'.enqueued == c.enqueued
  {
    DrainedExact(c.queue, script);
    var w := FlushMoves(c, now, script, ctlOk);
    hide Flat, Drained, Taking, Cut;
    var n := Taking(Sizes(c.queue), Cut(script));
    var q' := Flush(c, now, script, ctlOk).0.queue;
    assert |w| == n && Flat(c.queue)[..n] == w && Flat(c.queue)[n..] == Flat(q');
  }

  /**
   A send of a packet, exactly: it succeeds if and only if the packet fits and the writing does not
   break; a packet that does not fit changes nothing but the mark for eviction, a break leaves the
   mark, and a success leaves it as it was.
   */
  lemma SendExact(c: Conn, data: seq<byte>, now: int, script: seq<Answer>, ctlOk: bool)
    requires Sound(c) && |data| > 0
    ensures var (c', ok) := Send(c, data, now, script, ctlOk);
            var q := c.queue + [data];
            var n := Taking(Sizes(q), Cut(script));
            var fits := |Flat(c.queue)| + |data| <= HARD_LIMIT;
            && (ok <==> fits && !Breaks(q, script))
            && (!fits ==> c' == c.(evict := true))
            && (fits ==> && n <= |Flat(c.queue) + data| && c'.evict == (c.evict || !ok)
                         && c'.wire == c.wire + (Flat(c.queue) + data)[..n]
                         && Flat(c'.queue) == (Flat(c.queue) + data)[n..]
                         && c'.progress == (if n > 0 || c.queue == [] then now else c.progress)
                         && c'.enqueued == c.enqueued + data && c'.registered == c.registered)
  {
    hide Drained, Taking, Cut, Breaks;
    if |Flat(c.queue)| + |data| <= HARD_LIMIT {
      FlatSnoc(c.queue, data);
      FlushExact(Enqueue(c, data, now), now, script, ctlOk);
    }
    hide Flat, Flush;
  }

  // -------------------------------------------------------------------- runs

  datatype Event =
    | SendCall(data: seq<byte>, now: int, script: seq<Answer>, ctlOk: bool)
    | FlushCall(now: int, script: seq<Answer>, ctlOk: bool)
    | RegisterCall(ctlOk: bool)

  function Step(c: Conn, e: Event): (Conn, bool) {
    match e
    case SendCall(data, now, script, ctlOk) => Send(c, data, now, script, ctlOk)
    case FlushCall(now, script, ctlOk) => Flush(c, now, script, ctlOk)
    case RegisterCall(ctlOk) => Register(c, ctlOk)
  }

  function Run(c: Conn, run: seq<Event>): Conn
    decreases |run|
  {
    if |run| == 0 then c else Run(Step(c, run[0]).0, run[1..])
  }

  /** The packets a run accepted, one after the other. */
  function Accepted(c: Conn, run: seq<Event>): seq<byte>
    decreases |run|
  {
    if |run| == 0 then []
    else
      (if run[0].SendCall? && |Flat(c.queue)| + |run[0].data| <= HARD_LIMIT then run[0].data else [])
      + Accepted(Step(c, run[0]).0, run[1..])
  }

  lemma EnqueueSound(c: Conn, data: seq<byte>, now: int)
    requires Sound(c) && 0 < |data| && |Flat(c.queue)| + |data| <= HARD_LIMIT
    ensures Sound(Enqueue(c, data, now)) && Flat(Enqueue(c, data, now).queue) == Flat(c.queue) + data
  {
    FlatSnoc(c.queue, data);
    hide Flat;
    assert c.wire + (Flat(c.queue) + data) == c.wire + Flat(c.queue) + data;
  }

  lemma StepSound(c: Conn, e: Event)
    requires Sound(c)
    ensures Sound(Step(c, e).0) && c.wire <= Step(c, e).0.wire
    ensures Step(c, e).0.enqueued ==
            c.enqueued + if e.SendCall? && |Flat(c.queue)| + |e.data| <= HARD_LIMIT then e.data else []
  {
    hide Flat, Drained, Flush;
    match e
    case SendCall(data, now, script, ctlOk) =>
      if 0 < |data| && |Flat(c.queue)| + |data| <= HARD_LIMIT {
        EnqueueSound(c, data, now);
        FlushSound(Enqueue(c, data, now), now, script, ctlOk);
        var _ := FlushMoves(Enqueue(c, data, now), now, script, ctlOk);
      }
    case FlushCall(now, script, ctlOk) =>
      FlushSound(c, now, script, ctlOk);
      var _ := FlushMoves(c, now, script, ctlOk);
    case RegisterCall(_) =>
  }

  // ------------------------------------------------------------------ readiness

  /** Write-readiness is armed exactly when something is queued. */
  predicate ArmedRight(c: Conn) {
    c.registered ==> (c.armed <==> c.queue != [])
  }

  predicate CtlWorks(e: Event) {
    e.ctlOk
  }

  predicate EmptySend(e: Event) {
    e.SendCall? && e.data == []
  }

  /**
   After every successful call readiness is right, whatever it was before, if the `epoll_ctl` call
   worked; only a send of no bytes does nothing at all and leaves readiness as it finds it.
   */
  lemma CallArms(c: Conn, e: Event)
    requires Step(c, e).1
    ensures EmptySend(e) ==> Step(c, e).0 == c
    ensures !EmptySend(e) && CtlWorks(e) ==> ArmedRight(Step(c, e).0)
  {
    hide Flat, Drained;
  }

  /** Every `epoll_ctl` works and every flush and registration succeeds; sends may succeed or fail. */
  predicate Served(c: Conn, run: seq<Event>)
    decreases |run|
  {
    |run| == 0
    || (CtlWorks(run[0]) && (run[0].SendCall? || Step(c, run[0]).1) && Served(Step(c, run[0]).0, run[1..]))
  }

  /** One call: a failed send marks the connection for eviction, everything else leaves readiness right. */
  lemma StepArms(c: Conn, e: Event)
    requires c.evict || ArmedRight(c)
    requires CtlWorks(e) && (e.SendCall? || Step(c, e).1)
    ensures var c' := Step(c, e).0; (c'.evict || ArmedRight(c')) && (Step(c, e).1 && ArmedRight(c) ==> ArmedRight(c'))
  {
    hide Flat, Drained;
    if Step(c, e).1 {
      CallArms(c, e);
    }
  }

  /**
   Over any run of sends, flushes and registrations with arbitrary partial writes, a connection
   that is not being evicted has write-readiness armed exactly when its queue is not empty.
   */
  lemma {:induction false} RunArms(c: Conn, run: seq<Event>)
    requires (c.evict || ArmedRight(c)) && Served(c, run)
    ensures Run(c, run).evict || ArmedRight(Run(c, run))
    decreases |run|
  {
    hide Step, ArmedRight, CtlWorks;
    if |run| > 0 {
      StepArms(c, run[0]);
      RunArms(Step(c, run[0]).0, run[1..]);
    }
  }

  predicate AllOk(c: Conn, run: seq<Event>)
    decreases |run|
  {
    |run| == 0 || (CtlWorks(run[0]) && Step(c, run[0]).1 && AllOk(Step(c, run[0]).0, run[1..]))
  }

  /** While every call succeeds, readiness is right after each of them. */
  lemma {:induction false} SuccessArms(c: Conn, run: seq<Event>)
    requires ArmedRight(c) && AllOk(c, run)
    ensures ArmedRight(Run(c, run))
    decreases |run|
  {
    hide Step, ArmedRight, CtlWorks;
    if |run| > 0 {
      StepArms(c, run[0]);
      SuccessArms(Step(c, run[0]).0, run[1..]);
    }
  }

  /**
   A send of no bytes reports success on any connection: after a failed send the queue is not
   empty, readiness is not armed, and the empty send changes neither.
   */
  lemma EmptySendStaysWrong(b: byte, now: int)
    ensures var c0 := Conn([], [], [], 0, false, false, false);
            var c := Run(c0, [RegisterCall(true), SendCall([b], now, [Broken], true)]);
            var (c', ok) := Step(c, SendCall([], now, [], true));
            ok && c' == c && c.evict && c.registered && c.queue != [] && !c.armed
  {
    var c0 := Conn([], [], [], 0, false, false, false);
    var c1 := Step(c0, RegisterCall(true)).0;
    var e := SendCall([b], now, [Broken], true);
    assert c1.queue == [] && Flat(c1.queue) == [];
    var c2 := Enqueue(c1, [b], now);
    assert c2.queue == [[b]];
    assert Drained(c2.queue, [Broken]) == (c2.queue, false);
    var run := [RegisterCall(true), e];
    assert run[1..] == [e] && run[1..][1..] == [];
    assert Run(c0, run) == Run(c1, [e]) == Run(Step(c1, e).0, []) == Step(c1, e).0;
  }

  /**
   Over any run: what the socket took, followed by what is still queued, is
   what was queued at the start followed by every accepted packet, in order; the
   queue never exceeds 16 MiB.
   */
  lemma {:induction false} RunConserves(c: Conn, run: seq<Event>)
    requires Sound(c)
    ensures Sound(Run(c, run))
    ensures var c' := Run(c, run);
            && c'.wire + Flat(c'.queue) == c.wire + Flat(c.queue) + Accepted(c, run)
            && c.wire <= c'.wire && |Flat(c'.queue)| <= HARD_LIMIT
    decreases |run|
  {
    if |run| > 0 {
      StepSound(c, run[0]);
      RunConserves(Step(c, run[0]).0, run[1..]);
    }
  }

  /** Every timed event happens after `t`. */
  ghost predicate After(run: seq<Event>, t: int) {
    forall i :: 0 <= i < |run| && !run[i].RegisterCall? ==> run[i].now > t
  }

  /** A step after the last recorded progress records new progress, or writes nothing to a queue that is not empty. */
  lemma StepProgress(c: Conn, e: Event)
    requires Sound(c) && (e.RegisterCall? || e.now > c.progress)
    ensures var c' := Step(c, e).0;
            && (c'.progress == c.progress ==> c'.wire == c.wire && (c'.queue != [] ==> c.queue != []))
            && (c'.progress == c.progress || (!e.RegisterCall? && c'.progress == e.now))
  {
    hide Flat, Drained, Flush;
    match e
    case SendCall(data, now, script, ctlOk) =>
      if 0 < |data| && |Flat(c.queue)| + |data| <= HARD_LIMIT {
        EnqueueSound(c, data, now);
        var _ := FlushMoves(Enqueue(c, data, now), now, script, ctlOk);
      }
    case FlushCall(now, script, ctlOk) =>
      var _ := FlushMoves(c, now, script, ctlOk);
    case RegisterCall(_) =>
  }

  /** The time of the last step that wrote a byte or queued one behind an empty queue; `t` if there was none. */
  function LastMove(c: Conn, run: seq<Event>, t: int): int
    decreases |run|
  {
    if |run| == 0 then t
    else
      var c', e := Step(c, run[0]).0, run[0];
      LastMove(c', run[1..],
               if !e.RegisterCall? && (c'.wire != c.wire || (c.queue == [] && c'.enqueued != c.enqueued)) then e.now
               else t)
  }

  lemma StepMoves(c: Conn, e: Event)
    requires Sound(c)
    ensures var c' := Step(c, e).0;
            c'.progress == if !e.RegisterCall? && (c'.wire != c.wire || (c.queue == [] && c'.enqueued != c.enqueued))
                           then e.now else c.progress
  {
    hide Flat, Drained, Flush;
    match e
    case SendCall(data, now, script, ctlOk) =>
      if 0 < |data| && |Flat(c.queue)| + |data| <= HARD_LIMIT {
        EnqueueSound(c, data, now);
        var w := FlushMoves(Enqueue(c, data, now), now, script, ctlOk);
        assert c.enqueued + data != c.enqueued;
        assert |w| > 0 ==> c.wire + w != c.wire;
      }
    case FlushCall(now, script, ctlOk) =>
      var w := FlushMoves(c, now, script, ctlOk);
      assert |w| > 0 ==> c.wire + w != c.wire;
    case RegisterCall(_) =>
  }

  /**
   Over every run, a connection is reported as stalled exactly when something is queued and the last
   byte was written, or the queue last stopped being empty, more than 120 seconds ago.
   */
  lemma {:induction false} StalledExact(c: Conn, run: seq<Event>, now: int)
    requires Sound(c)
    ensures Run(c, run).progress == LastMove(c, run, c.progress)
    ensures Stalled(Run(c, run), now) <==>
            Run(c, run).queue != [] && now - LastMove(c, run, c.progress) > 120
    decreases |run|
  {
    if |run| == 0 {
      if c.queue != [] {
        NonEmpty(c.queue);
      }
    } else {
      StepSound(c, run[0]);
      StepMoves(c, run[0]);
      StalledExact(Step(c, run[0]).0, run[1..], now);
    }
  }

  /**
   A stalled connection has really made no progress: since the recorded time
   not one byte was written, and the queue was never empty.
   */
  lemma {:induction false} StallIsReal(c: Conn, run: seq<Event>, k: nat)
    requires Sound(c) && k <= |run|
    requires var c' := Run(c, run); After(run, c'.progress) && c'.queue != []
    requires c.progress <= Run(c, run).progress
    ensures Run(c, run[..k]).wire == Run(c, run).wire
    ensures Run(c, run[..k]).queue != [] && Run(c, run[..k]).progress == Run(c, run).progress
    decreases |run|
  {
    if |run| == 0 {
      assert run[..k] == run;
    } else {
      var e, c1 := run[0], Step(c, run[0]).0;
      StepSound(c, e);
      StepProgress(c, e);
      ProgressRises(c1, run[1..], Run(c, run).progress);
      assert After(run[1..], Run(c, run).progress);
      if k == 0 {
        StallIsReal(c1, run[1..], 0);
        assert run[1..][..0] == [] && run[..0] == [];
      } else {
        StallIsReal(c1, run[1..], k - 1);
        assert run[..k][1..] == run[1..][..k - 1];
      }
    }
  }

  /** With every event later than `t`, a progress time past `t` never comes back to it. */
  lemma {:induction false} ProgressRises(c: Conn, run: seq<Event>, t: int)
    requires Sound(c) && After(run, t)
    ensures c.progress > t ==> Run(c, run).progress > t
    decreases |run|
  {
    if |run| > 0 {
      var c1 := Step(c, run[0]).0;
      StepSound(c, run[0]);
      assert c1.progress == c.progress || (!run[0].RegisterCall? && c1.progress == run[0].now);
      ProgressRises(c1, run[1..], t);
    }
  }
}
