/**
 The open-addressing index of src/infra/dandelion.c: linear probing over an
 array of positions into the entry array. A growth rebuild happens after the
 new entry is already counted, so that entry sits in two slots afterwards; the
 invariant allows it.
 */
module DandelionIndex {
  import opened Numerals

  type Hash = h: seq<byte> | |h| == 32 witness seq(32, _ => 0)

  /** `BM_DANDELION_INDEX_EMPTY`: the one value that is not a position. */
  const EMPTY := -1
  const INITIAL_CAPACITY := 128

  /** `index_key`: the first eight bytes as a little-endian number. */
  function Key(h: Hash): nat {
    var bigEndian: seq<byte> := [h[7], h[6], h[5], h[4], h[3], h[2], h[1], h[0]];
    ValueBounds(256, bigEndian);
    Value(256, bigEndian)
  }

  function Home(h: Hash, cap: nat): (s: nat)
    requires cap > 0
    ensures s < cap
  {
    Key(h) % cap
  }

  /** `(slot + 1) % capacity` */
  function Next(slot: nat, cap: nat): (s: nat)
    requires slot < cap
    ensures s < cap && s == if slot + 1 == cap then 0 else slot + 1
  {
    DivModUnique(slot + 1, cap, if slot + 1 == cap then 1 else 0, if slot + 1 == cap then 0 else slot + 1);
    (slot + 1) % cap
  }

  /** The slot `d` probes after `home`. */
  function Probe(home: nat, d: nat, cap: nat): (s: nat)
    requires home < cap && d <= cap
    ensures s < cap
  {
    if home + d < cap then home + d else home + d - cap
  }

  /** What a plain scan of the entries finds. */
  function Scan(hashes: seq<Hash>, h: Hash): (r: int)
    ensures r == EMPTY <==> h !in hashes
    ensures r != EMPTY ==> 0 <= r < |hashes| && hashes[r] == h
    ensures forall k :: 0 <= k < |hashes| && (r == EMPTY || k < r) ==> hashes[k] != h
  {
    if |hashes| == 0 then EMPTY
    else if hashes[0] == h then 0
    else
      var r := Scan(hashes[1..], h);
      assert forall k :: 1 <= k < |hashes| ==> hashes[k] == hashes[1..][k - 1];
      if r == EMPTY then EMPTY else r + 1
  }

  /** Probing `d` times from `home` meets no empty slot and then position `i`. */
  ghost predicate FoundAt(slots: seq<int>, home: nat, i: int, d: nat)
    requires home < |slots|
  {
    && d < |slots| && slots[Probe(home, d, |slots|)] == i
    && forall e :: 0 <= e < d ==> slots[Probe(home, e, |slots|)] != EMPTY
  }

  ghost predicate Found(slots: seq<int>, h: Hash, i: int)
    requires |slots| > 0
  {
    exists d :: FoundAt(slots, Home(h, |slots|), i, d)
  }

  /** Occupied slots. */
  ghost function Count(slots: seq<int>): (n: nat)
    ensures n <= |slots|
  {
    if |slots| == 0 then 0
    else Count(slots[..|slots| - 1]) + if slots[|slots| - 1] == EMPTY then 0 else 1
  }

  /** The slots index the first `n` hashes and hold nothing else. */
  ghost predicate Indexes(slots: seq<int>, hashes: seq<Hash>, n: nat)
    requires |slots| > 0 && n <= |hashes|
  {
    && (forall s :: 0 <= s < |slots| ==> slots[s] == EMPTY || 0 <= slots[s] < n)
    && (forall i :: 0 <= i < n ==> Found(slots, hashes[i], i))
  }

  /** The whole invariant: every hash is reachable, and at most half of the slots are in use. */
  ghost predicate Ok(slots: seq<int>, hashes: seq<Hash>) {
    && |slots| > 0
    && Distinct(hashes)
    && Indexes(slots, hashes, |hashes|)
    && Count(slots) <= |hashes| + 1
    && 2 * (|hashes| + 1) <= |slots|
  }

  // ------------------------------------------------------------------ lemmas

  lemma {:induction false} CountEmpty(slots: seq<int>)
    requires forall s :: 0 <= s < |slots| ==> slots[s] == EMPTY
    ensures Count(slots) == 0
  {
    if |slots| > 0 { CountEmpty(slots[..|slots| - 1]); }
  }

  /** Fewer occupied slots than slots: one of them is free. */
  lemma {:induction false} SomeEmpty(slots: seq<int>) returns (s: nat)
    requires Count(slots) < |slots|
    ensures s < |slots| && slots[s] == EMPTY
  {
    var n := |slots| - 1;
    if slots[n] == EMPTY {
      s := n;
    } else {
      s := SomeEmpty(slots[..n]);
    }
  }

  lemma {:induction false} CountFill(slots: seq<int>, s: nat, i: int)
    requires s < |slots| && slots[s] == EMPTY && i != EMPTY
    ensures Count(slots[s := i]) == Count(slots) + 1
  {
    var n := |slots| - 1;
    if s == n {
      assert slots[s := i][..n] == slots[..n];
    } else {
      CountFill(slots[..n], s, i);
      assert slots[s := i][..n] == slots[..n][s := i];
    }
  }

  /** Filling a free slot breaks no probe path. */
  lemma FillKeeps(slots: seq<int>, s: nat, v: int, h: Hash, i: int)
    requires s < |slots| && slots[s] == EMPTY && v != EMPTY && i != EMPTY
    requires Found(slots, h, i)
    ensures Found(slots[s := v], h, i)
  {
    var home := Home(h, |slots|);
    var d :| FoundAt(slots, home, i, d);
    assert FoundAt(slots[s := v], home, i, d);
  }

  /** Registering one more position in the first free slot of its probe path. */
  lemma Register(slots: seq<int>, hashes: seq<Hash>, n: nat, i: nat, d: nat)
    requires |slots| > 0 && n <= |hashes| && i < |hashes| && (i == n || i == n - 1)
    requires Indexes(slots, hashes, n)
    requires FoundAt(slots, Home(hashes[i], |slots|), EMPTY, d)
    ensures var s := Probe(Home(hashes[i], |slots|), d, |slots|);
            && Indexes(slots[s := i], hashes, i + 1)
            && Count(slots[s := i]) == Count(slots) + 1
  {
    var home := Home(hashes[i], |slots|);
    var s := Probe(home, d, |slots|);
    var slots' := slots[s := i];
    CountFill(slots, s, i);
    forall k | 0 <= k < i + 1
      ensures Found(slots', hashes[k], k)
    {
      if k < i || (k == i && i < n) {
        FillKeeps(slots, s, i, hashes[k], k);
      } else {
        assert FoundAt(slots', home, i, d);
      }
    }
  }

  /** A probe path that has met `d` slots, none of them free or matching, has not passed the hash. */
  lemma NotPassed(slots: seq<int>, hashes: seq<Hash>, h: Hash, d: nat)
    requires |slots| > 0 && Distinct(hashes) && Indexes(slots, hashes, |hashes|) && d <= |slots|
    requires forall e :: 0 <= e < d ==> slots[Probe(Home(h, |slots|), e, |slots|)] != EMPTY
                                        && hashes[slots[Probe(Home(h, |slots|), e, |slots|)]] != h
    ensures d == |slots| || slots[Probe(Home(h, |slots|), d, |slots|)] == EMPTY ==> h !in hashes
  {
    if h in hashes {
      var i := Scan(hashes, h);
      assert Found(slots, hashes[i], i);
      var e :| FoundAt(slots, Home(h, |slots|), i, e);
    }
  }

  /** Among more slots than occupied ones, probing meets a free one before it comes round. */
  lemma FreeAhead(slots: seq<int>, home: nat, d: nat) returns (f: nat)
    requires home < |slots| && Count(slots) < |slots|
    requires forall e :: 0 <= e < d ==> e < |slots| && slots[Probe(home, e, |slots|)] != EMPTY
    ensures d <= f < |slots| && slots[Probe(home, f, |slots|)] == EMPTY
  {
    var s := SomeEmpty(slots);
    f := if s >= home then s - home else s + |slots| - home;
    assert Probe(home, f, |slots|) == s;
  }

  // ------------------------------------------------------------------ methods

  /** The probe loop of an insertion: the first free slot from `home`. */
  method FirstFree(slots: array<int>, home: nat) returns (slot: nat, ghost d: nat)
    requires home < slots.Length && Count(slots[..]) < slots.Length
    ensures FoundAt(slots[..], home, EMPTY, d) && slot == Probe(home, d, slots.Length)
  {
    slot, d := home, 0;
    ghost var free := FreeAhead(slots[..], home, 0);
    while slots[slot] != EMPTY
      invariant d <= free && slot == Probe(home, d, slots.Length)
      invariant forall e :: 0 <= e < d ==> slots[Probe(home, e, slots.Length)] != EMPTY
      decreases free - d
    {
      slot := Next(slot, slots.Length);
      d := d + 1;
    }
  }

  /** `index_lookup`: exactly what a plain scan of the entries returns. */
  method Lookup(slots: array<int>, hashes: seq<Hash>, h: Hash) returns (r: int)
    requires slots.Length > 0 ==> Ok(slots[..], hashes)
    requires slots.Length == 0 ==> hashes == []
    ensures r == Scan(hashes, h)
  {
    var cap := slots.Length;
    if cap == 0 {
      return EMPTY;
    }
    ghost var home := Home(h, cap);
    var slot := Key(h) % cap;
    var probes := 0;
    while probes < cap
      invariant 0 <= probes <= cap && slot == Probe(home, probes, cap)
      invariant forall e :: 0 <= e < probes ==> slots[..][Probe(home, e, cap)] != EMPTY
                                                && hashes[slots[..][Probe(home, e, cap)]] != h
    {
      var idx := slots[slot];
      if idx == EMPTY {
        NotPassed(slots[..], hashes, h, probes);
        return EMPTY;
      }
      if hashes[idx] == h {
        return idx;
      }
      slot := Next(slot, cap);
      probes := probes + 1;
    }
    NotPassed(slots[..], hashes, h, cap);
    r := EMPTY;
  }

  /** `index_rebuild`: a fresh table of the given capacity, one slot per entry. */
  method Rebuild(hashes: seq<Hash>, capacity: nat) returns (slots: array<int>)
    requires |hashes| < capacity
    ensures fresh(slots) && slots.Length == capacity
    ensures Indexes(slots[..], hashes, |hashes|) && Count(slots[..]) == |hashes|
  {
    slots := new int[capacity](_ => EMPTY);
    CountEmpty(slots[..]);
    for i := 0 to |hashes|
      invariant Indexes(slots[..], hashes, i) && Count(slots[..]) == i
    {
      var slot, d := FirstFree(slots, Key(hashes[i]) % capacity);
      Register(slots[..], hashes, i, i, d);
      ghost var before := slots[..];
      slots[slot] := i;
      assert slots[..] == before[slot := i];
    }
  }

  /**
   The index part of `find_or_create_entry`, after the new entry was appended:
   make room if the load would exceed one half, then register the new position.
   The rebuild sees the new entry already, so it may end up in two slots.
   */
  method AddLast(slots0: array<int>, hashes: seq<Hash>) returns (slots: array<int>)
    requires |hashes| > 0 && Distinct(hashes)
    requires slots0.Length == 0 ==> |hashes| == 1
    requires slots0.Length > 0 ==> Ok(slots0[..], hashes[..|hashes| - 1])
    modifies slots0
    ensures slots == slots0 || fresh(slots)
    ensures slots.Length > 0 && Ok(slots[..], hashes)
    ensures Count(slots[..]) == if slots == slots0 then old(Count(slots0[..])) + 1 else |hashes| + 1
  {
    var n := |hashes| - 1;
    slots := slots0;
    ghost var known := n;
    if slots.Length == 0 {
      slots := Rebuild(hashes, INITIAL_CAPACITY);
      known := |hashes|;
    } else if (|hashes| + 1) * 2 > slots.Length {
      slots := Rebuild(hashes, slots.Length * 2);
      known := |hashes|;
    } else {
      PrefixIndexes(slots[..], hashes, n);
    }
    var slot, d := FirstFree(slots, Key(hashes[n]) % slots.Length);
    Register(slots[..], hashes, known, n, d);
    ghost var before := slots[..];
    slots[slot] := n;
    assert slots[..] == before[slot := n];
  }

  lemma PrefixIndexes(slots: seq<int>, hashes: seq<Hash>, n: nat)
    requires |slots| > 0 && n <= |hashes| && Indexes(slots, hashes[..n], n)
    ensures Indexes(slots, hashes, n)
  {
    forall i | 0 <= i < n
      ensures Found(slots, hashes[i], i)
    {
      assert hashes[i] == hashes[..n][i];
    }
  }
}
