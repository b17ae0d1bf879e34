/**
 The batch conversion of src/core/api_server.c: it pages through the version 3
 rows while its own successes delete rows from that listing.
 */
module BatchConversion {
  import opened Numerals
  import opened Keyring
  import opened Migration

  /** The version 3 rows in listing order. */
  function Select(order: seq<Name>, rows: map<Name, Row>): seq<Name> {
    if |order| == 0 then []
    else (if IsV3(order[0], rows) then [order[0]] else []) + Select(order[1..], rows)
  }

  predicate IsV3(n: Name, rows: map<Name, Row>) {
    n in rows && rows[n].version == 3
  }

  function V3Names(s: Store): seq<Name> {
    Select(s.order, s.rows)
  }

  /** `bm_identity_store_list_by_version` */
  function Page(s: Store, limit: nat, offset: nat): seq<Name> {
    var all := V3Names(s);
    if offset >= |all| then [] else if offset + limit >= |all| then all[offset..] else all[offset..offset + limit]
  }

  /** `convert_one_v3_to_v4`, when only the first `k` writes reach the disk. */
  function Convert(h: Naming, db: Db, v3: Name, pass: Passphrase, a: Attempt): (Db, bool) {
    var p := PlanFor(h, db.store, v3, pass, a.f);
    if p.Refused? then (db, false)
    else if a.k < |Writes(p, v3)| then (Stopped(h, db, v3, pass, a.f, a.k), false)
    else (Complete(h, db, v3, pass, a.f), true)
  }

  // ----------------------------------------------------------------- the listing

  lemma {:induction false} SelectConcat(a: seq<Name>, b: seq<Name>, rows: map<Name, Row>)
    ensures Select(a + b, rows) == Select(a, rows) + Select(b, rows)
  {
    if |a| == 0 {
      assert a + b == b;
    } else {
      assert (a + b)[1..] == a[1..] + b;
      SelectConcat(a[1..], b, rows);
    }
  }

  lemma {:induction false} SelectAlike(order: seq<Name>, a: map<Name, Row>, b: map<Name, Row>)
    requires forall i :: 0 <= i < |order| ==> IsV3(order[i], a) == IsV3(order[i], b)
    ensures Select(order, a) == Select(order, b)
  {
    if |order| > 0 {
      SelectAlike(order[1..], a, b);
    }
  }

  lemma {:induction false} SelectMember(order: seq<Name>, rows: map<Name, Row>, n: Name)
    ensures n in Select(order, rows) <==> n in order && IsV3(n, rows)
  {
    if |order| > 0 {
      SelectMember(order[1..], rows, n);
      assert n in order <==> n == order[0] || n in order[1..];
    }
  }

  lemma {:induction false} SelectDistinct(order: seq<Name>, rows: map<Name, Row>)
    requires Distinct(order)
    ensures Distinct(Select(order, rows))
  {
    if |order| > 0 {
      SelectDistinct(order[1..], rows);
      var rest := Select(order[1..], rows);
      forall i | 0 <= i < |rest|
        ensures rest[i] != order[0]
      {
        SelectMember(order[1..], rows, rest[i]);
        assert rest[i] in rest;
      }
    }
  }

  lemma Cons(x: Name, rest: seq<Name>, rows: map<Name, Row>, name: Name)
    ensures Select([x] + rest, rows) == if IsV3(x, rows) then [x] + Select(rest, rows) else Select(rest, rows)
    ensures Without([x] + rest, name) == if x == name then Without(rest, name) else [x] + Without(rest, name)
  {
    assert ([x] + rest)[1..] == rest;
  }

  lemma {:induction false} SelectWithout(order: seq<Name>, rows: map<Name, Row>, name: Name)
    ensures Select(Without(order, name), rows - {name}) == Without(Select(order, rows), name)
  {
    if |order| > 0 {
      var x, rest := order[0], order[1..];
      SelectWithout(rest, rows, name);
      Cons(x, rest, rows, name);
      Cons(x, Without(rest, name), rows - {name}, name);
      Cons(x, Select(rest, rows), rows, name);
      assert order == [x] + rest;
      hide Select, Without;
      assert x != name ==> IsV3(x, rows - {name}) == IsV3(x, rows);
    }
  }

  /** The listing names every version 3 row, once. */
  lemma ListsAll(h: Naming, s: Store, n: Name)
    requires Wf(h, s)
    ensures n in V3Names(s) <==> n in s.rows && s.rows[n].version == 3
    ensures Distinct(V3Names(s))
  {
    SelectMember(s.order, s.rows, n);
    SelectDistinct(s.order, s.rows);
    hide Sound, Named;
  }

  lemma SelectPlace(order: seq<Name>, name: Name, at: nat, rows: map<Name, Row>)
    requires !IsV3(name, rows)
    ensures Select(Place(order, name, at), rows) == Select(order, rows)
  {
    Cons(name, [], rows, name);
    assert Select([], rows) == [] && [name] + [] == [name];
    hide Select;
    var cut := if at <= |order| then at else |order|;
    var front, back := order[..cut], order[cut..];
    assert Place(order, name, at) == front + [name] + back;
    assert order == front + back;
    SelectConcat(front, back, rows);
    SelectConcat(front + [name], back, rows);
    SelectConcat(front, [name], rows);
  }

  /** The base store of a conversion lists the same version 3 rows. */
  lemma BaseLists(h: Naming, s: Store, v3: Name, pass: Passphrase, f: Fresh)
    requires Wf(h, s) && PlanFor(h, s, v3, pass, f).Go?
    ensures V3Names(Base(h, s, v3, pass, f)) == V3Names(s)
  {
    hide PlanFor, Export, V4Name, Fill, Make, Sound, Named, Sibling, Select, Place, Distinct;
    PlanGoes(h, s, v3, pass, f);
    BaseFacts(h, s, v3, pass, f);
    var p := PlanFor(h, s, v3, pass, f);
    if p.created {
      var (id, made) := Sibling(s, s.rows[v3], p.v4, Export(s, v3, pass).value, pass, f);
      var rows := s.rows[p.v4 := made];
      SiblingAt(s, s.rows[v3], p.v4, Export(s, v3, pass).value, pass, f);
      SelectPlace(s.order, p.v4, f.at, rows);
      forall i | 0 <= i < |s.order|
        ensures IsV3(s.order[i], s.rows) == IsV3(s.order[i], rows)
      {
      }
      SelectAlike(s.order, s.rows, rows);
    }
  }

  lemma SiblingAt(s: Store, v3: Row, v4: Name, keys: Secrets, pass: Passphrase, f: Fresh)
    ensures Sibling(s, v3, v4, keys, pass, f).0.at == f.at && Sibling(s, v3, v4, keys, pass, f).0.name == v4
  {
  }

  lemma TouchedLists(s: Store, name: Name, row: Row)
    requires name in s.rows && row.version == s.rows[name].version
    ensures V3Names(Update(s, name, row)) == V3Names(s)
  {
    SelectAlike(s.order, s.rows, Update(s, name, row).rows);
  }

  /** A conversion that succeeds removes its row from the listing; one that fails leaves the listing as it was. */
  lemma ConvertLists(h: Naming, db: Db, v3: Name, pass: Passphrase, a: Attempt)
    requires Wf(h, db.store)
    ensures var (db1, ok) := Convert(h, db, v3, pass, a);
            Wf(h, db1.store) && V3Names(db1.store) == if ok then Without(V3Names(db.store), v3) else V3Names(db.store)
  {
    hide PlanFor, Sound, Named, Listed, Base, Select, Complete, Writes, ApplyAll, Finish, Merge;
    var p := PlanFor(h, db.store, v3, pass, a.f);
    if p.Go? {
      var k := if a.k < |Writes(p, v3)| then a.k else |Writes(p, v3)|;
      StopLosesNothing(h, db, v3, pass, a.f, k);
      ConversionFacts(h, db, v3, pass, a.f);
      BaseLists(h, db.store, v3, pass, a.f);
      var base := Base(h, db.store, v3, pass, a.f);
      if a.k >= |Writes(p, v3)| {
        WholeWrites(h, db, v3, pass, a.f);
        CompleteIs(h, db, v3, pass, a.f);
        FinishLists(base, db, v3, p.v4, a.f);
      } else if a.k == 0 && p.created {
        StoppedAtOnce(h, db, v3, pass, a.f, a.f);
      } else {
        PrefixMidway(h, db, v3, pass, a.f, a.k);
        MidwayLists(base, db, Stopped(h, db, v3, pass, a.f, a.k), v3, p.v4);
      }
    }
  }

  lemma WholeWrites(h: Naming, db: Db, v3: Name, pass: Passphrase, f: Fresh)
    ensures var n := |Writes(PlanFor(h, db.store, v3, pass, f), v3)|;
            Stopped(h, db, v3, pass, f, n) == Complete(h, db, v3, pass, f)
  {
    hide PlanFor, ApplyAll;
    var ws := Writes(PlanFor(h, db.store, v3, pass, f), v3);
    assert ws[..|ws|] == ws;
  }

  lemma FinishLists(base: Store, db: Db, v3: Name, v4: Name, f: Fresh)
    requires v3 in base.rows && v4 in base.rows
    ensures V3Names(Finish(base, db, v3, v4, f).store) == Without(V3Names(base), v3)
  {
    var merged := Merge(base.rows[v4], Offered(base.rows[v3], f));
    TouchedLists(base, v4, merged);
    SelectWithout(base.order, Update(base, v4, merged).rows, v3);
    hide Select, Without, RenameTo, RenameFrom;
  }

  lemma MidwayLists(base: Store, db: Db, x: Db, v3: Name, v4: Name)
    requires Midway(base, db, x, v3, v4)
    ensures V3Names(x.store) == V3Names(base)
  {
    MergedAlike(x.store.rows[v4], base.rows[v4], base.rows[v3]);
    TouchedLists(base, v4, x.store.rows[v4]);
  }

  // ---------------------------------------------------------------------- the loop

  /** A batch in progress: the databases, and the names that were converted and that failed, in order. */
  datatype Batch = Batch(db: Db, converted: seq<Name>, failed: seq<Name>)

  function TryOne(h: Naming, b: Batch, n: Name, pass: Passphrase, a: Attempt): Batch {
    var (db, ok) := Convert(h, b.db, n, pass, a);
    if ok then Batch(db, b.converted + [n], b.failed) else Batch(db, b.converted, b.failed + [n])
  }

  /** One conversion after the other, the `i`-th with the luck of the `i`-th attempt. */
  function ConvertAll(h: Naming, db: Db, pass: Passphrase, luck: nat -> Attempt, names: seq<Name>): Batch {
    var n := |names|;
    if n == 0 then Batch(db, [], [])
    else TryOne(h, ConvertAll(h, db, pass, luck, names[..n - 1]), names[n - 1], pass, luck(n - 1))
  }

  lemma ConvertNone(h: Naming, db: Db, pass: Passphrase, luck: nat -> Attempt)
    ensures ConvertAll(h, db, pass, luck, []) == Batch(db, [], [])
  {
  }

  lemma ConvertAllSnoc(h: Naming, db: Db, pass: Passphrase, luck: nat -> Attempt, names: seq<Name>, n: Name)
    ensures ConvertAll(h, db, pass, luck, names + [n]) ==
            TryOne(h, ConvertAll(h, db, pass, luck, names), n, pass, luck(|names|))
  {
    hide TryOne;
    assert (names + [n])[..|names|] == names;
  }

  lemma {:induction false} WithoutAbsent(names: seq<Name>, n: Name)
    requires n !in names
    ensures Without(names, n) == names
  {
    if |names| > 0 {
      WithoutAbsent(names[1..], n);
    }
  }

  lemma {:induction false} WithoutMiddle(front: seq<Name>, n: Name, back: seq<Name>)
    requires n !in front && n !in back
    ensures Without(front + [n] + back, n) == front + back
  {
    if |front| == 0 {
      assert front + [n] + back == [n] + back && front + back == back;
      assert ([n] + back)[1..] == back;
      WithoutAbsent(back, n);
    } else {
      WithoutMiddle(front[1..], n, back);
      assert (front + [n] + back)[1..] == front[1..] + [n] + back;
      assert [front[0]] + (front[1..] + back) == front + back;
    }
  }

  lemma Splice(failed: seq<Name>, rest: seq<Name>)
    requires |rest| > 0 && Distinct(failed + rest)
    ensures failed + rest == failed + [rest[0]] + rest[1..]
    ensures Without(failed + rest, rest[0]) == failed + rest[1..]
  {
    hide Without;
    var all, n, back := failed + rest, rest[0], rest[1..];
    assert all == failed + [n] + back && all[|failed|] == n;
    forall i | 0 <= i < |failed|
      ensures failed[i] != n
    {
      assert all[i] == failed[i];
    }
    forall i | 0 <= i < |back|
      ensures back[i] != n
    {
      assert all[|failed| + 1 + i] == back[i];
    }
    WithoutMiddle(failed, n, back);
  }

  /** What one attempt does to a listing whose first rows have failed already. */
  lemma Advance(h: Naming, db: Db, pass: Passphrase, a: Attempt, failed: seq<Name>, rest: seq<Name>)
    requires Wf(h, db.store) && |rest| > 0 && V3Names(db.store) == failed + rest
    ensures var (db1, ok) := Convert(h, db, rest[0], pass, a);
            && Wf(h, db1.store)
            && V3Names(db1.store) == (if ok then failed else failed + [rest[0]]) + rest[1..]
  {
    hide V3Names, Convert, Wf, Distinct, Without;
    ListsAll(h, db.store, rest[0]);
    ConvertLists(h, db, rest[0], pass, a);
    Splice(failed, rest);
  }

  /** One page: every row on it is tried once, on top of what was done before. */
  method ConvertPage(h: Naming, b: Batch, pass: Passphrase, luck: nat -> Attempt, page: seq<Name>, used: nat,
                     ghost db: Db, ghost before: seq<Name>, ghost rest: seq<Name>) returns (b': Batch)
    requires b == ConvertAll(h, db, pass, luck, before) && used == |before|
    requires Wf(h, b.db.store) && V3Names(b.db.store) == b.failed + (page + rest)
    ensures b' == ConvertAll(h, db, pass, luck, before + page)
    ensures Wf(h, b'.db.store) && V3Names(b'.db.store) == b'.failed + rest
    ensures |b'.converted| + |b'.failed| == |b.converted| + |b.failed| + |page|
    ensures |b.converted| <= |b'.converted| && |b.failed| <= |b'.failed|
  {
    hide V3Names, Convert, Wf, ConvertAll;
    b' := b;
    assert page[0..] == page && before + page[..0] == before;
    for i := 0 to |page|
      invariant b' == ConvertAll(h, db, pass, luck, before + page[..i])
      invariant Wf(h, b'.db.store) && V3Names(b'.db.store) == b'.failed + (page[i..] + rest)
      invariant |b'.converted| + |b'.failed| == |b.converted| + |b.failed| + i
      invariant |b.converted| <= |b'.converted| && |b.failed| <= |b'.failed|
    {
      PageStep(before, page, rest, i);
      Advance(h, b'.db, pass, luck(used + i), b'.failed, page[i..] + rest);
      ConvertAllSnoc(h, db, pass, luck, before + page[..i], page[i]);
      var (next, ok) := Convert(h, b'.db, page[i], pass, luck(used + i));
      if ok {
        b' := Batch(next, b'.converted + [page[i]], b'.failed);
      } else {
        b' := Batch(next, b'.converted, b'.failed + [page[i]]);
      }
    }
    assert page[|page|..] + rest == rest && page[..|page|] == page;
  }

  lemma PageStep(before: seq<Name>, page: seq<Name>, rest: seq<Name>, i: nat)
    requires i < |page|
    ensures (page[i..] + rest)[0] == page[i] && (page[i..] + rest)[1..] == page[i + 1..] + rest
    ensures before + page[..i] + [page[i]] == before + page[..i + 1]
  {
  }

  /**
   `h_convertV3AddressesToV4`: what is left is exactly one conversion after the other over the
   first rows of the listing at the start, each tried once, and the two lists are the names
   that were converted and that failed; at most `limit` are converted, and if fewer are, every
   version 3 row was tried, unless a listing failed (`listed`). What is left lists the failures
   first.
   */
  method ConvertBatch(h: Naming, db: Db, pass: Passphrase, limit: nat, luck: nat -> Attempt, listed: nat -> bool)
    returns (db': Db, converted: seq<Name>, failed: seq<Name>, remaining: nat, tried: nat)
    requires Wf(h, db.store)
    ensures tried <= |V3Names(db.store)| && Distinct(V3Names(db.store))
    ensures Batch(db', converted, failed) == ConvertAll(h, db, pass, luck, V3Names(db.store)[..tried])
    ensures Wf(h, db'.store) && |converted| <= limit && |converted| + |failed| == tried
    ensures |converted| < limit && (forall k :: listed(k)) ==> tried == |V3Names(db.store)|
    ensures V3Names(db'.store) == failed + V3Names(db.store)[tried..] && remaining == |V3Names(db'.store)|
  {
    hide V3Names, Wf, Distinct, Page, TryOne, ConvertAll;
    ConvertNone(h, db, pass, luck);
    ListsAll(h, db.store, "");
    ghost var all := V3Names(db.store);
    var b := Batch(db, [], []);
    tried := 0;
    assert all[..0] == [] && [] + all[0..] == all;
    var done, offset, pages, more := 0, 0, 0, true;
    while done < limit && more
      invariant tried <= |all| && b == ConvertAll(h, db, pass, luck, all[..tried])
      invariant Wf(h, b.db.store) && |b.converted| == done <= limit && |b.failed| == offset && done + offset == tried
      invariant V3Names(b.db.store) == b.failed + all[tried..]
      invariant !more && (forall k :: listed(k)) ==> tried == |all|
      decreases |all| - tried, more
    {
      if !listed(pages) {
        break;
      }
      pages := pages + 1;
      var page := Page(b.db.store, limit - done, offset);
      ghost var rest := PageSplits(b.db.store, limit - done, b.failed, all[tried..]);
      TakeMore(all, tried, page, rest);
      b := ConvertPage(h, b, pass, luck, page, tried, db, all[..tried], rest);
      done, offset, tried := |b.converted|, |b.failed|, tried + |page|;
      more := |page| > 0;
    }
    db', converted, failed := b.db, b.converted, b.failed;
    remaining := |V3Names(db'.store)|;
  }

  lemma TakeMore(all: seq<Name>, n: nat, page: seq<Name>, rest: seq<Name>)
    requires n <= |all| && all[n..] == page + rest
    ensures n + |page| <= |all| && all[..n] + page == all[..n + |page|] && all[n + |page|..] == rest
    ensures |page| == 0 && |rest| == 0 ==> n == |all|
  {
    assert |all[n..]| == |page| + |rest|;
    forall i | 0 <= i < |page|
      ensures all[n + i] == page[i]
    {
      assert all[n..][i] == (page + rest)[i];
    }
    forall i | 0 <= i < |rest|
      ensures all[n + |page| + i] == rest[i]
    {
      assert all[n..][|page| + i] == (page + rest)[|page| + i];
    }
  }

  /** A page starts behind the failures; only an exhausted listing gives an empty one. */
  lemma PageSplits(s: Store, limit: nat, failed: seq<Name>, ahead: seq<Name>) returns (rest: seq<Name>)
    requires V3Names(s) == failed + ahead && limit > 0
    ensures var page := Page(s, limit, |failed|);
            && ahead == page + rest && |page| <= limit && (|page| == 0 ==> rest == [])
            && V3Names(s) == failed + (page + rest)
  {
    hide V3Names;
    var page := Page(s, limit, |failed|);
    assert (failed + ahead)[|failed|..] == ahead;
    rest := ahead[|page|..];
    if |failed| + limit < |failed + ahead| {
      assert (failed + ahead)[|failed|..|failed| + limit] == ahead[..limit];
    }
    assert ahead == page + rest;
  }
}
