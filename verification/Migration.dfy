/**
 Moving a version 3 address to its version 4 sibling (src/core/keyring.c and
 src/core/api_server.c). The identity and message databases are separate files, so a
 conversion is a list of writes that may stop after any of them.
 */
module Migration {
  import opened Numerals
  import opened Varint
  import opened Keyring

  datatype Mail = Mail(to: Name, from: Name, rest: string)
  datatype Db = Db(store: Store, inbox: seq<Mail>, sent: seq<Mail>)

  /** One statement that reaches the disk as a whole. */
  datatype Write =
    | InsertRow(id: Identity, row: Row)
    | SetTitle(name: Name, title: string)
    | SetChan(name: Name)
    | RenameInbox(name: Name, now: Name)
    | RenameSent(name: Name, now: Name)
    | DeleteRow(name: Name)

  /**
   What a run draws afresh: the salt of a new row and its place in the listing, and whether the
   updates of the sibling's label and channel flag work, whose results nobody looks at.
   */
  datatype Fresh = Fresh(salt: Salt, at: nat, titled: bool, flagged: bool)

  function RenameTo(mails: seq<Mail>, was: Name, now: Name): seq<Mail> {
    seq(|mails|, i requires 0 <= i < |mails| => if mails[i].to == was then mails[i].(to := now) else mails[i])
  }

  function RenameFrom(mails: seq<Mail>, was: Name, now: Name): seq<Mail> {
    seq(|mails|, i requires 0 <= i < |mails| => if mails[i].from == was then mails[i].(from := now) else mails[i])
  }

  function Update(s: Store, name: Name, row: Row): Store {
    s.(rows := s.rows[name := row])
  }

  function Apply(db: Db, w: Write): Db {
    match w
    case InsertRow(id, row) => db.(store := Insert(db.store, id, row).0)
    case SetTitle(name, title) =>
      if name in db.store.rows then db.(store := Update(db.store, name, db.store.rows[name].(title := title))) else db
    case SetChan(name) =>
      if name in db.store.rows then db.(store := Update(db.store, name, db.store.rows[name].(chan := true))) else db
    case RenameInbox(name, now) => db.(inbox := RenameTo(db.inbox, name, now))
    case RenameSent(name, now) => db.(sent := RenameFrom(db.sent, name, now))
    case DeleteRow(name) => db.(store := Delete(db.store, name))
  }

  function ApplyAll(db: Db, ws: seq<Write>): Db {
    if |ws| == 0 then db else Apply(ApplyAll(db, ws[..|ws| - 1]), ws[|ws| - 1])
  }

  datatype Plan = Refused(rc: int) | Go(v4: Name, created: bool, prepare: seq<Write>)

  const NOT_FOUND := -2
  const NOT_V3 := -3
  const WRONG_PASSPHRASE := -4

  /** The row of a new sibling, sealed the way the version 3 row is. */
  function Sibling(s: Store, v3: Row, v4: Name, keys: Secrets, pass: Passphrase, f: Fresh): (Identity, Row) {
    var id := Identity(v4, v3.title, 4, v3.stream, keys, v3.trials, v3.extra, f.at);
    (id,
     if v3.algo.VaultHkdf? && MasterKek(s.vault, pass).Some? then
       NewRow(id, VaultHkdf, f.salt, None, Hkdf(MasterKek(s.vault, pass).value, f.salt, v4))
     else NewRow(id, PlainScrypt, f.salt, Some(SCRYPT_PARAMS), Scrypt(pass, f.salt, SCRYPT_PARAMS)))
  }

  /** The version 3 row as far as its label and flag can be handed on by this run. */
  function Offered(row: Row, f: Fresh): Row {
    row.(title := if f.titled then row.title else "", chan := row.chan && f.flagged)
  }

  /** What an existing sibling still needs from the version 3 row. */
  function Fill(v4: Name, there: Row, row: Row): seq<Write> {
    (if there.title == "" && row.title != "" then [SetTitle(v4, row.title)] else [])
    + if row.chan && !there.chan then [SetChan(v4)] else []
  }

  function Make(id: Identity, made: Row, row: Row): seq<Write> {
    [InsertRow(id, made)] + if row.chan then [SetChan(id.name)] else []
  }

  /** `bm_keyring_ensure_v4_sibling`: the writes that make or complete the sibling. */
  function PlanFor(h: Naming, s: Store, v3: Name, pass: Passphrase, f: Fresh): Plan {
    if v3 !in s.rows then Refused(NOT_FOUND)
    else
      var row := s.rows[v3];
      if row.version != 3 then Refused(NOT_V3)
      else
        var keys := Export(s, v3, pass);
        if keys.None? then Refused(WRONG_PASSPHRASE)
        else
          var v4 := V4Name(h, row.stream, row.signPub, row.encPub);
          if v4 in s.rows then
            var there := s.rows[v4];
            if there.signPub != row.signPub || there.encPub != row.encPub then Refused(-1)
            else
              Go(v4, false, Fill(v4, there, Offered(row, f)))
          else
            var (id, made) := Sibling(s, row, v4, keys.value, pass, f);
            Go(v4, true, Make(id, made, Offered(row, f)))
  }

  /** `convert_one_v3_to_v4`: prepare the sibling, rewrite the mails, then drop the old row. */
  function Writes(p: Plan, v3: Name): seq<Write> {
    if p.Refused? then []
    else p.prepare + [RenameInbox(v3, p.v4), RenameSent(v3, p.v4), DeleteRow(v3)]
  }

  function Complete(h: Naming, db: Db, v3: Name, pass: Passphrase, f: Fresh): Db {
    ApplyAll(db, Writes(PlanFor(h, db.store, v3, pass, f), v3))
  }

  // --------------------------------------------------------------------- invariants

  ghost predicate NamedRow(h: Naming, name: Name, row: Row) {
    row.version == 3 ==> NotV4(h, name)
  }

  /** No version 3 row is stored under the name of a version 4 address. */
  ghost predicate Named(h: Naming, s: Store) {
    forall n :: n in s.rows ==> NamedRow(h, n, s.rows[n])
  }

  ghost predicate Listed(s: Store) {
    Distinct(s.order) && forall n :: n in s.rows <==> n in s.order
  }

  ghost predicate Wf(h: Naming, s: Store) {
    Short(h) && Sound(s) && Named(h, s) && Listed(s)
  }

  /** The version 4 name of a version 3 row is another name. */
  lemma SiblingDiffers(h: Naming, s: Store, v3: Name)
    requires Named(h, s) && v3 in s.rows && s.rows[v3].version == 3
    ensures var row := s.rows[v3]; V4Name(h, row.stream, row.signPub, row.encPub) != v3
  {
    assert NamedRow(h, v3, s.rows[v3]);
  }

  // ------------------------------------------------------------- the outcome, directly

  /** A version 4 row completed from the version 3 row: an empty label and a missing channel flag are filled in. */
  function Merge(v4: Row, v3: Row): Row {
    v4.(title := if v4.title == "" then v3.title else v4.title, chan := v4.chan || v3.chan)
  }

  lemma ApplySnoc(db: Db, ws: seq<Write>, w: Write)
    ensures ApplyAll(db, ws + [w]) == Apply(ApplyAll(db, ws), w)
  {
    assert (ws + [w])[..|ws|] == ws;
  }

  lemma ApplyNone(db: Db)
    ensures ApplyAll(db, []) == db
  {
  }

  /** The three closing writes, after any preparation. */
  lemma ApplyTail(db: Db, ws: seq<Write>, v3: Name, v4: Name)
    ensures var done := ApplyAll(db, ws);
            && ApplyAll(db, ws + [RenameInbox(v3, v4)]) == done.(inbox := RenameTo(done.inbox, v3, v4))
            && ApplyAll(db, ws + [RenameInbox(v3, v4), RenameSent(v3, v4)]) ==
               done.(inbox := RenameTo(done.inbox, v3, v4), sent := RenameFrom(done.sent, v3, v4))
            && ApplyAll(db, ws + [RenameInbox(v3, v4), RenameSent(v3, v4), DeleteRow(v3)]) ==
               Db(Delete(done.store, v3), RenameTo(done.inbox, v3, v4), RenameFrom(done.sent, v3, v4))
  {
    hide ApplyAll, RenameTo, RenameFrom, Delete;
    var a, b, c := RenameInbox(v3, v4), RenameSent(v3, v4), DeleteRow(v3);
    ApplySnoc(db, ws, a);
    ApplySnoc(db, ws + [a], b);
    assert ws + [a, b] == ws + [a] + [b];
    ApplySnoc(db, ws + [a, b], c);
    assert ws + [a, b, c] == ws + [a, b] + [c];
  }

  lemma RenameTwice(mails: seq<Mail>, a: Name, b: Name)
    ensures RenameTo(RenameTo(mails, a, b), a, b) == RenameTo(mails, a, b)
    ensures RenameFrom(RenameFrom(mails, a, b), a, b) == RenameFrom(mails, a, b)
  {
  }

  /** The store in which the sibling first stands. */
  function Base(h: Naming, s: Store, v3: Name, pass: Passphrase, f: Fresh): Store {
    var p := PlanFor(h, s, v3, pass, f);
    if p.Go? && p.created && v3 in s.rows && Export(s, v3, pass).Some? then
      var (id, made) := Sibling(s, s.rows[v3], p.v4, Export(s, v3, pass).value, pass, f);
      Insert(s, id, made).0
    else s
  }

  /** The database once the sibling is complete: old row gone, own mails renamed. */
  function Finish(base: Store, db: Db, v3: Name, v4: Name, f: Fresh): Db
    requires v3 in base.rows && v4 in base.rows
  {
    Db(Delete(Update(base, v4, Merge(base.rows[v4], Offered(base.rows[v3], f))), v3),
       RenameTo(db.inbox, v3, v4), RenameFrom(db.sent, v3, v4))
  }

  /** A sibling `there` that has been given some of what `was` lacked of `row`. */
  predicate Between(there: Row, was: Row, row: Row) {
    && there == was.(title := there.title, chan := there.chan)
    && (there.title == was.title || (was.title == "" && there.title == row.title))
    && (there.chan == was.chan || (!was.chan && row.chan))
  }

  /** Some write of a list set the label, or the flag. */
  predicate Titles(ws: seq<Write>) {
    exists i :: 0 <= i < |ws| && ws[i].SetTitle?
  }

  predicate Flags(ws: seq<Write>) {
    exists i :: 0 <= i < |ws| && ws[i].SetChan?
  }

  /** The writes are what changed the label and the flag of the sibling. */
  ghost predicate Landed(ws: seq<Write>, was: Row, there: Row) {
    (there.title != was.title <==> Titles(ws)) && (there.chan != was.chan <==> Flags(ws))
  }

  /** A database in the middle of a conversion: the sibling stands in `base`, perhaps not yet completed. */
  ghost predicate Midway(base: Store, db: Db, x: Db, v3: Name, v4: Name) {
    && v3 != v4 && v3 in base.rows && v4 in base.rows && v4 in x.store.rows
    && x.store == Update(base, v4, x.store.rows[v4])
    && Between(x.store.rows[v4], base.rows[v4], base.rows[v3])
    && (x.inbox == db.inbox || x.inbox == RenameTo(db.inbox, v3, v4))
    && (x.sent == db.sent || x.sent == RenameFrom(db.sent, v3, v4))
  }

  lemma ApplyTwo(db: Db, a: Write, b: Write)
    ensures ApplyAll(db, [a]) == Apply(db, a) && ApplyAll(db, [a, b]) == Apply(Apply(db, a), b)
  {
    ApplyNone(db);
    ApplySnoc(db, [], a);
    assert [] + [a] == [a];
    ApplySnoc(db, [a], b);
    assert [a] + [b] == [a, b];
  }

  lemma TitlesFlags(a: Write, b: Write)
    ensures Titles([a, b]) == (a.SetTitle? || b.SetTitle?) && Titles([a]) == a.SetTitle? && Titles([b]) == b.SetTitle?
    ensures Flags([a, b]) == (a.SetChan? || b.SetChan?) && Flags([a]) == a.SetChan? && Flags([b]) == b.SetChan?
    ensures !Titles([]) && !Flags([])
  {
    assert [a, b][0] == a && [a, b][1] == b && [a][0] == a && [b][0] == b;
  }

  /** Setting label and flag of a row, one after the other. */
  lemma TouchTwice(x: Db, v4: Name, title: string)
    requires v4 in x.store.rows
    ensures var a, b, row := SetTitle(v4, title), SetChan(v4), x.store.rows[v4];
            && x == Touched(x, v4, row) && Apply(x, a) == Touched(x, v4, row.(title := title))
            && Apply(x, b) == Touched(x, v4, row.(chan := true))
            && Apply(Apply(x, a), b) == Touched(x, v4, row.(title := title, chan := true))
  {
    assert x.store.rows[v4 := x.store.rows[v4]] == x.store.rows;
  }

  function Touched(x: Db, name: Name, row: Row): (y: Db)
    ensures name in y.store.rows && y.store.rows[name] == row
  {
    x.(store := Update(x.store, name, row))
  }

  /** Completing a sibling that is there fills in what it lacks, step by step. */
  lemma FillSteps(x: Db, v4: Name, row: Row, f: Fresh, k: nat)
    requires v4 in x.store.rows && k <= |Fill(v4, x.store.rows[v4], Offered(row, f))|
    ensures var ws := Fill(v4, x.store.rows[v4], Offered(row, f));
            var y := ApplyAll(x, ws[..k]);
            && v4 in y.store.rows && y == x.(store := Update(x.store, v4, y.store.rows[v4]))
            && Between(y.store.rows[v4], x.store.rows[v4], row)
            && Landed(ws[..k], x.store.rows[v4], y.store.rows[v4])
            && (k == |ws| ==> y.store.rows[v4] == Merge(x.store.rows[v4], Offered(row, f)))
  {
    var ws := Fill(v4, x.store.rows[v4], Offered(row, f));
    var a, b := SetTitle(v4, row.title), SetChan(v4);
    TitlesFlags(a, b);
    ApplyNone(x);
    ApplyTwo(x, a, b);
    ApplyTwo(x, b, a);
    TouchTwice(x, v4, row.title);
    hide ApplyAll, Titles, Flags, Apply, Update;
    assert ws[..k] == [] || ws[..k] == [a] || ws[..k] == [b] || ws[..k] == [a, b];
  }

  /** Making a sibling, then setting its flag. */
  lemma MakeSteps(x: Db, id: Identity, made: Row, row: Row, f: Fresh, k: nat)
    requires Stored(id.name) == id.name && id.name !in x.store.rows && 1 <= k <= |Make(id, made, Offered(row, f))|
    requires made.title == row.title && !made.chan
    ensures var ws := Make(id, made, Offered(row, f));
            var y := ApplyAll(x, ws[..k]);
            var base := Insert(x.store, id, made).0;
            && id.name in y.store.rows && y == x.(store := Update(base, id.name, y.store.rows[id.name]))
            && Between(y.store.rows[id.name], made, row) && Landed(ws[..k], made, y.store.rows[id.name])
            && (k == |ws| ==> y.store.rows[id.name] == Merge(made, Offered(row, f)))
  {
    var ws := Make(id, made, Offered(row, f));
    var a, b := ws[0], SetChan(id.name);
    ApplyTwo(x, a, b);
    TitlesFlags(a, b);
    hide ApplyAll, Place, Titles, Flags;
    assert ws[..k] == [a] || ws[..k] == [a, b];
    var base := Insert(x.store, id, made).0;
    assert base == Update(base, id.name, base.rows[id.name]);
  }

  lemma StoredTwice(h: Naming, s: Store, v3: Name)
    requires v3 in s.rows
    ensures var v4 := V4Name(h, s.rows[v3].stream, s.rows[v3].signPub, s.rows[v3].encPub); Stored(v4) == v4
  {
  }

  /** What a plan that goes ahead says about the store. */
  lemma PlanGoes(h: Naming, s: Store, v3: Name, pass: Passphrase, f: Fresh)
    requires PlanFor(h, s, v3, pass, f).Go?
    ensures var p := PlanFor(h, s, v3, pass, f);
            && v3 in s.rows && s.rows[v3].version == 3 && Export(s, v3, pass).Some?
            && p.v4 == V4Name(h, s.rows[v3].stream, s.rows[v3].signPub, s.rows[v3].encPub)
            && p.created == (p.v4 !in s.rows)
            && (!p.created ==> p.prepare == Fill(p.v4, s.rows[p.v4], Offered(s.rows[v3], f))
                               && s.rows[p.v4].signPub == s.rows[v3].signPub
                               && s.rows[p.v4].encPub == s.rows[v3].encPub)
            && var (id, made) := Sibling(s, s.rows[v3], p.v4, Export(s, v3, pass).value, pass, f);
               && id.name == p.v4 == Stored(p.v4) && made.title == s.rows[v3].title && !made.chan && made.version == 4
               && (p.created ==> p.prepare == Make(id, made, Offered(s.rows[v3], f)))
  {
    StoredTwice(h, s, v3);
    hide Export, V4Name, Fill, Make, Stored;
  }

  /** The base store differs from the first one at most by the sibling. */
  lemma BaseFacts(h: Naming, s: Store, v3: Name, pass: Passphrase, f: Fresh)
    requires PlanFor(h, s, v3, pass, f).Go?
    ensures var base := Base(h, s, v3, pass, f);
            var v4 := PlanFor(h, s, v3, pass, f).v4;
            && v4 in base.rows && v3 in base.rows && base.vault == s.vault
            && base.rows == s.rows[v4 := base.rows[v4]]
            && (v4 in s.rows ==> base == s)
            && (v4 != v3 ==> base.rows[v3] == s.rows[v3])
  {
    PlanGoes(h, s, v3, pass, f);
    hide Export, V4Name, Fill, Make, PlanFor, Place;
    var v4 := PlanFor(h, s, v3, pass, f).v4;
    if v4 in s.rows {
      assert s.rows == s.rows[v4 := s.rows[v4]];
    }
  }

  /** Stopping after any write but the last leaves the database midway. */
  lemma PrefixMidway(h: Naming, db: Db, v3: Name, pass: Passphrase, f: Fresh, k: nat)
    requires var p := PlanFor(h, db.store, v3, pass, f);
             p.Go? && p.v4 != v3 && k < |Writes(p, v3)| && (p.created ==> k >= 1)
    ensures var p := PlanFor(h, db.store, v3, pass, f);
            var base := Base(h, db.store, v3, pass, f);
            var x := ApplyAll(db, Writes(p, v3)[..k]);
            Midway(base, db, x, v3, p.v4) && Landed(Writes(p, v3)[..k], base.rows[p.v4], x.store.rows[p.v4])
  {
    hide ApplyAll, PlanFor, Base, Merge, RenameTo, RenameFrom, Update, Titles, Flags, Between;
    var p := PlanFor(h, db.store, v3, pass, f);
    var n := |p.prepare|;
    Cut(p.prepare, RenameInbox(v3, p.v4), RenameSent(v3, p.v4), DeleteRow(v3), k);
    TailSilent(p.prepare, RenameInbox(v3, p.v4), RenameSent(v3, p.v4));
    if k <= n {
      Prepared(h, db, v3, pass, f, k);
    } else {
      PlanGoes(h, db.store, v3, pass, f);
      Prepared(h, db, v3, pass, f, n);
      ApplyTail(db, p.prepare, v3, p.v4);
    }
  }

  lemma Cut(ws: seq<Write>, a: Write, b: Write, c: Write, k: nat)
    requires k < |ws| + 3
    ensures ws[..|ws|] == ws
    ensures (ws + [a, b, c])[..k] ==
            if k <= |ws| then ws[..k] else if k == |ws| + 1 then ws + [a] else ws + [a, b]
  {
  }

  /** Writes to the mails touch neither label nor flag. */
  lemma TailSilent(ws: seq<Write>, a: Write, b: Write)
    requires a.RenameInbox? && b.RenameSent?
    ensures Titles(ws + [a]) == Titles(ws) == Titles(ws + [a, b]) && Flags(ws + [a]) == Flags(ws) == Flags(ws + [a, b])
  {
    forall i | 0 <= i < |ws|
      ensures (ws + [a])[i] == ws[i] && (ws + [a, b])[i] == ws[i]
    {
    }
    assert forall i :: 0 <= i < |ws| && ws[i].SetTitle? ==> (ws + [a])[i].SetTitle? && (ws + [a, b])[i].SetTitle?;
    assert forall i :: 0 <= i < |ws| && ws[i].SetChan? ==> (ws + [a])[i].SetChan? && (ws + [a, b])[i].SetChan?;
  }

  /** The database after some of the preparing writes. */
  lemma Prepared(h: Naming, db: Db, v3: Name, pass: Passphrase, f: Fresh, k: nat)
    requires var p := PlanFor(h, db.store, v3, pass, f);
             p.Go? && p.v4 != v3 && k <= |p.prepare| && (p.created ==> k >= 1)
    ensures var p := PlanFor(h, db.store, v3, pass, f);
            var base := Base(h, db.store, v3, pass, f);
            var y := ApplyAll(db, p.prepare[..k]);
            && Midway(base, db, y, v3, p.v4) && y.inbox == db.inbox && y.sent == db.sent
            && Landed(p.prepare[..k], base.rows[p.v4], y.store.rows[p.v4])
            && (k == |p.prepare| ==> y.store.rows[p.v4] == Merge(base.rows[p.v4], Offered(base.rows[v3], f)))
  {
    PlanGoes(h, db.store, v3, pass, f);
    BaseFacts(h, db.store, v3, pass, f);
    var p := PlanFor(h, db.store, v3, pass, f);
    hide PlanFor, Export, V4Name, Fill, Make, Place, ApplyAll, Merge, Between, Landed, Offered;
    if p.created {
      var (id, made) := Sibling(db.store, db.store.rows[v3], p.v4, Export(db.store, v3, pass).value, pass, f);
      MakeSteps(db, id, made, db.store.rows[v3], f, k);
    } else {
      FillSteps(db, p.v4, db.store.rows[v3], f, k);
    }
  }

  /** What a run hands on together with what `there` was given before it. */
  function Joined(was: Row, there: Row, f: Fresh): Fresh {
    f.(titled := f.titled || there.title != was.title, flagged := f.flagged || there.chan != was.chan)
  }

  lemma JoinedMerge(was: Row, there: Row, row: Row, f: Fresh)
    requires Between(there, was, row)
    ensures Merge(there, Offered(row, f)) == Merge(was, Offered(row, Joined(was, there, f)))
  {
  }

  /** The plan of a further run for a database it finds midway. */
  lemma MidwayPlan(h: Naming, base: Store, db: Db, x: Db, v3: Name, v4: Name, pass: Passphrase, f: Fresh)
    requires Midway(base, db, x, v3, v4) && base.rows[v3].version == 3 && Export(base, v3, pass).Some?
    requires v4 == V4Name(h, base.rows[v3].stream, base.rows[v3].signPub, base.rows[v3].encPub)
    requires base.rows[v4].signPub == base.rows[v3].signPub && base.rows[v4].encPub == base.rows[v3].encPub
    ensures x.store.rows[v3] == base.rows[v3]
    ensures PlanFor(h, x.store, v3, pass, f) == Go(v4, false, Fill(v4, x.store.rows[v4], Offered(base.rows[v3], f)))
  {
    hide Export, V4Name, Fill, Offered, RenameTo, RenameFrom;
    SameExport(base, x.store, v3, pass);
  }

  /** What a further run does to a database it finds midway. */
  lemma MidwayResumes(h: Naming, base: Store, db: Db, x: Db, v3: Name, v4: Name, pass: Passphrase, f: Fresh)
    requires Midway(base, db, x, v3, v4) && base.rows[v3].version == 3 && Export(base, v3, pass).Some?
    requires v4 == V4Name(h, base.rows[v3].stream, base.rows[v3].signPub, base.rows[v3].encPub)
    requires base.rows[v4].signPub == base.rows[v3].signPub && base.rows[v4].encPub == base.rows[v3].encPub
    ensures PlanFor(h, x.store, v3, pass, f).Go?
    ensures Complete(h, x, v3, pass, f) == Finish(base, db, v3, v4, Joined(base.rows[v4], x.store.rows[v4], f))
  {
    hide PlanFor, Export, V4Name, Fill, ApplyAll, RenameTo, RenameFrom, Merge, Offered, Joined, Between, Landed;
    MidwayPlan(h, base, db, x, v3, v4, pass, f);
    var ws := Fill(v4, x.store.rows[v4], Offered(base.rows[v3], f));
    FillSteps(x, v4, base.rows[v3], f, |ws|);
    JoinedMerge(base.rows[v4], x.store.rows[v4], base.rows[v3], f);
    assert ws[..|ws|] == ws;
    ApplyTail(x, ws, v3, v4);
    RenameTwice(db.inbox, v3, v4);
    RenameTwice(db.sent, v3, v4);
    var merged := Merge(x.store.rows[v4], Offered(base.rows[v3], f));
    assert Update(x.store, v4, merged) == Update(base, v4, merged);
  }

  lemma SameExport(a: Store, b: Store, name: Name, pass: Passphrase)
    requires name in a.rows && name in b.rows && a.rows[name] == b.rows[name] && a.vault == b.vault
    ensures Export(a, name, pass) == Export(b, name, pass)
  {
  }

  /** The clear columns of a sibling that is made from a version 3 row, before its flag is set. */
  function Fourth(row: Row): (string, bool, uint64, uint64, Public, Public, nat, nat) {
    (row.title, false, 4, Narrow(row.stream), row.signPub, row.encPub, row.trials, row.extra)
  }

  lemma CreatedPublics(h: Naming, s: Store, v3: Name, pass: Passphrase, f: Fresh)
    requires Sound(s) && PlanFor(h, s, v3, pass, f).Go?
    ensures var v4 := PlanFor(h, s, v3, pass, f).v4;
            var base := Base(h, s, v3, pass, f);
            && v3 in s.rows && v4 in base.rows && base.rows[v4].signPub == s.rows[v3].signPub
            && base.rows[v4].encPub == s.rows[v3].encPub && SecretsOf(base.rows[v4]) == SecretsOf(s.rows[v3])
            && (v4 !in s.rows ==> && PassOf(base.rows[v4]) == pass && base.rows[v4].algo == s.rows[v3].algo
                                  && Plain(base.rows[v4]) == Fourth(s.rows[v3]))
            && Sound(base)
  {
    PlanGoes(h, s, v3, pass, f);
    BaseFacts(h, s, v3, pass, f);
    OpensExactly(s, v3, pass);
    assert RowOk(s.vault, v3, s.rows[v3]);
    MasterVerified(s.vault, pass);
    var p := PlanFor(h, s, v3, pass, f);
    hide PlanFor, Export, V4Name, Fill, Make, Place, MasterKek;
    if p.created {
      var (id, made) := Sibling(s, s.rows[v3], p.v4, Export(s, v3, pass).value, pass, f);
      InsertSound(s, id, made);
    } else {
      assert RowOk(s.vault, p.v4, s.rows[p.v4]);
    }
  }

  // ----------------------------------------------------------------------- theorems

  ghost predicate Converting(h: Naming, db: Db, v3: Name, pass: Passphrase, f: Fresh) {
    Wf(h, db.store) && PlanFor(h, db.store, v3, pass, f).Go?
  }

  /** The database a run leaves when it stops after `k` writes. */
  function Stopped(h: Naming, db: Db, v3: Name, pass: Passphrase, f: Fresh, k: nat): Db
    requires k <= |Writes(PlanFor(h, db.store, v3, pass, f), v3)|
  {
    ApplyAll(db, Writes(PlanFor(h, db.store, v3, pass, f), v3)[..k])
  }

  lemma SiblingApart(h: Naming, s: Store, v3: Name, pass: Passphrase, f: Fresh)
    requires Wf(h, s) && PlanFor(h, s, v3, pass, f).Go?
    ensures PlanFor(h, s, v3, pass, f).v4 != v3
  {
    PlanGoes(h, s, v3, pass, f);
    SiblingDiffers(h, s, v3);
  }

  /**
   An uninterrupted conversion: the sibling has the merged label and channel flag and
   the keys of the old row, the old row is gone, own addresses in the mails are the new
   one, and nothing else changed.
   */
  lemma CompleteIs(h: Naming, db: Db, v3: Name, pass: Passphrase, f: Fresh)
    requires Converting(h, db, v3, pass, f)
    ensures var v4 := PlanFor(h, db.store, v3, pass, f).v4;
            var base := Base(h, db.store, v3, pass, f);
            && v3 in base.rows && v4 in base.rows && v3 != v4
            && Complete(h, db, v3, pass, f) == Finish(base, db, v3, v4, f)
  {
    hide PlanFor, Offered, Landed, Between, ApplyAll, Merge, RenameTo, RenameFrom, Export, V4Name, Fill, Base, Wf,
         Update, Delete, Sibling;
    SiblingApart(h, db.store, v3, pass, f);
    PlanGoes(h, db.store, v3, pass, f);
    var p := PlanFor(h, db.store, v3, pass, f);
    var n := |p.prepare|;
    Prepared(h, db, v3, pass, f, n);
    ApplyTail(db, p.prepare, v3, p.v4);
    assert p.prepare[..n] == p.prepare;
  }

  predicate Third(s: Store, name: Name) {
    name in s.rows && s.rows[name].version == 3
  }

  /** The row was stored under its whole text and sealed for this passphrase. */
  predicate OpensWith(s: Store, name: Name, pass: Passphrase) {
    name in s.rows && TextOf(s.rows[name]) == name && PassOf(s.rows[name]) == pass
  }

  /** When a conversion goes ahead, and with which answer it is refused otherwise. */
  lemma PlanExact(h: Naming, s: Store, v3: Name, pass: Passphrase, f: Fresh)
    requires Sound(s)
    ensures var p := PlanFor(h, s, v3, pass, f);
            && (p == Refused(NOT_FOUND) <==> v3 !in s.rows)
            && (p == Refused(NOT_V3) <==> v3 in s.rows && s.rows[v3].version != 3)
            && (p == Refused(WRONG_PASSPHRASE) <==> Third(s, v3) && !OpensWith(s, v3, pass))
            && (p.Go? <==> Third(s, v3) && OpensWith(s, v3, pass) && Fits(h, s, s.rows[v3]))
            && (p.Refused? && p.rc !in {NOT_FOUND, NOT_V3, WRONG_PASSPHRASE} ==> p.rc == -1)
  {
    if v3 in s.rows {
      OpensExactly(s, v3, pass);
      hide Export, V4Name, PassOf, Fill, Make, Sibling;
    }
  }

  /** No row stands under the name of the sibling, or one with the same public keys. */
  predicate Fits(h: Naming, s: Store, row: Row) {
    var v4 := V4Name(h, row.stream, row.signPub, row.encPub);
    v4 in s.rows ==> s.rows[v4].signPub == row.signPub && s.rows[v4].encPub == row.encPub
  }

  /**
   The row `now` under the new name, from the row `was` of the old name and the one that was found
   under the new name: a sibling that was found keeps everything but an empty label and a missing
   flag; one that was made has the columns of the old row and is sealed the same way for `pass`.
   */
  ghost predicate Succeeds(now: Row, was: Row, found: Option<Row>, pass: Passphrase, f: Fresh) {
    if found.Some? then
      now == found.value.(title := if found.value.title == "" && f.titled then was.title else found.value.title,
                          chan := found.value.chan || (was.chan && f.flagged))
    else
      && now.title == was.title && now.chan == (was.chan && f.flagged) && now.version == 4
      && now.stream == Narrow(was.stream) && now.signPub == was.signPub && now.encPub == was.encPub
      && now.trials == was.trials && now.extra == was.extra && now.algo == was.algo
      && PassOf(now) == pass && SecretsOf(now) == SecretsOf(was)
  }

  /** What a conversion that goes through leaves, in terms of what it found. */
  lemma CompleteRows(h: Naming, db: Db, v3: Name, pass: Passphrase, f: Fresh)
    requires Converting(h, db, v3, pass, f)
    ensures var x := Complete(h, db, v3, pass, f);
            var s := db.store;
            && v3 in s.rows
            && var v4 := V4Name(h, s.rows[v3].stream, s.rows[v3].signPub, s.rows[v3].encPub);
            && x.store.vault == s.vault && x.store.rows.Keys == s.rows.Keys - {v3} + {v4} && v3 != v4
            && (forall n :: n in s.rows && n != v3 && n != v4 ==> x.store.rows[n] == s.rows[n])
            && Succeeds(x.store.rows[v4], s.rows[v3], if v4 in s.rows then Some(s.rows[v4]) else None, pass, f)
            && |x.inbox| == |db.inbox| && |x.sent| == |db.sent|
            && (forall i :: 0 <= i < |db.inbox| ==>
                  x.inbox[i] == Mail(if db.inbox[i].to == v3 then v4 else db.inbox[i].to, db.inbox[i].from,
                                     db.inbox[i].rest))
            && (forall i :: 0 <= i < |db.sent| ==>
                  x.sent[i] == Mail(db.sent[i].to, if db.sent[i].from == v3 then v4 else db.sent[i].from,
                                    db.sent[i].rest))
  {
    hide PlanFor, Base, V4Name, Complete, Sound, Named, Listed, Without, SecretsOf, PassOf, Narrow;
    CompleteIs(h, db, v3, pass, f);
    PlanGoes(h, db.store, v3, pass, f);
    BaseFacts(h, db.store, v3, pass, f);
    CreatedPublics(h, db.store, v3, pass, f);
    var v4 := PlanFor(h, db.store, v3, pass, f).v4;
    MergedKeys(Base(h, db.store, v3, pass, f).rows[v4], Offered(db.store.rows[v3], f));
  }

  lemma MergedKeys(row: Row, v3: Row)
    ensures PassOf(Merge(row, v3)) == PassOf(row) && SecretsOf(Merge(row, v3)) == SecretsOf(row)
  {
  }

  lemma {:induction false} WithoutNone(order: seq<Name>, name: Name)
    requires name !in order
    ensures Without(order, name) == order
  {
    if |order| > 0 {
      WithoutNone(order[1..], name);
    }
  }

  lemma DropBehind(x: Name, rest: seq<Name>, i: nat)
    requires i < |rest|
    ensures ([x] + rest)[..i + 1] + ([x] + rest)[i + 2..] == [x] + (rest[..i] + rest[i + 1..])
  {
  }

  /** Taking a name out of a listing leaves the others in their order. */
  lemma {:induction false} WithoutExact(order: seq<Name>, i: nat)
    requires Distinct(order) && i < |order|
    ensures Without(order, order[i]) == order[..i] + order[i + 1..]
  {
    var x, rest := order[0], order[1..];
    if i == 0 {
      WithoutNone(rest, x);
    } else {
      WithoutExact(rest, i - 1);
      DropBehind(x, rest, i - 1);
      assert order == [x] + rest && rest[i - 1] == order[i];
    }
  }

  /** What a run and the one that stopped before it hand on between them. */
  function Resumed(f: Fresh, done: seq<Write>, again: Fresh): Fresh {
    if |done| == 0 then again
    else f.(titled := again.titled || Titles(done), flagged := again.flagged || Flags(done))
  }

  /** The sibling that is made does not depend on which updates work afterwards. */
  lemma BaseSame(h: Naming, s: Store, v3: Name, pass: Passphrase, f: Fresh, titled: bool, flagged: bool)
    requires PlanFor(h, s, v3, pass, f).Go?
    ensures var g := f.(titled := titled, flagged := flagged);
            && PlanFor(h, s, v3, pass, g).Go? && PlanFor(h, s, v3, pass, g).v4 == PlanFor(h, s, v3, pass, f).v4
            && Base(h, s, v3, pass, g) == Base(h, s, v3, pass, f)
  {
    hide Export, V4Name, Fill, Make, Place, MasterKek, Offered;
  }

  /**
   Running again after stopping at any write reaches the stores of an uninterrupted run; label
   and flag are handed on if either run's update landed.
   */
  lemma ResumeReaches(h: Naming, db: Db, v3: Name, pass: Passphrase, f: Fresh, k: nat, again: Fresh)
    requires Converting(h, db, v3, pass, f) && k < |Writes(PlanFor(h, db.store, v3, pass, f), v3)|
    ensures var x := Stopped(h, db, v3, pass, f, k);
            && PlanFor(h, x.store, v3, pass, again).Go?
            && Complete(h, x, v3, pass, again) ==
               Complete(h, db, v3, pass, Resumed(f, Writes(PlanFor(h, db.store, v3, pass, f), v3)[..k], again))
  {
    if k == 0 {
      StoppedAtOnce(h, db, v3, pass, f, again);
    } else {
      SiblingApart(h, db.store, v3, pass, f);
      CreatedPublics(h, db.store, v3, pass, f);
      BaseFacts(h, db.store, v3, pass, f);
      PlanGoes(h, db.store, v3, pass, f);
      PrefixMidway(h, db, v3, pass, f, k);
      var base, v4 := Base(h, db.store, v3, pass, f), PlanFor(h, db.store, v3, pass, f).v4;
      var x := Stopped(h, db, v3, pass, f, k);
      var j := Joined(base.rows[v4], x.store.rows[v4], again);
      var g := Resumed(f, Writes(PlanFor(h, db.store, v3, pass, f), v3)[..k], again);
      assert g == f.(titled := j.titled, flagged := j.flagged);
      BaseSame(h, db.store, v3, pass, f, j.titled, j.flagged);
      CompleteIs(h, db, v3, pass, g);
      FinishFlags(base, db, v3, v4, j, g);
      hide PlanFor, ApplyAll, Merge, RenameTo, RenameFrom, Export, V4Name, Fill, Base, Wf, Complete, Midway, Sound;
      SameExport(db.store, base, v3, pass);
      MidwayResumes(h, base, db, x, v3, v4, pass, again);
    }
  }

  lemma FinishFlags(base: Store, db: Db, v3: Name, v4: Name, f: Fresh, g: Fresh)
    requires v3 in base.rows && v4 in base.rows && f.titled == g.titled && f.flagged == g.flagged
    ensures Finish(base, db, v3, v4, f) == Finish(base, db, v3, v4, g)
  {
  }

  lemma StoppedAtOnce(h: Naming, db: Db, v3: Name, pass: Passphrase, f: Fresh, again: Fresh)
    requires PlanFor(h, db.store, v3, pass, f).Go?
    ensures Stopped(h, db, v3, pass, f, 0) == db && PlanFor(h, db.store, v3, pass, again).Go?
  {
    ApplyNone(db);
    hide Export, V4Name, Fill, Make, ApplyAll;
  }

  // ------------------------------------------------------------- what stays well formed

  lemma {:induction false} WithoutMember(order: seq<Name>, name: Name, n: Name)
    ensures n in Without(order, name) <==> n in order && n != name
  {
    if |order| > 0 {
      WithoutMember(order[1..], name, n);
      assert n in order <==> n == order[0] || n in order[1..];
    }
  }

  lemma {:induction false} WithoutDistinct(order: seq<Name>, name: Name)
    requires Distinct(order)
    ensures Distinct(Without(order, name))
  {
    if |order| > 0 {
      WithoutDistinct(order[1..], name);
      if order[0] != name {
        WithoutMember(order[1..], name, order[0]);
        var rest := Without(order[1..], name);
        forall i | 0 <= i < |rest|
          ensures rest[i] != order[0]
        {
          assert rest[i] in rest;
        }
      }
    }
  }

  lemma PlaceListed(order: seq<Name>, name: Name, at: nat)
    requires Distinct(order) && name !in order
    ensures Distinct(Place(order, name, at)) && forall n :: n in Place(order, name, at) <==> n in order || n == name
  {
    if at <= |order| {
      assert order == order[..at] + order[at..];
    }
  }

  lemma StoreRow(h: Naming, s: Store, name: Name, row: Row)
    requires Sound(s) && Named(h, s) && RowOk(s.vault, name, row) && NamedRow(h, name, row)
    ensures Sound(Update(s, name, row)) && Named(h, Update(s, name, row))
  {
    hide RowOk, NamedRow;
  }

  lemma DropRow(h: Naming, s: Store, name: Name)
    requires Sound(s) && Named(h, s)
    ensures Sound(Delete(s, name)) && Named(h, Delete(s, name)) && Delete(s, name).rows == s.rows - {name}
  {
    hide RowOk, NamedRow, Without;
  }

  lemma RelistSound(h: Naming, s: Store, order: seq<Name>)
    requires Sound(s) && Named(h, s)
    ensures Sound(s.(order := order)) && Named(h, s.(order := order))
  {
    hide RowOk, NamedRow;
  }

  lemma ListedPlace(s: Store, name: Name, row: Row, at: nat)
    requires Listed(s) && name !in s.rows
    ensures Listed(Update(s, name, row).(order := Place(s.order, name, at)))
  {
    PlaceListed(s.order, name, at);
    hide Place, Distinct;
  }

  lemma ListedDrop(s: Store, name: Name)
    requires Listed(s)
    ensures Listed(Delete(s, name))
  {
    WithoutDistinct(s.order, name);
    hide Distinct, Without;
    forall n
      ensures n in Delete(s, name).rows <==> n in Delete(s, name).order
    {
      WithoutMember(s.order, name, n);
    }
  }

  /** The store in which the sibling stands is as sound as the one before. */
  lemma BaseWf(h: Naming, s: Store, v3: Name, pass: Passphrase, f: Fresh)
    requires Wf(h, s) && PlanFor(h, s, v3, pass, f).Go?
    ensures Wf(h, Base(h, s, v3, pass, f))
  {
    hide PlanFor, Export, V4Name, Fill, Make, MasterKek, Place, RowOk, VaultOk, Listed;
    PlanGoes(h, s, v3, pass, f);
    BaseFacts(h, s, v3, pass, f);
    CreatedPublics(h, s, v3, pass, f);
    var p := PlanFor(h, s, v3, pass, f);
    if p.created {
      var base := Base(h, s, v3, pass, f);
      var made := base.rows[p.v4];
      assert NamedRow(h, v3, s.rows[v3]);
      assert made.version == 4;
      StoreRow(h, s, p.v4, made);
      RelistSound(h, Update(s, p.v4, made), base.order);
      ListedPlace(s, p.v4, made, f.at);
      assert base == Update(s, p.v4, made).(order := base.order);
    }
  }

  lemma MergedAlike(a: Row, b: Row, row: Row)
    requires Between(a, b, row)
    ensures a.(title := b.title, chan := b.chan) == b
  {
  }

  lemma TouchedRow(h: Naming, vault: Option<Vault>, name: Name, a: Row, b: Row)
    requires RowOk(vault, name, a) && NamedRow(h, name, a) && b.(title := a.title, chan := a.chan) == a
    ensures RowOk(vault, name, b) && NamedRow(h, name, b)
  {
  }

  lemma ListedTouched(s: Store, name: Name, row: Row)
    requires Listed(s) && name in s.rows
    ensures Listed(Update(s, name, row))
  {
    hide Distinct;
    assert Update(s, name, row).rows.Keys == s.rows.Keys;
  }

  lemma TouchedWf(h: Naming, s: Store, name: Name, row: Row)
    requires Wf(h, s) && name in s.rows && row.(title := s.rows[name].title, chan := s.rows[name].chan) == s.rows[name]
    ensures Wf(h, Update(s, name, row))
  {
    hide RowOk, NamedRow, Update, Listed;
    TouchedRow(h, s.vault, name, s.rows[name], row);
    StoreRow(h, s, name, row);
    ListedTouched(s, name, row);
  }

  lemma DeleteWf(h: Naming, s: Store, name: Name)
    requires Wf(h, s)
    ensures Wf(h, Delete(s, name))
  {
    hide Sound, Named, Listed, Delete;
    DropRow(h, s, name);
    ListedDrop(s, name);
  }

  // ------------------------------------------------------------------ stopping anywhere

  /** The sibling holds the private keys of the old row, under the passphrase of the call if the call made it. */
  ghost predicate SiblingHolds(db: Db, x: Db, v3: Name, v4: Name, pass: Passphrase) {
    && v4 in x.store.rows
    && PassOf(x.store.rows[v4]) == (if v4 in db.store.rows then PassOf(db.store.rows[v4]) else pass)
    && Export(x.store, v4, PassOf(x.store.rows[v4])) == Export(db.store, v3, pass)
  }

  ghost predicate OthersKept(a: Store, b: Store, v3: Name, v4: Name) {
    && b.vault == a.vault
    && forall n :: n in a.rows && n != v3 && n != v4 ==> n in b.rows && b.rows[n] == a.rows[n]
  }

  /** A database found midway: both rows open, nothing else changed. */
  lemma StopMidway(h: Naming, base: Store, db: Db, x: Db, v3: Name, v4: Name, pass: Passphrase)
    requires Wf(h, base) && Midway(base, db, x, v3, v4) && TextOf(base.rows[v4]) == v4
    ensures Wf(h, x.store) && OthersKept(base, x.store, v3, v4) && v3 in x.store.rows
    ensures x.store.rows.Keys == base.rows.Keys
    ensures x.store.rows[v3] == base.rows[v3] && Export(x.store, v3, pass) == Export(base, v3, pass)
    ensures PassOf(x.store.rows[v4]) == PassOf(base.rows[v4])
    ensures Export(x.store, v4, PassOf(x.store.rows[v4])) == Some(SecretsOf(base.rows[v4]))
  {
    hide Export, Sound, Named, Listed, Merge, RenameTo, RenameFrom;
    MergedAlike(x.store.rows[v4], base.rows[v4], base.rows[v3]);
    TouchedWf(h, base, v4, x.store.rows[v4]);
    SameExport(x.store, base, v3, pass);
    OpensExactly(x.store, v4, PassOf(x.store.rows[v4]));
  }

  lemma StopDone(h: Naming, base: Store, db: Db, v3: Name, v4: Name, f: Fresh)
    requires Wf(h, base) && v3 != v4 && v3 in base.rows && v4 in base.rows && TextOf(base.rows[v4]) == v4
    ensures var x := Finish(base, db, v3, v4, f);
            && Wf(h, x.store) && OthersKept(base, x.store, v3, v4) && v3 !in x.store.rows && v4 in x.store.rows
            && x.store.rows.Keys == base.rows.Keys - {v3}
            && PassOf(x.store.rows[v4]) == PassOf(base.rows[v4])
            && Export(x.store, v4, PassOf(x.store.rows[v4])) == Some(SecretsOf(base.rows[v4]))
  {
    hide Export, Sound, Named, Listed, RenameTo, RenameFrom, Without;
    var merged := Merge(base.rows[v4], Offered(base.rows[v3], f));
    TouchedWf(h, base, v4, merged);
    DeleteWf(h, Update(base, v4, merged), v3);
    OpensExactly(Finish(base, db, v3, v4, f).store, v4, PassOf(base.rows[v4]));
  }

  lemma KeptThrough(h: Naming, s: Store, x: Store, v3: Name, pass: Passphrase, f: Fresh)
    requires PlanFor(h, s, v3, pass, f).Go?
    requires var v4 := PlanFor(h, s, v3, pass, f).v4; OthersKept(Base(h, s, v3, pass, f), x, v3, v4)
    ensures OthersKept(s, x, v3, PlanFor(h, s, v3, pass, f).v4)
  {
    BaseFacts(h, s, v3, pass, f);
    hide PlanFor, Base;
  }

  /**
   Stopping after any number of writes loses no key: until the last write the old row
   opens as before, and from the moment the sibling stands it holds the same private
   keys; every other row is untouched.
   */
  lemma StopLosesNothing(h: Naming, db: Db, v3: Name, pass: Passphrase, f: Fresh, k: nat)
    requires Converting(h, db, v3, pass, f) && k <= |Writes(PlanFor(h, db.store, v3, pass, f), v3)|
    ensures var p := PlanFor(h, db.store, v3, pass, f);
            var x := Stopped(h, db, v3, pass, f, k);
            && Wf(h, x.store) && OthersKept(db.store, x.store, v3, p.v4)
            && x.store.rows.Keys <= db.store.rows.Keys + {p.v4}
            && v3 in db.store.rows
            && (k < |Writes(p, v3)| ==>
                  && v3 in x.store.rows && x.store.rows[v3] == db.store.rows[v3]
                  && Export(x.store, v3, pass) == Export(db.store, v3, pass))
            && (k == |Writes(p, v3)| ==> v3 !in x.store.rows)
            && (k >= 1 || !p.created ==> SiblingHolds(db, x, v3, p.v4, pass))
  {
    hide PlanFor, Export, V4Name, Fill, Make, Sound, Named, Listed, MasterKek, Base, ApplyAll, Writes, Sibling,
         RenameTo, RenameFrom, Merge, Finish, Landed, Between, Offered;
    var p := PlanFor(h, db.store, v3, pass, f);
    var base := Base(h, db.store, v3, pass, f);
    var x := Stopped(h, db, v3, pass, f, k);
    ConversionFacts(h, db, v3, pass, f);
    if k == |Writes(p, v3)| {
      assert Writes(p, v3)[..k] == Writes(p, v3);
      CompleteIs(h, db, v3, pass, f);
      StopDone(h, base, db, v3, p.v4, f);
      KeptThrough(h, db.store, x.store, v3, pass, f);
    } else if k == 0 && p.created {
      StoppedAtOnce(h, db, v3, pass, f, f);
    } else {
      PrefixMidway(h, db, v3, pass, f, k);
      StopMidway(h, base, db, x, v3, p.v4, pass);
      SameExport(db.store, base, v3, pass);
      KeptThrough(h, db.store, x.store, v3, pass, f);
    }
  }

  /** What is known at the start of a conversion. */
  lemma ConversionFacts(h: Naming, db: Db, v3: Name, pass: Passphrase, f: Fresh)
    requires Converting(h, db, v3, pass, f)
    ensures var p := PlanFor(h, db.store, v3, pass, f);
            var base := Base(h, db.store, v3, pass, f);
            && v3 in db.store.rows && p.v4 != v3 && p.created == (p.v4 !in db.store.rows)
            && Wf(h, base) && v3 in base.rows && p.v4 in base.rows && base.rows[v3] == db.store.rows[v3]
            && base.vault == db.store.vault && (!p.created ==> base == db.store)
            && base.rows.Keys == db.store.rows.Keys + {p.v4} && TextOf(base.rows[p.v4]) == p.v4
            && PassOf(base.rows[p.v4]) == (if p.created then pass else PassOf(base.rows[p.v4]))
            && Export(db.store, v3, pass) == Some(SecretsOf(base.rows[p.v4])) && |Writes(p, v3)| >= 3
  {
    hide PlanFor, Export, V4Name, Fill, Make, Base, Named, Listed, MasterKek, Sibling, RowOk, VaultOk;
    SiblingApart(h, db.store, v3, pass, f);
    PlanGoes(h, db.store, v3, pass, f);
    BaseFacts(h, db.store, v3, pass, f);
    BaseWf(h, db.store, v3, pass, f);
    CreatedPublics(h, db.store, v3, pass, f);
    OpensExactly(db.store, v3, pass);
    SiblingWhole(h, Base(h, db.store, v3, pass, f), db.store.rows[v3]);
  }

  /** The text of a sibling's name was stored whole. */
  lemma SiblingWhole(h: Naming, s: Store, row: Row)
    requires Short(h) && Sound(s) && V4Name(h, row.stream, row.signPub, row.encPub) in s.rows
    ensures var v4 := V4Name(h, row.stream, row.signPub, row.encPub); TextOf(s.rows[v4]) == v4
  {
    OpensExactly(s, V4Name(h, row.stream, row.signPub, row.encPub), "");
  }

  // ------------------------------------------------------------------ stopping again and again

  /** A row without its salt and sealed bytes: what it says, what opens it and what it yields. */
  datatype Seen = Seen(title: string, chan: bool, version: uint64, stream: uint64, signPub: Public, encPub: Public,
                       trials: nat, extra: nat, algo: Algo, pass: Passphrase, secrets: Secrets)

  function See(row: Row): Seen {
    Seen(row.title, row.chan, row.version, row.stream, row.signPub, row.encPub, row.trials, row.extra, row.algo,
         PassOf(row), SecretsOf(row))
  }

  /** Both databases say the same, up to fresh salts and the place of a new row in the listing. */
  ghost predicate Alike(a: Db, b: Db) {
    && a.store.vault == b.store.vault && a.inbox == b.inbox && a.sent == b.sent
    && a.store.rows.Keys == b.store.rows.Keys
    && forall n :: n in a.store.rows ==> See(a.store.rows[n]) == See(b.store.rows[n])
  }

  lemma FinishAlike(a: Store, b: Store, db: Db, v3: Name, v4: Name, f: Fresh, g: Fresh)
    requires f.titled == g.titled && f.flagged == g.flagged
    requires v3 in a.rows && v4 in a.rows && v4 in b.rows && v3 != v4 && a.vault == b.vault
    requires b.rows == a.rows[v4 := b.rows[v4]] && See(a.rows[v4]) == See(b.rows[v4])
    ensures Alike(Finish(a, db, v3, v4, f), Finish(b, db, v3, v4, g))
  {
    hide RenameTo, RenameFrom, Without;
  }

  lemma SiblingSeen(h: Naming, s: Store, v3: Name, pass: Passphrase, f: Fresh, g: Fresh)
    requires Wf(h, s) && PlanFor(h, s, v3, pass, f).Go?
    ensures PlanFor(h, s, v3, pass, g).Go? && PlanFor(h, s, v3, pass, g).v4 == PlanFor(h, s, v3, pass, f).v4
    ensures var v4 := PlanFor(h, s, v3, pass, f).v4;
            var a, b := Base(h, s, v3, pass, f), Base(h, s, v3, pass, g);
            && v4 in a.rows && v4 in b.rows && See(a.rows[v4]) == See(b.rows[v4])
            && b.rows == a.rows[v4 := b.rows[v4]] && a.vault == b.vault
  {
    hide PlanFor, Export, V4Name, Fill, Make, Sound, Named, Listed, See, Sibling, Place;
    StoppedAtOnce(h, Db(s, [], []), v3, pass, f, g);
    PlanGoes(h, s, v3, pass, f);
    PlanGoes(h, s, v3, pass, g);
    BaseFacts(h, s, v3, pass, f);
    BaseFacts(h, s, v3, pass, g);
    SiblingSees(s, s.rows[v3], PlanFor(h, s, v3, pass, f).v4, Export(s, v3, pass).value, pass, f, g);
  }

  lemma SiblingSees(s: Store, v3: Row, v4: Name, keys: Secrets, pass: Passphrase, f: Fresh, g: Fresh)
    ensures See(Sibling(s, v3, v4, keys, pass, f).1) == See(Sibling(s, v3, v4, keys, pass, g).1)
  {
  }

  lemma FreshIrrelevant(h: Naming, db: Db, v3: Name, pass: Passphrase, f: Fresh, g: Fresh)
    requires Converting(h, db, v3, pass, f) && f.titled == g.titled && f.flagged == g.flagged
    ensures Converting(h, db, v3, pass, g) && Alike(Complete(h, db, v3, pass, f), Complete(h, db, v3, pass, g))
  {
    hide PlanFor, Complete, Base, Finish, Sound, Named, Listed, See;
    SiblingSeen(h, db.store, v3, pass, f, g);
    CompleteIs(h, db, v3, pass, f);
    CompleteIs(h, db, v3, pass, g);
    FinishAlike(Base(h, db.store, v3, pass, f), Base(h, db.store, v3, pass, g), db, v3,
                PlanFor(h, db.store, v3, pass, f).v4, f, g);
  }

  lemma AlikeTwice(a: Db, b: Db, c: Db)
    requires Alike(a, b) && Alike(b, c)
    ensures Alike(a, c)
  {
    hide See;
  }

  /** A run that stops before its last write. */
  datatype Attempt = Attempt(f: Fresh, k: nat)

  predicate Interrupted(h: Naming, db: Db, v3: Name, pass: Passphrase, tries: seq<Attempt>)
    decreases |tries|
  {
    |tries| == 0
    || (tries[0].k < |Writes(PlanFor(h, db.store, v3, pass, tries[0].f), v3)|
        && Interrupted(h, Stopped(h, db, v3, pass, tries[0].f, tries[0].k), v3, pass, tries[1..]))
  }

  function After(h: Naming, db: Db, v3: Name, pass: Passphrase, tries: seq<Attempt>): Db
    requires Interrupted(h, db, v3, pass, tries)
    decreases |tries|
  {
    if |tries| == 0 then db else After(h, Stopped(h, db, v3, pass, tries[0].f, tries[0].k), v3, pass, tries[1..])
  }

  /** Some of the interrupted runs set the label, or the flag. */
  predicate TitleLanded(h: Naming, db: Db, v3: Name, pass: Passphrase, tries: seq<Attempt>)
    requires Interrupted(h, db, v3, pass, tries)
    decreases |tries|
  {
    |tries| > 0
    && (Titles(Writes(PlanFor(h, db.store, v3, pass, tries[0].f), v3)[..tries[0].k])
        || TitleLanded(h, Stopped(h, db, v3, pass, tries[0].f, tries[0].k), v3, pass, tries[1..]))
  }

  predicate FlagLanded(h: Naming, db: Db, v3: Name, pass: Passphrase, tries: seq<Attempt>)
    requires Interrupted(h, db, v3, pass, tries)
    decreases |tries|
  {
    |tries| > 0
    && (Flags(Writes(PlanFor(h, db.store, v3, pass, tries[0].f), v3)[..tries[0].k])
        || FlagLanded(h, Stopped(h, db, v3, pass, tries[0].f, tries[0].k), v3, pass, tries[1..]))
  }

  /**
   However often a conversion is interrupted, and wherever, the old row still opens with
   the same passphrase and yields the same keys, and the run that finally completes leaves
   the same stores as one that was never interrupted and whose update of the label, or of
   the flag, works if that of any of the runs did.
   */
  lemma {:induction false} ManyStops(h: Naming, db: Db, v3: Name, pass: Passphrase, tries: seq<Attempt>, f: Fresh,
                                     g: Fresh)
    requires Converting(h, db, v3, pass, f) && Interrupted(h, db, v3, pass, tries)
    requires f.titled == (g.titled || TitleLanded(h, db, v3, pass, tries))
    requires f.flagged == (g.flagged || FlagLanded(h, db, v3, pass, tries))
    ensures var x := After(h, db, v3, pass, tries);
            && Converting(h, x, v3, pass, g) && Export(x.store, v3, pass) == Export(db.store, v3, pass)
            && Alike(Complete(h, db, v3, pass, f), Complete(h, x, v3, pass, g))
    decreases |tries|
  {
    hide PlanFor, Complete, Alike, Stopped, Export, Wf, Writes, Titles, Flags;
    if |tries| == 0 {
      FreshIrrelevant(h, db, v3, pass, f, g);
    } else {
      var t, rest := tries[0], tries[1..];
      StoppedAtOnce(h, db, v3, pass, f, t.f);
      StopLosesNothing(h, db, v3, pass, t.f, t.k);
      var x := Stopped(h, db, v3, pass, t.f, t.k);
      var again := g.(titled := g.titled || TitleLanded(h, x, v3, pass, rest),
                      flagged := g.flagged || FlagLanded(h, x, v3, pass, rest));
      ResumeReaches(h, db, v3, pass, t.f, t.k, again);
      ManyStops(h, x, v3, pass, rest, again, g);
      var done := Writes(PlanFor(h, db.store, v3, pass, t.f), v3)[..t.k];
      NoneSilent(done);
      FreshIrrelevant(h, db, v3, pass, f, Resumed(t.f, done, again));
      AlikeTwice(Complete(h, db, v3, pass, f), Complete(h, x, v3, pass, again),
                 Complete(h, After(h, x, v3, pass, rest), v3, pass, g));
    }
  }

  lemma NoneSilent(ws: seq<Write>)
    ensures |ws| == 0 ==> !Titles(ws) && !Flags(ws)
  {
  }

  /** The label, or the flag, that the sibling lacks and the version 3 row has. */
  predicate LacksTitle(s: Store, v3: Name, v4: Name)
    requires v3 in s.rows
  {
    v4 in s.rows && s.rows[v4].title == "" && s.rows[v3].title != ""
  }

  predicate LacksFlag(s: Store, v3: Name, v4: Name)
    requires v3 in s.rows
  {
    s.rows[v3].chan && (v4 in s.rows ==> !s.rows[v4].chan)
  }

  /**
   A conversion whose updates fail still completes and loses no key; against one whose updates
   work, the label is lost exactly when it was lacking and its update failed, and so is the flag.
   */
  lemma LostExactly(h: Naming, db: Db, v3: Name, pass: Passphrase, f: Fresh)
    requires Converting(h, db, v3, pass, f)
    ensures var g := f.(titled := true, flagged := true);
            var v4 := PlanFor(h, db.store, v3, pass, f).v4;
            var x, y := Complete(h, db, v3, pass, f).store, Complete(h, db, v3, pass, g).store;
            && v3 in db.store.rows && v4 in x.rows && v4 in y.rows
            && x == Update(y, v4, y.rows[v4].(title := x.rows[v4].title, chan := x.rows[v4].chan))
            && (x.rows[v4].title != y.rows[v4].title <==> LacksTitle(db.store, v3, v4) && !f.titled)
            && (x.rows[v4].chan != y.rows[v4].chan <==> LacksFlag(db.store, v3, v4) && !f.flagged)
  {
    var g := f.(titled := true, flagged := true);
    hide PlanFor, Export, Sound, Named, Listed, Base, Complete, Without, RenameTo, RenameFrom;
    PlanGoes(h, db.store, v3, pass, f);
    BaseSame(h, db.store, v3, pass, f, true, true);
    ConversionFacts(h, db, v3, pass, f);
    CompleteIs(h, db, v3, pass, f);
    CompleteIs(h, db, v3, pass, g);
    BaseTitle(h, db.store, v3, pass, f);
  }

  lemma BaseTitle(h: Naming, s: Store, v3: Name, pass: Passphrase, f: Fresh)
    requires PlanFor(h, s, v3, pass, f).Go?
    ensures var v4 := PlanFor(h, s, v3, pass, f).v4;
            var base := Base(h, s, v3, pass, f);
            && v3 in s.rows && v4 in base.rows
            && (v4 !in s.rows ==> base.rows[v4].title == s.rows[v3].title && !base.rows[v4].chan)
  {
    PlanGoes(h, s, v3, pass, f);
    BaseFacts(h, s, v3, pass, f);
    hide PlanFor, Export, Place, MasterKek, Stored;
  }
}
