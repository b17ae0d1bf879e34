/**
 Whole runs over the identity store: creating, importing, unlocking one by one or in
 bulk, exporting, locking, deleting and converting, with right or wrong passphrases,
 and with conversions that stop anywhere.
 */
module WalletRuns {
  import opened Numerals
  import opened Keyring
  import opened Migration
  import opened BatchConversion
  import Address
  import Base58

  datatype World = World(db: Db, ring: seq<Entry>)

  datatype Event =
    | CreateCall(id: Identity, pass: Passphrase, d: Draw)
    | ImportCall(id: Identity, pass: Passphrase, d: Draw)
    | UnlockCall(name: Name, pass: Passphrase)
    | BulkCall(names: seq<Name>, pass: Passphrase, draws: nat -> Draw)
    | ExportCall(name: Name, pass: Passphrase)
    | LockCall(name: Name)
    | DeleteCall(name: Name, works: bool)
    | LabelCall(name: Name, title: string)
    | ChanCall(name: Name)
    | ConvertCall(name: Name, pass: Passphrase, attempt: Attempt)
    | Restart

  /** `mark_unlocked_entry_as_chan` */
  function MarkChan(ring: seq<Entry>, name: Name): seq<Entry> {
    if |ring| == 0 then []
    else if ring[0].name == name then [ring[0].(chan := true)] + ring[1..]
    else [ring[0]] + MarkChan(ring[1..], name)
  }

  /** An unlocked `v3` hands its keys on to `e`, unless that address is unlocked already. */
  function HandOver(ring: seq<Entry>, v3: Name, e: Entry, mark: bool): seq<Entry> {
    var marked := if mark then MarkChan(ring, e.name) else ring;
    if Find(marked, v3).Some? && Find(marked, e.name).None? then [e] + marked else marked
  }

  /** Once the sibling of a conversion stands the keys are handed on; `v3` is locked just before its row is deleted. */
  function ConvertRing(h: Naming, w: World, v3: Name, pass: Passphrase, a: Attempt): seq<Entry> {
    var s := w.db.store;
    var p := PlanFor(h, s, v3, pass, a.f);
    if p.Refused? || a.k < |p.prepare| || v3 !in s.rows || Export(s, v3, pass).None? then w.ring
    else
      var chan := p.v4 in s.rows && s.rows[p.v4].chan;
      var handed := HandOver(w.ring, v3, Entry(p.v4, Export(s, v3, pass).value, chan || s.rows[v3].chan),
                             p.v4 in s.rows && s.rows[v3].chan && !chan);
      if a.k + 1 < |Writes(p, v3)| then handed else Lock(handed, v3)
  }

  function Step(h: Naming, w: World, e: Event): World {
    var s := w.db.store;
    match e
    case CreateCall(id, pass, d) => w.(db := w.db.(store := Create(s, id, pass, d).0))
    case ImportCall(id, pass, d) => w.(db := w.db.(store := Import(s, id, pass, d).0))
    case UnlockCall(name, pass) => w.(ring := Unlock(Node(s, w.ring), name, pass).0.ring)
    case BulkCall(names, pass, draws) =>
      var n := BulkFrom(Node(s, w.ring), BulkBegin(s, pass), names, draws, 0).0;
      World(w.db.(store := n.store), n.ring)
    case ExportCall(_, _) => w
    case LockCall(name) => w.(ring := Lock(w.ring, name))
    case DeleteCall(name, works) =>
      World(if works then w.db.(store := Delete(s, name)) else w.db, Lock(w.ring, name))
    case LabelCall(name, title) => w.(db := Apply(w.db, SetTitle(name, title)))
    case ChanCall(name) => w.(db := Apply(w.db, SetChan(name)))
    case ConvertCall(name, pass, a) =>
      World(Convert(h, w.db, name, pass, a).0, ConvertRing(h, w, name, pass, a))
    case Restart => w.(ring := [])
  }

  /** The callers store a version 3 identity under no text of a version 4 address. */
  ghost predicate Proper(h: Naming, e: Event) {
    (e.CreateCall? || e.ImportCall?) && e.id.version == 3 ==> NotV4(h, Stored(e.id.name))
  }

  function Run(h: Naming, w: World, run: seq<Event>): World
    decreases |run|
  {
    if |run| == 0 then w else Run(h, Step(h, w, run[0]), run[1..])
  }

  ghost predicate AllProper(h: Naming, run: seq<Event>) {
    |run| == 0 || (Proper(h, run[0]) && AllProper(h, run[1..]))
  }

  // ------------------------------------------------------------------- one step

  lemma InsertWf(h: Naming, s: Store, id: Identity, row: Row)
    requires Wf(h, s) && RowOk(s.vault, Stored(id.name), row) && NamedRow(h, Stored(id.name), row)
    ensures Wf(h, Insert(s, id, row).0) && Keeps(s, Insert(s, id, row).0)
  {
    InsertSound(s, id, row);
    hide Sound, RowOk, NamedRow, Keeps, Listed, Place, Stored;
    var name := Stored(id.name);
    if name !in s.rows {
      StoreRow(h, s, name, row);
      RelistSound(h, Update(s, name, row), Place(s.order, name, id.at));
      ListedPlace(s, name, row, id.at);
    }
  }

  lemma CreateWf(h: Naming, s: Store, id: Identity, pass: Passphrase, d: Draw)
    requires Wf(h, s) && Proper(h, CreateCall(id, pass, d))
    ensures Wf(h, Create(s, id, pass, d).0) && Keeps(s, Create(s, id, pass, d).0)
  {
    hide Sound, Named, Listed, Insert, V4Name, Keeps;
    KeepsSelf(s);
    InsertWf(h, s, id, NewRow(id, PlainScrypt, d.salt, Some(SCRYPT_PARAMS), Scrypt(pass, d.salt, SCRYPT_PARAMS)));
  }

  lemma KeepsSelf(s: Store)
    ensures Keeps(s, s)
  {
  }

  lemma VaultWf(h: Naming, s: Store, pass: Passphrase, d: Draw)
    requires Wf(h, s)
    ensures Wf(h, ResolveOrCreate(s, pass, d).0) && Keeps(s, ResolveOrCreate(s, pass, d).0)
  {
    hide RowOk, NamedRow, VaultOk, MasterKek;
    VaultSound(s, pass, d);
  }

  lemma ImportWf(h: Naming, s: Store, id: Identity, pass: Passphrase, d: Draw)
    requires Wf(h, s) && Proper(h, ImportCall(id, pass, d))
    ensures Wf(h, Import(s, id, pass, d).0) && Keeps(s, Import(s, id, pass, d).0)
  {
    hide Sound, Named, Listed, Insert, V4Name, ResolveOrCreate, Keeps;
    VaultSound(s, pass, d);
    VaultWf(h, s, pass, d);
    var (s1, master) := ResolveOrCreate(s, pass, d);
    if master.Some? && d.rowOk {
      var row := NewRow(id, VaultHkdf, d.salt, None, Hkdf(master.value, d.salt, id.name));
      InsertWf(h, s1, id, row);
      KeepsTwice(s, s1, Insert(s1, id, row).0);
    }
  }

  lemma BulkWf(h: Naming, n: Node, names: seq<Name>, pass: Passphrase, draws: nat -> Draw)
    requires Wf(h, n.store)
    ensures var n1 := BulkFrom(n, BulkBegin(n.store, pass), names, draws, 0).0;
            Wf(h, n1.store) && Keeps(n.store, n1.store) && n1.store.rows.Keys == n.store.rows.Keys
  {
    hide Sound, Keeps, MasterKek, V4Name, BulkFrom;
    BulkSound(n, BulkBegin(n.store, pass), names, draws, 0);
    var s, s1 := n.store, BulkFrom(n, BulkBegin(n.store, pass), names, draws, 0).0.store;
    forall name | name in s1.rows
      ensures NamedRow(h, name, s1.rows[name])
    {
      assert NamedRow(h, name, s.rows[name]) && Plain(s1.rows[name]) == Plain(s.rows[name]);
    }
  }

  lemma DeleteKeeps(h: Naming, s: Store, name: Name)
    requires Wf(h, s)
    ensures Wf(h, Delete(s, name)) && Keeps(s, Delete(s, name))
  {
    DeleteWf(h, s, name);
    hide Sound, Named, Listed, Without, PassOf, SecretsOf;
  }

  /** Neither a new label nor the channel flag touches a key. */
  lemma TouchKeeps(h: Naming, db: Db, name: Name, title: string)
    requires Wf(h, db.store)
    ensures Wf(h, Apply(db, SetTitle(name, title)).store) && Keeps(db.store, Apply(db, SetTitle(name, title)).store)
    ensures Wf(h, Apply(db, SetChan(name)).store) && Keeps(db.store, Apply(db, SetChan(name)).store)
  {
    hide Wf, Keeps;
    KeepsSelf(db.store);
    if name in db.store.rows {
      var row := db.store.rows[name];
      TouchedWf(h, db.store, name, row.(title := title));
      TouchedWf(h, db.store, name, row.(chan := true));
      TouchedKeeps(db.store, name, row.(title := title));
      TouchedKeeps(db.store, name, row.(chan := true));
    }
  }

  lemma TouchedKeeps(s: Store, name: Name, row: Row)
    requires name in s.rows && row.(title := s.rows[name].title, chan := s.rows[name].chan) == s.rows[name]
    ensures Keeps(s, Update(s, name, row))
  {
  }

  /** A conversion, complete or stopped anywhere, keeps the rows that stand before and after. */
  lemma ConvertKeeps(h: Naming, db: Db, v3: Name, pass: Passphrase, a: Attempt)
    requires Wf(h, db.store)
    ensures Wf(h, Convert(h, db, v3, pass, a).0.store) && Keeps(db.store, Convert(h, db, v3, pass, a).0.store)
  {
    hide PlanFor, Complete, Writes, Stopped, Sound, Named, Listed, Export, PassOf, SecretsOf, Base;
    var p := PlanFor(h, db.store, v3, pass, a.f);
    if p.Go? {
      var k := if a.k < |Writes(p, v3)| then a.k else |Writes(p, v3)|;
      StopLosesNothing(h, db, v3, pass, a.f, k);
      WholeWrites(h, db, v3, pass, a.f);
      var x := Stopped(h, db, v3, pass, a.f, k);
      ConversionFacts(h, db, v3, pass, a.f);
      forall n | n in db.store.rows && n in x.store.rows && (n == v3 || n == p.v4)
        ensures TextOf(x.store.rows[n]) == TextOf(db.store.rows[n])
        ensures PassOf(x.store.rows[n]) == PassOf(db.store.rows[n])
        ensures SecretsOf(x.store.rows[n]) == SecretsOf(db.store.rows[n])
      {
        OpensExactly(db.store, v3, pass);
        OpensExactly(x.store, n, if n == v3 then pass else PassOf(x.store.rows[n]));
      }
    }
  }

  lemma StepKeeps(h: Naming, w: World, e: Event)
    requires Wf(h, w.db.store) && Proper(h, e)
    ensures Wf(h, Step(h, w, e).db.store) && Keeps(w.db.store, Step(h, w, e).db.store)
  {
    var s := w.db.store;
    hide Sound, Named, Listed, Create, Import, BulkFrom, Unlock, Convert, ConvertRing, Delete, V4Name, MasterKek,
         PassOf, SecretsOf;
    match e
    case CreateCall(id, pass, d) => CreateWf(h, s, id, pass, d);
    case ImportCall(id, pass, d) => ImportWf(h, s, id, pass, d);
    case UnlockCall(_, _) =>
    case BulkCall(names, pass, draws) => BulkWf(h, Node(s, w.ring), names, pass, draws);
    case ExportCall(_, _) =>
    case LockCall(_) =>
    case DeleteCall(name, _) => DeleteKeeps(h, s, name);
    case LabelCall(name, title) => TouchKeeps(h, w.db, name, title);
    case ChanCall(name) => TouchKeeps(h, w.db, name, "");
    case ConvertCall(name, pass, a) => ConvertKeeps(h, w.db, name, pass, a);
    case Restart =>
  }

  // ------------------------------------------------------------------- whole runs

  /** The row of `name` stands from the start to the end of the run. */
  ghost predicate Stands(h: Naming, w: World, run: seq<Event>, name: Name)
    decreases |run|
  {
    name in w.db.store.rows && (|run| > 0 ==> Stands(h, Step(h, w, run[0]), run[1..], name))
  }

  /** No call of the run deletes the row of `name` or converts it. */
  predicate LeftAlone(run: seq<Event>, name: Name) {
    forall i :: 0 <= i < |run| ==> run[i] != DeleteCall(name, true) && !(run[i].ConvertCall? && run[i].name == name)
  }

  /** A row goes only by a call that deletes or converts that very row. */
  lemma StepStands(h: Naming, w: World, e: Event, name: Name)
    requires Wf(h, w.db.store) && name in w.db.store.rows
    requires e != DeleteCall(name, true) && !(e.ConvertCall? && e.name == name)
    ensures name in Step(h, w, e).db.store.rows
  {
    var s := w.db.store;
    hide Wf, BulkFrom, Unlock, Convert, ConvertRing, Lock, Without, MasterKek, NewRow, Place, Stored;
    match e
    case BulkCall(names, pass, draws) => BulkWf(h, Node(s, w.ring), names, pass, draws);
    case ConvertCall(v3, pass, a) => ConvertStands(h, w.db, v3, pass, a, name);
    case _ =>
  }

  lemma ConvertStands(h: Naming, db: Db, v3: Name, pass: Passphrase, a: Attempt, name: Name)
    requires Wf(h, db.store) && name in db.store.rows && name != v3
    ensures name in Convert(h, db, v3, pass, a).0.store.rows
  {
    hide PlanFor, Complete, Writes, Stopped, Sound, Named, Listed, Export, Base;
    var p := PlanFor(h, db.store, v3, pass, a.f);
    if p.Go? {
      var k := if a.k < |Writes(p, v3)| then a.k else |Writes(p, v3)|;
      StopLosesNothing(h, db, v3, pass, a.f, k);
      WholeWrites(h, db, v3, pass, a.f);
      ConversionFacts(h, db, v3, pass, a.f);
    }
  }

  lemma {:induction false} RunStands(h: Naming, w: World, run: seq<Event>, name: Name)
    requires Wf(h, w.db.store) && AllProper(h, run) && name in w.db.store.rows && LeftAlone(run, name)
    ensures Stands(h, w, run, name)
    decreases |run|
  {
    hide Wf, Step, Proper;
    if |run| > 0 {
      assert run[0] != DeleteCall(name, true);
      assert forall i :: 0 <= i < |run[1..]| ==> run[1..][i] == run[i + 1];
      StepStands(h, w, run[0], name);
      StepKeeps(h, w, run[0]);
      RunStands(h, Step(h, w, run[0]), run[1..], name);
    }
  }

  /** In every reachable state each vault row is sealed under the one master key that the stored canary verifies. */
  lemma {:induction false} RunSound(h: Naming, w: World, run: seq<Event>)
    requires Wf(h, w.db.store) && AllProper(h, run)
    ensures Wf(h, Run(h, w, run).db.store)
    ensures var s := Run(h, w, run).db.store;
            && (w.db.store.vault.Some? ==> s.vault == w.db.store.vault)
            && forall n :: n in s.rows && s.rows[n].algo.VaultHkdf? ==>
                 && n == Stored(TextOf(s.rows[n])) && s.vault.Some?
                 && s.rows[n].signBox.kek == Hkdf(s.vault.value.canary.kek, s.rows[n].salt, TextOf(s.rows[n]))
    decreases |run|
  {
    hide Named, Listed, Step, Proper;
    if |run| > 0 {
      StepKeeps(h, w, run[0]);
      RunSound(h, Step(h, w, run[0]), run[1..]);
    }
  }

  /**
   Over every run, whatever passphrases are tried, a stored row keeps the passphrase
   that opens it and the private keys it yields for as long as it stands.
   */
  lemma {:induction false} RunKeepsKeys(h: Naming, w: World, run: seq<Event>, name: Name, pass: Passphrase)
    requires Wf(h, w.db.store) && AllProper(h, run) && Stands(h, w, run, name)
    ensures Export(Run(h, w, run).db.store, name, pass) == Export(w.db.store, name, pass)
    decreases |run|
  {
    hide Wf, Step, Proper, Export, Keeps;
    if |run| > 0 {
      StepKeeps(h, w, run[0]);
      KeepsExportWf(h, w.db.store, Step(h, w, run[0]).db.store, name, pass);
      RunKeepsKeys(h, Step(h, w, run[0]), run[1..], name, pass);
    }
  }

  lemma KeepsExportWf(h: Naming, a: Store, b: Store, name: Name, pass: Passphrase)
    requires Wf(h, a) && Wf(h, b) && Keeps(a, b) && name in a.rows && name in b.rows
    ensures Export(b, name, pass) == Export(a, name, pass)
  {
    KeepsExport(a, b, name, pass);
  }

  // ------------------------------------------------------------------- from the start

  /** A new installation. */
  const START := World(Db(Store(map[], [], None), [], []), [])

  lemma StartWf(h: Naming)
    requires Short(h)
    ensures Wf(h, START.db.store)
  {
  }

  /**
   An identity imported at any time after the installation: for as long as its row stands, it
   opens with the passphrase of its import, and with no other, to the keys that were imported,
   exactly when the column kept the whole of the text it was imported under.
   */
  lemma ImportedForGood(h: Naming, run: seq<Event>, id: Identity, pass: Passphrase, d: Draw,
                        more: seq<Event>, q: Passphrase)
    requires Short(h) && AllProper(h, run) && AllProper(h, more)
    requires Proper(h, ImportCall(id, pass, d))
    requires Import(Run(h, START, run).db.store, id, pass, d).1
    requires Stands(h, Step(h, Run(h, START, run), ImportCall(id, pass, d)), more, Stored(id.name))
    ensures Export(Run(h, Step(h, Run(h, START, run), ImportCall(id, pass, d)), more).db.store,
                   Stored(id.name), q) ==
            if |id.name| <= ADDRESS_MAX && q == pass then Some(id.secrets) else None
  {
    StartWf(h);
    RunSound(h, START, run);
    var w, call := Run(h, START, run), ImportCall(id, pass, d);
    ImportOpens(h, w.db.store, id, pass, d);
    StepKeeps(h, w, call);
    hide Export, Import, Run, Stored, Wf, Proper, Keeps;
    RunKeepsKeys(h, Step(h, w, call), more, Stored(id.name), q);
  }

  /**
   Nothing but deleting or converting its own row takes an imported identity away: after any other
   calls an unlock with the passphrase of the import works and puts the imported keys in front, and
   an unlock with another passphrase changes nothing.
   */
  lemma ImportedUnlocks(h: Naming, run: seq<Event>, id: Identity, pass: Passphrase, d: Draw,
                        more: seq<Event>, q: Passphrase)
    requires Short(h) && AllProper(h, run) && AllProper(h, more)
    requires Proper(h, ImportCall(id, pass, d)) && |id.name| <= ADDRESS_MAX
    requires Import(Run(h, START, run).db.store, id, pass, d).1 && LeftAlone(more, id.name)
    ensures var w := Run(h, Step(h, Run(h, START, run), ImportCall(id, pass, d)), more);
            var x := Step(h, w, UnlockCall(id.name, q));
            && id.name in w.db.store.rows
            && x.db == w.db
            && x.ring == if q == pass then [Entry(id.name, id.secrets, w.db.store.rows[id.name].chan)] + w.ring
                         else w.ring
  {
    StartWf(h);
    RunSound(h, START, run);
    var w, call := Run(h, START, run), ImportCall(id, pass, d);
    ImportOpens(h, w.db.store, id, pass, d);
    StepKeeps(h, w, call);
    RunStands(h, Step(h, w, call), more, id.name);
    StandsLast(h, Step(h, w, call), more, id.name);
    hide Export, Import, Run, Wf, Proper, Keeps, Stands;
    ImportedForGood(h, run, id, pass, d, more, q);
  }

  lemma {:induction false} StandsLast(h: Naming, w: World, run: seq<Event>, name: Name)
    requires Stands(h, w, run, name)
    ensures name in Run(h, w, run).db.store.rows
    decreases |run|
  {
    hide Step;
    if |run| > 0 {
      StandsLast(h, Step(h, w, run[0]), run[1..], name);
    }
  }

  lemma ImportOpens(h: Naming, s: Store, id: Identity, pass: Passphrase, d: Draw)
    requires Wf(h, s) && Import(s, id, pass, d).1
    ensures OpensAs(Import(s, id, pass, d).0, id, pass)
  {
    ImportSound(s, id, pass, d);
  }

  /** Whatever text the importer accepts, the address's own or another one, meets `Proper`. */
  lemma ImportProper(sum: Address.Checksum, ripe: (Public, Public) -> seq<byte>, id: Identity, pass: Passphrase,
                     d: Draw)
    requires forall sign, enc :: |ripe(sign, enc)| == Address.RIPE_LEN
    requires Address.DecodeText(sum, id.name).Some? && Address.DecodeText(sum, id.name).value.version == id.version
    ensures Proper(AddressNaming(sum, ripe), ImportCall(id, pass, d))
    ensures Short(AddressNaming(sum, ripe))
  {
    hide Address.DecodeText, NotV4, Short;
    AddressesShort(sum, ripe);
    if id.version == 3 {
      AcceptedNotV4(sum, ripe, id.name);
    }
  }

  /**
   The losing input: every version 3 identity has a text that the importer accepts, that is
   stored with success, and whose row no passphrase opens.
   */
  lemma LongTextLoses(sum: Address.Checksum, ripe: (Public, Public) -> seq<byte>, id: Identity, pass: Passphrase,
                      d: Draw, q: Passphrase)
    requires |ripe(PublicOf(id.secrets.signing), PublicOf(id.secrets.encryption))| == Address.RIPE_LEN
    requires d.vaultOk && d.rowOk
    requires var r := ripe(PublicOf(id.secrets.signing), PublicOf(id.secrets.encryption));
             id.version == 3 && id.name == "BM-" + (Base58.Ones(61) + Address.Bare(sum, 3, id.stream, r))
    ensures Address.DecodeText(sum, id.name) ==
            Some(Address.Decoded(3, id.stream, ripe(PublicOf(id.secrets.signing), PublicOf(id.secrets.encryption))))
    ensures var (s, ok) := Import(START.db.store, id, pass, d);
            ok && Stored(id.name) in s.rows && Export(s, Stored(id.name), q).None? && Export(s, id.name, q).None?
  {
    var r := ripe(PublicOf(id.secrets.signing), PublicOf(id.secrets.encryption));
    hide Address.DecodeText, Address.Bare, Address.Text, Import, Stored;
    Address.OtherTexts(sum, id.stream, r, 61);
    ImportSound(START.db.store, id, pass, d);
  }

  // ------------------------------------------------------------------- staying unlocked

  lemma {:induction false} FindMarked(ring: seq<Entry>, name: Name, other: Name)
    ensures Find(MarkChan(ring, name), other).Some? <==> Find(ring, other).Some?
  {
    if |ring| > 0 {
      FindMarked(ring[1..], name, other);
    }
  }

  lemma {:induction false} FindLocked(ring: seq<Entry>, name: Name, other: Name)
    requires name != other
    ensures Find(Lock(ring, name), other) == Find(ring, other)
  {
    if |ring| > 0 {
      FindLocked(ring[1..], name, other);
    }
  }

  lemma HandOverUnlocks(ring: seq<Entry>, v3: Name, e: Entry, mark: bool)
    requires Find(ring, v3).Some?
    ensures Find(HandOver(ring, v3, e, mark), e.name).Some?
  {
    FindMarked(ring, e.name, v3);
  }

  /** An identity that was unlocked before its conversion can still receive afterwards: its sibling is unlocked. */
  lemma ConvertStaysUnlocked(h: Naming, w: World, v3: Name, pass: Passphrase, a: Attempt)
    requires Wf(h, w.db.store) && Convert(h, w.db, v3, pass, a).1 && Find(w.ring, v3).Some?
    ensures Find(ConvertRing(h, w, v3, pass, a), PlanFor(h, w.db.store, v3, pass, a.f).v4).Some?
  {
    hide PlanFor, Export, Sound, Named, Listed, Base, Complete, Stopped, Find, MarkChan, Lock, HandOver;
    var s := w.db.store;
    var p := PlanFor(h, s, v3, pass, a.f);
    ConversionFacts(h, w.db, v3, pass, a.f);
    var chan := p.v4 in s.rows && s.rows[p.v4].chan;
    var e, mark := Entry(p.v4, Export(s, v3, pass).value, chan || s.rows[v3].chan),
                   p.v4 in s.rows && s.rows[v3].chan && !chan;
    HandOverUnlocks(w.ring, v3, e, mark);
    FindLocked(HandOver(w.ring, v3, e, mark), v3, p.v4);
  }

  // ---------------------------------------------------------------- from end to end

  function SiblingOf(h: Naming, id: Identity): Name {
    V4Name(h, Narrow(id.stream), PublicOf(id.secrets.signing), PublicOf(id.secrets.encryption))
  }

  /** No row stands under the sibling's name, or one with the same public keys. */
  predicate SiblingFits(h: Naming, s: Store, id: Identity) {
    var v4 := SiblingOf(h, id);
    v4 in s.rows ==>
      s.rows[v4].signPub == PublicOf(id.secrets.signing) && s.rows[v4].encPub == PublicOf(id.secrets.encryption)
  }

  lemma CreatedGoes(h: Naming, s: Store, id: Identity, pass: Passphrase, d: Draw, f: Fresh)
    requires Wf(h, s) && Proper(h, CreateCall(id, pass, d)) && id.version == 3 && Create(s, id, pass, d).1
    ensures var s1 := Create(s, id, pass, d).0;
            var p := PlanFor(h, s1, Stored(id.name), pass, f);
            && Wf(h, s1) && OpensAs(s1, id, pass) && SiblingOf(h, id) != Stored(id.name)
            && (SiblingOf(h, id) in s1.rows <==> SiblingOf(h, id) in s.rows)
            && (p.Go? <==> |id.name| <= ADDRESS_MAX && SiblingFits(h, s, id))
            && (p.Go? ==> p.v4 == SiblingOf(h, id) && p.created == (p.v4 !in s.rows))
            && (SiblingOf(h, id) in s.rows ==> s1.rows[SiblingOf(h, id)] == s.rows[SiblingOf(h, id)])
  {
    CreateWf(h, s, id, pass, d);
    CreateSound(s, id, pass, d);
    var s1 := Create(s, id, pass, d).0;
    hide Sound, Named, Listed, Export, Fill, Make, NewVault, Place, Keeps, Sibling, V4Name, Stored, Offered;
    SiblingDiffers(h, s1, Stored(id.name));
    assert Export(s1, Stored(id.name), pass).Some? <==> |id.name| <= ADDRESS_MAX;
  }

  /**
   A version 3 identity that was created and then converted with its passphrase: the
   conversion goes through exactly when the text was stored whole and no foreign keys stand
   under the sibling's name. Then the old row is gone and the sibling, made or found, opens to
   the same private keys, with the same passphrase if it was made and with its own if it was
   found. With any other passphrase the conversion is refused and changes nothing.
   */
  lemma CreateThenConvert(h: Naming, db: Db, id: Identity, pass: Passphrase, d: Draw, a: Attempt, wrong: Passphrase)
    requires Wf(h, db.store) && Proper(h, CreateCall(id, pass, d)) && id.version == 3
    requires Create(db.store, id, pass, d).1 && a.k >= 5 && wrong != pass
    ensures var made := db.(store := Create(db.store, id, pass, d).0);
            var (x, ok) := Convert(h, made, Stored(id.name), pass, a);
            var v4 := SiblingOf(h, id);
            && (ok <==> |id.name| <= ADDRESS_MAX && SiblingFits(h, db.store, id))
            && (!ok ==> x == made)
            && (ok ==> && Stored(id.name) !in x.store.rows
                       && Export(x.store, v4, if v4 in db.store.rows then PassOf(db.store.rows[v4]) else pass) ==
                          Some(id.secrets))
            && Convert(h, made, Stored(id.name), wrong, a) == (made, false)
  {
    hide PlanFor, Complete, Stopped, Sound, Named, Listed, Export, V4Name, Place, Create, Stored, SiblingFits,
         SiblingOf;
    var made, name := db.(store := Create(db.store, id, pass, d).0), Stored(id.name);
    CreatedGoes(h, db.store, id, pass, d, a.f);
    assert Export(made.store, name, wrong).None?;
    WrongRefused(h, made.store, name, wrong, a.f);
    var p := PlanFor(h, made.store, name, pass, a.f);
    if p.Go? {
      ShortPlan(h, made.store, name, pass, a.f);
      StopLosesNothing(h, made, name, pass, a.f, |Writes(p, name)|);
      WholeWrites(h, made, name, pass, a.f);
      ConversionFacts(h, made, name, pass, a.f);
    }
  }

  lemma ShortPlan(h: Naming, s: Store, v3: Name, pass: Passphrase, f: Fresh)
    requires PlanFor(h, s, v3, pass, f).Go?
    ensures |Writes(PlanFor(h, s, v3, pass, f), v3)| <= 5
  {
    hide PlanFor, Export, V4Name, Sibling;
    PlanGoes(h, s, v3, pass, f);
  }

  lemma WrongRefused(h: Naming, s: Store, v3: Name, pass: Passphrase, f: Fresh)
    requires Export(s, v3, pass).None?
    ensures PlanFor(h, s, v3, pass, f).Refused?
  {
  }

  function SiblingName(h: Naming, row: Row): Name {
    V4Name(h, row.stream, row.signPub, row.encPub)
  }

  // ------------------------------------------------------ what a conversion answers and hands on

  /** How many writes a conversion makes: three, one for a new sibling, and one for a label or a flag it lacks. */
  function WriteCount(s: Store, v3: Name, v4: Name, f: Fresh): nat
    requires v3 in s.rows
  {
    3 + (if v4 in s.rows then 0 else 1)
    + (if LacksTitle(s, v3, v4) && f.titled then 1 else 0) + (if LacksFlag(s, v3, v4) && f.flagged then 1 else 0)
  }

  lemma CountExact(h: Naming, s: Store, v3: Name, pass: Passphrase, f: Fresh)
    requires PlanFor(h, s, v3, pass, f).Go?
    ensures v3 in s.rows
    ensures var p := PlanFor(h, s, v3, pass, f);
            && |Writes(p, v3)| == WriteCount(s, v3, SiblingName(h, s.rows[v3]), f) && |Writes(p, v3)| == |p.prepare| + 3
            && p.v4 == SiblingName(h, s.rows[v3])
  {
    PlanGoes(h, s, v3, pass, f);
    hide PlanFor, Export, V4Name, Sibling;
  }

  /** A conversion succeeds exactly when its row can be converted and all of its writes reach the disk. */
  lemma ConvertExactly(h: Naming, db: Db, v3: Name, pass: Passphrase, a: Attempt)
    requires Wf(h, db.store)
    ensures var s := db.store;
            Convert(h, db, v3, pass, a).1 <==>
            && Third(s, v3) && OpensWith(s, v3, pass) && Fits(h, s, s.rows[v3])
            && a.k >= WriteCount(s, v3, SiblingName(h, s.rows[v3]), a.f)
    ensures Convert(h, db, v3, pass, a).1 ==> Convert(h, db, v3, pass, a).0 == Complete(h, db, v3, pass, a.f)
  {
    PlanExact(h, db.store, v3, pass, a.f);
    hide PlanFor, Wf, OpensWith, Fits, SiblingName, WriteCount, Stopped, Complete;
    if PlanFor(h, db.store, v3, pass, a.f).Go? {
      CountExact(h, db.store, v3, pass, a.f);
    }
  }

  lemma {:induction false} FindMarkedExact(ring: seq<Entry>, name: Name, other: Name)
    ensures Find(MarkChan(ring, name), other) ==
            if other == name && Find(ring, name).Some? then Some(Find(ring, name).value.(chan := true))
            else Find(ring, other)
  {
    if |ring| > 0 {
      FindMarkedExact(ring[1..], name, other);
    }
  }

  lemma FindPushed(ring: seq<Entry>, e: Entry, other: Name)
    ensures Find([e] + ring, other) == if other == e.name then Some(e) else Find(ring, other)
  {
    assert ([e] + ring)[1..] == ring;
  }

  lemma HandOverExact(ring: seq<Entry>, v3: Name, e: Entry, mark: bool, n: Name)
    requires v3 != e.name
    ensures var handed := HandOver(ring, v3, e, mark);
            && (n != e.name ==> Find(handed, n) == Find(ring, n))
            && Find(handed, e.name) ==
               (if Find(ring, e.name).Some? then
                  Some(Find(ring, e.name).value.(chan := mark || Find(ring, e.name).value.chan))
                else if Find(ring, v3).Some? then Some(e)
                else None)
  {
    hide Find, MarkChan;
    FindMarkedExact(ring, e.name, n);
    FindMarkedExact(ring, e.name, v3);
    FindMarkedExact(ring, e.name, e.name);
    var marked := if mark then MarkChan(ring, e.name) else ring;
    FindPushed(marked, e, n);
    FindPushed(marked, e, e.name);
  }

  /** The unlocked identities after a conversion whose preparing writes reached the disk. */
  lemma ConvertRingExact(h: Naming, w: World, v3: Name, pass: Passphrase, a: Attempt, n: Name)
    requires Wf(h, w.db.store) && PlanFor(h, w.db.store, v3, pass, a.f).Go?
    ensures v3 in w.db.store.rows
    ensures var s, ring := w.db.store, ConvertRing(h, w, v3, pass, a);
            var row, v4 := s.rows[v3], SiblingName(h, s.rows[v3]);
            var count := WriteCount(s, v3, v4, a.f);
            && v4 != v3
            && (a.k + 3 < count ==> ring == w.ring)
            && (n != v3 && n != v4 ==> Find(ring, n) == Find(w.ring, n))
            && (a.k + 3 >= count ==>
                  && Find(ring, v4) ==
                     (if Find(w.ring, v4).Some? then
                        Some(Find(w.ring, v4).value.(chan := Find(w.ring, v4).value.chan
                                                             || (row.chan && v4 in s.rows && !s.rows[v4].chan)))
                      else if Find(w.ring, v3).Some? then
                        Some(Entry(v4, SecretsOf(row), row.chan || (v4 in s.rows && s.rows[v4].chan)))
                      else None))
            && (a.k + 1 < count ==> Find(ring, v3) == Find(w.ring, v3))
            && (a.k + 1 >= count && Find(Lock(w.ring, v3), v3).None? ==> Find(ring, v3).None?)
  {
    hide PlanFor, Export, Sound, Named, Listed, WriteCount, Writes, SiblingName, HandOver, Find, Lock, SecretsOf,
         PassOf;
    var s := w.db.store;
    SiblingApart(h, s, v3, pass, a.f);
    CountExact(h, s, v3, pass, a.f);
    OpensExactly(s, v3, pass);
    var p := PlanFor(h, s, v3, pass, a.f);
    if a.k >= |p.prepare| {
      PlanGoes(h, s, v3, pass, a.f);
      var chan := p.v4 in s.rows && s.rows[p.v4].chan;
      var e := Entry(p.v4, Export(s, v3, pass).value, chan || s.rows[v3].chan);
      var mark := p.v4 in s.rows && s.rows[v3].chan && !chan;
      HandOverExact(w.ring, v3, e, mark, n);
      HandOverExact(w.ring, v3, e, mark, v3);
      HandedLocked(w.ring, v3, e, mark);
      var handed := HandOver(w.ring, v3, e, mark);
      if n != v3 {
        FindLocked(handed, v3, n);
      }
      FindLocked(handed, v3, p.v4);
    }
  }

  lemma {:induction false} LockMarked(ring: seq<Entry>, name: Name, v3: Name)
    requires name != v3
    ensures Lock(MarkChan(ring, name), v3) == MarkChan(Lock(ring, v3), name)
  {
    if |ring| > 0 {
      LockMarked(ring[1..], name, v3);
    }
  }

  /** An identity unlocked once is locked after the hand-over and the locking. */
  lemma HandedLocked(ring: seq<Entry>, v3: Name, e: Entry, mark: bool)
    requires v3 != e.name
    ensures Find(Lock(HandOver(ring, v3, e, mark), v3), v3) == Find(Lock(ring, v3), v3)
  {
    hide Find;
    LockMarked(ring, e.name, v3);
    FindMarkedExact(Lock(ring, v3), e.name, v3);
    var marked := if mark then MarkChan(ring, e.name) else ring;
    FindPushed(Lock(marked, v3), e, v3);
    assert ([e] + marked)[1..] == marked;
  }

  // ------------------------------------------------------------------- a whole batch

  /** The sibling of `row` stands in the store with the same private keys. */
  ghost predicate SiblingStands(h: Naming, s: Store, row: Row) {
    var v4 := SiblingName(h, row);
    && v4 in s.rows && s.rows[v4].version != 3 && TextOf(s.rows[v4]) == v4
    && SecretsOf(s.rows[v4]) == SecretsOf(row)
  }

  /** In a well-formed store no row of version 3 stands under a version 4 name. */
  lemma SiblingVersion(h: Naming, s: Store, row: Row)
    requires Wf(h, s) && SiblingName(h, row) in s.rows
    ensures s.rows[SiblingName(h, row)].version != 3
  {
    var v4 := SiblingName(h, row);
    assert NamedRow(h, v4, s.rows[v4]);
    hide Sound, Listed;
  }

  /** What one conversion, complete or stopped, does to the rows of either kind. */
  lemma ConvertEffect(h: Naming, db: Db, v3: Name, pass: Passphrase, a: Attempt, n: Name)
    requires Wf(h, db.store) && n in db.store.rows
    ensures var (x, ok) := Convert(h, db, v3, pass, a);
            && Wf(h, x.store)
            && (db.store.rows[n].version == 3 && (n != v3 || !ok) ==>
                  n in x.store.rows && x.store.rows[n] == db.store.rows[n])
            && (db.store.rows[n].version != 3 ==>
                  && n in x.store.rows && x.store.rows[n].version != 3
                  && TextOf(x.store.rows[n]) == TextOf(db.store.rows[n])
                  && SecretsOf(x.store.rows[n]) == SecretsOf(db.store.rows[n]))
            && (ok && n == v3 ==> n !in x.store.rows && SiblingStands(h, x.store, db.store.rows[n]))
  {
    hide PlanFor, Complete, Writes, Stopped, Sound, Named, Listed, Export, PassOf, SecretsOf, Base, V4Name;
    ConvertKeeps(h, db, v3, pass, a);
    var p := PlanFor(h, db.store, v3, pass, a.f);
    if p.Go? {
      var k := if a.k < |Writes(p, v3)| then a.k else |Writes(p, v3)|;
      StopLosesNothing(h, db, v3, pass, a.f, k);
      WholeWrites(h, db, v3, pass, a.f);
      var x := Stopped(h, db, v3, pass, a.f, k);
      ConversionFacts(h, db, v3, pass, a.f);
      PlanGoes(h, db.store, v3, pass, a.f);
      if db.store.rows[n].version == 3 {
        V3NotV4(h, db.store, n);
      }
      if p.v4 in x.store.rows {
        SiblingVersion(h, x.store, db.store.rows[v3]);
        OpensExactly(x.store, p.v4, PassOf(x.store.rows[p.v4]));
        OpensExactly(db.store, v3, pass);
      }
    }
  }

  lemma V3NotV4(h: Naming, s: Store, n: Name)
    requires Wf(h, s) && n in s.rows && s.rows[n].version == 3
    ensures NotV4(h, n)
  {
    assert NamedRow(h, n, s.rows[n]);
    hide Sound, Listed, V4Name;
  }

  lemma InSnoc(names: seq<Name>, name: Name, n: Name)
    ensures n in names + [name] <==> n in names || n == name
  {
  }

  /** A conversion adds no row but the sibling, so a name of version 3 that is gone stays gone. */
  lemma ConvertAdds(h: Naming, db: Db, v3: Name, pass: Passphrase, a: Attempt, n: Name)
    requires Wf(h, db.store) && n !in db.store.rows && NotV4(h, n)
    ensures n !in Convert(h, db, v3, pass, a).0.store.rows
  {
    hide PlanFor, Complete, Writes, Stopped, Sound, Named, Listed, Export, Base, V4Name;
    var p := PlanFor(h, db.store, v3, pass, a.f);
    if p.Go? {
      var k := if a.k < |Writes(p, v3)| then a.k else |Writes(p, v3)|;
      StopLosesNothing(h, db, v3, pass, a.f, k);
      WholeWrites(h, db, v3, pass, a.f);
      PlanGoes(h, db.store, v3, pass, a.f);
      assert p.v4 == SiblingName(h, db.store.rows[v3]);
    }
  }

  /** Where a row of version 3 is after a batch over some names. */
  ghost predicate Placed(h: Naming, b: Batch, names: seq<Name>, n: Name, row: Row) {
    && (n in names <==> n in b.converted || n in b.failed)
    && (n !in b.converted ==> n in b.db.store.rows && b.db.store.rows[n] == row)
    && (n in b.converted ==> n !in b.failed && n !in b.db.store.rows && SiblingStands(h, b.db.store, row))
  }

  lemma PlaceStep(h: Naming, b: Batch, names: seq<Name>, n: Name, row: Row, name: Name, pass: Passphrase, a: Attempt)
    requires Wf(h, b.db.store) && row.version == 3 && Placed(h, b, names, n, row)
    requires name !in names && NotV4(h, n)
    ensures Wf(h, TryOne(h, b, name, pass, a).db.store)
    ensures Placed(h, TryOne(h, b, name, pass, a), names + [name], n, row)
  {
    hide Convert, Wf, SecretsOf, V4Name, SiblingName, NotV4;
    ConvertLists(h, b.db, name, pass, a);
    InSnoc(names, name, n);
    InSnoc(b.converted, name, n);
    InSnoc(b.failed, name, n);
    if n !in b.converted {
      ConvertEffect(h, b.db, name, pass, a, n);
    } else {
      ConvertEffect(h, b.db, name, pass, a, SiblingName(h, row));
      ConvertAdds(h, b.db, name, pass, a, n);
    }
  }

  /**
   After a batch over distinct names every version 3 row is in exactly one place: not tried or
   failed, and unchanged; or converted, gone, and replaced by a sibling with its private keys.
   */
  lemma {:induction false} BatchPlaces(h: Naming, db: Db, pass: Passphrase, luck: nat -> Attempt, names: seq<Name>,
                                       n: Name)
    requires Wf(h, db.store) && Distinct(names) && n in db.store.rows && db.store.rows[n].version == 3
    ensures var b := ConvertAll(h, db, pass, luck, names);
            Wf(h, b.db.store) && Placed(h, b, names, n, db.store.rows[n])
  {
    hide TryOne, Wf;
    if |names| > 0 {
      var k := |names| - 1;
      var front, name := names[..k], names[k];
      BatchPlaces(h, db, pass, luck, front, n);
      assert names == front + [name];
      V3NotV4(h, db.store, n);
      hide ConvertAll, SiblingName, Placed;
      PlaceStep(h, ConvertAll(h, db, pass, luck, front), front, n, db.store.rows[n], name, pass, luck(k));
      ConvertAllSnoc(h, db, pass, luck, front, name);
    }
  }

  /** Rows of other versions stand through a batch with their private keys. */
  lemma {:induction false} BatchKeepsOthers(h: Naming, db: Db, pass: Passphrase, luck: nat -> Attempt, names: seq<Name>,
                                            n: Name)
    requires Wf(h, db.store) && n in db.store.rows && db.store.rows[n].version != 3
    ensures var s := ConvertAll(h, db, pass, luck, names).db.store;
            && Wf(h, s) && n in s.rows && s.rows[n].version != 3
            && TextOf(s.rows[n]) == TextOf(db.store.rows[n]) && SecretsOf(s.rows[n]) == SecretsOf(db.store.rows[n])
  {
    hide Wf, Convert, SecretsOf;
    if |names| > 0 {
      var k := |names| - 1;
      BatchKeepsOthers(h, db, pass, luck, names[..k], n);
      ConvertEffect(h, ConvertAll(h, db, pass, luck, names[..k]).db, names[k], pass, luck(k), n);
    }
  }

  /** Private keys that some passphrase opens. */
  ghost predicate Recoverable(s: Store, keys: Secrets) {
    exists name, pass :: Export(s, name, pass) == Some(keys)
  }

  /** No batch, whatever its luck, loses a private key: what could be opened before can be opened after. */
  lemma BatchLosesNothing(h: Naming, db: Db, pass: Passphrase, luck: nat -> Attempt, names: seq<Name>, n: Name,
                          q: Passphrase)
    requires Wf(h, db.store) && Distinct(names) && Export(db.store, n, q).Some?
    ensures Recoverable(ConvertAll(h, db, pass, luck, names).db.store, Export(db.store, n, q).value)
  {
    OpensExactly(db.store, n, q);
    var row := db.store.rows[n];
    hide Export, Wf, ConvertAll, SecretsOf, PassOf, SiblingName;
    var b := ConvertAll(h, db, pass, luck, names);
    var m := n;
    if row.version == 3 {
      BatchPlaces(h, db, pass, luck, names, n);
      if n in b.converted {
        m := SiblingName(h, row);
      }
    } else {
      BatchKeepsOthers(h, db, pass, luck, names, n);
    }
    OpensRow(h, b.db.store, m);
  }

  lemma OpensRow(h: Naming, s: Store, m: Name)
    requires Wf(h, s) && m in s.rows && TextOf(s.rows[m]) == m
    ensures Export(s, m, PassOf(s.rows[m])) == Some(SecretsOf(s.rows[m]))
  {
    hide Export, Named, Listed, SecretsOf;
    OpensExactly(s, m, PassOf(s.rows[m]));
  }
}
