/**
 One conversion as the program runs it: the session remembers the vault's master key,
 and the databases are changed write by write. Proved against the plans of `Migration`.
 */
module Converter {
  import opened Numerals
  import opened Keyring
  import opened Migration

  datatype MasterState = Unknown | Ready(master: Kek) | Absent

  /** `bm_keyring_convert_session` */
  class Session {
    const pass: Passphrase
    var state: MasterState

    constructor (pass: Passphrase)
      ensures this.pass == pass && state == Unknown
    {
      this.pass := pass;
      state := Unknown;
    }

    /** The remembered answer is the one the vault gives. */
    ghost predicate Agrees(vault: Option<Vault>)
      reads this
    {
      match state
      case Unknown => true
      case Ready(k) => MasterKek(vault, pass) == Some(k)
      case Absent => MasterKek(vault, pass) == None
    }

    /** `session_master_kek`: derived at most once. */
    method Master(vault: Option<Vault>) returns (master: Option<Kek>)
      requires Agrees(vault)
      modifies this`state
      ensures Agrees(vault) && !state.Unknown? && master == MasterKek(vault, pass)
      ensures !old(state).Unknown? ==> state == old(state)
    {
      if state.Unknown? {
        var k := MasterKek(vault, pass);
        state := if k.Some? then Ready(k.value) else Absent;
      }
      master := if state.Ready? then Some(state.master) else None;
    }
  }

  class Databases {
    var store: Store
    var inbox: seq<Mail>
    var sent: seq<Mail>

    ghost function View(): Db
      reads this
    {
      Db(store, inbox, sent)
    }

    constructor (db: Db)
      ensures View() == db
    {
      store, inbox, sent := db.store, db.inbox, db.sent;
    }

    /** The private keys of a row, with the master key taken from the session. */
    method OpenWith(name: Name, session: Session) returns (keys: Option<Secrets>)
      requires name in store.rows && session.Agrees(store.vault)
      modifies session`state
      ensures session.Agrees(store.vault) && keys == Export(store, name, session.pass)
      ensures store.rows[name].algo.VaultHkdf? ==> !session.state.Unknown?
    {
      var row := store.rows[name];
      if row.algo.VaultHkdf? {
        var master := session.Master(store.vault);
        if master.None? {
          return None;
        }
        keys := OpenRow(name, row, Hkdf(master.value, row.salt, name));
      } else {
        if row.params.None? {
          return None;
        }
        keys := OpenRow(name, row, Scrypt(session.pass, row.salt, row.params.value));
      }
    }

    method Exec(w: Write)
      modifies this
      ensures View() == Apply(old(View()), w) && store.vault == old(store.vault)
    {
      match w {
        case InsertRow(id, row) => store := Insert(store, id, row).0;
        case SetTitle(name, title) =>
          if name in store.rows {
            store := Update(store, name, store.rows[name].(title := title));
          }
        case SetChan(name) =>
          if name in store.rows {
            store := Update(store, name, store.rows[name].(chan := true));
          }
        case RenameInbox(name, now) => inbox := RenameTo(inbox, name, now);
        case RenameSent(name, now) => sent := RenameFrom(sent, name, now);
        case DeleteRow(name) => store := Delete(store, name);
      }
    }

    /** An update whose failure goes unnoticed. */
    method Try(w: Write, works: bool)
      modifies this
      ensures View() == (if works then Apply(old(View()), w) else old(View())) && store.vault == old(store.vault)
    {
      if works {
        Exec(w);
      }
    }

    /** `bm_keyring_ensure_v4_sibling` */
    method EnsureSibling(h: Naming, v3: Name, session: Session, f: Fresh) returns (rc: int, v4: Name, created: bool)
      requires session.Agrees(store.vault)
      modifies this, session`state
      ensures session.Agrees(store.vault)
      ensures var p := PlanFor(h, old(store), v3, session.pass, f);
              if p.Refused? then rc == p.rc && rc != 0 && View() == old(View())
              else rc == 0 && v4 == p.v4 && created == p.created && View() == ApplyAll(old(View()), p.prepare)
    {
      hide V4Name, Apply, ApplyAll, Fill, Make, Export, OpenRow, MasterKek, NewRow;
      v4, created := "", false;
      if v3 !in store.rows {
        return NOT_FOUND, v4, false;
      }
      var row := store.rows[v3];
      if row.version != 3 {
        return NOT_V3, v4, false;
      }
      var keys := OpenWith(v3, session);
      if keys.None? {
        return WRONG_PASSPHRASE, v4, false;
      }
      v4 := V4Name(h, row.stream, row.signPub, row.encPub);
      if v4 in store.rows {
        var there := store.rows[v4];
        if there.signPub != row.signPub || there.encPub != row.encPub {
          return -1, v4, false;
        }
        FillTogether(old(View()), v4, there, row, f);
        if there.title == "" && row.title != "" {
          Try(SetTitle(v4, row.title), f.titled);
        }
        if row.chan && !there.chan {
          Try(SetChan(v4), f.flagged);
        }
      } else {
        var id := Identity(v4, row.title, 4, row.stream, keys.value, row.trials, row.extra, f.at);
        var made := MakeRow(row.algo, id, session, f);
        MakeTogether(old(View()), id, made, row, f);
        Exec(InsertRow(id, made));
        if row.chan {
          Try(SetChan(v4), f.flagged);
        }
        created := true;
      }
      rc := 0;
    }

    /** The new row, wrapped the way the old one is. */
    method MakeRow(algo: Algo, id: Identity, session: Session, f: Fresh) returns (made: Row)
      requires session.Agrees(store.vault) && (algo.VaultHkdf? ==> !session.state.Unknown?)
      ensures made == if algo.VaultHkdf? && MasterKek(store.vault, session.pass).Some? then
                        NewRow(id, VaultHkdf, f.salt, None,
                               Hkdf(MasterKek(store.vault, session.pass).value, f.salt, id.name))
                      else NewRow(id, PlainScrypt, f.salt, Some(SCRYPT_PARAMS),
                                  Scrypt(session.pass, f.salt, SCRYPT_PARAMS))
    {
      hide MasterKek, NewRow;
      if algo.VaultHkdf? && session.state.Ready? {
        made := NewRow(id, VaultHkdf, f.salt, None, Hkdf(session.state.master, f.salt, id.name));
      } else {
        made := NewRow(id, PlainScrypt, f.salt, Some(SCRYPT_PARAMS), Scrypt(session.pass, f.salt, SCRYPT_PARAMS));
      }
    }

    /** `convert_one_v3_to_v4` */
    method ConvertOne(h: Naming, v3: Name, session: Session, f: Fresh) returns (rc: int)
      requires session.Agrees(store.vault)
      modifies this, session`state
      ensures session.Agrees(store.vault)
      ensures var p := PlanFor(h, old(store), v3, session.pass, f);
              if p.Refused? then rc == p.rc && rc != 0 && View() == old(View())
              else rc == 0 && View() == Complete(h, old(View()), v3, session.pass, f)
    {
      hide PlanFor, ApplyAll, RenameTo, RenameFrom, Without, MasterKek;
      var v4, created;
      ghost var p := PlanFor(h, store, v3, session.pass, f);
      rc, v4, created := EnsureSibling(h, v3, session, f);
      if rc != 0 {
        return;
      }
      ApplyTail(old(View()), p.prepare, v3, v4);
      Exec(RenameInbox(v3, v4));
      Exec(RenameSent(v3, v4));
      Exec(DeleteRow(v3));
    }
  }

  lemma FillTogether(x: Db, v4: Name, there: Row, row: Row, f: Fresh)
    ensures var first, second := there.title == "" && row.title != "" && f.titled, row.chan && !there.chan && f.flagged;
            var titled := if first then Apply(x, SetTitle(v4, row.title)) else x;
            ApplyAll(x, Fill(v4, there, Offered(row, f))) == if second then Apply(titled, SetChan(v4)) else titled
  {
    var a, b := SetTitle(v4, row.title), SetChan(v4);
    ApplyNone(x);
    ApplyTwo(x, a, b);
    ApplyTwo(x, b, a);
    hide ApplyAll, Apply;
    var first, second := there.title == "" && row.title != "" && f.titled, row.chan && !there.chan && f.flagged;
    assert Fill(v4, there, Offered(row, f)) ==
           if first && second then [a, b] else if first then [a] else if second then [b] else [];
  }

  lemma MakeTogether(x: Db, id: Identity, made: Row, row: Row, f: Fresh)
    ensures var inserted := Apply(x, InsertRow(id, made));
            ApplyAll(x, Make(id, made, Offered(row, f))) ==
            if row.chan && f.flagged then Apply(inserted, SetChan(id.name)) else inserted
  {
    var a, b := InsertRow(id, made), SetChan(id.name);
    ApplyTwo(x, a, b);
    hide ApplyAll, Apply;
    var ws := Make(id, made, Offered(row, f));
    assert ws == [a] || ws == [a, b];
  }
}
