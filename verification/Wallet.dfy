/**
 The keyring as src/core/keyring.c runs it: a database of rows, the single vault
 row and the list of unlocked identities, changed in place. Every method is proved
 against the value-level call of `Keyring`.
 */
module Wallet {
  import opened Numerals
  import opened Keyring

  lemma ScanStep(ring: seq<Entry>, name: Name, i: nat)
    requires i < |ring|
    ensures Find(ring[i..], name) == if ring[i].name == name then Some(ring[i]) else Find(ring[i + 1..], name)
    ensures Lock(ring[i..], name) ==
            if ring[i].name == name then ring[i + 1..] else [ring[i]] + Lock(ring[i + 1..], name)
  {
    assert ring[i..][1..] == ring[i + 1..];
  }

  lemma ScanEnd(ring: seq<Entry>, name: Name)
    ensures Find(ring[|ring|..], name) == None
    ensures ring[..|ring|] + Lock(ring[|ring|..], name) == ring
  {
  }

  class Wallet {
    var rows: map<Name, Row>
    var order: seq<Name>
    var vault: Option<Vault>
    var ring: seq<Entry>

    ghost function View(): Node
      reads this
    {
      Node(Store(rows, order, vault), ring)
    }

    constructor ()
      ensures View() == Node(Store(map[], [], None), [])
    {
      rows, order, vault, ring := map[], [], None, [];
    }

    /** `bm_identity_store_insert` */
    method InsertRow(id: Identity, row: Row) returns (ok: bool)
      modifies this`rows, this`order
      ensures (View().store, ok) == Insert(old(View().store), id, row) && ring == old(ring) && vault == old(vault)
    {
      var name := if |id.name| <= ADDRESS_MAX then id.name else id.name[..ADDRESS_MAX];
      if name in rows {
        return false;
      }
      rows := rows[name := row];
      order := if id.at <= |order| then order[..id.at] + [name] + order[id.at..] else order + [name];
      return true;
    }

    /** `bm_keyring_create_identity` */
    method CreateIdentity(id: Identity, pass: Passphrase, d: Draw) returns (ok: bool)
      modifies this`rows, this`order
      ensures (View().store, ok) == Create(old(View().store), id, pass, d) && ring == old(ring)
    {
      if !d.rowOk {
        return false;
      }
      var kek := Scrypt(pass, d.salt, SCRYPT_PARAMS);
      ok := InsertRow(id, NewRow(id, PlainScrypt, d.salt, Some(SCRYPT_PARAMS), kek));
    }

    /** `derive_master_kek` followed by `verify_vault_canary` */
    method CheckedMaster(pass: Passphrase) returns (master: Option<Kek>)
      ensures master == MasterKek(vault, pass)
    {
      if vault.None? || vault.value.params.None? {
        return None;
      }
      var k := Scrypt(pass, vault.value.salt, vault.value.params.value);
      var check := Unseal(k, CANARY_AAD, vault.value.canary);
      if check.None? || check.value != CANARY {
        return None;
      }
      return Some(k);
    }

    /** `bm_keyring_resolve_or_create_vault_master_kek` */
    method ResolveOrCreateVault(pass: Passphrase, d: Draw) returns (master: Option<Kek>)
      modifies this`vault
      ensures (View().store, master) == ResolveOrCreate(old(View().store), pass, d) && ring == old(ring)
    {
      if vault.Some? {
        master := CheckedMaster(pass);
        return;
      }
      if !d.vaultOk {
        return None;
      }
      var k := Scrypt(pass, d.vaultSalt, SCRYPT_PARAMS);
      vault := Some(Vault(d.vaultSalt, Some(SCRYPT_PARAMS), Sealed(k, CANARY_AAD, CANARY)));
      return Some(k);
    }

    /** `bm_keyring_import_identity` */
    method ImportIdentity(id: Identity, pass: Passphrase, d: Draw) returns (ok: bool)
      modifies this`rows, this`order, this`vault
      ensures (View().store, ok) == Import(old(View().store), id, pass, d) && ring == old(ring)
    {
      var master := ResolveOrCreateVault(pass, d);
      if master.None? || !d.rowOk {
        return false;
      }
      ok := InsertRow(id, NewRow(id, VaultHkdf, d.salt, None, Hkdf(master.value, d.salt, id.name)));
    }

    /** `bm_keyring_export` */
    method ExportKeys(name: Name, pass: Passphrase) returns (keys: Option<Secrets>)
      ensures keys == Export(View().store, name, pass)
    {
      if name !in rows {
        return None;
      }
      var row := rows[name];
      var kek: Kek;
      if row.algo.VaultHkdf? {
        var master := CheckedMaster(pass);
        if master.None? {
          return None;
        }
        kek := Hkdf(master.value, row.salt, name);
      } else {
        if row.params.None? {
          return None;
        }
        kek := Scrypt(pass, row.salt, row.params.value);
      }
      var signing, encryption := Unseal(kek, name, row.signBox), Unseal(kek, name, row.encBox);
      if signing.None? || encryption.None? {
        return None;
      }
      return Some(Secrets(signing.value, encryption.value));
    }

    /** `bm_keyring_find_by_address` */
    method FindEntry(name: Name) returns (e: Option<Entry>)
      ensures e == Find(ring, name)
    {
      var i := 0;
      assert ring[0..] == ring;
      while i < |ring|
        invariant 0 <= i <= |ring| && Find(ring, name) == Find(ring[i..], name)
      {
        if ring[i].name == name {
          return Some(ring[i]);
        }
        assert ring[i..][1..] == ring[i + 1..];
        i := i + 1;
      }
      return None;
    }

    /** `bm_keyring_lock` */
    method LockEntry(name: Name) returns (found: bool)
      modifies this`ring
      ensures ring == Lock(old(ring), name) && found == Find(old(ring), name).Some?
    {
      hide Lock, Find;
      var i := 0;
      assert ring[0..] == ring && ring[..0] == [];
      while i < |ring|
        invariant 0 <= i <= |ring| && ring == old(ring)
        invariant Lock(ring, name) == ring[..i] + Lock(ring[i..], name)
        invariant Find(ring, name) == Find(ring[i..], name)
      {
        ScanStep(ring, name, i);
        if ring[i].name == name {
          ring := ring[..i] + ring[i + 1..];
          return true;
        }
        assert ring[..i + 1] == ring[..i] + [ring[i]];
        Assoc(ring[..i], [ring[i]], Lock(ring[i + 1..], name));
        i := i + 1;
      }
      ScanEnd(ring, name);
      return false;
    }

    /** `bm_keyring_unlock` */
    method UnlockOne(name: Name, pass: Passphrase) returns (ok: bool)
      modifies this`ring
      ensures (View(), ok) == Unlock(old(View()), name, pass)
    {
      var keys := ExportKeys(name, pass);
      if keys.None? {
        return false;
      }
      ring := [Entry(name, keys.value, rows[name].chan)] + ring;
      return true;
    }

    /** `rewrap_to_vault` */
    method RewrapToVault(name: Name, master: Kek, salt: Salt)
      modifies this`rows
      ensures View() == Rewrap(old(View()), name, master, salt)
    {
      var e := FindEntry(name);
      if e.None? || name !in rows {
        return;
      }
      var kek := Hkdf(master, salt, name);
      rows := rows[name := rows[name].(algo := VaultHkdf, salt := salt, params := None,
                                       signBox := Sealed(kek, name, e.value.secrets.signing),
                                       encBox := Sealed(kek, name, e.value.secrets.encryption))];
    }

    /** `unlock_bulk_one` */
    method UnlockBulkOne(st: Bulk, name: Name, d: Draw) returns (st': Bulk, answer: Answer)
      modifies this
      ensures (View(), st', answer) == BulkOne(old(View()), st, name, d)
    {
      hide Find, Export;
      st' := st;
      var known := FindEntry(name);
      if known.Some? {
        answer := Unlocked;
        return;
      }
      if name !in rows {
        answer := NotFound;
        return;
      }
      if rows[name].algo.VaultHkdf? {
        answer := NotUnlocked;
        if st.master.Some? {
          var keys := OpenRow(name, rows[name], Hkdf(st.master.value, rows[name].salt, name));
          if keys.Some? {
            ring := [Entry(name, keys.value, rows[name].chan)] + ring;
            answer := Unlocked;
          }
        }
        return;
      }
      var ok := UnlockOne(name, st.pass);
      if !ok {
        answer := NotUnlocked;
        return;
      }
      answer := Unlocked;
      if st.master.None? && !st.vaultExists && vault.None? && d.vaultOk {
        var k := Scrypt(st.pass, d.vaultSalt, SCRYPT_PARAMS);
        vault := Some(Vault(d.vaultSalt, Some(SCRYPT_PARAMS), Sealed(k, CANARY_AAD, CANARY)));
        st' := st.(vaultExists := true, master := Some(k));
      }
      if st'.master.Some? && d.rowOk {
        RewrapToVault(name, st'.master.value, d.salt);
      }
    }

    /** `bm_keyring_unlock_addresses` */
    method UnlockAddresses(names: seq<Name>, pass: Passphrase, draws: nat -> Draw) returns (answers: seq<Answer>)
      modifies this
      ensures var (n, _, said) := BulkFrom(old(View()), BulkBegin(old(View().store), pass), names, draws, 0);
              View() == n && answers == said
    {
      hide BulkOne, MasterKek;
      var master := CheckedMaster(pass);
      var st := Bulk(pass, vault.Some?, master);
      ghost var st0 := st;
      answers := [];
      assert names[0..] == names;
      for i := 0 to |names|
        invariant var (n, _, said) := BulkFrom(old(View()), st0, names, draws, 0);
                  var (n', _, more) := BulkFrom(View(), st, names[i..], draws, i);
                  n == n' && said == answers + more
      {
        assert names[i..][1..] == names[i + 1..] && names[i..][0] == names[i];
        ghost var next := BulkOne(View(), st, names[i], draws(i));
        Assoc(answers, [next.2], BulkFrom(next.0, next.1, names[i + 1..], draws, i + 1).2);
        var answer;
        st, answer := UnlockBulkOne(st, names[i], draws(i));
        answers := answers + [answer];
      }
    }
  }
}
