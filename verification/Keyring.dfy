/**
 The identity store and the vault of src/core/keyring.c. Key derivation and
 authenticated encryption are symbolic terms: a sealed box opens only with the
 key and the associated data it was sealed with.
 */
module Keyring {
  import opened Numerals
  import opened Varint
  import Address

  type Name = string
  type Passphrase = string
  type Salt = seq<byte>

  datatype Params = Params(n: nat, r: nat, p: nat)
  const SCRYPT_PARAMS := Params(32768, 8, 1)

  /** A key-encryption key: scrypt of a passphrase, or expanded from a master key for one address. */
  datatype Kek = Scrypt(pass: Passphrase, salt: Salt, params: Params) | Hkdf(master: Kek, salt: Salt, name: Name)
  datatype Box = Sealed(kek: Kek, aad: string, plain: seq<byte>)
  datatype Public = PublicOf(priv: seq<byte>)
  datatype Secrets = Secrets(signing: seq<byte>, encryption: seq<byte>)

  const CANARY_AAD := "bm-vault-canary-v1-ctx"
  const CANARY: seq<byte> := [98, 109, 45, 118, 97, 117, 108, 116, 45, 99, 97, 110, 97, 114, 121, 45,
                              118, 49, 45, 111, 107, 0, 0, 0, 0, 0, 0, 0, 0, 0, 0, 0]

  datatype Algo = PlainScrypt | VaultHkdf

  /** One row of the identities table. */
  datatype Row = Row(title: string, chan: bool, version: uint64, stream: uint64, signPub: Public, encPub: Public,
                     algo: Algo, salt: Salt, params: Option<Params>, signBox: Box, encBox: Box,
                     trials: nat, extra: nat)

  datatype Vault = Vault(salt: Salt, params: Option<Params>, canary: Box)

  /** The identity database; `order` is the listing order of its rows. */
  datatype Store = Store(rows: map<Name, Row>, order: seq<Name>, vault: Option<Vault>)

  /** What a new identity brings; `at` is its place in the listing order. */
  datatype Identity = Identity(name: Name, title: string, version: uint64, stream: uint64, secrets: Secrets,
                               trials: nat, extra: nat, at: nat)

  /** What a call draws: its salts, and whether its writes to the vault and to the row succeed. */
  datatype Draw = Draw(vaultSalt: Salt, salt: Salt, vaultOk: bool, rowOk: bool)

  // --------------------------------------------------------------- opening a row

  /** `bm_keyring_internal_unwrap` */
  function Unseal(kek: Kek, aad: string, box: Box): Option<seq<byte>> {
    if box.kek == kek && box.aad == aad then Some(box.plain) else None
  }

  /** `derive_master_kek` and `verify_vault_canary` */
  function MasterKek(vault: Option<Vault>, pass: Passphrase): Option<Kek> {
    if vault.None? || vault.value.params.None? then None
    else
      var k := Scrypt(pass, vault.value.salt, vault.value.params.value);
      if Unseal(k, CANARY_AAD, vault.value.canary) == Some(CANARY) then Some(k) else None
  }

  /** `bm_keyring_internal_resolve_kek` */
  function ResolveKek(vault: Option<Vault>, name: Name, row: Row, pass: Passphrase): Option<Kek> {
    if row.algo.VaultHkdf? then
      var master := MasterKek(vault, pass);
      if master.None? then None else Some(Hkdf(master.value, row.salt, name))
    else if row.params.None? then None
    else Some(Scrypt(pass, row.salt, row.params.value))
  }

  /** Both private keys of a row. */
  function OpenRow(name: Name, row: Row, kek: Kek): Option<Secrets> {
    var signing := Unseal(kek, name, row.signBox);
    var encryption := Unseal(kek, name, row.encBox);
    if signing.None? || encryption.None? then None else Some(Secrets(signing.value, encryption.value))
  }

  /** `bm_keyring_export` */
  function Export(s: Store, name: Name, pass: Passphrase): Option<Secrets> {
    if name !in s.rows then None
    else
      var kek := ResolveKek(s.vault, name, s.rows[name], pass);
      if kek.None? then None else OpenRow(name, s.rows[name], kek.value)
  }

  // --------------------------------------------------------------- storing a row

  function Wrapped(row: Row, name: Name, algo: Algo, salt: Salt, params: Option<Params>, kek: Kek,
                   secrets: Secrets): Row
  {
    row.(algo := algo, salt := salt, params := params, signBox := Sealed(kek, name, secrets.signing),
         encBox := Sealed(kek, name, secrets.encryption))
  }

  /** The stream column is an `int`; read back it is extended with its sign. */
  function Narrow(stream: uint64): uint64 {
    if CInt(stream) < 0 then TWO64 + CInt(stream) else CInt(stream)
  }

  lemma NarrowExact(stream: uint64)
    ensures Narrow(stream) == stream <==> stream < INT_LIMIT || stream >= TWO64 - INT_LIMIT
    ensures Narrow(Narrow(stream)) == Narrow(stream)
  {
    if stream >= TWO64 - INT_LIMIT {
      assert stream % TWO32 == stream - (TWO64 - TWO32);
    }
    var again := Narrow(stream);
    if CInt(stream) < 0 {
      assert again % TWO32 == again - (TWO64 - TWO32);
    }
  }

  function NewRow(id: Identity, algo: Algo, salt: Salt, params: Option<Params>, kek: Kek): Row {
    var blank := Sealed(kek, id.name, []);
    Wrapped(Row(id.title, false, id.version, Narrow(id.stream), PublicOf(id.secrets.signing),
                PublicOf(id.secrets.encryption), algo, salt, params, blank, blank, id.trials, id.extra),
            id.name, algo, salt, params, kek, id.secrets)
  }

  const ADDRESS_MAX := 63

  /** The address column keeps the first 63 characters of a text. */
  function Stored(name: Name): Name {
    if |name| <= ADDRESS_MAX then name else name[..ADDRESS_MAX]
  }

  function Place(order: seq<Name>, name: Name, at: nat): seq<Name> {
    if at <= |order| then order[..at] + [name] + order[at..] else order + [name]
  }

  /** `bm_identity_store_insert`: the address is the primary key; the keys were sealed for the whole text. */
  function Insert(s: Store, id: Identity, row: Row): (Store, bool) {
    var name := Stored(id.name);
    if name in s.rows then (s, false)
    else (s.(rows := s.rows[name := row], order := Place(s.order, name, id.at)), true)
  }

  /** `bm_keyring_create_identity` */
  function Create(s: Store, id: Identity, pass: Passphrase, d: Draw): (Store, bool) {
    if !d.rowOk then (s, false)
    else Insert(s, id, NewRow(id, PlainScrypt, d.salt, Some(SCRYPT_PARAMS), Scrypt(pass, d.salt, SCRYPT_PARAMS)))
  }

  function NewVault(pass: Passphrase, salt: Salt): Vault {
    Vault(salt, Some(SCRYPT_PARAMS), Sealed(Scrypt(pass, salt, SCRYPT_PARAMS), CANARY_AAD, CANARY))
  }

  /** `bm_keyring_resolve_or_create_vault_master_kek` */
  function ResolveOrCreate(s: Store, pass: Passphrase, d: Draw): (Store, Option<Kek>) {
    if s.vault.Some? then (s, MasterKek(s.vault, pass))
    else if !d.vaultOk then (s, None)
    else (s.(vault := Some(NewVault(pass, d.vaultSalt))), Some(Scrypt(pass, d.vaultSalt, SCRYPT_PARAMS)))
  }

  /** `bm_keyring_import_identity_with_master_kek` */
  function ImportWith(s: Store, id: Identity, master: Kek, salt: Salt): (Store, bool) {
    Insert(s, id, NewRow(id, VaultHkdf, salt, None, Hkdf(master, salt, id.name)))
  }

  /** `bm_keyring_import_identity`: the vault is made even when the row then cannot be stored. */
  function Import(s: Store, id: Identity, pass: Passphrase, d: Draw): (Store, bool) {
    var (s1, master) := ResolveOrCreate(s, pass, d);
    if master.None? || !d.rowOk then (s1, false) else ImportWith(s1, id, master.value, d.salt)
  }

  function Delete(s: Store, name: Name): Store {
    s.(rows := s.rows - {name}, order := Without(s.order, name))
  }

  function Without(order: seq<Name>, name: Name): seq<Name> {
    if |order| == 0 then []
    else if order[0] == name then Without(order[1..], name)
    else [order[0]] + Without(order[1..], name)
  }

  // ------------------------------------------------------------ unlocked identities

  datatype Entry = Entry(name: Name, secrets: Secrets, chan: bool)

  /** The store and the list of unlocked identities, newest first. */
  datatype Node = Node(store: Store, ring: seq<Entry>)

  /** `bm_keyring_find_by_address` */
  function Find(ring: seq<Entry>, name: Name): Option<Entry> {
    if |ring| == 0 then None else if ring[0].name == name then Some(ring[0]) else Find(ring[1..], name)
  }

  /** `bm_keyring_lock`: drops the first entry only. */
  function Lock(ring: seq<Entry>, name: Name): seq<Entry> {
    if |ring| == 0 then [] else if ring[0].name == name then ring[1..] else [ring[0]] + Lock(ring[1..], name)
  }

  /** `bm_keyring_unlock` */
  function Unlock(n: Node, name: Name, pass: Passphrase): (Node, bool) {
    var keys := Export(n.store, name, pass);
    if keys.None? then (n, false)
    else (n.(ring := [Entry(name, keys.value, n.store.rows[name].chan)] + n.ring), true)
  }

  /** `rewrap_to_vault` */
  function Rewrap(n: Node, name: Name, master: Kek, salt: Salt): Node {
    var e := Find(n.ring, name);
    if e.None? || name !in n.store.rows then n
    else
      var row := Wrapped(n.store.rows[name], name, VaultHkdf, salt, None, Hkdf(master, salt, name), e.value.secrets);
      n.(store := n.store.(rows := n.store.rows[name := row]))
  }

  /** `unlock_bulk_state` */
  datatype Bulk = Bulk(pass: Passphrase, vaultExists: bool, master: Option<Kek>)

  datatype Answer = Unlocked | NotUnlocked | NotFound

  function BulkBegin(s: Store, pass: Passphrase): Bulk {
    Bulk(pass, s.vault.Some?, MasterKek(s.vault, pass))
  }

  /** The vault made by a successful unlock, when there was none; if it cannot be stored the next one tries again. */
  function BulkVault(n: Node, st: Bulk, d: Draw): (Node, Bulk) {
    if st.master.Some? || st.vaultExists || n.store.vault.Some? || !d.vaultOk then (n, st)
    else (n.(store := n.store.(vault := Some(NewVault(st.pass, d.vaultSalt)))),
          st.(vaultExists := true, master := Some(Scrypt(st.pass, d.vaultSalt, SCRYPT_PARAMS))))
  }

  /** `unlock_bulk_one` */
  function BulkOne(n: Node, st: Bulk, name: Name, d: Draw): (Node, Bulk, Answer) {
    if Find(n.ring, name).Some? then (n, st, Unlocked)
    else if name !in n.store.rows then (n, st, NotFound)
    else
      var row := n.store.rows[name];
      if row.algo.VaultHkdf? then
        var keys := if st.master.None? then None else OpenRow(name, row, Hkdf(st.master.value, row.salt, name));
        if keys.None? then (n, st, NotUnlocked)
        else (n.(ring := [Entry(name, keys.value, row.chan)] + n.ring), st, Unlocked)
      else
        var (n1, ok) := Unlock(n, name, st.pass);
        if !ok then (n, st, NotUnlocked)
        else
          var (n2, st2) := BulkVault(n1, st, d);
          (if st2.master.Some? && d.rowOk then Rewrap(n2, name, st2.master.value, d.salt) else n2, st2, Unlocked)
  }

  /** `bm_keyring_unlock_addresses`, and `bm_keyring_unlock_all` with the whole listing; `draws` is the luck of each. */
  function BulkFrom(n: Node, st: Bulk, names: seq<Name>, draws: nat -> Draw, k: nat)
    : (r: (Node, Bulk, seq<Answer>))
    ensures |r.2| == |names|
    decreases |names|
  {
    if |names| == 0 then (n, st, [])
    else
      var (n1, st1, answer) := BulkOne(n, st, names[0], draws(k));
      var (n2, st2, more) := BulkFrom(n1, st1, names[1..], draws, k + 1);
      (n2, st2, [answer] + more)
  }

  /** The answer an address deserves: it is unlocked, or it is unknown, or the passphrase decides. */
  function Deserved(n: Node, name: Name, pass: Passphrase): Answer {
    if Find(n.ring, name).Some? then Unlocked
    else if name !in n.store.rows then NotFound
    else if Export(n.store, name, pass).Some? then Unlocked
    else NotUnlocked
  }

  // --------------------------------------------------------------------- invariant

  /** How the text of an address follows from version, stream and public keys. */
  datatype Naming = Naming(text: (uint64, uint64, Public, Public) -> Name)

  function NameOf(h: Naming, version: uint64, stream: uint64, sign: Public, enc: Public): Name {
    h.text(version, stream, sign, enc)
  }

  /** The name of a version 4 sibling, as the conversion's buffer holds it. */
  function V4Name(h: Naming, stream: uint64, sign: Public, enc: Public): Name {
    Stored(NameOf(h, 4, stream, sign, enc))
  }

  /** No text of a version 4 address is cut when it is stored. */
  ghost predicate Short(h: Naming) {
    forall stream: uint64, sign, enc :: |NameOf(h, 4, stream, sign, enc)| < ADDRESS_MAX
  }

  /** The text belongs to no version 4 address. */
  ghost predicate NotV4(h: Naming, name: Name) {
    forall stream: uint64, sign, enc :: name != V4Name(h, stream, sign, enc)
  }

  /** The naming of the program: `bm_address_encode` of the ripe of both keys. */
  function AddressNaming(sum: Address.Checksum, ripe: (Public, Public) -> seq<byte>): Naming {
    Naming((version: uint64, stream: uint64, sign: Public, enc: Public) =>
             Address.Text(sum, version, stream, ripe(sign, enc)))
  }

  lemma AddressesShort(sum: Address.Checksum, ripe: (Public, Public) -> seq<byte>)
    requires forall sign, enc :: |ripe(sign, enc)| == Address.RIPE_LEN
    ensures Short(AddressNaming(sum, ripe))
  {
    hide Address.Text;
    forall stream: uint64, sign, enc
      ensures |Address.Text(sum, 4, stream, ripe(sign, enc))| < ADDRESS_MAX
    {
      Address.TextShort(sum, stream, ripe(sign, enc));
    }
  }

  /**
   Whatever text of a version 3 address is stored, its own or another one that the decoder
   takes for it, and however much of it the column keeps: it is no version 4 name.
   */
  lemma AcceptedNotV4(sum: Address.Checksum, ripe: (Public, Public) -> seq<byte>, text: Name)
    requires forall sign, enc :: |ripe(sign, enc)| == Address.RIPE_LEN
    requires Address.DecodeText(sum, text).Some? && Address.DecodeText(sum, text).value.version == 3
    ensures NotV4(AddressNaming(sum, ripe), Stored(text))
  {
    hide Address.Text, Address.DecodeText;
    forall stream: uint64, sign, enc
      ensures Stored(text) != Stored(Address.Text(sum, 4, stream, ripe(sign, enc)))
    {
      Address.TextShort(sum, stream, ripe(sign, enc));
      Address.DecodeEncode(sum, 4, stream, ripe(sign, enc));
    }
  }

  /** The encoder gives no version 3 identity the name of any version 4 identity. */
  lemma AddressesSeparate(sum: Address.Checksum, ripe: (Public, Public) -> seq<byte>, stream: uint64, sign: Public,
                          enc: Public)
    requires forall sign, enc :: |ripe(sign, enc)| == Address.RIPE_LEN
    ensures NotV4(AddressNaming(sum, ripe), Stored(NameOf(AddressNaming(sum, ripe), 3, stream, sign, enc)))
  {
    hide Address.Text, Address.DecodeText, NotV4;
    Address.DecodeEncode(sum, 3, stream, ripe(sign, enc));
    AcceptedNotV4(sum, ripe, Address.Text(sum, 3, stream, ripe(sign, enc)));
  }

  ghost predicate VaultOk(vault: Option<Vault>) {
    vault.Some? ==>
      && vault.value.canary.kek.Scrypt? && vault.value.canary.kek.salt == vault.value.salt
      && vault.value.params == Some(vault.value.canary.kek.params)
      && vault.value.canary.aad == CANARY_AAD && vault.value.canary.plain == CANARY
  }

  /** The text a row was sealed for. */
  function TextOf(row: Row): Name {
    row.signBox.aad
  }

  /**
   Both keys of a row are sealed under one key, for the text it was stored under: a scrypt row
   under its own salt, a vault row under the master key that the stored canary verifies.
   */
  ghost predicate RowOk(vault: Option<Vault>, name: Name, row: Row) {
    var k := row.signBox.kek;
    && row.encBox.kek == k && row.encBox.aad == TextOf(row) && name == Stored(TextOf(row))
    && row.signPub == PublicOf(row.signBox.plain) && row.encPub == PublicOf(row.encBox.plain)
    && match row.algo
       case PlainScrypt => k.Scrypt? && k.salt == row.salt && row.params == Some(k.params)
       case VaultHkdf => vault.Some? && k == Hkdf(vault.value.canary.kek, row.salt, TextOf(row))
  }

  ghost predicate Sound(s: Store) {
    VaultOk(s.vault) && forall name :: name in s.rows ==> RowOk(s.vault, name, s.rows[name])
  }

  /** The passphrase that opens a row. */
  function PassOf(row: Row): Passphrase {
    if row.signBox.kek.Scrypt? then row.signBox.kek.pass
    else if row.signBox.kek.master.Scrypt? then row.signBox.kek.master.pass else ""
  }

  function SecretsOf(row: Row): Secrets {
    Secrets(row.signBox.plain, row.encBox.plain)
  }

  /** A stored row opens with exactly one passphrase if its text was stored whole, and otherwise with none. */
  lemma OpensExactly(s: Store, name: Name, pass: Passphrase)
    requires Sound(s) && name in s.rows
    ensures Export(s, name, pass) ==
            if TextOf(s.rows[name]) == name && pass == PassOf(s.rows[name]) then Some(SecretsOf(s.rows[name])) else None
    ensures |name| < ADDRESS_MAX ==> TextOf(s.rows[name]) == name
  {
    assert RowOk(s.vault, name, s.rows[name]);
  }

  lemma MasterVerified(vault: Option<Vault>, pass: Passphrase)
    requires VaultOk(vault)
    ensures MasterKek(vault, pass) ==
            if vault.Some? && pass == vault.value.canary.kek.pass then Some(vault.value.canary.kek) else None
  {
  }

  /** Nothing that was stored before is lost or sealed differently as far as its owner can tell. */
  ghost predicate Keeps(a: Store, b: Store) {
    && (a.vault.Some? ==> b.vault == a.vault)
    && forall name :: name in a.rows && name in b.rows ==>
         && TextOf(b.rows[name]) == TextOf(a.rows[name]) && PassOf(b.rows[name]) == PassOf(a.rows[name])
         && SecretsOf(b.rows[name]) == SecretsOf(a.rows[name])
  }

  /** What the owner of an address sees does not change. */
  lemma KeepsExport(a: Store, b: Store, name: Name, pass: Passphrase)
    requires Sound(a) && Sound(b) && Keeps(a, b) && name in a.rows && name in b.rows
    ensures Export(b, name, pass) == Export(a, name, pass)
  {
    OpensExactly(a, name, pass);
    OpensExactly(b, name, pass);
  }

  /** Every row is still there as it was. */
  ghost predicate Extends(a: Store, b: Store) {
    forall name :: name in a.rows ==> name in b.rows && b.rows[name] == a.rows[name]
  }

  lemma InsertSound(s: Store, id: Identity, row: Row)
    requires Sound(s) && RowOk(s.vault, Stored(id.name), row)
    ensures var (s1, ok) := Insert(s, id, row); Sound(s1) && Keeps(s, s1) && Extends(s, s1)
  {
  }

  /** The clear columns of a new row are those of the identity. */
  predicate Described(row: Row, id: Identity) {
    Plain(row) == (id.title, false, id.version, Narrow(id.stream), PublicOf(id.secrets.signing),
                   PublicOf(id.secrets.encryption), id.trials, id.extra)
  }

  lemma CreateSound(s: Store, id: Identity, pass: Passphrase, d: Draw)
    requires Sound(s)
    ensures var (s1, ok) := Create(s, id, pass, d);
            && Sound(s1) && Keeps(s, s1) && Extends(s, s1) && ok == (d.rowOk && Stored(id.name) !in s.rows)
            && (ok ==> OpensAs(s1, id, pass) && Described(s1.rows[Stored(id.name)], id)
                       && s1.rows[Stored(id.name)].algo.PlainScrypt?
                       && s1.rows.Keys == s.rows.Keys + {Stored(id.name)})
            && (!ok ==> s1 == s)
  {
    hide Stored, Narrow;
    InsertSound(s, id, NewRow(id, PlainScrypt, d.salt, Some(SCRYPT_PARAMS), Scrypt(pass, d.salt, SCRYPT_PARAMS)));
    if d.rowOk && Stored(id.name) !in s.rows {
      NewOpens(Create(s, id, pass, d).0, id, pass);
    }
  }

  /**
   A new identity opens with its passphrase and no other, under the text it was given, exactly
   when the column kept the whole of that text; otherwise nothing opens it any more.
   */
  ghost predicate OpensAs(s: Store, id: Identity, pass: Passphrase) {
    && Stored(id.name) in s.rows
    && (forall q :: Export(s, Stored(id.name), q) ==
                    if |id.name| <= ADDRESS_MAX && q == pass then Some(id.secrets) else None)
    && (|id.name| > ADDRESS_MAX ==> id.name !in s.rows)
  }

  lemma NewOpens(s: Store, id: Identity, pass: Passphrase)
    requires Sound(s) && Stored(id.name) in s.rows
    requires var row := s.rows[Stored(id.name)];
             TextOf(row) == id.name && PassOf(row) == pass && SecretsOf(row) == id.secrets
    ensures OpensAs(s, id, pass)
  {
    hide Export, PassOf, SecretsOf;
    forall q
      ensures Export(s, Stored(id.name), q) ==
              if |id.name| <= ADDRESS_MAX && q == pass then Some(id.secrets) else None
    {
      OpensExactly(s, Stored(id.name), q);
    }
    if id.name in s.rows {
      assert RowOk(s.vault, id.name, s.rows[id.name]);
    }
  }

  /** A vault is made once: later calls only check it. */
  lemma VaultSound(s: Store, pass: Passphrase, d: Draw)
    requires Sound(s)
    ensures var (s1, master) := ResolveOrCreate(s, pass, d);
            && Sound(s1) && Keeps(s, s1) && s1.rows == s.rows && (s1.vault.Some? <==> s.vault.Some? || d.vaultOk)
            && (master.Some? <==> if s.vault.Some? then pass == s.vault.value.canary.kek.pass else d.vaultOk)
            && (master.Some? ==> master.value == s1.vault.value.canary.kek && master.value.pass == pass)
  {
    MasterVerified(s.vault, pass);
    forall name | name in s.rows
      ensures RowOk(ResolveOrCreate(s, pass, d).0.vault, name, s.rows[name])
    {
      assert RowOk(s.vault, name, s.rows[name]);
    }
  }

  lemma ImportSound(s: Store, id: Identity, pass: Passphrase, d: Draw)
    requires Sound(s)
    ensures var (s1, ok) := Import(s, id, pass, d);
            && Sound(s1) && Keeps(s, s1) && Extends(s, s1)
            && (ok <==> && Stored(id.name) !in s.rows && d.rowOk
                        && if s.vault.Some? then pass == s.vault.value.canary.kek.pass else d.vaultOk)
            && (ok ==> OpensAs(s1, id, pass) && Described(s1.rows[Stored(id.name)], id)
                       && s1.rows[Stored(id.name)].algo.VaultHkdf?
                       && s1.rows.Keys == s.rows.Keys + {Stored(id.name)})
            && (!ok ==> s1.rows == s.rows && s1.order == s.order)
  {
    hide Stored, Narrow;
    VaultSound(s, pass, d);
    var (s1, master) := ResolveOrCreate(s, pass, d);
    if master.Some? && d.rowOk {
      InsertSound(s1, id, NewRow(id, VaultHkdf, d.salt, None, Hkdf(master.value, d.salt, id.name)));
      var (s2, ok) := ImportWith(s1, id, master.value, d.salt);
      if ok {
        NewOpens(s2, id, pass);
      }
    }
  }

  // ------------------------------------------------------------ the unlocked list, exactly

  /** The first entry of that name, if any. */
  lemma {:induction false} FindExact(ring: seq<Entry>, name: Name)
    ensures Find(ring, name).None? <==> forall i :: 0 <= i < |ring| ==> ring[i].name != name
    ensures Find(ring, name).Some? ==>
              exists i :: 0 <= i < |ring| && ring[i] == Find(ring, name).value && ring[i].name == name
                          && forall k :: 0 <= k < i ==> ring[k].name != name
  {
    if |ring| > 0 && ring[0].name != name {
      FindExact(ring[1..], name);
      if Find(ring, name).Some? {
        var i :| 0 <= i < |ring[1..]| && ring[1..][i] == Find(ring, name).value && ring[1..][i].name == name
                 && forall k :: 0 <= k < i ==> ring[1..][k].name != name;
        assert ring[i + 1] == ring[1..][i];
        assert forall k :: 0 < k < i + 1 ==> ring[k] == ring[1..][k - 1];
      } else {
        assert forall i :: 0 < i < |ring| ==> ring[i] == ring[1..][i - 1];
      }
    }
  }

  /** Entry `i` is the first of that name. */
  predicate FirstAt(ring: seq<Entry>, name: Name, i: nat) {
    i < |ring| && ring[i].name == name && forall k :: 0 <= k < i ==> ring[k].name != name
  }

  function Dropped(ring: seq<Entry>, i: nat): seq<Entry>
    requires i < |ring|
  {
    ring[..i] + ring[i + 1..]
  }

  lemma FirstBehind(x: Entry, rest: seq<Entry>, name: Name, i: nat)
    requires FirstAt(rest, name, i) && x.name != name
    ensures FirstAt([x] + rest, name, i + 1) && Dropped([x] + rest, i + 1) == [x] + Dropped(rest, i)
  {
    assert ([x] + rest)[..i + 1] == [x] + rest[..i];
    assert ([x] + rest)[i + 1 + 1..] == rest[i + 1..];
    assert forall k :: 0 < k < i + 1 ==> ([x] + rest)[k] == rest[k - 1];
  }

  /** Locking takes out the first entry of that name, and nothing else. */
  lemma {:induction false} LockExact(ring: seq<Entry>, name: Name)
    ensures Find(ring, name).None? ==> Lock(ring, name) == ring
    ensures Find(ring, name).Some? ==> exists i :: FirstAt(ring, name, i) && Lock(ring, name) == Dropped(ring, i)
  {
    if |ring| > 0 {
      var x, rest := ring[0], ring[1..];
      assert ring == [x] + rest;
      if x.name == name {
        assert FirstAt(ring, name, 0) && Dropped(ring, 0) == rest;
      } else {
        LockExact(rest, name);
        if Find(ring, name).Some? {
          var i :| FirstAt(rest, name, i) && Lock(rest, name) == Dropped(rest, i);
          hide Find, FirstAt, Dropped;
          FirstBehind(x, rest, name, i);
        }
      }
    }
  }

  /** An unlock works exactly with the passphrase of a row that opens, and puts its keys in front. */
  lemma UnlockSound(n: Node, name: Name, pass: Passphrase)
    requires Sound(n.store)
    ensures var (n1, ok) := Unlock(n, name, pass);
            && n1.store == n.store
            && (ok <==> name in n.store.rows && TextOf(n.store.rows[name]) == name
                        && PassOf(n.store.rows[name]) == pass)
            && (!ok ==> n1.ring == n.ring)
            && (ok ==> n1.ring == [Entry(name, SecretsOf(n.store.rows[name]), n.store.rows[name].chan)] + n.ring)
  {
    if name in n.store.rows {
      OpensExactly(n.store, name, pass);
    }
  }

  // ---------------------------------------------------------------- bulk unlocking

  /** What a bulk unlock remembers of the vault is what the store holds. */
  ghost predicate Agrees(st: Bulk, vault: Option<Vault>) {
    st.vaultExists == vault.Some? && st.master == MasterKek(vault, st.pass)
  }

  lemma NewVaultAgrees(n: Node, st: Bulk, d: Draw)
    requires Sound(n.store) && Agrees(st, n.store.vault)
    ensures var (n1, st1) := BulkVault(n, st, d);
            && Sound(n1.store) && Keeps(n.store, n1.store) && Agrees(st1, n1.store.vault)
            && n1.store.rows == n.store.rows && n1.store.order == n.store.order && n1.ring == n.ring
            && st1.pass == st.pass
            && (st1.master.Some? ==> n1.store.vault.Some? && st1.master.value == n1.store.vault.value.canary.kek)
  {
    MasterVerified(n.store.vault, st.pass);
    forall name | name in n.store.rows
      ensures RowOk(BulkVault(n, st, d).0.store.vault, name, n.store.rows[name])
    {
      assert RowOk(n.store.vault, name, n.store.rows[name]);
    }
  }

  /** Re-sealing a row under the verified master key changes neither its keys nor the passphrase that opens it. */
  lemma RewrapSound(n: Node, name: Name, master: Kek, salt: Salt)
    requires Sound(n.store) && n.store.vault.Some? && master == n.store.vault.value.canary.kek
    requires name in n.store.rows && PassOf(n.store.rows[name]) == master.pass && TextOf(n.store.rows[name]) == name
    requires Find(n.ring, name).Some? && Find(n.ring, name).value.secrets == SecretsOf(n.store.rows[name])
    ensures var n1 := Rewrap(n, name, master, salt);
            && Sound(n1.store) && Keeps(n.store, n1.store) && n1.store.rows.Keys == n.store.rows.Keys
            && n1.store.vault == n.store.vault && n1.store.order == n.store.order && n1.ring == n.ring
            && n1.store.rows[name].algo.VaultHkdf? && Plain(n1.store.rows[name]) == Plain(n.store.rows[name])
            && forall other :: other in n.store.rows && other != name ==> n1.store.rows[other] == n.store.rows[other]
  {
    hide Find;
    var was, keys := n.store.rows[name], SecretsOf(n.store.rows[name]);
    var row := Wrapped(was, name, VaultHkdf, salt, None, Hkdf(master, salt, name), keys);
    assert RowOk(n.store.vault, name, was);
    assert RowOk(n.store.vault, name, row) && PassOf(row) == PassOf(was);
    hide Sound, RowOk, PassOf;
    ReplaceRow(n.store, name, row);
  }

  /** Storing another well-sealed row with the same keys and passphrase under an address keeps everything. */
  lemma ReplaceRow(s: Store, name: Name, row: Row)
    requires Sound(s) && name in s.rows && RowOk(s.vault, name, row)
    requires TextOf(row) == TextOf(s.rows[name]) && PassOf(row) == PassOf(s.rows[name])
    requires SecretsOf(row) == SecretsOf(s.rows[name])
    ensures var s1 := s.(rows := s.rows[name := row]); Sound(s1) && Keeps(s, s1) && s1.rows.Keys == s.rows.Keys
  {
    hide RowOk, PassOf, SecretsOf;
  }

  /** The columns of a row that are stored in the clear. */
  function Plain(row: Row): (string, bool, uint64, uint64, Public, Public, nat, nat) {
    (row.title, row.chan, row.version, row.stream, row.signPub, row.encPub, row.trials, row.extra)
  }

  /** Every stored row is still there, and its clear columns are unchanged. */
  ghost predicate SameRows(a: Store, b: Store) {
    && b.rows.Keys == a.rows.Keys && b.order == a.order
    && forall name :: name in a.rows ==> Plain(b.rows[name]) == Plain(a.rows[name])
  }

  lemma BulkOneSound(n: Node, st: Bulk, name: Name, d: Draw)
    requires Sound(n.store) && Agrees(st, n.store.vault)
    ensures var (n1, st1, answer) := BulkOne(n, st, name, d);
            && Sound(n1.store) && Keeps(n.store, n1.store) && SameRows(n.store, n1.store)
            && Agrees(st1, n1.store.vault) && st1.pass == st.pass
            && answer == Deserved(n, name, st.pass)
            && (n1.ring == n.ring
                || (Export(n.store, name, st.pass).Some? && exists e :: n1.ring == [e] + n.ring && e.name == name))
            && (Find(n.ring, name).None? && answer.Unlocked? ==>
                  Find(n1.ring, name) == Some(Entry(name, Export(n.store, name, st.pass).value,
                                                    n.store.rows[name].chan)))
  {
    if Find(n.ring, name).None? && name in n.store.rows {
      OpensExactly(n.store, name, st.pass);
      assert RowOk(n.store.vault, name, n.store.rows[name]);
      MasterVerified(n.store.vault, st.pass);
      if n.store.rows[name].algo.PlainScrypt? && Export(n.store, name, st.pass).Some? {
        BulkRewraps(n, st, name, d);
      }
    }
  }

  lemma BulkRewraps(n: Node, st: Bulk, name: Name, d: Draw)
    requires Sound(n.store) && Agrees(st, n.store.vault) && Find(n.ring, name).None? && name in n.store.rows
    requires n.store.rows[name].algo.PlainScrypt? && Export(n.store, name, st.pass).Some?
    ensures var (n1, st1, answer) := BulkOne(n, st, name, d);
            && Sound(n1.store) && Keeps(n.store, n1.store) && SameRows(n.store, n1.store)
            && Agrees(st1, n1.store.vault) && st1.pass == st.pass && answer.Unlocked?
            && n1.ring == Unlock(n, name, st.pass).0.ring && Unlock(n, name, st.pass).1
            && Find(n1.ring, name) == Some(Entry(name, SecretsOf(n.store.rows[name]), n.store.rows[name].chan))
  {
    hide MasterKek, Export, BulkVault, RowOk, PassOf, SecretsOf, Plain;
    OpensExactly(n.store, name, st.pass);
    var n1 := Unlock(n, name, st.pass).0;
    NewVaultAgrees(n1, st, d);
    var (n2, st2) := BulkVault(n1, st, d);
    MasterVerified(n2.store.vault, st2.pass);
    if st2.master.Some? && d.rowOk {
      RewrapSound(n2, name, st2.master.value, d.salt);
      var n3 := Rewrap(n2, name, st2.master.value, d.salt);
      KeepsTwice(n.store, n2.store, n3.store);
    }
  }

  /**
   What the bulk unlock of a scrypt row that opens does to the store: a missing vault is made if it can
   be written, and the row is re-sealed under the vault exactly when the vault is this passphrase's
   and the row can be written.
   */
  lemma BulkMigrates(n: Node, st: Bulk, name: Name, d: Draw)
    requires Sound(n.store) && Agrees(st, n.store.vault) && Find(n.ring, name).None? && name in n.store.rows
    requires n.store.rows[name].algo.PlainScrypt? && Export(n.store, name, st.pass).Some?
    ensures var n1 := BulkOne(n, st, name, d).0;
            && (n1.store.vault.Some? <==> n.store.vault.Some? || d.vaultOk)
            && (n.store.vault.Some? ==> n1.store.vault == n.store.vault)
            && (n.store.vault.None? && d.vaultOk ==> MasterKek(n1.store.vault, st.pass).Some?)
            && name in n1.store.rows
            && (n1.store.rows[name].algo.VaultHkdf? <==> d.rowOk && MasterKek(n1.store.vault, st.pass).Some?)
            && forall other :: other in n.store.rows && other != name ==>
                 other in n1.store.rows && n1.store.rows[other] == n.store.rows[other]
  {
    hide Export, RowOk, PassOf, SecretsOf, Plain;
    OpensExactly(n.store, name, st.pass);
    var n1 := Unlock(n, name, st.pass).0;
    NewVaultAgrees(n1, st, d);
    var (n2, st2) := BulkVault(n1, st, d);
    MasterVerified(n2.store.vault, st2.pass);
    if st2.master.Some? && d.rowOk {
      RewrapSound(n2, name, st2.master.value, d.salt);
    }
  }

  lemma KeepsTwice(a: Store, b: Store, c: Store)
    requires Keeps(a, b) && Keeps(b, c) && a.rows.Keys <= b.rows.Keys
    ensures Keeps(a, c)
  {
  }

  /** A step of a bulk unlock changes what no address deserves. */
  lemma DeservedKept(n: Node, n1: Node, pass: Passphrase, name: Name, m: Name)
    requires Sound(n.store) && Sound(n1.store) && Keeps(n.store, n1.store) && SameRows(n.store, n1.store)
    requires n1.ring == n.ring
             || (Export(n.store, name, pass).Some? && exists e :: n1.ring == [e] + n.ring && e.name == name)
    ensures Deserved(n1, m, pass) == Deserved(n, m, pass)
  {
    hide Sound, Keeps, Export;
    if m in n.store.rows {
      KeepsExport(n.store, n1.store, m, pass);
    }
    if n1.ring != n.ring {
      var e :| n1.ring == [e] + n.ring && e.name == name;
      assert n1.ring[1..] == n.ring;
      ExportKnown(n.store, name, pass);
    }
  }

  lemma ExportKnown(s: Store, name: Name, pass: Passphrase)
    requires Export(s, name, pass).Some?
    ensures name in s.rows
  {
  }

  /**
   A whole bulk unlock: every address gets the answer it deserves at the start, unlocked exactly
   when it was unlocked already or its row opens with the passphrase; every row keeps its
   passphrase and its keys.
   */
  lemma {:induction false} BulkSound(n: Node, st: Bulk, names: seq<Name>, draws: nat -> Draw, k: nat)
    requires Sound(n.store) && Agrees(st, n.store.vault)
    ensures var (n1, st1, answers) := BulkFrom(n, st, names, draws, k);
            && Sound(n1.store) && Keeps(n.store, n1.store) && SameRows(n.store, n1.store)
            && forall i :: 0 <= i < |names| ==> answers[i] == Deserved(n, names[i], st.pass)
    decreases |names|
  {
    hide Sound, BulkOne, Agrees, PassOf, SecretsOf, Plain, Deserved, Export;
    if |names| > 0 {
      BulkOneSound(n, st, names[0], draws(k));
      var (n1, st1, answer) := BulkOne(n, st, names[0], draws(k));
      BulkSound(n1, st1, names[1..], draws, k + 1);
      var (n2, st2, more) := BulkFrom(n1, st1, names[1..], draws, k + 1);
      KeepsTwice(n.store, n1.store, n2.store);
      forall i | 0 < i < |names|
        ensures ([answer] + more)[i] == Deserved(n, names[i], st.pass)
      {
        assert names[i] == names[1..][i - 1] && more[i - 1] == Deserved(n1, names[1..][i - 1], st.pass);
        DeservedKept(n, n1, st.pass, names[0], names[i]);
      }
    }
  }
}
