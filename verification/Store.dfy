/** The secrets and keys tables with their full-text indexes
    (internal/store/secrets.go, internal/store/keys.go, migrateFTS5 in internal/store/store.go). */
module Store {
  import opened Basics
  import opened FtsIndex
  import FtsText
  import Like
  import Pool
  import Sorting

  datatype SecretRow = SecretRow(
    id: int, path: Str, labelText: Option<Str>, ciphertext: Str, nonce: Str, aad: Str, tags: Str, description: Str,
    metadata: Str, createdAt: int, updatedAt: int, descUpdatedAt: Option<int>, metaUpdatedAt: Option<int>, version: int)

  datatype Key = Key(
    id: int, name: Str, hash: Str, prefix: Str, scope: Str, permissions: Str, tags: Str, description: Str,
    metadata: Str, createdAt: int, expiresAt: Option<int>, revokedAt: Option<int>, lastUsedAt: Option<int>,
    descUpdatedAt: Option<int>, metaUpdatedAt: Option<int>)

  /** The tables under their UNIQUE columns: secrets by path, keys by name. */
  type Secrets = map<Str, SecretRow>
  type Keys = map<Str, Key>

  datatype Db = Db(secrets: Secrets, secretsFts: FtsTable, keys: Keys, keysFts: FtsTable)

  datatype StoreError = NotFound | AlreadyExists | Database

  /** Where a call of several statements fails: at the write itself, or at a statement behind it. */
  datatype Fault = NoFault | WriteFails | LaterFails

  function SecretDoc(r: SecretRow): Doc
  {
    Doc(r.id, FtsRow(r.path, r.description, FtsText.Flattened(r.metadata)))
  }

  function KeyDoc(k: Key): Doc { Doc(k.id, FtsRow(k.name, k.description, FtsText.Flattened(k.metadata))) }

  function SecretDocs(t: Secrets): map<Str, Doc> { map p | p in t :: SecretDoc(t[p]) }

  function KeyDocs(t: Keys): map<Str, Doc> { map n | n in t :: KeyDoc(t[n]) }

  function SecretIds(t: Secrets): set<int> { set p | p in t :: t[p].id }

  function KeyIds(t: Keys): set<int> { set n | n in t :: t[n].id }

  /** The tables' own constraints. */
  predicate TablesOk(db: Db)
  {
    (forall p :: p in db.secrets ==> db.secrets[p].path == p) &&
    (forall n :: n in db.keys ==> db.keys[n].name == n) &&
    IdsDistinct(SecretDocs(db.secrets)) && IdsPositive(SecretDocs(db.secrets)) &&
    IdsDistinct(KeyDocs(db.keys)) && IdsPositive(KeyDocs(db.keys))
  }

  /** Both indexes hold exactly the current text of their tables. */
  predicate Mirrored(db: Db)
  {
    Mirrors(SecretDocs(db.secrets), db.secretsFts) && Mirrors(KeyDocs(db.keys), db.keysFts)
  }

  predicate Consistent(db: Db) { TablesOk(db) && Mirrored(db) }

  /** INSERT ... ON CONFLICT(path) DO UPDATE: the update arm keeps the id and created_at of the row. */
  function Upserted(t: Secrets, sec: SecretRow, now: int): Secrets
  {
    if sec.path in t then
      t[sec.path := sec.(id := t[sec.path].id, createdAt := t[sec.path].createdAt, updatedAt := now)]
    else
      t[sec.path := sec.(id := NextId(SecretIds(t)), createdAt := if sec.createdAt == 0 then now else sec.createdAt,
                         updatedAt := now)]
  }

  function AfterPut(db: Db, sec: SecretRow, now: int, fault: Fault): Db
  {
    if fault.WriteFails? then db else
    var t := Upserted(db.secrets, sec, now);
    db.(secrets := t,
        secretsFts := if fault.LaterFails? then db.secretsFts else Synced(db.secretsFts, SecretDoc(t[sec.path])))
  }

  /** DELETE FROM secrets WHERE id = ?. */
  function WithoutId(t: Secrets, id: int): Secrets { map p | p in t && t[p].id != id :: t[p] }

  function AfterDelete(db: Db, path: Str, fault: Fault): Db
  {
    if path !in db.secrets || fault.WriteFails? then db else
    var id := db.secrets[path].id;
    db.(secrets := WithoutId(db.secrets, id),
        secretsFts := if fault.LaterFails? then db.secretsFts else Dropped(db.secretsFts, id))
  }

  /** The inserted row: SQLite's next id, and the store's clock. */
  function NewKey(t: Keys, k: Key, now: int): Key { k.(id := NextId(KeyIds(t)), createdAt := now) }

  function AfterCreateKey(db: Db, k: Key, now: int, fault: Fault): Db
  {
    if fault.WriteFails? || k.name in db.keys then db else
    var row := NewKey(db.keys, k, now);
    db.(keys := db.keys[k.name := row],
        keysFts := if fault.LaterFails? then db.keysFts else Synced(db.keysFts, KeyDoc(row)))
  }

  /** The columns that UPDATE keys sets; the name is not among them. */
  function Edited(row: Key, k: Key): Key
  {
    row.(scope := k.scope, permissions := k.permissions, expiresAt := k.expiresAt, tags := k.tags,
         description := k.description, metadata := k.metadata, descUpdatedAt := k.descUpdatedAt,
         metaUpdatedAt := k.metaUpdatedAt)
  }

  function EditedKeys(t: Keys, k: Key): Keys
  {
    map n | n in t :: if t[n].id == k.id then Edited(t[n], k) else t[n]
  }

  /** UPDATE by id, then an index row under that id with the name of the argument. */
  function AfterUpdateKey(db: Db, k: Key, fault: Fault): Db
  {
    if fault.WriteFails? then db else
    db.(keys := EditedKeys(db.keys, k),
        keysFts := if fault.LaterFails? then db.keysFts else Synced(db.keysFts, KeyDoc(k)))
  }

  function StampedKeys(t: Keys, id: int, stamp: Key -> Key): Keys
  {
    map n | n in t :: if t[n].id == id then stamp(t[n]) else t[n]
  }

  function AfterRevoke(db: Db, id: int, now: int): Db
  {
    db.(keys := StampedKeys(db.keys, id, (k: Key) => k.(revokedAt := Some(now))))
  }

  function AfterTouch(db: Db, id: int, now: int): Db
  {
    db.(keys := StampedKeys(db.keys, id, (k: Key) => k.(lastUsedAt := Some(now))))
  }

  /** ListSecretPaths: the prefix goes into the LIKE pattern as it is. */
  function ListedPaths(t: Secrets, prefix: Str): seq<Str>
  {
    Sorting.Sorted(set p | p in t && (prefix == [] || Like.Matches(prefix + [PERCENT], p, None)))
  }

  class Store {
    var secrets: Secrets
    var secretsFts: FtsTable
    var keys: Keys
    var keysFts: FtsTable

    function Contents(): Db
      reads this
    {
      Db(secrets, secretsFts, keys, keysFts)
    }

    /** A fresh database. */
    constructor ()
      ensures Consistent(Contents()) && secrets == map[] && keys == map[]
    {
      secrets, secretsFts, keys, keysFts := map[], Working(map[]), map[], Working(map[]);
    }

    /** What an existing file holds, before Open migrates it. */
    constructor FromFile(db: Db)
      ensures Contents() == db
    {
      secrets, secretsFts, keys, keysFts := db.secrets, db.secretsFts, db.keys, db.keysFts;
    }

    function GetSecret(path: Str): Result<SecretRow, StoreError>
      reads this
    {
      if path in secrets then Ok(secrets[path]) else Err(NotFound)
    }

    /** GetSecret where the caller treats every error as "no row". */
    function Find(path: Str): Option<SecretRow>
      reads this
    {
      if path in secrets then Some(secrets[path]) else None
    }

    function ListSecretPaths(prefix: Str): seq<Str>
      reads this
    {
      ListedPaths(secrets, prefix)
    }

    /** `acts` is what a call does to the connection pool, up to its return. */
    method PutSecret(s: SecretRow, now: int, fault: Fault)
      returns (r: Result<SecretRow, StoreError>, ghost acts: Pool.Program)
      modifies this`secrets, this`secretsFts
      ensures Pool.InPart(Pool.PutSecretProgram(), acts) && (r.Ok? ==> acts == Pool.PutSecretProgram())
      ensures Contents() == AfterPut(old(Contents()), s, now, fault)
      ensures r.Ok? <==> fault.NoFault? && old(secretsFts).Working?
      ensures r.Ok? ==> secrets[s.path] == r.value.(createdAt := secrets[s.path].createdAt)
      ensures old(Consistent(Contents())) && fault.NoFault? ==> r.Ok? && Consistent(Contents())
    {
      if Consistent(Contents()) && fault.NoFault? { PutKeepsConsistent(Contents(), s, now); }
      var sec := s.(updatedAt := now);
      if sec.createdAt == 0 { sec := sec.(createdAt := now); }
      Pool.PutSecretParts();
      acts := Pool.ONE_CALL;
      if fault.WriteFails? { return Err(Database), acts; }
      if sec.path in secrets {
        var row := secrets[sec.path];
        secrets := secrets[sec.path := sec.(id := row.id, createdAt := row.createdAt)];
      } else {
        secrets := secrets[sec.path := sec.(id := NextId(SecretIds(secrets)))];
      }
      acts := Pool.ONE_CALL + Pool.ONE_CALL;
      if fault.LaterFails? { return Err(Database), acts; }
      sec := sec.(id := secrets[sec.path].id);
      acts := Pool.ONE_CALL + (Pool.ONE_CALL + Pool.ONE_CALL);
      if secretsFts.Legacy? { return Err(Database), acts; }
      secretsFts := Working(secretsFts.rows - {sec.id});
      secretsFts := Working(secretsFts.rows[sec.id := FtsRow(sec.path, sec.description, FtsText.Flattened(sec.metadata))]);
      DeleteThenInsert(old(secretsFts).rows, sec.id, secretsFts.rows[sec.id]);
      return Ok(sec), Pool.PutSecretProgram();
    }

    method DeleteSecret(path: Str, fault: Fault) returns (r: Result<(), StoreError>, ghost acts: Pool.Program)
      modifies this`secrets, this`secretsFts
      ensures Pool.InPart(Pool.DeleteSecretProgram(), acts) && (r.Ok? ==> acts == Pool.DeleteSecretProgram())
      ensures Contents() == AfterDelete(old(Contents()), path, fault)
      ensures path !in old(secrets) <==> r == Err(NotFound)
      ensures path in old(secrets) ==> (r.Ok? <==> fault.NoFault? && old(secretsFts).Working?)
      ensures old(Consistent(Contents())) ==>
        (Consistent(Contents()) <==> path !in old(secrets) || !fault.LaterFails?)
    {
      if Consistent(Contents()) { FaultyDeleteConsistentIff(Contents(), path, fault); }
      Pool.DeleteSecretParts();
      var found := GetSecret(path);
      acts := Pool.ONE_CALL;
      if found.Err? { return Err(NotFound), acts; }
      acts := Pool.ONE_CALL + Pool.ONE_CALL;
      if fault.WriteFails? { return Err(Database), acts; }
      secrets := WithoutId(secrets, found.value.id);
      acts := Pool.DeleteSecretProgram();
      if fault.LaterFails? { return Err(Database), acts; }
      if secretsFts.Legacy? { return Err(Database), acts; }
      secretsFts := Working(secretsFts.rows - {found.value.id});
      return Ok(()), acts;
    }

    method CreateKey(k: Key, now: int, fault: Fault) returns (r: Result<Key, StoreError>, ghost acts: Pool.Program)
      modifies this`keys, this`keysFts
      ensures Pool.InPart(Pool.WriteKeyProgram(), acts) && (r.Ok? ==> acts == Pool.WriteKeyProgram())
      ensures Contents() == AfterCreateKey(old(Contents()), k, now, fault)
      ensures r == Err(AlreadyExists) <==> !fault.WriteFails? && k.name in old(keys)
      ensures r.Ok? <==> fault.NoFault? && k.name !in old(keys) && old(keysFts).Working?
      ensures r.Ok? ==> keys[k.name] == r.value
      ensures old(Consistent(Contents())) ==>
        (Consistent(Contents()) <==> !fault.LaterFails? || k.name in old(keys))
    {
      if Consistent(Contents()) { FaultyCreateConsistentIff(Contents(), k, now, fault); }
      Pool.WriteKeyParts();
      acts := Pool.ONE_CALL;
      if fault.WriteFails? { return Err(Database), acts; }
      if k.name in keys { return Err(AlreadyExists), acts; }
      var row := k.(id := NextId(KeyIds(keys)), createdAt := now);
      keys := keys[row.name := row];
      acts := Pool.ONE_CALL + Pool.ONE_CALL;
      if fault.LaterFails? || keysFts.Legacy? { return Err(Database), acts; }
      keysFts := Working(keysFts.rows - {row.id});
      keysFts := Working(keysFts.rows[row.id := FtsRow(row.name, row.description, FtsText.Flattened(row.metadata))]);
      DeleteThenInsert(old(keysFts).rows, row.id, keysFts.rows[row.id]);
      return Ok(row), Pool.WriteKeyProgram();
    }

    method UpdateKey(k: Key, fault: Fault) returns (r: Result<(), StoreError>, ghost acts: Pool.Program)
      modifies this`keys, this`keysFts
      ensures Pool.InPart(Pool.WriteKeyProgram(), acts) && (r.Ok? ==> acts == Pool.WriteKeyProgram())
      ensures Contents() == AfterUpdateKey(old(Contents()), k, fault)
      ensures r.Ok? <==> fault.NoFault? && old(keysFts).Working?
      ensures old(Consistent(Contents())) ==> (Consistent(Contents()) <==> UpdateConsistent(old(keys), k, fault))
    {
      if Consistent(Contents()) { FaultyUpdateConsistentIff(Contents(), k, fault); }
      Pool.WriteKeyParts();
      acts := Pool.ONE_CALL;
      if fault.WriteFails? { return Err(Database), acts; }
      keys := EditedKeys(keys, k);
      acts := Pool.ONE_CALL + Pool.ONE_CALL;
      if fault.LaterFails? || keysFts.Legacy? { return Err(Database), acts; }
      keysFts := Working(keysFts.rows - {k.id});
      keysFts := Working(keysFts.rows[k.id := FtsRow(k.name, k.description, FtsText.Flattened(k.metadata))]);
      DeleteThenInsert(old(keysFts).rows, k.id, keysFts.rows[k.id]);
      return Ok(()), Pool.WriteKeyProgram();
    }

    method RevokeKey(id: int, now: int)
      modifies this`keys
      ensures Contents() == AfterRevoke(old(Contents()), id, now)
      ensures old(Consistent(Contents())) ==> Consistent(Contents())
    {
      StampsKeepConsistent(Contents(), id, now);
      keys := map n | n in keys :: if keys[n].id == id then keys[n].(revokedAt := Some(now)) else keys[n];
    }

    method TouchKeyLastUsed(id: int, now: int)
      modifies this`keys
      ensures Contents() == AfterTouch(old(Contents()), id, now)
      ensures old(Consistent(Contents())) ==> Consistent(Contents())
    {
      StampsKeepConsistent(Contents(), id, now);
      keys := map n | n in keys :: if keys[n].id == id then keys[n].(lastUsedAt := Some(now)) else keys[n];
    }

    /** Open's migration, of the secrets' index and then of the keys'; one that ends early leaves the other as it is, and
        a consistent database is left as it is wherever the migration ends. */
    method MigrateFts5(stopSecrets: Stop, stopKeys: Stop) returns (ok: bool, ghost acts: Pool.Program)
      requires TablesOk(Contents())
      modifies this`secretsFts, this`keysFts
      ensures Pool.InPart(Pool.MigrateProgram(ProbeSaysBroken(old(secretsFts)), |secrets|,
                                              ProbeSaysBroken(old(keysFts)), |keys|), acts)
      ensures ok <==> Finishes(SecretDocs(secrets), old(secretsFts), stopSecrets) &&
                      Finishes(KeyDocs(keys), old(keysFts), stopKeys)
      ensures Migrated(SecretDocs(secrets), old(secretsFts), stopSecrets, secretsFts)
      ensures if Finishes(SecretDocs(secrets), old(secretsFts), stopSecrets)
        then Migrated(KeyDocs(keys), old(keysFts), stopKeys, keysFts)
        else keysFts == old(keysFts)
      ensures ok ==>
        (Mirrors(SecretDocs(secrets), secretsFts) <==>
           ProbeSaysBroken(old(secretsFts)) || Mirrors(SecretDocs(secrets), old(secretsFts))) &&
        (Mirrors(KeyDocs(keys), keysFts) <==> ProbeSaysBroken(old(keysFts)) || Mirrors(KeyDocs(keys), old(keysFts)))
      ensures old(Consistent(Contents())) ==> Contents() == old(Contents())
    {
      DocCounts(secrets, keys);
      ok, secretsFts, keysFts, acts :=
        MigrateBoth(SecretDocs(secrets), secretsFts, stopSecrets, KeyDocs(keys), keysFts, stopKeys);
    }
  }

  lemma {:induction false} DocCounts(t: Secrets, u: Keys)
    ensures |SecretDocs(t)| == |t| && |KeyDocs(u)| == |u|
  {
    assert SecretDocs(t).Keys == t.Keys && KeyDocs(u).Keys == u.Keys;
  }

  lemma {:induction false} DeleteThenInsert(rows: map<int, FtsRow>, id: int, text: FtsRow)
    ensures (rows - {id})[id := text] == rows[id := text]
  {}

  lemma {:induction false} UpsertedDocs(t: Secrets, sec: SecretRow, now: int)
    ensures SecretDocs(Upserted(t, sec, now)) == SecretDocs(t)[sec.path := SecretDoc(Upserted(t, sec, now)[sec.path])]
  {}

  /** A new row's id belongs to no other row. */
  lemma {:induction false} FreshId(docs: map<Str, Doc>, ids: set<int>)
    requires IdsPositive(docs) && forall i :: i in ids <==> HasId(docs, i)
    ensures NextId(ids) > 0 && !HasId(docs, NextId(ids))
  {
    if ids != {} { assert HasId(docs, NextId(ids) - 1); }
    forall p | p in docs ensures docs[p].id < NextId(ids) { assert HasId(docs, docs[p].id); }
  }

  lemma {:induction false} SecretIdsAreDocIds(t: Secrets, i: int)
    ensures i in SecretIds(t) <==> HasId(SecretDocs(t), i)
  {
    if i in SecretIds(t) {
      var p :| p in t && t[p].id == i;
      assert SecretDocs(t)[p].id == i;
    }
  }

  lemma {:induction false} KeyIdsAreDocIds(t: Keys, i: int)
    ensures i in KeyIds(t) <==> HasId(KeyDocs(t), i)
  {
    if i in KeyIds(t) {
      var n :| n in t && t[n].id == i;
      assert KeyDocs(t)[n].id == i;
    }
  }

  lemma {:induction false} IdsAfterWrite(docs: map<Str, Doc>, p: Str, d: Doc)
    requires IdsDistinct(docs) && IdsPositive(docs)
    requires if p in docs then docs[p].id == d.id else d.id > 0 && !HasId(docs, d.id)
    ensures IdsDistinct(docs[p := d]) && IdsPositive(docs[p := d])
  {}

  /** The id of the written row: the one it had, or one that no row has. */
  lemma {:induction false} UpsertedIds(t: Secrets, sec: SecretRow, now: int)
    requires IdsDistinct(SecretDocs(t)) && IdsPositive(SecretDocs(t))
    ensures IdsDistinct(SecretDocs(Upserted(t, sec, now))) && IdsPositive(SecretDocs(Upserted(t, sec, now)))
    ensures sec.path !in t ==> !HasId(SecretDocs(t), Upserted(t, sec, now)[sec.path].id)
  {
    UpsertedDocs(t, sec, now);
    if sec.path !in t {
      forall i ensures i in SecretIds(t) <==> HasId(SecretDocs(t), i) { SecretIdsAreDocIds(t, i); }
      FreshId(SecretDocs(t), SecretIds(t));
    }
    IdsAfterWrite(SecretDocs(t), sec.path, SecretDoc(Upserted(t, sec, now)[sec.path]));
  }

  lemma {:induction false} PutKeepsConsistent(db: Db, sec: SecretRow, now: int)
    requires Consistent(db)
    ensures Consistent(AfterPut(db, sec, now, NoFault))
  {
    UpsertedDocs(db.secrets, sec, now);
    UpsertedIds(db.secrets, sec, now);
    SyncKeepsMirror(SecretDocs(db.secrets), db.secretsFts, sec.path, SecretDoc(Upserted(db.secrets, sec, now)[sec.path]));
  }

  /** If a statement behind the write fails, the index stays exact just when the indexed text did not change. */
  lemma {:induction false} FaultyPutConsistentIff(db: Db, sec: SecretRow, now: int)
    requires Consistent(db)
    ensures Consistent(AfterPut(db, sec, now, LaterFails)) <==>
      sec.path in db.secrets && SecretDoc(db.secrets[sec.path]).text == SecretDoc(sec).text
  {
    var d := UpsertedTables(db, sec, now);
    UnsyncedMirrorIff(SecretDocs(db.secrets), db.secretsFts, sec.path, d);
  }

  lemma {:induction false} UpsertedTables(db: Db, sec: SecretRow, now: int) returns (d: Doc)
    requires Consistent(db)
    ensures var t', docs := Upserted(db.secrets, sec, now), SecretDocs(db.secrets);
      TablesOk(db.(secrets := t')) && SecretDocs(t') == docs[sec.path := d] &&
      (sec.path !in docs ==> !HasId(docs, d.id)) &&
      d.text == SecretDoc(sec).text && (sec.path in docs ==> d.id == docs[sec.path].id)
  {
    d := SecretDoc(Upserted(db.secrets, sec, now)[sec.path]);
    UpsertedDocs(db.secrets, sec, now);
    UpsertedIds(db.secrets, sec, now);
    UpsertedDoc(db.secrets, sec, now);
  }

  /** The written row's document, and the tables' own constraints behind the write. */
  lemma {:induction false} UpsertedDoc(t: Secrets, sec: SecretRow, now: int)
    ensures var d := SecretDoc(Upserted(t, sec, now)[sec.path]);
      d.text == SecretDoc(sec).text && (sec.path in t ==> d.id == SecretDoc(t[sec.path]).id)
    ensures (forall p :: p in t ==> t[p].path == p) ==>
      forall p :: p in Upserted(t, sec, now) ==> Upserted(t, sec, now)[p].path == p
  {}

  lemma {:induction false} DeletedDocs(t: Secrets, path: Str)
    requires path in t && IdsDistinct(SecretDocs(t))
    ensures WithoutId(t, t[path].id) == t - {path}
    ensures SecretDocs(t - {path}) == SecretDocs(t) - {path}
  {
    var docs := SecretDocs(t);
    forall p | p in t && p != path ensures t[p].id != t[path].id {
      assert docs[p].id == t[p].id && docs[path].id == t[path].id;
    }
  }

  lemma {:induction false} DeleteKeepsConsistent(db: Db, path: Str, fault: Fault)
    requires Consistent(db) && !fault.LaterFails?
    ensures Consistent(AfterDelete(db, path, fault))
  {
    if path in db.secrets && fault.NoFault? {
      var docs := SecretDocs(db.secrets);
      DeletedDocs(db.secrets, path);
      DropKeepsMirror(docs, db.secretsFts, path);
      assert docs[path].id == db.secrets[path].id;
    }
  }

  /** A DELETE whose index statement fails leaves a stray index row, if there was a row to delete. */
  lemma {:induction false} FaultyDeleteConsistentIff(db: Db, path: Str, fault: Fault)
    requires Consistent(db)
    ensures Consistent(AfterDelete(db, path, fault)) <==> path !in db.secrets || !fault.LaterFails?
  {
    if !fault.LaterFails? {
      DeleteKeepsConsistent(db, path, fault);
    } else if path in db.secrets {
      DeletedDocs(db.secrets, path);
      StrayRow(SecretDocs(db.secrets), db.secretsFts, path);
    }
  }

  lemma {:induction false} StrayRow(docs: map<Str, Doc>, f: FtsTable, p: Str)
    requires Mirrors(docs, f) && IdsDistinct(docs) && p in docs
    ensures !Mirrors(docs - {p}, f)
  {
    assert Holds(f.rows, docs[p]);
    assert !HasId(docs - {p}, docs[p].id);
  }

  /** A new key's document, and that no other has its id. */
  lemma {:induction false} NewKeyDoc(t: Keys, k: Key, now: int) returns (d: Doc)
    requires IdsDistinct(KeyDocs(t)) && IdsPositive(KeyDocs(t)) && k.name !in t
    ensures d == KeyDoc(NewKey(t, k, now)) && !HasId(KeyDocs(t), d.id)
    ensures KeyDocs(t[k.name := NewKey(t, k, now)]) == KeyDocs(t)[k.name := d]
    ensures IdsDistinct(KeyDocs(t)[k.name := d]) && IdsPositive(KeyDocs(t)[k.name := d])
  {
    d := KeyDoc(NewKey(t, k, now));
    forall i ensures i in KeyIds(t) <==> HasId(KeyDocs(t), i) { KeyIdsAreDocIds(t, i); }
    FreshId(KeyDocs(t), KeyIds(t));
    IdsAfterWrite(KeyDocs(t), k.name, d);
  }

  /** CreateKey leaves the index behind exactly when it inserts the key and then fails. */
  lemma {:induction false} FaultyCreateConsistentIff(db: Db, k: Key, now: int, fault: Fault)
    requires Consistent(db)
    ensures Consistent(AfterCreateKey(db, k, now, fault)) <==> !fault.LaterFails? || k.name in db.keys
  {
    if !fault.WriteFails? && k.name !in db.keys {
      var d := NewKeyDoc(db.keys, k, now);
      if fault.LaterFails? {
        UnsyncedMirrorIff(KeyDocs(db.keys), db.keysFts, k.name, d);
      } else {
        SyncKeepsMirror(KeyDocs(db.keys), db.keysFts, k.name, d);
      }
    }
  }

  /** The row that UPDATE by id reaches, if any, has another name; every other row is as it was. */
  lemma {:induction false} EditedDocs(t: Keys, k: Key)
    requires IdsDistinct(KeyDocs(t)) && forall n :: n in t ==> t[n].name == n
    ensures k.name in t && t[k.name].id == k.id ==> KeyDocs(EditedKeys(t, k)) == KeyDocs(t)[k.name := KeyDoc(k)]
    ensures forall n :: n in t ==> EditedKeys(t, k)[n].id == t[n].id && EditedKeys(t, k)[n].name == n
  {
    var docs := KeyDocs(t);
    if k.name in t && t[k.name].id == k.id {
      forall n | n in t && n != k.name ensures t[n].id != k.id {
        assert docs[n].id == t[n].id && docs[k.name].id == k.id;
      }
    }
  }

  /** The key's id and name belong to one row. */
  predicate SameRow(t: Keys, k: Key) { k.name in t && t[k.name].id == k.id }

  /** No row that UPDATE by id reaches gets another indexed text. */
  predicate KeepsText(t: Keys, k: Key)
  {
    forall n :: n in t && t[n].id == k.id ==>
      t[n].description == k.description && FtsText.Flattened(t[n].metadata) == FtsText.Flattened(k.metadata)
  }

  predicate UpdateConsistent(t: Keys, k: Key, fault: Fault)
  {
    match fault
    case NoFault => SameRow(t, k)
    case WriteFails => true
    case LaterFails => KeepsText(t, k)
  }

  /** UpdateKey leaves the database consistent exactly when its argument's id and name belong to one row; if the index
      is not reached, when the row's indexed text is the same as before. */
  lemma {:induction false} FaultyUpdateConsistentIff(db: Db, k: Key, fault: Fault)
    requires Consistent(db)
    ensures Consistent(AfterUpdateKey(db, k, fault)) <==> UpdateConsistent(db.keys, k, fault)
  {
    EditedTablesOk(db, k, AfterUpdateKey(db, k, fault).keysFts);
    match fault
    case NoFault => UpdateSyncedIff(db, k);
    case WriteFails =>
    case LaterFails => UpdateUnsyncedIff(db.keys, db.keysFts, k);
  }

  lemma {:induction false} EditedTablesOk(db: Db, k: Key, f: FtsTable)
    requires TablesOk(db)
    ensures TablesOk(db.(keys := EditedKeys(db.keys, k), keysFts := f))
  {
    EditedDocs(db.keys, k);
    SameIds(KeyDocs(db.keys), KeyDocs(EditedKeys(db.keys, k)));
  }

  lemma {:induction false} UpdateSyncedIff(db: Db, k: Key)
    requires TablesOk(db) && Mirrors(KeyDocs(db.keys), db.keysFts)
    ensures Mirrors(KeyDocs(EditedKeys(db.keys, k)), Synced(db.keysFts, KeyDoc(k))) <==> SameRow(db.keys, k)
  {
    var t, t' := db.keys, EditedKeys(db.keys, k);
    EditedDocs(t, k);
    if SameRow(t, k) {
      SameIds(KeyDocs(t), KeyDocs(t'));
      SyncKeepsMirror(KeyDocs(t), db.keysFts, k.name, KeyDoc(k));
    } else {
      forall n | n in t' ensures KeyDocs(t')[n] != KeyDoc(k) { assert t'[n].name == n && t'[n].id == t[n].id; }
      StraySyncBreaks(KeyDocs(t'), db.keysFts, KeyDoc(k));
    }
  }

  lemma {:induction false} UpdateUnsyncedIff(t: Keys, f: FtsTable, k: Key)
    requires Mirrors(KeyDocs(t), f)
    ensures Mirrors(KeyDocs(EditedKeys(t, k)), f) <==> KeepsText(t, k)
  {
    var docs, docs' := KeyDocs(t), KeyDocs(EditedKeys(t, k));
    if KeepsText(t, k) {
      assert docs' == docs;
    } else {
      var n :| n in t && t[n].id == k.id &&
        !(t[n].description == k.description && FtsText.Flattened(t[n].metadata) == FtsText.Flattened(k.metadata));
      assert Holds(f.rows, docs[n]) && n in docs' && !Holds(f.rows, docs'[n]);
    }
  }

  lemma {:induction false} SameIds(docs: map<Str, Doc>, docs': map<Str, Doc>)
    requires IdsDistinct(docs) && IdsPositive(docs)
    requires docs'.Keys == docs.Keys && forall n :: n in docs ==> docs'[n].id == docs[n].id
    ensures IdsDistinct(docs') && IdsPositive(docs')
  {}

  lemma {:induction false} StampedKeepsConsistent(db: Db, id: int, stamp: Key -> Key)
    requires Consistent(db) && forall k :: KeyDoc(stamp(k)) == KeyDoc(k) && stamp(k).name == k.name
    ensures Consistent(db.(keys := StampedKeys(db.keys, id, stamp)))
  {
    assert KeyDocs(StampedKeys(db.keys, id, stamp)) == KeyDocs(db.keys);
  }

  lemma {:induction false} StampsKeepConsistent(db: Db, id: int, now: int)
    ensures Consistent(db) ==> Consistent(AfterRevoke(db, id, now)) && Consistent(AfterTouch(db, id, now))
  {
    if Consistent(db) {
      StampedKeepsConsistent(db, id, (k: Key) => k.(revokedAt := Some(now)));
      StampedKeepsConsistent(db, id, (k: Key) => k.(lastUsedAt := Some(now)));
    }
  }

  lemma {:induction false} IdsAfterDelete(t: Secrets, path: Str)
    requires path in t && IdsDistinct(SecretDocs(t))
    ensures SecretIds(t - {path}) == SecretIds(t) - {t[path].id}
  {
    var docs := SecretDocs(t);
    forall p | p in t && p != path ensures t[p].id != t[path].id {
      assert docs[p].id == t[p].id && docs[path].id == t[path].id;
    }
    forall i | i in SecretIds(t) && i != t[path].id ensures i in SecretIds(t - {path}) {
      var p :| p in t && t[p].id == i;
      assert p in t - {path};
    }
  }

  /** Without an id, that id comes next exactly when it was the highest and the one below it is in use, or there is none. */
  lemma {:induction false} NextIdReusedIff(ids: set<int>, id: int)
    requires id in ids && forall i :: i in ids ==> 0 < i
    ensures NextId(ids - {id}) == id <==> Top(ids, id) && (id == 1 || id - 1 in ids)
  {
    var rest := ids - {id};
    assert forall i :: i in rest <==> i in ids && i != id;
    if rest != {} {
      var n := NextId(rest);
      assert n - 1 in rest;
    } else {
      assert forall i :: i in ids ==> i == id;
    }
  }

  predicate Top(ids: set<int>, id: int) { forall i :: i in ids ==> i <= id }

  /** Deleting a row frees its id for the next new path exactly when it has the highest id and the one below is in use,
      or there is none; the reused id then indexes the new row. */
  lemma {:induction false} IdReusedIff(db: Db, path: Str, sec: SecretRow, now: int)
    requires Consistent(db) && path in db.secrets && sec.path !in db.secrets
    ensures var after := AfterPut(AfterDelete(db, path, NoFault), sec, now, NoFault);
      var id, ids := db.secrets[path].id, SecretIds(db.secrets);
      Consistent(after) &&
      (after.secrets[sec.path].id == id <==> Top(ids, id) && (id == 1 || id - 1 in ids))
  {
    var t := db.secrets;
    DeleteKeepsConsistent(db, path, NoFault);
    PutKeepsConsistent(AfterDelete(db, path, NoFault), sec, now);
    DeletedDocs(t, path);
    IdsAfterDelete(t, path);
    SecretIdsPositive(t);
    NextIdReusedIff(SecretIds(t), t[path].id);
  }

  lemma {:induction false} SecretIdsPositive(t: Secrets)
    requires IdsPositive(SecretDocs(t))
    ensures forall i :: i in SecretIds(t) ==> 0 < i
  {
    forall i | i in SecretIds(t) ensures 0 < i {
      var p :| p in t && t[p].id == i;
      assert SecretDocs(t)[p].id == i;
    }
  }

  /** What the API asks of the store, and how the callers of UpdateKey name the key: read by name, then changed. */
  datatype Op =
    | Put(sec: SecretRow, now: int)
    | Delete(path: Str)
    | CreateKey(key: Key, now: int)
    | EditKey(name: Str, changes: Key)
    | RevokeKey(id: int, now: int)
    | TouchKey(id: int, now: int)

  function Apply(db: Db, op: Op): Db
  {
    match op
    case Put(sec, now) => AfterPut(db, sec, now, NoFault)
    case Delete(path) => AfterDelete(db, path, NoFault)
    case CreateKey(key, now) => AfterCreateKey(db, key, now, NoFault)
    case EditKey(name, changes) =>
      if name in db.keys then AfterUpdateKey(db, Edited(db.keys[name], changes), NoFault) else db
    case RevokeKey(id, now) => AfterRevoke(db, id, now)
    case TouchKey(id, now) => AfterTouch(db, id, now)
  }

  function ApplyAll(db: Db, ops: seq<Op>): Db
    decreases |ops|
  {
    if ops == [] then db else ApplyAll(Apply(db, ops[0]), ops[1..])
  }

  lemma {:induction false} EditKeepsConsistent(db: Db, name: Str, changes: Key)
    requires Consistent(db) && name in db.keys
    ensures Consistent(AfterUpdateKey(db, Edited(db.keys[name], changes), NoFault))
  {
    FaultyUpdateConsistentIff(db, Edited(db.keys[name], changes), NoFault);
  }

  lemma {:induction false} CreateKeepsConsistent(db: Db, k: Key, now: int)
    requires Consistent(db)
    ensures Consistent(AfterCreateKey(db, k, now, NoFault))
  {
    FaultyCreateConsistentIff(db, k, now, NoFault);
  }

  lemma {:induction false} ApplyKeepsConsistent(db: Db, op: Op)
    requires Consistent(db)
    ensures Consistent(Apply(db, op))
  {
    match op
    case Put(sec, now) => PutKeepsConsistent(db, sec, now);
    case Delete(path) => DeleteKeepsConsistent(db, path, NoFault);
    case CreateKey(key, now) => CreateKeepsConsistent(db, key, now);
    case EditKey(name, changes) =>
      if name in db.keys { EditKeepsConsistent(db, name, changes); }
    case RevokeKey(id, now) =>
      StampsKeepConsistent(db, id, now);
      assert Apply(db, op) == AfterRevoke(db, id, now);
    case TouchKey(id, now) =>
      StampsKeepConsistent(db, id, now);
      assert Apply(db, op) == AfterTouch(db, id, now);
  }

  /** After every sequential run both indexes hold one row per base row, with its id and current text, and nothing else. */
  lemma {:induction false} EveryRunMirrored(db: Db, ops: seq<Op>)
    requires Consistent(db)
    ensures Consistent(ApplyAll(db, ops))
    decreases |ops|
  {
    if ops != [] {
      ApplyKeepsConsistent(db, ops[0]);
      EveryRunMirrored(Apply(db, ops[0]), ops[1..]);
    }
  }

  // --- the same, column by column ---

  /** PutSecret: the path's row has the argument's columns, but keeps the id and creation time of a row that was there; a
      new one has an id above all others; no other row changes. A sync leaves the path, the description and the flattened
      metadata under that id. */
  lemma {:induction false} PutColumns(db: Db, sec: SecretRow, now: int, fault: Fault)
    requires !fault.WriteFails?
    ensures var t, t' := db.secrets, AfterPut(db, sec, now, fault).secrets;
      t'.Keys == t.Keys + {sec.path} && (forall p :: p in t && p != sec.path ==> t'[p] == t[p]) &&
      t'[sec.path] == SecretRow(
        t'[sec.path].id, sec.path, sec.labelText, sec.ciphertext, sec.nonce, sec.aad, sec.tags, sec.description,
        sec.metadata, t'[sec.path].createdAt, now, sec.descUpdatedAt, sec.metaUpdatedAt, sec.version)
    ensures var t, r := db.secrets, AfterPut(db, sec, now, fault).secrets[sec.path];
      if sec.path in t then r.id == t[sec.path].id && r.createdAt == t[sec.path].createdAt
      else (forall p :: p in t ==> t[p].id < r.id) && r.createdAt == if sec.createdAt == 0 then now else sec.createdAt
    ensures fault.NoFault? && db.secretsFts.Working? ==>
      AfterPut(db, sec, now, fault).secretsFts == Working(db.secretsFts.rows[
        AfterPut(db, sec, now, fault).secrets[sec.path].id :=
          FtsRow(sec.path, sec.description, FtsText.Flattened(sec.metadata))])
  {
    var t := db.secrets;
    forall p | p in t ensures t[p].id in SecretIds(t) {}
  }

  /** DeleteSecret: the path is gone, and nothing else. */
  lemma {:induction false} DeleteColumns(db: Db, path: Str, fault: Fault)
    requires TablesOk(db) && path in db.secrets && !fault.WriteFails?
    ensures AfterDelete(db, path, fault).secrets == db.secrets - {path}
    ensures fault.NoFault? && db.secretsFts.Working? ==>
      AfterDelete(db, path, fault).secretsFts == Working(db.secretsFts.rows - {db.secrets[path].id})
  {
    DeletedDocs(db.secrets, path);
  }

  /** CreateKey: a new name gets the argument's columns, an id above all others and the store's clock. */
  lemma {:induction false} CreateColumns(db: Db, k: Key, now: int, fault: Fault)
    requires k.name !in db.keys && !fault.WriteFails?
    ensures var u, u' := db.keys, AfterCreateKey(db, k, now, fault).keys;
      k.name in u' && u' == u[k.name := Key(u'[k.name].id, k.name, k.hash, k.prefix, k.scope, k.permissions, k.tags,
        k.description, k.metadata, now, k.expiresAt, k.revokedAt, k.lastUsedAt, k.descUpdatedAt, k.metaUpdatedAt)] &&
      forall n :: n in u ==> u[n].id < u'[k.name].id
    ensures fault.NoFault? && db.keysFts.Working? ==>
      AfterCreateKey(db, k, now, fault).keysFts == Working(db.keysFts.rows[
        AfterCreateKey(db, k, now, fault).keys[k.name].id := FtsRow(k.name, k.description, FtsText.Flattened(k.metadata))])
  {
    var u := db.keys;
    forall n | n in u ensures u[n].id in KeyIds(u) {}
  }

  /** UpdateKey: the key with that id gets the new scope, permissions, expiry, tags, description and metadata, and keeps its
      name, token, creation, revocation and last use; no other key changes. */
  lemma {:induction false} UpdateColumns(db: Db, k: Key, fault: Fault, n: Str)
    requires n in db.keys && !fault.WriteFails?
    ensures var row, u' := db.keys[n], AfterUpdateKey(db, k, fault).keys;
      u'.Keys == db.keys.Keys &&
      u'[n] == if row.id != k.id then row else
        Key(row.id, row.name, row.hash, row.prefix, k.scope, k.permissions, k.tags, k.description, k.metadata,
            row.createdAt, k.expiresAt, row.revokedAt, row.lastUsedAt, k.descUpdatedAt, k.metaUpdatedAt)
    ensures fault.NoFault? && db.keysFts.Working? ==>
      AfterUpdateKey(db, k, fault).keysFts ==
        Working(db.keysFts.rows[k.id := FtsRow(k.name, k.description, FtsText.Flattened(k.metadata))])
  {}

  /** RevokeKey and TouchKeyLastUsed: the key with that id, that one column. */
  lemma {:induction false} StampColumns(db: Db, id: int, now: int, n: Str)
    requires n in db.keys
    ensures AfterRevoke(db, id, now).keys.Keys == AfterTouch(db, id, now).keys.Keys == db.keys.Keys
    ensures AfterRevoke(db, id, now).keys[n] ==
      if db.keys[n].id == id then db.keys[n].(revokedAt := Some(now)) else db.keys[n]
    ensures AfterTouch(db, id, now).keys[n] ==
      if db.keys[n].id == id then db.keys[n].(lastUsedAt := Some(now)) else db.keys[n]
  {}
}
