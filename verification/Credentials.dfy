/** Tokens against the operators and keys tables (internal/auth/auth.go over internal/store/keys.go and operators.go). */
module Credentials {
  import opened Auth
  import opened Basics
  import opened Operators
  import S = Store

  /** The two credential headers; "" is a missing one. */
  datatype Headers = Headers(operator: Str, key: Str)

  /** The columns that authentication looks at. */
  function Columns(k: S.Key): KeyRow
  {
    KeyRow(k.id, k.name, k.scope, k.permissions, k.expiresAt, k.revokedAt)
  }

  predicate HasOperator(ops: OperatorTable, hash: Str, n: Str) { n in ops && ops[n].hash == hash }

  predicate HasKey(keys: S.Keys, hash: Str, n: Str) { n in keys && keys[n].hash == hash }

  /** GetKeyByHash; the column is not UNIQUE, and any row with the hash may be returned. */
  ghost function FindKey(keys: S.Keys, hash: Str): (row: Option<KeyRow>)
    ensures row.None? <==> forall n :: !HasKey(keys, hash, n)
    ensures row.Some? ==> exists n :: HasKey(keys, hash, n) && row == Some(Columns(keys[n]))
  {
    if exists n :: HasKey(keys, hash, n) then
      var n :| HasKey(keys, hash, n);
      Some(Columns(keys[n]))
    else None
  }

  ghost function FindOperator(ops: OperatorTable, hash: Str): (p: Option<Principal>)
    ensures p.None? <==> forall n :: !HasOperator(ops, hash, n)
    ensures p.Some? ==>
      exists n :: HasOperator(ops, hash, n) && p == Some(Principal(Kind.Operator, ops[n].id, n, [], true, true))
  {
    if exists n :: HasOperator(ops, hash, n) then
      var n :| HasOperator(ops, hash, n);
      Some(Principal(Kind.Operator, ops[n].id, n, [], true, true))
    else None
  }

  /** auth.Authenticate, `hash` being token.HashHex. An operator header decides alone. */
  ghost function Authenticate(ops: OperatorTable, keys: S.Keys, hash: Str -> Str, h: Headers, now: int)
    : Result<Principal, AuthError>
  {
    if h.operator != [] then
      var found := FindOperator(ops, hash(h.operator));
      if found.None? then Err(AuthError.NotFound) else Ok(found.value)
    else if h.key != [] then AuthenticateKey(FindKey(keys, hash(h.key)), now)
    else Err(Unauthenticated)
  }

  /** An operator token logs in exactly when some row has its hash; it then may write, and reaches every path. */
  lemma {:induction false} OperatorAdmittedIff(ops: OperatorTable, keys: S.Keys, hash: Str -> Str, h: Headers, now: int,
                                               path: Str)
    requires h.operator != []
    ensures var r := Authenticate(ops, keys, hash, h, now);
      (r.Ok? <==> LogsIn(ops, hash(h.operator))) &&
      (r.Ok? ==> r.value.kind == Kind.Operator && r.value.hasWrite && CanAccess(r.value, path))
  {
    if LogsIn(ops, hash(h.operator)) {
      var n :| n in ops && ops[n].hash == hash(h.operator);
      assert HasOperator(ops, hash(h.operator), n);
    }
  }

  predicate HashesDistinct(keys: S.Keys)
  {
    forall m, n :: m in keys && n in keys && keys[m].hash == keys[n].hash ==> m == n
  }

  /** A key token answers for the one row with its hash. */
  lemma {:induction false} KeyAnswers(ops: OperatorTable, keys: S.Keys, hash: Str -> Str, token: Str, now: int, n: Str)
    requires token != [] && n in keys && keys[n].hash == hash(token) && HashesDistinct(keys)
    ensures Authenticate(ops, keys, hash, Headers([], token), now) == AuthenticateKey(Some(Columns(keys[n])), now)
  {
    assert HasKey(keys, hash(token), n);
  }

  /** No token and an unknown one are turned away. */
  lemma {:induction false} Refused(ops: OperatorTable, keys: S.Keys, hash: Str -> Str, token: Str, now: int)
    requires forall n :: n in keys ==> keys[n].hash != hash(token)
    ensures Authenticate(ops, keys, hash, Headers([], token), now).Err?
  {}

  /** After a revocation the token of the key with that id is refused as revoked, whenever it is presented, and every other
      key's token is answered as before. */
  lemma {:induction false} RevokedIsRefused(db: S.Db, ops: OperatorTable, hash: Str -> Str, id: int, at: int, token: Str,
                                            now: int, n: Str)
    requires token != [] && n in db.keys && db.keys[n].hash == hash(token) && HashesDistinct(db.keys)
    ensures Authenticate(ops, S.AfterRevoke(db, id, at).keys, hash, Headers([], token), now) ==
      if db.keys[n].id == id then Err(Revoked) else Authenticate(ops, db.keys, hash, Headers([], token), now)
  {
    var keys' := S.AfterRevoke(db, id, at).keys;
    StampKeepsHashes(db, id, at);
    S.StampColumns(db, id, at, n);
    KeyAnswers(ops, keys', hash, token, now, n);
    KeyAnswers(ops, db.keys, hash, token, now, n);
    AuthenticatesIff(Columns(keys'[n]), now);
  }

  lemma {:induction false} StampKeepsHashes(db: S.Db, id: int, at: int)
    requires HashesDistinct(db.keys)
    ensures HashesDistinct(S.AfterRevoke(db, id, at).keys) && HashesDistinct(S.AfterTouch(db, id, at).keys)
  {}

  /** An update changes what the token of the key with that id may do, from its scope to its expiry; a revoked key stays
      revoked, and every other key's token is answered as before. */
  lemma {:induction false} EditTakesEffect(db: S.Db, ops: OperatorTable, hash: Str -> Str, k: S.Key, token: Str, now: int,
                                           n: Str)
    requires token != [] && n in db.keys && db.keys[n].hash == hash(token) && HashesDistinct(db.keys)
    ensures var row := db.keys[n];
      Authenticate(ops, S.AfterUpdateKey(db, k, S.NoFault).keys, hash, Headers([], token), now) ==
        if row.id == k.id then
          AuthenticateKey(Some(KeyRow(row.id, row.name, k.scope, k.permissions, k.expiresAt, row.revokedAt)), now)
        else Authenticate(ops, db.keys, hash, Headers([], token), now)
  {
    var keys' := S.AfterUpdateKey(db, k, S.NoFault).keys;
    S.UpdateColumns(db, k, S.NoFault, n);
    UpdateKeepsHashes(db, k);
    KeyAnswers(ops, keys', hash, token, now, n);
    KeyAnswers(ops, db.keys, hash, token, now, n);
  }

  lemma {:induction false} UpdateKeepsHashes(db: S.Db, k: S.Key)
    requires HashesDistinct(db.keys)
    ensures HashesDistinct(S.AfterUpdateKey(db, k, S.NoFault).keys)
  {}

  /** A created key is let in with the scope, permissions and expiry that it was given. */
  lemma {:induction false} CreatedIsAdmitted(db: S.Db, ops: OperatorTable, hash: Str -> Str, k: S.Key, storeNow: int,
                                             token: Str, now: int)
    requires token != [] && k.hash == hash(token) && k.name !in db.keys && k.revokedAt.None?
    requires HashesDistinct(db.keys) && forall n :: n in db.keys ==> db.keys[n].hash != k.hash
    ensures var keys' := S.AfterCreateKey(db, k, storeNow, S.NoFault).keys;
      var r := Authenticate(ops, keys', hash, Headers([], token), now);
      k.name in keys' &&
      (r.Ok? <==> k.expiresAt.None? || k.expiresAt.value <= 0 || now <= k.expiresAt.value) &&
      (r.Ok? ==> r.value == Principal(Kind.Key, keys'[k.name].id, k.name, ScopePatterns(k.scope), true,
                                      k.permissions == [109, 97, 110, 97, 103, 101]))
  {
    var keys' := S.AfterCreateKey(db, k, storeNow, S.NoFault).keys;
    S.CreateColumns(db, k, storeNow, S.NoFault);
    assert keys'[k.name].hash == k.hash;
    forall m, n | m in keys' && n in keys' && keys'[m].hash == keys'[n].hash ensures m == n {
      if m != k.name { assert keys'[m] == db.keys[m]; }
      if n != k.name { assert keys'[n] == db.keys[n]; }
    }
    KeyAnswers(ops, keys', hash, token, now, k.name);
    AuthenticatesIff(Columns(keys'[k.name]), now);
  }
}
