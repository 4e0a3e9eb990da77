/** What key rotation makes of the rows (handleRotateOperator in internal/api/server.go). */
module Rotation {
  import opened Basics
  import opened CryptoPrimitives
  import opened Store
  import opened Vault
  import Like
  import Sorting

  /** The row opened under the old key with its stored AAD, and sealed under the new key with the recomputed one;
      the stored AAD is not written. */
  function RotateRow(c: Crypto, kek: Str, newKek: Str, r: SecretRow, nonce: Str): Result<SecretRow, CryptoError>
    requires |nonce| == NONCE_SIZE
  {
    match OpenStored(c, kek, r)
    case Err(e) => Err(e)
    case Ok(plain) =>
      match Seal(c, newKek, nonce, plain, AADSecret(c, r.path, r.description, r.version))
      case Err(e) => Err(e)
      case Ok(sealed) => Ok(r.(nonce := sealed[..NONCE_SIZE], ciphertext := sealed[NONCE_SIZE..]))
  }

  /** The row opened under the old key, and is now sealed under the new one, for its own columns; of these only the time
      stamp is new. */
  predicate Rewrapped(c: Crypto, kek: Str, newKek: Str, r: SecretRow, r': SecretRow)
  {
    r' == r.(ciphertext := r'.ciphertext, nonce := r'.nonce, updatedAt := r'.updatedAt) &&
    OpenStored(c, kek, r).Ok? && OpenFresh(c, newKek, r') == OpenStored(c, kek, r)
  }

  /** A right row is right again: same value, path, description, version and AAD. */
  lemma {:induction false} RewrappedRight(c: Crypto, kek: Str, newKek: Str, r: SecretRow, r': SecretRow)
    requires RowOk(c, kek, r) && Rewrapped(c, kek, newKek, r, r')
    ensures RowOk(c, newKek, r') && ValueOf(c, newKek, r') == ValueOf(c, kek, r)
  {}

  /** A visited row is under the new key, unless it could not be read; then it is as it was. */
  predicate Visited(c: Crypto, kek: Str, newKek: Str, t: Secrets, t': Secrets, p: Str, unreadable: set<Str>)
    requires p in t && p in t'
  {
    if p in unreadable then t'[p] == t[p] else Rewrapped(c, kek, newKek, t[p], t'[p])
  }

  /** The first `k` paths have been visited, and the others not. */
  predicate RotatedUpTo(c: Crypto, kek: Str, newKek: Str, t: Secrets, t': Secrets, unreadable: set<Str>, k: nat)
  {
    var paths := Sorting.Sorted(t.Keys);
    k <= |paths| && t'.Keys == t.Keys &&
    (forall i :: 0 <= i < k ==> Visited(c, kek, newKek, t, t', paths[i], unreadable)) &&
    (forall i :: k <= i < |paths| ==> t'[paths[i]] == t[paths[i]])
  }

  /** It succeeds exactly for a row that opens under the old key. A row whose stored AAD is not the recomputed one keeps
      the stored one, and opens with the other. */
  lemma {:induction false} RotateRowOk(c: Crypto, kek: Str, newKek: Str, r: SecretRow, nonce: Str)
    requires AeadCorrect(c) && |nonce| == NONCE_SIZE && |newKek| == KEK_SIZE
    ensures RotateRow(c, kek, newKek, r, nonce).Ok? <==> OpenStored(c, kek, r).Ok?
    ensures OpenStored(c, kek, r).Ok? ==> Rewrapped(c, kek, newKek, r, RotateRow(c, kek, newKek, r, nonce).value)
  {
    if OpenStored(c, kek, r).Ok? {
      OpenSealed(c, newKek, nonce, OpenStored(c, kek, r).value, AADSecret(c, r.path, r.description, r.version));
    }
  }

  lemma {:induction false} RewrappedStamp(c: Crypto, kek: Str, newKek: Str, r: SecretRow, r': SecretRow, now: int)
    requires Rewrapped(c, kek, newKek, r, r')
    ensures Rewrapped(c, kek, newKek, r, r'.(updatedAt := now))
  {}

  lemma {:induction false} UpsertedInPlace(t: Secrets, r: SecretRow, now: int)
    requires r.path in t && t[r.path].id == r.id && t[r.path].createdAt == r.createdAt
    ensures Upserted(t, r, now) == t[r.path := r.(updatedAt := now)]
  {}

  /** The rotated row of the next path, in place. */
  lemma {:induction false} RotateStep(c: Crypto, kek: Str, newKek: Str, t: Secrets, t': Secrets, unreadable: set<Str>,
                                      k: nat, p: Str, r: SecretRow)
    requires RotatedUpTo(c, kek, newKek, t, t', unreadable, k) && k < |Sorting.Sorted(t.Keys)|
    requires p == Sorting.Sorted(t.Keys)[k] && p !in unreadable && Rewrapped(c, kek, newKek, t[p], r)
    ensures RotatedUpTo(c, kek, newKek, t, t'[p := r], unreadable, k + 1)
  {
    var paths, t'' := Sorting.Sorted(t.Keys), t'[p := r];
    Sorting.SortedDistinct(t.Keys);
    assert t''.Keys == t.Keys;
    forall i | 0 <= i < k + 1 ensures Visited(c, kek, newKek, t, t'', paths[i], unreadable) {
      StillVisited(c, kek, newKek, t, t', unreadable, paths, k, r, i);
    }
    forall i | k + 1 <= i < |paths| ensures t''[paths[i]] == t[paths[i]] { assert paths[i] != p; }
  }

  lemma {:induction false} StillVisited(c: Crypto, kek: Str, newKek: Str, t: Secrets, t': Secrets, unreadable: set<Str>,
                                        paths: seq<Str>, k: nat, r: SecretRow, i: nat)
    requires i <= k < |paths| && paths[k] in t && paths[i] in t && t'.Keys == t.Keys && (i < k ==> paths[i] != paths[k])
    requires i < k ==> Visited(c, kek, newKek, t, t', paths[i], unreadable)
    requires paths[k] !in unreadable && Rewrapped(c, kek, newKek, t[paths[k]], r)
    ensures Visited(c, kek, newKek, t, t'[paths[k] := r], paths[i], unreadable)
  {}

  /** The row of this path can be read, and then opened under the old key and stored; or it is passed over. */
  predicate Stores(c: Crypto, kek: Str, t: Secrets, p: Str, unreadable: set<Str>, fault: Fault, indexed: bool)
    requires p in t
  {
    p in unreadable || (OpenStored(c, kek, t[p]).Ok? && fault.NoFault? && indexed)
  }

  predicate AllStored(c: Crypto, kek: Str, t: Secrets, paths: seq<Str>, unreadable: set<Str>, fault: Str -> Fault,
                      indexed: bool)
    requires forall p :: p in paths ==> p in t
  {
    forall i :: 0 <= i < |paths| ==> Stores(c, kek, t, paths[i], unreadable, fault(paths[i]), indexed)
  }

  lemma {:induction false} StoredStep(c: Crypto, kek: Str, t: Secrets, paths: seq<Str>, i: nat, unreadable: set<Str>,
                                      fault: Str -> Fault, indexed: bool)
    requires forall p :: p in paths ==> p in t
    requires i < |paths| && AllStored(c, kek, t, paths[..i], unreadable, fault, indexed)
    requires Stores(c, kek, t, paths[i], unreadable, fault(paths[i]), indexed)
    ensures AllStored(c, kek, t, paths[..i + 1], unreadable, fault, indexed)
  {
    assert paths[..i + 1] == paths[..i] + [paths[i]];
  }

  lemma {:induction false} ListsAll(t: Secrets)
    ensures ListedPaths(t, []) == Sorting.Sorted(t.Keys)
  {
    var prefix: Str := [];
    assert (set p | p in t && (prefix == [] || Like.Matches(prefix + [PERCENT], p, None))) == t.Keys;
  }

  lemma {:induction false} SkipStep(c: Crypto, kek: Str, newKek: Str, t: Secrets, t': Secrets, unreadable: set<Str>,
                                    k: nat)
    requires RotatedUpTo(c, kek, newKek, t, t', unreadable, k) && k < |Sorting.Sorted(t.Keys)|
    requires Sorting.Sorted(t.Keys)[k] in unreadable
    ensures RotatedUpTo(c, kek, newKek, t, t', unreadable, k + 1)
  {}

  /** The table after one path: an unreadable row is skipped, and a failed write writes nothing. */
  function AfterOne(c: Crypto, kek: Str, newKek: Str, t: Secrets, p: Str, unreadable: set<Str>, d: Draw,
                    fault: Fault): Secrets
    requires |d.nonce| == NONCE_SIZE && p in t
  {
    var row := RotateRow(c, kek, newKek, t[p], d.nonce);
    if p in unreadable || row.Err? || fault.WriteFails? then t else Upserted(t, row.value, d.storeNow)
  }

  lemma {:induction false} OneStep(c: Crypto, kek: Str, newKek: Str, t: Secrets, t': Secrets, unreadable: set<Str>,
                                   k: nat, d: Draw, fault: Fault)
    requires AeadCorrect(c) && |newKek| == KEK_SIZE && |d.nonce| == NONCE_SIZE
    requires RotatedUpTo(c, kek, newKek, t, t', unreadable, k) && k < |Sorting.Sorted(t.Keys)|
    requires forall p :: p in t ==> t[p].path == p
    ensures var p := Sorting.Sorted(t.Keys)[k];
      t'[p] == t[p] && (RotateRow(c, kek, newKek, t[p], d.nonce).Ok? <==> OpenStored(c, kek, t[p]).Ok?) &&
      RotatedUpTo(c, kek, newKek, t, AfterOne(c, kek, newKek, t', p, unreadable, d, fault), unreadable,
                  if p in unreadable || (OpenStored(c, kek, t[p]).Ok? && !fault.WriteFails?) then k + 1 else k)
  {
    var p := Sorting.Sorted(t.Keys)[k];
    assert t'[p] == t[p];
    RotateRowOk(c, kek, newKek, t[p], d.nonce);
    if p in unreadable {
      SkipStep(c, kek, newKek, t, t', unreadable, k);
    } else if OpenStored(c, kek, t[p]).Ok? && !fault.WriteFails? {
      var r := RotateRow(c, kek, newKek, t[p], d.nonce).value;
      RewrappedStamp(c, kek, newKek, t[p], r, d.storeNow);
      UpsertedInPlace(t', r, d.storeNow);
      RotateStep(c, kek, newKek, t, t', unreadable, k, p, r.(updatedAt := d.storeNow));
    }
  }

  /** The handler gave up at path `k`, the first that did not open under the old key or could not be stored; if it opened,
      its row may have been written all the same. */
  predicate StoppedAt(c: Crypto, kek: Str, newKek: Str, t: Secrets, t': Secrets, unreadable: set<Str>,
                      fault: Str -> Fault, indexed: bool, k: nat)
  {
    var paths := Sorting.Sorted(t.Keys);
    k < |paths| && !Stores(c, kek, t, paths[k], unreadable, fault(paths[k]), indexed) &&
    AllStored(c, kek, t, paths[..k], unreadable, fault, indexed) &&
    RotatedUpTo(c, kek, newKek, t, t', unreadable,
                if OpenStored(c, kek, t[paths[k]]).Ok? && !fault(paths[k]).WriteFails? then k + 1 else k)
  }

  /** After one more path the loop goes on or stops there. */
  lemma {:induction false} StepOutcome(c: Crypto, kek: Str, newKek: Str, t: Secrets, t': Secrets, unreadable: set<Str>,
                                       i: nat, fault: Str -> Fault, indexed: bool, ok: bool)
    requires var paths := Sorting.Sorted(t.Keys);
      i < |paths| && AllStored(c, kek, t, paths[..i], unreadable, fault, indexed) &&
      (ok <==> Stores(c, kek, t, paths[i], unreadable, fault(paths[i]), indexed)) &&
      RotatedUpTo(c, kek, newKek, t, t', unreadable,
                  if paths[i] in unreadable || (OpenStored(c, kek, t[paths[i]]).Ok? && !fault(paths[i]).WriteFails?)
                  then i + 1 else i)
    ensures var paths := Sorting.Sorted(t.Keys);
      if ok then
        RotatedUpTo(c, kek, newKek, t, t', unreadable, i + 1) &&
        AllStored(c, kek, t, paths[..i + 1], unreadable, fault, indexed)
      else StoppedAt(c, kek, newKek, t, t', unreadable, fault, indexed, i)
  {
    if ok { StoredStep(c, kek, t, Sorting.Sorted(t.Keys), i, unreadable, fault, indexed); }
  }

  /** At any exit every row has kept its other columns, and is as it was or opens under the new key to its value; the rows
      of a right table open, under the old key or the new one, with their stored AAD. */
  lemma {:induction false} EveryRowStillOpens(c: Crypto, kek: Str, newKek: Str, t: Secrets, t': Secrets,
                                              unreadable: set<Str>, k: nat, p: Str)
    requires RotatedUpTo(c, kek, newKek, t, t', unreadable, k) && p in t
    ensures t'[p] == t[p] || Rewrapped(c, kek, newKek, t[p], t'[p])
    ensures RowOk(c, kek, t[p]) ==>
      (RowOk(c, newKek, t'[p]) && ValueOf(c, newKek, t'[p]) == ValueOf(c, kek, t[p])) ||
      (RowOk(c, kek, t'[p]) && ValueOf(c, kek, t'[p]) == ValueOf(c, kek, t[p]))
  {
    var paths := Sorting.Sorted(t.Keys);
    assert p in paths;
    var i :| 0 <= i < |paths| && paths[i] == p;
    if i < k { assert Visited(c, kek, newKek, t, t', paths[i], unreadable); }
    if RowOk(c, kek, t[p]) && t'[p] != t[p] { RewrappedRight(c, kek, newKek, t[p], t'[p]); }
  }

  /** The handler keeps the old key in memory. If what is sealed under the new one does not open under it, a second attempt
      on a right table gets through exactly when it passes over every row that the first one has rewritten, and can store
      all the others that it reads. */
  lemma {:induction false} RetryFinishesIff(c: Crypto, kek: Str, newKek: Str, t: Secrets, t': Secrets,
                                            unreadable: set<Str>, k: nat, unreadable': set<Str>, fault: Str -> Fault)
    requires AllOk(c, kek, t) && RotatedUpTo(c, kek, newKek, t, t', unreadable, k)
    requires forall i :: 0 <= i < k && Sorting.Sorted(t.Keys)[i] !in unreadable ==>
      OpenStored(c, kek, t'[Sorting.Sorted(t.Keys)[i]]).Err?
    ensures var paths := Sorting.Sorted(t.Keys);
      AllStored(c, kek, t', paths, unreadable', fault, true) <==>
      forall i :: 0 <= i < |paths| && paths[i] !in unreadable' ==>
        (k <= i || paths[i] in unreadable) && fault(paths[i]).NoFault?
  {
    var paths := Sorting.Sorted(t.Keys);
    forall i | 0 <= i < |paths|
      ensures OpenStored(c, kek, t'[paths[i]]).Ok? <==> k <= i || paths[i] in unreadable
    {
      assert paths[i] in t;
      if i < k { assert Visited(c, kek, newKek, t, t', paths[i], unreadable); }
    }
    if AllStored(c, kek, t', paths, unreadable', fault, true) {
      forall i | 0 <= i < |paths| && paths[i] !in unreadable'
        ensures (k <= i || paths[i] in unreadable) && fault(paths[i]).NoFault?
      {
        assert Stores(c, kek, t', paths[i], unreadable', fault(paths[i]), true);
      }
    }
  }

  /** If the old sealings do not open under the new key, a finished rotation has put every row under the new key
      exactly when every row could be read. */
  lemma {:induction false} AllRowsNewIff(c: Crypto, kek: Str, newKek: Str, t: Secrets, t': Secrets,
                                         unreadable: set<Str>)
    requires AllOk(c, kek, t) && RotatedUpTo(c, kek, newKek, t, t', unreadable, |Sorting.Sorted(t.Keys)|)
    requires forall p :: p in t ==> OpenStored(c, newKek, t[p]).Err?
    ensures AllOk(c, newKek, t') <==> forall p :: p in t ==> p !in unreadable
  {
    forall p | p in t ensures t'[p].path == p && (RowOk(c, newKek, t'[p]) <==> p !in unreadable) {
      VisitedKey(c, kek, newKek, t, t', unreadable, p);
    }
    if p :| p in t && p in unreadable { assert p in t' && !RowOk(c, newKek, t'[p]); }
  }

  lemma {:induction false} VisitedKey(c: Crypto, kek: Str, newKek: Str, t: Secrets, t': Secrets, unreadable: set<Str>,
                                      p: Str)
    requires AllOk(c, kek, t) && RotatedUpTo(c, kek, newKek, t, t', unreadable, |Sorting.Sorted(t.Keys)|)
    requires p in t && OpenStored(c, newKek, t[p]).Err?
    ensures t'[p].path == p && (RowOk(c, newKek, t'[p]) <==> p !in unreadable)
  {
    var paths := Sorting.Sorted(t.Keys);
    assert p in paths;
    var i :| 0 <= i < |paths| && paths[i] == p;
    assert Visited(c, kek, newKek, t, t', paths[i], unreadable);
    if p !in unreadable { RewrappedRight(c, kek, newKek, t[p], t'[p]); }
  }
}
