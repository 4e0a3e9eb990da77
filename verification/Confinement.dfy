/** Agent keys are confined to their scope: what they see and change does not depend on, or touch, anything else
    (internal/api/server.go). */
module Confinement {
  import opened Auth
  import opened Basics
  import opened CryptoPrimitives
  import opened MetadataJson
  import opened PlainVault
  import opened Store
  import opened Vault
  import Like
  import Sorting

  /** The requests that a key can send. */
  predicate KeyRequest(req: Request) { req.Get? || req.List? || req.Put? || req.Annotate? || req.Delete? }

  predicate SameItem(i: Item, j: Item) { i.(createdAt := 0) == j.(createdAt := 0) }

  predicate AgreeAt(m: Plain, n: Plain, path: Str)
  {
    (path in m <==> path in n) && (path in m ==> SameItem(m[path], n[path]))
  }

  /** The two vaults hold the same items within the principal's scope, up to creation times. */
  ghost predicate Agree(p: Principal, m: Plain, n: Plain)
  {
    forall path :: CanAccess(p, path) ==> AgreeAt(m, n, path)
  }

  /** Same reply, same audit events, and the vaults still agree. */
  ghost predicate StepsAgree(p: Principal, s: Step, s': Step)
  {
    s.reply == s'.reply && s.events == s'.events && Agree(p, s.m, s'.m)
  }

  lemma {:induction false} FormAgrees(p: Principal, form: Form, m: Plain, n: Plain, d: Draw, e: Draw)
    requires Agree(p, m, n) && CanAccess(p, form.path)
    ensures Agree(p, WithForm(m, form, d), WithForm(n, form, e))
  {
    var m', n' := WithForm(m, form, d), WithForm(n, form, e);
    assert AgreeAt(m, n, form.path);
    forall path | CanAccess(p, path) ensures AgreeAt(m', n', path) { assert AgreeAt(m, n, path); }
  }

  lemma {:induction false} PutAgrees(dec: Decoder, p: Principal, req: Request, m: Plain, n: Plain, d: Draw, e: Draw)
    requires Agree(p, m, n) && req.Put?
    ensures StepsAgree(p, PlainPut(dec, p, req, m, d), PlainPut(dec, p, req, n, e))
  {
    match CheckPut(dec, p, req)
    case Refused(_) =>
    case Accepted(form) =>
      AcceptedPath(dec, p, req);
      FormAgrees(p, form, m, n, d, e);
  }

  lemma {:induction false} NotesAgree(p: Principal, path: Str, m: Plain, n: Plain, notes: Notes)
    requires Agree(p, m, n) && CanAccess(p, path) && path in m && path in n
    ensures Agree(p, m[path := WithNotes(m[path], notes)], n[path := WithNotes(n[path], notes)])
  {
    var m', n' := m[path := WithNotes(m[path], notes)], n[path := WithNotes(n[path], notes)];
    assert AgreeAt(m, n, path);
    forall q | CanAccess(p, q) ensures AgreeAt(m', n', q) { assert AgreeAt(m, n, q); }
  }

  lemma {:induction false} AnnotateAgrees(dec: Decoder, p: Principal, req: Request, m: Plain, n: Plain)
    requires Agree(p, m, n) && req.Annotate?
    ensures StepsAgree(p, PlainAnnotate(dec, p, req, m), PlainAnnotate(dec, p, req, n))
  {
    if CheckAnnotate(p, req).None? {
      assert AgreeAt(m, n, req.path);
      if req.path in m && Annotated(dec, req, ItemNotes(m[req.path])).Some? {
        NotesAgree(p, req.path, m, n, Annotated(dec, req, ItemNotes(m[req.path])).value);
      }
    }
  }

  lemma {:induction false} DeleteAgrees(p: Principal, req: Request, m: Plain, n: Plain)
    requires Agree(p, m, n) && req.Delete?
    ensures StepsAgree(p, PlainDelete(p, req, m), PlainDelete(p, req, n))
  {
    var m', n' := m - {req.path}, n - {req.path};
    if CanAccess(p, req.path) { assert AgreeAt(m, n, req.path); }
    forall q | CanAccess(p, q) ensures AgreeAt(m', n', q) { assert AgreeAt(m, n, q); }
  }

  lemma {:induction false} GetAgrees(p: Principal, req: Request, m: Plain, n: Plain)
    requires Agree(p, m, n) && req.Get?
    ensures StepsAgree(p, PlainGet(p, req, m), PlainGet(p, req, n))
  {
    if CanAccess(p, req.path) { assert AgreeAt(m, n, req.path); }
  }

  lemma {:induction false} KeepAppend(r: seq<Str>, x: Str, keep: set<Str>)
    ensures Sorting.Keep(r + [x], keep) == Sorting.Keep(r, keep) + if x in keep then [x] else []
  {
    if r != [] {
      KeepAppend(r[1..], x, keep);
      assert (r + [x])[1..] == r[1..] + [x];
    }
  }

  /** Only the paths that the principal can access leave a trace in the list. */
  lemma {:induction false} ItemsOfKept(p: Principal, m: Plain, paths: seq<Str>, keep: set<Str>, unmask: bool)
    requires forall q :: q in paths && q !in keep ==> !CanAccess(p, q)
    ensures PlainItems(p, m, paths, unmask) == PlainItems(p, m, Sorting.Keep(paths, keep), unmask)
  {
    if paths != [] {
      var front, last := paths[..|paths| - 1], paths[|paths| - 1];
      ItemsOfKept(p, m, front, keep, unmask);
      assert paths == front + [last];
      KeepAppend(front, last, keep);
      if last in keep {
        var kept := Sorting.Keep(front, keep);
        assert (kept + [last])[..|kept|] == kept;
      } else {
        assert Sorting.Keep(front, keep) + [] == Sorting.Keep(front, keep);
      }
    }
  }

  lemma {:induction false} ItemsAgree(p: Principal, m: Plain, n: Plain, paths: seq<Str>, unmask: bool)
    requires Agree(p, m, n)
    ensures PlainItems(p, m, paths, unmask) == PlainItems(p, n, paths, unmask)
  {
    if paths != [] {
      ItemsAgree(p, m, n, paths[..|paths| - 1], unmask);
      var path := paths[|paths| - 1];
      if CanAccess(p, path) { assert AgreeAt(m, n, path); }
    }
  }

  predicate Listable(prefix: Str, path: Str) { prefix == [] || Like.Matches(prefix + [PERCENT], path, None) }

  /** The listed paths within the scope. */
  function InScope(p: Principal, m: Plain, prefix: Str): set<Str>
  {
    set q | q in m && Listable(prefix, q) && CanAccess(p, q)
  }

  lemma {:induction false} ListIsInScope(p: Principal, m: Plain, prefix: Str, unmask: bool)
    ensures PlainItems(p, m, PlainPaths(m, prefix), unmask) ==
            PlainItems(p, m, Sorting.Sorted(InScope(p, m, prefix)), unmask)
  {
    var all := set q | q in m && (prefix == [] || Like.Matches(prefix + [PERCENT], q, None));
    var keep := InScope(p, m, prefix);
    ItemsOfKept(p, m, Sorting.Sorted(all), keep, unmask);
    Sorting.KeepSorted(all, keep);
    assert all * keep == keep;
  }

  lemma {:induction false} ListAgrees(p: Principal, req: Request, m: Plain, n: Plain)
    requires Agree(p, m, n) && req.List?
    ensures StepsAgree(p, PlainList(p, req, m), PlainList(p, req, n))
  {
    ListIsInScope(p, m, req.prefix, req.unmask);
    ListIsInScope(p, n, req.prefix, req.unmask);
    forall q ensures q in InScope(p, m, req.prefix) <==> q in InScope(p, n, req.prefix) {
      if CanAccess(p, q) { assert AgreeAt(m, n, q); }
    }
    assert InScope(p, m, req.prefix) == InScope(p, n, req.prefix);
    ItemsAgree(p, m, n, Sorting.Sorted(InScope(p, m, req.prefix)), req.unmask);
  }

  lemma {:induction false} RequestAgrees(dec: Decoder, p: Principal, req: Request, m: Plain, n: Plain, d: Draw, e: Draw)
    requires Agree(p, m, n) && KeyRequest(req)
    ensures StepsAgree(p, PlainHandle(dec, p, req, m, d), PlainHandle(dec, p, req, n, e))
  {
    match req
    case Put(_, _, _, _, _, _) => PutAgrees(dec, p, req, m, n, d, e);
    case Annotate(_, _, _, _, _, _) => AnnotateAgrees(dec, p, req, m, n);
    case Delete(_) => DeleteAgrees(p, req, m, n);
    case Get(_) => GetAgrees(p, req, m, n);
    case List(_, _) => ListAgrees(p, req, m, n);
  }

  /** One principal's requests, each with its own draw. */
  predicate SameRequests(p: Principal, a: seq<Call>, b: seq<Call>)
  {
    |a| == |b| && forall i :: 0 <= i < |a| ==> a[i].p == p && b[i].p == p && a[i].req == b[i].req && KeyRequest(a[i].req)
  }

  lemma {:induction false} PlainRunsAgree(dec: Decoder, p: Principal, m: Plain, n: Plain, a: seq<Call>, b: seq<Call>)
    requires SameRequests(p, a, b) && Agree(p, m, n)
    ensures PlainAll(dec, m, a).0 == PlainAll(dec, n, b).0
    ensures Agree(p, PlainAll(dec, m, a).1, PlainAll(dec, n, b).1)
    decreases |a|
  {
    if a != [] {
      RequestAgrees(dec, p, a[0].req, m, n, a[0].d, b[0].d);
      PlainRunsAgree(dec, p, PlainHandle(dec, p, a[0].req, m, a[0].d).m, PlainHandle(dec, p, a[0].req, n, b[0].d).m,
                     a[1..], b[1..]);
    }
  }

  /** Two encrypted vaults, with keys, nonces, ids and times of their own, that agree within the principal's scope:
      the same requests get the same replies and leave vaults that agree within it. */
  lemma {:induction false} RunsConfined(env: Env, env': Env, p: Principal, t: Secrets, t': Secrets, m: Plain, n: Plain,
                                        a: seq<Call>, b: seq<Call>)
    requires AeadCorrect(env.crypto) && |env.kek| == KEK_SIZE && AeadCorrect(env'.crypto) && |env'.kek| == KEK_SIZE
    requires env.dec == env'.dec && NoncesOk(a) && NoncesOk(b)
    requires Refines(env.crypto, env.kek, t, m) && Refines(env'.crypto, env'.kek, t', n)
    requires SameRequests(p, a, b) && Agree(p, m, n)
    ensures ServeAll(env, t, a).0 == ServeAll(env', t', b).0
    ensures Refines(env.crypto, env.kek, ServeAll(env, t, a).1, PlainAll(env.dec, m, a).1)
    ensures Refines(env'.crypto, env'.kek, ServeAll(env', t', b).1, PlainAll(env.dec, n, b).1)
    ensures Agree(p, PlainAll(env.dec, m, a).1, PlainAll(env.dec, n, b).1)
  {
    RunRefines(env, t, m, a);
    RunRefines(env', t', n, b);
    PlainRunsAgree(env.dec, p, m, n, a, b);
  }

  /** What a key's request changes is its one path, within its scope, and only if the key may write. */
  lemma {:induction false} ChangeInScope(env: Env, p: Principal, req: Request, t: Secrets, d: Draw)
    requires |d.nonce| == NONCE_SIZE && KeyRequest(req)
    requires forall q :: q in t ==> t[q].path == q
    ensures var change := Handle(env, p, req, t, d).change;
      change.Keep? ||
      (!ReadOnlyKey(p) &&
       (change.Upsert? ==> CanAccess(p, change.row.path)) && (change.Drop? ==> CanAccess(p, change.path)))
  {
    var existing := Lookup(t, TargetOf(req));
    match req
    case Put(_, _, _, _, _, _) => PutInScope(env, p, req, existing, d);
    case Annotate(_, _, _, _, _, _) => if existing.Some? { AnnotateInScope(env, p, req, existing.value, d); }
    case Delete(_) =>
    case Get(_) =>
    case List(_, _) =>
  }

  lemma {:induction false} PutInScope(env: Env, p: Principal, req: Request, existing: Option<SecretRow>, d: Draw)
    requires |d.nonce| == NONCE_SIZE && req.Put?
    ensures var change := PutOutcome(env, p, req, existing, d).change;
      change.Keep? || (!ReadOnlyKey(p) && change.Upsert? && CanAccess(p, change.row.path))
  {
    RefusalKeeps(env.dec, p, req);
    if CheckPut(env.dec, p, req).Accepted? { AcceptedPath(env.dec, p, req); }
  }

  lemma {:induction false} SealKeepsPath(c: Crypto, kek: Str, r: SecretRow, nonce: Str, plain: Str)
    requires |nonce| == NONCE_SIZE && SealRow(c, kek, r, nonce, plain).Ok?
    ensures SealRow(c, kek, r, nonce, plain).value.path == r.path
  {}

  lemma {:induction false} RenotePath(env: Env, path: Str, r: SecretRow, n: Notes, d: Draw)
    requires |d.nonce| == NONCE_SIZE
    ensures var change := Renote(env, path, r, n, d).change;
      change.Keep? || (change.Upsert? && change.row.path == r.path)
  {
    var plain, row := OpenStored(env.crypto, env.kek, r), NotedRow(r, n, d.now);
    if plain.Ok? && SealRow(env.crypto, env.kek, row, d.nonce, plain.value).Ok? {
      SealKeepsPath(env.crypto, env.kek, row, d.nonce, plain.value);
    }
  }

  lemma {:induction false} AnnotateRowPath(env: Env, req: Request, r: SecretRow, d: Draw)
    requires |d.nonce| == NONCE_SIZE && req.Annotate?
    ensures var change := AnnotateRow(env, req, r, d).change;
      change.Keep? || (change.Upsert? && change.row.path == r.path)
  {
    var notes := Annotated(env.dec, req, NotesOf(r));
    if notes.Some? { RenotePath(env, req.path, r, notes.value, d); }
  }

  lemma {:induction false} AnnotateInScope(env: Env, p: Principal, req: Request, r: SecretRow, d: Draw)
    requires |d.nonce| == NONCE_SIZE && req.Annotate? && r.path == req.path
    ensures var change := AnnotateOutcome(env, p, req, Some(r), d).change;
      change.Keep? || (!ReadOnlyKey(p) && change.Upsert? && CanAccess(p, change.row.path))
  {
    AnnotateRowPath(env, req, r, d);
    AnnotateGate(env, p, req, r, d);
  }

  /** Past its checks, the handler is AnnotateRow. */
  lemma {:induction false} AnnotateGate(env: Env, p: Principal, req: Request, r: SecretRow, d: Draw)
    requires |d.nonce| == NONCE_SIZE && req.Annotate?
    ensures var o := AnnotateOutcome(env, p, req, Some(r), d);
      o.change.Keep? || (o == AnnotateRow(env, req, r, d) && !ReadOnlyKey(p) && CanAccess(p, req.path))
  {}

  /** A row outside the scope stays as it is, byte for byte, whatever the key sends. */
  lemma {:induction false} RunLeavesOthers(env: Env, p: Principal, t: Secrets, calls: seq<Call>, path: Str)
    requires NoncesOk(calls) && forall i :: 0 <= i < |calls| ==> calls[i].p == p && KeyRequest(calls[i].req)
    requires IdsOk(t) && (forall q :: q in t ==> t[q].path == q) && (ReadOnlyKey(p) || !CanAccess(p, path))
    ensures var t' := ServeAll(env, t, calls).1;
      (path in t' <==> path in t) && (path in t ==> t'[path] == t[path])
    decreases |calls|
  {
    if calls != [] {
      var call := calls[0];
      ChangeInScope(env, p, call.req, t, call.d);
      var o := Handle(env, p, call.req, t, call.d);
      OthersStay(t, o.change, call.d.storeNow, path);
      RunLeavesOthers(env, p, Changed(t, o.change, call.d.storeNow), calls[1..], path);
    }
  }

  lemma {:induction false} OthersStay(t: Secrets, change: Change, storeNow: int, path: Str)
    requires IdsOk(t) && forall q :: q in t ==> t[q].path == q
    ensures IdsOk(Changed(t, change, storeNow))
    ensures forall q :: q in Changed(t, change, storeNow) ==> Changed(t, change, storeNow)[q].path == q
    ensures change.Keep? || (change.Upsert? && change.row.path != path) || (change.Drop? && change.path != path) ==>
      var t' := Changed(t, change, storeNow);
      (path in t' <==> path in t) && (path in t ==> t'[path] == t[path])
  {
    match change
    case Keep =>
    case Upsert(row) =>
      UpsertedRow(t, row, storeNow);
      UpsertedIds(t, row, storeNow);
    case Drop(q) =>
      if q in t {
        DeletedDocs(t, q);
        var docs, docs' := SecretDocs(t), SecretDocs(t - {q});
        assert forall x :: x in docs' ==> x in docs && docs'[x] == docs[x];
      }
  }
}
