/** Handlers running at the same time: each reads, and later does one atomic upsert or delete-by-id
    (internal/api/server.go, internal/api/ui_actions.go over internal/store/secrets.go). */
module VaultConcurrency {
  import opened Auth
  import opened Basics
  import opened CryptoPrimitives
  import opened PlainVault
  import opened Store
  import opened Vault

  /** The statement a handler has decided on. A delete remembers the id that it read. */
  datatype Pending = Save(row: SecretRow) | Erase(id: int)

  /** Where a handler is. A list reads its paths first and then their rows one by one, and so does a handler that shows
      the page of secrets with its answer. */
  datatype Pc =
    | Start
    | Listing(rest: seq<Str>, items: seq<ListItem>, events: seq<Event>)
    | Writing(pending: Pending, reply: Reply, events: seq<Event>)
    | Answering(reply: Reply, events: seq<Event>)
    | Paging(rest: seq<Str>, reply: Reply, events: seq<Event>)
    | Done(reply: Reply, events: seq<Event>)

  datatype State = State(t: Secrets, pcs: seq<Pc>)

  function Performed(t: Secrets, pending: Pending, storeNow: int): Secrets
  {
    match pending
    case Save(row) => Upserted(t, row, storeNow)
    case Erase(id) => WithoutId(t, id)
  }

  function Answered(reply: Reply, events: seq<Event>): Pc
  {
    if ShowsPage(reply) then Answering(reply, events) else Done(reply, events)
  }

  /** A read or a write fails for good. */
  function GivesUp(req: Request): Pc { Answered(if req.UiSave? then UiFailed else ServerError, []) }

  /** The reading part of a handler. */
  function AfterRead(env: Env, call: Call, t: Secrets): Pc
    requires |call.d.nonce| == NONCE_SIZE
  {
    if call.req.List? then Listing(ListedPaths(t, call.req.prefix), [], []) else
    var o := Handle(env, call.p, call.req, t, call.d);
    match o.change
    case Keep => Answered(o.reply, o.events)
    case Upsert(row) => Writing(Save(row), o.reply, o.events)
    case Drop(path) => if path in t then Writing(Erase(t[path].id), o.reply, o.events) else Done(Missing, [])
  }

  function AfterLook(env: Env, call: Call, t: Secrets, pc: Pc): Pc
    requires pc.Listing? && call.req.List?
  {
    if pc.rest == [] then
      Done(Items(pc.items), pc.events + [Event(if call.req.unmask then ReadListReveal else ReadList, [])])
    else
      var one := ListOne(env, call.p, t, pc.rest[0], call.req.unmask);
      Listing(pc.rest[1..], pc.items + one.0, pc.events + one.1)
  }

  /** One more row of the page. */
  function AfterPaging(env: Env, call: Call, t: Secrets, pc: Pc): Pc
    requires pc.Paging?
  {
    if pc.rest == [] then Done(pc.reply, pc.events)
    else Paging(pc.rest[1..], pc.reply, pc.events + ListOne(env, call.p, t, pc.rest[0], false).1)
  }

  /** A failed read: put, save, annotate and get take the row for missing, and the others give up. */
  ghost predicate FailsToRead(env: Env, call: Call, pc: Pc)
    requires |call.d.nonce| == NONCE_SIZE
  {
    if call.req.Put? || call.req.UiSave? || call.req.Annotate? || call.req.Get? then pc == AfterRead(env, call, map[])
    else pc == GivesUp(call.req)
  }

  /** A listed row that cannot be read is passed over. */
  predicate PassesOver(pc: Pc, pc': Pc)
  {
    (pc.Listing? || pc.Paging?) && pc.rest != [] && pc' == pc.(rest := pc.rest[1..])
  }

  /** What one handler may do next: read, look at one more row, write, show the page, or fail at a read, or at the write
      with the statement carried out or not. Without its paths a page has no rows. */
  ghost predicate Moves(env: Env, call: Call, t: Secrets, pc: Pc, t': Secrets, pc': Pc)
    requires |call.d.nonce| == NONCE_SIZE
  {
    match pc
    case Start => t' == t && (pc' == AfterRead(env, call, t) || FailsToRead(env, call, pc'))
    case Listing(_, _, _) => call.req.List? && t' == t && (pc' == AfterLook(env, call, t, pc) || PassesOver(pc, pc'))
    case Writing(pending, reply, events) =>
      (t' == Performed(t, pending, call.d.storeNow) && pc' == Answered(reply, events)) ||
      ((t' == t || t' == Performed(t, pending, call.d.storeNow)) && pc' == GivesUp(call.req))
    case Answering(reply, events) =>
      t' == t && (pc' == Paging(ListedPaths(t, []), reply, events) || pc' == Done(reply, events))
    case Paging(_, _, _) => t' == t && (pc' == AfterPaging(env, call, t, pc) || PassesOver(pc, pc'))
    case Done(_, _) => false
  }

  ghost predicate Next(env: Env, calls: seq<Call>, s: State, s': State)
    requires NoncesOk(calls)
  {
    |s.pcs| == |calls| &&
    exists i: nat, pc ::
      i < |calls| && Moves(env, calls[i], s.t, s.pcs[i], s'.t, pc) && s'.pcs == s.pcs[i := pc]
  }

  predicate NoFailure(events: seq<Event>) { forall i :: 0 <= i < |events| ==> !events[i].action.DecryptFailed? }

  predicate PcOk(c: Crypto, kek: Str, pc: Pc)
  {
    match pc
    case Start => true
    case Listing(_, _, events) => NoFailure(events)
    case Answering(_, events) => NoFailure(events)
    case Paging(_, _, events) => NoFailure(events)
    case Writing(pending, _, events) => NoFailure(events) && (pending.Save? ==> RowOk(c, kek, pending.row))
    case Done(_, events) => NoFailure(events)
  }

  /** Every stored row and every row about to be stored is right, ids are distinct, and no decryption has failed. */
  ghost predicate Inv(env: Env, s: State)
  {
    AllOk(env.crypto, env.kek, s.t) && IdsOk(s.t) &&
    forall i :: 0 <= i < |s.pcs| ==> PcOk(env.crypto, env.kek, s.pcs[i])
  }

  lemma {:induction false} ErasedIdsOk(t: Secrets, id: int)
    requires IdsOk(t)
    ensures IdsOk(WithoutId(t, id))
  {
    var docs, docs' := SecretDocs(t), SecretDocs(WithoutId(t, id));
    assert forall p | p in docs' :: p in docs && docs'[p] == docs[p];
  }

  lemma {:induction false} PerformedOk(c: Crypto, kek: Str, t: Secrets, pending: Pending, storeNow: int)
    requires AllOk(c, kek, t) && IdsOk(t) && (pending.Save? ==> RowOk(c, kek, pending.row))
    ensures AllOk(c, kek, Performed(t, pending, storeNow)) && IdsOk(Performed(t, pending, storeNow))
  {
    match pending
    case Save(row) =>
      ChangedOk(c, kek, t, Upsert(row), storeNow);
      UpsertedIds(t, row, storeNow);
    case Erase(id) => ErasedIdsOk(t, id);
  }

  lemma {:induction false} GetNeverFails(env: Env, call: Call, t: Secrets)
    requires AllOk(env.crypto, env.kek, t) && call.req.Get?
    ensures NoFailure(GetOutcome(env, call.p, call.req, Lookup(t, call.req.path)).events)
  {
    if call.req.path in t { RowOkKey(env.crypto, env.kek, t[call.req.path]); }
  }

  lemma {:induction false} PutNeverFails(env: Env, call: Call, existing: Option<SecretRow>)
    requires |call.d.nonce| == NONCE_SIZE && call.req.Put?
    ensures NoFailure(PutOutcome(env, call.p, call.req, existing, call.d).events)
  {}

  lemma {:induction false} SaveNeverFails(env: Env, call: Call, existing: Option<SecretRow>)
    requires |call.d.nonce| == NONCE_SIZE && call.req.UiSave?
    ensures NoFailure(SaveOutcome(env, call.req, existing, call.d).events)
  {}

  lemma {:induction false} RenoteNeverFails(env: Env, path: Str, r: SecretRow, n: Notes, d: Draw)
    requires |d.nonce| == NONCE_SIZE
    ensures NoFailure(Renote(env, path, r, n, d).events)
  {}

  lemma {:induction false} AnnotateNeverFails(env: Env, call: Call, r: SecretRow)
    requires |call.d.nonce| == NONCE_SIZE && call.req.Annotate?
    ensures NoFailure(AnnotateRow(env, call.req, r, call.d).events)
  {
    var notes := Annotated(env.dec, call.req, NotesOf(r));
    if notes.Some? { RenoteNeverFails(env, call.req.path, r, notes.value, call.d); }
  }

  lemma {:induction false} ReadNeverFails(env: Env, call: Call, t: Secrets)
    requires AllOk(env.crypto, env.kek, t) && |call.d.nonce| == NONCE_SIZE && !call.req.List?
    ensures NoFailure(Handle(env, call.p, call.req, t, call.d).events)
  {
    var existing := Lookup(t, TargetOf(call.req));
    match call.req
    case Get(_) => GetNeverFails(env, call, t);
    case Put(_, _, _, _, _, _) => PutNeverFails(env, call, existing);
    case UiSave(_, _, _, _, _, _, _) => SaveNeverFails(env, call, existing);
    case Annotate(_, _, _, _, _, _) => if existing.Some? { AnnotateNeverFails(env, call, existing.value); }
    case Delete(_) =>
    case UiDelete(_) =>
  }

  lemma {:induction false} ReadOk(env: Env, call: Call, t: Secrets)
    requires AeadCorrect(env.crypto) && AllOk(env.crypto, env.kek, t) && |call.d.nonce| == NONCE_SIZE
    ensures PcOk(env.crypto, env.kek, AfterRead(env, call, t))
  {
    if !call.req.List? {
      ReadNeverFails(env, call, t);
      HandleWritesOk(env, call.p, call.req, t, call.d);
    }
  }

  lemma {:induction false} LookOk(env: Env, call: Call, t: Secrets, pc: Pc)
    requires AllOk(env.crypto, env.kek, t) && PcOk(env.crypto, env.kek, pc) && pc.Listing? && call.req.List?
    ensures PcOk(env.crypto, env.kek, AfterLook(env, call, t, pc))
  {
    if pc.rest != [] && pc.rest[0] in t { RowOkKey(env.crypto, env.kek, t[pc.rest[0]]); }
  }

  lemma {:induction false} PagingOk(env: Env, call: Call, t: Secrets, pc: Pc)
    requires AllOk(env.crypto, env.kek, t) && PcOk(env.crypto, env.kek, pc) && pc.Paging?
    ensures PcOk(env.crypto, env.kek, AfterPaging(env, call, t, pc))
  {
    if pc.rest != [] && pc.rest[0] in t { RowOkKey(env.crypto, env.kek, t[pc.rest[0]]); }
  }

  lemma {:induction false} MoveKeepsInv(env: Env, call: Call, t: Secrets, pc: Pc, t': Secrets, pc': Pc)
    requires AeadCorrect(env.crypto) && |call.d.nonce| == NONCE_SIZE
    requires AllOk(env.crypto, env.kek, t) && IdsOk(t) && PcOk(env.crypto, env.kek, pc)
    requires Moves(env, call, t, pc, t', pc')
    ensures AllOk(env.crypto, env.kek, t') && IdsOk(t') && PcOk(env.crypto, env.kek, pc')
  {
    match pc
    case Start =>
      ReadOk(env, call, t);
      ReadOk(env, call, map[]);
    case Listing(_, _, _) => LookOk(env, call, t, pc);
    case Writing(pending, _, _) => PerformedOk(env.crypto, env.kek, t, pending, call.d.storeNow);
    case Answering(_, _) =>
    case Paging(_, _, _) => PagingOk(env, call, t, pc);
    case Done(_, _) =>
  }

  lemma {:induction false} NextKeepsInv(env: Env, calls: seq<Call>, s: State, s': State)
    requires AeadCorrect(env.crypto) && NoncesOk(calls) && Inv(env, s) && Next(env, calls, s, s')
    ensures Inv(env, s')
  {
    var i: nat, pc :| i < |calls| && Moves(env, calls[i], s.t, s.pcs[i], s'.t, pc) && s'.pcs == s.pcs[i := pc];
    MoveKeepsInv(env, calls[i], s.t, s.pcs[i], s'.t, pc);
  }

  /** The handlers' states along an interleaving that starts from the table `t`. */
  ghost predicate Run(env: Env, t: Secrets, calls: seq<Call>, states: seq<State>)
    requires NoncesOk(calls)
  {
    states != [] && states[0].t == t && |states[0].pcs| == |calls| &&
    (forall i :: 0 <= i < |calls| ==> states[0].pcs[i] == Start) &&
    forall k :: 0 < k < |states| ==> Next(env, calls, states[k - 1], states[k])
  }

  lemma {:induction false} StartInv(env: Env, s: State)
    requires AllOk(env.crypto, env.kek, s.t) && IdsOk(s.t) && forall i :: 0 <= i < |s.pcs| ==> s.pcs[i] == Start
    ensures Inv(env, s)
  {}

  lemma {:induction false} RunStep(env: Env, t: Secrets, calls: seq<Call>, states: seq<State>, k: nat)
    requires NoncesOk(calls) && Run(env, t, calls, states) && 0 < k < |states|
    ensures Next(env, calls, states[k - 1], states[k])
  {}

  lemma {:induction false} EveryStateInv(env: Env, t: Secrets, calls: seq<Call>, states: seq<State>, k: nat)
    requires AeadCorrect(env.crypto) && NoncesOk(calls) && Run(env, t, calls, states) && k < |states|
    requires AllOk(env.crypto, env.kek, t) && IdsOk(t)
    ensures Inv(env, states[k])
    decreases k
  {
    if k == 0 {
      StartInv(env, states[0]);
    } else {
      EveryStateInv(env, t, calls, states, k - 1);
      RunStep(env, t, calls, states, k);
      var s, s' := states[k - 1], states[k];
      NextKeepsInv(env, calls, s, s');
    }
  }

  /** In every interleaving, at every moment: each stored row has the AAD of its own columns and opens under the key
      with the stored and with the recomputed AAD, so no read meets a row that it cannot decrypt. */
  lemma {:induction false} EveryRowOpens(env: Env, t: Secrets, calls: seq<Call>, states: seq<State>, k: nat, path: Str)
    requires AeadCorrect(env.crypto) && NoncesOk(calls) && Run(env, t, calls, states) && k < |states|
    requires AllOk(env.crypto, env.kek, t) && IdsOk(t) && path in states[k].t
    ensures var r := states[k].t[path];
      r.aad == AADSecret(env.crypto, r.path, r.description, r.version) &&
      OpenStored(env.crypto, env.kek, r).Ok? && OpenFresh(env.crypto, env.kek, r).Ok?
  {
    EveryStateInv(env, t, calls, states, k);
    RowOkKey(env.crypto, env.kek, states[k].t[path]);
  }

  /** And no handler has recorded a failed decryption. */
  lemma {:induction false} NoDecryptFailure(env: Env, t: Secrets, calls: seq<Call>, states: seq<State>, k: nat, i: nat)
    requires AeadCorrect(env.crypto) && NoncesOk(calls) && Run(env, t, calls, states) && k < |states|
    requires AllOk(env.crypto, env.kek, t) && IdsOk(t) && i < |states[k].pcs| && !states[k].pcs[i].Start?
    ensures NoFailure(states[k].pcs[i].events)
  {
    EveryStateInv(env, t, calls, states, k);
    assert PcOk(env.crypto, env.kek, states[k].pcs[i]);
  }

  /** A delete erases by the id it read. If a row is deleted twice at once, and a new path is stored between the two
      statements, the second statement erases the new row exactly when it got the id: the id was the highest, and the one
      below it is in use, or there is none. */
  lemma {:induction false} StaleEraseHitsReusedId(t: Secrets, path: Str, row: SecretRow, storeNow: int)
    requires IdsOk(t) && path in t && row.path !in t
    ensures var id, ids := t[path].id, SecretIds(t);
      var stored := Performed(Performed(t, Erase(id), 0), Save(row), storeNow);
      row.path in stored &&
      (row.path !in Performed(stored, Erase(id), 0) <==> Top(ids, id) && (id == 1 || id - 1 in ids))
  {
    DeletedDocs(t, path);
    IdsAfterDelete(t, path);
    SecretIdsPositive(t);
    NextIdReusedIff(SecretIds(t), t[path].id);
  }

  predicate MayDelete(call: Call, path: Str)
  {
    call.req == Request.Delete(path) && !ReadOnlyKey(call.p) && CanAccess(call.p, path)
  }

  /** Two deletes of the same path, and a put of a path that is not there. */
  predicate Racing(env: Env, calls: seq<Call>, path: Str, t: Secrets)
  {
    |calls| == 3 && path in t && MayDelete(calls[0], path) && MayDelete(calls[1], path) &&
    calls[2].req.Put? && CheckPut(env.dec, calls[2].p, calls[2].req).Accepted? && calls[2].req.path !in t
  }

  lemma {:induction false} DeleteReads(env: Env, call: Call, path: Str, t: Secrets)
    requires |call.d.nonce| == NONCE_SIZE && MayDelete(call, path) && path in t
    ensures AfterRead(env, call, t) == Writing(Erase(t[path].id), NoContent, [Event(DeleteSecret, path)])
  {}

  lemma {:induction false} PutReads(env: Env, call: Call, t: Secrets) returns (row: SecretRow)
    requires AeadCorrect(env.crypto) && |env.kek| == KEK_SIZE && |call.d.nonce| == NONCE_SIZE
    requires call.req.Put? && CheckPut(env.dec, call.p, call.req).Accepted? && call.req.path !in t
    ensures row.path == call.req.path
    ensures AfterRead(env, call, t) == Writing(Save(row), NoContent, [Event(WriteSecret, row.path)])
  {
    var form := CheckPut(env.dec, call.p, call.req).form;
    SealRowOk(env.crypto, env.kek, FormRow(form, None, call.d.now), call.d.nonce, form.value);
    row := SealRow(env.crypto, env.kek, FormRow(form, None, call.d.now), call.d.nonce, form.value).value;
  }

  lemma {:induction false} ReadStep(env: Env, calls: seq<Call>, s: State, i: nat) returns (s': State)
    requires NoncesOk(calls) && |s.pcs| == |calls| && i < |calls| && s.pcs[i] == Start
    ensures s' == State(s.t, s.pcs[i := AfterRead(env, calls[i], s.t)]) && Next(env, calls, s, s')
  {
    var pc := AfterRead(env, calls[i], s.t);
    s' := State(s.t, s.pcs[i := pc]);
    assert Moves(env, calls[i], s.t, s.pcs[i], s'.t, pc);
  }

  lemma {:induction false} WriteStep(env: Env, calls: seq<Call>, s: State, i: nat) returns (s': State)
    requires NoncesOk(calls) && |s.pcs| == |calls| && i < |calls| && s.pcs[i].Writing? && !ShowsPage(s.pcs[i].reply)
    ensures s'.t == Performed(s.t, s.pcs[i].pending, calls[i].d.storeNow)
    ensures s'.pcs == s.pcs[i := Done(s.pcs[i].reply, s.pcs[i].events)] && Next(env, calls, s, s')
  {
    var pc := Done(s.pcs[i].reply, s.pcs[i].events);
    s' := State(Performed(s.t, s.pcs[i].pending, calls[i].d.storeNow), s.pcs[i := pc]);
    assert Moves(env, calls[i], s.t, s.pcs[i], s'.t, pc);
  }

  lemma {:induction false} RunFurther(env: Env, t: Secrets, calls: seq<Call>, states: seq<State>, s: State)
    requires NoncesOk(calls) && Run(env, t, calls, states) && Next(env, calls, states[|states| - 1], s)
    ensures Run(env, t, calls, states + [s])
  {
    var more := states + [s];
    forall k | 0 < k < |more| ensures Next(env, calls, more[k - 1], more[k]) {
      if k < |states| { assert more[k - 1] == states[k - 1] && more[k] == states[k]; }
    }
  }

  lemma {:induction false} RunOfSeven(env: Env, t: Secrets, calls: seq<Call>, s0: State, s1: State, s2: State,
                                      s3: State, s4: State, s5: State, s6: State) returns (states: seq<State>)
    requires NoncesOk(calls) && |calls| == 3 && s0 == State(t, [Start, Start, Start])
    requires Next(env, calls, s0, s1) && Next(env, calls, s1, s2) && Next(env, calls, s2, s3)
    requires Next(env, calls, s3, s4) && Next(env, calls, s4, s5) && Next(env, calls, s5, s6)
    ensures Run(env, t, calls, states) && |states| == 7 && states[5] == s5 && states[6] == s6
  {
    states := [s0];
    RunFurther(env, t, calls, states, s1);
    states := states + [s1];
    RunFurther(env, t, calls, states, s2);
    states := states + [s2];
    RunFurther(env, t, calls, states, s3);
    states := states + [s3];
    RunFurther(env, t, calls, states, s4);
    states := states + [s4];
    RunFurther(env, t, calls, states, s5);
    states := states + [s5];
    RunFurther(env, t, calls, states, s6);
    states := states + [s6];
  }

  /** Both deletes read, and the first erases. */
  lemma {:induction false} FirstErase(env: Env, t: Secrets, calls: seq<Call>, path: Str, s0: State)
    returns (s1: State, s2: State, s3: State)
    requires NoncesOk(calls) && Racing(env, calls, path, t) && s0 == State(t, [Start, Start, Start])
    ensures Next(env, calls, s0, s1) && Next(env, calls, s1, s2) && Next(env, calls, s2, s3)
    ensures s3.t == Performed(t, Erase(t[path].id), 0) && |s3.pcs| == 3
    ensures s3.pcs[1] == Writing(Erase(t[path].id), NoContent, [Event(DeleteSecret, path)]) && s3.pcs[2] == Start
  {
    DeleteReads(env, calls[0], path, t);
    DeleteReads(env, calls[1], path, t);
    s1 := ReadStep(env, calls, s0, 0);
    s2 := ReadStep(env, calls, s1, 1);
    s3 := WriteStep(env, calls, s2, 0);
  }

  /** The put reads and writes, and then the second delete erases. */
  lemma {:induction false} SecondErase(env: Env, calls: seq<Call>, s3: State, row: SecretRow, id: int,
                                       events: seq<Event>)
    returns (s4: State, s5: State, s6: State)
    requires NoncesOk(calls) && |calls| == |s3.pcs| == 3 && s3.pcs[2] == Start
    requires s3.pcs[1] == Writing(Erase(id), NoContent, events)
    requires AfterRead(env, calls[2], s3.t) == Writing(Save(row), NoContent, [Event(WriteSecret, row.path)])
    ensures Next(env, calls, s3, s4) && Next(env, calls, s4, s5) && Next(env, calls, s5, s6)
    ensures s5.t == Performed(s3.t, Save(row), calls[2].d.storeNow) && s6.t == Performed(s5.t, Erase(id), 0)
    ensures |s5.pcs| == |s6.pcs| == 3 && s5.pcs[2] == s6.pcs[2] == Done(NoContent, [Event(WriteSecret, row.path)])
  {
    s4 := ReadStep(env, calls, s3, 2);
    s5 := WriteStep(env, calls, s4, 2);
    s6 := WriteStep(env, calls, s5, 1);
  }

  /** That state is reached: an interleaving in which a put is answered with success and a delete of another path then
      removes its row, exactly when the deleted row's id is reused. */
  lemma {:induction false} StaleEraseReached(env: Env, t: Secrets, calls: seq<Call>, path: Str)
    returns (states: seq<State>)
    requires AeadCorrect(env.crypto) && |env.kek| == KEK_SIZE && NoncesOk(calls) && Racing(env, calls, path, t)
    requires IdsOk(t)
    ensures Run(env, t, calls, states) && |states| == 7 && |states[5].pcs| == |states[6].pcs| == 3
    ensures states[5].pcs[2] == states[6].pcs[2] == Done(NoContent, [Event(WriteSecret, calls[2].req.path)])
    ensures calls[2].req.path in states[5].t
    ensures var id, ids := t[path].id, SecretIds(t);
      calls[2].req.path !in states[6].t <==> Top(ids, id) && (id == 1 || id - 1 in ids)
  {
    var s0 := State(t, [Start, Start, Start]);
    var s1, s2, s3 := FirstErase(env, t, calls, path, s0);
    var row := ReadsBehindErase(env, calls[2], t, t[path].id, s3.t);
    var s4, s5, s6 := SecondErase(env, calls, s3, row, t[path].id, [Event(DeleteSecret, path)]);
    states := RunOfSeven(env, t, calls, s0, s1, s2, s3, s4, s5, s6);
    StaleEraseHitsReusedId(t, path, row, calls[2].d.storeNow);
  }

  lemma {:induction false} ReadsBehindErase(env: Env, call: Call, t: Secrets, id: int, t': Secrets)
    returns (row: SecretRow)
    requires AeadCorrect(env.crypto) && |env.kek| == KEK_SIZE && |call.d.nonce| == NONCE_SIZE
    requires call.req.Put? && CheckPut(env.dec, call.p, call.req).Accepted? && call.req.path !in t
    requires t' == Performed(t, Erase(id), 0)
    ensures row.path == call.req.path
    ensures AfterRead(env, call, t') == Writing(Save(row), NoContent, [Event(WriteSecret, row.path)])
  {
    row := PutReads(env, call, t');
  }

  /** A delete whose row is still there, or whose id is not in use again, touches no other path. */
  lemma {:induction false} EraseSparesOthersIff(t: Secrets, path: Str, id: int)
    requires IdsOk(t)
    ensures (forall p :: p in t && p != path ==> p in Performed(t, Erase(id), 0)) <==>
      (path in t && t[path].id == id) || id !in SecretIds(t)
  {
    if path in t && t[path].id == id {
      DeletedDocs(t, path);
    } else if id in SecretIds(t) {
      var p :| p in t && t[p].id == id;
      assert p != path && p !in Performed(t, Erase(id), 0);
    } else {
      forall p | p in t ensures t[p].id != id { assert t[p].id in SecretIds(t); }
    }
  }
}
