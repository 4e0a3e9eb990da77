/** The vault without its encryption: a map from paths to items. Run sequentially, the handlers refine it. */
module PlainVault {
  import opened Auth
  import opened Basics
  import opened CryptoPrimitives
  import opened FtsIndex
  import opened MetadataJson
  import opened Store
  import opened Vault
  import Like
  import Sorting

  /** `edits` counts the changes of the description since the item was created. */
  datatype Item = Item(value: Str, labelText: Option<Str>, tags: Str, description: Str, metadata: Str, createdAt: int,
                       edits: nat)

  type Plain = map<Str, Item>

  function Created(d: Draw): int { if d.now == 0 then d.storeNow else d.now }

  function WithForm(m: Plain, form: Form, d: Draw): Plain
  {
    m[form.path := Item(form.value, form.labelText, form.tags, form.description, form.metadata,
        if form.path in m then m[form.path].createdAt else Created(d),
        if form.path !in m then 0
        else m[form.path].edits + if m[form.path].description != form.description then 1 else 0)]
  }

  function ItemNotes(i: Item): Notes { Notes(i.tags, i.description, i.metadata) }

  function WithNotes(i: Item, n: Notes): Item
  {
    i.(tags := n.tags, description := n.description, metadata := n.metadata,
       edits := i.edits + if n.description != i.description then 1 else 0)
  }

  /** Reply, audit events and next state. */
  datatype Step = Step(reply: Reply, events: seq<Event>, m: Plain)

  function PlainPut(dec: Decoder, p: Principal, req: Request, m: Plain, d: Draw): Step
    requires req.Put?
  {
    match CheckPut(dec, p, req)
    case Refused(o) => Step(o.reply, o.events, m)
    case Accepted(form) => Step(NoContent, [Event(WriteSecret, form.path)], WithForm(m, form, d))
  }

  function PlainSave(dec: Decoder, req: Request, m: Plain, d: Draw): Step
    requires req.UiSave?
  {
    match CheckSave(dec, req)
    case Refused(o) => Step(o.reply, o.events, m)
    case Accepted(form) =>
      if form.value == [] && form.path !in m then Step(UiFailed, [], m)
      else
        var value := if form.value == [] then m[form.path].value else form.value;
        Step(UiDone, [Event(WriteSecret, form.path)], WithForm(m, form.(value := value), d))
  }

  /** The annotation of one item with its new columns. */
  function PlainRenote(m: Plain, path: Str, n: Notes): Step
    requires path in m
  {
    if n == ItemNotes(m[path]) then Step(NoContent, [], m)
    else Step(NoContent, [Event(AnnotateSecret, path)], m[path := WithNotes(m[path], n)])
  }

  function PlainAnnotate(dec: Decoder, p: Principal, req: Request, m: Plain): Step
    requires req.Annotate?
  {
    if CheckAnnotate(p, req).Some? then Step(CheckAnnotate(p, req).value, [], m)
    else if req.path !in m then Step(Missing, [], m)
    else match Annotated(dec, req, ItemNotes(m[req.path]))
      case None => Step(BadRequest, [], m)
      case Some(n) => PlainRenote(m, req.path, n)
  }

  function PlainDelete(p: Principal, req: Request, m: Plain): Step
    requires req.Delete?
  {
    if ReadOnlyKey(p) || !CanAccess(p, req.path) then Step(Forbidden, [], m)
    else if req.path !in m then Step(Missing, [], m)
    else Step(NoContent, [Event(DeleteSecret, req.path)], m - {req.path})
  }

  function PlainUiDelete(path: Str, m: Plain): Step
  {
    if path == [] then Step(BadRequest, [], m)
    else if path !in m then Step(UiFailed, [], m)
    else Step(UiDone, [Event(DeleteSecret, path)], m - {path})
  }

  function PlainGet(p: Principal, req: Request, m: Plain): Step
    requires req.Get?
  {
    if !CanAccess(p, req.path) then Step(Forbidden, [Event(DeniedOutOfScope, req.path)], m)
    else if req.path !in m then Step(Missing, [], m)
    else
      var i := m[req.path];
      Step(Secret(req.path, i.value, OrEmpty(i.labelText), SplitCsv(i.tags), i.description, i.metadata, 2 + i.edits),
           [Event(Read, req.path)], m)
  }

  function ItemShown(m: Plain, path: Str, unmask: bool): ListItem
    requires path in m
  {
    ListItem(path, OrEmpty(m[path].labelText), m[path].tags, m[path].description,
             if unmask then m[path].value else Masked(m[path].value))
  }

  /** The items of the paths that the principal can access, in order. */
  function PlainItems(p: Principal, m: Plain, paths: seq<Str>, unmask: bool): seq<ListItem>
  {
    if paths == [] then [] else
    var path := paths[|paths| - 1];
    PlainItems(p, m, paths[..|paths| - 1], unmask) +
    if CanAccess(p, path) && path in m then [ItemShown(m, path, unmask)] else []
  }

  function PlainPaths(m: Plain, prefix: Str): seq<Str>
  {
    Sorting.Sorted(set p | p in m && (prefix == [] || Like.Matches(prefix + [PERCENT], p, None)))
  }

  function PlainList(p: Principal, req: Request, m: Plain): Step
    requires req.List?
  {
    Step(Items(PlainItems(p, m, PlainPaths(m, req.prefix), req.unmask)),
         [Event(if req.unmask then ReadListReveal else ReadList, [])], m)
  }

  function PlainHandle(dec: Decoder, p: Principal, req: Request, m: Plain, d: Draw): Step
  {
    match req
    case Put(_, _, _, _, _, _) => PlainPut(dec, p, req, m, d)
    case Annotate(_, _, _, _, _, _) => PlainAnnotate(dec, p, req, m)
    case UiSave(_, _, _, _, _, _, _) => PlainSave(dec, req, m, d)
    case Delete(_) => PlainDelete(p, req, m)
    case UiDelete(_) => PlainUiDelete(TargetOf(req), m)
    case Get(_) => PlainGet(p, req, m)
    case List(_, _) => PlainList(p, req, m)
  }

  /** A right row that holds the item; the version counts on from 2. */
  predicate Represents(c: Crypto, kek: Str, r: SecretRow, i: Item)
  {
    RowOk(c, kek, r) && ValueOf(c, kek, r) == i.value && r.labelText == i.labelText && r.tags == i.tags &&
    r.description == i.description && r.metadata == i.metadata && r.createdAt == i.createdAt && r.version == 2 + i.edits
  }

  predicate RowRefines(c: Crypto, kek: Str, t: Secrets, m: Plain, p: Str)
  {
    p in t && p in m && t[p].path == p && Represents(c, kek, t[p], m[p])
  }

  predicate IdsOk(t: Secrets) { IdsDistinct(SecretDocs(t)) && IdsPositive(SecretDocs(t)) }

  predicate Refines(c: Crypto, kek: Str, t: Secrets, m: Plain)
  {
    t.Keys == m.Keys && IdsOk(t) && forall p :: p in t ==> RowRefines(c, kek, t, m, p)
  }

  /** What the encrypted side answers and becomes. */
  function Served(env: Env, p: Principal, req: Request, t: Secrets, d: Draw): (r: (Outcome, Secrets))
    requires |d.nonce| == NONCE_SIZE
  {
    var o := Handle(env, p, req, t, d);
    (o, Changed(t, o.change, d.storeNow))
  }

  ghost predicate StepRefines(env: Env, o: Outcome, t: Secrets, d: Draw, s: Step)
  {
    o.reply == s.reply && o.events == s.events && Refines(env.crypto, env.kek, Changed(t, o.change, d.storeNow), s.m)
  }

  /** The row that the upsert leaves represents the item, if the item has the creation time that the upsert keeps. */
  lemma {:induction false} UpsertedRepresents(c: Crypto, kek: Str, t: Secrets, row: SecretRow, i: Item, now: int)
    requires RowOk(c, kek, row) && Represents(c, kek, row, i.(createdAt := row.createdAt))
    requires i.createdAt ==
      if row.path in t then t[row.path].createdAt else if row.createdAt == 0 then now else row.createdAt
    ensures Represents(c, kek, Upserted(t, row, now)[row.path], i)
  {
    UpsertedRow(t, row, now);
    var r := Upserted(t, row, now)[row.path];
    RowOkIgnoresTimes(c, kek, row, r.id, r.createdAt, r.updatedAt);
    assert r.createdAt == i.createdAt;
  }

  lemma {:induction false} RefinesUpdate(c: Crypto, kek: Str, t: Secrets, m: Plain, p: Str, r: SecretRow, i: Item)
    requires Refines(c, kek, t, m) && IdsOk(t[p := r]) && r.path == p && Represents(c, kek, r, i)
    ensures Refines(c, kek, t[p := r], m[p := i])
  {
    var t', m' := t[p := r], m[p := i];
    forall q | q in t' ensures RowRefines(c, kek, t', m', q) {
      if q != p { assert RowRefines(c, kek, t, m, q); }
    }
  }

  /** Storing a row that represents an item. */
  lemma {:induction false} WriteRefines(c: Crypto, kek: Str, t: Secrets, m: Plain, row: SecretRow, i: Item, now: int)
    requires Refines(c, kek, t, m) && RowOk(c, kek, row)
    requires Represents(c, kek, row, i.(createdAt := row.createdAt))
    requires i.createdAt ==
      if row.path in t then t[row.path].createdAt else if row.createdAt == 0 then now else row.createdAt
    ensures Refines(c, kek, Upserted(t, row, now), m[row.path := i])
  {
    UpsertedRow(t, row, now);
    UpsertedIds(t, row, now);
    UpsertedRepresents(c, kek, t, row, i, now);
    RefinesUpdate(c, kek, t, m, row.path, Upserted(t, row, now)[row.path], i);
  }

  lemma {:induction false} DropRefines(c: Crypto, kek: Str, t: Secrets, m: Plain, path: Str, now: int)
    requires Refines(c, kek, t, m) && path in t
    ensures Refines(c, kek, Changed(t, Drop(path), now), m - {path})
  {
    DeletedDocs(t, path);
    var t', m' := t - {path}, m - {path};
    forall p | p in t' ensures RowRefines(c, kek, t', m', p) { assert RowRefines(c, kek, t, m, p); }
  }

  lemma {:induction false} FormRefines(env: Env, form: Form, t: Secrets, m: Plain, d: Draw, done: Reply, failed: Reply)
    requires AeadCorrect(env.crypto) && |env.kek| == KEK_SIZE && |d.nonce| == NONCE_SIZE
    requires Refines(env.crypto, env.kek, t, m)
    ensures StepRefines(env, WriteForm(env, form, Lookup(t, form.path), d, done, failed), t, d,
                        Step(done, [Event(WriteSecret, form.path)], WithForm(m, form, d)))
  {
    var existing := Lookup(t, form.path);
    var row := FormRow(form, existing, d.now);
    SealRowOk(env.crypto, env.kek, row, d.nonce, form.value);
    var stored := SealRow(env.crypto, env.kek, row, d.nonce, form.value).value;
    if existing.Some? { assert RowRefines(env.crypto, env.kek, t, m, form.path); }
    WriteRefines(env.crypto, env.kek, t, m, stored, WithForm(m, form, d)[form.path], d.storeNow);
  }

  /** A refusal changes nothing. */
  lemma {:induction false} RefusalKeeps(dec: Decoder, p: Principal, req: Request)
    ensures req.Put? && CheckPut(dec, p, req).Refused? ==> CheckPut(dec, p, req).outcome.change == Keep
  {}

  lemma {:induction false} SaveRefusalKeeps(dec: Decoder, req: Request)
    requires req.UiSave? && CheckSave(dec, req).Refused?
    ensures CheckSave(dec, req).outcome.change == Keep
  {}

  lemma {:induction false} PutRefines(env: Env, p: Principal, req: Request, t: Secrets, m: Plain, d: Draw)
    requires AeadCorrect(env.crypto) && |env.kek| == KEK_SIZE && |d.nonce| == NONCE_SIZE
    requires Refines(env.crypto, env.kek, t, m) && req.Put?
    ensures StepRefines(env, PutOutcome(env, p, req, Lookup(t, req.path), d), t, d, PlainPut(env.dec, p, req, m, d))
  {
    RefusalKeeps(env.dec, p, req);
    match CheckPut(env.dec, p, req)
    case Refused(_) =>
    case Accepted(form) =>
      AcceptedPath(env.dec, p, req);
      FormRefines(env, form, t, m, d, NoContent, ServerError);
  }

  lemma {:induction false} AcceptedPath(dec: Decoder, p: Principal, req: Request)
    requires req.Put? && CheckPut(dec, p, req).Accepted?
    ensures CheckPut(dec, p, req).form.path == req.path && CanAccess(p, req.path) && !ReadOnlyKey(p)
  {}

  lemma {:induction false} AcceptedSavePath(dec: Decoder, req: Request)
    requires req.UiSave? && CheckSave(dec, req).Accepted?
    ensures CheckSave(dec, req).form.path == TargetOf(req)
  {}

  lemma {:induction false} SaveRefines(env: Env, req: Request, t: Secrets, m: Plain, d: Draw)
    requires AeadCorrect(env.crypto) && |env.kek| == KEK_SIZE && |d.nonce| == NONCE_SIZE
    requires Refines(env.crypto, env.kek, t, m) && req.UiSave?
    ensures StepRefines(env, SaveOutcome(env, req, Lookup(t, TargetOf(req)), d), t, d, PlainSave(env.dec, req, m, d))
  {
    match CheckSave(env.dec, req)
    case Refused(_) => SaveRefusalKeeps(env.dec, req);
    case Accepted(form) =>
      AcceptedSavePath(env.dec, req);
      if form.value != [] {
        FormRefines(env, form, t, m, d, UiDone, UiFailed);
      } else if form.path in t {
        assert RowRefines(env.crypto, env.kek, t, m, form.path);
        FormRefines(env, form.(value := m[form.path].value), t, m, d, UiDone, UiFailed);
      }
  }

  lemma {:induction false} RenoteRefines(env: Env, path: Str, t: Secrets, m: Plain, n: Notes, d: Draw)
    requires AeadCorrect(env.crypto) && |env.kek| == KEK_SIZE && |d.nonce| == NONCE_SIZE
    requires Refines(env.crypto, env.kek, t, m) && path in t
    ensures StepRefines(env, Renote(env, path, t[path], n, d), t, d, PlainRenote(m, path, n))
  {
    assert RowRefines(env.crypto, env.kek, t, m, path);
    var r, i := t[path], m[path];
    var row := NotedRow(r, n, d.now);
    SealRowOk(env.crypto, env.kek, row, d.nonce, i.value);
    var stored := SealRow(env.crypto, env.kek, row, d.nonce, i.value).value;
    WriteRefines(env.crypto, env.kek, t, m, stored, WithNotes(i, n), d.storeNow);
  }

  lemma {:induction false} AnnotateRefines(env: Env, p: Principal, req: Request, t: Secrets, m: Plain, d: Draw)
    requires AeadCorrect(env.crypto) && |env.kek| == KEK_SIZE && |d.nonce| == NONCE_SIZE
    requires Refines(env.crypto, env.kek, t, m) && req.Annotate?
    ensures StepRefines(env, AnnotateOutcome(env, p, req, Lookup(t, req.path), d), t, d, PlainAnnotate(env.dec, p, req, m))
  {
    if req.path in t {
      assert RowRefines(env.crypto, env.kek, t, m, req.path);
      assert NotesOf(t[req.path]) == ItemNotes(m[req.path]);
      var n := Annotated(env.dec, req, NotesOf(t[req.path]));
      if n.Some? { RenoteRefines(env, req.path, t, m, n.value, d); }
    }
  }

  lemma {:induction false} DropStep(env: Env, t: Secrets, m: Plain, d: Draw, path: Str, reply: Reply,
                                    events: seq<Event>)
    requires Refines(env.crypto, env.kek, t, m) && path in t
    ensures StepRefines(env, Outcome(reply, Drop(path), events), t, d, Step(reply, events, m - {path}))
  {
    DropRefines(env.crypto, env.kek, t, m, path, d.storeNow);
  }

  lemma {:induction false} DeleteRefines(env: Env, p: Principal, req: Request, t: Secrets, m: Plain, d: Draw)
    requires Refines(env.crypto, env.kek, t, m) && req.Delete?
    ensures StepRefines(env, DeleteOutcome(p, req, Lookup(t, req.path)), t, d, PlainDelete(p, req, m))
  {
    if req.path in t { DropStep(env, t, m, d, req.path, NoContent, [Event(DeleteSecret, req.path)]); }
  }

  lemma {:induction false} UiDeleteRefines(env: Env, path: Str, t: Secrets, m: Plain, d: Draw)
    requires Refines(env.crypto, env.kek, t, m)
    ensures StepRefines(env, UiDeleteOutcome(path, Lookup(t, path)), t, d, PlainUiDelete(path, m))
  {
    if path in t { DropStep(env, t, m, d, path, UiDone, [Event(DeleteSecret, path)]); }
  }

  lemma {:induction false} GetRefines(env: Env, p: Principal, req: Request, t: Secrets, m: Plain, d: Draw)
    requires Refines(env.crypto, env.kek, t, m) && req.Get?
    ensures StepRefines(env, GetOutcome(env, p, req, Lookup(t, req.path)), t, d, PlainGet(p, req, m))
  {
    if req.path in t {
      assert RowRefines(env.crypto, env.kek, t, m, req.path);
      RowOkKey(env.crypto, env.kek, t[req.path]);
    }
  }

  lemma {:induction false} ItemRefines(env: Env, p: Principal, t: Secrets, m: Plain, path: Str, unmask: bool)
    requires Refines(env.crypto, env.kek, t, m)
    ensures ListOne(env, p, t, path, unmask).0 ==
      if CanAccess(p, path) && path in m then [ItemShown(m, path, unmask)] else []
    ensures ListOne(env, p, t, path, unmask).1 == []
  {
    if path in t {
      assert RowRefines(env.crypto, env.kek, t, m, path);
      RowOkKey(env.crypto, env.kek, t[path]);
    }
  }

  lemma {:induction false} ItemsRefine(env: Env, p: Principal, t: Secrets, m: Plain, paths: seq<Str>, unmask: bool)
    requires Refines(env.crypto, env.kek, t, m)
    ensures ListAll(env, p, t, paths, unmask).0 == PlainItems(p, m, paths, unmask)
    ensures ListAll(env, p, t, paths, unmask).1 == []
  {
    if paths != [] {
      ItemsRefine(env, p, t, m, paths[..|paths| - 1], unmask);
      ItemRefines(env, p, t, m, paths[|paths| - 1], unmask);
    }
  }

  lemma {:induction false} ListRefines(env: Env, p: Principal, req: Request, t: Secrets, m: Plain, d: Draw)
    requires Refines(env.crypto, env.kek, t, m) && req.List?
    ensures StepRefines(env, ListOutcome(env, p, req, t), t, d, PlainList(p, req, m))
  {
    var prefix := req.prefix;
    assert (set p | p in t && (prefix == [] || Like.Matches(prefix + [PERCENT], p, None))) ==
           (set p | p in m && (prefix == [] || Like.Matches(prefix + [PERCENT], p, None)));
    ItemsRefine(env, p, t, m, PlainPaths(m, prefix), req.unmask);
  }

  /** One request: the same reply, the same audit events, and the rows still represent the items. */
  lemma {:induction false} HandleRefines(env: Env, p: Principal, req: Request, t: Secrets, m: Plain, d: Draw)
    requires AeadCorrect(env.crypto) && |env.kek| == KEK_SIZE && |d.nonce| == NONCE_SIZE
    requires Refines(env.crypto, env.kek, t, m)
    ensures StepRefines(env, Handle(env, p, req, t, d), t, d, PlainHandle(env.dec, p, req, m, d))
  {
    match req
    case Put(_, _, _, _, _, _) => PutRefines(env, p, req, t, m, d);
    case Annotate(_, _, _, _, _, _) => AnnotateRefines(env, p, req, t, m, d);
    case UiSave(_, _, _, _, _, _, _) => SaveRefines(env, req, t, m, d);
    case Delete(_) => DeleteRefines(env, p, req, t, m, d);
    case UiDelete(_) => UiDeleteRefines(env, TargetOf(req), t, m, d);
    case Get(_) => GetRefines(env, p, req, t, m, d);
    case List(_, _) => ListRefines(env, p, req, t, m, d);
  }

  /** Where the read of a put fails although the row is there, the row is taken for missing: its value and creation time
      come out as they should, but its version restarts at 2. That is still 2 plus the description changes exactly when the
      row had version 2 and the put brings its description again. */
  lemma {:induction false} FailedReadRestartsVersion(env: Env, form: Form, t: Secrets, m: Plain, d: Draw,
                                                     done: Reply, failed: Reply)
    requires AeadCorrect(env.crypto) && |env.kek| == KEK_SIZE && |d.nonce| == NONCE_SIZE
    requires Refines(env.crypto, env.kek, t, m) && form.path in t
    ensures var o := WriteForm(env, form, None, d, done, failed);
      var r, i := Changed(t, o.change, d.storeNow)[form.path], WithForm(m, form, d)[form.path];
      RowOk(env.crypto, env.kek, r) && ValueOf(env.crypto, env.kek, r) == i.value && r.createdAt == i.createdAt &&
      r.version == 2 &&
      (r.version == 2 + i.edits <==> t[form.path].version == 2 && t[form.path].description == form.description)
  {
    var row := FormRow(form, None, d.now);
    SealRowOk(env.crypto, env.kek, row, d.nonce, form.value);
    var stored := SealRow(env.crypto, env.kek, row, d.nonce, form.value).value;
    UpsertedRow(t, stored, d.storeNow);
    var r := Upserted(t, stored, d.storeNow)[form.path];
    RowOkIgnoresTimes(env.crypto, env.kek, stored, r.id, r.createdAt, r.updatedAt);
    assert RowRefines(env.crypto, env.kek, t, m, form.path);
  }

  datatype Call = Call(p: Principal, req: Request, d: Draw)

  predicate NoncesOk(calls: seq<Call>) { forall i :: 0 <= i < |calls| ==> |calls[i].d.nonce| == NONCE_SIZE }

  /** The replies, the audit events and the table after handling the calls one after the other. */
  function ServeAll(env: Env, t: Secrets, calls: seq<Call>): (seq<(Reply, seq<Event>)>, Secrets)
    requires NoncesOk(calls)
    decreases |calls|
  {
    if calls == [] then ([], t) else
    var (o, t') := Served(env, calls[0].p, calls[0].req, t, calls[0].d);
    var rest := ServeAll(env, t', calls[1..]);
    ([(o.reply, o.events)] + rest.0, rest.1)
  }

  function PlainAll(dec: Decoder, m: Plain, calls: seq<Call>): (seq<(Reply, seq<Event>)>, Plain)
    decreases |calls|
  {
    if calls == [] then ([], m) else
    var s := PlainHandle(dec, calls[0].p, calls[0].req, m, calls[0].d);
    var rest := PlainAll(dec, s.m, calls[1..]);
    ([(s.reply, s.events)] + rest.0, rest.1)
  }

  /** Every sequential run: the encrypted vault gives the plain map's replies and still represents it at the end. */
  lemma {:induction false} RunRefines(env: Env, t: Secrets, m: Plain, calls: seq<Call>)
    requires AeadCorrect(env.crypto) && |env.kek| == KEK_SIZE && NoncesOk(calls)
    requires Refines(env.crypto, env.kek, t, m)
    ensures ServeAll(env, t, calls).0 == PlainAll(env.dec, m, calls).0
    ensures Refines(env.crypto, env.kek, ServeAll(env, t, calls).1, PlainAll(env.dec, m, calls).1)
    decreases |calls|
  {
    if calls != [] {
      var call := calls[0];
      HandleRefines(env, call.p, call.req, t, m, call.d);
      var (o, t') := Served(env, call.p, call.req, t, call.d);
      RunRefines(env, t', PlainHandle(env.dec, call.p, call.req, m, call.d).m, calls[1..]);
    }
  }

  /** The request writes a value of its own at the path. */
  predicate WritesValue(req: Request, path: Str)
  {
    (req.Put? && req.path == path) || (req.UiSave? && req.value != [] && TargetOf(req) == path)
  }

  /** An item that a request leaves in place keeps its creation time, and its value unless the request writes one;
      its edits grow by one exactly when its description changes. */
  predicate Continues(req: Request, path: Str, before: Item, after: Item)
  {
    after.createdAt == before.createdAt &&
    after.value == (if WritesValue(req, path) && after != before then req.value else before.value) &&
    after.edits == before.edits + if after.description != before.description then 1 else 0
  }

  lemma {:induction false} StepContinues(dec: Decoder, p: Principal, req: Request, m: Plain, d: Draw, path: Str)
    requires path in m && path in PlainHandle(dec, p, req, m, d).m
    ensures Continues(req, path, m[path], PlainHandle(dec, p, req, m, d).m[path])
  {
    match req
    case Put(_, _, _, _, _, _) => PutContinues(dec, p, req, m, d, path);
    case UiSave(_, _, _, _, _, _, _) => SaveContinues(dec, req, m, d, path);
    case Annotate(_, _, _, _, _, _) => AnnotateContinues(dec, p, req, m, path);
    case _ => ReadsAndDeletesKeep(dec, p, req, m, d, path);
  }

  lemma {:induction false} PutContinues(dec: Decoder, p: Principal, req: Request, m: Plain, d: Draw, path: Str)
    requires req.Put? && path in m && path in PlainPut(dec, p, req, m, d).m
    ensures Continues(req, path, m[path], PlainPut(dec, p, req, m, d).m[path])
  {
    if CheckPut(dec, p, req).Accepted? { AcceptedPath(dec, p, req); }
  }

  /** An annotation leaves everything alone, or notes down new columns on its one item. */
  lemma {:induction false} AnnotateForm(dec: Decoder, p: Principal, req: Request, m: Plain) returns (n: Notes)
    requires req.Annotate?
    ensures var m' := PlainAnnotate(dec, p, req, m).m;
      m' == m ||
      (req.path in m && CanAccess(p, req.path) && !ReadOnlyKey(p) && m' == m[req.path := WithNotes(m[req.path], n)])
  {
    n := Notes([], [], []);
    if req.path in m && Annotated(dec, req, ItemNotes(m[req.path])).Some? {
      n := Annotated(dec, req, ItemNotes(m[req.path])).value;
    }
  }

  lemma {:induction false} NotesContinue(req: Request, path: Str, i: Item, n: Notes)
    requires req.Annotate?
    ensures Continues(req, path, i, WithNotes(i, n)) && Continues(req, path, i, i)
  {}

  lemma {:induction false} AnnotateContinues(dec: Decoder, p: Principal, req: Request, m: Plain, path: Str)
    requires req.Annotate? && path in m && path in PlainAnnotate(dec, p, req, m).m
    ensures Continues(req, path, m[path], PlainAnnotate(dec, p, req, m).m[path])
  {
    var n := AnnotateForm(dec, p, req, m);
    NotesContinue(req, path, m[path], n);
  }

  lemma {:induction false} SaveContinues(dec: Decoder, req: Request, m: Plain, d: Draw, path: Str)
    requires req.UiSave? && path in m && path in PlainSave(dec, req, m, d).m
    ensures Continues(req, path, m[path], PlainSave(dec, req, m, d).m[path])
  {}

  lemma {:induction false} ReadsAndDeletesKeep(dec: Decoder, p: Principal, req: Request, m: Plain, d: Draw, path: Str)
    requires !req.Put? && !req.UiSave? && !req.Annotate?
    ensures PlainHandle(dec, p, req, m, d).m.Keys <= m.Keys
    ensures path in PlainHandle(dec, p, req, m, d).m ==> PlainHandle(dec, p, req, m, d).m[path] == m[path]
  {}

  /** An item that a request creates has no edits. */
  lemma {:induction false} StepCreates(dec: Decoder, p: Principal, req: Request, m: Plain, d: Draw, path: Str)
    requires path !in m && path in PlainHandle(dec, p, req, m, d).m
    ensures WritesValue(req, path)
    ensures var i := PlainHandle(dec, p, req, m, d).m[path];
      i.edits == 0 && i.value == req.value && i.createdAt == Created(d)
  {
    match req
    case Put(_, _, _, _, _, _) => if CheckPut(dec, p, req).Accepted? { AcceptedPath(dec, p, req); }
    case UiSave(_, _, _, _, _, _, _) =>
    case _ =>
  }

  /** The states of a run that starts empty. */
  ghost predicate History(dec: Decoder, calls: seq<Call>, states: seq<Plain>)
  {
    |states| == |calls| + 1 && states[0] == map[] &&
    forall i :: 0 <= i < |calls| ==> Follows(dec, calls, states, i)
  }

  ghost predicate Follows(dec: Decoder, calls: seq<Call>, states: seq<Plain>, i: nat)
    requires i < |calls| && |states| == |calls| + 1
  {
    states[i + 1] == PlainHandle(dec, calls[i].p, calls[i].req, states[i], calls[i].d).m
  }

  /** How often the description at the path has changed since the item was created. */
  function DescriptionChanges(states: seq<Plain>, path: Str): nat
  {
    if |states| < 2 || path !in states[|states| - 1] || path !in states[|states| - 2] then 0
    else
      var last := if states[|states| - 1][path].description != states[|states| - 2][path].description then 1 else 0;
      DescriptionChanges(states[..|states| - 1], path) + last
  }

  /** One step's effect on the edits of the item at a path. */
  lemma {:induction false} StepEdits(dec: Decoder, call: Call, m: Plain, m': Plain, path: Str)
    requires m' == PlainHandle(dec, call.p, call.req, m, call.d).m && path in m'
    ensures m'[path].edits ==
      if path !in m then 0 else m[path].edits + if m'[path].description != m[path].description then 1 else 0
  {
    if path in m {
      StepContinues(dec, call.p, call.req, m, call.d, path);
    } else {
      StepCreates(dec, call.p, call.req, m, call.d, path);
    }
  }

  lemma {:induction false} FollowsEdits(dec: Decoder, calls: seq<Call>, states: seq<Plain>, n: nat, path: Str)
    requires n < |calls| && |states| == |calls| + 1 && Follows(dec, calls, states, n) && path in states[n + 1]
    ensures states[n + 1][path].edits ==
      if path !in states[n] then 0
      else states[n][path].edits + if states[n + 1][path].description != states[n][path].description then 1 else 0
  {
    StepEdits(dec, calls[n], states[n], states[n + 1], path);
  }

  lemma {:induction false} ChangesStep(states: seq<Plain>, n: nat, path: Str)
    requires |states| == n + 2 && path in states[n + 1]
    ensures DescriptionChanges(states, path) ==
      if path !in states[n] then 0
      else DescriptionChanges(states[..n + 1], path) +
           if states[n + 1][path].description != states[n][path].description then 1 else 0
  {}

  lemma {:induction false} EditsCountChanges(dec: Decoder, calls: seq<Call>, states: seq<Plain>, path: Str)
    requires History(dec, calls, states) && path in states[|calls|]
    ensures states[|calls|][path].edits == DescriptionChanges(states, path)
    decreases |calls|
  {
    var n := |calls| - 1;
    assert Follows(dec, calls, states, n);
    FollowsEdits(dec, calls, states, n, path);
    ChangesStep(states, n, path);
    if path in states[n] {
      HistoryPrefix(dec, calls, states);
      EditsCountChanges(dec, calls[..n], states[..n + 1], path);
    }
  }

  lemma {:induction false} HistoryPrefix(dec: Decoder, calls: seq<Call>, states: seq<Plain>)
    requires History(dec, calls, states) && calls != []
    ensures History(dec, calls[..|calls| - 1], states[..|calls|])
  {
    var calls', states' := calls[..|calls| - 1], states[..|calls|];
    forall i | 0 <= i < |calls'| ensures Follows(dec, calls', states', i) { assert Follows(dec, calls, states, i); }
  }

  lemma {:induction false} HistoryEnd(dec: Decoder, calls: seq<Call>, states: seq<Plain>, k: nat)
    requires k <= |calls| && |states| == |calls| + 1
    requires forall i :: 0 <= i < |calls| ==> Follows(dec, calls, states, i)
    ensures PlainAll(dec, states[k], calls[k..]).1 == states[|calls|]
    decreases |calls| - k
  {
    if k < |calls| {
      assert Follows(dec, calls, states, k);
      assert calls[k..][1..] == calls[k + 1..];
      HistoryEnd(dec, calls, states, k + 1);
    }
  }

  /** From an empty vault: a stored version is 2 plus the number of description changes since the row was created. */
  lemma {:induction false} VersionCountsEdits(env: Env, calls: seq<Call>, states: seq<Plain>, path: Str)
    requires AeadCorrect(env.crypto) && |env.kek| == KEK_SIZE && NoncesOk(calls)
    requires History(env.dec, calls, states)
    requires path in ServeAll(env, map[], calls).1
    ensures path in states[|calls|]
    ensures ServeAll(env, map[], calls).1[path].version == 2 + DescriptionChanges(states, path)
  {
    var m: Plain := map[];
    RunRefines(env, map[], m, calls);
    HistoryEnd(env.dec, calls, states, 0);
    assert calls[0..] == calls;
    assert RowRefines(env.crypto, env.kek, ServeAll(env, map[], calls).1, states[|calls|], path);
    EditsCountChanges(env.dec, calls, states, path);
  }
}
