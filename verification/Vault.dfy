/** What the secret handlers decide, given the row they read (internal/api/server.go, internal/api/ui_actions.go). */
module Vault {
  import opened Auth
  import opened Basics
  import opened CryptoPrimitives
  import opened MetadataJson
  import opened Store
  import opened Text
  import Tags

  const MAX_DESCRIPTION := 8192

  datatype Env = Env(crypto: Crypto, kek: Str, dec: Decoder)

  /** What a handler draws from outside: a nonce, its own clock reading, and the store's. */
  datatype Draw = Draw(nonce: Str, now: int, storeNow: int)

  datatype Request =
    | Put(path: Str, value: Str, labelText: Str, tags: seq<Str>, description: Str, fields: Option<map<Str, Str>>)
    | Annotate(path: Str, add: seq<Str>, remove: seq<Str>, newDescription: Option<Str>,
               setFields: map<Str, Str>, unset: seq<Str>)
    | UiSave(path: Str, original: Str, value: Str, labelText: Str, tagsCsv: Str, description: Str, metadata: Str)
    | Delete(path: Str)
    | UiDelete(path: Str)
    | Get(path: Str)
    | List(prefix: Str, unmask: bool)

  datatype ListItem = ListItem(path: Str, labelText: Str, tags: Str, description: Str, shown: Str)

  datatype Reply =
    | NoContent
    | Forbidden
    | BadRequest
    | Missing
    | ServerError
    | Secret(path: Str, value: Str, labelText: Str, tags: seq<Str>, description: Str, metadata: Str, version: int)
    | Items(items: seq<ListItem>)
    | UiFailed
    | UiDone
    | Rotated(token: Str)

  datatype Action =
    | Read | ReadList | ReadListReveal | WriteSecret | DeleteSecret | AnnotateSecret
    | DeniedOutOfScope | DecryptFailed | RotateOperator

  /** A call of auditAppend. */
  datatype Event = Event(action: Action, path: Str)

  /** What the handler then asks of the store. */
  datatype Change = Keep | Upsert(row: SecretRow) | Drop(path: Str)

  datatype Outcome = Outcome(reply: Reply, change: Change, events: seq<Event>)

  function Answer(reply: Reply): Outcome { Outcome(reply, Keep, []) }

  predicate ReadOnlyKey(p: Principal) { p.kind.Key? && !p.hasWrite }

  /** The values of a put or a save that has passed its checks. */
  datatype Form = Form(path: Str, value: Str, labelText: Option<Str>, tags: Str, description: Str, metadata: Str)

  datatype Checked = Refused(outcome: Outcome) | Accepted(form: Form)

  function NullIfEmpty(s: Str): Option<Str> { if s == [] then None else Some(s) }

  function OrEmpty(s: Option<Str>): Str { if s.Some? then s.value else [] }

  /** The checks of handlePutSecret. */
  function CheckPut(dec: Decoder, p: Principal, req: Request): Checked
    requires req.Put?
  {
    if ReadOnlyKey(p) then Refused(Answer(Forbidden))
    else if req.path == [] then Refused(Answer(BadRequest))
    else if !CanAccess(p, req.path) then Refused(Outcome(Forbidden, Keep, [Event(DeniedOutOfScope, req.path)]))
    else
      var tags := Tags.NormalizedTags(Join(req.tags, COMMA));
      var fields := if req.fields.Some? then Normalized(dec, Marshal(req.fields.value)) else Some([LBRACE, RBRACE]);
      if tags.Err? || |req.description| > MAX_DESCRIPTION || fields.None? then Refused(Answer(BadRequest))
      else Accepted(Form(req.path, req.value, NullIfEmpty(req.labelText), tags.value, req.description, fields.value))
  }

  /** The checks of handleUISecretSave; the path of an edited secret comes from the hidden field. */
  function CheckSave(dec: Decoder, req: Request): Checked
    requires req.UiSave?
  {
    var path := if TrimSpace(req.path) == [] then TrimSpace(req.original) else TrimSpace(req.path);
    if path == [] then Refused(Answer(UiFailed)) else
    var tags := Tags.NormalizedTags(TrimSpace(req.tagsCsv));
    var raw := TrimSpace(req.metadata);
    var fields := if raw == [] then Some([LBRACE, RBRACE]) else Normalized(dec, raw);
    if tags.Err? || |req.description| > MAX_DESCRIPTION || fields.None? then Refused(Answer(UiFailed))
    else Accepted(Form(path, req.value, NullIfEmpty(TrimSpace(req.labelText)), tags.value, req.description, fields.value))
  }

  /** Opening with the stored AAD, as annotate, save and rotate do. */
  function OpenStored(c: Crypto, kek: Str, r: SecretRow): Result<Str, CryptoError>
  {
    Open(c, kek, r.nonce + r.ciphertext, r.aad)
  }

  /** Opening with the recomputed AAD, as get and list do. */
  function OpenFresh(c: Crypto, kek: Str, r: SecretRow): Result<Str, CryptoError>
  {
    Open(c, kek, r.nonce + r.ciphertext, AADSecret(c, r.path, r.description, r.version))
  }

  /** The row with its value sealed for its own path, description and version. */
  function SealRow(c: Crypto, kek: Str, r: SecretRow, nonce: Str, plain: Str): Result<SecretRow, CryptoError>
    requires |nonce| == NONCE_SIZE
  {
    var aad := AADSecret(c, r.path, r.description, r.version);
    match Seal(c, kek, nonce, plain, aad)
    case Err(e) => Err(e)
    case Ok(sealed) => Ok(r.(ciphertext := sealed[NONCE_SIZE..], nonce := sealed[..NONCE_SIZE], aad := aad))
  }

  /** The unsealed row that put and save write over the row they read, if any. */
  function FormRow(form: Form, existing: Option<SecretRow>, now: int): SecretRow
  {
    var newDescription := existing.None? || existing.value.description != form.description;
    var newMetadata := existing.None? || existing.value.metadata != form.metadata;
    SecretRow(0, form.path, form.labelText, [], [], [], form.tags, form.description, form.metadata,
              if existing.Some? then existing.value.createdAt else now, 0,
              if newDescription then Some(now) else None, if newMetadata then Some(now) else None,
              (if existing.Some? then existing.value.version else 1) + if newDescription then 1 else 0)
  }

  function WriteForm(env: Env, form: Form, existing: Option<SecretRow>, d: Draw, done: Reply, failed: Reply): Outcome
    requires |d.nonce| == NONCE_SIZE
  {
    match SealRow(env.crypto, env.kek, FormRow(form, existing, d.now), d.nonce, form.value)
    case Err(_) => Answer(failed)
    case Ok(row) => Outcome(done, Upsert(row), [Event(WriteSecret, form.path)])
  }

  function PutOutcome(env: Env, p: Principal, req: Request, existing: Option<SecretRow>, d: Draw): Outcome
    requires req.Put? && |d.nonce| == NONCE_SIZE
  {
    match CheckPut(env.dec, p, req)
    case Refused(o) => o
    case Accepted(form) => WriteForm(env, form, existing, d, NoContent, ServerError)
  }

  /** A blank value keeps the one that is stored. */
  function SaveForm(env: Env, form: Form, existing: Option<SecretRow>, d: Draw): Outcome
    requires |d.nonce| == NONCE_SIZE
  {
    if form.value != [] then WriteForm(env, form, existing, d, UiDone, UiFailed)
    else if existing.None? then Answer(UiFailed)
    else match OpenStored(env.crypto, env.kek, existing.value)
      case Err(_) => Answer(UiFailed)
      case Ok(plain) => WriteForm(env, form.(value := plain), existing, d, UiDone, UiFailed)
  }

  function SaveOutcome(env: Env, req: Request, existing: Option<SecretRow>, d: Draw): Outcome
    requires req.UiSave? && |d.nonce| == NONCE_SIZE
  {
    match CheckSave(env.dec, req)
    case Refused(o) => o
    case Accepted(form) => SaveForm(env, form, existing, d)
  }

  /** The columns that an annotation changes, or None when the request is refused. */
  datatype Notes = Notes(tags: Str, description: Str, metadata: Str)

  function Annotated(dec: Decoder, req: Request, before: Notes): Option<Notes>
    requires req.Annotate?
  {
    var tags := Tags.MergedTags(before.tags, req.add, req.remove);
    var metadata := MergedMetadata(dec, before.metadata, req.setFields, req.unset);
    if tags.Err? || metadata.None? then None
    else if req.newDescription.None? then Some(Notes(tags.value, before.description, metadata.value))
    else if |req.newDescription.value| > MAX_DESCRIPTION then None
    else Some(Notes(tags.value, req.newDescription.value, metadata.value))
  }

  function NotesOf(r: SecretRow): Notes { Notes(r.tags, r.description, r.metadata) }

  function NotedRow(r: SecretRow, n: Notes, now: int): SecretRow
  {
    r.(tags := n.tags, description := n.description, metadata := n.metadata,
       version := if n.description != r.description then r.version + 1 else r.version,
       descUpdatedAt := if n.description != r.description then Some(now) else r.descUpdatedAt,
       metaUpdatedAt := if n.metadata != r.metadata then Some(now) else r.metaUpdatedAt)
  }

  /** The checks of handleAnnotateSecret in front of its read. */
  function CheckAnnotate(p: Principal, req: Request): Option<Reply>
    requires req.Annotate?
  {
    if ReadOnlyKey(p) then Some(Forbidden)
    else if req.path == [] then Some(BadRequest)
    else if !CanAccess(p, req.path) then Some(Forbidden)
    else None
  }

  /** An annotation of the row with the new columns; without a change there is no write. */
  function Renote(env: Env, path: Str, r: SecretRow, n: Notes, d: Draw): Outcome
    requires |d.nonce| == NONCE_SIZE
  {
    if n == NotesOf(r) then Answer(NoContent)
    else match OpenStored(env.crypto, env.kek, r)
      case Err(_) => Answer(ServerError)
      case Ok(plain) =>
        match SealRow(env.crypto, env.kek, NotedRow(r, n, d.now), d.nonce, plain)
        case Err(_) => Answer(ServerError)
        case Ok(row) => Outcome(NoContent, Upsert(row), [Event(AnnotateSecret, path)])
  }

  function AnnotateRow(env: Env, req: Request, r: SecretRow, d: Draw): Outcome
    requires req.Annotate? && |d.nonce| == NONCE_SIZE
  {
    match Annotated(env.dec, req, NotesOf(r))
    case None => Answer(BadRequest)
    case Some(n) => Renote(env, req.path, r, n, d)
  }

  function AnnotateOutcome(env: Env, p: Principal, req: Request, existing: Option<SecretRow>, d: Draw): Outcome
    requires req.Annotate? && |d.nonce| == NONCE_SIZE
  {
    match CheckAnnotate(p, req)
    case Some(reply) => Answer(reply)
    case None => if existing.None? then Answer(Missing) else AnnotateRow(env, req, existing.value, d)
  }

  function DeleteOutcome(p: Principal, req: Request, existing: Option<SecretRow>): Outcome
    requires req.Delete?
  {
    if ReadOnlyKey(p) then Answer(Forbidden)
    else if !CanAccess(p, req.path) then Answer(Forbidden)
    else if existing.None? then Answer(Missing)
    else Outcome(NoContent, Drop(req.path), [Event(DeleteSecret, req.path)])
  }

  /** handleUISecretDelete, for the trimmed path. */
  function UiDeleteOutcome(path: Str, existing: Option<SecretRow>): Outcome
  {
    if path == [] then Answer(BadRequest)
    else if existing.None? then Answer(UiFailed)
    else Outcome(UiDone, Drop(path), [Event(DeleteSecret, path)])
  }

  /** splitCSV. */
  function SplitCsv(csv: Str): seq<Str> { if csv == [] then [] else NonBlank(Split(csv, COMMA)) }

  function NonBlank(parts: seq<Str>): seq<Str>
  {
    if parts == [] then [] else
    (if TrimSpace(parts[0]) == [] then [] else [TrimSpace(parts[0])]) + NonBlank(parts[1..])
  }

  function GetOutcome(env: Env, p: Principal, req: Request, existing: Option<SecretRow>): Outcome
    requires req.Get?
  {
    if !CanAccess(p, req.path) then Outcome(Forbidden, Keep, [Event(DeniedOutOfScope, req.path)])
    else match existing
      case None => Answer(Missing)
      case Some(r) =>
        match OpenFresh(env.crypto, env.kek, r)
        case Err(_) => Outcome(ServerError, Keep, [Event(DecryptFailed, req.path)])
        case Ok(plain) =>
          Outcome(Secret(r.path, plain, OrEmpty(r.labelText), SplitCsv(r.tags), r.description, r.metadata, r.version),
                  Keep, [Event(Read, req.path)])
  }

  const STARS: Str := [42, 42, 42]

  /** maskSecretValue. */
  function Masked(v: Str): Str { if |v| > 10 then v[..6] + STARS else STARS }

  /** What the list shows of one path, and the events of showing it. */
  function ListOne(env: Env, p: Principal, t: Secrets, path: Str, unmask: bool): (seq<ListItem>, seq<Event>)
  {
    if !CanAccess(p, path) || path !in t then ([], [])
    else match OpenFresh(env.crypto, env.kek, t[path])
      case Err(_) => ([], [Event(DecryptFailed, path)])
      case Ok(plain) =>
        ([ListItem(t[path].path, OrEmpty(t[path].labelText), t[path].tags, t[path].description,
                   if unmask then plain else Masked(plain))], [])
  }

  function ListAll(env: Env, p: Principal, t: Secrets, paths: seq<Str>, unmask: bool): (seq<ListItem>, seq<Event>)
  {
    if paths == [] then ([], []) else
    var front := ListAll(env, p, t, paths[..|paths| - 1], unmask);
    var last := ListOne(env, p, t, paths[|paths| - 1], unmask);
    (front.0 + last.0, front.1 + last.1)
  }

  /** The list over these paths, and the event that closes it. */
  function ListReply(env: Env, p: Principal, t: Secrets, paths: seq<Str>, unmask: bool): Outcome
  {
    var (items, events) := ListAll(env, p, t, paths, unmask);
    Outcome(Items(items), Keep, events + [Event(if unmask then ReadListReveal else ReadList, [])])
  }

  function ListOutcome(env: Env, p: Principal, req: Request, t: Secrets): Outcome
    requires req.List?
  {
    ListReply(env, p, t, ListedPaths(t, req.prefix), req.unmask)
  }

  /** Which reads of a listing fail: that of the paths, or those of some rows. */
  datatype ReadFaults = ReadFaults(pathsFail: bool, unreadable: set<Str>)

  const NO_READ_FAULT := ReadFaults(false, {})

  function Readable(t: Secrets, unreadable: set<Str>): Secrets { map path | path in t && path !in unreadable :: t[path] }

  /** The list when reads fail: no list, or one without the rows that cannot be read. */
  function FaultyListOutcome(env: Env, p: Principal, req: Request, t: Secrets, missed: ReadFaults): Outcome
    requires req.List?
  {
    if missed.pathsFail then Answer(ServerError)
    else ListReply(env, p, Readable(t, missed.unreadable), ListedPaths(t, req.prefix), req.unmask)
  }

  lemma {:induction false} FaultlessList(env: Env, p: Principal, req: Request, t: Secrets)
    requires req.List?
    ensures FaultyListOutcome(env, p, req, t, NO_READ_FAULT) == ListOutcome(env, p, req, t)
  {
    assert Readable(t, {}) == t;
  }

  /** What showing the list of secrets on a page adds to the audit trail (loadSecretsData and uiSecretRows). */
  function PageEvents(env: Env, p: Principal, t: Secrets, missed: ReadFaults): seq<Event>
  {
    if missed.pathsFail then [] else ListAll(env, p, Readable(t, missed.unreadable), ListedPaths(t, []), false).1
  }

  /** On a right table it adds nothing. */
  lemma {:induction false} PageIsSilent(env: Env, p: Principal, t: Secrets, missed: ReadFaults)
    requires AllOk(env.crypto, env.kek, t)
    ensures PageEvents(env, p, t, missed) == []
  {
    if !missed.pathsFail { ListIsSilent(env, p, Readable(t, missed.unreadable), ListedPaths(t, [])); }
  }

  lemma {:induction false} ListIsSilent(env: Env, p: Principal, t: Secrets, paths: seq<Str>)
    requires AllOk(env.crypto, env.kek, t)
    ensures ListAll(env, p, t, paths, false).1 == []
  {
    if paths != [] {
      ListIsSilent(env, p, t, paths[..|paths| - 1]);
      var path := paths[|paths| - 1];
      if path in t { RowOkKey(env.crypto, env.kek, t[path]); }
    }
  }

  /** The replies that come with the page of secrets. */
  predicate ShowsPage(reply: Reply) { reply.UiDone? || reply.UiFailed? }

  /** The path that the request's handler looks up. */
  function TargetOf(req: Request): Str
  {
    match req
    case UiSave(path, original, _, _, _, _, _) => if TrimSpace(path) == [] then TrimSpace(original) else TrimSpace(path)
    case UiDelete(path) => TrimSpace(path)
    case List(_, _) => []
    case _ => req.path
  }

  function Lookup(t: Secrets, path: Str): Option<SecretRow> { if path in t then Some(t[path]) else None }

  /** The table as put, save, annotate and get read it: they take a failed read for "no row". */
  function Seen(t: Secrets, readFails: bool): Secrets { if readFails then map[] else t }

  /** What the handler of a request does, on the table it reads. */
  function Handle(env: Env, p: Principal, req: Request, t: Secrets, d: Draw): Outcome
    requires |d.nonce| == NONCE_SIZE
  {
    var existing := Lookup(t, TargetOf(req));
    match req
    case Put(_, _, _, _, _, _) => PutOutcome(env, p, req, existing, d)
    case Annotate(_, _, _, _, _, _) => AnnotateOutcome(env, p, req, existing, d)
    case UiSave(_, _, _, _, _, _, _) => SaveOutcome(env, req, existing, d)
    case Delete(_) => DeleteOutcome(p, req, existing)
    case UiDelete(_) => UiDeleteOutcome(TargetOf(req), existing)
    case Get(_) => GetOutcome(env, p, req, existing)
    case List(_, _) => ListOutcome(env, p, req, t)
  }

  /** The table after the store has carried out a change. */
  function Changed(t: Secrets, change: Change, storeNow: int): Secrets
  {
    match change
    case Keep => t
    case Upsert(row) => Upserted(t, row, storeNow)
    case Drop(path) => if path in t then WithoutId(t, t[path].id) else t
  }

  /** A row whose stored AAD is the one of its own columns, and which opens under the key. */
  predicate RowOk(c: Crypto, kek: Str, r: SecretRow)
  {
    r.aad == AADSecret(c, r.path, r.description, r.version) && OpenStored(c, kek, r).Ok?
  }

  /** The value in the row. */
  function ValueOf(c: Crypto, kek: Str, r: SecretRow): Str
    requires RowOk(c, kek, r)
  {
    OpenStored(c, kek, r).value
  }

  /** Every row is right and stands under its own path. */
  predicate AllOk(c: Crypto, kek: Str, t: Secrets)
  {
    forall p :: p in t ==> t[p].path == p && RowOk(c, kek, t[p])
  }

  /** Sealing makes a right row that holds the value; it fails only for a key of the wrong size. */
  lemma {:induction false} SealRowOk(c: Crypto, kek: Str, r: SecretRow, nonce: Str, plain: Str)
    requires AeadCorrect(c) && |nonce| == NONCE_SIZE
    ensures SealRow(c, kek, r, nonce, plain).Ok? <==> |kek| == KEK_SIZE
    ensures |kek| == KEK_SIZE ==>
      var row := SealRow(c, kek, r, nonce, plain).value;
      RowOk(c, kek, row) && ValueOf(c, kek, row) == plain &&
      row == r.(ciphertext := row.ciphertext, nonce := row.nonce, aad := row.aad)
  {
    if |kek| == KEK_SIZE { OpenSealed(c, kek, nonce, plain, AADSecret(c, r.path, r.description, r.version)); }
  }

  /** A row that opens shows that the key has the right size. */
  lemma {:induction false} RowOkKey(c: Crypto, kek: Str, r: SecretRow)
    requires RowOk(c, kek, r)
    ensures |kek| == KEK_SIZE && OpenFresh(c, kek, r) == OpenStored(c, kek, r)
  {}

  lemma {:induction false} UpsertedRow(t: Secrets, row: SecretRow, now: int)
    ensures var r := Upserted(t, row, now)[row.path];
      r == row.(id := r.id, createdAt := r.createdAt, updatedAt := r.updatedAt)
    ensures Upserted(t, row, now) == t[row.path := Upserted(t, row, now)[row.path]]
  {}

  /** Ids and times play no part in a row's being right. */
  lemma {:induction false} RowOkIgnoresTimes(c: Crypto, kek: Str, r: SecretRow, id: int, createdAt: int, updatedAt: int)
    requires RowOk(c, kek, r)
    ensures RowOk(c, kek, r.(id := id, createdAt := createdAt, updatedAt := updatedAt))
    ensures ValueOf(c, kek, r.(id := id, createdAt := createdAt, updatedAt := updatedAt)) == ValueOf(c, kek, r)
  {}

  lemma {:induction false} ChangedOk(c: Crypto, kek: Str, t: Secrets, change: Change, storeNow: int)
    requires AllOk(c, kek, t) && (change.Upsert? ==> RowOk(c, kek, change.row))
    ensures AllOk(c, kek, Changed(t, change, storeNow))
  {
    if change.Upsert? {
      var row := change.row;
      UpsertedRow(t, row, storeNow);
      var r := Upserted(t, row, storeNow)[row.path];
      RowOkIgnoresTimes(c, kek, row, r.id, r.createdAt, r.updatedAt);
    }
  }

  /** Whatever right row the handler read, the row it asks to store is right. */
  lemma {:induction false} HandleWritesOk(env: Env, p: Principal, req: Request, t: Secrets, d: Draw)
    requires AeadCorrect(env.crypto) && |d.nonce| == NONCE_SIZE
    ensures Handle(env, p, req, t, d).change.Upsert? ==>
      RowOk(env.crypto, env.kek, Handle(env, p, req, t, d).change.row)
  {
    var existing := Lookup(t, TargetOf(req));
    match req {
      case Put(_, _, _, _, _, _) =>
        var k := CheckPut(env.dec, p, req);
        if k.Accepted? { SealRowOk(env.crypto, env.kek, FormRow(k.form, existing, d.now), d.nonce, k.form.value); }
      case UiSave(_, _, _, _, _, _, _) =>
        SaveWritesOk(env, req, existing, d);
      case Annotate(_, _, _, _, _, _) =>
        if existing.Some? { AnnotateWritesOk(env, req, existing.value, d); }
      case _ =>
    }
  }

  lemma {:induction false} SaveWritesOk(env: Env, req: Request, existing: Option<SecretRow>, d: Draw)
    requires AeadCorrect(env.crypto) && |d.nonce| == NONCE_SIZE && req.UiSave?
    ensures SaveOutcome(env, req, existing, d).change.Upsert? ==>
      RowOk(env.crypto, env.kek, SaveOutcome(env, req, existing, d).change.row)
  {
    var k := CheckSave(env.dec, req);
    if k.Accepted? {
      var row := FormRow(k.form, existing, d.now);
      SealRowOk(env.crypto, env.kek, row, d.nonce, k.form.value);
      if existing.Some? && OpenStored(env.crypto, env.kek, existing.value).Ok? {
        SealRowOk(env.crypto, env.kek, row, d.nonce, OpenStored(env.crypto, env.kek, existing.value).value);
      }
    }
  }

  lemma {:induction false} RenoteWritesOk(env: Env, path: Str, r: SecretRow, n: Notes, d: Draw)
    requires AeadCorrect(env.crypto) && |d.nonce| == NONCE_SIZE
    ensures Renote(env, path, r, n, d).change.Upsert? ==>
      RowOk(env.crypto, env.kek, Renote(env, path, r, n, d).change.row)
  {
    var plain := OpenStored(env.crypto, env.kek, r);
    if plain.Ok? { SealRowOk(env.crypto, env.kek, NotedRow(r, n, d.now), d.nonce, plain.value); }
  }

  lemma {:induction false} AnnotateWritesOk(env: Env, req: Request, r: SecretRow, d: Draw)
    requires AeadCorrect(env.crypto) && |d.nonce| == NONCE_SIZE && req.Annotate?
    ensures AnnotateRow(env, req, r, d).change.Upsert? ==>
      RowOk(env.crypto, env.kek, AnnotateRow(env, req, r, d).change.row)
  {
    var notes := Annotated(env.dec, req, NotesOf(r));
    if notes.Some? { RenoteWritesOk(env, req.path, r, notes.value, d); }
  }
}
