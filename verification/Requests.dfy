/** What the handlers answer and store, in the requests' own fields (internal/api/server.go, internal/api/ui_actions.go). */
module Requests {
  import opened Auth
  import opened Basics
  import opened CryptoPrimitives
  import opened MetadataJson
  import opened PlainVault
  import opened Store
  import opened Text
  import opened Vault
  import Scope
  import Tags
  import TagsTwice

  /** The premises of every request: a cipher, a key and a nonce of the right kind. */
  ghost predicate Ready(env: Env, d: Draw)
  {
    AeadCorrect(env.crypto) && |env.kek| == KEK_SIZE && |d.nonce| == NONCE_SIZE
  }

  /** A comma-separated piece of some tag trims to `x`. */
  predicate InTags(tags: seq<Str>, x: Str)
  {
    exists i, j :: 0 <= i < |tags| && 0 <= j < |Split(tags[i], COMMA)| && TrimSpace(Split(tags[i], COMMA)[j]) == x
  }

  predicate SomeLong(tags: seq<Str>)
  {
    exists i, j :: 0 <= i < |tags| && 0 <= j < |Split(tags[i], COMMA)| && |TrimSpace(Split(tags[i], COMMA)[j])| > 64
  }

  /** Clean comma-free tags are shown as they are. */
  lemma {:induction false} ShownTags(tags: seq<Str>)
    requires Tags.Clean(tags, {}) && Tags.CommaFree(tags)
    ensures SplitCsv(Join(tags, COMMA)) == tags
  {
    if tags != [] {
      Tags.JoinNotEmpty(tags);
      SplitJoin(tags, COMMA);
      NonBlankAll(tags);
    }
  }

  lemma {:induction false} NonBlankAll(tags: seq<Str>)
    requires forall i :: 0 <= i < |tags| ==> Trimmed(tags[i]) && tags[i] != []
    ensures NonBlank(tags) == tags
  {
    if tags != [] {
      TrimOfTrimmed(tags[0]);
      assert forall i :: 0 <= i < |tags| - 1 ==> tags[1..][i] == tags[i + 1];
      NonBlankAll(tags[1..]);
    }
  }

  lemma {:induction false} PieceOf(tags: seq<Str>, piece: Str)
    requires tags != []
    ensures piece in Split(Join(tags, COMMA), COMMA) <==> exists i :: 0 <= i < |tags| && piece in Split(tags[i], COMMA)
  {
    TagsTwice.SplitIsPieces(tags);
    InPieces(tags, piece);
  }

  lemma {:induction false} InPieces(tags: seq<Str>, piece: Str)
    ensures piece in TagsTwice.Pieces(tags) <==> exists i :: 0 <= i < |tags| && piece in Split(tags[i], COMMA)
  {
    if tags != [] {
      InPieces(tags[1..], piece);
      if i :| 0 <= i < |tags[1..]| && piece in Split(tags[1..][i], COMMA) { assert tags[i + 1] == tags[1..][i]; }
      if i :| 0 < i < |tags| && piece in Split(tags[i], COMMA) { assert tags[1..][i - 1] == tags[i]; }
    }
  }

  /** The pieces of the joined tags are the pieces of the tags. */
  lemma {:induction false} OffersJoined(tags: seq<Str>, x: Str)
    requires x != []
    ensures Tags.Offers(Split(Join(tags, COMMA), COMMA), x) <==> InTags(tags, x)
  {
    var pieces := Split(Join(tags, COMMA), COMMA);
    if tags == [] {
      IndexOfAbsent([], COMMA);
      assert pieces == [[]] && TrimSpace([]) == [];
    } else {
      if Tags.Offers(pieces, x) {
        var k :| 0 <= k < |pieces| && TrimSpace(pieces[k]) == x;
        PieceOf(tags, pieces[k]);
        assert pieces[k] in pieces;
        var i :| 0 <= i < |tags| && pieces[k] in Split(tags[i], COMMA);
        var j :| 0 <= j < |Split(tags[i], COMMA)| && Split(tags[i], COMMA)[j] == pieces[k];
      }
      if InTags(tags, x) {
        var i, j :| 0 <= i < |tags| && 0 <= j < |Split(tags[i], COMMA)| && TrimSpace(Split(tags[i], COMMA)[j]) == x;
        var piece := Split(tags[i], COMMA)[j];
        assert piece in Split(tags[i], COMMA);
        PieceOf(tags, piece);
        var k :| 0 <= k < |pieces| && pieces[k] == piece;
        assert TrimSpace(pieces[k]) == x;
      }
    }
  }

  lemma {:induction false} LongJoined(tags: seq<Str>)
    ensures SomeLong(tags) <==>
      exists k :: 0 <= k < |Split(Join(tags, COMMA), COMMA)| && |TrimSpace(Split(Join(tags, COMMA), COMMA)[k])| > 64
  {
    var pieces := Split(Join(tags, COMMA), COMMA);
    if k :| 0 <= k < |pieces| && |TrimSpace(pieces[k])| > 64 {
      var x := TrimSpace(pieces[k]);
      assert Tags.Offers(pieces, x);
      OffersJoined(tags, x);
      var i, j :| 0 <= i < |tags| && 0 <= j < |Split(tags[i], COMMA)| && TrimSpace(Split(tags[i], COMMA)[j]) == x;
    }
    if SomeLong(tags) {
      var i, j :| 0 <= i < |tags| && 0 <= j < |Split(tags[i], COMMA)| && |TrimSpace(Split(tags[i], COMMA)[j])| > 64;
      var x := TrimSpace(Split(tags[i], COMMA)[j]);
      OffersJoined(tags, x);
      var k :| 0 <= k < |pieces| && TrimSpace(pieces[k]) == x;
    }
  }

  // --- put ---

  /** The stored row of an accepted put or save. */
  lemma {:induction false} FormStored(env: Env, form: Form, existing: Option<SecretRow>, t: Secrets, d: Draw,
                                      done: Reply, failed: Reply)
    requires Ready(env, d)
    ensures var o := WriteForm(env, form, existing, d, done, failed);
      o.reply == done && o.change.Upsert? && o.events == [Event(WriteSecret, form.path)] &&
      var t' := Changed(t, o.change, d.storeNow);
      t'.Keys == t.Keys + {form.path} && (forall q :: q in t && q != form.path ==> t'[q] == t[q]) &&
      var r := t'[form.path];
      RowOk(env.crypto, env.kek, r) && OpenFresh(env.crypto, env.kek, r) == Ok(form.value) && r.path == form.path &&
      r.labelText == form.labelText && r.tags == form.tags && r.description == form.description &&
      r.metadata == form.metadata && r.updatedAt == d.storeNow
  {
    var row := FormRow(form, existing, d.now);
    SealRowOk(env.crypto, env.kek, row, d.nonce, form.value);
    var stored := SealRow(env.crypto, env.kek, row, d.nonce, form.value).value;
    UpsertedRow(t, stored, d.storeNow);
    var r := Upserted(t, stored, d.storeNow)[form.path];
    RowOkIgnoresTimes(env.crypto, env.kek, stored, r.id, r.createdAt, r.updatedAt);
  }

  /** And what the next get of its path answers. */
  lemma {:induction false} FormThenGet(env: Env, form: Form, existing: Option<SecretRow>, t: Secrets, d: Draw,
                                       done: Reply, failed: Reply, reader: Principal, later: Draw)
    requires Ready(env, d) && |later.nonce| == NONCE_SIZE && CanAccess(reader, form.path)
    ensures var o := WriteForm(env, form, existing, d, done, failed);
      var t' := Changed(t, o.change, d.storeNow);
      t'.Keys == t.Keys + {form.path} && (forall q :: q in t && q != form.path ==> t'[q] == t[q]) &&
      Handle(env, reader, Request.Get(form.path), t', later) == Outcome(
        Secret(form.path, form.value, OrEmpty(form.labelText), SplitCsv(form.tags), form.description, form.metadata,
               t'[form.path].version), Keep, [Event(Read, form.path)])
  {
    FormStored(env, form, existing, t, d, done, failed);
  }

  /** An object of the request that fits the limits. */
  predicate FieldsFit(fields: Option<map<Str, Str>>)
  {
    fields.Some? ==> |fields.value| <= 32 && forall k :: k in fields.value ==> |k| <= 64 && |fields.value[k]| <= 256
  }

  /** json.Decode yields only valid UTF-8. */
  ghost predicate FieldsValid(fields: Option<map<Str, Str>>) { fields.Some? ==> ValidTexts(fields.value) }

  function FieldsOrNone(fields: Option<map<Str, Str>>): map<Str, Str> { if fields.Some? then fields.value else map[] }

  lemma {:induction false} PutFields(dec: Decoder, fields: Option<map<Str, Str>>)
    requires DecoderCorrect(dec) && FieldsValid(fields)
    ensures var r := if fields.Some? then Normalized(dec, Marshal(fields.value)) else Some([LBRACE, RBRACE]);
      (r.Some? <==> FieldsFit(fields)) && (r.Some? ==> r.value == Marshal(FieldsOrNone(fields)))
  {
    if fields.Some? {
      NormalizeMarshal(dec, fields.value);
      FitsIff(fields.value);
    } else {
      MarshalEmpty();
    }
  }

  /** The tags of a put, each once. */
  lemma {:induction false} PutTags(req: Request) returns (tags: seq<Str>)
    requires req.Put?
    ensures Tags.NormalizedTags(Join(req.tags, COMMA)).Err? <==> |tags| > 20 || SomeLong(req.tags)
    ensures Tags.NormalizedTags(Join(req.tags, COMMA)).Ok? ==>
      Tags.NormalizedTags(Join(req.tags, COMMA)).value == Join(tags, COMMA)
    ensures forall x :: x in tags <==> x != [] && InTags(req.tags, x)
    ensures Tags.Clean(tags, {}) && Tags.CommaFree(tags)
  {
    tags := Tags.NormalizedTagsIff(Join(req.tags, COMMA));
    LongJoined(req.tags);
    forall x ensures x in tags <==> x != [] && InTags(req.tags, x) {
      if x != [] { OffersJoined(req.tags, x); }
    }
  }

  /** How a put is answered: forbidden to keys that may not write or whose scope does not reach the path (only the latter is
      audited), bad for a blank path, too long or too many tags, a long description or metadata beyond the limits, and
      otherwise done. */
  lemma {:induction false} PutReplyIff(env: Env, p: Principal, req: Request, t: Secrets, d: Draw)
    returns (tags: seq<Str>)
    requires req.Put? && Ready(env, d) && DecoderCorrect(env.dec) && FieldsValid(req.fields)
    ensures forall x :: x in tags <==> x != [] && InTags(req.tags, x)
    ensures forall i, j :: 0 <= i < j < |tags| ==> tags[i] != tags[j]
    ensures var o := Handle(env, p, req, t, d);
      var reached := p.kind == Kind.Operator || exists i :: 0 <= i < |p.scope| && Scope.Match(p.scope[i], req.path);
      var readOnly := p.kind == Kind.Key && !p.hasWrite;
      var bad := |tags| > 20 || SomeLong(req.tags) || |req.description| > 8192 || !FieldsFit(req.fields);
      if readOnly then o == Outcome(Forbidden, Keep, [])
      else if req.path == [] then o == Outcome(BadRequest, Keep, [])
      else if !reached then o == Outcome(Forbidden, Keep, [Event(DeniedOutOfScope, req.path)])
      else if bad then o == Outcome(BadRequest, Keep, [])
      else o.reply == NoContent && o.change.Upsert? && o.events == [Event(WriteSecret, req.path)]
  {
    tags := PutTags(req);
    PutFields(env.dec, req.fields);
    CanAccessIff(p, req.path);
    if CheckPut(env.dec, p, req).Accepted? {
      FormStored(env, CheckPut(env.dec, p, req).form, Lookup(t, req.path), t, d, NoContent, ServerError);
    }
  }

  /** And what a done put stores is what the next get of the path answers: the request's value, label, description, metadata
      and tags. No other path is touched. */
  lemma {:induction false} PutThenGet(env: Env, p: Principal, req: Request, t: Secrets, d: Draw, reader: Principal,
                                      later: Draw) returns (tags: seq<Str>)
    requires req.Put? && Ready(env, d) && |later.nonce| == NONCE_SIZE
    requires DecoderCorrect(env.dec) && FieldsValid(req.fields)
    requires Handle(env, p, req, t, d).reply == NoContent && CanAccess(reader, req.path)
    ensures forall x :: x in tags <==> x != [] && InTags(req.tags, x)
    ensures forall i, j :: 0 <= i < j < |tags| ==> tags[i] != tags[j]
    ensures var t' := Changed(t, Handle(env, p, req, t, d).change, d.storeNow);
      t'.Keys == t.Keys + {req.path} && (forall q :: q in t && q != req.path ==> t'[q] == t[q]) &&
      Handle(env, reader, Request.Get(req.path), t', later) == Outcome(
        Secret(req.path, req.value, req.labelText, tags, req.description,
               if req.fields.Some? then Marshal(req.fields.value) else [LBRACE, RBRACE], t'[req.path].version),
        Keep, [Event(Read, req.path)])
  {
    tags := PutTags(req);
    PutFields(env.dec, req.fields);
    MarshalEmpty();
    ShownTags(tags);
    var form := PutForm(env, p, req, t, d, tags);
    FormThenGet(env, form, Lookup(t, req.path), t, d, NoContent, ServerError, reader, later);
  }

  /** The form that a done put writes. */
  lemma {:induction false} PutForm(env: Env, p: Principal, req: Request, t: Secrets, d: Draw, tags: seq<Str>)
    returns (form: Form)
    requires req.Put? && Ready(env, d) && Handle(env, p, req, t, d).reply == NoContent
    requires Tags.NormalizedTags(Join(req.tags, COMMA)).Ok? ==>
      Tags.NormalizedTags(Join(req.tags, COMMA)).value == Join(tags, COMMA)
    requires var r := if req.fields.Some? then Normalized(env.dec, Marshal(req.fields.value)) else Some([LBRACE, RBRACE]);
      r.Some? ==> r.value == Marshal(FieldsOrNone(req.fields))
    ensures form == Form(req.path, req.value, if req.labelText == [] then None else Some(req.labelText),
                         Join(tags, COMMA), req.description, Marshal(FieldsOrNone(req.fields)))
    ensures Handle(env, p, req, t, d) == WriteForm(env, form, Lookup(t, req.path), d, NoContent, ServerError)
  {
    form := CheckPut(env.dec, p, req).form;
  }

  /** The version and the time stamps of the row: a new row starts at 2 with both stamps; otherwise the description's stamp
      and one version are for a new description, and the metadata's stamp for new metadata. The handler asks for the
      creation time that it read. */
  lemma {:induction false} FormTimes(env: Env, form: Form, t: Secrets, d: Draw, done: Reply, failed: Reply)
    requires Ready(env, d)
    ensures var o := WriteForm(env, form, Lookup(t, form.path), d, done, failed);
      var r := Changed(t, o.change, d.storeNow)[form.path];
      o.change.Upsert? && o.change.row.createdAt == (if form.path in t then t[form.path].createdAt else d.now) &&
      if form.path !in t then r.version == 2 && r.descUpdatedAt == r.metaUpdatedAt == Some(d.now)
      else
        r.version == t[form.path].version + (if form.description == t[form.path].description then 0 else 1) &&
        r.descUpdatedAt == (if form.description == t[form.path].description then None else Some(d.now)) &&
        r.metaUpdatedAt == (if form.metadata == t[form.path].metadata then None else Some(d.now))
  {
    FormStored(env, form, Lookup(t, form.path), t, d, done, failed);
  }

  // --- save ---

  /** The metadata of a save: an object that fits the limits, or blank. */
  predicate TextFits(dec: Decoder, raw: Str)
  {
    var t := TrimSpace(raw);
    t == [] || (dec(t).Some? && |dec(t).value| <= 32 &&
                forall k :: k in dec(t).value ==>
                  |k| <= 64 && dec(t).value[k].JsonString? && |dec(t).value[k].text| <= 256)
  }

  lemma {:induction false} SaveFields(dec: Decoder, raw: Str)
    requires DecoderCorrect(dec)
    ensures var t := TrimSpace(raw);
      var r := if t == [] then Some([LBRACE, RBRACE]) else Normalized(dec, t);
      (r.Some? <==> TextFits(dec, raw)) &&
      (r.Some? ==> dec(r.value) == if t == [] then Some(map[]) else dec(t))
  {
    TrimSpaceTrims(raw);
    TrimOfTrimmed(TrimSpace(raw));
    NormalizedIff(dec, TrimSpace(raw));
    NormalizedIff(dec, []);
  }

  /** The tags of a save, each once. */
  lemma {:induction false} SaveTags(req: Request) returns (tags: seq<Str>)
    requires req.UiSave?
    ensures Tags.NormalizedTags(TrimSpace(req.tagsCsv)).Err? <==> |tags| > 20 || SomeLong([TrimSpace(req.tagsCsv)])
    ensures Tags.NormalizedTags(TrimSpace(req.tagsCsv)).Ok? ==>
      Tags.NormalizedTags(TrimSpace(req.tagsCsv)).value == Join(tags, COMMA)
    ensures forall x :: x in tags <==> x != [] && InTags([TrimSpace(req.tagsCsv)], x)
    ensures Tags.Clean(tags, {}) && Tags.CommaFree(tags)
  {
    var csv := TrimSpace(req.tagsCsv);
    assert Join([csv], COMMA) == csv;
    tags := Tags.NormalizedTagsIff(csv);
    LongJoined([csv]);
    forall x ensures x in tags <==> x != [] && InTags([csv], x) {
      if x != [] { OffersJoined([csv], x); }
    }
  }

  /** The path of a save: the trimmed one, or else that of the edited secret. */
  function SavePath(req: Request): Str
    requires req.UiSave?
  {
    if TrimSpace(req.path) == [] then TrimSpace(req.original) else TrimSpace(req.path)
  }

  /** How a save on a right table is answered: it fails without a path, for bad tags, a long description or bad metadata,
      and without a value where none is stored. */
  lemma {:induction false} SaveReplyIff(env: Env, p: Principal, req: Request, t: Secrets, d: Draw)
    returns (tags: seq<Str>)
    requires req.UiSave? && Ready(env, d) && DecoderCorrect(env.dec) && AllOk(env.crypto, env.kek, t)
    ensures forall x :: x in tags <==> x != [] && InTags([TrimSpace(req.tagsCsv)], x)
    ensures forall i, j :: 0 <= i < j < |tags| ==> tags[i] != tags[j]
    ensures var o := Handle(env, p, req, t, d);
      var bad := SavePath(req) == [] || |tags| > 20 || SomeLong([TrimSpace(req.tagsCsv)]) || |req.description| > 8192 ||
        !TextFits(env.dec, req.metadata) || (req.value == [] && SavePath(req) !in t);
      if bad then o == Outcome(UiFailed, Keep, [])
      else o.reply == UiDone && o.change.Upsert? && o.events == [Event(WriteSecret, SavePath(req))]
  {
    tags := SaveTags(req);
    SaveFields(env.dec, req.metadata);
    var k := CheckSave(env.dec, req);
    if k.Accepted? && (k.form.value != [] || SavePath(req) in t) {
      var value := if k.form.value == [] then ValueOf(env.crypto, env.kek, t[SavePath(req)]) else k.form.value;
      FormStored(env, k.form.(value := value), Lookup(t, SavePath(req)), t, d, UiDone, UiFailed);
    }
  }

  /** And what a done save stores is what the next get answers: a blank value keeps the stored one. */
  lemma {:induction false} SaveThenGet(env: Env, p: Principal, req: Request, t: Secrets, d: Draw, reader: Principal,
                                       later: Draw) returns (tags: seq<Str>, metadata: Str)
    requires req.UiSave? && Ready(env, d) && |later.nonce| == NONCE_SIZE && DecoderCorrect(env.dec)
    requires AllOk(env.crypto, env.kek, t)
    requires Handle(env, p, req, t, d).reply == UiDone && CanAccess(reader, SavePath(req))
    ensures forall x :: x in tags <==> x != [] && InTags([TrimSpace(req.tagsCsv)], x)
    ensures forall i, j :: 0 <= i < j < |tags| ==> tags[i] != tags[j]
    ensures env.dec(metadata) == if TrimSpace(req.metadata) == [] then Some(map[]) else env.dec(TrimSpace(req.metadata))
    ensures req.value == [] ==> SavePath(req) in t
    ensures var t' := Changed(t, Handle(env, p, req, t, d).change, d.storeNow);
      t'.Keys == t.Keys + {SavePath(req)} && (forall q :: q in t && q != SavePath(req) ==> t'[q] == t[q]) &&
      Handle(env, reader, Request.Get(SavePath(req)), t', later) == Outcome(
        Secret(SavePath(req), if req.value == [] then ValueOf(env.crypto, env.kek, t[SavePath(req)]) else req.value,
               TrimSpace(req.labelText), tags, req.description, metadata, t'[SavePath(req)].version),
        Keep, [Event(Read, SavePath(req))])
  {
    tags := SaveTags(req);
    SaveFields(env.dec, req.metadata);
    var form := SavedForm(env, p, req, t, d);
    metadata := form.metadata;
    ShownTags(tags);
    FormThenGet(env, form, Lookup(t, SavePath(req)), t, d, UiDone, UiFailed, reader, later);
  }

  /** The form that a done save writes. */
  lemma {:induction false} SavedForm(env: Env, p: Principal, req: Request, t: Secrets, d: Draw) returns (form: Form)
    requires req.UiSave? && Ready(env, d) && AllOk(env.crypto, env.kek, t)
    requires Handle(env, p, req, t, d).reply == UiDone
    ensures CheckSave(env.dec, req).Accepted? && (req.value == [] ==> SavePath(req) in t)
    ensures form == CheckSave(env.dec, req).form.(
      value := if req.value == [] then ValueOf(env.crypto, env.kek, t[SavePath(req)]) else req.value)
    ensures form.path == SavePath(req)
    ensures Handle(env, p, req, t, d) == WriteForm(env, form, Lookup(t, SavePath(req)), d, UiDone, UiFailed)
  {
    form := CheckSave(env.dec, req).form;
    if req.value == [] { form := form.(value := ValueOf(env.crypto, env.kek, t[SavePath(req)])); }
  }

  // --- annotate ---

  /** The metadata after an annotation: what is removed, removed, and what is set, set over it. */
  function NewFields(req: Request, before: map<Str, Str>): map<Str, Str>
    requires req.Annotate?
  {
    map k | k in before.Keys + req.setFields.Keys && (k in req.setFields || k !in req.unset) ::
      if k in req.setFields then req.setFields[k] else before[k]
  }

  lemma {:induction false} NewFieldsIs(req: Request, before: map<Str, Str>)
    requires req.Annotate?
    ensures (before - Elements(req.unset)) + req.setFields == NewFields(req, before)
  {}

  function NewDescription(req: Request, row: SecretRow): Str
    requires req.Annotate?
  {
    if req.newDescription.Some? then req.newDescription.value else row.description
  }

  /** The tags that an annotation leaves: the old and the added ones that are not removed. */
  predicate NewTag(req: Request, was: Str, x: Str)
    requires req.Annotate?
  {
    x != [] && x !in req.remove && (InTags([was], x) || exists i :: 0 <= i < |req.add| && TrimSpace(req.add[i]) == x)
  }

  ghost predicate AreNewTags(req: Request, was: Str, tags: seq<Str>)
    requires req.Annotate?
  {
    (forall x :: x in tags <==> NewTag(req, was, x)) && Tags.Clean(tags, {}) &&
    forall i, j :: 0 <= i < j < |tags| ==> tags[i] != tags[j]
  }

  /** The notes of an annotation of a row. */
  lemma {:induction false} AnnotatedIff(dec: Decoder, req: Request, row: SecretRow, before: map<Str, Str>)
    returns (tags: seq<Str>)
    requires req.Annotate? && DecoderCorrect(dec) && row.metadata == Marshal(before)
    requires ValidTexts(before) && ValidTexts(req.setFields)
    ensures AreNewTags(req, row.tags, tags)
    ensures var n := Annotated(dec, req, NotesOf(row));
      (n.Some? <==> |tags| <= 20 && (req.newDescription.Some? ==> |req.newDescription.value| <= 8192) &&
                    FieldsFit(Some(NewFields(req, before)))) &&
      (n.Some? ==> n.value == Notes(Join(tags, COMMA), NewDescription(req, row), Marshal(NewFields(req, before))))
  {
    tags := AnnotatedTags(req, row);
    AnnotatedFields(dec, req, row, before);
    NotesFrom(dec, req, row, tags, NewFields(req, before));
  }

  lemma {:induction false} NotesFrom(dec: Decoder, req: Request, row: SecretRow, tags: seq<Str>, fields: map<Str, Str>)
    requires req.Annotate?
    requires var r := Tags.MergedTags(row.tags, req.add, req.remove);
      (r.Err? <==> |tags| > 20) && (r.Ok? ==> r.value == Join(tags, COMMA))
    requires MergedMetadata(dec, row.metadata, req.setFields, req.unset) ==
      if FieldsFit(Some(fields)) then Some(Marshal(fields)) else None
    ensures var n := Annotated(dec, req, NotesOf(row));
      (n.Some? <==> |tags| <= 20 && (req.newDescription.Some? ==> |req.newDescription.value| <= 8192) &&
                    FieldsFit(Some(fields))) &&
      (n.Some? ==> n.value == Notes(Join(tags, COMMA), NewDescription(req, row), Marshal(fields)))
  {}

  lemma {:induction false} AnnotatedTags(req: Request, row: SecretRow) returns (tags: seq<Str>)
    requires req.Annotate?
    ensures var r := Tags.MergedTags(row.tags, req.add, req.remove);
      (r.Err? <==> |tags| > 20) && (r.Ok? ==> r.value == Join(tags, COMMA))
    ensures AreNewTags(req, row.tags, tags)
  {
    tags := Tags.MergedTagsIff(row.tags, req.add, req.remove);
    assert Join([row.tags], COMMA) == row.tags;
    forall x ensures x in tags <==> NewTag(req, row.tags, x) {
      if x != [] { OffersJoined([row.tags], x); }
      assert Tags.Offers(req.add, x) <==> exists i :: 0 <= i < |req.add| && TrimSpace(req.add[i]) == x;
    }
  }

  lemma {:induction false} AnnotatedFields(dec: Decoder, req: Request, row: SecretRow, before: map<Str, Str>)
    requires req.Annotate? && DecoderCorrect(dec) && row.metadata == Marshal(before)
    requires ValidTexts(before) && ValidTexts(req.setFields)
    ensures MergedMetadata(dec, row.metadata, req.setFields, req.unset) ==
      if FieldsFit(Some(NewFields(req, before))) then Some(Marshal(NewFields(req, before))) else None
  {
    MergeIsOverride(dec, before, req.setFields, req.unset);
    NewFieldsIs(req, before);
    FitsIff(NewFields(req, before));
  }

  /** How an annotation of a right table is answered. */
  lemma {:induction false} AnnotateReplyIff(env: Env, p: Principal, req: Request, t: Secrets, d: Draw,
                                            before: map<Str, Str>) returns (tags: seq<Str>)
    requires req.Annotate? && Ready(env, d) && DecoderCorrect(env.dec) && AllOk(env.crypto, env.kek, t)
    requires req.path in t ==> t[req.path].metadata == Marshal(before)
    requires ValidTexts(before) && ValidTexts(req.setFields)
    ensures req.path in t ==> AreNewTags(req, t[req.path].tags, tags)
    ensures var o := Handle(env, p, req, t, d);
      var reached := p.kind == Kind.Operator || exists i :: 0 <= i < |p.scope| && Scope.Match(p.scope[i], req.path);
      if p.kind == Kind.Key && !p.hasWrite then o == Outcome(Forbidden, Keep, [])
      else if req.path == [] then o == Outcome(BadRequest, Keep, [])
      else if !reached then o == Outcome(Forbidden, Keep, [])
      else if req.path !in t then o == Outcome(Missing, Keep, [])
      else if |tags| > 20 || (req.newDescription.Some? && |req.newDescription.value| > 8192) ||
              !FieldsFit(Some(NewFields(req, before))) then o == Outcome(BadRequest, Keep, [])
      else
        var r := t[req.path];
        o.reply == NoContent &&
        if Join(tags, COMMA) == r.tags && NewDescription(req, r) == r.description &&
           Marshal(NewFields(req, before)) == r.metadata then o.change == Keep && o.events == []
        else o.change.Upsert? && o.events == [Event(AnnotateSecret, req.path)]
  {
    AnnotateReached(env, p, req, t, d);
    tags := [];
    if req.path in t {
      tags := AnnotatedIff(env.dec, req, t[req.path], before);
      AnnotateRowIff(env, req, t, d);
    }
  }

  lemma {:induction false} AnnotateReached(env: Env, p: Principal, req: Request, t: Secrets, d: Draw)
    requires req.Annotate? && |d.nonce| == NONCE_SIZE
    ensures var o := Handle(env, p, req, t, d);
      var reached := p.kind == Kind.Operator || exists i :: 0 <= i < |p.scope| && Scope.Match(p.scope[i], req.path);
      o == if p.kind == Kind.Key && !p.hasWrite then Outcome(Forbidden, Keep, [])
           else if req.path == [] then Outcome(BadRequest, Keep, [])
           else if !reached then Outcome(Forbidden, Keep, [])
           else if req.path !in t then Outcome(Missing, Keep, [])
           else AnnotateRow(env, req, t[req.path], d)
  {
    CanAccessIff(p, req.path);
  }

  lemma {:induction false} AnnotateRowIff(env: Env, req: Request, t: Secrets, d: Draw)
    requires req.Annotate? && Ready(env, d) && AllOk(env.crypto, env.kek, t) && req.path in t
    ensures var row := t[req.path];
      var n, o := Annotated(env.dec, req, NotesOf(row)), AnnotateRow(env, req, row, d);
      if n.None? then o == Outcome(BadRequest, Keep, [])
      else
        o.reply == NoContent &&
        if n.value == Notes(row.tags, row.description, row.metadata) then o.change == Keep && o.events == []
        else o.change.Upsert? && o.events == [Event(AnnotateSecret, req.path)]
  {
    var n := Annotated(env.dec, req, NotesOf(t[req.path]));
    if n.Some? { RenoteStored(env, req.path, t, n.value, d); }
  }

  lemma {:induction false} RenoteStored(env: Env, path: Str, t: Secrets, n: Notes, d: Draw)
    requires Ready(env, d) && AllOk(env.crypto, env.kek, t) && path in t
    ensures var o, row := Renote(env, path, t[path], n, d), t[path];
      o.reply == NoContent && (if n == NotesOf(row) then o.change == Keep && o.events == []
                               else o.change.Upsert? && o.events == [Event(AnnotateSecret, path)]) &&
      var t' := Changed(t, o.change, d.storeNow);
      t'.Keys == t.Keys && (forall q :: q in t && q != path ==> t'[q] == t[q]) &&
      var r := t'[path];
      RowOk(env.crypto, env.kek, r) && ValueOf(env.crypto, env.kek, r) == ValueOf(env.crypto, env.kek, row) &&
      r.path == path && r.labelText == row.labelText && r.tags == n.tags && r.description == n.description &&
      r.metadata == n.metadata && r.createdAt == row.createdAt &&
      r.version == row.version + (if n.description == row.description then 0 else 1) &&
      r.descUpdatedAt == (if n.description == row.description then row.descUpdatedAt else Some(d.now)) &&
      r.metaUpdatedAt == (if n.metadata == row.metadata then row.metaUpdatedAt else Some(d.now))
  {
    var row := t[path];
    if n != NotesOf(row) {
      var noted, value := NotedRow(row, n, d.now), ValueOf(env.crypto, env.kek, row);
      SealRowOk(env.crypto, env.kek, noted, d.nonce, value);
      var stored := SealRow(env.crypto, env.kek, noted, d.nonce, value).value;
      UpsertedRow(t, stored, d.storeNow);
      var r := Upserted(t, stored, d.storeNow)[path];
      RowOkIgnoresTimes(env.crypto, env.kek, stored, r.id, r.createdAt, r.updatedAt);
    }
  }

  /** What a done annotation leaves of the path's row, whether or not it had to write: the same value, label and creation
      time, the merged tags, the new description or the old one, and the metadata without what is removed and with what is
      set. No other path is touched. */
  lemma {:induction false} AnnotateStores(env: Env, p: Principal, req: Request, t: Secrets, d: Draw,
                                          before: map<Str, Str>) returns (tags: seq<Str>)
    requires req.Annotate? && Ready(env, d) && DecoderCorrect(env.dec) && AllOk(env.crypto, env.kek, t)
    requires Handle(env, p, req, t, d).reply == NoContent && req.path in t && t[req.path].metadata == Marshal(before)
    requires ValidTexts(before) && ValidTexts(req.setFields)
    ensures AreNewTags(req, t[req.path].tags, tags)
    ensures var t', row := Changed(t, Handle(env, p, req, t, d).change, d.storeNow), t[req.path];
      t'.Keys == t.Keys && (forall q :: q in t && q != req.path ==> t'[q] == t[q]) &&
      var r := t'[req.path];
      var description := if req.newDescription.Some? then req.newDescription.value else row.description;
      OpenFresh(env.crypto, env.kek, r) == OpenFresh(env.crypto, env.kek, row) && r.path == req.path &&
      r.labelText == row.labelText && r.createdAt == row.createdAt && r.tags == Join(tags, COMMA) &&
      r.description == description && r.metadata == Marshal(NewFields(req, before)) &&
      r.version == row.version + if description == row.description then 0 else 1
  {
    tags := AnnotatedIff(env.dec, req, t[req.path], before);
    AnnotateRenotes(env, p, req, t, d);
    RenoteOpens(env, req.path, t, Annotated(env.dec, req, NotesOf(t[req.path])).value, d);
  }

  lemma {:induction false} AnnotateRenotes(env: Env, p: Principal, req: Request, t: Secrets, d: Draw)
    requires req.Annotate? && |d.nonce| == NONCE_SIZE && Handle(env, p, req, t, d).reply == NoContent && req.path in t
    ensures Annotated(env.dec, req, NotesOf(t[req.path])).Some?
    ensures Handle(env, p, req, t, d) ==
      Renote(env, req.path, t[req.path], Annotated(env.dec, req, NotesOf(t[req.path])).value, d)
  {}

  lemma {:induction false} RenoteOpens(env: Env, path: Str, t: Secrets, n: Notes, d: Draw)
    requires Ready(env, d) && AllOk(env.crypto, env.kek, t) && path in t
    ensures var t', row := Changed(t, Renote(env, path, t[path], n, d).change, d.storeNow), t[path];
      t'.Keys == t.Keys && (forall q :: q in t && q != path ==> t'[q] == t[q]) &&
      var r := t'[path];
      OpenFresh(env.crypto, env.kek, r) == OpenFresh(env.crypto, env.kek, row) && r.path == path &&
      r.labelText == row.labelText && r.createdAt == row.createdAt && r.tags == n.tags &&
      r.description == n.description && r.metadata == n.metadata &&
      r.version == row.version + if n.description == row.description then 0 else 1
  {
    RenoteStored(env, path, t, n, d);
    RowOkKey(env.crypto, env.kek, t[path]);
    RowOkKey(env.crypto, env.kek, Changed(t, Renote(env, path, t[path], n, d).change, d.storeNow)[path]);
  }

  /** Where no kept addition has a comma, the tags are shown one by one. */
  lemma {:induction false} AnnotatedTagsShown(tags: seq<Str>)
    requires Tags.Clean(tags, {}) && forall i :: 0 <= i < |tags| ==> COMMA !in tags[i]
    ensures SplitCsv(Join(tags, COMMA)) == tags
  {
    ShownTags(tags);
  }

  // --- delete ---

  /** How a delete is answered, and that it removes the path and nothing else. */
  lemma {:induction false} DeleteReplyIff(env: Env, p: Principal, req: Request, t: Secrets, d: Draw)
    requires req.Delete? && |d.nonce| == NONCE_SIZE && IdsOk(t)
    ensures var o := Handle(env, p, req, t, d);
      var reached := p.kind == Kind.Operator || exists i :: 0 <= i < |p.scope| && Scope.Match(p.scope[i], req.path);
      if (p.kind == Kind.Key && !p.hasWrite) || !reached then o == Outcome(Forbidden, Keep, [])
      else if req.path !in t then o == Outcome(Missing, Keep, [])
      else
        o.reply == NoContent && o.events == [Event(DeleteSecret, req.path)] &&
        Changed(t, o.change, d.storeNow) == t - {req.path}
  {
    CanAccessIff(p, req.path);
    if req.path in t { DeletedDocs(t, req.path); }
  }

  lemma {:induction false} UiDeleteReplyIff(env: Env, p: Principal, req: Request, t: Secrets, d: Draw)
    requires req.UiDelete? && |d.nonce| == NONCE_SIZE && IdsOk(t)
    ensures var o, path := Handle(env, p, req, t, d), TrimSpace(req.path);
      if path == [] then o == Outcome(BadRequest, Keep, [])
      else if path !in t then o == Outcome(UiFailed, Keep, [])
      else
        o.reply == UiDone && o.events == [Event(DeleteSecret, path)] &&
        Changed(t, o.change, d.storeNow) == t - {path}
  {
    if TrimSpace(req.path) in t { DeletedDocs(t, TrimSpace(req.path)); }
  }

  /** The tags of a reply: the trimmed pieces that are not blank. */
  lemma {:induction false} SplitCsvIff(csv: Str, x: Str)
    ensures x in SplitCsv(csv) <==> x != [] && InTags([csv], x)
  {
    assert Join([csv], COMMA) == csv;
    if csv == [] {
      IndexOfAbsent([], COMMA);
      assert TrimSpace([]) == [] && Split(csv, COMMA) == [[]];
      if x != [] { OffersJoined([csv], x); }
    } else {
      NonBlankIff(Split(csv, COMMA), x);
      if x != [] { OffersJoined([csv], x); }
    }
  }

  lemma {:induction false} NonBlankIff(pieces: seq<Str>, x: Str)
    ensures x in NonBlank(pieces) <==> x != [] && Tags.Offers(pieces, x)
  {
    if pieces != [] {
      Tags.OffersStep(pieces, x);
      NonBlankIff(pieces[1..], x);
    }
  }
}
