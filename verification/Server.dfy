/** The secret handlers over a store and an audit trail (internal/api/server.go, internal/api/ui_actions.go). */
module Server {
  import opened Auth
  import opened Basics
  import opened CryptoPrimitives
  import opened MetadataJson
  import opened Operators
  import opened Store
  import opened Text
  import opened Vault
  import PlainVault
  import Rotation
  import Sorting
  import Tags

  /** The database and the audit calls made so far. */
  datatype World = World(db: Db, trail: seq<Event>)

  function Emit(trail: seq<Event>, events: seq<Event>): seq<Event> { if events == [] then trail else trail + events }

  /** The world and the reply after a handler's outcome meets the store; a failed store call is not audited. */
  function Settled(w: World, o: Outcome, d: Draw, fault: Fault, failed: Reply): (World, Reply)
  {
    var stored := fault.NoFault? && w.db.secretsFts.Working?;
    match o.change
    case Keep => (World(w.db, Emit(w.trail, o.events)), o.reply)
    case Upsert(row) =>
      (World(AfterPut(w.db, row, d.storeNow, fault), if stored then Emit(w.trail, o.events) else w.trail),
       if stored then o.reply else failed)
    case Drop(path) =>
      (World(AfterDelete(w.db, path, fault), if stored then Emit(w.trail, o.events) else w.trail),
       if stored then o.reply else failed)
  }

  /** A page handler shows the list of secrets behind its alert, on the table as it is then. */
  function Shown(env: Env, p: Principal, after: (World, Reply), missed: ReadFaults): (World, Reply)
  {
    var (w, reply) := after;
    if ShowsPage(reply) then (w.(trail := w.trail + PageEvents(env, p, w.db.secrets, missed)), reply) else after
  }

  ghost predicate WorldOk(env: Env, w: World)
  {
    AeadCorrect(env.crypto) && |env.kek| == KEK_SIZE && Consistent(w.db) && AllOk(env.crypto, env.kek, w.db.secrets)
  }

  class Server {
    const crypto: Crypto
    const kek: Str
    const dec: Decoder
    const store: Store
    const operatorName: Str
    /** The calls of auditAppend. */
    var trail: seq<Event>
    var operators: OperatorTable

    constructor (crypto: Crypto, kek: Str, dec: Decoder, store: Store, operatorName: Str, operators: OperatorTable)
      ensures this.crypto == crypto && this.kek == kek && this.dec == dec && this.store == store && trail == []
      ensures this.operatorName == operatorName && this.operators == operators
    {
      this.crypto, this.kek, this.dec, this.store, this.trail := crypto, kek, dec, store, [];
      this.operatorName, this.operators := operatorName, operators;
    }

    function TheEnv(): Env { Env(crypto, kek, dec) }

    function TheWorld(): World
      reads this, store
    {
      World(store.Contents(), trail)
    }

    /** What every handler but rotation keeps: the tables agree with their indexes, and every row opens under the key. */
    ghost predicate Valid()
      reads this, store
    {
      WorldOk(TheEnv(), TheWorld())
    }

    method StoreAndAudit(sec: SecretRow, d: Draw, fault: Fault, event: Event, done: Reply, failed: Reply)
      returns (reply: Reply)
      modifies this`trail, store
      ensures (TheWorld(), reply) == Settled(old(TheWorld()), Outcome(done, Upsert(sec), [event]), d, fault, failed)
    {
      var stored, _ := store.PutSecret(sec, d.storeNow, fault);
      if stored.Err? { return failed; }
      trail := trail + [event];
      return done;
    }

    /** What put and save share once their fields are checked: version, times, and the seal. */
    method BuildRow(form: Form, existing: Option<SecretRow>, d: Draw) returns (r: Result<SecretRow, CryptoError>)
      requires |d.nonce| == NONCE_SIZE
      ensures r == SealRow(crypto, kek, FormRow(form, existing, d.now), d.nonce, form.value)
    {
      var version, createdAt := 1, d.now;
      var descUpdated, metaUpdated := None, None;
      if existing.Some? { version, createdAt := existing.value.version, existing.value.createdAt; }
      if existing.None? || existing.value.description != form.description {
        version, descUpdated := version + 1, Some(d.now);
      }
      if existing.None? || existing.value.metadata != form.metadata { metaUpdated := Some(d.now); }
      var aad := AADSecret(crypto, form.path, form.description, version);
      var sealed := Seal(crypto, kek, d.nonce, form.value, aad);
      if sealed.Err? { return Err(sealed.error); }
      var ct, nonce := sealed.value[NONCE_SIZE..], sealed.value[..NONCE_SIZE];
      return Ok(SecretRow(0, form.path, form.labelText, ct, nonce, aad, form.tags, form.description, form.metadata,
                          createdAt, 0, descUpdated, metaUpdated, version));
    }

    /** Then they store it and audit the write. */
    method SealAndStore(form: Form, existing: Option<SecretRow>, d: Draw, fault: Fault, done: Reply, failed: Reply)
      returns (reply: Reply)
      requires |d.nonce| == NONCE_SIZE
      modifies this`trail, store
      ensures (TheWorld(), reply) ==
        Settled(old(TheWorld()), WriteForm(TheEnv(), form, existing, d, done, failed), d, fault, failed)
    {
      var sec := BuildRow(form, existing, d);
      if sec.Err? { return failed; }
      reply := StoreAndAudit(sec.value, d, fault, Event(WriteSecret, form.path), done, failed);
    }

    /** What GetSecret finds where the caller treats every error as "no row". */
    function Found(path: Str, readFails: bool): Option<SecretRow>
      reads this, store
    {
      if readFails then None else store.Find(path)
    }

    method HandlePutSecret(p: Principal, req: Request, d: Draw, readFails: bool, fault: Fault) returns (reply: Reply)
      requires req.Put? && |d.nonce| == NONCE_SIZE
      modifies this`trail, store
      ensures (TheWorld(), reply) ==
        Settled(old(TheWorld()), PutOutcome(TheEnv(), p, req, Lookup(Seen(old(store.secrets), readFails), req.path), d),
                d, fault, ServerError)
    {
      if p.kind.Key? && !p.hasWrite { return Forbidden; }
      if req.path == [] { return BadRequest; }
      if !CanAccess(p, req.path) {
        trail := trail + [Event(DeniedOutOfScope, req.path)];
        return Forbidden;
      }
      var tags := Tags.NormalizeTags(Join(req.tags, COMMA));
      if tags.Err? { return BadRequest; }
      if |req.description| > MAX_DESCRIPTION { return BadRequest; }
      var metaJson := [LBRACE, RBRACE];
      if req.fields.Some? {
        var normalized := NormalizeMetadata(dec, Marshal(req.fields.value));
        if normalized.None? { return BadRequest; }
        metaJson := normalized.value;
      }
      var existing := Found(req.path, readFails);
      var form := Form(req.path, req.value, NullIfEmpty(req.labelText), tags.value, req.description, metaJson);
      reply := SealAndStore(form, existing, d, fault, NoContent, ServerError);
    }

    /** The checks of handleUISecretSave. */
    method CheckSaveFields(req: Request) returns (k: Checked)
      requires req.UiSave?
      ensures k == CheckSave(dec, req)
    {
      var path, original := TrimSpace(req.path), TrimSpace(req.original);
      if path == [] { path := original; }
      var metaRaw := TrimSpace(req.metadata);
      if path == [] { return Refused(Answer(UiFailed)); }
      var tags := Tags.NormalizeTags(TrimSpace(req.tagsCsv));
      if tags.Err? { return Refused(Answer(UiFailed)); }
      if |req.description| > MAX_DESCRIPTION { return Refused(Answer(UiFailed)); }
      var metaJson := [LBRACE, RBRACE];
      if metaRaw != [] {
        var normalized := NormalizeMetadata(dec, metaRaw);
        if normalized.None? { return Refused(Answer(UiFailed)); }
        metaJson := normalized.value;
      }
      var labelText := NullIfEmpty(TrimSpace(req.labelText));
      return Accepted(Form(path, req.value, labelText, tags.value, req.description, metaJson));
    }

    /** What handleUISecretSave does with a form that has passed its checks. */
    method SaveChecked(checked: Form, d: Draw, readFails: bool, fault: Fault) returns (reply: Reply)
      requires |d.nonce| == NONCE_SIZE
      modifies this`trail, store
      ensures (TheWorld(), reply) ==
        Settled(old(TheWorld()), SaveForm(TheEnv(), checked, Lookup(Seen(old(store.secrets), readFails), checked.path), d),
                d, fault, UiFailed)
      ensures ShowsPage(reply)
    {
      var form := checked;
      var existing := Found(form.path, readFails);
      if form.value == [] {
        if existing.None? { return UiFailed; }
        var plain := Open(crypto, kek, existing.value.nonce + existing.value.ciphertext, existing.value.aad);
        if plain.Err? { return UiFailed; }
        form := form.(value := plain.value);
      }
      reply := SealAndStore(form, existing, d, fault, UiDone, UiFailed);
    }

    /** handleUISecretSave up to the page that it shows. */
    method SaveFromForm(req: Request, d: Draw, readFails: bool, fault: Fault) returns (reply: Reply)
      requires req.UiSave? && |d.nonce| == NONCE_SIZE
      modifies this`trail, store
      ensures (TheWorld(), reply) ==
        Settled(old(TheWorld()),
                SaveOutcome(TheEnv(), req, Lookup(Seen(old(store.secrets), readFails), TargetOf(req)), d),
                d, fault, UiFailed)
      ensures ShowsPage(reply)
    {
      var k := CheckSaveFields(req);
      if k.Refused? { return UiFailed; }
      PlainVault.AcceptedSavePath(dec, req);
      reply := SaveChecked(k.form, d, readFails, fault);
    }

    method HandleUiSecretSave(p: Principal, req: Request, d: Draw, readFails: bool, fault: Fault, missed: ReadFaults)
      returns (reply: Reply)
      requires req.UiSave? && |d.nonce| == NONCE_SIZE
      modifies this`trail, store
      ensures (TheWorld(), reply) == Shown(TheEnv(), p,
        Settled(old(TheWorld()),
                SaveOutcome(TheEnv(), req, Lookup(Seen(old(store.secrets), readFails), TargetOf(req)), d),
                d, fault, UiFailed), missed)
    {
      reply := SaveFromForm(req, d, readFails, fault);
      ShowPage(p, missed);
    }

    method HandleAnnotateSecret(p: Principal, req: Request, d: Draw, readFails: bool, fault: Fault)
      returns (reply: Reply)
      requires req.Annotate? && |d.nonce| == NONCE_SIZE
      modifies this`trail, store
      ensures (TheWorld(), reply) ==
        Settled(old(TheWorld()),
                AnnotateOutcome(TheEnv(), p, req, Lookup(Seen(old(store.secrets), readFails), req.path), d),
                d, fault, ServerError)
    {
      if p.kind.Key? && !p.hasWrite { return Forbidden; }
      if req.path == [] { return BadRequest; }
      if !CanAccess(p, req.path) { return Forbidden; }
      var found := Found(req.path, readFails);
      if found.None? { return Missing; }
      reply := Reannotate(req, found.value, d, fault);
    }

    /** The new tags, description and metadata of the row. */
    method MergeNotes(req: Request, sec: SecretRow) returns (n: Option<Notes>)
      requires req.Annotate?
      ensures n == Annotated(dec, req, NotesOf(sec))
    {
      var newTags := Tags.MergeTags(sec.tags, req.add, req.remove);
      if newTags.Err? { return None; }
      var newMeta := MergeMetadata(dec, sec.metadata, req.setFields, req.unset);
      if newMeta.None? { return None; }
      var newDesc := sec.description;
      if req.newDescription.Some? {
        if |req.newDescription.value| > MAX_DESCRIPTION { return None; }
        newDesc := req.newDescription.value;
      }
      return Some(Notes(newTags.value, newDesc, newMeta.value));
    }

    /** Opens the row with its stored AAD and seals it again with the new columns. */
    method Reseal(row: SecretRow, n: Notes, d: Draw) returns (r: Option<SecretRow>)
      requires |d.nonce| == NONCE_SIZE
      ensures var plain := OpenStored(crypto, kek, row);
        r == if plain.Err? then None else
          var again := SealRow(crypto, kek, NotedRow(row, n, d.now), d.nonce, plain.value);
          if again.Err? then None else Some(again.value)
    {
      var sec := row;
      var descChanged, metaChanged := n.description != sec.description, n.metadata != sec.metadata;
      var version := sec.version;
      if descChanged { version := version + 1; }
      var aad := AADSecret(crypto, sec.path, n.description, version);
      var plain := Open(crypto, kek, sec.nonce + sec.ciphertext, sec.aad);
      if plain.Err? { return None; }
      var sealed := Seal(crypto, kek, d.nonce, plain.value, aad);
      if sealed.Err? { return None; }
      sec := sec.(ciphertext := sealed.value[NONCE_SIZE..], nonce := sealed.value[..NONCE_SIZE], aad := aad,
                  tags := n.tags, description := n.description, metadata := n.metadata, version := version);
      if descChanged { sec := sec.(descUpdatedAt := Some(d.now)); }
      if metaChanged { sec := sec.(metaUpdatedAt := Some(d.now)); }
      return Some(sec);
    }

    /** The rest of handleAnnotateSecret, on the row it read. */
    method Reannotate(req: Request, sec: SecretRow, d: Draw, fault: Fault) returns (reply: Reply)
      requires req.Annotate? && |d.nonce| == NONCE_SIZE
      modifies this`trail, store
      ensures (TheWorld(), reply) == Settled(old(TheWorld()), AnnotateRow(TheEnv(), req, sec, d), d, fault, ServerError)
    {
      var n := MergeNotes(req, sec);
      if n.None? { return BadRequest; }
      var descChanged, metaChanged := n.value.description != sec.description, n.value.metadata != sec.metadata;
      if !descChanged && !metaChanged && n.value.tags == sec.tags { return NoContent; }
      var again := Reseal(sec, n.value, d);
      if again.None? { return ServerError; }
      reply := StoreAndAudit(again.value, d, fault, Event(AnnotateSecret, req.path), NoContent, ServerError);
    }

    /** Delete in the store, then audit; `missing` answers a path that is not there. */
    method DeleteAndAudit(path: Str, d: Draw, fault: Fault, done: Reply, missing: Reply) returns (reply: Reply)
      modifies this`trail, store
      ensures (TheWorld(), reply) == Settled(old(TheWorld()),
        if path in old(store.secrets) then Outcome(done, Drop(path), [Event(DeleteSecret, path)]) else Answer(missing),
        d, fault, ServerError)
    {
      var deleted, _ := store.DeleteSecret(path, fault);
      if deleted.Err? {
        if deleted.error.NotFound? { return missing; }
        return ServerError;
      }
      trail := trail + [Event(DeleteSecret, path)];
      return done;
    }

    method HandleDeleteSecret(p: Principal, req: Request, d: Draw, fault: Fault) returns (reply: Reply)
      requires req.Delete?
      modifies this`trail, store
      ensures (TheWorld(), reply) ==
        Settled(old(TheWorld()), DeleteOutcome(p, req, Lookup(old(store.secrets), req.path)), d, fault, ServerError)
    {
      if p.kind.Key? && !p.hasWrite { return Forbidden; }
      if !CanAccess(p, req.path) { return Forbidden; }
      reply := DeleteAndAudit(req.path, d, fault, NoContent, Missing);
    }

    method HandleUiSecretDelete(p: Principal, req: Request, d: Draw, fault: Fault, missed: ReadFaults)
      returns (reply: Reply)
      requires req.UiDelete?
      modifies this`trail, store
      ensures (TheWorld(), reply) == Shown(TheEnv(), p,
        Settled(old(TheWorld()), UiDeleteOutcome(TargetOf(req), Lookup(old(store.secrets), TargetOf(req))),
                d, fault, ServerError), missed)
    {
      var path := TrimSpace(req.path);
      if path == [] { return BadRequest; }
      reply := DeleteAndAudit(path, d, fault, UiDone, UiFailed);
      if ShowsPage(reply) { ShowPage(p, missed); }
    }

    method HandleGetSecret(p: Principal, req: Request, readFails: bool) returns (reply: Reply)
      requires req.Get?
      modifies this`trail
      ensures var o := GetOutcome(TheEnv(), p, req, Lookup(Seen(store.secrets, readFails), req.path));
        reply == o.reply && trail == Emit(old(trail), o.events)
    {
      if !CanAccess(p, req.path) {
        trail := trail + [Event(DeniedOutOfScope, req.path)];
        return Forbidden;
      }
      var found := Found(req.path, readFails);
      if found.None? { return Missing; }
      var sec := found.value;
      var aad := AADSecret(crypto, sec.path, sec.description, sec.version);
      var plain := Open(crypto, kek, sec.nonce + sec.ciphertext, aad);
      if plain.Err? {
        trail := trail + [Event(DecryptFailed, req.path)];
        return ServerError;
      }
      trail := trail + [Event(Read, req.path)];
      return Secret(sec.path, plain.value, OrEmpty(sec.labelText), SplitCsv(sec.tags), sec.description, sec.metadata,
                    sec.version);
    }

    /** The body of the list's loop: the item to show, if any. */
    method ShowOne(p: Principal, path: Str, unreadable: set<Str>, unmask: bool) returns (shown: seq<ListItem>)
      modifies this`trail
      ensures shown == ListOne(TheEnv(), p, Readable(store.secrets, unreadable), path, unmask).0
      ensures trail == old(trail) + ListOne(TheEnv(), p, Readable(store.secrets, unreadable), path, unmask).1
    {
      assert trail + [] == trail;
      if !CanAccess(p, path) { return []; }
      var found := store.GetSecret(path);
      if path in unreadable || found.Err? { return []; }
      var sec := found.value;
      var aad := AADSecret(crypto, sec.path, sec.description, sec.version);
      var plain := Open(crypto, kek, sec.nonce + sec.ciphertext, aad);
      if plain.Err? {
        trail := trail + [Event(DecryptFailed, path)];
        return [];
      }
      var value := if unmask then plain.value else Masked(plain.value);
      return [ListItem(sec.path, OrEmpty(sec.labelText), sec.tags, sec.description, value)];
    }

    /** The loop over the paths, in handleListSecrets and in uiSecretRows. */
    method ShowAll(p: Principal, paths: seq<Str>, unreadable: set<Str>, unmask: bool) returns (out: seq<ListItem>)
      modifies this`trail
      ensures out == ListAll(TheEnv(), p, Readable(store.secrets, unreadable), paths, unmask).0
      ensures trail == old(trail) + ListAll(TheEnv(), p, Readable(store.secrets, unreadable), paths, unmask).1
    {
      out := [];
      ghost var t, start, events := Readable(store.secrets, unreadable), trail, [];
      assert trail == start + [];
      for i := 0 to |paths|
        invariant trail == start + events
        invariant out == ListAll(TheEnv(), p, t, paths[..i], unmask).0
        invariant events == ListAll(TheEnv(), p, t, paths[..i], unmask).1
      {
        ListStep(TheEnv(), p, t, paths, i, unmask);
        ghost var one := ListOne(TheEnv(), p, t, paths[i], unmask).1;
        var shown := ShowOne(p, paths[i], unreadable, unmask);
        out := out + shown;
        ConcatAssoc(start, events, one);
        events := events + one;
      }
      assert paths[..|paths|] == paths;
    }

    method HandleListSecrets(p: Principal, req: Request, missed: ReadFaults) returns (reply: Reply)
      requires req.List?
      modifies this`trail
      ensures var o := FaultyListOutcome(TheEnv(), p, req, store.secrets, missed);
        reply == o.reply && trail == old(trail) + o.events
    {
      if missed.pathsFail {
        assert trail == trail + [];
        return ServerError;
      }
      var paths := store.ListSecretPaths(req.prefix);
      var out := ShowAll(p, paths, missed.unreadable, req.unmask);
      ghost var events := ListAll(TheEnv(), p, Readable(store.secrets, missed.unreadable), paths, req.unmask).1;
      ghost var last := [Event(if req.unmask then ReadListReveal else ReadList, [])];
      ConcatAssoc(old(trail), events, last);
      trail := trail + [Event(if req.unmask then ReadListReveal else ReadList, [])];
      return Items(out);
    }

    /** loadSecretsData without a search: where the path list fails there are no rows. */
    method ShowPage(p: Principal, missed: ReadFaults)
      modifies this`trail
      ensures trail == old(trail) + PageEvents(TheEnv(), p, store.secrets, missed)
    {
      if missed.pathsFail {
        assert trail == trail + [];
        return;
      }
      var paths := store.ListSecretPaths([]);
      var _ := ShowAll(p, paths, missed.unreadable, false);
    }

    /** The rotation of one path; `ok` is false when the handler gives up. */
    method RotateOne(newKek: Str, path: Str, unreadable: set<Str>, d: Draw, fault: Fault) returns (ok: bool)
      requires |d.nonce| == NONCE_SIZE && path in store.secrets
      modifies store
      ensures store.secrets == Rotation.AfterOne(crypto, kek, newKek, old(store.secrets), path, unreadable, d, fault)
      ensures path in unreadable ==> ok
      ensures path !in unreadable ==>
        (ok <==> Rotation.RotateRow(crypto, kek, newKek, old(store.secrets)[path], d.nonce).Ok? && fault.NoFault? &&
                 old(store.secretsFts).Working?)
      ensures store.secretsFts.Working? <==> old(store.secretsFts).Working?
      ensures store.keys == old(store.keys) && store.keysFts == old(store.keysFts)
      ensures ok && old(Consistent(store.Contents())) ==> Consistent(store.Contents())
    {
      if path in unreadable { return true; }
      var sec := store.secrets[path];
      var plain := Open(crypto, kek, sec.nonce + sec.ciphertext, sec.aad);
      if plain.Err? { return false; }
      var aad := AADSecret(crypto, sec.path, sec.description, sec.version);
      var sealed := Seal(crypto, newKek, d.nonce, plain.value, aad);
      if sealed.Err? { return false; }
      sec := sec.(nonce := sealed.value[..NONCE_SIZE], ciphertext := sealed.value[NONCE_SIZE..]);
      var stored, _ := store.PutSecret(sec, d.storeNow, fault);
      return stored.Ok?;
    }

    /** The table's rows stand under their own paths, and the cipher opens what it seals; nothing is asked of the rows. */
    ghost predicate Rotatable(newKek: Str, draw: Str -> Draw)
      reads this, store
    {
      AeadCorrect(crypto) && |newKek| == KEK_SIZE && (forall path :: |draw(path).nonce| == NONCE_SIZE) &&
      forall p :: p in store.secrets ==> store.secrets[p].path == p
    }

    /** The loop of handleRotateOperator. It stops at the first path that does not open under the old key or that it cannot
        store, with the paths in front of it rotated and those behind it untouched; otherwise it gets through them all. */
    method RotateAll(newKek: Str, unreadable: set<Str>, draw: Str -> Draw, fault: Str -> Fault)
      returns (ok: bool, ghost visited: nat)
      requires Rotatable(newKek, draw)
      modifies store
      ensures var t := old(store.secrets);
        var paths, indexed := Sorting.Sorted(t.Keys), old(store.secretsFts).Working?;
        if ok then
          Rotation.AllStored(crypto, kek, t, paths, unreadable, fault, indexed) &&
          Rotation.RotatedUpTo(crypto, kek, newKek, t, store.secrets, unreadable, |paths|)
        else
          Rotation.StoppedAt(crypto, kek, newKek, t, store.secrets, unreadable, fault, indexed, visited)
      ensures ok && old(Consistent(store.Contents())) ==> Consistent(store.Contents())
    {
      ghost var t, indexed, right := store.secrets, store.secretsFts.Working?, Consistent(store.Contents());
      Rotation.ListsAll(t);
      var paths := store.ListSecretPaths([]);
      var i := 0;
      while i < |paths|
        invariant 0 <= i <= |paths|
        invariant Rotation.RotatedUpTo(crypto, kek, newKek, t, store.secrets, unreadable, i)
        invariant Rotation.AllStored(crypto, kek, t, paths[..i], unreadable, fault, indexed)
        invariant store.secretsFts.Working? <==> indexed
        invariant right ==> Consistent(store.Contents())
      {
        var path := paths[i];
        Rotation.OneStep(crypto, kek, newKek, t, store.secrets, unreadable, i, draw(path), fault(path));
        ok := RotateOne(newKek, path, unreadable, draw(path), fault(path));
        Rotation.StepOutcome(crypto, kek, newKek, t, store.secrets, unreadable, i, fault, indexed, ok);
        if !ok { return false, i; }
        i := i + 1;
      }
      assert paths[..i] == paths;
      return true, i;
    }

    /** The operator's row gets the new token's hash; an error on the way is ignored. */
    method StoreOperatorHash(issued: Issued, updated: bool)
      modifies this`operators
      ensures operators == AfterRotation(old(operators), operatorName, issued, updated)
    {
      if operatorName in operators && updated { operators := WithHash(operators, operators[operatorName].id, issued); }
    }

    method HandleRotateOperator(password: Str, salt: Option<Str>, derive: (Str, Str) -> Str, missed: ReadFaults,
                                draw: Str -> Draw, fault: Str -> Fault, issued: Issued, updated: bool)
      returns (reply: Reply, ghost visited: nat)
      requires salt.Some? ==> Rotatable(derive(password, salt.value), draw)
      modifies this`trail, this`operators, store
      ensures reply == BadRequest <==> password == []
      ensures password == [] || salt == None || salt == Some([]) || missed.pathsFail ==>
        reply in {BadRequest, ServerError} && TheWorld() == old(TheWorld()) && operators == old(operators)
      ensures password != [] && salt.Some? && salt.value != [] && !missed.pathsFail ==>
        var newKek, t := derive(password, salt.value), old(store.secrets);
        var paths, indexed := Sorting.Sorted(t.Keys), old(store.secretsFts).Working?;
        if Rotation.AllStored(crypto, kek, t, paths, missed.unreadable, fault, indexed) then
          reply == Rotated(issued.token) && trail == old(trail) + [Event(RotateOperator, [])] &&
          operators == AfterRotation(old(operators), operatorName, issued, updated) &&
          Rotation.RotatedUpTo(crypto, kek, newKek, t, store.secrets, missed.unreadable, |paths|)
        else
          reply == ServerError && trail == old(trail) && operators == old(operators) &&
          Rotation.StoppedAt(crypto, kek, newKek, t, store.secrets, missed.unreadable, fault, indexed, visited)
      ensures reply.Rotated? && old(Consistent(store.Contents())) ==> Consistent(store.Contents())
    {
      visited := 0;
      if password == [] { return BadRequest, 0; }
      if salt.None? || salt.value == [] { return ServerError, 0; }
      if missed.pathsFail { return ServerError, 0; }
      var newKek := derive(password, salt.value);
      var ok: bool;
      ok, visited := RotateAll(newKek, missed.unreadable, draw, fault);
      if !ok { return ServerError, visited; }
      StoreOperatorHash(issued, updated);
      trail := trail + [Event(RotateOperator, [])];
      return Rotated(issued.token), visited;
    }
  }

  /** What a handler leaves: it writes its change unless the write itself fails, and answers and audits it only where
      nothing behind the write fails either. */
  lemma {:induction false} SettledIff(w: World, o: Outcome, d: Draw, fault: Fault, failed: Reply)
    ensures var (w', reply) := Settled(w, o, d, fault, failed);
      (if o.change == Keep || (fault == NoFault && w.db.secretsFts.Working?)
       then reply == o.reply && w'.trail == w.trail + o.events
       else reply == failed && w'.trail == w.trail) &&
      w'.db.secrets == (if fault == WriteFails then w.db.secrets else Changed(w.db.secrets, o.change, d.storeNow)) &&
      w'.db.keys == w.db.keys && w'.db.keysFts == w.db.keysFts && (o.change == Keep ==> w'.db == w.db)
  {
    assert w.trail + [] == w.trail;
  }

  /** The page of the web interface is shown behind its two replies only. */
  lemma {:induction false} ShownIff(env: Env, p: Principal, w: World, reply: Reply, missed: ReadFaults)
    ensures Shown(env, p, (w, reply), missed) ==
      if reply == UiDone || reply == UiFailed
      then (World(w.db, w.trail + PageEvents(env, p, w.db.secrets, missed)), reply) else (w, reply)
  {}

  /** On a right table, faults or not, the page changes nothing: the handler's effect is that of its outcome. */
  lemma {:induction false} ShownSettled(env: Env, p: Principal, req: Request, w: World, d: Draw, readFails: bool,
                                        fault: Fault, failed: Reply, missed: ReadFaults)
    requires WorldOk(env, w) && |d.nonce| == NONCE_SIZE
    ensures var after := Settled(w, Handle(env, p, req, Seen(w.db.secrets, readFails), d), d, fault, failed);
      Shown(env, p, after, missed) == after
  {
    FaultsKeepRowsOk(env, p, req, w, d, readFails, fault, failed);
    var after := Settled(w, Handle(env, p, req, Seen(w.db.secrets, readFails), d), d, fault, failed);
    PageIsSilent(env, p, after.0.db.secrets, missed);
    assert after.0.trail + [] == after.0.trail;
  }

  /** Without faults at the write, each handler keeps the server valid, whether or not it could read the row. */
  lemma {:induction false} SettledKeepsOk(env: Env, p: Principal, req: Request, w: World, d: Draw, readFails: bool,
                                          failed: Reply)
    requires WorldOk(env, w) && |d.nonce| == NONCE_SIZE
    ensures WorldOk(env, Settled(w, Handle(env, p, req, Seen(w.db.secrets, readFails), d), d, NoFault, failed).0)
  {
    var o := Handle(env, p, req, Seen(w.db.secrets, readFails), d);
    HandleWritesOk(env, p, req, Seen(w.db.secrets, readFails), d);
    ChangedOk(env.crypto, env.kek, w.db.secrets, o.change, d.storeNow);
    match o.change
    case Keep =>
    case Upsert(row) => PutKeepsConsistent(w.db, row, d.storeNow);
    case Drop(path) => DeleteKeepsConsistent(w.db, path, NoFault);
  }

  /** A fault never makes a row wrong: each row is as before, or as the handler meant it. */
  lemma {:induction false} FaultsKeepRowsOk(env: Env, p: Principal, req: Request, w: World, d: Draw, readFails: bool,
                                            fault: Fault, failed: Reply)
    requires WorldOk(env, w) && |d.nonce| == NONCE_SIZE
    ensures var o := Handle(env, p, req, Seen(w.db.secrets, readFails), d);
      AllOk(env.crypto, env.kek, Settled(w, o, d, fault, failed).0.db.secrets)
  {
    var o := Handle(env, p, req, Seen(w.db.secrets, readFails), d);
    HandleWritesOk(env, p, req, Seen(w.db.secrets, readFails), d);
    ChangedOk(env.crypto, env.kek, w.db.secrets, o.change, d.storeNow);
  }

  /** Without faults the reply and the audit events are the outcome's, and the change is carried out. */
  lemma {:induction false} SettledWithoutFault(w: World, o: Outcome, d: Draw, failed: Reply)
    requires w.db.secretsFts.Working?
    ensures Settled(w, o, d, NoFault, failed).1 == o.reply
    ensures Settled(w, o, d, NoFault, failed).0.trail == Emit(w.trail, o.events)
    ensures Settled(w, o, d, NoFault, failed).0.db.secrets == Changed(w.db.secrets, o.change, d.storeNow)
  {}

  /** Without faults, what a handler answers, audits and leaves is what the plain map does. */
  lemma {:induction false} SettledRefines(env: Env, p: Principal, req: Request, w: World, d: Draw, failed: Reply,
                                          m: PlainVault.Plain)
    requires WorldOk(env, w) && |d.nonce| == NONCE_SIZE
    requires PlainVault.Refines(env.crypto, env.kek, w.db.secrets, m)
    ensures PlainStepTaken(env, w, Settled(w, Handle(env, p, req, w.db.secrets, d), d, NoFault, failed),
                           PlainVault.PlainHandle(env.dec, p, req, m, d))
  {
    var o, s := Handle(env, p, req, w.db.secrets, d), PlainVault.PlainHandle(env.dec, p, req, m, d);
    PlainVault.HandleRefines(env, p, req, w.db.secrets, m, d);
    RefinesSettled(env, w, o, d, failed, s);
  }

  /** Reply and audit events of the step, and rows that represent its items. */
  ghost predicate PlainStepTaken(env: Env, w: World, after: (World, Reply), s: PlainVault.Step)
  {
    after.1 == s.reply && after.0.trail == Emit(w.trail, s.events) &&
    PlainVault.Refines(env.crypto, env.kek, after.0.db.secrets, s.m)
  }

  lemma {:induction false} RefinesSettled(env: Env, w: World, o: Outcome, d: Draw, failed: Reply, s: PlainVault.Step)
    requires w.db.secretsFts.Working? && PlainVault.StepRefines(env, o, w.db.secrets, d, s)
    ensures PlainStepTaken(env, w, Settled(w, o, d, NoFault, failed), s)
  {
    SettledWithoutFault(w, o, d, failed);
  }

  lemma {:induction false} ListStep(env: Env, p: Principal, t: Secrets, paths: seq<Str>, i: nat, unmask: bool)
    requires i < |paths|
    ensures ListAll(env, p, t, paths[..i + 1], unmask).0 ==
            ListAll(env, p, t, paths[..i], unmask).0 + ListOne(env, p, t, paths[i], unmask).0
    ensures ListAll(env, p, t, paths[..i + 1], unmask).1 ==
            ListAll(env, p, t, paths[..i], unmask).1 + ListOne(env, p, t, paths[i], unmask).1
  {
    assert paths[..i + 1][..i] == paths[..i];
  }
}
