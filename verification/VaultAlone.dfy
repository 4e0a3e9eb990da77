/** A handler that runs alone, step by step, does what the handler's method does (internal/api/server.go,
    internal/api/ui_actions.go). */
module VaultAlone {
  import opened Auth
  import opened Basics
  import opened CryptoPrimitives
  import opened PlainVault
  import opened Server
  import opened Store
  import opened Vault
  import opened VaultConcurrency
  import Like
  import Sorting

  /** What fails on the way: the read of the row, the write, and the reads of a list. A delete can also fail at its read. */
  datatype Faults = Faults(unread: bool, write: Fault, missed: ReadFaults, deleteReads: bool)

  const NO_FAULTS := Faults(false, NoFault, NO_READ_FAULT, false)

  function OutcomeOf(env: Env, call: Call, t: Secrets, f: Faults): Outcome
    requires |call.d.nonce| == NONCE_SIZE
  {
    if call.req.List? then FaultyListOutcome(env, call.p, call.req, t, f.missed)
    else if f.deleteReads then Answer(ServerError)
    else Handle(env, call.p, call.req, Seen(t, f.unread), call.d)
  }

  function FailedReply(req: Request): Reply { if req.UiSave? then UiFailed else ServerError }

  /** The table, the reply and the events in the end. */
  predicate Handled(env: Env, call: Call, t: Secrets, f: Faults, t': Secrets, reply: Reply, events: seq<Event>)
    requires |call.d.nonce| == NONCE_SIZE
  {
    var o := OutcomeOf(env, call, t, f);
    (f.deleteReads ==> call.req.Delete? || call.req.UiDelete?) &&
    (if o.change.Keep? || f.write.NoFault? then reply == o.reply && events == o.events
     else reply == FailedReply(call.req) && events == []) &&
    t' == if f.write.WriteFails? then t else Changed(t, o.change, call.d.storeNow)
  }

  /** The list so far: the paths in front of those that are left. */
  predicate Listed(env: Env, call: Call, t: Secrets, f: Faults, pc: Pc)
    requires pc.Listing? && call.req.List?
  {
    var paths := ListedPaths(t, call.req.prefix);
    var n := |paths| - |pc.rest|;
    n >= 0 && pc.rest == paths[n..] && !f.missed.pathsFail && !f.deleteReads &&
    (forall q :: q in f.missed.unreadable ==> q in paths[..n]) &&
    (pc.items, pc.events) == ListAll(env, call.p, Readable(t, f.missed.unreadable), paths[..n], call.req.unmask)
  }

  /** How far a handler has come. */
  predicate Reached(env: Env, call: Call, t: Secrets, f: Faults, t': Secrets, pc: Pc)
    requires |call.d.nonce| == NONCE_SIZE
  {
    match pc
    case Start => t' == t
    case Listing(_, _, _) => t' == t && call.req.List? && Listed(env, call, t, f, pc)
    case Writing(pending, reply, events) =>
      var o := OutcomeOf(env, call, t, f);
      t' == t && !call.req.List? && !f.deleteReads && !o.change.Keep? && reply == o.reply && events == o.events &&
      Performed(t, pending, call.d.storeNow) == Changed(t, o.change, call.d.storeNow)
    case Answering(reply, events) => Handled(env, call, t, f, t', reply, events)
    case Paging(_, reply, events) => Handled(env, call, t, f, t', reply, events)
    case Done(reply, events) => Handled(env, call, t, f, t', reply, events)
  }

  /** Only deletes drop a path, and only one that they have found. */
  lemma {:induction false} DropsPresent(env: Env, call: Call, t: Secrets)
    requires |call.d.nonce| == NONCE_SIZE && Handle(env, call.p, call.req, t, call.d).change.Drop?
    ensures call.req.Delete? || call.req.UiDelete?
    ensures Handle(env, call.p, call.req, t, call.d).change.path in t
  {
    match call.req
    case Put(_, _, _, _, _, _) => PutNeverDrops(env, call, Lookup(t, TargetOf(call.req)));
    case UiSave(_, _, _, _, _, _, _) => SaveNeverDrops(env, call, Lookup(t, TargetOf(call.req)));
    case Annotate(_, _, _, _, _, _) => AnnotateNeverDrops(env, call, Lookup(t, TargetOf(call.req)));
    case _ =>
  }

  lemma {:induction false} PutNeverDrops(env: Env, call: Call, existing: Option<SecretRow>)
    requires |call.d.nonce| == NONCE_SIZE && call.req.Put?
    ensures !PutOutcome(env, call.p, call.req, existing, call.d).change.Drop?
  {}

  lemma {:induction false} SaveNeverDrops(env: Env, call: Call, existing: Option<SecretRow>)
    requires |call.d.nonce| == NONCE_SIZE && call.req.UiSave?
    ensures !SaveOutcome(env, call.req, existing, call.d).change.Drop?
  {}

  lemma {:induction false} AnnotateNeverDrops(env: Env, call: Call, existing: Option<SecretRow>)
    requires |call.d.nonce| == NONCE_SIZE && call.req.Annotate?
    ensures !AnnotateOutcome(env, call.p, call.req, existing, call.d).change.Drop?
  {
    if existing.Some? { RowNeverDrops(env, call, existing.value); }
  }

  lemma {:induction false} RowNeverDrops(env: Env, call: Call, r: SecretRow)
    requires |call.d.nonce| == NONCE_SIZE && call.req.Annotate?
    ensures !AnnotateRow(env, call.req, r, call.d).change.Drop?
  {}

  lemma {:induction false} SeenReached(env: Env, call: Call, t: Secrets, f: Faults)
    requires |call.d.nonce| == NONCE_SIZE && !call.req.List? && f.write.NoFault? && !f.deleteReads
    requires f.unread ==> !call.req.Delete? && !call.req.UiDelete?
    ensures Reached(env, call, t, f, t, AfterRead(env, call, Seen(t, f.unread)))
  {
    var o := Handle(env, call.p, call.req, Seen(t, f.unread), call.d);
    if o.change.Drop? { DropsPresent(env, call, Seen(t, f.unread)); }
  }

  lemma {:induction false} ListGivesUp(env: Env, call: Call, t: Secrets)
    requires |call.d.nonce| == NONCE_SIZE && call.req.List?
    ensures Handled(env, call, t, Faults(false, NoFault, ReadFaults(true, {}), false), t, ServerError, [])
  {}

  lemma {:induction false} ListReads(env: Env, call: Call, t: Secrets)
    requires |call.d.nonce| == NONCE_SIZE && call.req.List?
    ensures AfterRead(env, call, t) == Listing(ListedPaths(t, call.req.prefix), [], [])
  {}

  lemma {:induction false} ListStarts(env: Env, call: Call, t: Secrets)
    requires call.req.List?
    ensures Listed(env, call, t, NO_FAULTS, Listing(ListedPaths(t, call.req.prefix), [], []))
  {
    FromTheFirst(env, call.p, Readable(t, {}), ListedPaths(t, call.req.prefix), call.req.unmask);
  }

  lemma {:induction false} FromTheFirst(env: Env, p: Principal, t: Secrets, paths: seq<Str>, unmask: bool)
    ensures paths[0..] == paths && paths[..0] == [] && ListAll(env, p, t, paths[..0], unmask) == ([], [])
  {}

  lemma {:induction false} ReadReached(env: Env, call: Call, t: Secrets, pc: Pc) returns (f: Faults)
    requires |call.d.nonce| == NONCE_SIZE && (pc == AfterRead(env, call, t) || FailsToRead(env, call, pc))
    ensures Reached(env, call, t, f, t, pc)
  {
    f := NO_FAULTS;
    if call.req.List? && pc == AfterRead(env, call, t) {
      ListReads(env, call, t);
      ListStarts(env, call, t);
    } else if call.req.List? {
      f := Faults(false, NoFault, ReadFaults(true, {}), false);
      ListGivesUp(env, call, t);
    } else if pc == AfterRead(env, call, t) {
      SeenReached(env, call, t, f);
    } else if call.req.Delete? || call.req.UiDelete? {
      f := f.(deleteReads := true);
    } else {
      f := f.(unread := true);
      SeenReached(env, call, t, f);
    }
  }

  /** What is passed over is not among the paths seen before. */
  lemma {:induction false} ListIgnores(env: Env, p: Principal, t: Secrets, unreadable: set<Str>, q: Str, paths: seq<Str>,
                                       unmask: bool)
    requires q !in paths
    ensures ListAll(env, p, Readable(t, unreadable + {q}), paths, unmask) ==
      ListAll(env, p, Readable(t, unreadable), paths, unmask)
  {
    if paths != [] {
      assert paths[|paths| - 1] in paths;
      ListIgnores(env, p, t, unreadable, q, paths[..|paths| - 1], unmask);
    }
  }

  lemma {:induction false} NextPath(t: Secrets, prefix: Str, n: nat)
    requires n < |ListedPaths(t, prefix)|
    ensures var paths := ListedPaths(t, prefix);
      paths[n] !in paths[..n] && paths[n..][1..] == paths[n + 1..] && paths[..n + 1] == paths[..n] + [paths[n]] &&
      forall q :: q in paths[..n] ==> q in paths[..n + 1]
  {
    Sorting.SortedDistinct(set p | p in t && (prefix == [] || Like.Matches(prefix + [PERCENT], p, None)));
  }

  lemma {:induction false} LookReached(env: Env, call: Call, t: Secrets, f: Faults, pc: Pc, pc': Pc) returns (f': Faults)
    requires |call.d.nonce| == NONCE_SIZE && call.req.List? && pc.Listing? && Listed(env, call, t, f, pc)
    requires pc' == AfterLook(env, call, t, pc) || PassesOver(pc, pc')
    ensures Reached(env, call, t, f', t, pc')
  {
    f' := f;
    if pc.rest == [] {
      LookEnds(env, call, t, f, pc);
    } else if pc' == AfterLook(env, call, t, pc) {
      LookGoesOn(env, call, t, f, pc);
    } else {
      f' := f.(missed := ReadFaults(false, f.missed.unreadable + {pc.rest[0]}));
      LookPasses(env, call, t, f, pc, pc');
    }
  }

  lemma {:induction false} LookEnds(env: Env, call: Call, t: Secrets, f: Faults, pc: Pc)
    requires |call.d.nonce| == NONCE_SIZE && call.req.List? && pc.Listing? && Listed(env, call, t, f, pc) && pc.rest == []
    ensures Reached(env, call, t, f, t, AfterLook(env, call, t, pc))
  {
    var paths := ListedPaths(t, call.req.prefix);
    assert paths[..|paths|] == paths;
  }

  lemma {:induction false} LookGoesOn(env: Env, call: Call, t: Secrets, f: Faults, pc: Pc)
    requires call.req.List? && pc.Listing? && Listed(env, call, t, f, pc) && pc.rest != []
    ensures Listed(env, call, t, f, AfterLook(env, call, t, pc))
  {
    var paths := ListedPaths(t, call.req.prefix);
    var n := |paths| - |pc.rest|;
    NextPath(t, call.req.prefix, n);
    assert pc.rest[0] == paths[n];
    ListStep(env, call.p, Readable(t, f.missed.unreadable), paths, n, call.req.unmask);
    OneReadable(env, call.p, t, f.missed.unreadable, paths[n], call.req.unmask);
  }

  lemma {:induction false} LookPasses(env: Env, call: Call, t: Secrets, f: Faults, pc: Pc, pc': Pc)
    requires call.req.List? && pc.Listing? && Listed(env, call, t, f, pc) && pc.rest != []
    requires pc' == Listing(pc.rest[1..], pc.items, pc.events)
    ensures Listed(env, call, t, f.(missed := ReadFaults(false, f.missed.unreadable + {pc.rest[0]})), pc')
  {
    var paths, unreadable := ListedPaths(t, call.req.prefix), f.missed.unreadable;
    var n := |paths| - |pc.rest|;
    var q := paths[n];
    NextPath(t, call.req.prefix, n);
    assert pc.rest[0] == q;
    ListIgnores(env, call.p, t, unreadable, q, paths[..n], call.req.unmask);
    ListStep(env, call.p, Readable(t, unreadable + {q}), paths, n, call.req.unmask);
    assert ListOne(env, call.p, Readable(t, unreadable + {q}), q, call.req.unmask) == ([], []);
    assert pc.items + [] == pc.items && pc.events + [] == pc.events;
    assert |paths| - |pc'.rest| == n + 1;
  }

  lemma {:induction false} OneReadable(env: Env, p: Principal, t: Secrets, unreadable: set<Str>, q: Str, unmask: bool)
    requires q !in unreadable
    ensures ListOne(env, p, Readable(t, unreadable), q, unmask) == ListOne(env, p, t, q, unmask)
  {}

  lemma {:induction false} WriteReached(env: Env, call: Call, t: Secrets, f: Faults, pc: Pc, t': Secrets, pc': Pc)
    returns (f': Faults)
    requires |call.d.nonce| == NONCE_SIZE && pc.Writing? && Reached(env, call, t, f, t, pc)
    requires Moves(env, call, t, pc, t', pc')
    ensures Reached(env, call, t, f', t', pc')
  {
    var done := Performed(t, pc.pending, call.d.storeNow);
    if t' == done && pc' == Answered(pc.reply, pc.events) {
      f' := f.(write := NoFault);
    } else if t' == done {
      f' := f.(write := LaterFails);
    } else {
      f' := f.(write := WriteFails);
    }
  }

  lemma {:induction false} MoveReached(env: Env, call: Call, t: Secrets, f: Faults, t1: Secrets, pc: Pc, t2: Secrets,
                                       pc': Pc) returns (f': Faults)
    requires |call.d.nonce| == NONCE_SIZE && Reached(env, call, t, f, t1, pc) && AllOk(env.crypto, env.kek, t1)
    requires Moves(env, call, t1, pc, t2, pc')
    ensures Reached(env, call, t, f', t2, pc')
  {
    match pc
    case Start => f' := ReadReached(env, call, t, pc');
    case Listing(_, _, _) => f' := LookReached(env, call, t, f, pc, pc');
    case Writing(_, _, _) => f' := WriteReached(env, call, t, f, pc, t2, pc');
    case Answering(_, _) => f' := f;
    case Paging(rest, _, _) =>
      f' := f;
      if rest != [] && rest[0] in t1 { RowOkKey(env.crypto, env.kek, t1[rest[0]]); }
    case Done(_, _) => f' := f;
  }

  lemma {:induction false} OneMoves(env: Env, call: Call, s: State, s': State)
    requires |call.d.nonce| == NONCE_SIZE && NoncesOk([call]) && Next(env, [call], s, s')
    ensures |s.pcs| == 1 == |s'.pcs| && Moves(env, call, s.t, s.pcs[0], s'.t, s'.pcs[0])
  {}

  lemma {:induction false} AloneReached(env: Env, call: Call, t: Secrets, states: seq<State>, k: nat) returns (f: Faults)
    requires AeadCorrect(env.crypto) && NoncesOk([call]) && |call.d.nonce| == NONCE_SIZE
    requires Run(env, t, [call], states) && k < |states| && AllOk(env.crypto, env.kek, t) && IdsOk(t)
    ensures |states[k].pcs| == 1 && Reached(env, call, t, f, states[k].t, states[k].pcs[0])
    decreases k
  {
    if k == 0 {
      f := NO_FAULTS;
    } else {
      f := AloneReached(env, call, t, states, k - 1);
      var s, s' := states[k - 1], states[k];
      RunStep(env, t, [call], states, k);
      OneMoves(env, call, s, s');
      EveryStateInv(env, t, [call], states, k - 1);
      f := MoveReached(env, call, t, f, s.t, s.pcs[0], s'.t, s'.pcs[0]);
    }
  }

  /** Every run of a handler alone on a right table ends with the table, the reply and the audit calls of its method, for
      some faults; only a delete can fail in one more way, at its read, and then nothing has happened. */
  lemma {:induction false} AloneIsHandler(env: Env, call: Call, w: World, states: seq<State>) returns (f: Faults)
    requires AeadCorrect(env.crypto) && NoncesOk([call]) && |call.d.nonce| == NONCE_SIZE
    requires w.trail == [] && w.db.secretsFts.Working? && AllOk(env.crypto, env.kek, w.db.secrets) && IdsOk(w.db.secrets)
    requires Run(env, w.db.secrets, [call], states)
    requires |states[|states| - 1].pcs| == 1 && states[|states| - 1].pcs[0].Done?
    ensures var end, t := states[|states| - 1], w.db.secrets;
      if f.deleteReads then
        (call.req.Delete? || call.req.UiDelete?) && end.t == t && end.pcs[0] == Done(ServerError, [])
      else
        var o := if call.req.List? then FaultyListOutcome(env, call.p, call.req, t, f.missed)
                 else Handle(env, call.p, call.req, Seen(t, f.unread), call.d);
        var (w', reply) := Settled(w, o, call.d, f.write, if call.req.UiSave? then UiFailed else ServerError);
        end.t == w'.db.secrets && end.pcs[0] == Done(reply, w'.trail)
  {
    var t := w.db.secrets;
    f := AloneReached(env, call, t, states, |states| - 1);
    SettledIff(w, OutcomeOf(env, call, t, f), call.d, f.write, FailedReply(call.req));
  }
}
