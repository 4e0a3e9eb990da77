/** The one-connection pool of internal/store/store.go: when threads sharing it can get stuck. */
module Pool {
  import opened Basics

  /** What an operation does to the pool: take the connection, run a statement on it, give it back. */
  datatype Act = Acquire | Statement | Release

  type Program = seq<Act>

  /** The connection is requested only when it is not held, used only when it is held, and given back at the end. */
  predicate Disciplined(p: Program, holding: bool)
  {
    if p == [] then !holding
    else match p[0]
      case Acquire => !holding && Disciplined(p[1..], true)
      case Statement => holding && Disciplined(p[1..], holding)
      case Release => holding && Disciplined(p[1..], false)
  }

  lemma {:induction false} DisciplinedConcat(p: Program, q: Program, holding: bool)
    requires Disciplined(p, holding) && Disciplined(q, false)
    ensures Disciplined(p + q, holding)
  {
    if p == [] {
      assert p + q == q;
    } else {
      assert (p + q)[1..] == p[1..] + q;
      DisciplinedConcat(p[1..], q, if p[0].Acquire? then true else if p[0].Release? then false else holding);
    }
  }

  /** ExecContext, or QueryContext drained and closed at once. */
  const ONE_CALL: Program := [Acquire, Statement, Release]

  /** Two statements between BeginTx and Commit or Rollback. */
  const TWO_IN_TX: Program := [Acquire, Statement, Statement, Release]

  function Repeat(n: nat, p: Program): Program { if n == 0 then [] else p + Repeat(n - 1, p) }

  lemma {:induction false} DisciplinedRepeat(n: nat, p: Program)
    requires Disciplined(p, false)
    ensures Disciplined(Repeat(n, p), false)
  {
    if n > 0 {
      DisciplinedRepeat(n - 1, p);
      DisciplinedConcat(p, Repeat(n - 1, p), false);
    }
  }

  /** Append: read the last hash and insert, in one transaction. */
  function AppendProgram(): Program { TWO_IN_TX }

  /** PutSecret: the upsert, the read of the id, and syncSecretFTS. */
  function PutSecretProgram(): Program { ONE_CALL + (ONE_CALL + TWO_IN_TX) }

  /** DeleteSecret: look up, delete the row, delete its index row. */
  function DeleteSecretProgram(): Program { ONE_CALL + (ONE_CALL + ONE_CALL) }

  /** CreateKey and UpdateKey: the write, and syncKeyFTS. */
  function WriteKeyProgram(): Program { ONE_CALL + TWO_IN_TX }

  /** One table of migrateFTS5: probe in a transaction that is rolled back, with two statements (of which an INSERT that
      fails leaves out the second); if the table is broken, drop it, recreate it, read all `n` source rows into a buffer,
      close the cursor, and insert them one by one. */
  function MigrateTable(broken: bool, n: nat): Program
  {
    TWO_IN_TX + if broken then Reindex(n) else []
  }

  function Reindex(n: nat): Program { Repeat(2, ONE_CALL) + (ONE_CALL + Repeat(n, ONE_CALL)) }

  function MigrateProgram(brokenSecrets: bool, secrets: nat, brokenKeys: bool, keys: nat): Program
  {
    MigrateTable(brokenSecrets, secrets) + MigrateTable(brokenKeys, keys)
  }

  lemma {:induction false} MigrateTableDisciplined(broken: bool, n: nat)
    ensures Disciplined(MigrateTable(broken, n), false)
  {
    assert Disciplined(ONE_CALL, false) && Disciplined(TWO_IN_TX, false);
    if broken {
      DisciplinedRepeat(2, ONE_CALL);
      DisciplinedRepeat(n, ONE_CALL);
      DisciplinedConcat(ONE_CALL, Repeat(n, ONE_CALL), false);
      DisciplinedConcat(Repeat(2, ONE_CALL), ONE_CALL + Repeat(n, ONE_CALL), false);
      DisciplinedConcat(TWO_IN_TX, Repeat(2, ONE_CALL) + (ONE_CALL + Repeat(n, ONE_CALL)), false);
    } else {
      assert TWO_IN_TX + [] == TWO_IN_TX;
    }
  }

  /** The store's operations never request the connection while holding it, whatever the tables' sizes. */
  predicate StoreOperation(p: Program)
  {
    p == AppendProgram() || p == PutSecretProgram() || p == DeleteSecretProgram() || p == WriteKeyProgram() ||
    p == ONE_CALL
  }

  /** A return behind `n` acts, for an error; a deferred Rollback or Close gives the connection back. */
  function EarlyReturn(p: Program, n: nat, holding: bool): Program
    requires n <= |p|
  {
    if n == 0 then (if holding then [Release] else [])
    else [p[0]] + EarlyReturn(p[1..], n - 1, if p[0].Acquire? then true else if p[0].Release? then false else holding)
  }

  lemma {:induction false} EarlyReturnDisciplined(p: Program, n: nat, holding: bool)
    requires Disciplined(p, holding) && n <= |p|
    ensures Disciplined(EarlyReturn(p, n, holding), holding)
  {
    if n == 0 {
      assert [Release][1..] == [];
    } else {
      EarlyReturnDisciplined(p[1..], n - 1, if p[0].Acquire? then true else if p[0].Release? then false else holding);
    }
  }

  /** Neither does one that returns early, at any point. */
  lemma {:induction false} StoreOperationsDisciplined(p: Program, n: nat, brokenSecrets: bool, secrets: nat,
                                                      brokenKeys: bool, keys: nat)
    requires StoreOperation(p) || p == MigrateProgram(brokenSecrets, secrets, brokenKeys, keys)
    requires n <= |p|
    ensures Disciplined(p, false) && Disciplined(EarlyReturn(p, n, false), false)
  {
    WholeOperationDisciplined(p, brokenSecrets, secrets, brokenKeys, keys);
    EarlyReturnDisciplined(p, n, false);
  }

  lemma {:induction false} WholeOperationDisciplined(p: Program, brokenSecrets: bool, secrets: nat, brokenKeys: bool,
                                                     keys: nat)
    requires StoreOperation(p) || p == MigrateProgram(brokenSecrets, secrets, brokenKeys, keys)
    ensures Disciplined(p, false)
  {
    assert Disciplined(ONE_CALL, false) && Disciplined(TWO_IN_TX, false);
    DisciplinedConcat(ONE_CALL, ONE_CALL, false);
    DisciplinedConcat(ONE_CALL, ONE_CALL + ONE_CALL, false);
    DisciplinedConcat(ONE_CALL, TWO_IN_TX, false);
    DisciplinedConcat(ONE_CALL, ONE_CALL + TWO_IN_TX, false);
    MigrateTableDisciplined(brokenSecrets, secrets);
    MigrateTableDisciplined(brokenKeys, keys);
    DisciplinedConcat(MigrateTable(brokenSecrets, secrets), MigrateTable(brokenKeys, keys), false);
  }

  /** The operation from its start to some return. */
  ghost predicate InPart(p: Program, acts: Program)
  {
    exists n :: 0 <= n <= |p| && acts == EarlyReturn(p, n, false)
  }

  /** What is done of a disciplined operation is disciplined. */
  lemma {:induction false} InPartDisciplined(p: Program, acts: Program)
    requires Disciplined(p, false) && InPart(p, acts)
    ensures Disciplined(acts, false)
  {
    var n :| 0 <= n <= |p| && acts == EarlyReturn(p, n, false);
    EarlyReturnDisciplined(p, n, false);
  }

  lemma {:induction false} EarlyBehind(p: Program, q: Program, n: nat, holding: bool)
    requires Disciplined(p, holding) && n <= |q|
    ensures EarlyReturn(p + q, |p| + n, holding) == p + EarlyReturn(q, n, false)
  {
    if p == [] {
      assert p + q == q && [] + EarlyReturn(q, n, false) == EarlyReturn(q, n, false);
    } else {
      var next := if p[0].Acquire? then true else if p[0].Release? then false else holding;
      EarlyBehind(p[1..], q, n, next);
      assert (p + q)[0] == p[0] && (p + q)[1..] == p[1..] + q;
      assert [p[0]] + (p[1..] + EarlyReturn(q, n, false)) == p + EarlyReturn(q, n, false);
    }
  }

  lemma {:induction false} InPartBehind(p: Program, q: Program, acts: Program)
    requires Disciplined(p, false) && InPart(q, acts)
    ensures InPart(p + q, p + acts)
  {
    var n :| 0 <= n <= |q| && acts == EarlyReturn(q, n, false);
    EarlyBehind(p, q, n, false);
  }

  lemma {:induction false} InPartFront(p: Program, q: Program)
    requires Disciplined(p, false)
    ensures InPart(p + q, p)
  {
    assert EarlyReturn(q, 0, false) == [];
    InPartBehind(p, q, []);
    assert p + [] == p;
  }

  lemma {:induction false} InPartLonger(p: Program, q: Program, acts: Program)
    requires InPart(p, acts)
    ensures InPart(p + q, acts)
  {
    var n :| 0 <= n <= |p| && acts == EarlyReturn(p, n, false);
    EarlyOfLonger(p, q, n, false);
  }

  lemma {:induction false} EarlyOfLonger(p: Program, q: Program, n: nat, holding: bool)
    requires n <= |p|
    ensures EarlyReturn(p + q, n, holding) == EarlyReturn(p, n, holding)
  {
    if n > 0 {
      assert (p + q)[0] == p[0] && (p + q)[1..] == p[1..] + q;
      EarlyOfLonger(p[1..], q, n - 1, if p[0].Acquire? then true else if p[0].Release? then false else holding);
    }
  }

  lemma {:induction false} InPartWhole(p: Program)
    requires Disciplined(p, false)
    ensures InPart(p, p)
  {
    InPartFront(p, []);
    assert p + [] == p;
  }

  /** Where a transaction can end. */
  lemma {:induction false} TransactionParts()
    ensures Disciplined(TWO_IN_TX, false) && Disciplined(ONE_CALL, false)
    ensures InPart(TWO_IN_TX, []) && InPart(TWO_IN_TX, ONE_CALL) && InPart(TWO_IN_TX, TWO_IN_TX)
  {
    assert EarlyReturn(TWO_IN_TX, 0, false) == [];
    assert TWO_IN_TX[1..] == [Statement, Statement, Release] && TWO_IN_TX[1..][1..] == [Statement, Release];
    assert EarlyReturn([Statement, Release], 0, true) == [Release];
    assert EarlyReturn([Statement, Statement, Release], 1, true) == [Statement] + [Release];
    assert EarlyReturn(TWO_IN_TX, 2, false) == ONE_CALL;
    InPartWhole(TWO_IN_TX);
  }

  /** Where the operations can return. */
  lemma {:induction false} WriteKeyParts()
    ensures InPart(WriteKeyProgram(), ONE_CALL) && InPart(WriteKeyProgram(), ONE_CALL + ONE_CALL)
    ensures InPart(WriteKeyProgram(), WriteKeyProgram())
  {
    TransactionParts();
    InPartFront(ONE_CALL, TWO_IN_TX);
    InPartBehind(ONE_CALL, TWO_IN_TX, ONE_CALL);
    InPartBehind(ONE_CALL, TWO_IN_TX, TWO_IN_TX);
  }

  lemma {:induction false} PutSecretParts()
    ensures InPart(PutSecretProgram(), ONE_CALL) && InPart(PutSecretProgram(), ONE_CALL + ONE_CALL)
    ensures InPart(PutSecretProgram(), ONE_CALL + (ONE_CALL + ONE_CALL))
    ensures InPart(PutSecretProgram(), PutSecretProgram())
  {
    TransactionParts();
    WriteKeyParts();
    InPartFront(ONE_CALL, ONE_CALL + TWO_IN_TX);
    InPartBehind(ONE_CALL, ONE_CALL + TWO_IN_TX, ONE_CALL);
    InPartBehind(ONE_CALL, ONE_CALL + TWO_IN_TX, ONE_CALL + ONE_CALL);
    InPartBehind(ONE_CALL, ONE_CALL + TWO_IN_TX, ONE_CALL + TWO_IN_TX);
  }

  lemma {:induction false} DeleteSecretParts()
    ensures InPart(DeleteSecretProgram(), ONE_CALL) && InPart(DeleteSecretProgram(), ONE_CALL + ONE_CALL)
    ensures InPart(DeleteSecretProgram(), DeleteSecretProgram())
  {
    TransactionParts();
    InPartWhole(ONE_CALL);
    InPartFront(ONE_CALL, ONE_CALL);
    InPartBehind(ONE_CALL, ONE_CALL, ONE_CALL);
    InPartFront(ONE_CALL, ONE_CALL + ONE_CALL);
    InPartBehind(ONE_CALL, ONE_CALL + ONE_CALL, ONE_CALL);
    InPartBehind(ONE_CALL, ONE_CALL + ONE_CALL, ONE_CALL + ONE_CALL);
  }

  lemma {:induction false} RepeatParts(n: nat, m: nat)
    requires m <= n
    ensures InPart(Repeat(n, ONE_CALL), Repeat(m, ONE_CALL))
  {
    if m == 0 {
      assert EarlyReturn(Repeat(n, ONE_CALL), 0, false) == [];
    } else {
      RepeatParts(n - 1, m - 1);
      InPartBehind(ONE_CALL, Repeat(n - 1, ONE_CALL), Repeat(m - 1, ONE_CALL));
    }
  }

  /** Where the migration of a table that the probe finds broken can end. */
  lemma {:induction false} MigrateTableParts(n: nat, m: nat)
    requires m <= n
    ensures InPart(MigrateTable(true, n), TWO_IN_TX + Repeat(1, ONE_CALL))
    ensures InPart(MigrateTable(true, n), TWO_IN_TX + Repeat(2, ONE_CALL))
    ensures InPart(MigrateTable(true, n), TWO_IN_TX + (Repeat(2, ONE_CALL) + (ONE_CALL + Repeat(m, ONE_CALL))))
  {
    TransactionParts();
    var q := ONE_CALL + Repeat(n, ONE_CALL);
    DisciplinedRepeat(2, ONE_CALL);
    RepeatParts(n, m);
    InPartBehind(ONE_CALL, Repeat(n, ONE_CALL), Repeat(m, ONE_CALL));
    InPartBehind(Repeat(2, ONE_CALL), q, ONE_CALL + Repeat(m, ONE_CALL));
    InPartBehind(TWO_IN_TX, Repeat(2, ONE_CALL) + q, Repeat(2, ONE_CALL) + (ONE_CALL + Repeat(m, ONE_CALL)));
    InPartFront(Repeat(2, ONE_CALL), q);
    InPartBehind(TWO_IN_TX, Repeat(2, ONE_CALL) + q, Repeat(2, ONE_CALL));
    DisciplinedRepeat(1, ONE_CALL);
    assert Repeat(2, ONE_CALL) + q == Repeat(1, ONE_CALL) + (ONE_CALL + q);
    InPartFront(Repeat(1, ONE_CALL), ONE_CALL + q);
    InPartBehind(TWO_IN_TX, Repeat(2, ONE_CALL) + q, Repeat(1, ONE_CALL));
  }

  /** And where that of both tables can. */
  lemma {:induction false} MigratedInPart(brokenSecrets: bool, secrets: nat, brokenKeys: bool, keys: nat, acts: Program)
    requires InPart(MigrateTable(brokenSecrets, secrets), acts)
    ensures InPart(MigrateProgram(brokenSecrets, secrets, brokenKeys, keys), acts)
  {
    InPartLonger(MigrateTable(brokenSecrets, secrets), MigrateTable(brokenKeys, keys), acts);
  }

  lemma {:induction false} MigratedOn(brokenSecrets: bool, secrets: nat, brokenKeys: bool, keys: nat, more: Program)
    requires InPart(MigrateTable(brokenKeys, keys), more)
    ensures InPart(MigrateProgram(brokenSecrets, secrets, brokenKeys, keys),
                   MigrateTable(brokenSecrets, secrets) + more)
  {
    MigrateTableDisciplined(brokenSecrets, secrets);
    InPartBehind(MigrateTable(brokenSecrets, secrets), MigrateTable(brokenKeys, keys), more);
  }

  /** Threads with what is left of their programs, and the connection's holder. */
  datatype State = State(left: seq<Program>, holder: Option<nat>)

  predicate Holding(s: State, t: nat) { s.holder == Some(t) }

  predicate CanStep(s: State, t: nat)
  {
    t < |s.left| && s.left[t] != [] && (s.left[t][0].Acquire? ==> s.holder.None?)
  }

  function Do(s: State, t: nat): State
    requires CanStep(s, t)
  {
    State(s.left[t := s.left[t][1..]],
          match s.left[t][0]
          case Acquire => Some(t)
          case Release => None
          case Statement => s.holder)
  }

  ghost predicate Inv(s: State)
  {
    (s.holder.Some? ==> s.holder.value < |s.left|) &&
    forall t :: 0 <= t < |s.left| ==> Disciplined(s.left[t], Holding(s, t))
  }

  lemma {:induction false} InvDo(s: State, t: nat)
    requires Inv(s) && CanStep(s, t)
    ensures Inv(Do(s, t))
  {
    var s' := Do(s, t);
    forall u | 0 <= u < |s'.left| ensures Disciplined(s'.left[u], Holding(s', u)) {
      assert Disciplined(s.left[u], Holding(s, u)) && Disciplined(s.left[t], Holding(s, t));
    }
  }

  ghost predicate Finished(s: State) { forall t :: 0 <= t < |s.left| ==> s.left[t] == [] }

  ghost predicate Stuck(s: State) { !Finished(s) && forall t: nat :: !CanStep(s, t) }

  /** The state after the threads in `schedule` have stepped in that order. */
  ghost predicate Reaches(s: State, schedule: seq<nat>, s': State)
    decreases |schedule|
  {
    if schedule == [] then s' == s
    else CanStep(s, schedule[0]) && Reaches(Do(s, schedule[0]), schedule[1..], s')
  }

  lemma {:induction false} InvReached(s: State, schedule: seq<nat>, s': State)
    requires Inv(s) && Reaches(s, schedule, s')
    ensures Inv(s')
    decreases |schedule|
  {
    if schedule != [] {
      InvDo(s, schedule[0]);
      InvReached(Do(s, schedule[0]), schedule[1..], s');
    }
  }

  /** Threads that run disciplined programs never get stuck: after any schedule, all are finished or one can step. */
  lemma {:induction false} DisciplinedNeverStuck(programs: seq<Program>, schedule: seq<nat>, s: State)
    requires forall t :: 0 <= t < |programs| ==> Disciplined(programs[t], false)
    requires Reaches(State(programs, None), schedule, s)
    ensures !Stuck(s)
  {
    InvReached(State(programs, None), schedule, s);
    if !Finished(s) {
      var u :| 0 <= u < |s.left| && s.left[u] != [];
      var t := if s.holder.Some? then s.holder.value else u;
      assert Disciplined(s.left[t], Holding(s, t));
      assert CanStep(s, t);
    }
  }

  /** Inserting while the cursor is open: the pattern that migrateFTS5 buffers its rows to avoid. */
  function UnbufferedReindex(n: nat): Program
  {
    [Acquire, Statement] + (Repeat(n, ONE_CALL) + [Release])
  }

  /** With a row to insert, it requests the connection that its own cursor holds. */
  lemma {:induction false} UnbufferedReindexHangs(n: nat) returns (schedule: seq<nat>, s: State)
    requires n > 0
    ensures Reaches(State([UnbufferedReindex(n)], None), schedule, s) && Stuck(s)
  {
    var p := UnbufferedReindex(n);
    var rest := Repeat(n, ONE_CALL) + [Release];
    var s0, s1 := State([p], None), State([p[1..]], Some(0));
    s := State([rest], Some(0));
    schedule := [0, 0];
    assert p[1..][0] == Statement && p[1..][1..] == rest;
    assert Do(s0, 0) == s1 && Do(s1, 0) == s;
    assert schedule[1..] == [0] && schedule[1..][1..] == [];
    assert Reaches(s1, schedule[1..], s);
    assert rest[0] == Acquire && s.left[0] != [];
  }

  ghost predicate CanHang(start: State)
  {
    exists schedule: seq<nat>, s: State :: Reaches(start, schedule, s) && Stuck(s)
  }

  /** That pattern can hang on its own exactly when there is a row to insert. */
  lemma {:induction false} UnbufferedReindexStuckIff(n: nat)
    ensures CanHang(State([UnbufferedReindex(n)], None)) <==> n > 0
  {
    if n > 0 {
      var schedule, s := UnbufferedReindexHangs(n);
    } else {
      assert Repeat(0, ONE_CALL) + [Release] == [Release];
      assert UnbufferedReindex(0) == [Acquire, Statement, Release];
      forall schedule, s | Reaches(State([UnbufferedReindex(n)], None), schedule, s) ensures !Stuck(s) {
        DisciplinedNeverStuck([UnbufferedReindex(n)], schedule, s);
      }
    }
  }
}
