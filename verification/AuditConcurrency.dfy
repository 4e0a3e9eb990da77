/** Any number of threads running Append over the store's single connection
    (internal/audit/audit.go over SetMaxOpenConns(1) in internal/store/store.go). */
module AuditConcurrency {
  import opened Basics
  import opened CryptoPrimitives
  import opened AuditChain
  import HashChain

  /** Where a thread is in Append; a row that is only inserted is visible to its own transaction alone. */
  datatype Pc = Waiting | Begun | HasPrev(prev: Str) | Inserted(row: Row) | Committed | Failed

  datatype State = State(
    rows: seq<Row>,          // the committed table
    holder: Option<nat>,     // the thread that has the connection
    pcs: seq<Pc>,
    order: seq<nat>)         // the threads that have committed, in order

  predicate InTx(pc: Pc) { pc.Begun? || pc.HasPrev? || pc.Inserted? }

  predicate Done(pc: Pc) { pc.Committed? || pc.Failed? }

  /** The calls of Append that succeed. */
  datatype Call = Begin | ReadLast | Insert | Commit

  /** Thread `t` appending `e` gets through one call. */
  predicate Advance(c: Crypto, key: Str, e: Entry, call: Call, t: nat, s: State, s': State)
    requires t < |s.pcs|
  {
    match call
    case Begin =>
      s.pcs[t].Waiting? && s.holder.None? &&
      s' == s.(holder := Some(t), pcs := s.pcs[t := Begun])
    case ReadLast =>
      s.pcs[t].Begun? && s' == s.(pcs := s.pcs[t := HasPrev(EndHash(s.rows))])
    case Insert =>
      s.pcs[t].HasPrev? && |s.pcs[t].prev| == 32 &&
      s' == s.(pcs := s.pcs[t := Inserted(ChainedRow(c, key, NextId(s.rows), s.pcs[t].prev, e))])
    case Commit =>
      s.pcs[t].Inserted? &&
      s' == State(s.rows + [s.pcs[t].row], None, s.pcs[t := Committed], s.order + [t])
  }

  /** A call fails, and the deferred rollback gives the connection back. */
  predicate Fail(t: nat, s: State, s': State)
    requires t < |s.pcs|
  {
    !Done(s.pcs[t]) &&
    s' == s.(pcs := s.pcs[t := Failed], holder := if InTx(s.pcs[t]) then None else s.holder)
  }

  predicate Step(c: Crypto, key: Str, e: Entry, t: nat, s: State, s': State)
    requires t < |s.pcs|
  {
    (exists call :: Advance(c, key, e, call, t, s, s')) || Fail(t, s, s')
  }

  ghost predicate Next(c: Crypto, key: Str, es: seq<Entry>, s: State, s': State)
  {
    |s.pcs| == |es| && exists t: nat :: t < |es| && Step(c, key, es[t], t, s, s')
  }

  function Start(init: seq<Row>, n: nat): State
  {
    State(init, None, seq(n, i => Waiting), [])
  }

  /** A run: every state follows from the one before. */
  ghost predicate Run(c: Crypto, key: Str, init: seq<Row>, es: seq<Entry>, states: seq<State>)
  {
    states != [] && states[0] == Start(init, |es|) &&
    forall i :: 0 < i < |states| ==> Next(c, key, es, states[i - 1], states[i])
  }

  /** A transaction belongs to the holder and has seen the end of the committed table. */
  predicate TxOk(c: Crypto, key: Str, e: Entry, t: nat, s: State)
    requires t < |s.pcs|
  {
    var pc := s.pcs[t];
    (InTx(pc) <==> s.holder == Some(t)) &&
    (pc.HasPrev? ==> pc.prev == EndHash(s.rows)) &&
    (pc.Inserted? ==> pc.row == ChainedRow(c, key, NextId(s.rows), EndHash(s.rows), e))
  }

  /** The rows behind the initial ones are exactly the committed threads' entries, one each. */
  ghost predicate Ledger(init: seq<Row>, es: seq<Entry>, s: State)
  {
    init <= s.rows && |s.rows| == |init| + |s.order| && |s.pcs| == |es| &&
    (forall k :: 0 <= k < |s.order| ==> s.order[k] < |es|) &&
    (forall k :: 0 <= k < |s.order| ==> EntryOf(s.rows[|init| + k]).(id := 0) == es[s.order[k]].(id := 0)) &&
    (forall j, k :: 0 <= j < k < |s.order| ==> s.order[j] != s.order[k]) &&
    (forall t :: 0 <= t < |es| ==> (s.pcs[t].Committed? <==> t in s.order))
  }

  ghost predicate Inv(c: Crypto, key: Str, init: seq<Row>, es: seq<Entry>, s: State)
  {
    Accepts(c, key, s.rows) && IdsAscend(s.rows) && |s.pcs| == |es| &&
    (s.holder.Some? ==> s.holder.value < |es|) &&
    (forall t :: 0 <= t < |es| ==> TxOk(c, key, es[t], t, s)) &&
    Ledger(init, es, s)
  }

  /** What a commit adds. */
  lemma {:induction false} CommitKeepsTable(c: Crypto, key: Str, init: seq<Row>, es: seq<Entry>, s: State, t: nat)
    requires Inv(c, key, init, es, s) && t < |es| && s.pcs[t].Inserted?
    ensures var more := s.rows + [s.pcs[t].row];
      && Accepts(c, key, more) && IdsAscend(more) && EntryOf(more[|s.rows|]).(id := 0) == es[t].(id := 0)
  {
    assert TxOk(c, key, es[t], t, s);
    AppendKeepsChain(c, key, s.rows, es[t]);
    AppendKeepsIds(c, key, s.rows, es[t]);
    AppendedEntry(c, key, s.rows, es[t], |s.rows|);
  }

  lemma {:induction false} CommitKeepsLedger(c: Crypto, key: Str, init: seq<Row>, es: seq<Entry>, s: State, t: nat,
                                             s': State)
    requires Inv(c, key, init, es, s) && t < |es| && Advance(c, key, es[t], Commit, t, s, s')
    ensures Ledger(init, es, s')
  {
    CommitKeepsTable(c, key, init, es, s, t);
    LedgerGrows(init, es, s, t, s.pcs[t].row, s');
  }

  lemma {:induction false} LedgerGrows(init: seq<Row>, es: seq<Entry>, s: State, t: nat, row: Row, s': State)
    requires Ledger(init, es, s) && t < |es| && !s.pcs[t].Committed? && s'.pcs == s.pcs[t := Committed]
    requires s'.rows == s.rows + [row] && s'.order == s.order + [t] && EntryOf(row).(id := 0) == es[t].(id := 0)
    ensures Ledger(init, es, s')
  {
    var n := |s.order|;
    forall k | 0 <= k < n + 1 ensures EntryOf(s'.rows[|init| + k]).(id := 0) == es[s'.order[k]].(id := 0) {
      if k < n { assert s'.rows[|init| + k] == s.rows[|init| + k] && s'.order[k] == s.order[k]; }
    }
    assert forall u :: u in s'.order <==> u in s.order || u == t;
    assert t !in s.order by { assert !s.pcs[t].Committed?; }
  }

  lemma {:induction false} InvStep(c: Crypto, key: Str, init: seq<Row>, es: seq<Entry>, s: State, t: nat, s': State)
    requires Inv(c, key, init, es, s) && t < |es| && Step(c, key, es[t], t, s, s')
    ensures Inv(c, key, init, es, s')
  {
    assert TxOk(c, key, es[t], t, s);
    forall u | 0 <= u < |es| ensures TxOk(c, key, es[u], u, s') { assert TxOk(c, key, es[u], u, s); }
    if Advance(c, key, es[t], Commit, t, s, s') {
      CommitKeepsTable(c, key, init, es, s, t);
      CommitKeepsLedger(c, key, init, es, s, t, s');
    } else {
      assert s'.rows == s.rows && s'.order == s.order;
      assert forall u :: 0 <= u < |es| ==> (s'.pcs[u].Committed? <==> s.pcs[u].Committed?);
    }
  }

  lemma {:induction false} InvStart(c: Crypto, key: Str, init: seq<Row>, es: seq<Entry>)
    requires Accepts(c, key, init) && IdsAscend(init)
    ensures Inv(c, key, init, es, Start(init, |es|))
  {}

  /** Whatever the interleaving and whichever calls fail: at every moment Verify accepts the committed table, which is
      the initial one followed by exactly one row for each thread that committed, in commit order. */
  lemma {:induction false} EveryInterleavingAccepted(c: Crypto, key: Str, init: seq<Row>, es: seq<Entry>,
                                                     states: seq<State>)
    requires Accepts(c, key, init) && IdsAscend(init) && Run(c, key, init, es, states)
    ensures Inv(c, key, init, es, states[|states| - 1])
    decreases |states|
  {
    InvStart(c, key, init, es);
    if |states| > 1 {
      var before := states[..|states| - 1];
      forall i | 0 < i < |before| ensures Next(c, key, es, before[i - 1], before[i]) {
        assert Next(c, key, es, states[i - 1], states[i]);
      }
      EveryInterleavingAccepted(c, key, init, es, before);
      var s, s' := states[|states| - 2], states[|states| - 1];
      assert Next(c, key, es, s, s');
      var t: nat :| t < |es| && Step(c, key, es[t], t, s, s');
      InvStep(c, key, init, es, s, t, s');
    }
  }

  /** As long as some thread is not done, some thread's next call can go through: the threads never wait for
      each other in a circle. */
  lemma {:induction false} SomeThreadAdvances(c: Crypto, key: Str, init: seq<Row>, es: seq<Entry>, s: State, u: nat)
    requires Inv(c, key, init, es, s) && u < |es| && !Done(s.pcs[u])
    ensures exists t: nat, call, s' :: t < |es| && Advance(c, key, es[t], call, t, s, s')
  {
    var t: nat := if s.holder.Some? then s.holder.value else u;
    assert TxOk(c, key, es[t], t, s) && TxOk(c, key, es[u], u, s);
    match s.pcs[t] {
      case Waiting =>
        var s' := s.(holder := Some(t), pcs := s.pcs[t := Begun]);
        assert Advance(c, key, es[t], Begin, t, s, s');
      case Begun =>
        var s' := s.(pcs := s.pcs[t := HasPrev(EndHash(s.rows))]);
        assert Advance(c, key, es[t], ReadLast, t, s, s');
      case HasPrev(prev) =>
        EndHashIs32(c, key, s.rows);
        var s' := s.(pcs := s.pcs[t := Inserted(ChainedRow(c, key, NextId(s.rows), prev, es[t]))]);
        assert Advance(c, key, es[t], Insert, t, s, s');
      case Inserted(row) =>
        var s' := State(s.rows + [row], None, s.pcs[t := Committed], s.order + [t]);
        assert Advance(c, key, es[t], Commit, t, s, s');
      case Committed =>
      case Failed =>
    }
  }

  lemma {:induction false} EndHashIs32(c: Crypto, key: Str, rows: seq<Row>)
    requires Accepts(c, key, rows)
    ensures |EndHash(rows)| == 32
  {
    EndHashOfLinks(rows);
    HashChain.PrevIs32(Scheme(c), key, Links(rows), |rows|);
  }

  /** Calls a thread may still make. */
  function Left(pc: Pc): nat
  {
    match pc
    case Waiting => 4
    case Begun => 3
    case HasPrev(_) => 2
    case Inserted(_) => 1
    case Committed => 0
    case Failed => 0
  }

  function AllLeft(pcs: seq<Pc>): nat { if pcs == [] then 0 else Left(pcs[0]) + AllLeft(pcs[1..]) }

  lemma {:induction false} AllLeftUpdate(pcs: seq<Pc>, t: nat, pc: Pc)
    requires t < |pcs|
    ensures AllLeft(pcs[t := pc]) == AllLeft(pcs) - Left(pcs[t]) + Left(pc)
  {
    if t == 0 {
      assert pcs[t := pc][1..] == pcs[1..];
    } else {
      AllLeftUpdate(pcs[1..], t - 1, pc);
      assert pcs[t := pc][1..] == pcs[1..][t - 1 := pc];
    }
  }

  lemma {:induction false} AllLeftBound(pcs: seq<Pc>)
    ensures AllLeft(pcs) <= 4 * |pcs|
  {
    if pcs != [] { AllLeftBound(pcs[1..]); }
  }

  lemma {:induction false} StepUsesCall(c: Crypto, key: Str, es: seq<Entry>, s: State, s': State)
    requires Next(c, key, es, s, s')
    ensures AllLeft(s'.pcs) < AllLeft(s.pcs) && |s'.pcs| == |s.pcs|
  {
    var t: nat :| t < |es| && Step(c, key, es[t], t, s, s');
    var pc := StepMoves(c, key, es[t], t, s, s');
    AllLeftUpdate(s.pcs, t, pc);
  }

  lemma {:induction false} StepMoves(c: Crypto, key: Str, e: Entry, t: nat, s: State, s': State) returns (pc: Pc)
    requires t < |s.pcs| && Step(c, key, e, t, s, s')
    ensures s'.pcs == s.pcs[t := pc] && Left(pc) < Left(s.pcs[t])
  {
    pc := s'.pcs[t];
  }

  /** Every run ends: n threads take at most 4n steps. */
  lemma {:induction false} RunsEnd(c: Crypto, key: Str, init: seq<Row>, es: seq<Entry>, states: seq<State>)
    requires Run(c, key, init, es, states)
    ensures |states| - 1 + AllLeft(states[|states| - 1].pcs) <= 4 * |es|
    ensures |states[|states| - 1].pcs| == |es|
    decreases |states|
  {
    if |states| == 1 {
      AllLeftBound(states[0].pcs);
    } else {
      var before := states[..|states| - 1];
      forall i | 0 < i < |before| ensures Next(c, key, es, before[i - 1], before[i]) {
        assert Next(c, key, es, states[i - 1], states[i]);
      }
      RunsEnd(c, key, init, es, before);
      assert Next(c, key, es, states[|states| - 2], states[|states| - 1]);
      StepUsesCall(c, key, es, states[|states| - 2], states[|states| - 1]);
    }
  }
}
