/** A full-text table that is to hold one row per row of a base table (internal/store/store.go). */
module FtsIndex {
  import opened Basics
  import Pool

  /** The three indexed columns. */
  datatype FtsRow = FtsRow(title: Str, description: Str, metadataText: Str)

  /** What a base row contributes: its id and its current text. */
  datatype Doc = Doc(id: int, text: FtsRow)

  /** A table with its rows by rowid, or one with the v0.1.0 schema, which refuses deletes;
      `searchable` says whether SQLite finds a row that was just inserted into it. */
  datatype FtsTable = Working(rows: map<int, FtsRow>) | Legacy(searchable: bool)

  predicate IdsDistinct(docs: map<Str, Doc>)
  {
    forall p, q :: p in docs && q in docs && docs[p].id == docs[q].id ==> p == q
  }

  predicate IdsPositive(docs: map<Str, Doc>) { forall p :: p in docs ==> docs[p].id > 0 }

  predicate HasId(docs: map<Str, Doc>, id: int) { exists p :: p in docs && docs[p].id == id }

  predicate Holds(rows: map<int, FtsRow>, d: Doc) { d.id in rows && rows[d.id] == d.text }

  /** One row for each base row, with its id and current text, and nothing else. */
  predicate Indexed(docs: map<Str, Doc>, rows: map<int, FtsRow>)
  {
    (forall p :: p in docs ==> Holds(rows, docs[p])) && forall id :: id in rows ==> HasId(docs, id)
  }

  predicate Mirrors(docs: map<Str, Doc>, f: FtsTable) { f.Working? && Indexed(docs, f.rows) }

  /** The base table determines the index. */
  lemma {:induction false} MirrorUnique(docs: map<Str, Doc>, f: FtsTable, g: FtsTable)
    requires Mirrors(docs, f) && Mirrors(docs, g)
    ensures f == g
  {
    forall id | id in f.rows ensures id in g.rows && g.rows[id] == f.rows[id] {
      var p :| p in docs && docs[p].id == id;
      assert Holds(f.rows, docs[p]) && Holds(g.rows, docs[p]);
    }
    forall id | id in g.rows ensures id in f.rows {
      var p :| p in docs && docs[p].id == id;
      assert Holds(f.rows, docs[p]);
    }
    assert f.rows == g.rows;
  }

  /** DELETE the rowid, then INSERT it; a legacy table refuses the DELETE and is rolled back. */
  function Synced(f: FtsTable, d: Doc): FtsTable
  {
    if f.Working? then Working(f.rows[d.id := d.text]) else f
  }

  function Dropped(f: FtsTable, id: int): FtsTable
  {
    if f.Working? then Working(f.rows - {id}) else f
  }

  /** Syncing the index after a write of one base row keeps it exact: a new id, or the id the row had before. */
  lemma {:induction false} SyncKeepsMirror(docs: map<Str, Doc>, f: FtsTable, p: Str, d: Doc)
    requires Mirrors(docs, f) && IdsDistinct(docs[p := d])
    requires p in docs ==> docs[p].id == d.id
    ensures Mirrors(docs[p := d], Synced(f, d))
  {
    var docs', rows' := docs[p := d], f.rows[d.id := d.text];
    forall q | q in docs' ensures Holds(rows', docs'[q]) {
      assert p in docs';
      if q != p { assert Holds(f.rows, docs[q]); }
    }
    forall id | id in rows' ensures HasId(docs', id) {
      if id == d.id {
        assert docs'[p].id == id;
      } else {
        var q :| q in docs && docs[q].id == id;
        assert docs'[q].id == id;
      }
    }
  }

  /** Without the sync, the index stays exact just when the row's document did not change. */
  lemma {:induction false} UnsyncedMirrorIff(docs: map<Str, Doc>, f: FtsTable, p: Str, d: Doc)
    requires Mirrors(docs, f) && (p in docs ==> docs[p].id == d.id)
    requires p !in docs ==> !HasId(docs, d.id)
    ensures Mirrors(docs[p := d], f) <==> p in docs && docs[p] == d
  {
    var docs' := docs[p := d];
    assert docs'[p] == d;
    if p in docs {
      assert Holds(f.rows, docs[p]);
      if docs[p] == d { assert docs' == docs; } else { assert !Holds(f.rows, docs'[p]); }
    } else {
      assert !Holds(f.rows, docs'[p]);
    }
  }

  lemma {:induction false} DropKeepsMirror(docs: map<Str, Doc>, f: FtsTable, p: Str)
    requires Mirrors(docs, f) && IdsDistinct(docs) && p in docs
    ensures Mirrors(docs - {p}, Dropped(f, docs[p].id))
  {
    var docs', rows' := docs - {p}, f.rows - {docs[p].id};
    forall q | q in docs' ensures Holds(rows', docs'[q]) { assert Holds(f.rows, docs[q]); }
    forall id | id in rows' ensures HasId(docs', id) {
      var q :| q in docs && docs[q].id == id;
      assert q in docs';
    }
  }

  /** A row synced under an id and text that no base row has breaks the mirror. */
  lemma {:induction false} StraySyncBreaks(docs: map<Str, Doc>, f: FtsTable, d: Doc)
    requires forall p :: p in docs ==> docs[p] != d
    ensures !Mirrors(docs, Synced(f, d))
  {
    if f.Working? {
      var rows' := f.rows[d.id := d.text];
      if HasId(docs, d.id) {
        var p :| p in docs && docs[p].id == d.id;
        assert docs[p] != d && !Holds(rows', docs[p]);
      } else {
        assert d.id in rows';
      }
    }
  }

  /** SQLite's next id for an INTEGER PRIMARY KEY: one past the highest in use. */
  function NextId(ids: set<int>): (n: int)
    ensures forall i :: i in ids ==> i < n
    ensures ids != {} ==> n - 1 in ids
    ensures ids == {} ==> n == 1
  {
    if ids == {} then 1 else
    MaxExists(ids);
    var m :| m in ids && forall i :: i in ids ==> i <= m;
    m + 1
  }

  lemma {:induction false} MaxExists(ids: set<int>)
    requires ids != {}
    ensures exists m :: m in ids && forall i :: i in ids ==> i <= m
    decreases |ids|
  {
    assert (forall i :: i !in ids) ==> ids == {};
    var m :| m in ids;
    if ids != {m} {
      MaxExists(ids - {m});
      var n :| n in ids - {m} && forall i :: i in ids - {m} ==> i <= n;
      var top := if m > n then m else n;
      forall i | i in ids ensures i <= top { if i != m { assert i in ids - {m}; } }
    }
  }

  const PROBE_ROWID := -99

  /** The probe of migrateFTS5: an INSERT at PROBE_ROWID and a search for it, both rolled back. */
  predicate ProbeSaysBroken(f: FtsTable)
  {
    if f.Working? then PROBE_ROWID in f.rows else !f.searchable
  }

  /** A working table that mirrors positive ids passes the probe. */
  lemma {:induction false} MirrorPassesProbe(docs: map<Str, Doc>, f: FtsTable)
    requires Mirrors(docs, f) && IdsPositive(docs)
    ensures !ProbeSaysBroken(f)
  {
    assert !HasId(docs, PROBE_ROWID);
  }

  predicate SeqIdsDistinct(data: seq<Doc>)
  {
    forall i, j :: 0 <= i < j < |data| ==> data[i].id != data[j].id
  }

  /** The rows are those of the buffered documents. */
  predicate HoldsAll(rows: map<int, FtsRow>, data: seq<Doc>)
  {
    (forall d :: d in data ==> Holds(rows, d)) && forall id :: id in rows ==> exists d :: d in data && d.id == id
  }

  lemma {:induction false} HoldsOneMore(rows: map<int, FtsRow>, data: seq<Doc>, d: Doc)
    requires HoldsAll(rows, data) && d.id !in rows
    ensures HoldsAll(rows[d.id := d.text], data + [d])
  {
    var rows', data' := rows[d.id := d.text], data + [d];
    assert d in data';
    forall e | e in data' ensures Holds(rows', e) {
      if e != d { assert e in data && Holds(rows, e); }
    }
    forall id | id in rows' ensures exists e :: e in data' && e.id == id {
      if id != d.id {
        var e :| e in data && e.id == id;
        assert e in data';
      }
    }
  }

  lemma {:induction false} DistinctOneMore(rows: map<int, FtsRow>, data: seq<Doc>, d: Doc)
    requires HoldsAll(rows, data) && d.id !in rows && SeqIdsDistinct(data)
    ensures SeqIdsDistinct(data + [d])
  {
    forall i | 0 <= i < |data| ensures data[i].id != d.id { assert data[i] in data && Holds(rows, data[i]); }
  }

  /** Where a migration ends early: at its probe, at the DROP, behind it, or behind so many rows of the refill. */
  datatype Stop = Never | AtProbe | AtDrop | AfterDrop | AfterRows(n: nat)

  /** How many of `k` rows are inserted. */
  function Reached(k: nat, stop: Stop): (n: nat)
    ensures n <= k
  {
    if stop.AfterRows? && stop.n < k then stop.n else k
  }

  /** The INSERT loop; it fails exactly when it meets a rowid twice or is stopped in front of a row. */
  method Refill(data: seq<Doc>, stop: Stop) returns (ok: bool, rows: map<int, FtsRow>, ghost inserts: nat)
    ensures inserts <= |data| && (ok ==> inserts == |data|)
    ensures ok <==> SeqIdsDistinct(data) && Reached(|data|, stop) == |data|
    ensures SeqIdsDistinct(data) ==> HoldsAll(rows, data[..Reached(|data|, stop)])
  {
    rows := map[];
    for i := 0 to |data|
      invariant HoldsAll(rows, data[..i]) && SeqIdsDistinct(data[..i]) && i <= Reached(|data|, stop)
    {
      if stop == AfterRows(i) { return false, rows, i + 1; }
      assert data[..i + 1] == data[..i] + [data[i]];
      if data[i].id in rows {
        ghost var d :| d in data[..i] && d.id == data[i].id;
        ghost var j :| 0 <= j < i && data[j] == d;
        return false, rows, i + 1;
      }
      HoldsOneMore(rows, data[..i], data[i]);
      DistinctOneMore(rows, data[..i], data[i]);
      rows := rows[data[i].id := data[i].text];
    }
    assert data[..|data|] == data;
    ok, inserts := true, |data|;
  }

  /** The rows of the SELECT, buffered; their order is SQLite's. */
  method Buffer(docs: map<Str, Doc>) returns (data: seq<Doc>)
    requires IdsDistinct(docs)
    ensures Elements(data) == docs.Values && SeqIdsDistinct(data) && |data| == |docs|
  {
    data := [];
    var todo := docs.Keys;
    while todo != {}
      invariant todo <= docs.Keys && SeqIdsDistinct(data) && |data| + |todo| == |docs|
      invariant forall d :: d in data <==> exists p :: p in docs && p !in todo && docs[p] == d
      decreases |todo|
    {
      var p :| p in todo;
      ghost var before := data;
      data := data + [docs[p]];
      todo := todo - {p};
      forall d ensures d in data <==> exists q :: q in docs && q !in todo && docs[q] == d {
        assert d in data <==> d in before || d == docs[p];
      }
      forall i, j | 0 <= i < j < |data| ensures data[i].id != data[j].id {
        if j == |data| - 1 { assert data[i] in before; }
      }
    }
    assert forall d :: d in data <==> d in docs.Values;
  }

  lemma {:induction false} RefilledMirrors(docs: map<Str, Doc>, data: seq<Doc>, rows: map<int, FtsRow>)
    requires Elements(data) == docs.Values && HoldsAll(rows, data)
    ensures Mirrors(docs, Working(rows))
  {
    forall p | p in docs ensures Holds(rows, docs[p]) { assert docs[p] in docs.Values && docs[p] in Elements(data); }
    forall id | id in rows ensures HasId(docs, id) {
      var d :| d in data && d.id == id;
      assert d in docs.Values;
    }
  }

  /** Every row is one of the base table's. */
  predicate PartOf(docs: map<Str, Doc>, rows: map<int, FtsRow>)
  {
    forall id :: id in rows ==> HasId(docs, id)
  }

  /** Only the first `n` rows are there, so the next one is not. */
  lemma {:induction false} RefilledInPart(docs: map<Str, Doc>, data: seq<Doc>, n: nat, rows: map<int, FtsRow>)
    requires Elements(data) == docs.Values && SeqIdsDistinct(data) && n < |data| && HoldsAll(rows, data[..n])
    ensures PartOf(docs, rows) && !Mirrors(docs, Working(rows))
  {
    forall id | id in rows ensures HasId(docs, id) {
      var d :| d in data[..n] && d.id == id;
      assert d in Elements(data);
    }
    assert data[n] in Elements(data);
    var p :| p in docs && docs[p] == data[n];
    assert !Holds(rows, docs[p]);
  }

  /** The refill reaches the last row, or there is none. */
  predicate Refills(docs: map<Str, Doc>, stop: Stop)
  {
    Reached(|docs|, stop) == |docs| && (stop.AfterDrop? ==> docs == map[])
  }

  /** The migration comes to its end without an error. */
  predicate Finishes(docs: map<Str, Doc>, f: FtsTable, stop: Stop)
  {
    !stop.AtProbe? && (!ProbeSaysBroken(f) || (!stop.AtDrop? && !stop.AfterDrop? && Refills(docs, stop)))
  }

  /** The table that a migration leaves, as the next Open finds it: in place of a dropped table, an empty one. */
  predicate Migrated(docs: map<Str, Doc>, f: FtsTable, stop: Stop, f': FtsTable)
  {
    if !ProbeSaysBroken(f) || stop.AtProbe? || stop.AtDrop? then f' == f
    else f'.Working? && PartOf(docs, f'.rows) && (Mirrors(docs, f') <==> Refills(docs, stop))
  }

  /** Probe, and if the probe fails drop, recreate and refill. */
  method MigrateTable(docs: map<Str, Doc>, f: FtsTable, stop: Stop)
    returns (ok: bool, f': FtsTable, ghost acts: Pool.Program)
    requires IdsDistinct(docs)
    ensures Pool.InPart(Pool.MigrateTable(ProbeSaysBroken(f), |docs|), acts)
    ensures ok ==> acts == Pool.MigrateTable(ProbeSaysBroken(f), |docs|)
    ensures ok <==> Finishes(docs, f, stop)
    ensures Migrated(docs, f, stop, f')
  {
    Pool.TransactionParts();
    Pool.InPartFront(Pool.TWO_IN_TX, if ProbeSaysBroken(f) then Pool.Reindex(|docs|) else []);
    acts := Pool.TWO_IN_TX;
    if stop.AtProbe? { return false, f, acts; }
    if !ProbeSaysBroken(f) {
      assert acts + [] == acts;
      return true, f, acts;
    }
    Pool.MigrateTableParts(|docs|, 0);
    acts := Pool.TWO_IN_TX + Pool.Repeat(1, Pool.ONE_CALL);
    if stop.AtDrop? { return false, f, acts; }
    acts := Pool.TWO_IN_TX + Pool.Repeat(2, Pool.ONE_CALL);
    if stop.AfterDrop? {
      EmptyMirrors(docs);
      return false, Working(map[]), acts;
    }
    var data := Buffer(docs);
    ghost var inserts;
    var filled, rows;
    filled, rows, inserts := Refill(data, stop);
    if filled { RefilledMirrors(docs, data, rows); } else { RefilledInPart(docs, data, Reached(|data|, stop), rows); }
    Pool.MigrateTableParts(|docs|, inserts);
    acts := Pool.TWO_IN_TX + Pool.Reindex(inserts);
    return filled, Working(rows), acts;
  }

  /** One table and then the other; an error in the first leaves the second as it is. */
  method MigrateBoth(docs: map<Str, Doc>, f: FtsTable, stop: Stop, docs2: map<Str, Doc>, g: FtsTable, stop2: Stop)
    returns (ok: bool, f': FtsTable, g': FtsTable, ghost acts: Pool.Program)
    requires IdsDistinct(docs) && IdsDistinct(docs2) && IdsPositive(docs) && IdsPositive(docs2)
    ensures Pool.InPart(Pool.MigrateProgram(ProbeSaysBroken(f), |docs|, ProbeSaysBroken(g), |docs2|), acts)
    ensures ok <==> Finishes(docs, f, stop) && Finishes(docs2, g, stop2)
    ensures Migrated(docs, f, stop, f')
    ensures if Finishes(docs, f, stop) then Migrated(docs2, g, stop2, g') else g' == g
    ensures ok ==> (Mirrors(docs, f') <==> ProbeSaysBroken(f) || Mirrors(docs, f))
    ensures ok ==> (Mirrors(docs2, g') <==> ProbeSaysBroken(g) || Mirrors(docs2, g))
    ensures Mirrors(docs, f) ==> f' == f
    ensures Mirrors(docs2, g) ==> g' == g
  {
    g' := g;
    ok, f', acts := MigrateTable(docs, f, stop);
    if Mirrors(docs, f) { MigratedMirror(docs, f, stop, f'); }
    if !ok {
      Pool.MigratedInPart(ProbeSaysBroken(f), |docs|, ProbeSaysBroken(g), |docs2|, acts);
      return;
    }
    FinishedMirrorsIff(docs, f, stop, f');
    ghost var more;
    ok, g', more := MigrateTable(docs2, g, stop2);
    if Mirrors(docs2, g) { MigratedMirror(docs2, g, stop2, g'); }
    if ok { FinishedMirrorsIff(docs2, g, stop2, g'); }
    Pool.MigratedOn(ProbeSaysBroken(f), |docs|, ProbeSaysBroken(g), |docs2|, more);
    acts := acts + more;
  }

  lemma {:induction false} EmptyMirrors(docs: map<Str, Doc>)
    ensures Mirrors(docs, Working(map[])) <==> docs == map[]
  {
    var rows: map<int, FtsRow> := map[];
    if docs != map[] {
      var p :| p in docs;
      assert !Holds(rows, docs[p]);
    }
  }

  lemma {:induction false} MigratedMirror(docs: map<Str, Doc>, f: FtsTable, stop: Stop, f': FtsTable)
    requires Mirrors(docs, f) && IdsPositive(docs) && Migrated(docs, f, stop, f')
    ensures f' == f
  {
    MirrorPassesProbe(docs, f);
  }

  /** One that finishes leaves an exact index exactly when the probe failed or the index was exact before. */
  lemma {:induction false} FinishedMirrorsIff(docs: map<Str, Doc>, f: FtsTable, stop: Stop, f': FtsTable)
    requires Finishes(docs, f, stop) && Migrated(docs, f, stop, f')
    ensures Mirrors(docs, f') <==> ProbeSaysBroken(f) || Mirrors(docs, f)
  {}

  /** A finished migration rebuilds a table of the old schema in which an inserted row cannot be found, and one that holds
      the row of the probe already; a table that passes is left alone, even one of the old schema. */
  lemma {:induction false} FinishedOutcome(docs: map<Str, Doc>, f: FtsTable, stop: Stop, f': FtsTable)
    requires Finishes(docs, f, stop) && Migrated(docs, f, stop, f')
    ensures match f
      case Legacy(searchable) => if searchable then f' == f else Mirrors(docs, f')
      case Working(rows) => if -99 in rows then Mirrors(docs, f') else f' == f
  {
    FinishedMirrorsIff(docs, f, stop, f');
  }

  /** A migration that ended anywhere, and at the next Open one that runs to its end: the index is exact afterwards
      exactly when it was exact before and passed the probe, or it failed the probe and the first migration ended in
      front of the DROP or not before the last row. A half-filled table passes the probe and stays as it is. */
  lemma {:induction false} MigratedAgainIff(docs: map<Str, Doc>, f: FtsTable, stop: Stop, f': FtsTable, f'': FtsTable)
    requires IdsDistinct(docs) && IdsPositive(docs)
    requires Migrated(docs, f, stop, f') && Migrated(docs, f', Never, f'')
    ensures Mirrors(docs, f'') <==>
      if !ProbeSaysBroken(f) then Mirrors(docs, f) else stop.AtProbe? || stop.AtDrop? || Refills(docs, stop)
  {
    if ProbeSaysBroken(f) && !stop.AtProbe? && !stop.AtDrop? {
      assert !ProbeSaysBroken(f');
    }
  }
}
