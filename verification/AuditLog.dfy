/** The Logger of internal/audit/audit.go over its table. */
module AuditLog {
  import opened Basics
  import opened CryptoPrimitives
  import opened AuditChain
  import opened AuditQuery
  import HashChain
  import Pool

  /** The database call that fails, if any. */
  datatype TxFault = NoFault | BeginFails | ReadFails | InsertFails | CommitFails

  datatype AppendError = Database | BadPrevHash

  /** The rows of a page with the total, and where the next page starts. */
  datatype AuditPage = AuditPage(entries: seq<Entry>, total: nat, hasMore: bool, nextID: int)

  datatype PageError = NoSuchKey | PageDatabase

  /** The read of a page that fails, if any. */
  datatype PageFault = AllWork | KeyFails | QueryFails | CountFails

  lemma {:induction false} AppendKeepsValid(c: Crypto, key: Str, rows: seq<Row>, e: Entry)
    requires Accepts(c, key, rows) && IdsAscend(rows)
    ensures |EndHash(rows)| == 32
    ensures Accepts(c, key, Appended(c, key, rows, e)) && IdsAscend(Appended(c, key, rows, e))
  {
    EndHashOfLinks(rows);
    HashChain.PrevIs32(Scheme(c), key, Links(rows), |rows|);
    AppendKeepsChain(c, key, rows, e);
    AppendKeepsIds(c, key, rows, e);
  }

  lemma {:induction false} AppendedColumns(c: Crypto, key: Str, rows: seq<Row>, e: Entry)
    ensures var after := Appended(c, key, rows, e);
      |after| == |rows| + 1 && after[..|rows|] == rows &&
      after[|rows|].(prevHash := [], hash := [], hmac := []) ==
        Row(NextId(rows), e.ts, e.actorKind, e.actorId, e.action, if e.path == [] then None else Some(e.path), e.result,
            [], [], [])
  {}

  class Logger {
    const crypto: Crypto
    const hmacKey: Str
    /** The audit table, in id order. */
    var rows: seq<Row>

    ghost predicate Valid()
      reads this
    {
      Accepts(crypto, hmacKey, rows) && IdsAscend(rows)
    }

    constructor (crypto: Crypto, hmacKey: Str)
      ensures Valid() && rows == [] && this.crypto == crypto && this.hmacKey == hmacKey
    {
      this.crypto := crypto;
      this.hmacKey := hmacKey;
      rows := [];
    }

    /** The transaction of Append. */
    method Insert(e: Entry, fault: TxFault) returns (r: Result<int, AppendError>, ghost acts: Pool.Program)
      modifies this`rows
      ensures Pool.InPart(Pool.AppendProgram(), acts) && (r.Ok? ==> acts == Pool.AppendProgram())
      ensures r.Ok? <==> fault.NoFault? && |EndHash(old(rows))| == 32
      ensures rows == if r.Ok? then Appended(crypto, hmacKey, old(rows), e) else old(rows)
      ensures r.Ok? ==> r.value == NextId(old(rows))
    {
      Pool.TransactionParts();
      acts := [];
      if fault.BeginFails? { return Err(Database), acts; }
      acts := Pool.ONE_CALL;
      if fault.ReadFails? { return Err(Database), acts; }
      var prevHash: Str := ZERO_HASH;
      if rows != [] { prevHash := rows[|rows| - 1].hash; }
      if |prevHash| != 32 { return Err(BadPrevHash), acts; }
      acts := Pool.TWO_IN_TX;
      if fault.InsertFails? { return Err(Database), acts; }
      var id := NextId(rows);
      var tx := rows + [ChainedRow(crypto, hmacKey, id, prevHash, e)];
      if fault.CommitFails? { return Err(Database), acts; }
      rows := tx;
      return Ok(id), acts;
    }

    /** A failed append leaves no row; a successful one adds the one row that chains to the last. `acts` is what it does to
        the connection pool, up to its return. */
    method Append(e: Entry, fault: TxFault) returns (r: Result<int, AppendError>, ghost acts: Pool.Program)
      modifies this`rows
      ensures Pool.InPart(Pool.AppendProgram(), acts) && (r.Ok? ==> acts == Pool.AppendProgram())
      ensures r.Ok? <==> fault.NoFault? && |EndHash(old(rows))| == 32
      ensures r.Err? ==> rows == old(rows)
      ensures r.Ok? ==> rows == Appended(crypto, hmacKey, old(rows), e) && r.value == NextId(old(rows))
      ensures r.Ok? ==>
        |rows| == |old(rows)| + 1 && rows[..|old(rows)|] == old(rows) &&
        rows[|old(rows)|].(prevHash := [], hash := [], hmac := []) ==
          Row(r.value, e.ts, e.actorKind, e.actorId, e.action, if e.path == [] then None else Some(e.path), e.result,
              [], [], []) &&
        r.value == if old(rows) == [] then 1 else old(rows)[|old(rows)| - 1].id + 1
      ensures old(Valid()) ==> Valid() && (r.Ok? <==> fault.NoFault?)
    {
      if Valid() { AppendKeepsValid(crypto, hmacKey, rows, e); }
      AppendedColumns(crypto, hmacKey, rows, e);
      r, acts := Insert(e, fault);
    }

    /** ok exactly when the whole chain is accepted; otherwise the id of the first row that is not. */
    method Verify() returns (ok: bool, brokenID: int, expected: Str, got: Str)
      ensures ok <==> Accepts(crypto, hmacKey, rows)
      ensures ok ==> brokenID == 0
      ensures !ok ==> expected != got
      ensures !ok ==> exists k: nat :: BreaksAt(crypto, hmacKey, rows, k) && brokenID == rows[k].id
    {
      var lastHash: Str := ZERO_HASH;
      var i := 0;
      ghost var links := Links(rows);
      while i < |rows|
        invariant 0 <= i <= |rows|
        invariant lastHash == HashChain.PrevOf(links, i)
        invariant HashChain.Chained(Scheme(crypto), hmacKey, links[..i])
      {
        var row := rows[i];
        BreakHere(crypto, hmacKey, rows, i);
        if row.prevHash != lastHash { return false, row.id, lastHash, row.prevHash; }
        var wantHash := crypto.sha256(row.prevHash + CanonicalJson(EntryOf(row)));
        JsonIgnoresId(EntryOf(row));
        if row.hash != wantHash { return false, row.id, wantHash, row.hash; }
        var wantHMAC := crypto.hmac(hmacKey, row.hash);
        if row.hmac != wantHMAC { return false, row.id, wantHMAC, row.hmac; }
        lastHash := row.hash;
        i := i + 1;
      }
      assert links[..i] == links;
      return true, 0, [], [];
    }

    /** One page, newest first. */
    method Query(beforeID: int, f: Filter, limit: int) returns (out: seq<Entry>)
      ensures out == Page(rows, f, beforeID, limit)
    {
      out := [];
      var n := PageSize(limit);
      var i := |rows|;
      assert rows[..i] == rows && [] + Newest(rows, f, beforeID) == Newest(rows, f, beforeID);
      while i > 0 && |out| < n
        invariant 0 <= i <= |rows| && |out| <= n
        invariant out + Newest(rows[..i], f, beforeID) == Newest(rows, f, beforeID)
      {
        assert rows[..i][..i - 1] == rows[..i - 1];
        ghost var before, rest := out, Newest(rows[..i - 1], f, beforeID);
        i := i - 1;
        if Listed(f, beforeID, rows[i]) {
          out := out + [EntryOf(rows[i])];
          ConcatOne(before, EntryOf(rows[i]), rest);
        } else {
          assert [] + rest == rest;
        }
      }
      TakeIsPrefix(out, Newest(rows[..i], f, beforeID), n, i == 0);
    }

    method CountRows(f: Filter) returns (n: nat)
      ensures n == Count(rows, f)
    {
      n := 0;
      for i := 0 to |rows|
        invariant n == Count(rows[..i], f)
      {
        assert rows[..i + 1][..i] == rows[..i];
        if Selects(f, EntryOf(rows[i])) { n := n + 1; }
      }
      assert rows[..|rows|] == rows;
    }

    /** loadAuditPage, for a keys table by name. The clock is read once for the page and once more for the total, and a
        total that cannot be had is zero. */
    method LoadAuditPage(keyIds: map<Str, int>, beforeID: int, sinceMS: int, sinceMSLater: int, key: Str,
                         actionSub: Str, fault: PageFault) returns (r: Result<AuditPage, PageError>)
      ensures r.Ok? <==> (key == [] || (key in keyIds && !fault.KeyFails?)) && !fault.QueryFails?
      ensures r.Ok? ==>
        var keyID := if key == [] then 0 else keyIds[key];
        r.value.entries == Page(rows, Filter(sinceMS, keyID, actionSub), beforeID, 50) &&
        r.value.total == if fault.CountFails? then 0 else Count(rows, Filter(sinceMSLater, keyID, actionSub))
      ensures r.Ok? ==>
        var entries := r.value.entries;
        (r.value.hasMore <==> |entries| == 50) &&
        r.value.nextID == if entries == [] then 0 else entries[|entries| - 1].id
    {
      var keyID := 0;
      if key != [] {
        if fault.KeyFails? || key !in keyIds { return Err(NoSuchKey); }
        keyID := keyIds[key];
      }
      if fault.QueryFails? { return Err(PageDatabase); }
      var entries := Query(beforeID, Filter(sinceMS, keyID, actionSub), UI_PAGE_SIZE);
      var total := 0;
      if !fault.CountFails? { total := CountRows(Filter(sinceMSLater, keyID, actionSub)); }
      var nextID := 0;
      if |entries| > 0 { nextID := entries[|entries| - 1].id; }
      return Ok(AuditPage(entries, total, |entries| == UI_PAGE_SIZE, nextID));
    }
  }

  lemma {:induction false} ConcatOne(a: seq<Entry>, e: Entry, b: seq<Entry>)
    ensures a + ([e] + b) == (a + [e]) + b
  {}

  lemma {:induction false} TakeIsPrefix(out: seq<Entry>, rest: seq<Entry>, n: nat, atEnd: bool)
    requires |out| <= n && (|out| == n || (atEnd && rest == []))
    ensures Take(out + rest, n) == out
  {
    if rest == [] { assert out + rest == out; }
  }

  /** The walk's step: either the row is linked and the accepted part grows, or the chain breaks here. */
  lemma {:induction false} BreakHere(c: Crypto, key: Str, rows: seq<Row>, i: nat)
    requires i < |rows| && HashChain.Chained(Scheme(c), key, Links(rows)[..i])
    ensures var links := Links(rows);
      if HashChain.LinkOk(Scheme(c), key, HashChain.PrevOf(links, i), LinkOf(rows[i]))
      then HashChain.Chained(Scheme(c), key, links[..i + 1])
      else BreaksAt(c, key, rows, i) && !Accepts(c, key, rows)
  {
    var links := Links(rows);
    assert links[..i + 1] == links[..i] + [links[i]];
    HashChain.ChainedExtend(Scheme(c), key, links[..i], links[i]);
    if !HashChain.LinkOk(Scheme(c), key, HashChain.PrevOf(links, i), links[i]) {
      HashChain.BreaksIff(Scheme(c), key, links, i);
    }
  }
}
