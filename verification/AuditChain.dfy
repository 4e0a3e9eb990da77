/** The hash chain of internal/audit/audit.go: what a log that Verify accepts can be. */
module AuditChain {
  import opened Basics
  import opened CryptoPrimitives
  import HashChain
  import Decimal
  import Json
  import Utf8

  datatype Entry = Entry(id: int, ts: int, actorKind: Str, actorId: int, action: Str, path: Str, result: Str)

  /** A row of the audit table; an empty path is stored as NULL. */
  datatype Row = Row(id: int, ts: int, actorKind: Str, actorId: int, action: Str, path: Option<Str>, result: Str,
                     prevHash: Str, hash: Str, hmac: Str)

  function NullString(s: Str): Option<Str> { if s == [] then None else Some(s) }

  function EntryOf(r: Row): Entry
  {
    Entry(r.id, r.ts, r.actorKind, r.actorId, r.action, if r.path.Some? then r.path.value else [], r.result)
  }

  /** The map that canonicalJSON marshals, in key order. The id is not part of it. */
  function Fields(e: Entry): seq<Json.Member>
  {
    [Json.Member(Ascii("\"action\":"), Json.Text(e.action)),
     Json.Member(Ascii("\"actor_id\":"), Json.Number(e.actorId)),
     Json.Member(Ascii("\"actor_kind\":"), Json.Text(e.actorKind)),
     Json.Member(Ascii("\"path\":"), Json.Text(e.path)),
     Json.Member(Ascii("\"result\":"), Json.Text(e.result)),
     Json.Member(Ascii("\"ts\":"), Json.Number(e.ts))]
  }

  function CanonicalJson(e: Entry): Str { Json.Object(Fields(e)) }

  /** Same numbers, and texts that differ at most in ill-formed UTF-8 bytes. */
  predicate SameContent(e: Entry, f: Entry)
  {
    e.ts == f.ts && e.actorId == f.actorId &&
    Utf8.Runes(e.actorKind) == Utf8.Runes(f.actorKind) && Utf8.Runes(e.action) == Utf8.Runes(f.action) &&
    Utf8.Runes(e.path) == Utf8.Runes(f.path) && Utf8.Runes(e.result) == Utf8.Runes(f.result)
  }

  /** Exactly when two entries are hashed alike. */
  lemma {:induction false} CanonicalJsonEqualIff(e: Entry, f: Entry)
    ensures CanonicalJson(e) == CanonicalJson(f) <==> SameContent(e, f)
  {
    var a, b := Fields(e), Fields(f);
    Json.ObjectEqualIff(a, b);
    assert SameContent(e, f) <==>
      Json.SameMember(a[0], b[0]) && Json.SameMember(a[1], b[1]) && Json.SameMember(a[2], b[2]) &&
      Json.SameMember(a[3], b[3]) && Json.SameMember(a[4], b[4]) && Json.SameMember(a[5], b[5]);
  }

  predicate WellEncoded(e: Entry)
  {
    Utf8.ValidUtf8(e.actorKind) && Utf8.ValidUtf8(e.action) && Utf8.ValidUtf8(e.path) && Utf8.ValidUtf8(e.result)
  }

  /** For entries in valid UTF-8, the same content is the same entry, up to the id. */
  lemma {:induction false} SameContentIsEqual(e: Entry, f: Entry)
    requires WellEncoded(e) && WellEncoded(f) && SameContent(e, f)
    ensures e.(id := 0) == f.(id := 0)
  {
    Utf8.FlattenRunes(e.actorKind); Utf8.FlattenRunes(f.actorKind);
    Utf8.FlattenRunes(e.action); Utf8.FlattenRunes(f.action);
    Utf8.FlattenRunes(e.path); Utf8.FlattenRunes(f.path);
    Utf8.FlattenRunes(e.result); Utf8.FlattenRunes(f.result);
  }

  function Scheme(c: Crypto): HashChain.Scheme<Entry> { HashChain.Scheme(c, CanonicalJson) }

  /** The row as the chain sees it; the id is left out. */
  function LinkOf(r: Row): HashChain.Link<Entry>
  {
    HashChain.Link(r.prevHash, EntryOf(r).(id := 0), r.hash, r.hmac)
  }

  function Links(rows: seq<Row>): (links: seq<HashChain.Link<Entry>>)
    ensures |links| == |rows|
    ensures forall i :: 0 <= i < |rows| ==> links[i] == LinkOf(rows[i])
  {
    if rows == [] then [] else Links(rows[..|rows| - 1]) + [LinkOf(rows[|rows| - 1])]
  }

  lemma {:induction false} LinksPrefix(rows: seq<Row>, n: nat)
    requires n <= |rows|
    ensures Links(rows[..n]) == Links(rows)[..n]
    decreases |rows|
  {
    if n < |rows| {
      assert rows[..|rows| - 1][..n] == rows[..n];
      LinksPrefix(rows[..|rows| - 1], n);
    } else {
      assert rows[..n] == rows;
    }
  }

  lemma {:induction false} LinksAppend(rows: seq<Row>, row: Row)
    ensures Links(rows + [row]) == Links(rows) + [LinkOf(row)]
  {
    assert (rows + [row])[..|rows|] == rows;
  }

  lemma {:induction false} LinksConcat(a: seq<Row>, b: seq<Row>)
    ensures Links(a + b) == Links(a) + Links(b)
  {
    if b == [] {
      assert a + b == a;
    } else {
      var front, last := b[..|b| - 1], b[|b| - 1];
      assert a + b == (a + front) + [last];
      LinksAppend(a + front, last);
      LinksConcat(a, front);
    }
  }

  /** What Verify accepts, as a property of the whole table. The ids play no part in it. */
  ghost predicate Accepts(c: Crypto, key: Str, rows: seq<Row>)
  {
    HashChain.Chained(Scheme(c), key, Links(rows))
  }

  /** The row that Append inserts: the hash covers the predecessor's hash and the entry's canonical JSON. */
  function ChainedRow(c: Crypto, key: Str, id: int, prev: Str, e: Entry): Row
  {
    var l := HashChain.NewLink(Scheme(c), key, prev, e.(id := 0));
    Row(id, e.ts, e.actorKind, e.actorId, e.action, NullString(e.path), e.result, prev, l.hash, l.mac)
  }

  function EndHash(rows: seq<Row>): Str { if rows == [] then ZERO_HASH else rows[|rows| - 1].hash }

  function NextId(rows: seq<Row>): int { if rows == [] then 1 else rows[|rows| - 1].id + 1 }

  /** The table is kept and read in id order. */
  ghost predicate IdsAscend(rows: seq<Row>)
  {
    (forall i :: 0 <= i < |rows| ==> rows[i].id >= 1) &&
    forall i, j :: 0 <= i < j < |rows| ==> rows[i].id < rows[j].id
  }

  /** The log after one more append. */
  function Appended(c: Crypto, key: Str, rows: seq<Row>, e: Entry): seq<Row>
  {
    rows + [ChainedRow(c, key, NextId(rows), EndHash(rows), e)]
  }

  lemma {:induction false} ChainedRowLink(c: Crypto, key: Str, id: int, prev: Str, e: Entry)
    ensures LinkOf(ChainedRow(c, key, id, prev, e)) == HashChain.NewLink(Scheme(c), key, prev, e.(id := 0))
  {}

  lemma {:induction false} AppendedLinks(c: Crypto, key: Str, rows: seq<Row>, e: Entry)
    ensures Links(Appended(c, key, rows, e)) ==
      Links(rows) + [HashChain.NewLink(Scheme(c), key, EndHash(rows), e.(id := 0))]
  {
    ChainedRowLink(c, key, NextId(rows), EndHash(rows), e);
    LinksAppend(rows, ChainedRow(c, key, NextId(rows), EndHash(rows), e));
  }

  lemma {:induction false} AppendedEntry(c: Crypto, key: Str, rows: seq<Row>, e: Entry, i: nat)
    requires i <= |rows|
    ensures EntryOf(Appended(c, key, rows, e)[i]) == if i < |rows| then EntryOf(rows[i]) else e.(id := NextId(rows))
  {}

  lemma {:induction false} EndHashOfLinks(rows: seq<Row>)
    ensures EndHash(rows) == HashChain.EndHash(Links(rows))
  {}

  /** An append keeps an accepted log accepted and in order. */
  lemma {:induction false} AppendKeepsChain(c: Crypto, key: Str, rows: seq<Row>, e: Entry)
    requires Accepts(c, key, rows)
    ensures Accepts(c, key, Appended(c, key, rows, e))
  {
    AppendedLinks(c, key, rows, e);
    EndHashOfLinks(rows);
    HashChain.AppendChained(Scheme(c), key, Links(rows), e.(id := 0));
  }

  lemma {:induction false} AppendKeepsIds(c: Crypto, key: Str, rows: seq<Row>, e: Entry)
    requires IdsAscend(rows)
    ensures IdsAscend(Appended(c, key, rows, e))
  {
    IdsOneMore(rows, ChainedRow(c, key, NextId(rows), EndHash(rows), e));
  }

  lemma {:induction false} IdsOneMore(rows: seq<Row>, r: Row)
    requires IdsAscend(rows) && r.id == NextId(rows)
    ensures IdsAscend(rows + [r])
  {
    var more := rows + [r];
    forall i | 0 <= i < |rows| ensures more[i] == rows[i] && more[i].id < r.id {
      assert i < |rows| - 1 ==> rows[i].id < rows[|rows| - 1].id;
    }
  }

  /** The log of a run of appends on an empty table. */
  function LogOf(c: Crypto, key: Str, es: seq<Entry>): (rows: seq<Row>)
    ensures |rows| == |es|
  {
    if es == [] then [] else Appended(c, key, LogOf(c, key, es[..|es| - 1]), es[|es| - 1])
  }

  lemma {:induction false} RunEntryAt(c: Crypto, key: Str, es: seq<Entry>, i: nat)
    requires i < |es|
    ensures EntryOf(LogOf(c, key, es)[i]) == es[i].(id := i + 1)
    decreases |es|
  {
    var front := es[..|es| - 1];
    LogStep(c, key, es, i);
    if i < |front| {
      RunEntryAt(c, key, front, i);
    } else if i > 0 {
      RunEntryAt(c, key, front, i - 1);
    }
  }

  lemma {:induction false} LogStep(c: Crypto, key: Str, es: seq<Entry>, i: nat)
    requires i < |es|
    ensures var rows := LogOf(c, key, es[..|es| - 1]);
      EntryOf(LogOf(c, key, es)[i]) == if i < |rows| then EntryOf(rows[i]) else es[i].(id := NextId(rows))
  {
    var rows := LogOf(c, key, es[..|es| - 1]);
    AppendedEntry(c, key, rows, es[|es| - 1], i);
    LogUnfold(c, key, es, rows);
  }

  lemma {:induction false} LogUnfold(c: Crypto, key: Str, es: seq<Entry>, rows: seq<Row>)
    requires es != [] && rows == LogOf(c, key, es[..|es| - 1])
    ensures LogOf(c, key, es) == Appended(c, key, rows, es[|es| - 1])
  {}

  /** Whatever is appended, Verify accepts the log, and it holds those entries under the ids 1, 2, 3, ... */
  lemma {:induction false} RunAccepted(c: Crypto, key: Str, es: seq<Entry>)
    ensures Accepts(c, key, LogOf(c, key, es))
    ensures forall i :: 0 <= i < |es| ==> EntryOf(LogOf(c, key, es)[i]) == es[i].(id := i + 1)
  {
    forall i | 0 <= i < |es| ensures EntryOf(LogOf(c, key, es)[i]) == es[i].(id := i + 1) {
      RunEntryAt(c, key, es, i);
    }
    RunChained(c, key, es);
  }

  lemma {:induction false} RunChained(c: Crypto, key: Str, es: seq<Entry>)
    ensures Accepts(c, key, LogOf(c, key, es))
  {
    if es != [] {
      RunChained(c, key, es[..|es| - 1]);
      AppendKeepsChain(c, key, LogOf(c, key, es[..|es| - 1]), es[|es| - 1]);
    }
  }

  /** Same stored content; only the id may differ. */
  predicate SameButId(r: Row, q: Row) { r.(id := 0) == q.(id := 0) }

  lemma {:induction false} SameButIdLinks(a: seq<Row>, b: seq<Row>)
    requires |a| == |b| && forall k :: 0 <= k < |a| ==> SameButId(a[k], b[k])
    ensures Links(a) == Links(b)
  {
    forall k | 0 <= k < |a| ensures Links(a)[k] == Links(b)[k] {
      assert SameButId(a[k], b[k]);
    }
  }

  /** Take any rows of an accepted log, dropped, repeated, moved and renumbered: Verify accepts them
      exactly when they are the first rows of the log, in order. */
  lemma {:induction false} RearrangedAcceptedIff(c: Crypto, known: set<Str>, key: Str, rows: seq<Row>, at: seq<nat>,
                                                 some: seq<Row>)
    requires Accepts(c, key, rows)
    requires HashChain.HashesSafe(Scheme(c), known) && HashChain.Covers(Scheme(c), known, Links(rows))
    requires forall k :: 0 <= k < |at| ==> at[k] < |rows|
    requires |at| == |some| && forall k :: 0 <= k < |at| ==> SameButId(some[k], rows[at[k]])
    ensures Accepts(c, key, some) <==>
      |some| <= |rows| && forall k :: 0 <= k < |some| ==> SameButId(some[k], rows[k])
  {
    PickedLinks(rows, at, some);
    HashChain.PickChainedIff(Scheme(c), known, key, Links(rows), at);
    if Accepts(c, key, some) && |at| > 0 {
      assert at[|at| - 1] == |at| - 1;
    }
    if |some| <= |rows| && forall k :: 0 <= k < |some| ==> SameButId(some[k], rows[k]) {
      PrefixAccepted(c, key, rows, some);
    }
  }

  lemma {:induction false} PickedLinks(rows: seq<Row>, at: seq<nat>, some: seq<Row>)
    requires forall k :: 0 <= k < |at| ==> at[k] < |rows|
    requires |at| == |some| && forall k :: 0 <= k < |at| ==> SameButId(some[k], rows[at[k]])
    ensures Links(some) == Pick(Links(rows), at)
  {
    var picked := Pick(rows, at);
    SameButIdLinks(some, picked);
    assert Links(picked) == Pick(Links(rows), at);
  }

  lemma {:induction false} PrefixAccepted(c: Crypto, key: Str, rows: seq<Row>, some: seq<Row>)
    requires Accepts(c, key, rows)
    requires |some| <= |rows| && forall k :: 0 <= k < |some| ==> SameButId(some[k], rows[k])
    ensures Accepts(c, key, some)
  {
    SameButIdLinks(some, rows[..|some|]);
    LinksPrefix(rows, |some|);
    HashChain.ChainedPrefix(Scheme(c), key, Links(rows), |some|);
  }

  /** Two accepted logs that end in the same hash have the same length, and the same entry at every position `i`. */
  lemma {:induction false} SameEndSameEntries(c: Crypto, known: set<Str>, key: Str, a: seq<Row>, b: seq<Row>, i: nat)
    requires Accepts(c, key, a) && Accepts(c, key, b)
    requires HashChain.HashesSafe(Scheme(c), known)
    requires HashChain.Covers(Scheme(c), known, Links(a)) && HashChain.Covers(Scheme(c), known, Links(b))
    requires EndHash(a) == EndHash(b)
    ensures |a| == |b|
    ensures i < |a| ==> SameContent(EntryOf(a[i]), EntryOf(b[i]))
  {
    EndHashOfLinks(a);
    EndHashOfLinks(b);
    HashChain.SameEndSameLength(Scheme(c), known, key, Links(a), key, Links(b));
    if i < |a| {
      HashChain.SameEndSameContent(Scheme(c), known, key, Links(a), key, Links(b), i);
      CanonicalJsonEqualIff(Links(a)[i].content, Links(b)[i].content);
    }
  }

  /** Verify stops at row `k`: everything before it is accepted, the row itself is not. */
  ghost predicate BreaksAt(c: Crypto, key: Str, rows: seq<Row>, k: nat)
  {
    HashChain.BreaksAt(Scheme(c), key, Links(rows), k)
  }

  /** One row's entry columns overwritten, its stored hashes kept: Verify breaks at exactly that row. */
  lemma {:induction false} EditDetected(c: Crypto, known: set<Str>, key: Str, rows: seq<Row>, k: nat, r: Row)
    requires Accepts(c, key, rows) && k < |rows|
    requires r.prevHash == rows[k].prevHash && r.hash == rows[k].hash && r.hmac == rows[k].hmac
    requires HashChain.HashesSafe(Scheme(c), known)
    requires HashChain.Preimage(Scheme(c), LinkOf(rows[k])) in known && HashChain.Preimage(Scheme(c), LinkOf(r)) in known
    ensures if SameContent(EntryOf(r), EntryOf(rows[k])) then Accepts(c, key, rows[k := r])
            else BreaksAt(c, key, rows[k := r], k)
  {
    var links, l := Links(rows), LinkOf(r);
    assert Links(rows[k := r]) == links[k := l];
    HashChain.OverwriteOutcome(Scheme(c), key, links, k, l);
    HashChain.PrevIs32(Scheme(c), key, links, k);
    CanonicalJsonEqualIff(l.content, links[k].content);
    if HashChain.LinkOk(Scheme(c), key, HashChain.PrevOf(links, k), l) {
      HashChain.PreimageSplit(Scheme(c), l, links[k]);
    }
  }

  // --- the same, in the rows' own columns ---

  /** The row points at the hash in front of it (32 zero bytes for the first), has the SHA-256 of that hash and its own
      entry, and the HMAC of its hash under the key. */
  predicate FollowsOn(c: Crypto, key: Str, rows: seq<Row>, i: nat)
    requires i < |rows|
  {
    (if i == 0 then |rows[0].prevHash| == 32 && forall b :: b in rows[0].prevHash ==> b == 0
     else rows[i].prevHash == rows[i - 1].hash) &&
    rows[i].hash == c.sha256(rows[i].prevHash + CanonicalJson(EntryOf(rows[i]))) &&
    rows[i].hmac == c.hmac(key, rows[i].hash)
  }

  lemma {:induction false} LinkFollowsOn(c: Crypto, key: Str, rows: seq<Row>, i: nat)
    requires i < |rows|
    ensures HashChain.LinkAt(Scheme(c), key, Links(rows), i) <==> FollowsOn(c, key, rows, i)
  {
    JsonIgnoresId(EntryOf(rows[i]));
    if i == 0 { ZeroHashIs(rows[0].prevHash); }
  }

  lemma {:induction false} AcceptsRows(c: Crypto, key: Str, rows: seq<Row>)
    ensures Accepts(c, key, rows) <==> forall i :: 0 <= i < |rows| ==> FollowsOn(c, key, rows, i)
  {
    forall i | 0 <= i < |rows|
      ensures HashChain.LinkAt(Scheme(c), key, Links(rows), i) <==> FollowsOn(c, key, rows, i)
    {
      LinkFollowsOn(c, key, rows, i);
    }
  }

  /** A log is accepted exactly when its first row points at 32 zero bytes and every other row at the hash of the row in
      front, and each row has the SHA-256 of what it points at and its own entry, and the HMAC of its hash under the key. */
  lemma {:induction false} AcceptsIff(c: Crypto, key: Str, rows: seq<Row>)
    ensures Accepts(c, key, rows) <==>
      (rows != [] ==> |rows[0].prevHash| == 32 && forall b :: b in rows[0].prevHash ==> b == 0) &&
      (forall i :: 0 < i < |rows| ==> rows[i].prevHash == rows[i - 1].hash) &&
      (forall i :: 0 <= i < |rows| ==> rows[i].hash == c.sha256(rows[i].prevHash + CanonicalJson(EntryOf(rows[i])))) &&
      (forall i :: 0 <= i < |rows| ==> rows[i].hmac == c.hmac(key, rows[i].hash))
  {
    AcceptsRows(c, key, rows);
    if Accepts(c, key, rows) {
      if rows != [] { assert FollowsOn(c, key, rows, 0); }
      forall i | 0 <= i < |rows|
        ensures i > 0 ==> rows[i].prevHash == rows[i - 1].hash
        ensures rows[i].hash == c.sha256(rows[i].prevHash + CanonicalJson(EntryOf(rows[i])))
        ensures rows[i].hmac == c.hmac(key, rows[i].hash)
      {
        assert FollowsOn(c, key, rows, i);
      }
    }
  }

  lemma {:induction false} ZeroHashIs(s: Str)
    ensures s == ZERO_HASH <==> |s| == 32 && forall b :: b in s ==> b == 0
  {
    AllZeros(32);
    SameZeros(s, ZERO_HASH);
  }

  lemma {:induction false} SameZeros(s: Str, z: Str)
    requires forall i :: 0 <= i < |z| ==> z[i] == 0
    ensures s == z <==> |s| == |z| && forall b :: b in s ==> b == 0
  {
    if |s| == |z| && forall b :: b in s ==> b == 0 {
      forall j | 0 <= j < |z| ensures s[j] == z[j] { assert s[j] in s; }
    }
  }

  lemma {:induction false} AllZeros(n: nat)
    ensures |Zeros(n)| == n && forall i :: 0 <= i < n ==> Zeros(n)[i] == 0
  {
    if n > 0 { AllZeros(n - 1); }
  }

  lemma {:induction false} JsonIgnoresId(e: Entry)
    ensures CanonicalJson(e.(id := 0)) == CanonicalJson(e)
  {
    assert Fields(e.(id := 0)) == Fields(e);
  }

  /** The row at which a log breaks: accepted up to it, and no further. */
  lemma {:induction false} BreaksAtIff(c: Crypto, key: Str, rows: seq<Row>, k: nat)
    requires k < |rows|
    ensures BreaksAt(c, key, rows, k) <==> Accepts(c, key, rows[..k]) && !Accepts(c, key, rows[..k + 1])
  {
    var links := Links(rows);
    LinksPrefix(rows, k);
    LinksPrefix(rows, k + 1);
    assert links[..k + 1] == links[..k] + [links[k]];
    if HashChain.Chained(Scheme(c), key, links[..k]) {
      HashChain.ChainedExtend(Scheme(c), key, links[..k], links[k]);
    }
  }

  /** One row's MAC overwritten: Verify breaks at exactly that row. */
  lemma {:induction false} MacDetected(c: Crypto, key: Str, rows: seq<Row>, k: nat, mac: Str)
    requires Accepts(c, key, rows) && k < |rows| && mac != rows[k].hmac
    ensures BreaksAt(c, key, rows[k := rows[k].(hmac := mac)], k)
  {
    var links, r := Links(rows), rows[k].(hmac := mac);
    assert Links(rows[k := r]) == links[k := LinkOf(r)];
    HashChain.OverwriteOutcome(Scheme(c), key, links, k, LinkOf(r));
    assert HashChain.LinkAt(Scheme(c), key, links, k);
  }

  /** A log chained under one key is accepted under another exactly when both give every row's hash the same MAC. */
  lemma {:induction false} OtherKeyAcceptedIff(c: Crypto, key: Str, key': Str, rows: seq<Row>)
    requires Accepts(c, key, rows)
    ensures Accepts(c, key', rows) <==>
      forall i :: 0 <= i < |rows| ==> c.hmac(key', rows[i].hash) == c.hmac(key, rows[i].hash)
  {
    AcceptsRows(c, key, rows);
    AcceptsRows(c, key', rows);
    forall i | 0 <= i < |rows|
      ensures FollowsOn(c, key', rows, i) <==> c.hmac(key', rows[i].hash) == c.hmac(key, rows[i].hash)
    {
      assert FollowsOn(c, key, rows, i);
    }
  }

  /** The text that is hashed, between braces. */
  lemma {:induction false} CanonicalText(e: Entry)
    ensures CanonicalJson(e) == [123] +
      (Ascii("\"action\":") + (Json.Quote(e.action) + ([COMMA] +
      (Ascii("\"actor_id\":") + (Decimal.Dec(e.actorId) + ([COMMA] +
      (Ascii("\"actor_kind\":") + (Json.Quote(e.actorKind) + ([COMMA] +
      (Ascii("\"path\":") + (Json.Quote(e.path) + ([COMMA] +
      (Ascii("\"result\":") + (Json.Quote(e.result) + ([COMMA] +
      (Ascii("\"ts\":") + (Decimal.Dec(e.ts) + [125])))))))))))))))))
  {
    var ms := Fields(e);
    MembersText(ms, 5, ms[5].name, ms[5].value);
    MembersText(ms, 4, ms[4].name, ms[4].value);
    MembersText(ms, 3, ms[3].name, ms[3].value);
    FrontText(e);
  }

  lemma {:induction false} FrontText(e: Entry)
    ensures CanonicalJson(e) == [123] +
      (Ascii("\"action\":") + (Json.Quote(e.action) + ([COMMA] +
      (Ascii("\"actor_id\":") + (Decimal.Dec(e.actorId) + ([COMMA] +
      (Ascii("\"actor_kind\":") + (Json.Quote(e.actorKind) + ([COMMA] + Json.Members(Fields(e)[3..]))))))))))
  {
    var ms := Fields(e);
    assert ms[0..] == ms;
    MembersText(ms, 2, ms[2].name, ms[2].value);
    MembersText(ms, 1, ms[1].name, ms[1].value);
    MembersText(ms, 0, ms[0].name, ms[0].value);
  }

  lemma {:induction false} MembersText(ms: seq<Json.Member>, i: nat, name: Str, v: Json.Value)
    requires i < |ms| && ms[i] == Json.Member(name, v)
    ensures Json.Members(ms[i..]) == name + (Json.ValueText(v) + (if i == |ms| - 1 then [125]
                                                                  else [COMMA] + Json.Members(ms[i + 1..])))
  {
    var rest := ms[i..];
    assert rest[1..] == ms[i + 1..] && rest[0] == ms[i];
    Json.MembersStep(rest);
    assert [] + Json.Members(ms[i + 1..]) == Json.Members(ms[i + 1..]);
  }
}
