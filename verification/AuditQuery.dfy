/** Filtered, newest-first reads of the audit table and cursor paging
    (Query and Count in internal/audit/audit.go, loadAuditPage in internal/api/ui_pages.go). */
module AuditQuery {
  import opened Basics
  import opened AuditChain
  import Like

  /** The arguments of auditFilters; 0, 0 and "" switch a filter off. */
  datatype Filter = Filter(sinceMS: int, keyID: int, actionSub: Str)

  const KEY_KIND: Str := Ascii("key")

  /** The WHERE clause that auditFilters builds. */
  predicate Selects(f: Filter, e: Entry)
  {
    (f.sinceMS > 0 ==> e.ts >= f.sinceMS) &&
    (f.keyID > 0 ==> e.actorKind == KEY_KIND && e.actorId == f.keyID) &&
    (f.actionSub != [] ==> Like.Matches(Like.ActionPattern(f.actionSub), e.action, Like.ESC))
  }

  /** A row is on the page that ends before `beforeID`, if that is positive. */
  predicate Listed(f: Filter, beforeID: int, r: Row)
  {
    Selects(f, EntryOf(r)) && (beforeID > 0 ==> r.id < beforeID)
  }

  /** All selected entries, newest first. */
  function Newest(rows: seq<Row>, f: Filter, beforeID: int): (es: seq<Entry>)
    ensures |es| <= |rows|
  {
    if rows == [] then [] else
    var last := rows[|rows| - 1];
    (if Listed(f, beforeID, last) then [EntryOf(last)] else []) + Newest(rows[..|rows| - 1], f, beforeID)
  }

  /** The clamp on limits. */
  function PageSize(limit: int): (n: nat) { if limit <= 0 || limit > 1000 then 100 else limit }

  function Take(es: seq<Entry>, n: nat): (t: seq<Entry>)
    ensures |t| <= n && t <= es
  {
    if |es| <= n then es else es[..n]
  }

  /** What Query returns. */
  function Page(rows: seq<Row>, f: Filter, beforeID: int, limit: int): seq<Entry>
  {
    Take(Newest(rows, f, beforeID), PageSize(limit))
  }

  /** The entry of a row that the WHERE clause lets through. */
  ghost predicate Present(rows: seq<Row>, f: Filter, beforeID: int, e: Entry)
  {
    exists i :: 0 <= i < |rows| && Listed(f, beforeID, rows[i]) && EntryOf(rows[i]) == e
  }

  /** An entry is in the list exactly when some row lets it through. */
  lemma {:induction false} NewestHolds(rows: seq<Row>, f: Filter, beforeID: int, e: Entry)
    ensures e in Newest(rows, f, beforeID) <==> Present(rows, f, beforeID, e)
  {
    if rows != [] {
      var front, last := rows[..|rows| - 1], rows[|rows| - 1];
      NewestHolds(front, f, beforeID, e);
      if i :| 0 <= i < |front| && Listed(f, beforeID, front[i]) && EntryOf(front[i]) == e {
        assert rows[i] == front[i];
      }
      if i :| 0 <= i < |rows| && Listed(f, beforeID, rows[i]) && EntryOf(rows[i]) == e {
        if i < |front| { assert front[i] == rows[i]; }
      }
    }
  }

  /** Appends never show up below a cursor that was there before them. */
  lemma {:induction false} NewestIgnoresAppends(rows: seq<Row>, more: seq<Row>, f: Filter, beforeID: int)
    requires rows <= more && 0 < beforeID
    requires forall i :: |rows| <= i < |more| ==> beforeID <= more[i].id
    ensures Newest(more, f, beforeID) == Newest(rows, f, beforeID)
    decreases |more|
  {
    if |more| > |rows| {
      NewestIgnoresAppends(rows, more[..|more| - 1], f, beforeID);
    } else {
      assert more == rows;
    }
  }

  /** The newest row comes first, if it is listed; it is not when the cursor is not above its id. */
  lemma {:induction false} NewestStep(rows: seq<Row>, f: Filter, beforeID: int) returns (first: seq<Entry>)
    requires rows != []
    ensures var front, last := rows[..|rows| - 1], rows[|rows| - 1];
      Newest(rows, f, beforeID) == first + Newest(front, f, beforeID)
    ensures |first| <= 1 && (first != [] ==> first[0].id == rows[|rows| - 1].id)
    ensures first != [] && 0 < beforeID ==> rows[|rows| - 1].id < beforeID
  {
    first := if Listed(f, beforeID, rows[|rows| - 1]) then [EntryOf(rows[|rows| - 1])] else [];
  }

  lemma {:induction false} Behind(first: seq<Entry>, rest: seq<Entry>, k: nat)
    requires |first| <= k < |first + rest|
    ensures (first + rest)[k] == rest[k - |first|] && (first + rest)[k + 1..] == rest[k - |first| + 1..]
  {}

  /** Ids in the list are positive, below the cursor, and not above the newest row's. */
  lemma {:induction false} NewestIds(rows: seq<Row>, f: Filter, beforeID: int, k: nat)
    requires IdsAscend(rows) && k < |Newest(rows, f, beforeID)|
    ensures var id := Newest(rows, f, beforeID)[k].id;
      0 < id <= rows[|rows| - 1].id && (beforeID > 0 ==> id < beforeID)
  {
    var front := rows[..|rows| - 1];
    var first := NewestStep(rows, f, beforeID);
    if k >= |first| {
      NewestIds(front, f, beforeID, k - |first|);
      Behind(first, Newest(front, f, beforeID), k);
    }
  }

  /** A cursor at or below the newest row's id leaves that row out. */
  lemma {:induction false} NewestWithoutLast(rows: seq<Row>, f: Filter, cursor: int)
    requires rows != [] && 0 < cursor <= rows[|rows| - 1].id
    ensures Newest(rows, f, cursor) == Newest(rows[..|rows| - 1], f, cursor)
  {
    var first := NewestStep(rows, f, cursor);
    var rest := Newest(rows[..|rows| - 1], f, cursor);
    assert [] + rest == rest;
  }

  /** Taking an entry's id as the cursor leaves exactly the entries behind it. */
  lemma {:induction false} NewestBelow(rows: seq<Row>, f: Filter, beforeID: int, k: nat)
    requires IdsAscend(rows) && k < |Newest(rows, f, beforeID)|
    ensures var es := Newest(rows, f, beforeID); Newest(rows, f, es[k].id) == es[k + 1..]
  {
    var front, last := rows[..|rows| - 1], rows[|rows| - 1];
    var first := NewestStep(rows, f, beforeID);
    var rest := Newest(front, f, beforeID);
    if k < |first| {
      NewestWithoutLast(rows, f, last.id);
      NewestCursorAbove(front, f, beforeID, last.id);
      assert (first + rest)[1..] == rest;
    } else {
      NewestBelow(front, f, beforeID, k - |first|);
      NewestIds(front, f, beforeID, k - |first|);
      NewestWithoutLast(rows, f, rest[k - |first|].id);
      Behind(first, rest, k);
    }
  }

  lemma {:induction false} NewestDescends(rows: seq<Row>, f: Filter, beforeID: int, i: nat, j: nat)
    requires IdsAscend(rows) && i < j < |Newest(rows, f, beforeID)|
    ensures Newest(rows, f, beforeID)[i].id > Newest(rows, f, beforeID)[j].id
  {
    var es := Newest(rows, f, beforeID);
    NewestBelow(rows, f, beforeID, i);
    NewestIds(rows, f, beforeID, i);
    assert es[j] == es[i + 1..][j - i - 1];
    NewestIds(rows, f, es[i].id, j - i - 1);
  }

  lemma {:induction false} NewestCursorAbove(rows: seq<Row>, f: Filter, beforeID: int, cursor: int)
    requires cursor > 0 && forall r :: r in rows ==> r.id < cursor
    requires beforeID > 0 ==> cursor <= beforeID
    ensures Newest(rows, f, cursor) == Newest(rows, f, beforeID)
  {
    if rows != [] {
      NewestCursorAbove(rows[..|rows| - 1], f, beforeID, cursor);
      assert rows[|rows| - 1] in rows;
    }
  }

  const UI_PAGE_SIZE := 50

  /** The table as each page is served. */
  ghost predicate Grows(tables: nat -> seq<Row>)
  {
    forall k: nat :: IdsAscend(tables(k)) && tables(k) <= tables(k + 1)
  }

  /** The time bound of each page: sinceMSFor reads the clock again for every one. */
  ghost predicate NeverEarlier(since: nat -> int) { forall k: nat :: since(k) <= since(k + 1) }

  /** The pages of a browser that follows the cursor, page `k` being served from the table and with the time bound of step
      `k`: HasMore is "the page is full", NextID the last id on it. */
  ghost function FollowCursor(tables: nat -> seq<Row>, since: nat -> int, k: nat, f: Filter, beforeID: int): seq<Entry>
    requires Grows(tables)
    decreases if beforeID > 0 then beforeID else NextId(tables(k))
  {
    assert IdsAscend(tables(k));
    var page := Page(tables(k), f.(sinceMS := since(k)), beforeID, UI_PAGE_SIZE);
    if |page| < UI_PAGE_SIZE then page
    else
      var next := page[UI_PAGE_SIZE - 1].id;
      NewestIds(tables(k), f.(sinceMS := since(k)), beforeID, UI_PAGE_SIZE - 1);
      page + FollowCursor(tables, since, k + 1, f, next)
  }

  /** The entry is not too old for this time bound. */
  predicate Recent(since: int, e: Entry) { since <= 0 || e.ts >= since }

  function Kept(es: seq<Entry>, since: int): (kept: seq<Entry>)
    ensures |kept| <= |es|
  {
    if es == [] then [] else (if Recent(since, es[0]) then [es[0]] else []) + Kept(es[1..], since)
  }

  lemma {:induction false} KeptAppend(a: seq<Entry>, b: seq<Entry>, since: int)
    ensures Kept(a + b, since) == Kept(a, since) + Kept(b, since)
  {
    if a == [] {
      assert a + b == b;
    } else {
      assert (a + b)[0] == a[0] && (a + b)[1..] == a[1..] + b;
      KeptAppend(a[1..], b, since);
      ConcatAssoc(if Recent(since, a[0]) then [a[0]] else [], Kept(a[1..], since), Kept(b, since));
    }
  }

  lemma {:induction false} KeptHolds(es: seq<Entry>, since: int, e: Entry)
    ensures e in Kept(es, since) <==> e in es && Recent(since, e)
  {
    if es != [] { KeptHolds(es[1..], since, e); }
  }

  lemma {:induction false} KeptAll(es: seq<Entry>, since: int)
    requires forall i :: 0 <= i < |es| ==> Recent(since, es[i])
    ensures Kept(es, since) == es
  {
    if es != [] {
      assert forall i :: 0 <= i < |es| - 1 ==> es[1..][i] == es[i + 1];
      KeptAll(es[1..], since);
    }
  }

  /** A later time bound drops the entries that are too old for it, and nothing else. */
  lemma {:induction false} NewestAged(rows: seq<Row>, f: Filter, since: int, later: int, beforeID: int)
    requires since <= later
    ensures Newest(rows, f.(sinceMS := later), beforeID) == Kept(Newest(rows, f.(sinceMS := since), beforeID), later)
  {
    if rows != [] {
      var front, last := rows[..|rows| - 1], rows[|rows| - 1];
      NewestAged(front, f, since, later, beforeID);
      var first := if Listed(f.(sinceMS := since), beforeID, last) then [EntryOf(last)] else [];
      KeptAppend(first, Newest(front, f.(sinceMS := since), beforeID), later);
      assert [EntryOf(last)][1..] == [];
    }
  }

  /** A list walked page by page, each time without what has become too old. */
  function Walk(es: seq<Entry>, since: nat -> int, k: nat): seq<Entry>
    decreases |es|
  {
    if |es| < UI_PAGE_SIZE then es
    else es[..UI_PAGE_SIZE] + Walk(Kept(es[UI_PAGE_SIZE..], since(k + 1)), since, k + 1)
  }

  /** From any cursor on, whatever is appended meanwhile, the pages are the list below it at that step, walked. */
  lemma {:induction false} FollowFrom(tables: nat -> seq<Row>, since: nat -> int, k: nat, f: Filter, beforeID: int)
    requires Grows(tables) && NeverEarlier(since)
    ensures FollowCursor(tables, since, k, f, beforeID) ==
      Walk(Newest(tables(k), f.(sinceMS := since(k)), beforeID), since, k)
    decreases if beforeID > 0 then beforeID else NextId(tables(k))
  {
    var all := Newest(tables(k), f.(sinceMS := since(k)), beforeID);
    if |all| >= UI_PAGE_SIZE {
      var next := FollowOn(tables, since, k, f, beforeID);
      FollowFrom(tables, since, k + 1, f, next);
    }
  }

  /** A full page, and where the next one starts. */
  lemma {:induction false} FollowOn(tables: nat -> seq<Row>, since: nat -> int, k: nat, f: Filter, beforeID: int)
    returns (next: int)
    requires Grows(tables) && NeverEarlier(since)
    requires |Newest(tables(k), f.(sinceMS := since(k)), beforeID)| >= UI_PAGE_SIZE
    ensures var all := Newest(tables(k), f.(sinceMS := since(k)), beforeID);
      0 < next < NextId(tables(k)) && (beforeID > 0 ==> next < beforeID) &&
      Newest(tables(k + 1), f.(sinceMS := since(k + 1)), next) == Kept(all[UI_PAGE_SIZE..], since(k + 1)) &&
      FollowCursor(tables, since, k, f, beforeID) ==
        all[..UI_PAGE_SIZE] + FollowCursor(tables, since, k + 1, f, next)
  {
    var now := f.(sinceMS := since(k));
    assert IdsAscend(tables(k));
    var all, page := Newest(tables(k), now, beforeID), Page(tables(k), now, beforeID, UI_PAGE_SIZE);
    assert page == all[..UI_PAGE_SIZE];
    NewestIds(tables(k), now, beforeID, UI_PAGE_SIZE - 1);
    next := all[UI_PAGE_SIZE - 1].id;
    NextList(tables, since, k, f, beforeID);
  }

  /** The list below the next cursor, at the next step. */
  lemma {:induction false} NextList(tables: nat -> seq<Row>, since: nat -> int, k: nat, f: Filter, beforeID: int)
    requires Grows(tables) && NeverEarlier(since)
    requires |Newest(tables(k), f.(sinceMS := since(k)), beforeID)| >= UI_PAGE_SIZE
    ensures var all := Newest(tables(k), f.(sinceMS := since(k)), beforeID);
      Newest(tables(k + 1), f.(sinceMS := since(k + 1)), all[UI_PAGE_SIZE - 1].id) ==
      Kept(all[UI_PAGE_SIZE..], since(k + 1))
  {
    var rows, more, now := tables(k), tables(k + 1), f.(sinceMS := since(k));
    assert IdsAscend(rows) && IdsAscend(more) && rows <= more;
    var n := UI_PAGE_SIZE - 1;
    var next := Newest(rows, now, beforeID)[n].id;
    NewestIds(rows, now, beforeID, n);
    NewestBelow(rows, now, beforeID, n);
    AppendsAbove(rows, more);
    NewestIgnoresAppends(rows, more, now, next);
    NewestAged(more, f, since(k), since(k + 1), next);
  }

  lemma {:induction false} AppendsAbove(rows: seq<Row>, more: seq<Row>)
    requires IdsAscend(more) && rows <= more && rows != []
    ensures forall i :: |rows| <= i < |more| ==> rows[|rows| - 1].id <= more[i].id
  {
    assert more[|rows| - 1] == rows[|rows| - 1];
  }

  /** Every entry is still recent when its page is served. */
  predicate InTime(es: seq<Entry>, since: nat -> int, k: nat)
  {
    forall n :: 0 <= n < |es| ==> Recent(since(k + n / UI_PAGE_SIZE), es[n])
  }

  lemma {:induction false} LaterStep(since: nat -> int, j: nat, k: nat)
    requires NeverEarlier(since) && j <= k
    ensures since(j) <= since(k)
    decreases k - j
  {
    if j < k { LaterStep(since, j, k - 1); }
  }

  lemma {:induction false} WalkHolds(es: seq<Entry>, since: nat -> int, k: nat, e: Entry)
    ensures e in Walk(es, since, k) ==> e in es
    decreases |es|
  {
    if |es| >= UI_PAGE_SIZE {
      WalkHolds(Kept(es[UI_PAGE_SIZE..], since(k + 1)), since, k + 1, e);
      KeptHolds(es[UI_PAGE_SIZE..], since(k + 1), e);
    }
  }

  /** The walk loses nothing exactly when every entry is reached in time. */
  lemma {:induction false} WalkAllIff(es: seq<Entry>, since: nat -> int, k: nat)
    requires NeverEarlier(since) && forall i :: 0 <= i < |es| ==> Recent(since(k), es[i])
    ensures Walk(es, since, k) == es <==> InTime(es, since, k)
    decreases |es|
  {
    if |es| >= UI_PAGE_SIZE {
      var rest := es[UI_PAGE_SIZE..];
      var kept := Kept(rest, since(k + 1));
      if kept == rest {
        forall i | 0 <= i < |rest| ensures Recent(since(k + 1), rest[i]) { KeptHolds(rest, since(k + 1), rest[i]); }
        WalkAllIff(rest, since, k + 1);
        InTimeBehind(es, since, k);
        PageInFront(es, Walk(rest, since, k + 1));
      } else {
        WalkLoses(es, since, k);
      }
    }
  }

  lemma {:induction false} PageInFront(es: seq<Entry>, rest: seq<Entry>)
    requires |es| >= UI_PAGE_SIZE
    ensures es[..UI_PAGE_SIZE] + rest == es <==> rest == es[UI_PAGE_SIZE..]
  {
    if es[..UI_PAGE_SIZE] + rest == es { assert (es[..UI_PAGE_SIZE] + rest)[UI_PAGE_SIZE..] == rest; }
  }

  lemma {:induction false} NextPage(n: nat)
    ensures (n + UI_PAGE_SIZE) / UI_PAGE_SIZE == 1 + n / UI_PAGE_SIZE
  {}

  lemma {:induction false} InTimeBehind(es: seq<Entry>, since: nat -> int, k: nat)
    requires |es| >= UI_PAGE_SIZE && forall i :: 0 <= i < |es| ==> Recent(since(k), es[i])
    ensures InTime(es, since, k) <==> InTime(es[UI_PAGE_SIZE..], since, k + 1)
  {
    var rest := es[UI_PAGE_SIZE..];
    forall n | 0 <= n < |rest|
      ensures rest[n] == es[n + UI_PAGE_SIZE]
      ensures since(k + (n + UI_PAGE_SIZE) / UI_PAGE_SIZE) == since(k + 1 + n / UI_PAGE_SIZE)
    {
      NextPage(n);
    }
    if InTime(rest, since, k + 1) {
      forall n | 0 <= n < |es| ensures Recent(since(k + n / UI_PAGE_SIZE), es[n]) {
        if n >= UI_PAGE_SIZE {
          var m := n - UI_PAGE_SIZE;
          assert Recent(since(k + 1 + m / UI_PAGE_SIZE), rest[m]) && m + UI_PAGE_SIZE == n;
        }
      }
    }
    if InTime(es, since, k) {
      forall n | 0 <= n < |rest| ensures Recent(since(k + 1 + n / UI_PAGE_SIZE), rest[n]) {
        assert Recent(since(k + (n + UI_PAGE_SIZE) / UI_PAGE_SIZE), es[n + UI_PAGE_SIZE]);
      }
    }
  }

  /** If something is too old for the next page, it is lost, and was not in time. */
  lemma {:induction false} WalkLoses(es: seq<Entry>, since: nat -> int, k: nat)
    requires NeverEarlier(since) && |es| >= UI_PAGE_SIZE
    requires Kept(es[UI_PAGE_SIZE..], since(k + 1)) != es[UI_PAGE_SIZE..]
    ensures Walk(es, since, k) != es && !InTime(es, since, k)
  {
    var rest := es[UI_PAGE_SIZE..];
    if forall i :: 0 <= i < |rest| ==> Recent(since(k + 1), rest[i]) {
      KeptAll(rest, since(k + 1));
      assert false;
    }
    var i :| 0 <= i < |rest| && !Recent(since(k + 1), rest[i]);
    var kept := Kept(rest, since(k + 1));
    KeptHolds(rest, since(k + 1), rest[i]);
    WalkHolds(kept, since, k + 1, rest[i]);
    PageInFront(es, Walk(kept, since, k + 1));
    var n := i + UI_PAGE_SIZE;
    LaterStep(since, k + 1, k + n / UI_PAGE_SIZE);
    assert es[n] == rest[i] && !Recent(since(k + n / UI_PAGE_SIZE), es[n]);
  }

  lemma {:induction false} ListIsRecent(rows: seq<Row>, f: Filter, since: int, beforeID: int)
    ensures var es := Newest(rows, f.(sinceMS := since), beforeID);
      forall i :: 0 <= i < |es| ==> Recent(since, es[i])
  {
    var es := Newest(rows, f.(sinceMS := since), beforeID);
    forall i | 0 <= i < |es| ensures Recent(since, es[i]) {
      NewestHolds(rows, f.(sinceMS := since), beforeID, es[i]);
      assert es[i] in es;
    }
  }

  /** Following the cursor from the first page to the end, whatever is appended meanwhile, yields exactly the entries
      selected when the first page was served if and only if each of them is still recent when its page is. */
  lemma {:induction false} FollowedPagesExactIff(tables: nat -> seq<Row>, since: nat -> int, f: Filter)
    requires Grows(tables) && NeverEarlier(since)
    ensures var list := Newest(tables(0), f.(sinceMS := since(0)), 0);
      FollowCursor(tables, since, 0, f, 0) == list <==>
      forall n :: 0 <= n < |list| ==> Recent(since(n / UI_PAGE_SIZE), list[n])
  {
    var list := Newest(tables(0), f.(sinceMS := since(0)), 0);
    FollowFrom(tables, since, 0, f, 0);
    ListIsRecent(tables(0), f, since(0), 0);
    WalkAllIff(list, since, 0);
    forall n | 0 <= n < |list|
      ensures Recent(since(0 + n / UI_PAGE_SIZE), list[n]) <==> Recent(since(n / UI_PAGE_SIZE), list[n])
    {}
  }

  /** What is shown was selected then, in any case, and what is missed has become too old. */
  lemma {:induction false} FollowedPagesMiss(tables: nat -> seq<Row>, since: nat -> int, f: Filter, e: Entry)
    requires Grows(tables) && NeverEarlier(since)
    ensures var list := Newest(tables(0), f.(sinceMS := since(0)), 0);
      var shown := FollowCursor(tables, since, 0, f, 0);
      (e in shown ==> e in list) && (e in list && e !in shown ==> exists k: nat :: !Recent(since(k), e))
  {
    var list := Newest(tables(0), f.(sinceMS := since(0)), 0);
    FollowFrom(tables, since, 0, f, 0);
    WalkHolds(list, since, 0, e);
    if e in list && e !in Walk(list, since, 0) { var k := WalkMisses(list, since, 0, e); }
  }

  lemma {:induction false} WalkMisses(es: seq<Entry>, since: nat -> int, k: nat, e: Entry) returns (m: nat)
    requires e in es && e !in Walk(es, since, k)
    ensures !Recent(since(m), e)
    decreases |es|
  {
    var rest := es[UI_PAGE_SIZE..];
    assert es == es[..UI_PAGE_SIZE] + rest;
    KeptHolds(rest, since(k + 1), e);
    m := k + 1;
    if Recent(since(m), e) { m := WalkMisses(Kept(rest, since(m)), since, k + 1, e); }
  }

  /** A table with an entry for every millisecond, the id being the time. */
  function OnePerMillisecond(n: nat): (rows: seq<Row>)
    ensures |rows| == n && forall i :: 0 <= i < n ==> rows[i].id == rows[i].ts == i + 1
  {
    if n == 0 then [] else OnePerMillisecond(n - 1) + [Row(n, n, [], 0, [], None, [], [], [], [])]
  }

  lemma {:induction false} AllListed(n: nat)
    ensures var list := Newest(OnePerMillisecond(n), Filter(1, 0, []), 0);
      |list| == n && forall i :: 0 <= i < n ==> list[i].ts == n - i
  {
    if n > 0 {
      var rows := OnePerMillisecond(n);
      AllListed(n - 1);
      assert rows[..n - 1] == OnePerMillisecond(n - 1);
      assert Listed(Filter(1, 0, []), 0, rows[n - 1]);
    }
  }

  /** Fifty-one entries, and a second page that is asked for a millisecond later: the oldest is on neither page. */
  lemma {:induction false} OldestLost()
    ensures var tables, since := (k: nat) => OnePerMillisecond(51), (k: nat) => k + 1;
      var list := Newest(tables(0), Filter(since(0), 0, []), 0);
      Grows(tables) && NeverEarlier(since) && |list| == 51 &&
      list[50] !in FollowCursor(tables, since, 0, Filter(0, 0, []), 0)
  {
    var tables, since := (k: nat) => OnePerMillisecond(51), (k: nat) => k + 1;
    var f := Filter(0, 0, []);
    AllListed(51);
    var list := Newest(tables(0), f.(sinceMS := since(0)), 0);
    FollowFrom(tables, since, 0, f, 0);
    var rest, oldest := list[UI_PAGE_SIZE..], list[50];
    KeptHolds(rest, since(1), oldest);
    WalkHolds(Kept(rest, since(1)), since, 1, oldest);
    assert forall i :: 0 <= i < 50 ==> list[i].ts != oldest.ts;
  }

  /** A time bound that stays as it is; since=all is 0. */
  function Fixed(since: int): nat -> int { k => since }

  /** With such a bound the pages are exactly the entries selected when the first one was served, newest first, each once;
      as many as Count said then. */
  lemma {:induction false} FollowedPagesExact(tables: nat -> seq<Row>, f: Filter)
    requires Grows(tables)
    ensures var all := FollowCursor(tables, Fixed(f.sinceMS), 0, f, 0);
      && (forall e :: e in all <==> Present(tables(0), f, 0, e))
      && (forall i, j :: 0 <= i < j < |all| ==> all[i].id > all[j].id)
      && |all| == Count(tables(0), f)
  {
    var all := FollowCursor(tables, Fixed(f.sinceMS), 0, f, 0);
    FollowedPagesExactIff(tables, Fixed(f.sinceMS), f);
    ListIsRecent(tables(0), f, f.sinceMS, 0);
    assert all == Newest(tables(0), f, 0);
    assert IdsAscend(tables(0));
    forall e ensures e in Newest(tables(0), f, 0) <==> Present(tables(0), f, 0, e) { NewestHolds(tables(0), f, 0, e); }
    forall i, j | 0 <= i < j < |all| ensures all[i].id > all[j].id { NewestDescends(tables(0), f, 0, i, j); }
    CountIsLength(tables(0), f);
  }

  /** SELECT COUNT(*) with the same WHERE clause. */
  function Count(rows: seq<Row>, f: Filter): nat
  {
    if rows == [] then 0 else
    Count(rows[..|rows| - 1], f) + if Selects(f, EntryOf(rows[|rows| - 1])) then 1 else 0
  }

  lemma {:induction false} CountIsLength(rows: seq<Row>, f: Filter)
    ensures Count(rows, f) == |Newest(rows, f, 0)|
  {
    if rows != [] { CountIsLength(rows[..|rows| - 1], f); }
  }

  // --- the same, in the rows' own columns ---

  /** What the filters and the cursor ask of a row: its time, "key" and the key's id, the text in its action (up to a zero
      byte in the filter, and then at the action's end), and an id below the cursor. */
  lemma {:induction false} ListedIff(f: Filter, beforeID: int, r: Row)
    ensures Listed(f, beforeID, r) <==>
      (f.sinceMS <= 0 || r.ts >= f.sinceMS) &&
      (f.keyID <= 0 || (r.actorKind == [107, 101, 121] && r.actorId == f.keyID)) &&
      (f.actionSub == [] ||
       if 0 !in f.actionSub then Like.ContainsFolded(f.actionSub, Like.CText(r.action))
       else Like.EndsFolded(Like.CText(f.actionSub), Like.CText(r.action))) &&
      (beforeID <= 0 || r.id < beforeID)
  {
    assert KEY_KIND == [107, 101, 121];
    if 0 !in f.actionSub {
      Like.ActionFilterContains(f.actionSub, r.action);
    } else {
      IndexOfPresent(f.actionSub, 0);
      Reassemble(f.actionSub, IndexOf(f.actionSub, 0));
      Like.ActionFilterWithZero(Like.CText(f.actionSub), f.actionSub[IndexOf(f.actionSub, 0) + 1..], r.action);
    }
  }

  /** What Query lists, for a filter without a zero byte: nothing but entries of rows that pass; the limit, or 100 for one
      outside 1 to 1000, bounds it; and a row that passes is left out only if the page is full of newer ones. */
  lemma {:induction false} PageIff(rows: seq<Row>, f: Filter, beforeID: int, limit: int, i: nat)
    requires IdsAscend(rows) && i < |rows| && 0 !in f.actionSub
    ensures var page, size := Page(rows, f, beforeID, limit), if 1 <= limit <= 1000 then limit else 100;
      var r := rows[i];
      var passes := (f.sinceMS <= 0 || r.ts >= f.sinceMS) &&
        (f.keyID <= 0 || (r.actorKind == [107, 101, 121] && r.actorId == f.keyID)) &&
        (f.actionSub == [] || Like.ContainsFolded(f.actionSub, Like.CText(r.action))) &&
        (beforeID <= 0 || r.id < beforeID);
      |page| <= size &&
      (EntryOf(r) in page ==> passes) &&
      (passes && EntryOf(r) !in page ==> |page| == size && forall j :: 0 <= j < size ==> page[j].id > r.id)
  {
    ListedIff(f, beforeID, rows[i]);
    var all, page := Newest(rows, f, beforeID), Page(rows, f, beforeID, limit);
    var e := EntryOf(rows[i]);
    NewestHolds(rows, f, beforeID, e);
    if e in page {
      assert e in all;
      var j :| 0 <= j < |rows| && Listed(f, beforeID, rows[j]) && EntryOf(rows[j]) == e;
      SameRow(rows, i, j);
    } else if Listed(f, beforeID, rows[i]) {
      assert Present(rows, f, beforeID, e);
      var k :| 0 <= k < |all| && all[k] == e;
      forall j | 0 <= j < |page| ensures page[j].id > e.id { NewestDescends(rows, f, beforeID, j, k); }
    }
  }

  lemma {:induction false} SameRow(rows: seq<Row>, i: nat, j: nat)
    requires IdsAscend(rows) && i < |rows| && j < |rows| && rows[i].id == rows[j].id
    ensures i == j
  {}

  /** The rows that the filters let through. */
  function Passing(rows: seq<Row>, f: Filter): set<int>
  {
    set i | 0 <= i < |rows| && Passes(f, rows[i])
  }

  predicate Passes(f: Filter, r: Row)
  {
    (f.sinceMS <= 0 || r.ts >= f.sinceMS) && (f.keyID <= 0 || (r.actorKind == [107, 101, 121] && r.actorId == f.keyID)) &&
    (f.actionSub == [] ||
     if 0 !in f.actionSub then Like.ContainsFolded(f.actionSub, Like.CText(r.action))
     else Like.EndsFolded(Like.CText(f.actionSub), Like.CText(r.action)))
  }

  /** And Count counts them. */
  lemma {:induction false} CountIff(rows: seq<Row>, f: Filter)
    ensures Count(rows, f) == |Passing(rows, f)|
  {
    if rows != [] {
      CountIff(rows[..|rows| - 1], f);
      ListedIff(f, 0, rows[|rows| - 1]);
      PassingStep(rows, f);
    }
  }

  lemma {:induction false} PassingStep(rows: seq<Row>, f: Filter)
    requires rows != []
    ensures var n := |rows| - 1;
      Passing(rows, f) == Passing(rows[..n], f) + (if Passes(f, rows[n]) then {n} else {}) && n !in Passing(rows[..n], f)
  {}
}
