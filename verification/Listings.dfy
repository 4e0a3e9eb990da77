/** Listings of any table, with rows that cannot be read or do not open (handleListSecrets in internal/api/server.go,
    uiSecretRows in internal/api/ui_pages.go). */
module Listings {
  import opened Auth
  import opened Basics
  import opened CryptoPrimitives
  import opened Store
  import opened Vault
  import Like
  import Scope
  import Sorting

  /** The caller reaches the path and its row can be read. */
  predicate Visited(p: Principal, t: Secrets, unreadable: set<Str>, q: Str)
  {
    q in t && q !in unreadable &&
    (p.kind == Kind.Operator || exists i :: 0 <= i < |p.scope| && Scope.Match(p.scope[i], q))
  }

  /** The item of a row that opens to the value. */
  function Item(r: SecretRow, value: Str, unmask: bool): ListItem
  {
    ListItem(r.path, if r.labelText.Some? then r.labelText.value else [], r.tags, r.description,
             if unmask then value else (if |value| > 10 then value[..6] else []) + [42, 42, 42])
  }

  /** The walk shows a visited path whose row opens with the AAD of its own columns, and reports one whose row does not. */
  lemma {:induction false} WalkIff(env: Env, p: Principal, t: Secrets, unreadable: set<Str>, paths: seq<Str>,
                                   unmask: bool, item: ListItem, event: Event)
    ensures var (items, events) := ListAll(env, p, Readable(t, unreadable), paths, unmask);
      (item in items <==>
        exists q :: q in paths && Visited(p, t, unreadable, q) && OpenFresh(env.crypto, env.kek, t[q]).Ok? &&
                    item == Item(t[q], OpenFresh(env.crypto, env.kek, t[q]).value, unmask)) &&
      (event in events <==>
        exists q :: q in paths && Visited(p, t, unreadable, q) && OpenFresh(env.crypto, env.kek, t[q]).Err? &&
                    event == Event(DecryptFailed, q))
  {
    if paths != [] {
      var front, last := paths[..|paths| - 1], paths[|paths| - 1];
      WalkIff(env, p, t, unreadable, front, unmask, item, event);
      OneIff(env, p, t, unreadable, last, unmask, item, event);
      assert forall q :: q in paths <==> q in front || q == last;
    }
  }

  lemma {:induction false} OneIff(env: Env, p: Principal, t: Secrets, unreadable: set<Str>, q: Str, unmask: bool,
                                  item: ListItem, event: Event)
    ensures var (items, events) := ListOne(env, p, Readable(t, unreadable), q, unmask);
      (item in items <==>
        Visited(p, t, unreadable, q) && OpenFresh(env.crypto, env.kek, t[q]).Ok? &&
        item == Item(t[q], OpenFresh(env.crypto, env.kek, t[q]).value, unmask)) &&
      (event in events <==>
        Visited(p, t, unreadable, q) && OpenFresh(env.crypto, env.kek, t[q]).Err? && event == Event(DecryptFailed, q))
  {
    CanAccessIff(p, q);
    assert [] + [42, 42, 42] == STARS;
    if Visited(p, t, unreadable, q) && OpenFresh(env.crypto, env.kek, t[q]).Ok? {
      assert ListOne(env, p, Readable(t, unreadable), q, unmask).0 ==
        [Item(t[q], OpenFresh(env.crypto, env.kek, t[q]).value, unmask)];
    }
  }

  lemma {:induction false} WalkPaths(env: Env, p: Principal, t: Secrets, paths: seq<Str>, unmask: bool, i: nat)
    requires (forall q :: q in t ==> t[q].path == q) && i < |ListAll(env, p, t, paths, unmask).0|
    ensures ListAll(env, p, t, paths, unmask).0[i].path in paths
  {
    var front, last := paths[..|paths| - 1], paths[|paths| - 1];
    var items, one := ListAll(env, p, t, front, unmask).0, ListOne(env, p, t, last, unmask).0;
    if i < |items| {
      WalkPaths(env, p, t, front, unmask, i);
      assert items[i].path in front;
    } else {
      assert (items + one)[i] == one[i - |items|];
      assert one[i - |items|].path == last;
    }
  }

  /** The walk over ascending paths shows items whose paths ascend: none is shown twice. */
  lemma {:induction false} WalkAscends(env: Env, p: Principal, t: Secrets, paths: seq<Str>, unmask: bool, i: nat, j: nat)
    requires forall q :: q in t ==> t[q].path == q
    requires forall k, l :: 0 <= k < l < |paths| ==> Sorting.Less(paths[k], paths[l])
    requires i < j < |ListAll(env, p, t, paths, unmask).0|
    ensures var items := ListAll(env, p, t, paths, unmask).0; Sorting.Less(items[i].path, items[j].path)
  {
    var front, last := paths[..|paths| - 1], paths[|paths| - 1];
    var items, one := ListAll(env, p, t, front, unmask).0, ListOne(env, p, t, last, unmask).0;
    assert |one| <= 1;
    assert (items + one)[i] == items[i];
    if j < |items| {
      WalkAscends(env, p, t, front, unmask, i, j);
      assert (items + one)[j] == items[j];
    } else {
      WalkPaths(env, p, t, front, unmask, i);
      assert (items + one)[j] == one[0] && one[0].path == last;
      var k :| 0 <= k < |front| && front[k] == items[i].path;
      assert paths[k] == items[i].path;
    }
  }

  lemma {:induction false} AscendingPairs(r: seq<Str>)
    requires Sorting.Ascending(r)
    ensures forall i, j :: 0 <= i < j < |r| ==> Sorting.Less(r[i], r[j])
  {
    if r != [] {
      AscendingPairs(r[1..]);
      forall i, j | 0 <= i < j < |r| ensures Sorting.Less(r[i], r[j]) {
        assert r[j] == r[1..][j - 1];
        if i == 0 { assert r[1..][j - 1] in r[1..]; } else { assert r[i] == r[1..][i - 1]; }
      }
    }
  }

  /** A prefix without wildcards selects the paths that start with it, up to ASCII case; with wildcards it is a pattern. */
  predicate Selected(prefix: Str, q: Str)
  {
    prefix == [] ||
    if 0 in prefix || PERCENT in prefix || UNDERSCORE in prefix then Like.Matches(prefix + [PERCENT], q, None)
    else Like.StartsFolded(prefix, Like.CText(q))
  }

  lemma {:induction false} SelectedIff(t: Secrets, prefix: Str, q: Str)
    ensures q in ListedPaths(t, prefix) <==> q in t && Selected(prefix, q)
  {
    if 0 !in prefix && PERCENT !in prefix && UNDERSCORE !in prefix { Like.PrefixIff(prefix, q); }
  }

  /** What the list answers for any table: an error if the paths cannot be read, and otherwise the selected rows that the
      caller reaches, that can be read and that open, in ascending order of their paths; a row that does not open is
      reported, and the list itself is reported last. */
  lemma {:induction false} ListIff(env: Env, p: Principal, req: Request, t: Secrets, missed: ReadFaults, item: ListItem,
                                   event: Event)
    requires req.List? && forall q :: q in t ==> t[q].path == q
    ensures var o := FaultyListOutcome(env, p, req, t, missed);
      if missed.pathsFail then o == Outcome(ServerError, Keep, [])
      else
        o.reply.Items? && o.change == Keep && o.events != [] &&
        (item in o.reply.items <==>
          exists q :: Visited(p, t, missed.unreadable, q) && Selected(req.prefix, q) &&
                      OpenFresh(env.crypto, env.kek, t[q]).Ok? &&
                      item == Item(t[q], OpenFresh(env.crypto, env.kek, t[q]).value, req.unmask)) &&
        (forall i, j :: 0 <= i < j < |o.reply.items| ==> Sorting.Less(o.reply.items[i].path, o.reply.items[j].path)) &&
        o.events[|o.events| - 1] == Event(if req.unmask then ReadListReveal else ReadList, []) &&
        (event in o.events[..|o.events| - 1] <==>
          exists q :: Visited(p, t, missed.unreadable, q) && Selected(req.prefix, q) &&
                      OpenFresh(env.crypto, env.kek, t[q]).Err? && event == Event(DecryptFailed, q))
  {
    if !missed.pathsFail {
      var paths, seen := ListedPaths(t, req.prefix), Readable(t, missed.unreadable);
      forall q ensures q in paths <==> q in t && Selected(req.prefix, q) { SelectedIff(t, req.prefix, q); }
      WalkIff(env, p, t, missed.unreadable, paths, req.unmask, item, event);
      ListAscends(env, p, t, seen, req.prefix, req.unmask);
      var events := ListAll(env, p, seen, paths, req.unmask).1;
      assert FaultyListOutcome(env, p, req, t, missed).events[..|events|] == events;
    }
  }

  lemma {:induction false} ListAscends(env: Env, p: Principal, t: Secrets, seen: Secrets, prefix: Str, unmask: bool)
    requires forall q :: q in seen ==> seen[q].path == q
    ensures var items := ListAll(env, p, seen, ListedPaths(t, prefix), unmask).0;
      forall i, j :: 0 <= i < j < |items| ==> Sorting.Less(items[i].path, items[j].path)
  {
    PathsAscend(t, prefix);
    var items := ListAll(env, p, seen, ListedPaths(t, prefix), unmask).0;
    forall i, j | 0 <= i < j < |items| ensures Sorting.Less(items[i].path, items[j].path) {
      WalkAscends(env, p, seen, ListedPaths(t, prefix), unmask, i, j);
    }
  }

  lemma {:induction false} PathsAscend(t: Secrets, prefix: Str)
    ensures var paths := ListedPaths(t, prefix);
      forall i, j :: 0 <= i < j < |paths| ==> Sorting.Less(paths[i], paths[j])
  {
    Sorting.SortedAscending(set q | q in t && (prefix == [] || Like.Matches(prefix + [PERCENT], q, None)));
    AscendingPairs(ListedPaths(t, prefix));
  }

  /** What a page of the web interface adds to the trail: one event for each row that it reads and that does not open. */
  lemma {:induction false} PageEventsIff(env: Env, p: Principal, t: Secrets, missed: ReadFaults, event: Event)
    ensures event in PageEvents(env, p, t, missed) <==>
      !missed.pathsFail &&
      exists q :: Visited(p, t, missed.unreadable, q) && OpenFresh(env.crypto, env.kek, t[q]).Err? &&
                  event == Event(DecryptFailed, q)
  {
    if !missed.pathsFail {
      forall q ensures q in ListedPaths(t, []) <==> q in t { SelectedIff(t, [], q); }
      WalkIff(env, p, t, missed.unreadable, ListedPaths(t, []), false, ListItem([], [], [], [], []), event);
    }
  }

  /** How a stored row opens: with its stored AAD, or with the AAD of its columns. */
  lemma {:induction false} RowOpensIff(c: Crypto, kek: Str, r: SecretRow, value: Str)
    requires |r.nonce| == 12
    ensures OpenStored(c, kek, r) == Ok(value) <==>
      |kek| == 32 && |r.ciphertext| >= 16 && c.gcmOpen(kek, r.nonce, r.ciphertext, r.aad) == Some(value)
    ensures OpenFresh(c, kek, r) == Ok(value) <==>
      |kek| == 32 && |r.ciphertext| >= 16 &&
      c.gcmOpen(kek, r.nonce, r.ciphertext, c.sha256(AadPreimage(r.path, r.description, r.version))) == Some(value)
  {
    OpenIff(c, kek, r.nonce, r.ciphertext, r.aad, value);
    OpenIff(c, kek, r.nonce, r.ciphertext, AADSecret(c, r.path, r.description, r.version), value);
  }

  /** How a get of any row is answered. */
  lemma {:induction false} GetIff(env: Env, p: Principal, req: Request, t: Secrets, d: Draw)
    requires req.Get? && |d.nonce| == 12
    ensures var o, path := Handle(env, p, req, t, d), req.path;
      if p.kind == Kind.Key && !exists i :: 0 <= i < |p.scope| && Scope.Match(p.scope[i], path)
      then o == Outcome(Forbidden, Keep, [Event(DeniedOutOfScope, path)])
      else if path !in t then o == Outcome(Missing, Keep, [])
      else if OpenFresh(env.crypto, env.kek, t[path]).Err? then o == Outcome(ServerError, Keep, [Event(DecryptFailed, path)])
      else
        var r := t[path];
        o == Outcome(Secret(r.path, OpenFresh(env.crypto, env.kek, r).value,
                            if r.labelText.Some? then r.labelText.value else [], SplitCsv(r.tags), r.description,
                            r.metadata, r.version), Keep, [Event(Read, path)])
  {
    CanAccessIff(p, req.path);
  }
}
