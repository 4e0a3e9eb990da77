/** Tag lists (internal/metadata/metadata.go: NormalizeTags, MergeTags). */
module Tags {
  import opened Basics
  import opened Text

  const MAX_TAGS := 20
  const MAX_TAG_LEN := 64

  datatype TagError = TooManyTags | TagTooLong

  /** `out` with the new tags of `pieces` behind it: trimmed, not empty, not removed, not seen before. */
  function AddTags(out: seq<Str>, pieces: seq<Str>, rm: set<Str>): seq<Str>
    decreases |pieces|
  {
    if pieces == [] then out
    else AddTags(AddTag(out, TrimSpace(pieces[0]), rm), pieces[1..], rm)
  }

  function AddTag(out: seq<Str>, t: Str, rm: set<Str>): seq<Str>
  {
    if t == [] || t in rm || t in out then out else out + [t]
  }

  lemma {:induction false} AddTagsStep(out: seq<Str>, pieces: seq<Str>, i: nat, rm: set<Str>)
    requires i < |pieces|
    ensures AddTags(out, pieces[i..], rm) == AddTags(AddTag(out, TrimSpace(pieces[i]), rm), pieces[i + 1..], rm)
  {
    assert pieces[i..][1..] == pieces[i + 1..];
  }

  function Merged(base: Str, add: seq<Str>, rm: set<Str>): seq<Str>
  {
    AddTags(AddTags([], Split(base, COMMA), rm), add, rm)
  }

  function Render(tags: seq<Str>): Result<Str, TagError>
  {
    if |tags| > MAX_TAGS then Err(TooManyTags) else Ok(Join(tags, COMMA))
  }

  /** What MergeTags returns. */
  function MergedTags(base: Str, add: seq<Str>, remove: seq<Str>): Result<Str, TagError>
  {
    Render(Merged(base, add, Elements(remove)))
  }

  method MergeTags(base: Str, add: seq<Str>, remove: seq<Str>) returns (r: Result<Str, TagError>)
    ensures r == MergedTags(base, add, remove)
  {
    var rm: set<Str> := {};
    for i := 0 to |remove|
      invariant rm == Elements(remove[..i])
    {
      assert remove[..i + 1] == remove[..i] + [remove[i]];
      rm := rm + {remove[i]};
    }
    assert remove[..|remove|] == remove;
    var out, seen := [], {};
    var parts := Split(base, COMMA);
    assert parts[0..] == parts;
    for i := 0 to |parts|
      invariant seen == Elements(out)
      invariant AddTags(out, parts[i..], rm) == AddTags([], parts, rm)
    {
      AddTagsStep(out, parts, i, rm);
      var t := TrimSpace(parts[i]);
      if t == [] || t in rm || t in seen { continue; }
      ElementsOneMore(out, t);
      seen := seen + {t};
      out := out + [t];
    }
    ghost var kept := out;
    assert add[0..] == add;
    for i := 0 to |add|
      invariant seen == Elements(out)
      invariant AddTags(out, add[i..], rm) == AddTags(kept, add, rm)
    {
      AddTagsStep(out, add, i, rm);
      var t := TrimSpace(add[i]);
      if t == [] || t in rm || t in seen { continue; }
      ElementsOneMore(out, t);
      seen := seen + {t};
      out := out + [t];
    }
    if |out| > MAX_TAGS { return Err(TooManyTags); }
    return Ok(Join(out, COMMA));
  }

  /** The tags of a comma-separated list, before the limits. */
  function Normal(csv: Str): seq<Str> { AddTags([], Split(csv, COMMA), {}) }

  predicate SomeTooLong(pieces: seq<Str>)
  {
    exists i :: 0 <= i < |pieces| && |TrimSpace(pieces[i])| > MAX_TAG_LEN
  }

  /** What NormalizeTags returns. */
  function NormalizedTags(csv: Str): Result<Str, TagError>
  {
    if csv == [] then Ok([])
    else if SomeTooLong(Split(csv, COMMA)) then Err(TagTooLong)
    else Render(Normal(csv))
  }

  method NormalizeTags(csv: Str) returns (r: Result<Str, TagError>)
    ensures r == NormalizedTags(csv)
  {
    if csv == [] { return Ok([]); }
    var out, seen := [], {};
    var parts := Split(csv, COMMA);
    assert parts[0..] == parts;
    for i := 0 to |parts|
      invariant seen == Elements(out)
      invariant AddTags(out, parts[i..], {}) == Normal(csv)
      invariant forall j :: 0 <= j < i ==> |TrimSpace(parts[j])| <= MAX_TAG_LEN
    {
      AddTagsStep(out, parts, i, {});
      var t := TrimSpace(parts[i]);
      if t == [] { continue; }
      if |t| > MAX_TAG_LEN { return Err(TagTooLong); }
      if t in seen { continue; }
      ElementsOneMore(out, t);
      seen := seen + {t};
      out := out + [t];
    }
    if |out| > MAX_TAGS { return Err(TooManyTags); }
    return Ok(Join(out, COMMA));
  }

  /** Trimmed, not empty, not removed, no two alike. */
  predicate Clean(out: seq<Str>, rm: set<Str>)
  {
    (forall i :: 0 <= i < |out| ==> Trimmed(out[i]) && out[i] != [] && out[i] !in rm) &&
    forall i, j :: 0 <= i < j < |out| ==> out[i] != out[j]
  }

  /** A piece that makes `x` a tag. */
  predicate Offers(pieces: seq<Str>, x: Str)
  {
    exists i :: 0 <= i < |pieces| && TrimSpace(pieces[i]) == x
  }

  lemma {:induction false} OffersStep(pieces: seq<Str>, x: Str)
    requires pieces != []
    ensures Offers(pieces, x) <==> TrimSpace(pieces[0]) == x || Offers(pieces[1..], x)
  {
    if i :| 0 <= i < |pieces[1..]| && TrimSpace(pieces[1..][i]) == x { assert TrimSpace(pieces[i + 1]) == x; }
    if i :| 0 < i < |pieces| && TrimSpace(pieces[i]) == x { assert TrimSpace(pieces[1..][i - 1]) == x; }
  }

  /** What is added, exactly, and that it goes behind what was there. */
  lemma {:induction false} AddTagsExact(out: seq<Str>, pieces: seq<Str>, rm: set<Str>, x: Str)
    requires Clean(out, rm)
    ensures var r := AddTags(out, pieces, rm);
      Clean(r, rm) && out <= r && (x in r <==> x in out || (x != [] && x !in rm && Offers(pieces, x)))
    decreases |pieces|
  {
    if pieces != [] {
      TrimSpaceTrims(pieces[0]);
      OffersStep(pieces, x);
      AddTagsExact(AddTag(out, TrimSpace(pieces[0]), rm), pieces[1..], rm, x);
    }
  }

  /** MergeTags keeps, without repeats, exactly the tags of the old list and the added ones that are not removed. */
  lemma {:induction false} MergedExact(base: Str, add: seq<Str>, rm: set<Str>, x: Str)
    ensures var r := Merged(base, add, rm);
      Clean(r, rm) && (x in r <==> x != [] && x !in rm && (Offers(Split(base, COMMA), x) || Offers(add, x)))
  {
    AddTagsExact([], Split(base, COMMA), rm, x);
    AddTagsExact(AddTags([], Split(base, COMMA), rm), add, rm, x);
  }

  lemma {:induction false} AddTagsConcat(out: seq<Str>, p: seq<Str>, q: seq<Str>, rm: set<Str>)
    ensures AddTags(out, p + q, rm) == AddTags(AddTags(out, p, rm), q, rm)
    decreases |p|
  {
    if p == [] {
      assert p + q == q;
    } else {
      assert (p + q)[1..] == p[1..] + q;
      AddTagsConcat(AddTag(out, TrimSpace(p[0]), rm), p[1..], q, rm);
    }
  }

  predicate InFront(tags: seq<Str>, x: Str, y: Str)
  {
    exists i, j :: 0 <= i < j < |tags| && tags[i] == x && tags[j] == y
  }

  lemma {:induction false} FirstSeenPieces(pieces: seq<Str>, n: nat, rm: set<Str>, x: Str, y: Str)
    requires n <= |pieces|
    requires x != [] && x !in rm && Offers(pieces[..n], x)
    requires y in AddTags([], pieces, rm) && !Offers(pieces[..n], y)
    ensures InFront(AddTags([], pieces, rm), x, y)
  {
    var p, q := pieces[..n], pieces[n..];
    assert p + q == pieces;
    AddTagsConcat([], p, q, rm);
    AddTagsExact([], p, rm, x);
    var front, all := AddTags([], p, rm), AddTags([], pieces, rm);
    AddTagsExact(front, q, rm, y);
    var i :| 0 <= i < |front| && front[i] == x;
    var j :| 0 <= j < |all| && all[j] == y;
    assert all[i] == x;
    if j < |front| { assert front[j] == y; }
    AddTagsExact([], p, rm, y);
  }

  /** First seen, first listed: the tags of the old list come before the added ones, and of two kept tags the one that an
      earlier piece of the old list or an earlier addition offers stands in front. */
  lemma {:induction false} FirstSeenOrder(base: Str, add: seq<Str>, n: nat, rm: set<Str>, x: Str, y: Str)
    requires n <= |Split(base, COMMA) + add|
    requires x != [] && x !in rm && Offers((Split(base, COMMA) + add)[..n], x)
    requires y in Merged(base, add, rm) && !Offers((Split(base, COMMA) + add)[..n], y)
    ensures InFront(Merged(base, add, rm), x, y)
  {
    AddTagsConcat([], Split(base, COMMA), add, rm);
    FirstSeenPieces(Split(base, COMMA) + add, n, rm, x, y);
  }

  /** A clean list is what its own pieces add up to. */
  lemma {:induction false} AddCleanList(done: seq<Str>, rest: seq<Str>, rm: set<Str>)
    requires Clean(done + rest, rm)
    ensures AddTags(done, rest, rm) == done + rest
    decreases |rest|
  {
    if rest == [] {
      assert done + rest == done;
    } else {
      var t := rest[0];
      assert (done + rest)[|done|] == t;
      TrimOfTrimmed(t);
      forall i | 0 <= i < |done| ensures done[i] != t { assert (done + rest)[i] == done[i]; }
      assert (done + [t]) + rest[1..] == done + rest;
      AddCleanList(done + [t], rest[1..], rm);
    }
  }

  /** Pieces that offer nothing new add nothing. */
  lemma {:induction false} AddNothing(out: seq<Str>, pieces: seq<Str>, rm: set<Str>)
    requires forall i :: 0 <= i < |pieces| ==>
      var t := TrimSpace(pieces[i]); t == [] || t in rm || t in out
    ensures AddTags(out, pieces, rm) == out
    decreases |pieces|
  {
    if pieces != [] {
      forall i | 0 <= i < |pieces[1..]|
        ensures var t := TrimSpace(pieces[1..][i]); t == [] || t in rm || t in out
      {
        assert pieces[1..][i] == pieces[i + 1];
      }
      AddNothing(out, pieces[1..], rm);
    }
  }

  predicate CommaFree(tags: seq<Str>) { forall i :: 0 <= i < |tags| ==> COMMA !in tags[i] }

  /** A clean comma-free list survives being written out and read back. */
  lemma {:induction false} ReparseClean(tags: seq<Str>, rm: set<Str>)
    requires Clean(tags, rm) && CommaFree(tags)
    ensures AddTags([], Split(Join(tags, COMMA), COMMA), rm) == tags
  {
    if tags == [] {
      assert Split([], COMMA) == [[]];
      AddNothing([], [[]], rm);
    } else {
      SplitJoin(tags, COMMA);
      assert [] + tags == tags;
      AddCleanList([], tags, rm);
    }
  }

  /** Every tag is trimmed of a piece, so it has a comma only if that piece was added with one. */
  lemma {:induction false} MergedCommaFreeIff(base: Str, add: seq<Str>, rm: set<Str>)
    ensures CommaFree(Merged(base, add, rm)) <==>
      forall i :: 0 <= i < |add| ==> var t := TrimSpace(add[i]); COMMA in t ==> t in rm
  {
    var r := Merged(base, add, rm);
    forall i | 0 <= i < |add| && CommaFree(r) ensures var t := TrimSpace(add[i]); COMMA in t ==> t in rm {
      var t := TrimSpace(add[i]);
      MergedExact(base, add, rm, t);
      if COMMA in t && t !in rm { assert Offers(add, t); }
    }
    forall k | 0 <= k < |r| && forall i :: 0 <= i < |add| ==> var t := TrimSpace(add[i]); COMMA in t ==> t in rm
      ensures COMMA !in r[k]
    {
      MergedExact(base, add, rm, r[k]);
      assert r[k] in r;
      if Offers(Split(base, COMMA), r[k]) {
        var i :| 0 <= i < |Split(base, COMMA)| && TrimSpace(Split(base, COMMA)[i]) == r[k];
        SplitFree(base, COMMA);
        assert Split(base, COMMA)[i] in Split(base, COMMA);
        TrimSpaceTrims(Split(base, COMMA)[i]);
      } else {
        var i :| 0 <= i < |add| && TrimSpace(add[i]) == r[k];
      }
    }
  }

  /** The stored list reads back as the tags it was written from exactly when none of them has a comma. */
  lemma {:induction false} ReparseIff(base: Str, add: seq<Str>, rm: set<Str>)
    ensures var r := Merged(base, add, rm);
      AddTags([], Split(Join(r, COMMA), COMMA), rm) == r <==> CommaFree(r)
  {
    var r := Merged(base, add, rm);
    MergedExact(base, add, rm, []);
    if CommaFree(r) { ReparseClean(r, rm); }
    MergedCommaFreeIff(Join(r, COMMA), [], rm);
  }

  /** When no kept addition has a comma, merging the same additions and removals again changes nothing. */
  lemma {:induction false} MergeAgain(base: Str, add: seq<Str>, remove: seq<Str>)
    requires MergedTags(base, add, remove).Ok? && CommaFree(Merged(base, add, Elements(remove)))
    ensures MergedTags(MergedTags(base, add, remove).value, add, remove) == MergedTags(base, add, remove)
  {
    var rm := Elements(remove);
    var r := Merged(base, add, rm);
    MergedExact(base, add, rm, []);
    ReparseClean(r, rm);
    forall i | 0 <= i < |add| ensures var t := TrimSpace(add[i]); t == [] || t in rm || t in r {
      MergedExact(base, add, rm, TrimSpace(add[i]));
      assert Offers(add, TrimSpace(add[i]));
    }
    AddNothing(r, add, rm);
  }

  /** With a comma it may: an added "x,y" is one tag, but reads back as two, and is then added again. */
  lemma {:induction false} MergeAgainWithComma(x: Str, y: Str)
    requires x != [] && y != [] && x != y && Trimmed(x) && Trimmed(y) && COMMA !in x && COMMA !in y
    ensures var t := x + [COMMA] + y;
      MergedTags([], [t], []) == Ok(t) && MergedTags(t, [t], []) == Ok(t + [COMMA] + t)
  {
    var t := x + [COMMA] + y;
    var rm := Elements([]);
    assert rm == {};
    TrimOfTrimmed(x);
    TrimOfTrimmed(y);
    TrimmedAround(x, COMMA, y);
    TrimOfTrimmed(t);
    assert t[|x|] == COMMA;
    MergeIntoNothing(t, rm);
    MergeIntoTwo(x, y, t, rm);
    JoinThree(x, y, t);
  }

  lemma {:induction false} MergeIntoNothing(t: Str, rm: set<Str>)
    requires TrimSpace(t) == t != [] && t !in rm
    ensures Merged([], [t], rm) == [t]
  {
    IndexOfAbsent([], COMMA);
    AddNothing([], [[]], rm);
    AddOne([], t, rm);
  }

  lemma {:induction false} MergeIntoTwo(x: Str, y: Str, t: Str, rm: set<Str>)
    requires TrimSpace(x) == x != [] && x !in rm && TrimSpace(y) == y != [] && y !in rm && x != y
    requires COMMA !in x && COMMA !in y && TrimSpace(t) == t != [] && t !in rm && COMMA in t
    ensures Merged(x + [COMMA] + y, [t], rm) == [x, y, t]
  {
    SplitAppend(x, COMMA, y);
    IndexOfAbsent(y, COMMA);
    assert [x] + [y] == [x, y];
    AddTwo(x, y, rm);
    AddOne([x, y], t, rm);
    assert [x, y] + [t] == [x, y, t];
  }

  lemma {:induction false} JoinThree(x: Str, y: Str, t: Str)
    ensures Join([x, y, t], COMMA) == (x + [COMMA] + y) + [COMMA] + t
  {
    assert [x, y, t] == [x] + ([y] + [t]);
    JoinCons(x, [y] + [t], COMMA);
    JoinCons(y, [t], COMMA);
    assert x + [COMMA] + (y + [COMMA] + t) == (x + [COMMA] + y) + [COMMA] + t;
  }

  lemma {:induction false} AddOne(out: seq<Str>, t: Str, rm: set<Str>)
    requires TrimSpace(t) == t != [] && t !in rm && t !in out
    ensures AddTags(out, [t], rm) == out + [t]
  {
    assert [t][1..] == [];
  }

  lemma {:induction false} AddTwo(t: Str, u: Str, rm: set<Str>)
    requires TrimSpace(t) == t != [] && t !in rm && TrimSpace(u) == u != [] && u !in rm && t != u
    ensures AddTags([], [t, u], rm) == [t, u]
  {
    assert [t, u][1..] == [u] && [] + [t] == [t];
    AddOne([t], u, rm);
  }

  /** NormalizeTags leaves MergeTags' comma-free result alone exactly when every tag is within the length limit. */
  lemma {:induction false} NormalizeMergedIff(base: Str, add: seq<Str>, remove: seq<Str>)
    requires MergedTags(base, add, remove).Ok? && CommaFree(Merged(base, add, Elements(remove)))
    ensures var r := Merged(base, add, Elements(remove));
      NormalizedTags(Join(r, COMMA)) == Ok(Join(r, COMMA)) <==> forall i :: 0 <= i < |r| ==> |r[i]| <= MAX_TAG_LEN
  {
    var rm := Elements(remove);
    var r := Merged(base, add, rm);
    MergedExact(base, add, rm, []);
    assert Clean(r, {});
    ReparseClean(r, {});
    if r != [] {
      SplitJoin(r, COMMA);
      JoinNotEmpty(r);
      forall i | 0 <= i < |r| ensures TrimSpace(r[i]) == r[i] { TrimOfTrimmed(r[i]); }
      if !SomeTooLong(r) {
        forall i | 0 <= i < |r| ensures |r[i]| <= MAX_TAG_LEN { assert |TrimSpace(r[i])| <= MAX_TAG_LEN; }
      }
    }
  }

  lemma {:induction false} JoinNotEmpty(parts: seq<Str>)
    requires parts != [] && parts[0] != []
    ensures Join(parts, COMMA) != []
  {}

  /** What NormalizeTags makes of a list: refused exactly for a piece of more than 64 bytes or more than 20 tags, and
      otherwise the trimmed pieces that are not blank, each once, with commas between. */
  lemma {:induction false} NormalizedTagsIff(csv: Str) returns (tags: seq<Str>)
    ensures NormalizedTags(csv).Err? <==>
      |tags| > 20 || exists i :: 0 <= i < |Split(csv, COMMA)| && |TrimSpace(Split(csv, COMMA)[i])| > 64
    ensures NormalizedTags(csv).Ok? ==> NormalizedTags(csv).value == Join(tags, COMMA)
    ensures forall x :: x in tags <==> x != [] && Offers(Split(csv, COMMA), x)
    ensures Clean(tags, {}) && CommaFree(tags)
  {
    tags := Normal(csv);
    MergedExact(csv, [], {}, []);
    forall x ensures x in tags <==> x != [] && Offers(Split(csv, COMMA), x) { MergedExact(csv, [], {}, x); }
    MergedCommaFreeIff(csv, [], {});
    if csv == [] {
      IndexOfAbsent([], COMMA);
      assert TrimSpace([]) == [];
      AddNothing([], [[]], {});
      assert Split(csv, COMMA) == [[]];
    }
    var pieces := Split(csv, COMMA);
    assert SomeTooLong(pieces) <==> exists i :: 0 <= i < |pieces| && |TrimSpace(pieces[i])| > 64;
  }

  /** What MergeTags makes of a list: refused exactly for more than 20 tags, and otherwise the old tags and the added ones
      that are not blank and not removed, each once, with commas between. */
  lemma {:induction false} MergedTagsIff(base: Str, add: seq<Str>, remove: seq<Str>) returns (tags: seq<Str>)
    ensures MergedTags(base, add, remove).Err? <==> |tags| > 20
    ensures MergedTags(base, add, remove).Ok? ==> MergedTags(base, add, remove).value == Join(tags, COMMA)
    ensures forall x :: x in tags <==>
      x != [] && x !in remove && (Offers(Split(base, COMMA), x) || Offers(add, x))
    ensures Clean(tags, {})
  {
    var rm := Elements(remove);
    tags := Merged(base, add, rm);
    forall x ensures x in tags <==> x != [] && x !in remove && (Offers(Split(base, COMMA), x) || Offers(add, x)) {
      MergedExact(base, add, rm, x);
    }
    MergedExact(base, add, rm, []);
  }
}
