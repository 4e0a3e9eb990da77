/** Merging the same tags twice (internal/metadata/metadata.go: MergeTags on its own result). */
module TagsTwice {
  import opened Basics
  import opened Tags
  import opened Text

  /** The tags without a comma, in their order. */
  function WithoutComma(tags: seq<Str>): seq<Str>
  {
    if tags == [] then [] else (if COMMA in tags[0] then [] else [tags[0]]) + WithoutComma(tags[1..])
  }

  /** The tags with a comma, in their order. */
  function WithComma(tags: seq<Str>): seq<Str>
  {
    if tags == [] then [] else (if COMMA in tags[0] then [tags[0]] else []) + WithComma(tags[1..])
  }

  function Parts(tag: Str): seq<Str> { Split(tag, COMMA) }

  /** What the tags fall into when they are written out and split again. */
  function Pieces(tags: seq<Str>): seq<Str> { ConcatMap(Parts, tags) }

  lemma {:induction false} SplitConcat(a: Str, t: Str)
    ensures Split(a + [COMMA] + t, COMMA) == Split(a, COMMA) + Split(t, COMMA)
    decreases |a|
  {
    var i := IndexOf(a, COMMA);
    if i == |a| {
      SplitAppend(a, COMMA, t);
    } else {
      var x, u := a[..i], a[i + 1..];
      Reassemble(a, i);
      SplitConcat(u, t);
      assert a + [COMMA] + t == x + [COMMA] + (u + [COMMA] + t);
      SplitAppend(x, COMMA, u + [COMMA] + t);
      ConcatAssoc([x], Split(u, COMMA), Split(t, COMMA));
    }
  }

  lemma {:induction false} SplitIsPieces(tags: seq<Str>)
    requires tags != []
    ensures Split(Join(tags, COMMA), COMMA) == Pieces(tags)
  {
    if |tags| > 1 {
      SplitConcat(tags[0], Join(tags[1..], COMMA));
      SplitIsPieces(tags[1..]);
    } else {
      assert Pieces(tags[1..]) == [];
    }
  }

  lemma {:induction false} PiecesAppend(p: seq<Str>, q: seq<Str>)
    ensures Pieces(p + q) == Pieces(p) + Pieces(q)
  {
    if p == [] {
      assert p + q == q;
    } else {
      assert (p + q)[1..] == p[1..] + q;
      PiecesAppend(p[1..], q);
      ConcatAssoc(Parts(p[0]), Pieces(p[1..]), Pieces(q));
    }
  }

  lemma {:induction false} PiecesOfCommaFree(tags: seq<Str>)
    requires CommaFree(tags)
    ensures Pieces(tags) == tags
  {
    if tags != [] {
      IndexOfAbsent(tags[0], COMMA);
      forall i | 0 <= i < |tags| - 1 ensures COMMA !in tags[1..][i] { assert tags[1..][i] == tags[i + 1]; }
      PiecesOfCommaFree(tags[1..]);
    }
  }

  lemma {:induction false} PartsExact(tags: seq<Str>, x: Str)
    ensures CommaFree(WithoutComma(tags)) && (x in WithoutComma(tags) <==> x in tags && COMMA !in x)
    ensures x in WithComma(tags) <==> x in tags && COMMA in x
    ensures |WithoutComma(tags)| + |WithComma(tags)| == |tags|
  {
    if tags != [] {
      PartsExact(tags[1..], x);
      assert x in tags <==> x == tags[0] || x in tags[1..];
    }
  }

  lemma {:induction false} WithoutCommaClean(tags: seq<Str>, rm: set<Str>)
    requires Clean(tags, rm)
    ensures Clean(WithoutComma(tags), rm)
  {
    if tags != [] {
      CleanTail(tags, rm);
      WithoutCommaClean(tags[1..], rm);
      PartsExact(tags[1..], tags[0]);
    }
  }

  lemma {:induction false} CleanTail(tags: seq<Str>, rm: set<Str>)
    requires tags != [] && Clean(tags, rm)
    ensures Clean(tags[1..], rm)
  {}

  lemma {:induction false} PartsAppend(p: seq<Str>, q: seq<Str>)
    ensures WithoutComma(p + q) == WithoutComma(p) + WithoutComma(q) && WithComma(p + q) == WithComma(p) + WithComma(q)
  {
    WithoutCommaAppend(p, q);
    WithCommaAppend(p, q);
  }

  lemma {:induction false} WithoutCommaAppend(p: seq<Str>, q: seq<Str>)
    ensures WithoutComma(p + q) == WithoutComma(p) + WithoutComma(q)
  {
    if p == [] {
      assert p + q == q;
    } else {
      assert (p + q)[0] == p[0] && (p + q)[1..] == p[1..] + q;
      WithoutCommaAppend(p[1..], q);
      ConcatAssoc(if COMMA in p[0] then [] else [p[0]], WithoutComma(p[1..]), WithoutComma(q));
    }
  }

  lemma {:induction false} WithCommaAppend(p: seq<Str>, q: seq<Str>)
    ensures WithComma(p + q) == WithComma(p) + WithComma(q)
  {
    if p == [] {
      assert p + q == q;
    } else {
      assert (p + q)[0] == p[0] && (p + q)[1..] == p[1..] + q;
      WithCommaAppend(p[1..], q);
      ConcatAssoc(if COMMA in p[0] then [p[0]] else [], WithComma(p[1..]), WithComma(q));
    }
  }

  lemma {:induction false} PartsOfUniform(tags: seq<Str>)
    ensures CommaFree(tags) ==> WithoutComma(tags) == tags && WithComma(tags) == []
    ensures (forall i :: 0 <= i < |tags| ==> COMMA in tags[i]) ==> WithoutComma(tags) == [] && WithComma(tags) == tags
  {
    if tags != [] {
      PartsOfUniform(tags[1..]);
      assert forall i :: 0 <= i < |tags| - 1 ==> tags[1..][i] == tags[i + 1];
    }
  }

  // --- what the second merge makes of the first one's list ---

  /** What becomes of the tags with a comma depends on nothing else. */
  lemma {:induction false} WithCommaKept(out: seq<Str>, other: seq<Str>, pieces: seq<Str>, rm: set<Str>)
    requires WithComma(out) == WithComma(other)
    ensures WithComma(AddTags(out, pieces, rm)) == WithComma(AddTags(other, pieces, rm))
    decreases |pieces|
  {
    if pieces != [] {
      var t := TrimSpace(pieces[0]);
      PartsExact(out, t);
      PartsExact(other, t);
      PartsAppend(out, [t]);
      PartsAppend(other, [t]);
      assert WithComma([t]) == if COMMA in t then [t] else [];
      WithCommaKept(AddTag(out, t, rm), AddTag(other, t, rm), pieces[1..], rm);
    }
  }

  /** The tags read back from the list as it was written. */
  function Reread(tags: seq<Str>, rm: set<Str>): seq<Str> { AddTags([], Pieces(tags), rm) }

  lemma {:induction false} RereadJoined(tags: seq<Str>, rm: set<Str>)
    ensures AddTags([], Split(Join(tags, COMMA), COMMA), rm) == Reread(tags, rm)
    ensures CommaFree(Reread(tags, rm)) && Clean(Reread(tags, rm), rm)
  {
    if tags == [] {
      assert Split([], COMMA) == [[]];
      AddNothing([], [[]], rm);
    } else {
      SplitIsPieces(tags);
    }
    MergedCommaFreeIff(Join(tags, COMMA), [], rm);
    MergedExact(Join(tags, COMMA), [], rm, []);
  }

  lemma {:induction false} OffersTrimmed(pieces: seq<Str>, x: Str)
    requires x in pieces && Trimmed(x)
    ensures Offers(pieces, x)
  {
    TrimOfTrimmed(x);
    var i :| 0 <= i < |pieces| && pieces[i] == x;
    assert TrimSpace(pieces[i]) == x;
  }

  lemma {:induction false} WholeIsPiece(tags: seq<Str>, x: Str)
    requires x in tags && COMMA !in x
    ensures x in Pieces(tags)
  {
    if x == tags[0] {
      IndexOfAbsent(x, COMMA);
      assert Parts(x) == [x];
    } else {
      WholeIsPiece(tags[1..], x);
    }
  }

  /** Reading back loses none of the comma-free tags. */
  lemma {:induction false} RereadKeepsPlain(tags: seq<Str>, rm: set<Str>, x: Str)
    requires Clean(tags, rm) && x in WithoutComma(tags)
    ensures x in Reread(tags, rm)
  {
    PartsExact(tags, x);
    WholeIsPiece(tags, x);
    OffersTrimmed(Pieces(tags), x);
    AddTagsExact([], Pieces(tags), rm, x);
  }

  /** The second merge: what reads back, and behind it the tags with a comma once more. */
  lemma {:induction false} SecondMerge(base: Str, add: seq<Str>, rm: set<Str>)
    ensures var r := Merged(base, add, rm);
      Merged(Join(r, COMMA), add, rm) == Reread(r, rm) + WithComma(r)
  {
    var r := Merged(base, add, rm);
    MergedExact(base, add, rm, []);
    RereadJoined(r, rm);
    var d := Reread(r, rm);
    var all := AddTags(d, add, rm);
    AddTagsExact(d, add, rm, []);
    forall i | |d| <= i < |all| ensures COMMA in all[i] { AddedAgain(base, add, rm, i); }
    SameWithComma(base, add, rm);
    WithCommaBehind(d, all);
  }

  lemma {:induction false} WithCommaBehind(d: seq<Str>, all: seq<Str>)
    requires d <= all && CommaFree(d) && forall i :: |d| <= i < |all| ==> COMMA in all[i]
    ensures all == d + WithComma(all)
  {
    var more := all[|d|..];
    assert all == d + more;
    forall i | 0 <= i < |more| ensures COMMA in more[i] { assert more[i] == all[|d| + i]; }
    PartsOfUniform(d);
    PartsOfUniform(more);
    PartsAppend(d, more);
    assert [] + more == more;
  }

  lemma {:induction false} SameWithComma(base: Str, add: seq<Str>, rm: set<Str>)
    ensures var r := Merged(base, add, rm); WithComma(AddTags(Reread(r, rm), add, rm)) == WithComma(r)
  {
    var r := Merged(base, add, rm);
    RereadJoined(r, rm);
    PartsOfUniform(Reread(r, rm));
    var front := AddTags([], Split(base, COMMA), rm);
    MergedCommaFreeIff(base, [], rm);
    PartsOfUniform(front);
    WithCommaKept(Reread(r, rm), front, add, rm);
  }

  /** What the second merge adds to what it reads back has a comma. */
  lemma {:induction false} AddedAgain(base: Str, add: seq<Str>, rm: set<Str>, k: nat)
    requires var d := Reread(Merged(base, add, rm), rm); |d| <= k < |AddTags(d, add, rm)|
    ensures COMMA in AddTags(Reread(Merged(base, add, rm), rm), add, rm)[k]
  {
    var r := Merged(base, add, rm);
    var d := Reread(r, rm);
    RereadJoined(r, rm);
    var all := AddTags(d, add, rm);
    var x := all[k];
    AddTagsExact(d, add, rm, x);
    MergedExact(base, add, rm, x);
    if x !in d && COMMA !in x {
      PartsExact(r, x);
      RereadKeepsPlain(r, rm, x);
    }
  }

  /** Every trimmed piece of these tags is blank, removed, or one of the comma-free ones. */
  predicate PiecesKnown(tags: seq<Str>, plain: seq<Str>, rm: set<Str>)
  {
    forall i :: 0 <= i < |Pieces(tags)| ==> Known(Pieces(tags)[i], plain, rm)
  }

  predicate Known(piece: Str, plain: seq<Str>, rm: set<Str>)
  {
    var t := TrimSpace(piece);
    t == [] || t in rm || t in plain
  }

  lemma {:induction false} KnownIff(out: seq<Str>, pieces: seq<Str>, rm: set<Str>)
    requires Clean(out, rm)
    ensures AddTags(out, pieces, rm) == out <==> forall i :: 0 <= i < |pieces| ==> Known(pieces[i], out, rm)
  {
    if AddTags(out, pieces, rm) == out {
      forall i | 0 <= i < |pieces| ensures Known(pieces[i], out, rm) {
        AddTagsExact(out, pieces, rm, TrimSpace(pieces[i]));
        assert Offers(pieces, TrimSpace(pieces[i]));
      }
    } else if forall i :: 0 <= i < |pieces| ==> Known(pieces[i], out, rm) {
      forall i | 0 <= i < |pieces| ensures var t := TrimSpace(pieces[i]); t == [] || t in rm || t in out {
        assert Known(pieces[i], out, rm);
      }
      AddNothing(out, pieces, rm);
    }
  }

  /** A list with its comma-free tags in front reads back as those and what the pieces of the others add. */
  lemma {:induction false} RereadInFront(front: seq<Str>, behind: seq<Str>, rm: set<Str>)
    requires Clean(front, rm) && CommaFree(front)
    ensures Reread(front + behind, rm) == AddTags(front, Pieces(behind), rm)
  {
    PiecesAppend(front, behind);
    PiecesOfCommaFree(front);
    AddTagsConcat([], front, Pieces(behind), rm);
    assert [] + front == front;
    AddCleanList([], front, rm);
  }

  /** The list of tags is the same after a second merge exactly when the tags with a comma stand at its end and every
      trimmed piece of them is blank, removed or one of the tags in front. */
  lemma {:induction false} SameListIff(base: Str, add: seq<Str>, rm: set<Str>)
    ensures var r := Merged(base, add, rm);
      Merged(Join(r, COMMA), add, rm) == r <==>
      r == WithoutComma(r) + WithComma(r) && PiecesKnown(WithComma(r), WithoutComma(r), rm)
  {
    var r := Merged(base, add, rm);
    SecondMerge(base, add, rm);
    MergedExact(base, add, rm, []);
    RereadJoined(r, rm);
    WithoutCommaClean(r, rm);
    PartsExact(r, []);
    var d, f, k := Reread(r, rm), WithoutComma(r), WithComma(r);
    KnownIff(f, Pieces(k), rm);
    if r == f + k { RereadInFront(f, k, rm); }
    if d + k == r {
      PartsAppend(d, k);
      PartsOfUniform(d);
      WithCommaUniform(r);
      assert d + [] == d;
    }
  }

  lemma {:induction false} WithCommaUniform(tags: seq<Str>)
    ensures WithoutComma(WithComma(tags)) == [] && WithComma(WithComma(tags)) == WithComma(tags)
  {
    forall i | 0 <= i < |WithComma(tags)| ensures COMMA in WithComma(tags)[i] {
      PartsExact(tags, WithComma(tags)[i]);
      assert WithComma(tags)[i] in WithComma(tags);
    }
    PartsOfUniform(WithComma(tags));
  }

  // --- what MergeTags returns ---

  lemma {:induction false} PiecesOfOne(x: Str)
    ensures Pieces([x]) == Parts(x)
  {
    var tags := [x];
    assert tags[1..] == [] && Pieces([]) == [];
    assert Parts(x) + [] == Parts(x);
  }

  lemma {:induction false} PiecesTogether(tags: seq<Str>)
    ensures multiset(Pieces(tags)) == multiset(WithoutComma(tags)) + multiset(Pieces(WithComma(tags)))
  {
    if tags != [] {
      PiecesTogether(tags[1..]);
      if COMMA in tags[0] {
        CommaInFront(tags);
        TogetherComma(Parts(tags[0]), Pieces(tags[1..]), WithoutComma(tags[1..]), Pieces(WithComma(tags[1..])));
      } else {
        PlainInFront(tags);
        TogetherPlain([tags[0]], Pieces(tags[1..]), WithoutComma(tags[1..]), Pieces(WithComma(tags[1..])));
      }
    }
  }

  lemma {:induction false} CommaInFront(tags: seq<Str>)
    requires tags != [] && COMMA in tags[0]
    ensures Pieces(tags) == Parts(tags[0]) + Pieces(tags[1..]) && WithoutComma(tags) == WithoutComma(tags[1..])
    ensures Pieces(WithComma(tags)) == Parts(tags[0]) + Pieces(WithComma(tags[1..]))
  {
    PiecesAppend([tags[0]], WithComma(tags[1..]));
    PiecesOfOne(tags[0]);
    assert [] + WithoutComma(tags[1..]) == WithoutComma(tags[1..]);
  }

  lemma {:induction false} PlainInFront(tags: seq<Str>)
    requires tags != [] && COMMA !in tags[0]
    ensures Pieces(tags) == [tags[0]] + Pieces(tags[1..]) && WithoutComma(tags) == [tags[0]] + WithoutComma(tags[1..])
    ensures WithComma(tags) == WithComma(tags[1..])
  {
    IndexOfAbsent(tags[0], COMMA);
    assert [] + WithComma(tags[1..]) == WithComma(tags[1..]);
  }

  lemma {:induction false} TogetherComma(parts: seq<Str>, p: seq<Str>, f: seq<Str>, k: seq<Str>)
    requires multiset(p) == multiset(f) + multiset(k)
    ensures multiset(parts + p) == multiset(f) + multiset(parts + k)
  {}

  lemma {:induction false} TogetherPlain(x: seq<Str>, p: seq<Str>, f: seq<Str>, k: seq<Str>)
    requires multiset(p) == multiset(f) + multiset(k)
    ensures multiset(x + p) == multiset(x + f) + multiset(k)
  {}

  /** The pieces of the list end in the pieces of its tags with a comma. */
  predicate EndsInCommaPieces(tags: seq<Str>)
  {
    var n := |WithoutComma(tags)|;
    n <= |Pieces(tags)| && Pieces(tags)[n..] == Pieces(WithComma(tags))
  }

  lemma {:induction false} CutMultiset(p: seq<Str>, n: nat, m: multiset<Str>)
    requires n <= |p| && multiset(p) == m + multiset(p[n..])
    ensures multiset(p[..n]) == m
  {
    assert p == p[..n] + p[n..];
    Cancel(multiset(p[..n]), m, multiset(p[n..]));
  }

  lemma {:induction false} Cancel(a: multiset<Str>, b: multiset<Str>, c: multiset<Str>)
    requires a + c == b + c
    ensures a == b
  {
    forall x ensures a[x] == b[x] { assert (a + c)[x] == a[x] + c[x] && (b + c)[x] == b[x] + c[x]; }
  }

  /** So do they begin with the comma-free tags, in some order. */
  lemma {:induction false} FrontPieces(tags: seq<Str>)
    requires EndsInCommaPieces(tags)
    ensures multiset(Pieces(tags)[..|WithoutComma(tags)|]) == multiset(WithoutComma(tags))
  {
    PiecesTogether(tags);
    CutMultiset(Pieces(tags), |WithoutComma(tags)|, multiset(WithoutComma(tags)));
  }

  lemma {:induction false} CleanPermuted(p: seq<Str>, q: seq<Str>, rm: set<Str>)
    requires multiset(p) == multiset(q) && Clean(q, rm)
    ensures Clean(p, rm) && forall x :: x in p <==> x in q
  {
    forall x ensures x in p <==> x in q { assert x in multiset(p) <==> x in multiset(q); }
    forall i | 0 <= i < |p| ensures Trimmed(p[i]) && p[i] != [] && p[i] !in rm { assert p[i] in q; }
    forall i, j | 0 <= i < j < |p| ensures p[i] != p[j] {
      if p[i] == p[j] {
        Twice(p, i, j);
        OnlyOnce(q, rm, p[i]);
      }
    }
  }

  lemma {:induction false} Twice(p: seq<Str>, i: nat, j: nat)
    requires i < j < |p| && p[i] == p[j]
    ensures multiset(p)[p[i]] >= 2
  {
    assert p == p[..j] + [p[j]] + p[j + 1..];
    assert p[..j][i] == p[i];
  }

  lemma {:induction false} OnlyOnce(q: seq<Str>, rm: set<Str>, x: Str)
    requires Clean(q, rm)
    ensures multiset(q)[x] <= 1
  {
    if q != [] {
      CleanTail(q, rm);
      OnlyOnce(q[1..], rm, x);
      assert q == [q[0]] + q[1..];
    }
  }

  lemma {:induction false} ReadFront(front: seq<Str>, behind: seq<Str>, rm: set<Str>)
    requires Clean(front, rm) && forall i :: 0 <= i < |behind| ==> Known(behind[i], front, rm)
    ensures AddTags([], front + behind, rm) == front
  {
    AddTagsConcat([], front, behind, rm);
    assert [] + front == front;
    AddCleanList([], front, rm);
    KnownIff(front, behind, rm);
  }

  /** Then they read back as that front. */
  lemma {:induction false} RereadFront(tags: seq<Str>, rm: set<Str>)
    requires Clean(tags, rm) && EndsInCommaPieces(tags) && PiecesKnown(WithComma(tags), WithoutComma(tags), rm)
    ensures Reread(tags, rm) == Pieces(tags)[..|WithoutComma(tags)|]
  {
    var n := |WithoutComma(tags)|;
    var front, behind := Pieces(tags)[..n], Pieces(WithComma(tags));
    FrontPieces(tags);
    WithoutCommaClean(tags, rm);
    CleanPermuted(front, WithoutComma(tags), rm);
    forall i | 0 <= i < |behind| ensures Known(behind[i], front, rm) { assert Known(behind[i], WithoutComma(tags), rm); }
    RejoinFront(Pieces(tags), n);
    ReadFront(front, behind, rm);
  }

  lemma {:induction false} SameTextSamePieces(p: seq<Str>, q: seq<Str>)
    requires p != [] && q != []
    ensures Join(p, COMMA) == Join(q, COMMA) <==> Pieces(p) == Pieces(q)
  {
    SplitIsPieces(p);
    SplitIsPieces(q);
    JoinSplit(Join(p, COMMA), COMMA);
    JoinSplit(Join(q, COMMA), COMMA);
  }

  /** What reads back, with the tags with a comma behind it, falls into the same pieces exactly under two conditions. */
  lemma {:induction false} SamePiecesIff(tags: seq<Str>, rm: set<Str>)
    requires Clean(tags, rm)
    ensures Pieces(Reread(tags, rm) + WithComma(tags)) == Pieces(tags) <==>
      EndsInCommaPieces(tags) && PiecesKnown(WithComma(tags), WithoutComma(tags), rm)
    ensures Pieces(Reread(tags, rm) + WithComma(tags)) == Pieces(tags) ==> |Reread(tags, rm)| == |WithoutComma(tags)|
  {
    RereadPieces(tags, rm);
    if Reread(tags, rm) + Pieces(WithComma(tags)) == Pieces(tags) { SamePieces(tags, rm); }
    if EndsInCommaPieces(tags) && PiecesKnown(WithComma(tags), WithoutComma(tags), rm) {
      RereadFront(tags, rm);
      RejoinFront(Pieces(tags), |WithoutComma(tags)|);
    }
  }

  lemma {:induction false} RejoinFront(p: seq<Str>, n: nat)
    requires n <= |p|
    ensures p[..n] + p[n..] == p
  {}

  lemma {:induction false} RereadPieces(tags: seq<Str>, rm: set<Str>)
    ensures Pieces(Reread(tags, rm) + WithComma(tags)) == Reread(tags, rm) + Pieces(WithComma(tags))
  {
    RereadJoined(tags, rm);
    PiecesAppend(Reread(tags, rm), WithComma(tags));
    PiecesOfCommaFree(Reread(tags, rm));
  }

  /** Written out, they are the old text exactly under these conditions. */
  lemma {:induction false} SameTextIff(tags: seq<Str>, rm: set<Str>)
    requires Clean(tags, rm)
    ensures Join(Reread(tags, rm) + WithComma(tags), COMMA) == Join(tags, COMMA) <==>
      EndsInCommaPieces(tags) && PiecesKnown(WithComma(tags), WithoutComma(tags), rm)
    ensures Join(Reread(tags, rm) + WithComma(tags), COMMA) == Join(tags, COMMA) ==>
      |Reread(tags, rm)| == |WithoutComma(tags)|
  {
    SamePiecesIff(tags, rm);
    if tags != [] {
      PartsExact(tags, []);
      if WithComma(tags) == [] { RereadKeepsPlain(tags, rm, WithoutComma(tags)[0]); }
      SameTextSamePieces(Reread(tags, rm) + WithComma(tags), tags);
    }
  }

  lemma {:induction false} SamePieces(tags: seq<Str>, rm: set<Str>)
    requires Clean(tags, rm) && Reread(tags, rm) + Pieces(WithComma(tags)) == Pieces(tags)
    ensures EndsInCommaPieces(tags) && PiecesKnown(WithComma(tags), WithoutComma(tags), rm)
    ensures |Reread(tags, rm)| == |WithoutComma(tags)|
  {
    var d, behind := Reread(tags, rm), Pieces(WithComma(tags));
    PiecesTogether(tags);
    SameFront(d, behind, WithoutComma(tags), Pieces(tags));
    KnownBehind(tags, rm, |d|);
  }

  lemma {:induction false} KnownBehind(tags: seq<Str>, rm: set<Str>, n: nat)
    requires n <= |Pieces(tags)| && Pieces(tags)[n..] == Pieces(WithComma(tags))
    requires forall x :: x in Reread(tags, rm) ==> x in WithoutComma(tags)
    ensures PiecesKnown(WithComma(tags), WithoutComma(tags), rm)
  {
    var behind := Pieces(WithComma(tags));
    forall i | 0 <= i < |behind| ensures Known(behind[i], WithoutComma(tags), rm) {
      KnownIfReread(tags, rm, n + i, behind[i]);
    }
  }

  lemma {:induction false} SameFront(d: seq<Str>, behind: seq<Str>, f: seq<Str>, p: seq<Str>)
    requires p == d + behind && multiset(p) == multiset(f) + multiset(behind)
    ensures |d| == |f| && p[|d|..] == behind && forall x :: x in d ==> x in f
  {
    Cancel(multiset(d), multiset(f), multiset(behind));
    assert |multiset(d)| == |multiset(f)|;
    forall x | x in d ensures x in f { assert x in multiset(d); }
  }

  lemma {:induction false} KnownIfReread(tags: seq<Str>, rm: set<Str>, i: nat, piece: Str)
    requires i < |Pieces(tags)| && Pieces(tags)[i] == piece
    requires forall x :: x in Reread(tags, rm) ==> x in WithoutComma(tags)
    ensures Known(piece, WithoutComma(tags), rm)
  {
    assert Offers(Pieces(tags), TrimSpace(piece));
    AddTagsExact([], Pieces(tags), rm, TrimSpace(piece));
  }

  /** MergeTags on its own result returns it again exactly when the pieces it is written as end in those of its tags
      with a comma, and every one of these, trimmed, is blank, removed or one of the comma-free tags. */
  lemma {:induction false} MergeTwiceIff(base: Str, add: seq<Str>, remove: seq<Str>)
    requires MergedTags(base, add, remove).Ok?
    ensures var r := Merged(base, add, Elements(remove));
      MergedTags(MergedTags(base, add, remove).value, add, remove) == MergedTags(base, add, remove) <==>
      EndsInCommaPieces(r) && PiecesKnown(WithComma(r), WithoutComma(r), Elements(remove))
  {
    var rm := Elements(remove);
    var r := Merged(base, add, rm);
    MergedExact(base, add, rm, []);
    SecondMerge(base, add, rm);
    SameTextIff(r, rm);
    PartsExact(r, []);
  }
}
