/** Which paths a scope reaches (internal/scope/scope.go). */
module Scope {
  import opened Basics
  import opened PathAgreement
  import opened PathChars
  import opened PathGlob
  import opened PathRunes
  import opened PathScan
  import opened Utf8
  import PathMatcher

  function TrimLeft(s: Str): Str { if s != [] && s[0] == SLASH then TrimLeft(s[1..]) else s }

  function TrimRight(s: Str): Str { if s != [] && s[|s| - 1] == SLASH then TrimRight(s[..|s| - 1]) else s }

  /** strings.Trim(s, "/"). */
  function Trim(s: Str): Str { TrimRight(TrimLeft(s)) }

  /** Segment by segment, with path.Match. */
  predicate SegmentsScan(pats: seq<Str>, segs: seq<Str>)
  {
    |pats| == |segs| && forall i :: 0 <= i < |pats| ==> PathMatch(pats[i], segs[i])
  }

  /** Match: trim slashes, split, compare segment by segment. */
  predicate Match(pattern: Str, p: Str)
  {
    SegmentsScan(Split(Trim(pattern), SLASH), Split(Trim(p), SLASH))
  }

  predicate AnyMatch(patterns: seq<Str>, p: Str)
  {
    exists i :: 0 <= i < |patterns| && Match(patterns[i], p)
  }

  /** Segment by segment, as Match compares. */
  predicate SegmentsMatch(pats: seq<Str>, segs: seq<Str>)
  {
    |pats| == |segs| && forall i :: 0 <= i < |pats| ==> GlobMatch(pats[i], segs[i])
  }

  lemma {:induction false} SegmentsStep(x: Str, pats: seq<Str>, y: Str, segs: seq<Str>)
    ensures SegmentsMatch([x] + pats, [y] + segs) <==> GlobMatch(x, y) && SegmentsMatch(pats, segs)
  {
    var ps, ss := [x] + pats, [y] + segs;
    if SegmentsMatch(ps, ss) {
      assert GlobMatch(ps[0], ss[0]);
      forall i | 0 <= i < |pats| ensures GlobMatch(pats[i], segs[i]) { assert GlobMatch(ps[i + 1], ss[i + 1]); }
    } else if GlobMatch(x, y) && SegmentsMatch(pats, segs) {
      forall i | 0 <= i < |ps| ensures GlobMatch(ps[i], ss[i]) {
        if i > 0 { assert GlobMatch(pats[i - 1], segs[i - 1]); }
      }
    }
  }

  lemma {:induction false} SegmentsOne(x: Str, y: Str)
    ensures SegmentsMatch([x], [y]) <==> GlobMatch(x, y)
  {
    var pats, segs := [x], [y];
    assert SegmentsMatch(pats, segs) <==> GlobMatch(pats[0], segs[0]);
  }

  /** Up to the first slash on both sides, and from there on. */
  lemma {:induction false} GlobMatchStep(x: Str, pattern: Str, y: Str, p: Str)
    requires SLASH !in x && SLASH !in y
    ensures GlobMatch(x + Suffix(pattern), y + Suffix(p)) <==> GlobMatch(x, y) && GlobMatch(pattern, p)
  {
    ParseBeforeSlash(x, pattern);
    if Parse(x).Some? && Parse(pattern).Some? { GlobBeforeSlash(Parse(x).value, Parse(pattern).value, y, p); }
  }

  lemma {:induction false} SlashInPatternOnly(x: Str, pattern: Str, p: Str)
    requires SLASH !in x && SLASH !in p
    ensures !GlobMatch(x + Suffix(pattern), p)
  {
    ParseBeforeSlash(x, pattern);
    if GlobMatch(x + Suffix(pattern), p) {
      assert (Parse(x).value + [Lit(SLASH)] + Parse(pattern).value)[|Parse(x).value|] == Lit(SLASH);
      GlobNeedsSlash(Parse(x + Suffix(pattern)).value, p);
    }
  }

  lemma {:induction false} SlashInPathOnly(pattern: Str, p: Str)
    requires SLASH !in pattern && SLASH in p
    ensures !GlobMatch(pattern, p)
  {
    ParseNoSlash(pattern);
    if GlobMatch(pattern, p) { GlobNoSlash(Parse(pattern).value, p); }
  }

  /** A string at its first slash. */
  lemma {:induction false} CutAtSlash(s: Str) returns (x: Str, t: Str)
    requires SLASH in s
    ensures s == x + Suffix(t) && SLASH !in x && |t| < |s|
    ensures Split(s, SLASH) == [x] + Split(t, SLASH)
  {
    IndexOfPresent(s, SLASH);
    var i := IndexOf(s, SLASH);
    x, t := s[..i], s[i + 1..];
    Reassemble(s, i);
    SplitAppend(x, SLASH, t);
    AppendSuffix(x, t);
  }

  lemma {:induction false} AppendSuffix(x: Str, t: Str)
    ensures x + [SLASH] + t == x + Suffix(t)
  {}

  lemma {:induction false} SplitNoSlash(s: Str)
    requires SLASH !in s
    ensures Split(s, SLASH) == [s]
  {
    IndexOfAbsent(s, SLASH);
  }

  /** Comparing segment by segment is matching the whole pattern against the whole path. */
  lemma {:induction false} SegmentsAreWhole(pattern: Str, p: Str)
    ensures SegmentsMatch(Split(pattern, SLASH), Split(p, SLASH)) <==> GlobMatch(pattern, p)
    decreases |pattern|
  {
    if SLASH in pattern && SLASH in p {
      var x, pattern' := CutAtSlash(pattern);
      var y, p' := CutAtSlash(p);
      SegmentsAreWhole(pattern', p');
      SegmentsStep(x, Split(pattern', SLASH), y, Split(p', SLASH));
      GlobMatchStep(x, pattern', y, p');
    } else if SLASH in pattern {
      var x, pattern' := CutAtSlash(pattern);
      SplitNoSlash(p);
      SlashInPatternOnly(x, pattern', p);
    } else if SLASH in p {
      var y, p' := CutAtSlash(p);
      SplitNoSlash(pattern);
      SlashInPathOnly(pattern, p);
    } else {
      SplitNoSlash(pattern);
      SplitNoSlash(p);
      SegmentsOne(pattern, p);
    }
  }

  /** One glob over the whole path, slashes trimmed off both ends, in which every wildcard stays within a segment. */
  predicate WholeMatch(pattern: Str, p: Str) { GlobMatch(Trim(pattern), Trim(p)) }

  /** What Match accepts, the whole pattern stands for. */
  lemma {:induction false} MatchWithinWhole(pattern: Str, p: Str)
    requires Match(pattern, p)
    ensures WholeMatch(pattern, p)
  {
    var pats, segs := Split(Trim(pattern), SLASH), Split(Trim(p), SLASH);
    SplitFree(Trim(p), SLASH);
    forall i | 0 <= i < |pats| ensures GlobMatch(pats[i], segs[i]) {
      assert segs[i] in segs;
      PathMatchWithinGlob(pats[i], segs[i]);
    }
    SegmentsAreWhole(Trim(pattern), Trim(p));
  }

  /** In every segment there are only literals between two stars. */
  predicate SettledSegments(pattern: Str)
  {
    forall i :: 0 <= i < |Split(Trim(pattern), SLASH)| ==> Settled(Split(Trim(pattern), SLASH)[i])
  }

  /** Comparing segment by segment says exactly whether the whole pattern stands for the whole path, if there are only
      literals between the stars of a segment or the path has no rune of three or four bytes. */
  lemma {:induction false} MatchIsWholeGlob(pattern: Str, p: Str)
    requires SettledSegments(pattern) || Narrow(p)
    ensures Match(pattern, p) <==> WholeMatch(pattern, p)
  {
    if Match(pattern, p) { MatchWithinWhole(pattern, p); }
    if WholeMatch(pattern, p) {
      SegmentsAreWhole(Trim(pattern), Trim(p));
      var pats, segs := Split(Trim(pattern), SLASH), Split(Trim(p), SLASH);
      SplitFree(Trim(p), SLASH);
      if Narrow(p) { NarrowSegments(p); }
      forall i | 0 <= i < |pats| ensures PathMatch(pats[i], segs[i]) {
        assert segs[i] in segs && GlobMatch(pats[i], segs[i]);
        PathMatchIsGlob(pats[i], segs[i]);
      }
    }
  }

  /** A pattern without question marks and brackets. */
  lemma {:induction false} StarsOnlySettled(pattern: Str)
    requires QUESTION !in pattern && LBRACKET !in pattern
    ensures SettledSegments(pattern)
  {
    TrimKeeps(pattern);
    SplitKeeps(Trim(pattern));
    var pats := Split(Trim(pattern), SLASH);
    forall i | 0 <= i < |pats| ensures Settled(pats[i]) {
      assert pats[i] in pats;
      StarsOnly(pats[i]);
    }
  }

  lemma {:induction false} TrimKeeps(s: Str)
    ensures forall b :: b in Trim(s) ==> b in s
  {
    TrimLeftKeeps(s);
    TrimRightKeeps(TrimLeft(s));
  }

  lemma {:induction false} TrimLeftKeeps(s: Str)
    ensures |TrimLeft(s)| <= |s| && TrimLeft(s) == s[|s| - |TrimLeft(s)|..]
  {
    if s != [] && s[0] == SLASH { TrimLeftKeeps(s[1..]); }
  }

  lemma {:induction false} TrimRightKeeps(s: Str)
    ensures TrimRight(s) <= s
  {
    if s != [] && s[|s| - 1] == SLASH { TrimRightKeeps(s[..|s| - 1]); }
  }

  lemma {:induction false} SplitKeeps(s: Str)
    ensures forall q, b :: q in Split(s, SLASH) && b in q ==> b in s
    decreases |s|
  {
    if SLASH in s {
      var x, t := CutAtSlash(s);
      SplitKeeps(t);
    } else {
      SplitNoSlash(s);
    }
  }

  lemma {:induction false} WiderInWhole(u: Str, v: Str)
    requires u != [] && u <= v
    ensures DecodeRune(u).1 <= DecodeRune(v).1
  {
    if DecodeRune(u).1 > 1 { DecodePrefix(u, v); }
  }

  /** A prefix of a narrow text is narrow. */
  lemma {:induction false} NarrowPrefix(s: Str, t: Str)
    requires t <= s && Narrow(s)
    ensures Narrow(t)
  {
    forall i | 0 <= i < |t| ensures NarrowAt(t, i) {
      assert NarrowAt(s, i) && t[i..] <= s[i..];
      WiderInWhole(t[i..], s[i..]);
    }
  }

  lemma {:induction false} NarrowSegments(p: Str)
    requires Narrow(p)
    ensures forall i :: 0 <= i < |Split(Trim(p), SLASH)| ==> Narrow(Split(Trim(p), SLASH)[i])
  {
    TrimLeftKeeps(p);
    TrimRightKeeps(TrimLeft(p));
    NarrowSuffix(p, |p| - |TrimLeft(p)|);
    NarrowPrefix(TrimLeft(p), Trim(p));
    NarrowParts(Trim(p));
  }

  lemma {:induction false} NarrowParts(s: Str)
    requires Narrow(s)
    ensures forall i :: 0 <= i < |Split(s, SLASH)| ==> Narrow(Split(s, SLASH)[i])
    decreases |s|
  {
    if SLASH in s {
      var x, t := CutAtSlash(s);
      NarrowCut(x, t);
      NarrowParts(t);
    } else {
      SplitNoSlash(s);
    }
  }

  lemma {:induction false} NarrowCut(x: Str, t: Str)
    requires Narrow(x + Suffix(t))
    ensures Narrow(x) && Narrow(t)
  {
    var s := x + Suffix(t);
    NarrowPrefix(s, x);
    NarrowSuffix(s, |x| + 1);
    assert s[|x| + 1..] == t;
  }

  /** The conditions under which Match is the whole-path glob. */
  predicate Exact(pattern: Str, p: Str) { SettledSegments(pattern) || Narrow(p) }

  /** The loop of scope.Match, with path.Match on each segment; an error counts as "no". */
  method CompareSegments(patParts: seq<Str>, pathParts: seq<Str>) returns (ok: bool)
    requires forall q :: q in patParts || q in pathParts ==> SLASH !in q
    ensures ok <==> SegmentsScan(patParts, pathParts)
  {
    if |patParts| != |pathParts| { return false; }
    for i := 0 to |patParts|
      invariant forall j :: 0 <= j < i ==> PathMatch(patParts[j], pathParts[j])
    {
      assert patParts[i] in patParts && pathParts[i] in pathParts;
      var matched, bad := PathMatcher.MatchPath(patParts[i], pathParts[i]);
      if bad || !matched { return false; }
    }
    return true;
  }

  lemma {:induction false} MatchOutcome(pattern: Str, p: Str)
    ensures Match(pattern, p) ==> WholeMatch(pattern, p)
    ensures Exact(pattern, p) ==> (Match(pattern, p) <==> WholeMatch(pattern, p))
  {
    if Match(pattern, p) { MatchWithinWhole(pattern, p); }
    if Exact(pattern, p) { MatchIsWholeGlob(pattern, p); }
  }

  /** scope.Match: it never accepts more than the whole-path glob, and exactly that under its conditions. */
  method MatchSegments(pattern: Str, p: Str) returns (ok: bool)
    ensures ok <==> Match(pattern, p)
    ensures ok ==> WholeMatch(pattern, p)
    ensures Exact(pattern, p) && WholeMatch(pattern, p) ==> ok
  {
    MatchOutcome(pattern, p);
    SplitFree(Trim(pattern), SLASH);
    SplitFree(Trim(p), SLASH);
    ok := CompareSegments(Split(Trim(pattern), SLASH), Split(Trim(p), SLASH));
  }

  predicate SegmentsDocumented(pats: seq<Str>, segs: seq<Str>)
  {
    |pats| == |segs| && forall i :: 0 <= i < |pats| ==> DocumentedMatch(pats[i], segs[i])
  }

  /** Segment by segment as path.Match is documented. */
  predicate DocumentedSegments(pattern: Str, p: Str)
  {
    SegmentsDocumented(Split(Trim(pattern), SLASH), Split(Trim(p), SLASH))
  }

  /** Match accepts all that the documentation says, and nothing else on a path of one-byte characters. */
  lemma {:induction false} DocumentedWithinMatch(pattern: Str, p: Str)
    ensures DocumentedSegments(pattern, p) ==> Match(pattern, p)
    ensures Match(pattern, p) && SingleSegments(p) ==> DocumentedSegments(pattern, p)
  {
    var pats, segs := Split(Trim(pattern), SLASH), Split(Trim(p), SLASH);
    SplitFree(Trim(p), SLASH);
    forall i | 0 <= i < |pats| && i < |segs|
      ensures DocumentedMatch(pats[i], segs[i]) ==> PathMatch(pats[i], segs[i])
      ensures Single(segs[i]) ==> (PathMatch(pats[i], segs[i]) <==> DocumentedMatch(pats[i], segs[i]))
    {
      assert segs[i] in segs;
      if DocumentedMatch(pats[i], segs[i]) { DocumentedWithinPathMatch(pats[i], segs[i]); }
      if Single(segs[i]) { SingleAgrees(pats[i], segs[i]); }
    }
  }

  predicate SomeWhole(patterns: seq<Str>, p: Str)
  {
    exists i :: 0 <= i < |patterns| && WholeMatch(patterns[i], p)
  }

  /** AnyMatch, as whole-path globs: it never grants more, and under the same conditions it grants all of it. */
  lemma {:induction false} AnyMatchIsWholeGlob(patterns: seq<Str>, p: Str)
    ensures AnyMatch(patterns, p) ==> SomeWhole(patterns, p)
    ensures (forall i :: 0 <= i < |patterns| ==> Exact(patterns[i], p)) ==>
      (AnyMatch(patterns, p) <==> SomeWhole(patterns, p))
  {
    if i :| 0 <= i < |patterns| && Match(patterns[i], p) { MatchOutcome(patterns[i], p); }
    if i :| 0 <= i < |patterns| && WholeMatch(patterns[i], p) { MatchOutcome(patterns[i], p); }
  }

  /** scope.AnyMatch. */
  method AnyMatches(patterns: seq<Str>, p: Str) returns (ok: bool)
    ensures ok <==> AnyMatch(patterns, p)
    ensures ok ==> SomeWhole(patterns, p)
    ensures (forall i :: 0 <= i < |patterns| ==> Exact(patterns[i], p)) && SomeWhole(patterns, p) ==> ok
  {
    AnyMatchIsWholeGlob(patterns, p);
    for i := 0 to |patterns|
      invariant forall j :: 0 <= j < i ==> !Match(patterns[j], p)
    {
      var matched := MatchSegments(patterns[i], p);
      if matched { return true; }
    }
    return false;
  }

  // --- exactly the paths on which that is so for every pattern that a key can hold ---

  /** A pattern for one segment, and a star for each of the others. */
  function AmongStars(count: nat, n: nat, pattern: Str): (pats: seq<Str>)
    ensures |pats| == count && forall i :: 0 <= i < count ==> pats[i] == if i == n then pattern else [STAR]
  {
    seq(count, i => if i == n then pattern else [STAR])
  }

  /** Such a pattern tells the paths apart just as its one segment does. */
  function WholePattern(p: Str, n: nat, pattern: Str): Str
  {
    Join(AmongStars(|Split(Trim(p), SLASH)|, n, pattern), SLASH)
  }

  lemma {:induction false} StarStandsForAll(s: Str)
    requires SLASH !in s
    ensures PathMatch([STAR], s) && GlobMatch([STAR], s) && DocumentedMatch([STAR], s)
  {
    ParseStar([]);
    assert [STAR] + [] == [STAR] && [Star] + [] == [Star] && [Star][1..] == [];
    EndIsBoundary(s);
    assert Documented([], s, |s|);
    DocumentedWithinPathMatch([STAR], s);
    PathMatchWithinGlob([STAR], s);
  }

  lemma {:induction false} JoinReceivable(pats: seq<Str>)
    requires pats != [] && forall i :: 0 <= i < |pats| ==> Receivable(pats[i])
    ensures Receivable(Join(pats, SLASH))
  {
    if |pats| > 1 {
      var rest := pats[1..];
      assert forall i :: 0 <= i < |rest| ==> rest[i] == pats[i + 1];
      JoinReceivable(rest);
      AsciiValid([SLASH]);
      ValidConcat(pats[0], [SLASH]);
      ValidConcat(pats[0] + [SLASH], Join(rest, SLASH));
    }
  }

  /** Joined segments begin and end as the first and the last of them. */
  lemma {:induction false} JoinEnds(pats: seq<Str>)
    requires pats != [] && forall i :: 0 <= i < |pats| ==> pats[i] != []
    ensures var s := Join(pats, SLASH);
      s != [] && s[0] == pats[0][0] && s[|s| - 1] == pats[|pats| - 1][|pats[|pats| - 1]| - 1]
  {
    if |pats| > 1 {
      var rest := pats[1..];
      assert forall i :: 0 <= i < |rest| ==> rest[i] == pats[i + 1];
      JoinEnds(rest);
      EndsOfConcat(pats[0], Join(rest, SLASH));
    }
  }

  lemma {:induction false} EndsOfConcat(x: Str, t: Str)
    requires x != [] && t != []
    ensures var s := x + [SLASH] + t; s[0] == x[0] && s[|s| - 1] == t[|t| - 1]
  {}

  lemma {:induction false} JoinedSegments(pats: seq<Str>)
    requires pats != [] && forall i :: 0 <= i < |pats| ==> pats[i] != [] && SLASH !in pats[i]
    ensures Trim(Join(pats, SLASH)) == Join(pats, SLASH) && Split(Join(pats, SLASH), SLASH) == pats
  {
    JoinEnds(pats);
    SplitJoin(pats, SLASH);
  }

  lemma {:induction false} WholePatternParts(p: Str, n: nat, pattern: Str)
    requires n < |Split(Trim(p), SLASH)| && Receivable(pattern) && SLASH !in pattern
    ensures Receivable(WholePattern(p, n, pattern))
    ensures var pats := AmongStars(|Split(Trim(p), SLASH)|, n, pattern);
      Trim(WholePattern(p, n, pattern)) == WholePattern(p, n, pattern) && Split(WholePattern(p, n, pattern), SLASH) == pats
  {
    var pats := AmongStars(|Split(Trim(p), SLASH)|, n, pattern);
    AsciiValid([STAR]);
    JoinReceivable(pats);
    JoinedSegments(pats);
  }

  lemma {:induction false} WholePatternOutcome(p: Str, n: nat, pattern: Str)
    requires n < |Split(Trim(p), SLASH)| && Receivable(pattern) && SLASH !in pattern
    ensures var segs, whole := Split(Trim(p), SLASH), WholePattern(p, n, pattern);
      Receivable(whole) &&
      (Match(whole, p) <==> PathMatch(pattern, segs[n])) &&
      (WholeMatch(whole, p) <==> GlobMatch(pattern, segs[n])) &&
      (DocumentedSegments(whole, p) <==> DocumentedMatch(pattern, segs[n]))
  {
    var segs := Split(Trim(p), SLASH);
    var pats := AmongStars(|segs|, n, pattern);
    WholePatternParts(p, n, pattern);
    SegmentsAreWhole(WholePattern(p, n, pattern), Trim(p));
    SplitFree(Trim(p), SLASH);
    forall i | 0 <= i < |segs| && i != n
      ensures PathMatch(pats[i], segs[i]) && GlobMatch(pats[i], segs[i]) && DocumentedMatch(pats[i], segs[i])
    {
      assert segs[i] in segs;
      StarStandsForAll(segs[i]);
    }
    assert pats[n] == pattern;
  }

  lemma {:induction false} NarrowJoined(s: Str)
    requires forall i :: 0 <= i < |Split(s, SLASH)| ==> Narrow(Split(s, SLASH)[i])
    ensures Narrow(s)
    decreases |s|
  {
    if SLASH in s {
      var x, t := CutAtSlash(s);
      var segs := Split(s, SLASH);
      assert segs[0] == x && segs[1..] == Split(t, SLASH);
      assert forall i :: 0 <= i < |segs| - 1 ==> segs[1..][i] == segs[i + 1];
      NarrowJoined(t);
      NarrowGlued(x, t);
    } else {
      SplitNoSlash(s);
      assert Split(s, SLASH)[0] == s;
    }
  }

  lemma {:induction false} NarrowGlued(x: Str, t: Str)
    requires Narrow(x) && Narrow(t)
    ensures Narrow(x + Suffix(t))
  {
    var s := x + Suffix(t);
    forall i | 0 <= i < |s| ensures NarrowAt(s, i) {
      if i < |x| {
        assert NarrowAt(x, i) && s[i..] == x[i..] + [SLASH] + t;
        DecodeBeforeAscii(x[i..], SLASH, t);
      } else if i > |x| {
        assert NarrowAt(t, i - |x| - 1) && s[i..] == t[i - |x| - 1..];
      }
    }
  }

  lemma {:induction false} NarrowIfTrimmedNarrow(s: Str)
    requires Narrow(Trim(s))
    ensures Narrow(s)
  {
    NarrowIfRightNarrow(TrimLeft(s));
    NarrowIfLeftNarrow(s);
  }

  lemma {:induction false} NarrowIfLeftNarrow(s: Str)
    requires Narrow(TrimLeft(s))
    ensures Narrow(s)
  {
    if s != [] && s[0] == SLASH {
      NarrowIfLeftNarrow(s[1..]);
      forall i | 0 <= i < |s| ensures NarrowAt(s, i) {
        if i > 0 {
          assert NarrowAt(s[1..], i - 1);
          assert s[1..][i - 1..] == s[i..];
        }
      }
    }
  }

  lemma {:induction false} NarrowIfRightNarrow(s: Str)
    requires Narrow(TrimRight(s))
    ensures Narrow(s)
  {
    if s != [] && s[|s| - 1] == SLASH {
      var t := s[..|s| - 1];
      NarrowIfRightNarrow(t);
      forall i | 0 <= i < |s| ensures NarrowAt(s, i) {
        if i < |t| {
          assert NarrowAt(t, i);
          assert s[i..] == t[i..] + [SLASH] + [];
          DecodeBeforeAscii(t[i..], SLASH, []);
        }
      }
    }
  }

  /** On which paths Match is the whole-path glob for every pattern that a key can hold: on those without a rune of three or
      four bytes. */
  lemma {:induction false} MatchAgreesIff(p: Str)
    ensures (forall pattern :: Receivable(pattern) ==> (Match(pattern, p) <==> WholeMatch(pattern, p))) <==> Narrow(p)
  {
    if Narrow(p) {
      forall pattern ensures Match(pattern, p) <==> WholeMatch(pattern, p) { MatchIsWholeGlob(pattern, p); }
    } else {
      var segs := Split(Trim(p), SLASH);
      if forall i :: 0 <= i < |segs| ==> Narrow(segs[i]) {
        NarrowJoined(Trim(p));
        NarrowIfTrimmedNarrow(p);
        assert false;
      }
      var n :| 0 <= n < |segs| && !Narrow(segs[n]);
      SplitFree(Trim(p), SLASH);
      assert segs[n] in segs;
      var pattern := WideDiffers(segs[n]);
      WholePatternOutcome(p, n, pattern);
    }
  }

  /** Every character of the path is one byte. */
  predicate SingleSegments(p: Str)
  {
    forall i :: 0 <= i < |Split(Trim(p), SLASH)| ==> Single(Split(Trim(p), SLASH)[i])
  }

  /** On which paths Match is, for every pattern that a key can hold, what the documentation of path.Match says segment by
      segment: on those of one-byte characters. On any other some key reaches more. */
  lemma {:induction false} MatchDocumentedIff(p: Str)
    ensures (forall pattern :: Receivable(pattern) ==> (Match(pattern, p) <==> DocumentedSegments(pattern, p)))
      <==> SingleSegments(p)
  {
    if SingleSegments(p) {
      forall pattern ensures Match(pattern, p) <==> DocumentedSegments(pattern, p) { DocumentedWithinMatch(pattern, p); }
    } else {
      var segs := Split(Trim(p), SLASH);
      var n :| 0 <= n < |segs| && !Single(segs[n]);
      SplitFree(Trim(p), SLASH);
      assert segs[n] in segs;
      var pattern := SeveralBytesDiffer(segs[n]);
      WholePatternOutcome(p, n, pattern);
    }
  }

  /** A lone star stands for one segment, not for everything. */
  lemma {:induction false} LoneStarIff(p: Str)
    ensures Match([STAR], p) <==> SLASH !in Trim(p)
  {
    var pats := [[STAR]];
    SplitNoSlash([STAR]);
    assert Trim([STAR]) == [STAR];
    if SLASH in Trim(p) {
      var x, t := CutAtSlash(Trim(p));
    } else {
      SplitNoSlash(Trim(p));
      StarStandsForAll(Trim(p));
      assert SegmentsScan(pats, [Trim(p)]);
    }
  }

  lemma {:induction false} TrimLeftAppend(s: Str)
    ensures TrimLeft(s + [SLASH]) == if TrimLeft(s) == [] then [] else TrimLeft(s) + [SLASH]
  {
    if s == [] {
      assert s + [SLASH] == [SLASH];
      assert [SLASH][1..] == [];
    } else if s[0] == SLASH {
      assert (s + [SLASH])[1..] == s[1..] + [SLASH];
      TrimLeftAppend(s[1..]);
    }
  }

  /** Slashes at either end of the pattern or of the path make no difference. */
  lemma {:induction false} MatchIgnoresOuterSlashes(pattern: Str, p: Str)
    ensures Match([SLASH] + pattern, p) <==> Match(pattern, p)
    ensures Match(pattern + [SLASH], p) <==> Match(pattern, p)
    ensures Match(pattern, [SLASH] + p) <==> Match(pattern, p)
    ensures Match(pattern, p + [SLASH]) <==> Match(pattern, p)
  {
    TrimIgnores(pattern);
    TrimIgnores(p);
  }

  lemma {:induction false} TrimIgnores(s: Str)
    ensures Trim([SLASH] + s) == Trim(s) && Trim(s + [SLASH]) == Trim(s)
  {
    assert ([SLASH] + s)[1..] == s;
    TrimLeftAppend(s);
    var t := TrimLeft(s);
    assert (t + [SLASH])[..|t|] == t;
  }
}
