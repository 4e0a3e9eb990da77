/** path.Match byte by byte. */
module PathMatcher {
  import opened Basics
  import opened PathChunks
  import opened PathGlob
  import opened PathScan
  import opened Utf8

  /** One round of path.Match, on bytes and on terms. */
  lemma {:induction false} OneChunk(pattern: Str)
    requires pattern != []
    ensures var p := DropStarBytes(pattern);
      Parse(pattern).Some? <==> Parse(Chunk(p)).Some? && Parse(Behind(p)).Some?
    ensures Parse(Chunk(DropStarBytes(pattern))).Some? ==> StarFree(Parse(Chunk(DropStarBytes(pattern))).value)
    ensures Parse(pattern).Some? ==>
      var p, terms := DropStarBytes(pattern), Parse(pattern).value;
      terms != [] && (terms[0].Star? <==> pattern[0] == STAR) &&
      RunLength(DropStars(terms)) == |Parse(Chunk(p)).value| &&
      DropStars(terms)[..RunLength(DropStars(terms))] == Parse(Chunk(p)).value &&
      DropStars(terms)[RunLength(DropStars(terms))..] == Parse(Behind(p)).value
  {
    var p := DropStarBytes(pattern);
    ParseStars(pattern);
    ParseChunk(p);
    BehindStartsWithStar(p);
    if Parse(pattern).Some? {
      ParseStars(Behind(p));
      RunOfChunk(Parse(Chunk(p)).value, Parse(Behind(p)).value);
    }
  }

  /** scanChunk. */
  method ScanChunk(pattern: Str) returns (star: bool, chunk: Str, rest: Str)
    ensures star <==> pattern != [] && pattern[0] == STAR
    ensures chunk == Chunk(DropStarBytes(pattern)) && rest == Behind(DropStarBytes(pattern))
  {
    var p := pattern;
    star := false;
    while p != [] && p[0] == STAR
      invariant DropStarBytes(p) == DropStarBytes(pattern)
      invariant star || p == pattern
      invariant star ==> pattern != [] && pattern[0] == STAR
    {
      p := p[1..];
      star := true;
    }
    var inRange, i := false, 0;
    while i < |p|
      invariant 0 <= i <= |p| && i + ChunkEnd(p[i..], inRange) == ChunkEnd(p, false)
    {
      assert p[i..][1..] == p[i + 1..];
      if p[i] == BACKSLASH {
        if i + 1 < |p| {
          assert p[i..][2..] == p[i + 2..];
          i := i + 1;
        }
      } else if p[i] == LBRACKET {
        inRange := true;
      } else if p[i] == RBRACKET {
        inRange := false;
      } else if p[i] == STAR && !inRange {
        break;
      }
      i := i + 1;
    }
    return star, p[..i], p[i..];
  }

  predicate InRanges(ranges: seq<Range>, rune: int) { exists r :: r in ranges && r.lo <= rune <= r.hi }

  function Prepend(seen: seq<Range>, parsed: Option<(seq<Range>, Str)>): Option<(seq<Range>, Str)>
  {
    match parsed
    case None => None
    case Some((ranges, q)) => Some((seen + ranges, q))
  }

  lemma {:induction false} PrependNothing(parsed: Option<(seq<Range>, Str)>)
    ensures Prepend([], parsed) == parsed
  {
    if parsed.Some? { assert [] + parsed.value.0 == parsed.value.0; }
  }

  lemma {:induction false} PrependStep(seen: seq<Range>, range: Range, parsed: Option<(seq<Range>, Str)>)
    ensures Prepend(seen, Prepend([range], parsed)) == Prepend(seen + [range], parsed)
  {
    if parsed.Some? { ConcatAssoc(seen, [range], parsed.value.0); }
  }

  lemma {:induction false} RangesStep(p: Str, first: bool)
    requires !(p != [] && p[0] == RBRACKET && !first)
    ensures ParseRanges(p, first) == match ParseRange(p)
      case None => None
      case Some((range, q)) => Prepend([range], ParseRanges(q, false))
  {}

  /** The range loop of matchChunk, behind the bracket and the caret; getEsc is ParseBound. */
  method MatchRanges(chunk: Str, rune: int) returns (bad: bool, found: bool, rest: Str)
    ensures bad <==> ParseRanges(chunk, true).None?
    ensures !bad ==> rest == ParseRanges(chunk, true).value.1
    ensures !bad ==> (found <==> InRanges(ParseRanges(chunk, true).value.0, rune))
  {
    var c, nrange := chunk, 0;
    ghost var seen: seq<Range> := [];
    found := false;
    PrependNothing(ParseRanges(chunk, true));
    while true
      invariant ParseRanges(chunk, true) == Prepend(seen, ParseRanges(c, nrange == 0))
      invariant nrange == |seen| && (found <==> InRanges(seen, rune))
      decreases |c|
    {
      if c != [] && c[0] == RBRACKET && nrange > 0 {
        assert seen + [] == seen;
        return false, found, c[1..];
      }
      RangesStep(c, nrange == 0);
      var lo := ParseBound(c);
      if lo.None? { return true, found, []; }
      var hi := lo.value.0;
      var d := lo.value.1;
      if d[0] == DASH {
        var bound := ParseBound(d[1..]);
        if bound.None? { return true, found, []; }
        hi, d := bound.value.0, bound.value.1;
      }
      if lo.value.0 <= rune <= hi { found := true; }
      PrependStep(seen, Range(lo.value.0, hi), ParseRanges(d, false));
      InRangesStep(seen, Range(lo.value.0, hi), rune);
      seen := seen + [Range(lo.value.0, hi)];
      nrange, c := nrange + 1, d;
    }
  }

  lemma {:induction false} InRangesStep(seen: seq<Range>, range: Range, rune: int)
    ensures InRanges(seen + [range], rune) <==> InRanges(seen, rune) || range.lo <= rune <= range.hi
  {
    assert range in seen + [range];
    if InRanges(seen, rune) {
      var r :| r in seen && r.lo <= rune <= r.hi;
      assert r in seen + [range];
    }
  }

  /** What matchChunk has left to do: nothing of a failed chunk can match any more. */
  function Left(chunk: Str, s: Str, failed: bool): Option<Str>
    requires Parse(chunk).Some? && StarFree(Parse(chunk).value)
  {
    if failed then None else Consume(Parse(chunk).value, s)
  }

  lemma {:induction false} LeftStep(chunk: Str, s: Str, failed: bool)
    requires chunk != [] && Parse(chunk).Some? && StarFree(Parse(chunk).value)
    ensures var (term, q) := ParseTerm(chunk).value;
      !term.Star? && Parse(q).Some? && StarFree(Parse(q).value) &&
      Left(chunk, s, failed) == if failed || Width(term, s) == 0 then None else Left(q, s[Width(term, s)..], false)
  {
    var (term, q) := ParseTerm(chunk).value;
    assert Parse(chunk).value == [term] + Parse(q).value;
    assert term == Parse(chunk).value[0] && Parse(chunk).value[1..] == Parse(q).value;
  }

  /** The state of matchChunk's loop: `c` and `t` are what is left of the chunk and of the text. */
  predicate ChunkInv(chunk: Str, s: Str, c: Str, t: Str, failed: bool)
  {
    (Parse(chunk).Some? <==> Parse(c).Some?) &&
    (Parse(chunk).Some? && StarFree(Parse(chunk).value) ==>
       StarFree(Parse(c).value) && Left(chunk, s, false) == Left(c, t, failed))
  }

  lemma {:induction false} ChunkStep(chunk: Str, s: Str, c: Str, t: Str, failed: bool, t': Str, failed': bool)
    requires ChunkInv(chunk, s, c, t, failed) && c != [] && ParseTerm(c).Some?
    requires var term := ParseTerm(c).value.0;
      !term.Star? ==>
        (failed' <==> failed || Width(term, t) == 0) && (!failed' ==> t' == t[Width(term, t)..])
    ensures ChunkInv(chunk, s, ParseTerm(c).value.1, t', failed')
  {
    if Parse(chunk).Some? && StarFree(Parse(chunk).value) { LeftStep(c, t, failed); }
  }

  /** A term that is not a bracket expression: the byte it stands for, or none for a question mark. */
  method MatchOne(literal: Option<byte>, t: Str) returns (ok: bool, t': Str)
    ensures ok <==> Width(if literal.Some? then Lit(literal.value) else AnyRune, t) > 0
    ensures ok ==> t' == t[Width(if literal.Some? then Lit(literal.value) else AnyRune, t)..]
  {
    if t == [] { return false, t; }
    match literal
    case Some(b) => return t[0] == b, t[1..];
    case None => return t[0] != SLASH, t[DecodeRune(t).1..];
  }

  method MatchClass(negated: bool, chunk: Str, t: Str) returns (bad: bool, ok: bool, rest: Str, t': Str)
    ensures bad <==> ParseRanges(chunk, true).None?
    ensures !bad ==> rest == ParseRanges(chunk, true).value.1
    ensures !bad ==>
      var w := Width(Class(negated, ParseRanges(chunk, true).value.0), t);
      (ok <==> w > 0) && (ok ==> t' == t[w..])
  {
    var rune, n := 0, 0;
    if t != [] {
      var decoded := DecodeRune(t);
      rune, n := decoded.0, decoded.1;
    }
    var found: bool;
    bad, found, rest := MatchRanges(chunk, rune);
    ok, t' := t != [] && found != negated, t[n..];
  }

  /** matchChunk: the chunk is read to its end even when the text no longer fits. */
  method MatchChunk(chunk: Str, s: Str) returns (rest: Str, ok: bool, bad: bool)
    requires SLASH !in chunk
    ensures bad <==> Parse(chunk).None?
    ensures !bad && StarFree(Parse(chunk).value) ==>
      (ok <==> Consume(Parse(chunk).value, s).Some?) && (ok ==> rest == Consume(Parse(chunk).value, s).value)
    ensures bad ==> !ok
  {
    var c, t, failed := chunk, s, false;
    while c != []
      invariant SLASH !in c && ChunkInv(chunk, s, c, t, failed)
      decreases |c|
    {
      var fits, rest, t': Str;
      if c[0] == LBRACKET {
        var negated := |c| > 1 && c[1] == CARET;
        var malformed;
        malformed, fits, rest, t' := MatchClass(negated, if negated then c[2..] else c[1..], t);
        if malformed { return [], false, true; }
      } else if c[0] == QUESTION {
        fits, t' := MatchOne(None, t);
        rest := c[1..];
      } else if c[0] == BACKSLASH {
        if |c| == 1 { return [], false, true; }
        fits, t' := MatchOne(Some(c[1]), t);
        rest := c[2..];
      } else {
        fits, t' := MatchOne(Some(c[0]), t);
        rest := c[1..];
      }
      ChunkStep(chunk, s, c, t, failed, if failed || !fits then [] else t', failed || !fits);
      TermKeepsSlashFree(c);
      if !fits { failed := true; }
      c, t := rest, if failed then [] else t';
    }
    if failed { return [], false, false; }
    return t, true, false;
  }

  lemma {:induction false} TermKeepsSlashFree(c: Str)
    requires c != [] && SLASH !in c && ParseTerm(c).Some?
    ensures SLASH !in ParseTerm(c).value.1
  {
    TermBeforeSlash(c, []);
  }

  lemma {:induction false} CutKeepsSlashFree(pattern: Str)
    requires SLASH !in pattern
    ensures SLASH !in Chunk(DropStarBytes(pattern)) && SLASH !in Behind(DropStarBytes(pattern))
  {
    if pattern != [] && pattern[0] == STAR { CutKeepsSlashFree(pattern[1..]); }
  }

  /** A round of the scan that has found the chunk's place. */
  lemma {:induction false} RoundFits(pattern: Str, name: Str, t: Str)
    requires pattern != [] && Parse(pattern).Some?
    requires var p := DropStarBytes(pattern);
      p != [] && Parse(Chunk(p)).Some? && StarFree(Parse(Chunk(p)).value) &&
      FirstFit(Parse(Chunk(p)).value, name, pattern[0] == STAR, Behind(p) == []) == Some(t)
    ensures Parse(Behind(DropStarBytes(pattern))).Some?
    ensures PathMatch(pattern, name) <==> PathMatch(Behind(DropStarBytes(pattern)), t)
  {
    OneChunk(pattern);
    ChunkNotEmpty(DropStarBytes(pattern));
    ParseEmptyOnly(Behind(DropStarBytes(pattern)));
  }

  lemma {:induction false} RoundFails(pattern: Str, name: Str)
    requires pattern != [] && Parse(pattern).Some?
    requires var p := DropStarBytes(pattern);
      p != [] && Parse(Chunk(p)).Some? && StarFree(Parse(Chunk(p)).value) &&
      FirstFit(Parse(Chunk(p)).value, name, pattern[0] == STAR, Behind(p) == []).None?
    ensures !PathMatch(pattern, name)
  {
    OneChunk(pattern);
    ChunkNotEmpty(DropStarBytes(pattern));
    ParseEmptyOnly(Behind(DropStarBytes(pattern)));
  }

  /** A pattern that does not start with a star has a first chunk, and so a first term in front of the next star. */
  lemma {:induction false} ChunkNotEmpty(p: Str)
    requires p != [] && p[0] != STAR
    ensures Chunk(p) != [] && (Parse(Chunk(p)).Some? ==> Parse(Chunk(p)).value != [])
  {
    TermInChunk(p);
  }

  lemma {:induction false} ParseEmptyOnly(p: Str)
    requires Parse(p).Some?
    ensures Parse(p).value == [] <==> p == []
  {}

  /** Trailing stars. */
  lemma {:induction false} OnlyStars(pattern: Str, name: Str)
    requires pattern != [] && DropStarBytes(pattern) == []
    ensures PathMatch(pattern, name) <==> SLASH !in name
    ensures Parse(pattern).Some?
  {
    ParseStars(pattern);
    OneChunk(pattern);
  }

  lemma {:induction false} NextFit(chunk: seq<Term>, name: Str, i: nat, last: bool)
    requires StarFree(chunk) && i < |name| && name[i] != SLASH
    requires var here := Consume(chunk, name[i..]); here.None? || (here.value != [] && last)
    ensures FirstFit(chunk, name[i..], true, last) == FirstFit(chunk, name[i + 1..], true, last)
  {
    assert name[i..][1..] == name[i + 1..];
  }

  /** The rest of the search behind a star, from the next byte on. */
  method FindFurther(chunk: Str, name: Str, last: bool) returns (found: bool, t: Str)
    requires SLASH !in chunk && Parse(chunk).Some? && StarFree(Parse(chunk).value)
    requires var first := Consume(Parse(chunk).value, name); first.None? || (first.value != [] && last)
    ensures var fit := FirstFit(Parse(chunk).value, name, true, last);
      (found <==> fit.Some?) && (found ==> fit == Some(t))
  {
    ghost var terms := Parse(chunk).value;
    var i := 0;
    assert name[0..] == name;
    while i < |name| && name[i] != SLASH
      invariant 0 <= i <= |name|
      invariant FirstFit(terms, name, true, last) == FirstFit(terms, name[i..], true, last)
      invariant var here := Consume(terms, name[i..]); here.None? || (here.value != [] && last)
    {
      NextFit(terms, name, i, last);
      var rest, ok, bad := MatchChunk(chunk, name[i + 1..]);
      if ok && (!last || rest == []) { return true, rest; }
      i := i + 1;
    }
    return false, [];
  }

  /** The check that the rest of a pattern is well-formed. */
  method Malformed(pattern: Str) returns (bad: bool)
    requires SLASH !in pattern
    ensures bad <==> Parse(pattern).None?
  {
    var pat := pattern;
    while pat != []
      invariant SLASH !in pat && (Parse(pattern).None? <==> Parse(pat).None?)
      decreases |pat|
    {
      CutKeepsSlashFree(pat);
      OneChunk(pat);
      if DropStarBytes(pat) != [] { ChunkNotEmpty(DropStarBytes(pat)); }
      var star, chunk, rest := ScanChunk(pat);
      var t, ok, malformed := MatchChunk(chunk, []);
      if malformed { return true; }
      pat := rest;
    }
    return false;
  }

  /** path.Match on slash-free texts: `bad` is ErrBadPattern. */
  method MatchPath(pattern: Str, name: Str) returns (matched: bool, bad: bool)
    requires SLASH !in pattern && SLASH !in name
    ensures matched <==> PathMatch(pattern, name)
    ensures bad <==> Parse(pattern).None?
  {
    var pat, nm := pattern, name;
    while pat != []
      invariant SLASH !in pat && SLASH !in nm
      invariant Parse(pattern).None? <==> Parse(pat).None?
      invariant PathMatch(pattern, name) <==> PathMatch(pat, nm)
      decreases |pat|
    {
      CutKeepsSlashFree(pat);
      OneChunk(pat);
      ghost var p := DropStarBytes(pat);
      if p != [] { ChunkNotEmpty(p); } else { OnlyStars(pat, nm); }
      var star, chunk, rest := ScanChunk(pat);
      if star && chunk == [] { return SLASH !in nm, false; }
      var t, ok, malformed := MatchChunk(chunk, nm);
      if malformed { return false, true; }
      var found := ok && (t == [] || rest != []);
      if !found && star { found, t := FindFurther(chunk, nm, rest == []); }
      if !found {
        bad := Malformed(rest);
        if Parse(pat).Some? { RoundFails(pat, nm); }
        return false, bad;
      }
      FitSlashFree(Parse(chunk).value, nm, star, rest == []);
      if Parse(pat).Some? { RoundFits(pat, nm, t); }
      pat, nm := rest, t;
    }
    return nm == [], false;
  }

  lemma {:induction false} FitSlashFree(chunk: seq<Term>, name: Str, star: bool, last: bool)
    requires StarFree(chunk) && SLASH !in name && FirstFit(chunk, name, star, last).Some?
    ensures SLASH !in FirstFit(chunk, name, star, last).value
  {
    var k := FirstFitPlace(chunk, name, star, last);
    EndConsumes(chunk, name, k);
  }
}
