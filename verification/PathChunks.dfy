/** How path.Match cuts a pattern into chunks, byte by byte, and why that cuts the pattern's terms. */
module PathChunks {
  import opened Basics
  import opened PathGlob
  import opened PathScan
  import opened Utf8

  // --- the cut in front of a star outside brackets ---

  /** How far scanChunk goes; `inRange` says whether a bracket is open. */
  function ChunkEnd(p: Str, inRange: bool): (n: nat)
    ensures n <= |p|
  {
    if p == [] then 0
    else if p[0] == BACKSLASH then (if |p| > 1 then 2 + ChunkEnd(p[2..], inRange) else 1)
    else if p[0] == LBRACKET then 1 + ChunkEnd(p[1..], true)
    else if p[0] == RBRACKET then 1 + ChunkEnd(p[1..], false)
    else if p[0] == STAR && !inRange then 0
    else 1 + ChunkEnd(p[1..], inRange)
  }

  /** There is a closing bracket that no backslash escapes. */
  predicate HasClose(p: Str)
  {
    p != [] &&
    if p[0] == RBRACKET then true
    else if p[0] == BACKSLASH then |p| > 1 && HasClose(p[2..])
    else HasClose(p[1..])
  }

  predicate Ordinary(b: byte) { b != BACKSLASH && b != LBRACKET && b != RBRACKET && b != STAR }

  /** Ordinary bytes change nothing. */
  lemma {:induction false} SkipOrdinary(p: Str, n: nat, inRange: bool)
    requires n <= |p| && forall i :: 0 <= i < n ==> Ordinary(p[i])
    ensures ChunkEnd(p, inRange) == n + ChunkEnd(p[n..], inRange)
    ensures HasClose(p) <==> HasClose(p[n..])
  {
    if n > 0 {
      SkipOrdinary(p[1..], n - 1, inRange);
      assert p[1..][n - 1..] == p[n..];
    } else {
      assert p[0..] == p;
    }
  }

  /** The bytes of a rune behind its first. */
  lemma {:induction false} TailOrdinary(q: Str)
    requires q != []
    ensures forall i :: 1 <= i < DecodeRune(q).1 ==> Ordinary(q[i])
  {}

  lemma {:induction false} BeforeClose(q: Str) returns (a: Str, t: Str)
    requires q != [] && HasClose(q[1..])
    ensures q == a + [RBRACKET] + t && a != []
  {
    var i := CloseAt(q[1..]);
    a, t := q[..i + 1], q[i + 2..];
  }

  lemma {:induction false} AppendBehind(a: Str, t: Str, y: Str)
    ensures (a + [RBRACKET] + t) + y == a + [RBRACKET] + (t + y)
  {}

  lemma {:induction false} SkipRune(q: Str)
    requires q != [] && HasClose(q[1..])
    ensures HasClose(q[DecodeRune(q).1..])
  {
    var n := DecodeRune(q).1;
    TailOrdinary(q);
    SkipOrdinary(q[1..], n - 1, false);
    assert q[1..][n - 1..] == q[n..];
  }

  /** In front of an unescaped closing bracket a rune reads the same whatever follows the bracket. */
  lemma {:induction false} DecodeLocal(q: Str, y: Str)
    requires q != [] && HasClose(q[1..])
    ensures DecodeRune(q + y) == DecodeRune(q)
    ensures HasClose(q[DecodeRune(q).1..])
  {
    var a, t := BeforeClose(q);
    DecodeBeforeAscii(a, RBRACKET, t);
    DecodeBeforeAscii(a, RBRACKET, t + y);
    AppendBehind(a, t, y);
    SkipRune(q);
  }

  lemma {:induction false} CloseAt(p: Str) returns (i: nat)
    requires HasClose(p)
    ensures i < |p| && p[i] == RBRACKET
  {
    if p[0] == RBRACKET {
      i := 0;
    } else if p[0] == BACKSLASH {
      var j := CloseAt(p[2..]);
      i := j + 2;
    } else {
      var j := CloseAt(p[1..]);
      i := j + 1;
    }
  }

  lemma {:induction false} DropOfConcat(p: Str, y: Str, n: nat)
    requires n <= |p|
    ensures (p + y)[n..] == p[n..] + y
  {}

  lemma {:induction false} BoundLocal(p: Str, y: Str)
    requires HasClose(p)
    ensures match ParseBound(p)
      case Some((rune, q)) => ParseBound(p + y) == Some((rune, q + y)) && HasClose(q)
      case None => ParseBound(p + y) == None
  {
    if p[0] != DASH && p[0] != RBRACKET {
      var k := if p[0] == BACKSLASH then 1 else 0;
      DropOfConcat(p, y, k);
      var q := p[k..];
      assert k == 1 ==> q[1..] == p[2..];
      DecodeLocal(q, y);
      DropOfConcat(q, y, DecodeRune(q).1);
    }
  }

  lemma {:induction false} RangeLocal(p: Str, y: Str)
    requires HasClose(p)
    ensures match ParseRange(p)
      case Some((range, q)) => ParseRange(p + y) == Some((range, q + y)) && HasClose(q)
      case None => ParseRange(p + y) == None
  {
    BoundLocal(p, y);
    match ParseBound(p) {
      case None =>
      case Some((lo, q)) =>
        if q[0] == DASH {
          DropOfConcat(q, y, 1);
          BoundLocal(q[1..], y);
        }
    }
  }

  /** A bracket expression is read the same whatever follows its closing bracket. */
  lemma {:induction false} RangesLocal(p: Str, y: Str, first: bool)
    requires HasClose(p)
    ensures match ParseRanges(p, first)
      case Some((rs, q)) => ParseRanges(p + y, first) == Some((rs, q + y))
      case None => ParseRanges(p + y, first) == None
    decreases |p|
  {
    if p[0] == RBRACKET && !first {
      DropOfConcat(p, y, 1);
    } else {
      RangeLocal(p, y);
      match ParseRange(p) {
        case None =>
        case Some((range, q)) => RangesLocal(q, y, false);
      }
    }
  }

  /** With a closing bracket the chunk reaches past it; without one it reaches to the end. */
  lemma {:induction false} CloseInChunk(p: Str)
    ensures HasClose(p) ==> HasClose(p[..ChunkEnd(p, true)])
    ensures !HasClose(p) ==> ChunkEnd(p, true) == |p|
  {
    var n := ChunkEnd(p, true);
    if p != [] && p[0] == BACKSLASH && |p| > 1 {
      CloseInChunk(p[2..]);
      assert p[..n][2..] == p[2..][..n - 2];
    } else if p != [] && p[0] != RBRACKET && p[0] != BACKSLASH {
      CloseInChunk(p[1..]);
      assert p[..n][1..] == p[1..][..n - 1];
    }
  }

  /** What a reader has left, seen by scanChunk. */
  predicate Further(p: Str, inRange: bool, q: Str, inRange': bool)
  {
    |q| <= |p| && q == p[|p| - |q|..] && ChunkEnd(p, inRange) == |p| - |q| + ChunkEnd(q, inRange')
  }

  lemma {:induction false} FurtherStep(p: Str, a: bool, q: Str, b: bool, r: Str, c: bool)
    requires Further(p, a, q, b) && Further(q, b, r, c)
    ensures Further(p, a, r, c)
  {
    assert q[|q| - |r|..] == p[|p| - |r|..];
  }

  lemma {:induction false} BoundFurther(p: Str)
    requires ParseBound(p).Some?
    ensures Further(p, true, ParseBound(p).value.1, true)
  {
    var k := if p[0] == BACKSLASH then 1 else 0;
    var q := p[k..];
    var n := DecodeRune(q).1;
    TailOrdinary(q);
    SkipOrdinary(q[1..], n - 1, true);
    assert q[1..][n - 1..] == q[n..];
    assert k == 1 ==> q[1..] == p[2..];
    assert q[n..] == p[k + n..];
  }

  lemma {:induction false} RangeFurther(p: Str)
    requires ParseRange(p).Some?
    ensures Further(p, true, ParseRange(p).value.1, true)
  {
    BoundFurther(p);
    var q := ParseBound(p).value.1;
    if q[0] == DASH {
      BoundFurther(q[1..]);
      assert Further(q, true, q[1..], true);
      FurtherStep(p, true, q, true, q[1..], true);
      FurtherStep(p, true, q[1..], true, ParseBound(q[1..]).value.1, true);
    }
  }

  /** A bracket expression ends at its closing bracket, for scanChunk as well. */
  lemma {:induction false} RangesFurther(p: Str, first: bool)
    requires ParseRanges(p, first).Some?
    ensures Further(p, true, ParseRanges(p, first).value.1, false) && HasClose(p)
    decreases |p|
  {
    if p != [] && p[0] == RBRACKET && !first {
      assert Further(p, true, p[1..], false);
    } else {
      RangeFurther(p);
      var q := ParseRange(p).value.1;
      RangesFurther(q, false);
      FurtherStep(p, true, q, true, ParseRanges(q, false).value.1, false);
      RangeKeepsClose(p);
    }
  }

  lemma {:induction false} BoundKeepsClose(p: Str)
    requires ParseBound(p).Some? && HasClose(ParseBound(p).value.1)
    ensures HasClose(p)
  {
    var k := if p[0] == BACKSLASH then 1 else 0;
    var q := p[k..];
    var n := DecodeRune(q).1;
    TailOrdinary(q);
    SkipOrdinary(q[1..], n - 1, true);
    assert q[1..][n - 1..] == q[n..];
    assert k == 1 ==> q[1..] == p[2..];
  }

  lemma {:induction false} RangeKeepsClose(p: Str)
    requires ParseRange(p).Some? && HasClose(ParseRange(p).value.1)
    ensures HasClose(p)
  {
    var q := ParseBound(p).value.1;
    if q[0] == DASH { BoundKeepsClose(q[1..]); }
    BoundKeepsClose(p);
  }

  // --- a chunk's terms are the pattern's ---

  function Chunk(p: Str): Str { p[..ChunkEnd(p, false)] }

  function Behind(p: Str): Str { p[ChunkEnd(p, false)..] }

  /** How many bytes open a bracket expression: the bracket and a caret. */
  function Opening(p: Str): nat
    requires p != []
  {
    if |p| > 1 && p[1] == CARET then 2 else 1
  }

  lemma {:induction false} OpeningFurther(p: Str)
    requires p != [] && p[0] == LBRACKET
    ensures Further(p, false, p[Opening(p)..], true)
    ensures ParseTerm(p) == match ParseRanges(p[Opening(p)..], true)
      case None => None
      case Some((rs, t)) => Some((Class(Opening(p) == 2, rs), t))
  {
    if Opening(p) == 2 {
      assert p[1..][0] == CARET && p[1..][1..] == p[2..];
      assert ChunkEnd(p[1..], true) == 1 + ChunkEnd(p[2..], true);
    }
  }

  /** The inside of a bracket expression, and the part of it that is in the chunk. */
  lemma {:induction false} ClassParts(p: Str) returns (body: Str, c: Str, y: Str)
    requires p != [] && p[0] == LBRACKET
    ensures body == p[Opening(p)..] && body == c + y && Further(p, false, body, true) && |y| == |Behind(p)|
    ensures Chunk(p) != [] && Chunk(p)[0] == LBRACKET && Opening(Chunk(p)) == Opening(p) && Chunk(p)[Opening(p)..] == c
    ensures if HasClose(body) then HasClose(c) else c == body
  {
    OpeningFurther(p);
    var k, n := Opening(p), ChunkEnd(p, false);
    body := p[k..];
    c, y := body[..n - k], body[n - k..];
    CloseInChunk(body);
  }

  lemma {:induction false} RangesInChunk(body: Str, c: Str, y: Str)
    requires body == c + y && (if HasClose(body) then HasClose(c) else c == body)
    ensures match ParseRanges(c, true)
      case Some((rs, r)) => ParseRanges(body, true) == Some((rs, r + y))
      case None => ParseRanges(body, true) == None
  {
    if HasClose(body) {
      RangesLocal(c, y, true);
    } else {
      assert y == [];
      if ParseRanges(c, true).Some? { assert ParseRanges(c, true).value.1 + [] == ParseRanges(c, true).value.1; }
    }
  }

  lemma {:induction false} ClassInChunk(p: Str)
    requires p != [] && p[0] == LBRACKET
    ensures Chunk(p) != [] && Chunk(p)[0] == LBRACKET
    ensures match ParseTerm(p)
      case Some((term, q)) => Further(p, false, q, false) && ParseTerm(Chunk(p)) == Some((term, Chunk(q)))
      case None => ParseTerm(Chunk(p)) == None
  {
    var body, c, y := ClassParts(p);
    OpeningFurther(p);
    OpeningFurther(Chunk(p));
    RangesInChunk(body, c, y);
    if ParseRanges(c, true).Some? {
      var r := ParseRanges(c, true).value.1;
      RangesFurther(body, true);
      FurtherStep(p, false, body, true, r + y, false);
      EndOfChunk(y, r, r + y);
    }
  }

  /** The same reader's rests with and without what follows the chunk. */
  lemma {:induction false} EndOfChunk(y: Str, r: Str, q: Str)
    requires q == r + y && ChunkEnd(q, false) == |q| - |y|
    ensures Chunk(q) == r
  {}

  lemma {:induction false} TermInChunk(p: Str)
    requires p != [] && p[0] != STAR
    ensures Chunk(p) != []
    ensures match ParseTerm(p)
      case Some((term, q)) => !term.Star? && Further(p, false, q, false) && ParseTerm(Chunk(p)) == Some((term, Chunk(q)))
      case None => ParseTerm(Chunk(p)) == None
  {
    if p[0] == LBRACKET {
      ClassInChunk(p);
    } else if p[0] == BACKSLASH {
      if |p| > 1 { assert Chunk(p)[2..] == Chunk(p[2..]); }
    } else {
      assert Chunk(p)[1..] == Chunk(p[1..]);
    }
  }

  /** Cutting the pattern behind a chunk cuts its terms: the chunk's hold no star, and it is malformed if either part is. */
  lemma {:induction false} ParseChunk(p: Str)
    ensures Parse(Chunk(p)).Some? ==> StarFree(Parse(Chunk(p)).value)
    ensures Parse(p) == if Parse(Chunk(p)).Some? && Parse(Behind(p)).Some?
      then Some(Parse(Chunk(p)).value + Parse(Behind(p)).value) else None
    decreases |p|
  {
    if p == [] || p[0] == STAR {
      assert Chunk(p) == [] && Behind(p) == p;
      if Parse(p).Some? { assert [] + Parse(p).value == Parse(p).value; }
    } else {
      TermInChunk(p);
      match ParseTerm(p) {
        case None =>
        case Some((term, q)) =>
          ParseChunk(q);
          assert Behind(q) == Behind(p);
          if Parse(Chunk(q)).Some? && Parse(Behind(q)).Some? {
            ConcatAssoc([term], Parse(Chunk(q)).value, Parse(Behind(q)).value);
          }
      }
    }
  }

  function DropStarBytes(p: Str): (q: Str)
    ensures |q| <= |p| && (q != [] ==> q[0] != STAR)
    ensures p != [] && p[0] == STAR ==> |q| < |p|
    ensures p == [] || p[0] != STAR ==> q == p
  {
    if p != [] && p[0] == STAR then DropStarBytes(p[1..]) else p
  }

  lemma {:induction false} ParseStars(p: Str)
    ensures Parse(p).Some? <==> Parse(DropStarBytes(p)).Some?
    ensures Parse(p).Some? ==> DropStars(Parse(p).value) == Parse(DropStarBytes(p)).value
    ensures Parse(p).Some? && p != [] ==> Parse(p).value != [] && (Parse(p).value[0].Star? <==> p[0] == STAR)
  {
    if p != [] && p[0] == STAR {
      ParseStars(p[1..]);
      if Parse(p).Some? { assert Parse(p).value[1..] == Parse(p[1..]).value; }
    } else if p != [] {
      TermInChunk(p);
    }
  }

  lemma {:induction false} RunOfChunk(chunk: seq<Term>, rest: seq<Term>)
    requires StarFree(chunk) && (rest == [] || rest[0].Star?)
    ensures RunLength(chunk + rest) == |chunk|
    ensures (chunk + rest)[..|chunk|] == chunk && (chunk + rest)[|chunk|..] == rest
  {
    if chunk != [] {
      RunOfChunk(chunk[1..], rest);
      assert (chunk + rest)[1..] == chunk[1..] + rest;
    } else {
      assert chunk + rest == rest;
    }
  }

  lemma {:induction false} BehindStartsWithStar(p: Str)
    ensures Behind(p) == [] || Behind(p)[0] == STAR
  {
    EndsAtStar(p, false);
  }

  lemma {:induction false} EndsAtStar(p: Str, inRange: bool)
    ensures var n := ChunkEnd(p, inRange); n < |p| ==> p[n] == STAR
  {
    if p != [] && p[0] == BACKSLASH && |p| > 1 {
      EndsAtStar(p[2..], inRange);
    } else if p != [] && p[0] != BACKSLASH {
      EndsAtStar(p[1..], if p[0] == LBRACKET then true else if p[0] == RBRACKET then false else inRange);
    }
  }
}
