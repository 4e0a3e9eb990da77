/** The patterns of path.Match, and the texts they stand for as globs of bytes: a star for any run without a slash. */
module PathGlob {
  import opened Basics
  import opened Utf8

  const STAR: byte := 42
  const QUESTION: byte := 63
  const LBRACKET: byte := 91
  const RBRACKET: byte := 93
  const CARET: byte := 94
  const DASH: byte := 45

  datatype Range = Range(lo: int, hi: int)

  /** The terms of Go's path.Match patterns. */
  datatype Term = Star | AnyRune | Lit(b: byte) | Class(negated: bool, ranges: seq<Range>)

  /** One bound of a range: the rune and what is left; something must be left, for the closing bracket. */
  function ParseBound(p: Str): (r: Option<(int, Str)>)
    ensures r.Some? ==> r.value.1 != [] && |r.value.1| < |p|
  {
    if p == [] || p[0] == DASH || p[0] == RBRACKET then None else
    var q := if p[0] == BACKSLASH then p[1..] else p;
    if q == [] || q[0] == SLASH || BadStart(q) then None else
    var (rune, n) := DecodeRune(q);
    if q[n..] == [] then None else Some((rune, q[n..]))
  }

  /** One range, `lo` or `lo-hi`. */
  function ParseRange(p: Str): (r: Option<(Range, Str)>)
    ensures r.Some? ==> |r.value.1| < |p|
  {
    match ParseBound(p)
    case None => None
    case Some((lo, q)) =>
      if q[0] != DASH then Some((Range(lo, lo), q))
      else match ParseBound(q[1..])
        case None => None
        case Some((hi, t)) => Some((Range(lo, hi), t))
  }

  /** The ranges up to the closing bracket, at least one. */
  function ParseRanges(p: Str, first: bool): (r: Option<(seq<Range>, Str)>)
    ensures r.Some? ==> |r.value.1| < |p|
    decreases |p|
  {
    if p != [] && p[0] == RBRACKET && !first then Some(([], p[1..]))
    else match ParseRange(p)
      case None => None
      case Some((range, q)) =>
        match ParseRanges(q, false)
        case None => None
        case Some((rs, t)) => Some(([range] + rs, t))
  }

  /** The first term of a pattern. A slash can only stand for itself. */
  function ParseTerm(p: Str): (r: Option<(Term, Str)>)
    requires p != []
    ensures r.Some? ==> |r.value.1| < |p|
  {
    if p[0] == STAR then Some((Star, p[1..]))
    else if p[0] == QUESTION then Some((AnyRune, p[1..]))
    else if p[0] == BACKSLASH then
      if |p| == 1 || p[1] == SLASH then None else Some((Lit(p[1]), p[2..]))
    else if p[0] == LBRACKET then
      var negated := |p| > 1 && p[1] == CARET;
      match ParseRanges(if negated then p[2..] else p[1..], true)
      case None => None
      case Some((rs, t)) => Some((Class(negated, rs), t))
    else Some((Lit(p[0]), p[1..]))
  }

  /** The terms of a pattern; None is path.ErrBadPattern. */
  function Parse(p: Str): Option<seq<Term>>
    decreases |p|
  {
    if p == [] then Some([])
    else match ParseTerm(p)
      case None => None
      case Some((term, q)) =>
        match Parse(q)
        case None => None
        case Some(terms) => Some([term] + terms)
  }

  predicate InClass(rune: int, term: Term)
    requires term.Class?
  {
    (exists r :: r in term.ranges && r.lo <= rune <= r.hi) != term.negated
  }

  /** `term` can stand for the first `k` bytes of `s`. No wildcard stands for a slash. */
  predicate Takes(term: Term, s: Str, k: nat)
    requires k <= |s|
  {
    match term
    case Star => SLASH !in s[..k]
    case Lit(b) => k == 1 && s[0] == b
    case AnyRune => k > 0 && s[0] != SLASH && k == DecodeRune(s).1
    case Class(_, _) => k > 0 && s[0] != SLASH && k == DecodeRune(s).1 && InClass(DecodeRune(s).0, term)
  }

  /** The terms stand, one after the other, for all of `s`. */
  predicate Glob(terms: seq<Term>, s: Str)
  {
    if terms == [] then s == []
    else exists k :: 0 <= k <= |s| && Takes(terms[0], s, k) && Glob(terms[1..], s[k..])
  }

  /** The whole pattern stands for the whole name; a malformed pattern stands for nothing. */
  predicate GlobMatch(pattern: Str, name: Str)
  {
    Parse(pattern).Some? && Glob(Parse(pattern).value, name)
  }

  // --- reading a pattern whole or segment by segment ---

  function Suffix(b: Str): Str { [SLASH] + b }

  lemma {:induction false} SuffixAssoc(a: Str, b: Str, n: nat)
    requires n <= |a|
    ensures (a + Suffix(b))[n..] == a[n..] + Suffix(b)
  {}

  lemma {:induction false} BoundBeforeSlash(a: Str, b: Str)
    requires SLASH !in a
    ensures match ParseBound(a)
      case Some((rune, q)) => ParseBound(a + Suffix(b)) == Some((rune, q + Suffix(b))) && SLASH !in q
      case None => ParseBound(a + Suffix(b)).Some? ==> ParseBound(a + Suffix(b)).value.1 == Suffix(b)
  {
    var p := a + Suffix(b);
    if a != [] && a[0] != DASH && a[0] != RBRACKET {
      var k := if a[0] == BACKSLASH then 1 else 0;
      SuffixAssoc(a, b, k);
      var q := a[k..];
      if q == [] {
        assert p[k..] == Suffix(b);
      } else {
        assert p[k..] == q + [SLASH] + b;
        DecodeBeforeAscii(q, SLASH, b);
        var n := DecodeRune(q).1;
        SuffixAssoc(q, b, n);
      }
    } else if a == [] {
      assert p == Suffix(b);
    }
  }

  lemma {:induction false} RangeBeforeSlash(a: Str, b: Str)
    requires SLASH !in a
    ensures match ParseRange(a)
      case Some((range, q)) => ParseRange(a + Suffix(b)) == Some((range, q + Suffix(b))) && SLASH !in q
      case None => ParseRange(a + Suffix(b)).Some? ==> ParseRange(a + Suffix(b)).value.1 == Suffix(b)
  {
    BoundBeforeSlash(a, b);
    match ParseBound(a) {
      case None =>
      case Some((lo, q)) =>
        if q[0] == DASH {
          SuffixAssoc(q, b, 1);
          BoundBeforeSlash(q[1..], b);
        }
    }
  }

  lemma {:induction false} RangesBeforeSlash(a: Str, b: Str, first: bool)
    requires SLASH !in a
    ensures match ParseRanges(a, first)
      case Some((rs, q)) => ParseRanges(a + Suffix(b), first) == Some((rs, q + Suffix(b))) && SLASH !in q
      case None => ParseRanges(a + Suffix(b), first) == None
    decreases |a|
  {
    if a != [] && a[0] == RBRACKET && !first {
      SuffixAssoc(a, b, 1);
    } else {
      RangeBeforeSlash(a, b);
      match ParseRange(a) {
        case Some((range, q)) => RangesBeforeSlash(q, b, false);
        case None => assert ParseRanges(Suffix(b), false) == None;
      }
    }
  }

  /** A segment's terms are read the same whether or not a slash and more follow. */
  lemma {:induction false} TermBeforeSlash(a: Str, b: Str)
    requires SLASH !in a && a != []
    ensures match ParseTerm(a)
      case Some((term, q)) => ParseTerm(a + Suffix(b)) == Some((term, q + Suffix(b))) && SLASH !in q && term != Lit(SLASH)
      case None => ParseTerm(a + Suffix(b)) == None
  {
    SuffixAssoc(a, b, 1);
    if |a| > 1 {
      SuffixAssoc(a, b, 2);
    }
    if a[0] == LBRACKET {
      var negated := |a| > 1 && a[1] == CARET;
      RangesBeforeSlash(if negated then a[2..] else a[1..], b, true);
    }
  }

  lemma {:induction false} ParseBeforeSlash(a: Str, b: Str)
    requires SLASH !in a
    ensures Parse(a + Suffix(b)) ==
      if Parse(a).Some? && Parse(b).Some? then Some(Parse(a).value + [Lit(SLASH)] + Parse(b).value) else None
    ensures Parse(a).Some? ==> Lit(SLASH) !in Parse(a).value
    decreases |a|
  {
    if a == [] {
      assert a + Suffix(b) == Suffix(b);
      ParseSlash(b);
    } else {
      TermBeforeSlash(a, b);
      match ParseTerm(a) {
        case None =>
        case Some((term, q)) =>
          ParseBeforeSlash(q, b);
          if Parse(q).Some? && Parse(b).Some? { PrependTerm(term, Parse(q).value, Parse(b).value); }
      }
    }
  }

  lemma {:induction false} ParseSlash(b: Str)
    ensures Parse(Suffix(b)) == if Parse(b).Some? then Some([] + [Lit(SLASH)] + Parse(b).value) else None
  {
    assert Suffix(b)[1..] == b;
    assert ParseTerm(Suffix(b)) == Some((Lit(SLASH), b));
    if Parse(b).Some? { assert [] + [Lit(SLASH)] + Parse(b).value == [Lit(SLASH)] + Parse(b).value; }
  }

  lemma {:induction false} PrependTerm(term: Term, q: seq<Term>, t: seq<Term>)
    ensures [term] + (q + [Lit(SLASH)] + t) == ([term] + q) + [Lit(SLASH)] + t
  {}

  lemma {:induction false} ParseNoSlash(a: Str)
    requires SLASH !in a
    ensures Parse(a).Some? ==> Lit(SLASH) !in Parse(a).value
  {
    ParseBeforeSlash(a, []);
  }

  /** Terms without a slash stand only for slash-free text. */
  lemma {:induction false} GlobNoSlash(terms: seq<Term>, s: Str)
    requires Lit(SLASH) !in terms && Glob(terms, s)
    ensures SLASH !in s
    decreases |terms|
  {
    if terms != [] {
      var k :| 0 <= k <= |s| && Takes(terms[0], s, k) && Glob(terms[1..], s[k..]);
      TakesNoSlash(terms[0], s, k);
      GlobNoSlash(terms[1..], s[k..]);
      assert s == s[..k] + s[k..];
    }
  }

  lemma {:induction false} TakesNoSlash(term: Term, s: Str, k: nat)
    requires k <= |s| && Takes(term, s, k) && term != Lit(SLASH)
    ensures SLASH !in s[..k]
  {
    if term.AnyRune? || term.Class? {
      assert forall i | 0 < i < k :: s[i] >= 0x80;
    }
  }

  /** In front of a slash, a slash-free term takes what it would take without the rest. */
  lemma {:induction false} TakesBeforeSlash(term: Term, a: Str, b: Str, k: nat)
    requires SLASH !in a && term != Lit(SLASH)
    requires k <= |a + Suffix(b)|
    ensures Takes(term, a + Suffix(b), k) <==> k <= |a| && Takes(term, a, k)
  {
    var s := a + Suffix(b);
    if k <= |a| { assert s[..k] == a[..k]; }
    if k > |a| { assert s[..k][|a|] == SLASH; }
    if Takes(term, s, k) { TakesNoSlash(term, s, k); }
    if a != [] {
      assert s == a + [SLASH] + b;
      DecodeBeforeAscii(a, SLASH, b);
    }
  }

  lemma {:induction false} GlobBeforeSlash(t: seq<Term>, u: seq<Term>, a: Str, b: Str)
    requires SLASH !in a && Lit(SLASH) !in t
    ensures Glob(t + [Lit(SLASH)] + u, a + Suffix(b)) <==> Glob(t, a) && Glob(u, b)
    decreases |t|
  {
    var terms, s := t + [Lit(SLASH)] + u, a + Suffix(b);
    if t == [] {
      assert terms == [Lit(SLASH)] + u && terms[1..] == u;
      if a == [] {
        assert s == Suffix(b) && s[1..] == b;
        if Glob(u, b) { assert Takes(terms[0], s, 1) && Glob(terms[1..], s[1..]); }
      } else {
        assert s[0] == a[0];
      }
    } else {
      assert terms[0] == t[0] && terms[1..] == t[1..] + [Lit(SLASH)] + u;
      forall k | 0 <= k <= |s|
        ensures Takes(terms[0], s, k) && Glob(terms[1..], s[k..]) <==>
          k <= |a| && Takes(t[0], a, k) && Glob(t[1..], a[k..]) && Glob(u, b)
      {
        TakesBeforeSlash(t[0], a, b, k);
        if k <= |a| {
          SuffixAssoc(a, b, k);
          GlobBeforeSlash(t[1..], u, a[k..], b);
        }
      }
    }
  }

  /** Terms with a slash need a slash. */
  lemma {:induction false} GlobNeedsSlash(t: seq<Term>, s: Str)
    requires Lit(SLASH) in t && Glob(t, s)
    ensures SLASH in s
    decreases |t|
  {
    var k :| 0 <= k <= |s| && Takes(t[0], s, k) && Glob(t[1..], s[k..]);
    if t[0] != Lit(SLASH) { GlobNeedsSlash(t[1..], s[k..]); }
  }
}
