/** What the documentation of path.Match says, with wildcards that stand for whole characters, and how far it is met. */
module PathRunes {
  import opened Basics
  import opened PathAgreement
  import opened PathChars
  import opened PathGlob
  import opened PathScan
  import opened Utf8

  /** The pattern stands for the name from `p` on: a star for some whole characters, a question mark or a class for one. */
  predicate Documented(terms: seq<Term>, name: Str, p: nat)
    requires p <= |name|
    decreases |terms|
  {
    if terms == [] then p == |name|
    else match terms[0]
      case Star => exists k :: p <= k <= |name| && Boundary(name, k) && Documented(terms[1..], name, k)
      case Lit(b) => p < |name| && name[p] == b && Documented(terms[1..], name, p + 1)
      case _ =>
        var w := Width(terms[0], name[p..]);
        w > 0 && Boundary(name, p) && Documented(terms[1..], name, p + w)
  }

  predicate DocumentedMatch(pattern: Str, name: Str)
  {
    Parse(pattern).Some? && Documented(Parse(pattern).value, name, 0)
  }

  lemma {:induction false} DocumentedStars(terms: seq<Term>, name: Str, p: nat) returns (k: nat)
    requires p <= |name| && terms != [] && terms[0].Star? && Documented(terms, name, p)
    ensures p <= k <= |name| && Documented(DropStars(terms), name, k)
    decreases |terms|
  {
    k :| p <= k <= |name| && Boundary(name, k) && Documented(terms[1..], name, k);
    if terms[1..] != [] && terms[1..][0].Star? { k := DocumentedStars(terms[1..], name, k); }
  }

  /** One term that is not a star. */
  lemma {:induction false} DocumentedStep(terms: seq<Term>, name: Str, p: nat) returns (w: nat)
    requires p <= |name| && terms != [] && !terms[0].Star? && Documented(terms, name, p)
    ensures w > 0 && w == Width(terms[0], name[p..]) && p + w <= |name| && Documented(terms[1..], name, p + w)
    ensures terms[0].Lit? || Boundary(name, p)
  {
    w := Width(terms[0], name[p..]);
  }

  /** From `k` on the chunk fits, with its question marks and classes at the starts of characters. */
  predicate OnBoundaries(chunk: seq<Term>, name: Str, k: nat)
    requires StarFree(chunk) && k <= |name|
    decreases |chunk|
  {
    chunk == [] ||
    var w := Width(chunk[0], name[k..]);
    w > 0 && (chunk[0].Lit? || Boundary(name, k)) && OnBoundaries(chunk[1..], name, k + w)
  }

  lemma {:induction false} DocumentedChunk(chunk: seq<Term>, rest: seq<Term>, name: Str, k: nat)
    requires StarFree(chunk) && k <= |name| && Documented(chunk + rest, name, k)
    ensures OnBoundaries(chunk, name, k)
    ensures End(chunk, name, k).Some? && Documented(rest, name, End(chunk, name, k).value)
    decreases |chunk|
  {
    var terms := chunk + rest;
    if chunk == [] {
      assert terms == rest;
    } else {
      var w := DocumentedStep(terms, name, k);
      assert terms[1..] == chunk[1..] + rest;
      DocumentedChunk(chunk[1..], rest, name, k + w);
    }
  }

  /** A chunk that starts earlier ends no later than where it stands on boundaries. */
  lemma {:induction false} EarlierEndsEarlier(chunk: seq<Term>, name: Str, j: nat, k: nat)
    requires StarFree(chunk) && j <= k <= |name| && OnBoundaries(chunk, name, k)
    requires End(chunk, name, j).Some? && End(chunk, name, k).Some?
    ensures End(chunk, name, j).value <= End(chunk, name, k).value
    decreases |chunk|
  {
    if chunk != [] && j < k {
      var w, k' := StepOnBoundary(chunk, name, k);
      var rest, j' := StepInFront(chunk, name, j, k, w);
      EarlierEndsEarlier(rest, name, j', k');
    }
  }

  lemma {:induction false} StepOnBoundary(chunk: seq<Term>, name: Str, k: nat) returns (w: nat, k': nat)
    requires StarFree(chunk) && chunk != [] && k <= |name| && OnBoundaries(chunk, name, k)
    ensures w > 0 && (chunk[0].Lit? || Boundary(name, k)) && k' == k + w <= |name|
    ensures OnBoundaries(chunk[1..], name, k') && End(chunk, name, k) == End(chunk[1..], name, k')
  {
    w := Width(chunk[0], name[k..]);
    k' := k + w;
  }

  lemma {:induction false} StepInFront(chunk: seq<Term>, name: Str, j: nat, k: nat, w: nat)
    returns (rest: seq<Term>, j': nat)
    requires StarFree(chunk) && chunk != [] && j < k && k + w <= |name| && End(chunk, name, j).Some?
    requires w > 0 && (chunk[0].Lit? || Boundary(name, k))
    ensures rest == chunk[1..] && StarFree(rest) && |rest| < |chunk| && j' <= k + w
    ensures End(chunk, name, j) == End(rest, name, j')
  {
    var v := EndStep(chunk, name, j);
    StepsInOrder(chunk[0], name, j, k, w);
    rest, j' := chunk[1..], j + v;
  }

  lemma {:induction false} StepsInOrder(term: Term, name: Str, j: nat, k: nat, w: nat)
    requires !term.Star? && j < k <= |name| && w > 0 && (term.Lit? || Boundary(name, k))
    ensures j + Width(term, name[j..]) <= k + w
  {
    WidthBound(term, name, j);
    if !term.Lit? { BoundaryClear(name, j, k); }
  }

  lemma {:induction false} WidthBound(term: Term, name: Str, j: nat)
    requires j < |name| && !term.Star?
    ensures Width(term, name[j..]) <= if term.Lit? then 1 else DecodeRune(name[j..]).1
  {}

  /** Where the scan puts the chunk that stands at `k`: at or in front of it, from `q` on. */
  lemma {:induction false} DocumentedFit(chunk: seq<Term>, rest: seq<Term>, star: bool, name: Str, k: nat, q: nat)
    returns (e: nat)
    requires StarFree(chunk) && SLASH !in name && q <= k <= |name| && (q < k ==> star)
    requires End(chunk, name, k).Some? && OnBoundaries(chunk, name, k)
    requires rest == [] ==> End(chunk, name, k).value == |name|
    ensures e <= End(chunk, name, k).value && FirstFit(chunk, name[q..], star, rest == []) == Some(name[e..])
    ensures rest == [] ==> e == |name|
  {
    var j := FoundFrom(chunk, star, rest == [], name, k, q);
    EarlierEndsEarlier(chunk, name, j, k);
    e := End(chunk, name, j).value;
  }

  lemma {:induction false} FoundFrom(chunk: seq<Term>, star: bool, last: bool, name: Str, k: nat, q: nat)
    returns (j: nat)
    requires StarFree(chunk) && SLASH !in name && q <= k <= |name| && (q < k ==> star)
    requires End(chunk, name, k).Some? && (last ==> End(chunk, name, k).value == |name|)
    ensures j <= k && End(chunk, name, j).Some?
    ensures FirstFit(chunk, name[q..], star, last) == Some(name[End(chunk, name, j).value..])
    ensures last ==> End(chunk, name, j).value == |name|
  {
    EndConsumes(chunk, name, k);
    DropTwice(name, q, k - q);
    SuffixSlashFree(name, q);
    var i, u := FoundIn(chunk, star, last, name[q..], k - q, name[k..]);
    j := q + i;
    DropTwice(name, q, i);
    Reaches(chunk, name, j, u, last);
  }

  lemma {:induction false} FoundIn(chunk: seq<Term>, star: bool, last: bool, name: Str, k: nat, t: Str)
    returns (j: nat, u: Str)
    requires StarFree(chunk) && SLASH !in name && k <= |name| && t == name[k..] && (k > 0 ==> star)
    requires Consume(chunk, t).Some? && (last ==> Consume(chunk, t).value == [])
    ensures j <= k && u == name[j..] && Consume(chunk, u).Some? && (last ==> Consume(chunk, u).value == [])
    ensures FirstFit(chunk, name, star, last) == Consume(chunk, u)
  {
    j := FirstFitFound(chunk, name, star, last, k);
    u := name[j..];
  }

  lemma {:induction false} Reaches(chunk: seq<Term>, name: Str, j: nat, u: Str, last: bool)
    requires StarFree(chunk) && j <= |name| && u == name[j..]
    requires Consume(chunk, u).Some? && (last ==> Consume(chunk, u).value == [])
    ensures End(chunk, name, j).Some? && Consume(chunk, u) == Some(name[End(chunk, name, j).value..])
    ensures last ==> End(chunk, name, j).value == |name|
  {
    EndConsumes(chunk, name, j);
  }

  /** What stands for the name from `p` on is scanned from `p`, and behind a star from any place in front of `p`. */
  lemma {:induction false} DocumentedScanned(terms: seq<Term>, name: Str, p: nat, q: nat)
    requires SLASH !in name && q <= p <= |name| && (terms == [] || !terms[0].Star? ==> q == p)
    requires Documented(terms, name, p)
    ensures Scan(terms, name[q..])
    decreases |terms|
  {
    SuffixSlashFree(name, q);
    if terms != [] {
      var chunk, rest := Cut(terms);
      if chunk != [] {
        var k := p;
        if terms[0].Star? { k := DocumentedStars(terms, name, p); }
        DocumentedChunk(chunk, rest, name, k);
        var e := DocumentedFit(chunk, rest, terms[0].Star?, name, k, q);
        DocumentedScanned(rest, name, End(chunk, name, k).value, e);
        ScanStep(terms, chunk, rest, name[q..], name[e..]);
      }
    }
  }

  /** path.Match accepts all that its documentation says. */
  lemma {:induction false} DocumentedWithinPathMatch(pattern: Str, name: Str)
    requires SLASH !in name && DocumentedMatch(pattern, name)
    ensures PathMatch(pattern, name)
  {
    DocumentedScanned(Parse(pattern).value, name, 0, 0);
    assert name[0..] == name;
  }

  // --- exactly the names on which it accepts nothing else ---

  /** Every character is one byte: ASCII, or ill-formed. */
  predicate Single(name: Str) { forall k :: 0 <= k <= |name| ==> Boundary(name, k) }

  lemma {:induction false} GlobIsDocumented(terms: seq<Term>, name: Str, p: nat)
    requires p <= |name| && SLASH !in name && Single(name) && Glob(terms, name[p..])
    ensures Documented(terms, name, p)
    decreases |terms|
  {
    if terms != [] {
      var k := GlobStep(terms, name, p);
      GlobIsDocumented(terms[1..], name, p + k);
      assert Boundary(name, p + k) && Boundary(name, p);
    }
  }

  lemma {:induction false} GlobStep(terms: seq<Term>, name: Str, p: nat) returns (k: nat)
    requires p <= |name| && SLASH !in name && terms != [] && Glob(terms, name[p..])
    ensures p + k <= |name| && Glob(terms[1..], name[p + k..])
    ensures !terms[0].Star? ==> k > 0 && k == Width(terms[0], name[p..])
  {
    var s := name[p..];
    k :| 0 <= k <= |s| && Takes(terms[0], s, k) && Glob(terms[1..], s[k..]);
    DropTwice(name, p, k);
    SuffixSlashFree(name, p);
    if !terms[0].Star? { WidthTakes(terms[0], s, k); }
  }

  /** By the documentation, too, leading question marks take a character each. */
  lemma {:induction false} DocumentedFront(name: Str, i: nat, terms: seq<Term>)
    requires i <= |name| && SLASH !in name && Boundary(name, i)
    requires Documented(Marks(Count(name, i)) + terms, name, 0)
    ensures Documented(terms, name, i)
  {
    var chunk := Marks(Count(name, i));
    DocumentedChunk(chunk, terms, name, 0);
    EndConsumes(chunk, name, 0);
    MarksTakeFront(name, i);
    assert name[0..] == name;
    SameSuffix(name, i, End(chunk, name, 0).value);
  }

  lemma {:induction false} SameSuffix(s: Str, i: nat, j: nat)
    requires i <= |s| && j <= |s| && s[i..] == s[j..]
    ensures i == j
  {
    assert |s[i..]| == |s| - i && |s[j..]| == |s| - j;
  }

  /** Question marks and classes take a character each, up to the end. */
  lemma {:induction false} DocumentedChars(chunk: seq<Term>, name: Str, k: nat)
    requires Wild(chunk) && k <= |name| && Documented(chunk, name, k)
    ensures Chars(name[k..]) == |chunk|
  {
    assert chunk + [] == chunk;
    DocumentedChunk(chunk, [], name, k);
    EndConsumes(chunk, name, k);
    assert name[|name|..] == [];
    WildTakesAll(chunk, name[k..]);
  }

  /** A star and a chunk for at least as many characters as are left, which does not stand at the first of them. */
  lemma {:induction false} StarChunkUndocumented(chunk: seq<Term>, name: Str, i: nat)
    requires Wild(chunk)
    requires i < |name| && Boundary(name, i) && |chunk| >= Chars(name[i..]) && !Documented(chunk, name, i)
    ensures !Documented([Star] + chunk, name, i)
  {
    assert ([Star] + chunk)[1..] == chunk;
    if k :| i <= k <= |name| && Boundary(name, k) && Documented(chunk, name, k) {
      DocumentedChars(chunk, name, k);
      FewerBehind(name, i, k);
    }
  }

  // --- a character of three or four bytes ---

  /** A question mark for each character in front of it, then *??, and one for each behind it: one too many. */
  function ExtraPattern(name: Str, i: nat): Str
    requires i < |name| && Boundary(name, i)
  {
    MarkBytes(Count(name, i)) + ([STAR] + MarkBytes(2 + Chars(name[i + DecodeRune(name[i..]).1..])))
  }

  lemma {:induction false} ExtraReceivable(name: Str, i: nat)
    requires i < |name| && Boundary(name, i)
    ensures Receivable(ExtraPattern(name, i)) && SLASH !in ExtraPattern(name, i)
  {
    AsciiValid(ExtraPattern(name, i));
  }

  /** path.Match lets the extra one take a byte of the character. */
  lemma {:induction false} ExtraDiffers(name: Str, i: nat)
    requires SLASH !in name && i < |name| && DecodeRune(name[i..]).1 >= 3 && Boundary(name, i)
    ensures PathMatch(ExtraPattern(name, i), name) && !DocumentedMatch(ExtraPattern(name, i), name)
  {
    var n := ExtraFits(name, i);
    ParseAllMarks(2 + n);
    ParseStar(MarkBytes(2 + n));
    ParseMarkBytes(Count(name, i), [STAR] + MarkBytes(2 + n));
    ScanBehindMarks(name, i, [Star] + Marks(2 + n));
    ExtraUndocumented(name, i, n);
  }

  lemma {:induction false} ExtraFits(name: Str, i: nat) returns (n: nat)
    requires SLASH !in name && i < |name| && DecodeRune(name[i..]).1 >= 3
    ensures n == Chars(name[i + DecodeRune(name[i..]).1..]) && Chars(name[i..]) == 1 + n
    ensures Scan([Star] + Marks(2 + n), name[i..])
  {
    var s := name[i..];
    n := Chars(s[DecodeRune(s).1..]);
    DropTwice(name, i, DecodeRune(s).1);
    SuffixSlashFree(name, i);
    var k := LastTwo(s, n);
    MarksFit(2 + n, s, k);
    ScanLastChunk(Marks(2 + n), s);
  }

  lemma {:induction false} ExtraUndocumented(name: Str, i: nat, n: nat)
    requires SLASH !in name && i < |name| && Boundary(name, i) && Chars(name[i..]) == 1 + n
    ensures !Documented(Marks(Count(name, i)) + ([Star] + Marks(2 + n)), name, 0)
  {
    if Documented(Marks(2 + n), name, i) { DocumentedChars(Marks(2 + n), name, i); }
    StarChunkUndocumented(Marks(2 + n), name, i);
    if Documented(Marks(Count(name, i)) + ([Star] + Marks(2 + n)), name, 0) {
      DocumentedFront(name, i, [Star] + Marks(2 + n));
    }
  }

  lemma {:induction false} MarksFit(n: nat, s: Str, k: nat)
    requires SLASH !in s && k <= |s| && Chars(s[k..]) == n
    ensures FitsAtEnd(Marks(n), s)
  {
    SuffixSlashFree(s, k);
    MarksTakeAllIff(n, s[k..]);
  }

  lemma {:induction false} LastTwo(s: Str, n: nat) returns (k: nat)
    requires s != [] && DecodeRune(s).1 >= 3 && n == Chars(s[DecodeRune(s).1..])
    ensures k <= |s| && Chars(s[k..]) == 2 + n
  {
    k := DecodeRune(s).1 - 2;
    CharsInside(s, k);
    CharsInside(s, k + 1);
  }

  // --- a character of two bytes ---

  /** The class of all characters but one. */
  function AllBut(c: Str): Str { [LBRACKET, CARET] + (c + [RBRACKET]) }

  /** A question mark for each character in front of it, then a star and [^...] without it, and one for each behind. */
  function ButPattern(name: Str, i: nat): Str
    requires i < |name| && Boundary(name, i)
  {
    var k := i + DecodeRune(name[i..]).1;
    MarkBytes(Count(name, i)) + ([STAR] + (AllBut(name[i..k]) + MarkBytes(Chars(name[k..]))))
  }

  function ButTerm(c: Str): Term
    requires c != []
  {
    Class(true, [Range(DecodeRune(c).0, DecodeRune(c).0)])
  }

  lemma {:induction false} BoundOfTwo(c: Str, t: Str)
    requires |c| == 2 && DecodeRune(c).1 == 2 && t != []
    ensures ParseBound(c + t) == Some((DecodeRune(c).0, t))
  {
    var p := c + t;
    assert p[0] == c[0] && p[1] == c[1] && p[2..] == t;
  }

  lemma {:induction false} RangesOfTwo(c: Str, rest: Str)
    requires |c| == 2 && DecodeRune(c).1 == 2
    ensures ParseRanges(c + ([RBRACKET] + rest), true) == Some((ButTerm(c).ranges, rest))
  {
    var t := [RBRACKET] + rest;
    var range := Range(DecodeRune(c).0, DecodeRune(c).0);
    BoundOfTwo(c, t);
    assert t[1..] == rest;
    assert ParseRange(c + t) == Some((range, t));
    assert [range] + [] == [range];
  }

  lemma {:induction false} ParseAllBut(c: Str, rest: Str)
    requires |c| == 2 && DecodeRune(c).1 == 2 && Parse(rest).Some?
    ensures Parse(AllBut(c) + rest) == Some([ButTerm(c)] + Parse(rest).value)
  {
    var p := AllBut(c) + rest;
    RangesOfTwo(c, rest);
    assert p[0] == LBRACKET && p[1] == CARET && p[2..] == c + ([RBRACKET] + rest);
    ParseHead(p, ButTerm(c), rest);
  }

  lemma {:induction false} ParseBut(name: Str, i: nat, c: Str, n: nat)
    requires i < |name| && Boundary(name, i) && DecodeRune(name[i..]).1 == 2 && i + 2 <= |name| && c == name[i..i + 2]
    requires n == Chars(name[i + 2..]) && DecodeRune(c).1 == 2
    ensures Parse(ButPattern(name, i)) == Some(Marks(Count(name, i)) + ([Star] + ([ButTerm(c)] + Marks(n))))
  {
    ParseStarBut(c, n);
    ParseMarkBytes(Count(name, i), [STAR] + (AllBut(c) + MarkBytes(n)));
  }

  lemma {:induction false} ParseStarBut(c: Str, n: nat)
    requires |c| == 2 && DecodeRune(c).1 == 2
    ensures Parse([STAR] + (AllBut(c) + MarkBytes(n))) == Some([Star] + ([ButTerm(c)] + Marks(n)))
  {
    ParseAllMarks(n);
    ParseAllBut(c, MarkBytes(n));
    ParseStar(AllBut(c) + MarkBytes(n));
  }

  /** A character of two bytes, on its own. */
  lemma {:induction false} TwoBytes(s: Str) returns (c: Str)
    requires s != [] && DecodeRune(s).1 == 2
    ensures c == s[..2] && |c| == 2 && DecodeRune(c) == DecodeRune(s) && DecodeRune(s).0 < RUNE_ERROR
    ensures ValidUtf8(c) && forall b :: b in c ==> b >= 0x80
  {
    c := s[..2];
    assert c[0] == s[0] && c[1] == s[1];
    OneRuneValid(c);
  }

  lemma {:induction false} ButReceivable(name: Str, i: nat, c: Str)
    requires i < |name| && Boundary(name, i) && DecodeRune(name[i..]).1 == 2 && i + 2 <= |name| && c == name[i..i + 2]
    requires ValidUtf8(c) && forall b :: b in c ==> b >= 0x80
    ensures Receivable(ButPattern(name, i)) && SLASH !in ButPattern(name, i)
  {
    ButValid(name, i, c);
  }

  lemma {:induction false} ButValid(name: Str, i: nat, c: Str)
    requires i < |name| && Boundary(name, i) && DecodeRune(name[i..]).1 == 2 && i + 2 <= |name| && c == name[i..i + 2]
    requires ValidUtf8(c)
    ensures ValidUtf8(ButPattern(name, i))
  {
    var front, behind := MarkBytes(Count(name, i)), MarkBytes(Chars(name[i + 2..]));
    AsciiValid(front);
    AsciiValid(behind);
    AsciiValid([STAR]);
    AsciiValid([LBRACKET, CARET]);
    AsciiValid([RBRACKET]);
    ValidConcat(c, [RBRACKET]);
    ValidConcat([LBRACKET, CARET], c + [RBRACKET]);
    ValidConcat(AllBut(c), behind);
    ValidConcat([STAR], AllBut(c) + behind);
    ValidConcat(front, [STAR] + (AllBut(c) + behind));
  }

  /** path.Match lets the class take the character's second byte. */
  lemma {:induction false} SecondByteFits(s: Str, c: Str)
    requires SLASH !in s && s != [] && DecodeRune(s).1 == 2 && c != [] && DecodeRune(c) == DecodeRune(s)
    requires DecodeRune(s).0 < RUNE_ERROR
    ensures FitsAtEnd([ButTerm(c)] + Marks(Chars(s[2..])), s)
  {
    var chunk := [ButTerm(c)] + Marks(Chars(s[2..]));
    InsideRune(s, 1);
    DropTwice(s, 1, 1);
    SuffixSlashFree(s, 2);
    MarksTakeAllIff(Chars(s[2..]), s[2..]);
    assert chunk[1..] == Marks(Chars(s[2..]));
    assert Width(ButTerm(c), s[1..]) == 1;
    assert Consume(chunk, s[1..]) == Some([]);
  }

  lemma {:induction false} ButDiffers(name: Str, i: nat, c: Str)
    requires SLASH !in name && i < |name| && DecodeRune(name[i..]).1 == 2 && Boundary(name, i) && i + 2 <= |name|
    requires c == name[i..i + 2] && |c| == 2 && DecodeRune(c) == DecodeRune(name[i..]) && DecodeRune(c).0 < RUNE_ERROR
    ensures PathMatch(ButPattern(name, i), name) && !DocumentedMatch(ButPattern(name, i), name)
  {
    var s := name[i..];
    var n := Chars(s[2..]);
    var chunk := [ButTerm(c)] + Marks(n);
    DropTwice(name, i, 2);
    SuffixSlashFree(name, i);
    ParseBut(name, i, c, n);
    SecondByteFits(s, c);
    ScanLastChunk(chunk, s);
    ScanBehindMarks(name, i, [Star] + chunk);
    assert Width(chunk[0], s) == 0;
    StarChunkUndocumented(chunk, name, i);
    if Documented(Marks(Count(name, i)) + ([Star] + chunk), name, 0) { DocumentedFront(name, i, [Star] + chunk); }
  }

  /** A character of several bytes makes the difference. */
  lemma {:induction false} SeveralBytesDiffer(name: Str) returns (pattern: Str)
    requires SLASH !in name && !Single(name)
    ensures Receivable(pattern) && SLASH !in pattern
    ensures PathMatch(pattern, name) && !DocumentedMatch(pattern, name)
  {
    var k :| 0 <= k <= |name| && !Boundary(name, k);
    var i := WideAround(name, k);
    WideIsCharacter(name, i);
    if DecodeRune(name[i..]).1 >= 3 {
      pattern := ExtraPattern(name, i);
      ExtraReceivable(name, i);
      ExtraDiffers(name, i);
    } else {
      var c := TwoBytes(name[i..]);
      assert c == name[i..i + 2];
      pattern := ButPattern(name, i);
      ButReceivable(name, i, c);
      ButDiffers(name, i, c);
    }
  }

  /** The euro sign. */
  const EURO: Str := [0xE2, 0x82, 0xAC]

  /** path.Match lets *??, which is documented to need two characters, match the one. */
  lemma {:induction false} EuroMatchesTwoMarks()
    ensures var pattern := [STAR, QUESTION, QUESTION];
      Receivable(pattern) && PathMatch(pattern, EURO) && !DocumentedMatch(pattern, EURO)
  {
    assert EURO[0..] == EURO && EURO[3..] == [];
    assert MarkBytes(0) == [] && MarkBytes(1) == [QUESTION] && MarkBytes(2) == [QUESTION, QUESTION];
    assert ExtraPattern(EURO, 0) == [STAR, QUESTION, QUESTION];
    ExtraReceivable(EURO, 0);
    ExtraDiffers(EURO, 0);
  }

  /** The names on which path.Match accepts, for every pattern that a key can hold, just what its documentation says. */
  lemma {:induction false} DocumentedIffSingle(name: Str)
    requires SLASH !in name
    ensures (forall pattern :: Receivable(pattern) && SLASH !in pattern ==>
              (PathMatch(pattern, name) <==> DocumentedMatch(pattern, name)))
      <==> Single(name)
  {
    if Single(name) {
      forall pattern ensures PathMatch(pattern, name) <==> DocumentedMatch(pattern, name) {
        SingleAgrees(pattern, name);
      }
    } else {
      var pattern := SeveralBytesDiffer(name);
    }
  }

  lemma {:induction false} SingleAgrees(pattern: Str, name: Str)
    requires SLASH !in name && Single(name)
    ensures PathMatch(pattern, name) <==> DocumentedMatch(pattern, name)
  {
    if PathMatch(pattern, name) {
      PathMatchWithinGlob(pattern, name);
      assert name[0..] == name;
      GlobIsDocumented(Parse(pattern).value, name, 0);
    }
    if DocumentedMatch(pattern, name) { DocumentedWithinPathMatch(pattern, name); }
  }
}
