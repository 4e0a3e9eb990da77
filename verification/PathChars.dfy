/** The characters of a name, and patterns of question marks that count them. */
module PathChars {
  import opened Basics
  import opened PathChunks
  import opened PathGlob
  import opened PathScan
  import opened Utf8

  /** What a key's scope can hold: parseScope drops empty patterns, splits at commas and replaces ill-formed bytes. */
  predicate Receivable(pattern: Str) { pattern != [] && COMMA !in pattern && ValidUtf8(pattern) }

  /** A character of the text ends, and the next one starts, in front of byte `k`. */
  predicate Boundary(s: Str, k: nat)
    requires k <= |s|
    decreases |s|
  {
    k == 0 || (DecodeRune(s).1 <= k && Boundary(s[DecodeRune(s).1..], k - DecodeRune(s).1))
  }

  lemma {:induction false} EndIsBoundary(s: Str)
    ensures Boundary(s, |s|)
    decreases |s|
  {
    if s != [] { EndIsBoundary(s[DecodeRune(s).1..]); }
  }

  /** The bytes of a character behind its first are no characters of more bytes. */
  lemma {:induction false} InsideRune(s: Str, j: nat)
    requires s != [] && 0 < j < DecodeRune(s).1
    ensures DecodeRune(s[j..]) == (RUNE_ERROR, 1)
  {}

  lemma {:induction false} CharsInside(s: Str, j: nat)
    requires s != [] && 0 < j < DecodeRune(s).1
    ensures Chars(s[j..]) == 1 + Chars(s[j + 1..])
  {
    InsideRune(s, j);
    DropTwice(s, j, 1);
  }

  /** Nothing that starts in front of a boundary reaches over it. */
  lemma {:induction false} BoundaryClear(s: Str, j: nat, k: nat)
    requires j < k <= |s| && Boundary(s, k)
    ensures j + DecodeRune(s[j..]).1 <= k
    decreases |s|
  {
    var w := DecodeRune(s).1;
    if j >= w {
      BoundaryClear(s[w..], j - w, k - w);
      DropTwice(s, w, j - w);
    } else if j > 0 {
      InsideRune(s, j);
    } else {
      assert s[0..] == s;
    }
  }

  /** What decodes to several bytes is a character of the text. */
  lemma {:induction false} WideIsCharacter(s: Str, i: nat)
    requires i < |s| && DecodeRune(s[i..]).1 > 1
    ensures Boundary(s, i)
    decreases |s|
  {
    var w := DecodeRune(s).1;
    if i >= w {
      DropTwice(s, w, i - w);
      WideIsCharacter(s[w..], i - w);
    } else if i > 0 {
      InsideRune(s, i);
    }
  }

  /** Where no character ends, there is one of several bytes in front. */
  lemma {:induction false} WideAround(s: Str, k: nat) returns (i: nat)
    requires k <= |s| && !Boundary(s, k)
    ensures i < |s| && DecodeRune(s[i..]).1 > 1
    decreases |s|
  {
    var w := DecodeRune(s).1;
    if k < w {
      i := 0;
      assert s[0..] == s;
    } else {
      var j := WideAround(s[w..], k - w);
      i := w + j;
      DropTwice(s, w, j);
    }
  }

  /** The last character of three or four bytes. */
  lemma {:induction false} LastWide(s: Str) returns (i: nat)
    requires !Narrow(s)
    ensures i < |s| && DecodeRune(s[i..]).1 >= 3 && Narrow(s[i + DecodeRune(s[i..]).1..])
    decreases |s|
  {
    i :| 0 <= i < |s| && !NarrowAt(s, i);
    var k := i + DecodeRune(s[i..]).1;
    if !Narrow(s[k..]) {
      var j := LastWide(s[k..]);
      i := k + j;
      DropTwice(s, k, j);
      DropTwice(s, k, j + DecodeRune(s[k..][j..]).1);
    }
  }

  // --- counting ---

  /** The number of characters. */
  function Chars(s: Str): nat
    decreases |s|
  {
    if s == [] then 0 else 1 + Chars(s[DecodeRune(s).1..])
  }

  /** The number of characters in front of a boundary. */
  function Count(s: Str, k: nat): nat
    requires k <= |s| && Boundary(s, k)
    decreases |s|
  {
    if k == 0 then 0 else 1 + Count(s[DecodeRune(s).1..], k - DecodeRune(s).1)
  }

  /** A boundary, seen from behind the first character. */
  lemma {:induction false} Peel(s: Str, w: nat, k: nat) returns (t: Str, j: nat)
    requires 0 < k <= |s| && Boundary(s, k) && w == DecodeRune(s).1
    ensures w <= k && t == s[w..] && j == k - w && |t| < |s| && Boundary(t, j) && s[k..] == t[j..]
    ensures Chars(s) == 1 + Chars(t)
  {
    t, j := s[w..], k - w;
    DropTwice(s, w, j);
  }

  lemma {:induction false} CharsOfSuffix(s: Str, k: nat)
    requires k <= |s| && Boundary(s, k)
    ensures Chars(s[k..]) <= Chars(s)
    decreases |s|
  {
    if k == 0 {
      assert s[0..] == s;
    } else {
      var t, j := Peel(s, DecodeRune(s).1, k);
      CharsOfSuffix(t, j);
    }
  }

  /** Behind a later boundary there are no more characters. */
  lemma {:induction false} CharsBehind(s: Str, i: nat, k: nat)
    requires i <= k <= |s| && Boundary(s, i) && Boundary(s, k)
    ensures Chars(s[k..]) <= Chars(s[i..])
    decreases |s|
  {
    if i == 0 {
      CharsOfSuffix(s, k);
      assert s[0..] == s;
    } else {
      var w := DecodeRune(s).1;
      var t, i' := Peel(s, w, i);
      var u, k' := Peel(s, w, k);
      CharsBehind(t, i', k');
    }
  }

  lemma {:induction false} CharacterEnds(s: Str, i: nat) returns (k: nat)
    requires i < |s| && Boundary(s, i)
    ensures k == i + DecodeRune(s[i..]).1 && k <= |s| && Boundary(s, k)
    decreases |s|
  {
    if i == 0 {
      assert s[0..] == s;
      k := DecodeRune(s).1;
    } else {
      var t, j := Peel(s, DecodeRune(s).1, i);
      var m := CharacterEnds(t, j);
      k := i - j + m;
    }
  }

  /** And behind a later character there are fewer. */
  lemma {:induction false} FewerBehind(s: Str, i: nat, k: nat)
    requires i < k <= |s| && Boundary(s, i) && Boundary(s, k)
    ensures Chars(s[k..]) < Chars(s[i..])
  {
    var j := CharacterEnds(s, i);
    BoundaryClear(s, i, k);
    CharsBehind(s, j, k);
    DropTwice(s, i, j - i);
  }

  /** Without characters of three bytes or more, a suffix from the middle of a character counts no more either. */
  lemma {:induction false} CharsOfNarrow(s: Str, k: nat)
    requires k <= |s| && Narrow(s)
    ensures Chars(s[k..]) <= Chars(s)
    decreases |s|
  {
    if k == 0 {
      assert s[0..] == s;
    } else {
      assert s[0..] == s && NarrowAt(s, 0);
      var w := DecodeRune(s).1;
      NarrowSuffix(s, w);
      if k >= w {
        CharsOfNarrow(s[w..], k - w);
        DropTwice(s, w, k - w);
      } else {
        InsideRune(s, k);
        DropTwice(s, 1, 1);
      }
    }
  }

  // --- question marks ---

  function Marks(n: nat): (terms: seq<Term>)
    ensures |terms| == n && StarFree(terms) && forall i :: 0 <= i < n ==> terms[i] == AnyRune
  {
    if n == 0 then [] else [AnyRune] + Marks(n - 1)
  }

  function MarkBytes(n: nat): (p: Str)
    ensures |p| == n && forall b :: b in p ==> b == QUESTION
  {
    if n == 0 then [] else [QUESTION] + MarkBytes(n - 1)
  }

  lemma {:induction false} ParseHead(p: Str, term: Term, q: Str)
    requires p != [] && ParseTerm(p) == Some((term, q))
    ensures Parse(p) == if Parse(q).Some? then Some([term] + Parse(q).value) else None
  {}

  lemma {:induction false} ParseMarkBytes(n: nat, rest: Str)
    ensures Parse(MarkBytes(n) + rest) == if Parse(rest).Some? then Some(Marks(n) + Parse(rest).value) else None
  {
    if n == 0 {
      assert MarkBytes(0) + rest == rest;
      if Parse(rest).Some? { assert Marks(0) + Parse(rest).value == Parse(rest).value; }
    } else {
      ParseMarkBytes(n - 1, rest);
      ConcatAssoc([QUESTION], MarkBytes(n - 1), rest);
      var p, q := MarkBytes(n) + rest, MarkBytes(n - 1) + rest;
      assert p[1..] == q;
      ParseHead(p, AnyRune, q);
      if Parse(rest).Some? { ConcatAssoc([AnyRune], Marks(n - 1), Parse(rest).value); }
    }
  }

  lemma {:induction false} ParseAllMarks(n: nat)
    ensures Parse(MarkBytes(n)) == Some(Marks(n))
  {
    ParseMarkBytes(n, []);
    assert MarkBytes(n) + [] == MarkBytes(n) && Marks(n) + [] == Marks(n);
  }

  lemma {:induction false} ParseStar(p: Str)
    requires Parse(p).Some?
    ensures Parse([STAR] + p) == Some([Star] + Parse(p).value)
  {
    assert ([STAR] + p)[1..] == p;
    ParseHead([STAR] + p, Star, p);
  }

  lemma {:induction false} ConsumeMark(s: Str)
    requires s != [] && s[0] != SLASH
    ensures Consume([AnyRune], s) == Some(s[DecodeRune(s).1..])
  {
    assert [AnyRune][1..] == [];
  }

  lemma {:induction false} MarksStep(n: nat, s: Str)
    requires s != [] && s[0] != SLASH
    ensures Consume(Marks(n + 1), s) == Consume(Marks(n), s[DecodeRune(s).1..])
  {
    assert Marks(n + 1)[1..] == Marks(n);
  }

  /** As many question marks as there are characters up to a boundary take just these. */
  lemma {:induction false} MarksTakeFront(s: Str, k: nat)
    requires k <= |s| && SLASH !in s && Boundary(s, k)
    ensures Consume(Marks(Count(s, k)), s) == Some(s[k..])
    decreases |s|
  {
    if k == 0 {
      assert s[0..] == s;
    } else {
      var w := DecodeRune(s).1;
      var t, j := Peel(s, w, k);
      SuffixSlashFree(s, w);
      MarksTakeFront(t, j);
      MarksStep(Count(t, j), s);
    }
  }

  /** Only question marks and classes. */
  predicate Wild(chunk: seq<Term>) { StarFree(chunk) && forall i :: 0 <= i < |chunk| ==> !chunk[i].Lit? }

  /** These take a character each. */
  lemma {:induction false} WildTakesAll(chunk: seq<Term>, s: Str)
    requires Wild(chunk) && Consume(chunk, s) == Some([])
    ensures Chars(s) == |chunk|
    decreases |chunk|
  {
    if chunk != [] {
      var w := Width(chunk[0], s);
      assert !chunk[0].Lit?;
      WildTakesAll(chunk[1..], s[w..]);
    }
  }

  /** Question marks take the whole text exactly when there are as many of them as characters. */
  lemma {:induction false} MarksTakeAllIff(n: nat, s: Str)
    requires SLASH !in s
    ensures Consume(Marks(n), s) == Some([]) <==> n == Chars(s)
    decreases |s|
  {
    if s != [] && n > 0 {
      var w := DecodeRune(s).1;
      SuffixSlashFree(s, w);
      MarksStep(n - 1, s);
      MarksTakeAllIff(n - 1, s[w..]);
    }
  }

  // --- question marks in front, and a star ---

  lemma {:induction false} GlobBehindMarks(name: Str, i: nat, terms: seq<Term>)
    requires i <= |name| && SLASH !in name && Boundary(name, i)
    ensures Glob(Marks(Count(name, i)) + terms, name) <==> Glob(terms, name[i..])
  {
    MarksTakeFront(name, i);
    GlobConsume(Marks(Count(name, i)), terms, name);
  }

  lemma {:induction false} ScanBehindMarks(name: Str, i: nat, terms: seq<Term>)
    requires i <= |name| && SLASH !in name && Boundary(name, i) && terms != [] && terms[0].Star?
    ensures Scan(Marks(Count(name, i)) + terms, name) <==> Scan(terms, name[i..])
  {
    var n := Count(name, i);
    if n == 0 {
      assert name[0..] == name && Marks(0) + terms == terms;
    } else {
      MarksTakeFront(name, i);
      RunOfChunk(Marks(n), terms);
      ScanStep(Marks(n) + terms, Marks(n), terms, name, name[i..]);
    }
  }

  /** A star and a last chunk: the scan looks for a place from which the chunk takes the rest. */
  predicate FitsAtEnd(chunk: seq<Term>, s: Str)
    requires StarFree(chunk)
  {
    exists k :: 0 <= k <= |s| && Consume(chunk, s[k..]) == Some([])
  }

  lemma {:induction false} ScanLastChunk(chunk: seq<Term>, s: Str)
    requires StarFree(chunk) && chunk != [] && SLASH !in s
    ensures Scan([Star] + chunk, s) <==> FitsAtEnd(chunk, s)
  {
    LastChunk(chunk);
    if FirstFit(chunk, s, true, true).Some? {
      var k := FirstFitPlace(chunk, s, true, true);
      assert Consume(chunk, s[k..]) == Some([]);
    }
    if k :| 0 <= k <= |s| && Consume(chunk, s[k..]) == Some([]) {
      var j := FirstFitFound(chunk, s, true, true, k);
    }
  }

  lemma {:induction false} LastChunk(chunk: seq<Term>)
    requires StarFree(chunk) && chunk != []
    ensures DropStars([Star] + chunk) == chunk && RunLength(chunk) == |chunk|
    ensures chunk[..|chunk|] == chunk && chunk[|chunk|..] == []
  {
    assert ([Star] + chunk)[1..] == chunk;
    RunOfChunk(chunk, []);
    assert chunk + [] == chunk;
  }
}
