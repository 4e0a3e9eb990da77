/** Where path.Match and the relation on its patterns agree. */
module PathAgreement {
  import opened Basics
  import opened PathChars
  import opened PathChunks
  import opened PathGlob
  import opened PathScan
  import opened Utf8

  /** path.Match accepts nothing that the relation does not. */
  lemma {:induction false} PathMatchWithinGlob(pattern: Str, name: Str)
    requires SLASH !in name && PathMatch(pattern, name)
    ensures GlobMatch(pattern, name)
  {
    ScanWithinGlob(Parse(pattern).value, name);
  }

  /** The chunks between the pattern's stars are literal, or it is malformed. */
  predicate Settled(pattern: Str) { Parse(pattern).Some? ==> SettledChunks(Parse(pattern).value) }

  /** And it accepts all that the relation does, if the chunks between stars are literal or the name is narrow. */
  lemma {:induction false} PathMatchIsGlob(pattern: Str, name: Str)
    requires SLASH !in name && (Settled(pattern) || Narrow(name))
    ensures PathMatch(pattern, name) <==> GlobMatch(pattern, name)
  {
    if PathMatch(pattern, name) { PathMatchWithinGlob(pattern, name); }
    if GlobMatch(pattern, name) { GlobWithinScan(Parse(pattern).value, name); }
  }

  /** Patterns of literals and stars. */
  lemma {:induction false} StarsOnly(pattern: Str)
    requires QUESTION !in pattern && LBRACKET !in pattern
    ensures Parse(pattern).Some? ==> OnlyLiterals(Parse(pattern).value)
    ensures Settled(pattern)
  {
    ParseStarsOnly(pattern);
    if Parse(pattern).Some? { LiteralsSettled(Parse(pattern).value); }
  }

  lemma {:induction false} ParseStarsOnly(pattern: Str)
    requires QUESTION !in pattern && LBRACKET !in pattern
    ensures Parse(pattern).Some? ==> OnlyLiterals(Parse(pattern).value)
    decreases |pattern|
  {
    if pattern != [] && ParseTerm(pattern).Some? {
      ParseStarsOnly(ParseTerm(pattern).value.1);
    }
  }

  // --- exactly the names on which the two agree for every pattern ---

  /** A question mark for each character in front of one of three or four bytes, then *?*?, and one for each behind it. */
  function TwicePattern(name: Str, i: nat): Str
    requires i < |name| && Boundary(name, i)
  {
    MarkBytes(Count(name, i)) +
    ([STAR, QUESTION, STAR] + MarkBytes(1 + Chars(name[i + DecodeRune(name[i..]).1..])))
  }

  function TwiceTerms(n: nat): seq<Term> { [Star] + ([AnyRune] + ([Star] + Marks(n))) }

  lemma {:induction false} ParseTwice(name: Str, i: nat)
    requires i < |name| && Boundary(name, i)
    ensures var n := Chars(name[i + DecodeRune(name[i..]).1..]);
      Parse(TwicePattern(name, i)) == Some(Marks(Count(name, i)) + TwiceTerms(1 + n))
  {
    var n := Chars(name[i + DecodeRune(name[i..]).1..]);
    ParseAllMarks(1 + n);
    ParseStar(MarkBytes(1 + n));
    ParseMarkBytes(1, [STAR] + MarkBytes(1 + n));
    assert MarkBytes(0) == [] && Marks(0) == [];
    assert MarkBytes(1) == [QUESTION] && Marks(1) == [AnyRune];
    ParseStar([QUESTION] + ([STAR] + MarkBytes(1 + n)));
    assert [STAR] + ([QUESTION] + ([STAR] + MarkBytes(1 + n))) == [STAR, QUESTION, STAR] + MarkBytes(1 + n);
    ParseMarkBytes(Count(name, i), [STAR, QUESTION, STAR] + MarkBytes(1 + n));
  }

  lemma {:induction false} TwiceReceivable(name: Str, i: nat)
    requires i < |name| && Boundary(name, i)
    ensures Receivable(TwicePattern(name, i)) && SLASH !in TwicePattern(name, i)
  {
    AsciiValid(TwicePattern(name, i));
  }

  /** The two question marks take the character's last two bytes. */
  lemma {:induction false} TwiceGlobbed(s: Str)
    requires SLASH !in s && s != [] && DecodeRune(s).1 >= 3
    ensures Glob(TwiceTerms(1 + Chars(s[DecodeRune(s).1..])), s)
  {
    var w := DecodeRune(s).1;
    var n := Chars(s[w..]);
    var t, u := s[w - 2..], s[w - 1..];
    InsideRune(s, w - 2);
    DropTwice(s, w - 2, 1);
    CharsInside(s, w - 1);
    SuffixSlashFree(s, w - 2);
    SuffixSlashFree(s, w - 1);
    MarksTakeAllIff(1 + n, u);
    StarThenMarks(1 + n, u);
    ConsumeMark(t);
    GlobConsume([AnyRune], [Star] + Marks(1 + n), t);
    StarSkips([AnyRune] + ([Star] + Marks(1 + n)), s, w - 2);
  }

  lemma {:induction false} StarSkips(terms: seq<Term>, s: Str, k: nat)
    requires terms != [] && !terms[0].Star? && SLASH !in s && k <= |s| && Glob(terms, s[k..])
    ensures Glob([Star] + terms, s)
  {
    assert ([Star] + terms)[1..] == terms;
    GlobStars([Star] + terms, s);
  }

  lemma {:induction false} StarThenMarks(n: nat, s: Str)
    requires SLASH !in s && n > 0 && Consume(Marks(n), s) == Some([])
    ensures Glob([Star] + Marks(n), s)
  {
    GlobConsume(Marks(n), [], s);
    assert Marks(n) + [] == Marks(n) && s[0..] == s;
    StarSkips(Marks(n), s, 0);
  }

  /** The scan gives the first one the whole character, and then there are too many for what is left. */
  lemma {:induction false} TwiceRefused(s: Str)
    requires SLASH !in s && s != [] && DecodeRune(s).1 >= 3 && Narrow(s[DecodeRune(s).1..])
    ensures !Scan(TwiceTerms(1 + Chars(s[DecodeRune(s).1..])), s)
  {
    var rest := s[DecodeRune(s).1..];
    var n := Chars(rest);
    var last := [Star] + Marks(1 + n);
    SuffixSlashFree(s, DecodeRune(s).1);
    TooManyMarks(1 + n, rest);
    ScanLastChunk(Marks(1 + n), rest);
    ConsumeMark(s);
    assert ([Star] + ([AnyRune] + last))[1..] == [AnyRune] + last;
    RunOfChunk([AnyRune], last);
    ScanStep(TwiceTerms(1 + n), [AnyRune], last, s, rest);
  }

  lemma {:induction false} TooManyMarks(n: nat, s: Str)
    requires SLASH !in s && Narrow(s) && n > Chars(s)
    ensures !FitsAtEnd(Marks(n), s)
  {
    forall k | 0 <= k <= |s| ensures Consume(Marks(n), s[k..]) != Some([]) {
      SuffixSlashFree(s, k);
      MarksTakeAllIff(n, s[k..]);
      CharsOfNarrow(s, k);
    }
  }

  /** A character of three or four bytes makes the difference. */
  lemma {:induction false} WideDiffers(name: Str) returns (pattern: Str)
    requires SLASH !in name && !Narrow(name)
    ensures Receivable(pattern) && SLASH !in pattern
    ensures GlobMatch(pattern, name) && !PathMatch(pattern, name)
  {
    var i := LastWide(name);
    WideIsCharacter(name, i);
    pattern := TwicePattern(name, i);
    TwiceReceivable(name, i);
    TwiceDiffers(name, i);
  }

  lemma {:induction false} TwiceDiffers(name: Str, i: nat)
    requires SLASH !in name && i < |name| && DecodeRune(name[i..]).1 >= 3 && Boundary(name, i)
    requires Narrow(name[i + DecodeRune(name[i..]).1..])
    ensures GlobMatch(TwicePattern(name, i), name) && !PathMatch(TwicePattern(name, i), name)
  {
    ParseTwice(name, i);
    var n := TwiceBehind(name, i);
    GlobBehindMarks(name, i, TwiceTerms(1 + n));
    ScanBehindMarks(name, i, TwiceTerms(1 + n));
  }

  lemma {:induction false} TwiceBehind(name: Str, i: nat) returns (n: nat)
    requires SLASH !in name && i < |name| && DecodeRune(name[i..]).1 >= 3
    requires Narrow(name[i + DecodeRune(name[i..]).1..])
    ensures n == Chars(name[i + DecodeRune(name[i..]).1..])
    ensures Glob(TwiceTerms(1 + n), name[i..]) && !Scan(TwiceTerms(1 + n), name[i..])
  {
    var w := DecodeRune(name[i..]).1;
    n := Chars(name[i + w..]);
    SuffixSlashFree(name, i);
    DropTwice(name, i, w);
    TwiceGlobbed(name[i..]);
    TwiceRefused(name[i..]);
  }

  /** The names on which path.Match and the relation agree, for every pattern that a key can hold, are the narrow ones. */
  lemma {:induction false} AgreeIffNarrow(name: Str)
    requires SLASH !in name
    ensures (forall pattern :: Receivable(pattern) && SLASH !in pattern ==>
              (PathMatch(pattern, name) <==> GlobMatch(pattern, name)))
      <==> Narrow(name)
  {
    if Narrow(name) {
      forall pattern | SLASH !in pattern ensures PathMatch(pattern, name) <==> GlobMatch(pattern, name) {
        PathMatchIsGlob(pattern, name);
      }
    } else {
      var pattern := WideDiffers(name);
    }
  }

  /** The euro sign and an X. */
  const EURO_X: Str := [0xE2, 0x82, 0xAC, 88]

  /** The pattern *??*X. */
  const TWO_MARKS: Str := [STAR, QUESTION, QUESTION, STAR, 88]

  lemma {:induction false} ParseTwoMarks()
    ensures Parse(TWO_MARKS) == Some([Star] + ([AnyRune, AnyRune] + ([Star] + Lits([88]))))
  {
    var b, c: Str, d: Str := [QUESTION, STAR, 88], [STAR, 88], [88];
    var a: Str := [QUESTION, QUESTION, STAR, 88];
    assert TWO_MARKS[1..] == a && a[1..] == b && b[1..] == c && c[1..] == d && d[1..] == [];
    ParseHead(d, Lit(88), []);
    ParseHead(c, Star, d);
    ParseHead(b, AnyRune, c);
    ParseHead(a, AnyRune, b);
    ParseHead(TWO_MARKS, Star, a);
    assert [Lit(88)] + [] == Lits([88]);
    assert [AnyRune] + ([AnyRune] + ([Star] + Lits([88]))) == [AnyRune, AnyRune] + ([Star] + Lits([88]));
  }

  lemma {:induction false} ConsumeTwoMarks(s: Str, t: Str, u: Str)
    requires s != [] && s[0] != SLASH && s[DecodeRune(s).1..] == t
    requires t != [] && t[0] != SLASH && t[DecodeRune(t).1..] == u
    ensures Consume([AnyRune, AnyRune], s) == Some(u)
  {
    assert [AnyRune, AnyRune][1..] == [AnyRune];
    ConsumeMark(t);
  }

  /** The terms behind the pattern's first star. */
  lemma {:induction false} CutTwoMarks(rest: seq<Term>)
    requires rest == [Star] + Lits([88])
    ensures var marks := [AnyRune, AnyRune];
      DropStars([Star] + (marks + rest)) == marks + rest && RunLength(marks + rest) == 2 &&
      (marks + rest)[..2] == marks && (marks + rest)[2..] == rest
  {
    assert ([Star] + ([AnyRune, AnyRune] + rest))[1..] == [AnyRune, AnyRune] + rest;
    RunOfChunk([AnyRune, AnyRune], rest);
  }

  /** Two question marks take the euro sign and the X, and nothing is left for the X of the pattern. */
  lemma {:induction false} TwoMarksRefused()
    ensures !PathMatch(TWO_MARKS, EURO_X)
  {
    ParseTwoMarks();
    var marks, rest := [AnyRune, AnyRune], [Star] + Lits([88]);
    CutTwoMarks(rest);
    var x: Str := [88];
    assert EURO_X[3..] == x && x[1..] == [];
    ConsumeTwoMarks(EURO_X, x, []);
    ScanStep([Star] + (marks + rest), marks, rest, EURO_X, []);
    CutLastStar(x);
    LitsTooLong(x, [], true);
    assert Lits(x)[..1] == Lits(x) && Lits(x)[1..] == [];
  }

  /** The relation lets them take the euro sign's last two bytes. */
  lemma {:induction false} TwoMarksGlobbed()
    ensures GlobMatch(TWO_MARKS, EURO_X)
  {
    ParseTwoMarks();
    var marks, rest := [AnyRune, AnyRune], [Star] + Lits([88]);
    CutTwoMarks(rest);
    var s: Str, t: Str, x: Str := [0x82, 0xAC, 88], [0xAC, 88], [88];
    assert EURO_X[1..] == s && s[1..] == t && t[1..] == x;
    ConsumeTwoMarks(s, t, x);
    TailGlobbed(x);
    GlobConsume(marks, rest, s);
    GlobStars([Star] + (marks + rest), EURO_X);
  }
}
