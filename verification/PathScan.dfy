/** The algorithm of Go's path.Match: chunk by chunk, each chunk behind a star at the first place where it fits. */
module PathScan {
  import opened Basics
  import opened PathGlob
  import opened Utf8

  /** The bytes that a term other than a star takes at the start of `s`; 0 stands for "no match". */
  function Width(term: Term, s: Str): (w: nat)
    requires !term.Star?
    ensures w <= |s|
  {
    if s == [] then 0
    else match term
      case Lit(b) => if s[0] == b then 1 else 0
      case AnyRune => if s[0] == SLASH then 0 else DecodeRune(s).1
      case Class(_, _) => if InClass(DecodeRune(s).0, term) then DecodeRune(s).1 else 0
  }

  predicate StarFree(terms: seq<Term>) { Star !in terms }

  /** matchChunk: what is left of `s` behind the terms. */
  function Consume(terms: seq<Term>, s: Str): (rest: Option<Str>)
    requires StarFree(terms)
    ensures rest.Some? ==> |rest.value| <= |s|
    decreases |terms|
  {
    if terms == [] then Some(s)
    else
      var w := Width(terms[0], s);
      if w == 0 then None else Consume(terms[1..], s[w..])
  }

  /** The first place, here or behind a star further on, where the chunk fits; the last chunk has to reach the end. */
  function FirstFit(chunk: seq<Term>, name: Str, star: bool, last: bool): (rest: Option<Str>)
    requires StarFree(chunk)
    decreases |name|
  {
    var t := Consume(chunk, name);
    if t.Some? && (t.value == [] || !last) then t
    else if !star || name == [] || name[0] == SLASH then None
    else FirstFit(chunk, name[1..], star, last)
  }

  function DropStars(terms: seq<Term>): (body: seq<Term>)
    ensures |body| <= |terms| && (body != [] ==> !body[0].Star?)
    ensures terms != [] && terms[0].Star? ==> |body| < |terms|
    ensures terms == [] || !terms[0].Star? ==> body == terms
  {
    if terms != [] && terms[0].Star? then DropStars(terms[1..]) else terms
  }

  /** How many terms stand in front of the first star. */
  function RunLength(terms: seq<Term>): (n: nat)
    ensures n <= |terms| && StarFree(terms[..n])
    ensures n < |terms| ==> terms[n].Star?
    ensures terms != [] && !terms[0].Star? ==> n > 0
  {
    if terms == [] || terms[0].Star? then 0
    else
      var n := 1 + RunLength(terms[1..]);
      assert terms[..n] == [terms[0]] + terms[1..][..n - 1];
      n
  }

  /** path.Match on a pattern's terms. */
  predicate Scan(terms: seq<Term>, name: Str)
    decreases |terms|
  {
    if terms == [] then name == []
    else
      var body := DropStars(terms);
      var n := RunLength(body);
      if n == 0 then SLASH !in name
      else
        var t := FirstFit(body[..n], name, terms[0].Star?, body[n..] == []);
        t.Some? && Scan(body[n..], t.value)
  }

  /** path.Match; a malformed pattern matches nothing. */
  predicate PathMatch(pattern: Str, name: Str)
  {
    Parse(pattern).Some? && Scan(Parse(pattern).value, name)
  }

  // --- the scan and the relation ---

  lemma {:induction false} WidthTakes(term: Term, s: Str, k: nat)
    requires !term.Star? && SLASH !in s && k <= |s|
    ensures Takes(term, s, k) <==> k > 0 && k == Width(term, s)
  {}

  lemma {:induction false} GlobConsume(chunk: seq<Term>, rest: seq<Term>, s: Str)
    requires StarFree(chunk) && SLASH !in s
    ensures Glob(chunk + rest, s) <==> Consume(chunk, s).Some? && Glob(rest, Consume(chunk, s).value)
    decreases |chunk|
  {
    var terms := chunk + rest;
    if chunk == [] {
      assert terms == rest;
    } else {
      assert terms[0] == chunk[0] && terms[1..] == chunk[1..] + rest;
      var w := Width(chunk[0], s);
      forall k | 0 <= k <= |s| ensures Takes(terms[0], s, k) <==> k > 0 && k == w { WidthTakes(chunk[0], s, k); }
      if w > 0 {
        GlobConsume(chunk[1..], rest, s[w..]);
        if Glob(chunk[1..] + rest, s[w..]) { assert Takes(terms[0], s, w) && Glob(terms[1..], s[w..]); }
      }
    }
  }

  /** Stars in front stand for any part of a slash-free text. */
  predicate GlobFrom(terms: seq<Term>, s: Str)
  {
    exists k :: 0 <= k <= |s| && Glob(terms, s[k..])
  }

  lemma {:induction false} GlobStars(terms: seq<Term>, s: Str)
    requires terms != [] && terms[0].Star? && SLASH !in s
    ensures Glob(terms, s) <==> GlobFrom(DropStars(terms), s)
    decreases |terms|
  {
    var rest := terms[1..];
    if Glob(terms, s) {
      var k :| 0 <= k <= |s| && Takes(terms[0], s, k) && Glob(rest, s[k..]);
      if rest != [] && rest[0].Star? {
        GlobStars(rest, s[k..]);
        var j :| 0 <= j <= |s[k..]| && Glob(DropStars(rest), s[k..][j..]);
        assert s[k..][j..] == s[k + j..];
      }
    }
    if GlobFrom(DropStars(terms), s) {
      var k :| 0 <= k <= |s| && Glob(DropStars(terms), s[k..]);
      if rest != [] && rest[0].Star? {
        assert s[0..] == s;
        GlobStars(rest, s);
        assert Takes(terms[0], s, 0) && Glob(rest, s[0..]);
      } else {
        assert Takes(terms[0], s, k) && Glob(rest, s[k..]);
      }
    }
  }

  /** Where the chunk fits first: some place at or behind the start, and none in front of it. */
  lemma {:induction false} FirstFitPlace(chunk: seq<Term>, name: Str, star: bool, last: bool) returns (k: nat)
    requires StarFree(chunk) && SLASH !in name && FirstFit(chunk, name, star, last).Some?
    ensures k <= |name| && (k > 0 ==> star)
    ensures Consume(chunk, name[k..]) == FirstFit(chunk, name, star, last)
    ensures last ==> FirstFit(chunk, name, star, last).value == []
    decreases |name|
  {
    var t := Consume(chunk, name);
    if t.Some? && (t.value == [] || !last) {
      k := 0;
      assert name[0..] == name;
    } else {
      var j := FirstFitPlace(chunk, name[1..], star, last);
      k := j + 1;
      assert name[1..][j..] == name[k..];
    }
  }

  /** A chunk that fits somewhere is found, no further on. */
  lemma {:induction false} FirstFitFound(chunk: seq<Term>, name: Str, star: bool, last: bool, k: nat) returns (j: nat)
    requires StarFree(chunk) && SLASH !in name && k <= |name| && (k > 0 ==> star)
    requires Consume(chunk, name[k..]).Some? && (last ==> Consume(chunk, name[k..]).value == [])
    ensures j <= k && FirstFit(chunk, name, star, last).Some?
    ensures FirstFit(chunk, name, star, last) == Consume(chunk, name[j..])
    ensures last ==> FirstFit(chunk, name, star, last).value == []
    decreases |name|
  {
    assert name[0..] == name;
    var t := Consume(chunk, name);
    if t.Some? && (t.value == [] || !last) {
      j := 0;
    } else {
      assert k > 0 && name[1..][k - 1..] == name[k..];
      var i := FirstFitFound(chunk, name[1..], star, last, k - 1);
      j := i + 1;
      assert name[1..][i..] == name[j..];
    }
  }

  lemma {:induction false} SuffixSlashFree(s: Str, k: nat)
    requires k <= |s| && SLASH !in s
    ensures SLASH !in s[k..]
  {}

  /** The terms behind the leading stars: a run without stars, and what follows it. */
  lemma {:induction false} Cut(terms: seq<Term>) returns (chunk: seq<Term>, rest: seq<Term>)
    requires terms != []
    ensures DropStars(terms) == chunk + rest && StarFree(chunk) && |rest| < |terms|
    ensures chunk == DropStars(terms)[..RunLength(DropStars(terms))]
    ensures rest == DropStars(terms)[RunLength(DropStars(terms))..]
    ensures rest != [] ==> rest[0].Star? && chunk != []
    ensures chunk == [] ==> terms[0].Star?
  {
    var body := DropStars(terms);
    var n := RunLength(body);
    chunk, rest := body[..n], body[n..];
  }

  /** What path.Match accepts, the pattern stands for. */
  lemma {:induction false} ScanWithinGlob(terms: seq<Term>, name: Str)
    requires SLASH !in name && Scan(terms, name)
    ensures Glob(terms, name)
    decreases |terms|
  {
    if terms != [] {
      var chunk, rest := Cut(terms);
      if chunk == [] {
        assert name[|name|..] == [] && Glob([], name[|name|..]);
        GlobStars(terms, name);
      } else {
        var star := terms[0].Star?;
        var t := FirstFit(chunk, name, star, rest == []).value;
        var k := FirstFitPlace(chunk, name, star, rest == []);
        SuffixSlashFree(name, k);
        EndConsumes(chunk, name, k);
        SuffixSlashFree(name, End(chunk, name, k).value);
        ScanWithinGlob(rest, t);
        GlobConsume(chunk, rest, name[k..]);
        if star { GlobStars(terms, name); } else { assert name[0..] == name; }
      }
    }
  }

  predicate OnlyLiterals(terms: seq<Term>) { forall i :: 0 <= i < |terms| ==> terms[i].Lit? || terms[i].Star? }

  /** No well-formed rune of three or four bytes anywhere in the name. */
  predicate Narrow(name: Str) { forall i :: 0 <= i < |name| ==> NarrowAt(name, i) }

  predicate NarrowAt(name: Str, i: nat)
    requires i < |name|
  {
    DecodeRune(name[i..]).1 <= 2
  }

  lemma {:induction false} NarrowSuffix(name: Str, k: nat)
    requires k <= |name| && Narrow(name)
    ensures Narrow(name[k..])
  {
    var s := name[k..];
    forall i | 0 <= i < |s| ensures NarrowAt(s, i) {
      assert NarrowAt(name, k + i);
      assert s[i..] == name[k + i..];
    }
  }

  predicate Slow(chunk: seq<Term>, s: Str) { OnlyLiterals(chunk) || Narrow(s) }

  /** Where the chunk ends that starts at `j`. */
  function End(chunk: seq<Term>, s: Str, j: nat): (e: Option<nat>)
    requires StarFree(chunk) && j <= |s|
    ensures e.Some? ==> j <= e.value <= |s|
    decreases |chunk|
  {
    if chunk == [] then Some(j)
    else
      var w := Width(chunk[0], s[j..]);
      if w == 0 then None else End(chunk[1..], s, j + w)
  }

  lemma {:induction false} DropTwice(s: Str, j: nat, w: nat)
    requires j + w <= |s|
    ensures s[j..][w..] == s[j + w..]
  {}

  /** The first term of a chunk, and the place behind it. */
  lemma {:induction false} OneTerm(chunk: seq<Term>, s: Str, j: nat) returns (rest: seq<Term>, j': nat)
    requires StarFree(chunk) && chunk != [] && j <= |s|
    ensures j <= j' <= |s| && StarFree(rest) && |rest| < |chunk|
    ensures j' == j ==> Consume(chunk, s[j..]) == None && End(chunk, s, j) == None
    ensures j' > j ==> Consume(chunk, s[j..]) == Consume(rest, s[j'..]) && End(chunk, s, j) == End(rest, s, j')
  {
    var w := Width(chunk[0], s[j..]);
    rest, j' := chunk[1..], j + w;
    DropTwice(s, j, w);
  }

  /** What the scan leaves of the text is what stands behind that end. */
  predicate LeftBehind(chunk: seq<Term>, s: Str, j: nat, left: Option<Str>)
    requires StarFree(chunk) && j <= |s|
  {
    left == if End(chunk, s, j).None? then None else Some(s[End(chunk, s, j).value..])
  }

  lemma {:induction false} EndConsumes(chunk: seq<Term>, s: Str, j: nat)
    requires StarFree(chunk) && j <= |s|
    ensures LeftBehind(chunk, s, j, Consume(chunk, s[j..]))
    decreases |chunk|
  {
    if chunk != [] {
      var rest, j' := OneTerm(chunk, s, j);
      if j' > j { EndConsumes(rest, s, j'); }
    }
  }

  /** The first term's bytes, and how many they can be. */
  lemma {:induction false} EndStep(chunk: seq<Term>, s: Str, j: nat) returns (v: nat)
    requires StarFree(chunk) && chunk != [] && j <= |s| && End(chunk, s, j).Some?
    ensures v > 0 && v == Width(chunk[0], s[j..]) && j + v <= |s| && End(chunk, s, j) == End(chunk[1..], s, j + v)
    ensures OnlyLiterals(chunk) ==> v == 1
    ensures Narrow(s) ==> v <= 2
  {
    v := Width(chunk[0], s[j..]);
    if Narrow(s) { assert NarrowAt(s, j); }
  }

  /** One term further, from both starts. */
  lemma {:induction false} BothStep(chunk: seq<Term>, s: Str, j: nat, k: nat) returns (rest: seq<Term>, j': nat, k': nat)
    requires StarFree(chunk) && chunk != [] && j < k <= |s| && Slow(chunk, s)
    requires End(chunk, s, j).Some? && End(chunk, s, k).Some?
    ensures StarFree(rest) && |rest| < |chunk| && Slow(rest, s) && j' <= k' <= |s|
    ensures End(chunk, s, j) == End(rest, s, j') && End(chunk, s, k) == End(rest, s, k')
  {
    var v := EndStep(chunk, s, j);
    var w := EndStep(chunk, s, k);
    SlowTail(chunk, s);
    rest, j', k' := chunk[1..], j + v, k + w;
  }

  /** A chunk that starts later ends no earlier: literals take a byte each, and no rune of two bytes overtakes. */
  lemma {:induction false} LaterEndsLater(chunk: seq<Term>, s: Str, j: nat, k: nat)
    requires StarFree(chunk) && j <= k <= |s| && Slow(chunk, s)
    requires End(chunk, s, j).Some? && End(chunk, s, k).Some?
    ensures End(chunk, s, j).value <= End(chunk, s, k).value
    decreases |chunk|
  {
    if chunk != [] && j < k {
      var rest, j', k' := BothStep(chunk, s, j, k);
      LaterEndsLater(rest, s, j', k');
    }
  }

  lemma {:induction false} SlowTail(chunk: seq<Term>, s: Str)
    requires StarFree(chunk) && chunk != [] && Slow(chunk, s)
    ensures StarFree(chunk[1..]) && Slow(chunk[1..], s)
  {
    if OnlyLiterals(chunk) { assert OnlyLiterals(chunk[1..]); }
  }

  lemma {:induction false} OnlyLiteralsParts(chunk: seq<Term>, rest: seq<Term>, terms: seq<Term>)
    requires OnlyLiterals(terms) && DropStars(terms) == chunk + rest
    ensures OnlyLiterals(chunk) && OnlyLiterals(rest)
  {
    DropStarsLiterals(terms);
    var body := DropStars(terms);
    forall i | 0 <= i < |chunk| ensures chunk[i].Lit? || chunk[i].Star? { assert body[i] == chunk[i]; }
    forall i | 0 <= i < |rest| ensures rest[i].Lit? || rest[i].Star? { assert body[|chunk| + i] == rest[i]; }
  }

  lemma {:induction false} DropStarsLiterals(terms: seq<Term>)
    requires OnlyLiterals(terms)
    ensures OnlyLiterals(DropStars(terms))
  {
    if terms != [] && terms[0].Star? { DropStarsLiterals(terms[1..]); }
  }

  /** A pattern that starts with a star and fits a suffix fits the longer text too. */
  lemma {:induction false} StarAbsorbs(terms: seq<Term>, s: Str, k: nat)
    requires terms != [] && terms[0].Star? && SLASH !in s && k <= |s| && Glob(terms, s[k..])
    ensures Glob(terms, s)
  {
    SuffixSlashFree(s, k);
    GlobStars(terms, s[k..]);
    var j :| 0 <= j <= |s[k..]| && Glob(DropStars(terms), s[k..][j..]);
    assert s[k..][j..] == s[k + j..];
    GlobStars(terms, s);
  }

  /** A middle chunk is scanned where it first fits; the star behind it makes up for the difference. */
  lemma {:induction false} MiddleScanned(chunk: seq<Term>, rest: seq<Term>, name: Str, j: nat, k: nat)
    requires StarFree(chunk) && SLASH !in name && Slow(chunk, name) && rest != [] && rest[0].Star?
    requires j <= k <= |name| && End(chunk, name, j).Some? && End(chunk, name, k).Some?
    requires Glob(rest, name[End(chunk, name, k).value..])
    ensures Glob(rest, name[End(chunk, name, j).value..])
  {
    LaterEndsLater(chunk, name, j, k);
    var d, e := End(chunk, name, j).value, End(chunk, name, k).value;
    SuffixSlashFree(name, d);
    assert name[d..][e - d..] == name[e..];
    StarAbsorbs(rest, name[d..], e - d);
  }

  /** The scan of a chunk that stands at `k`: it ends there or in front of it, and the rest of the pattern still fits. */
  lemma {:induction false} ChunkScanned(star: bool, chunk: seq<Term>, rest: seq<Term>, name: Str, k: nat)
    returns (e: nat)
    requires StarFree(chunk) && SLASH !in name && (star && rest != [] ==> Slow(chunk, name))
    requires k <= |name| && (k > 0 ==> star) && (rest != [] ==> rest[0].Star?)
    requires Consume(chunk, name[k..]).Some? && Glob(rest, Consume(chunk, name[k..]).value)
    ensures e <= |name| && FirstFit(chunk, name, star, rest == []) == Some(name[e..]) && Glob(rest, name[e..])
  {
    EndConsumes(chunk, name, k);
    var j := FirstFitFound(chunk, name, star, rest == [], k);
    EndConsumes(chunk, name, j);
    e := End(chunk, name, j).value;
    if rest != [] && star { MiddleScanned(chunk, rest, name, j, k); }
  }

  lemma {:induction false} ScanStep(terms: seq<Term>, chunk: seq<Term>, rest: seq<Term>, name: Str, u: Str)
    requires terms != [] && chunk != [] && StarFree(chunk) && |rest| < |terms|
    requires chunk == DropStars(terms)[..RunLength(DropStars(terms))]
    requires rest == DropStars(terms)[RunLength(DropStars(terms))..]
    requires FirstFit(chunk, name, terms[0].Star?, rest == []) == Some(u)
    ensures Scan(terms, name) <==> Scan(rest, u)
  {}

  /** Between two stars there are only literals: the chunks that path.Match never comes back to. */
  predicate SettledChunks(terms: seq<Term>)
    decreases |terms|
  {
    terms == [] ||
    var body := DropStars(terms);
    var n := RunLength(body);
    n == 0 ||
    ((terms[0].Star? && n < |body| ==> OnlyLiterals(body[..n])) && SettledChunks(body[n..]))
  }

  lemma {:induction false} LiteralsSettled(terms: seq<Term>)
    requires OnlyLiterals(terms)
    ensures SettledChunks(terms)
    decreases |terms|
  {
    if terms != [] {
      var chunk, rest := Cut(terms);
      OnlyLiteralsParts(chunk, rest, terms);
      if chunk != [] { LiteralsSettled(rest); }
    }
  }

  /** With literals between its stars on any name, and any pattern on a narrow name: path.Match misses nothing. */
  lemma {:induction false} GlobWithinScan(terms: seq<Term>, name: Str)
    requires SLASH !in name && Glob(terms, name) && (SettledChunks(terms) || Narrow(name))
    ensures Scan(terms, name)
    decreases |terms|
  {
    if terms != [] {
      var chunk, rest := Cut(terms);
      if chunk != [] {
        var k := ChunkPlace(terms, chunk, rest, name);
        SuffixSlashFree(name, k);
        GlobConsume(chunk, rest, name[k..]);
        var e := ChunkScanned(terms[0].Star?, chunk, rest, name, k);
        SuffixSlashFree(name, e);
        if Narrow(name) { NarrowSuffix(name, e); }
        GlobWithinScan(rest, name[e..]);
        ScanStep(terms, chunk, rest, name, name[e..]);
      }
    }
  }

  /** Where the chunk stands in a text that the pattern stands for. */
  lemma {:induction false} ChunkPlace(terms: seq<Term>, chunk: seq<Term>, rest: seq<Term>, name: Str) returns (k: nat)
    requires terms != [] && DropStars(terms) == chunk + rest && SLASH !in name && Glob(terms, name)
    ensures k <= |name| && (k > 0 ==> terms[0].Star?) && Glob(chunk + rest, name[k..])
  {
    if terms[0].Star? {
      GlobStars(terms, name);
      k :| 0 <= k <= |name| && Glob(chunk + rest, name[k..]);
    } else {
      k := 0;
      assert name[0..] == name;
    }
  }

  // --- literals ---

  function Lits(s: Str): (terms: seq<Term>)
    ensures |terms| == |s| && forall i :: 0 <= i < |s| ==> terms[i] == Lit(s[i])
  {
    if s == [] then [] else [Lit(s[0])] + Lits(s[1..])
  }

  lemma {:induction false} ConsumeLits(t: Str, s: Str)
    ensures Consume(Lits(t), s) == if t <= s then Some(s[|t|..]) else None
    decreases |t|
  {
    if t != [] && s != [] && s[0] == t[0] {
      ConsumeLits(t[1..], s[1..]);
      assert Lits(t)[1..] == Lits(t[1..]);
      assert t <= s <==> t[1..] <= s[1..] by { assert t == [t[0]] + t[1..] && s == [s[0]] + s[1..]; }
    }
  }

  lemma {:induction false} GlobLits(t: Str, rest: seq<Term>, s: Str)
    requires SLASH !in t && SLASH !in s
    ensures Glob(Lits(t) + rest, t + s) <==> Glob(rest, s)
  {
    GlobConsume(Lits(t), rest, t + s);
    ConsumeLits(t, t + s);
    assert (t + s)[|t|..] == s;
  }

  /** Literals that are longer than the text fit nowhere in it. */
  lemma {:induction false} LitsTooLong(t: Str, s: Str, last: bool)
    requires |s| < |t| && SLASH !in s
    ensures FirstFit(Lits(t), s, true, last).None?
  {
    if FirstFit(Lits(t), s, true, last).Some? {
      var k := FirstFitPlace(Lits(t), s, true, last);
      ConsumeLits(t, s[k..]);
      assert false;
    }
  }

  lemma {:induction false} CutLastStar(tail: Str)
    requires tail != []
    ensures DropStars([Star] + Lits(tail)) == Lits(tail) && RunLength(Lits(tail)) == |tail|
  {
    assert ([Star] + Lits(tail))[1..] == Lits(tail);
    RunOfLits(tail, []);
    assert Lits(tail) + [] == Lits(tail);
  }

  lemma {:induction false} RunOfLits(t: Str, rest: seq<Term>)
    requires rest == [] || rest[0].Star?
    ensures RunLength(Lits(t) + rest) == |t|
  {
    if t != [] {
      RunOfLits(t[1..], rest);
      assert (Lits(t) + rest)[1..] == Lits(t[1..]) + rest;
    } else {
      assert Lits(t) + rest == rest;
    }
  }

  lemma {:induction false} TailGlobbed(tail: Str)
    requires SLASH !in tail && tail != []
    ensures Glob([Star] + Lits(tail), tail)
  {
    GlobLits(tail, [], []);
    assert Lits(tail) + [] == Lits(tail) && tail + [] == tail;
    CutLastStar(tail);
    assert tail[0..] == tail;
    GlobStars([Star] + Lits(tail), tail);
  }
}
