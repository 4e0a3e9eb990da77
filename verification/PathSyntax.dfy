/** What single patterns of path.Match stand for, byte by byte. */
module PathSyntax {
  import opened Basics
  import opened PathChars
  import opened PathGlob
  import opened PathScan
  import opened Utf8

  /** The text with a backslash in front of each byte that a pattern gives a meaning: * ? [ \ */
  function Quoted(s: Str): Str
  {
    if s == [] then []
    else QuotedByte(s[0]) + Quoted(s[1..])
  }

  function QuotedByte(b: byte): Str { if b in {42, 63, 91, 92} then [92, b] else [b] }

  lemma {:induction false} ReadQuoted(b: byte, q: Str)
    ensures ParseTerm(QuotedByte(b) + q) == Some((Lit(b), q))
  {
    var p := QuotedByte(b) + q;
    if b in {42, 63, 91, 92} {
      assert p[0] == BACKSLASH && p[1] == b && p[2..] == q;
    } else {
      assert p[0] == b && p[1..] == q;
    }
  }

  lemma {:induction false} ParseQuoted(s: Str, rest: Str)
    ensures Parse(Quoted(s) + rest) == if Parse(rest).Some? then Some(Lits(s) + Parse(rest).value) else None
    decreases |s|
  {
    if s == [] {
      assert Quoted(s) + rest == rest;
      if Parse(rest).Some? { assert Lits(s) + Parse(rest).value == Parse(rest).value; }
    } else {
      var q := Quoted(s[1..]) + rest;
      ParseQuoted(s[1..], rest);
      ConcatAssoc(QuotedByte(s[0]), Quoted(s[1..]), rest);
      ReadQuoted(s[0], q);
      ParseHead(QuotedByte(s[0]) + q, Lit(s[0]), q);
      if Parse(rest).Some? { ConcatAssoc([Lit(s[0])], Lits(s[1..]), Parse(rest).value); }
    }
  }

  lemma {:induction false} ScanChunk(chunk: seq<Term>, name: Str)
    requires StarFree(chunk)
    ensures Scan(chunk, name) <==> Consume(chunk, name) == Some([])
  {
    if chunk != [] {
      RunWhole(chunk);
      assert chunk[..|chunk|] == chunk;
      var t := FirstFit(chunk, name, false, true);
      assert t.Some? ==> (Scan([], t.value) <==> t.value == []);
    }
  }

  lemma {:induction false} RunWhole(chunk: seq<Term>)
    requires StarFree(chunk)
    ensures RunLength(chunk) == |chunk|
  {
    forall i | 0 <= i < |chunk| ensures !chunk[i].Star? { assert chunk[i] in chunk; }
  }

  /** A quoted text stands for itself alone; so does a text without those four bytes. */
  lemma {:induction false} QuotedIff(s: Str, name: Str)
    ensures PathMatch(Quoted(s), name) <==> name == s
    ensures 42 !in s && 63 !in s && 91 !in s && 92 !in s ==> Quoted(s) == s
  {
    ParseQuoted(s, []);
    assert Quoted(s) + [] == Quoted(s) && Lits(s) + [] == Lits(s);
    ScanChunk(Lits(s), name);
    ConsumeLits(s, name);
    if s <= name && name[|s|..] == [] { assert name == s; }
    if 42 !in s && 63 !in s && 91 !in s && 92 !in s { PlainQuoted(s); }
  }

  lemma {:induction false} PlainQuoted(s: Str)
    requires 42 !in s && 63 !in s && 91 !in s && 92 !in s
    ensures Quoted(s) == s
  {
    if s != [] { PlainQuoted(s[1..]); }
  }

  /** Without a class or a byte to quote, the backslash and the bracket make a pattern malformed. */
  lemma {:induction false} Malformed(s: Str, name: Str)
    ensures Parse(Quoted(s) + [92]) == None && Parse(Quoted(s) + [91]) == None && Parse(Quoted(s) + [91, 93]) == None
    ensures !PathMatch(Quoted(s) + [92], name) && !PathMatch(Quoted(s) + [91], name)
  {
    ParseQuoted(s, [92]);
    ParseQuoted(s, [91]);
    ParseQuoted(s, [91, 93]);
  }

  /** A star stands for every text without a slash, and question marks for the texts of as many characters. */
  lemma {:induction false} WildcardsIff(n: nat, name: Str)
    requires SLASH !in name
    ensures PathMatch([42], name)
    ensures PathMatch(seq(n, i => 63), name) <==> |Runes(name)| == n
  {
    assert [STAR][1..] == [] && Parse([]) == Some([]);
    ParseHead([STAR], Star, []);
    MarkBytesAre(n);
    ParseAllMarks(n);
    ScanChunk(Marks(n), name);
    MarksTakeAllIff(n, name);
    CharsAreRunes(name);
  }

  lemma {:induction false} MarkBytesAre(n: nat)
    ensures MarkBytes(n) == seq(n, i => 63)
  {
    forall i | 0 <= i < n ensures MarkBytes(n)[i] == 63 { assert MarkBytes(n)[i] in MarkBytes(n); }
  }

  lemma {:induction false} CharsAreRunes(s: Str)
    ensures Chars(s) == |Runes(s)|
    decreases |s|
  {
    if s != [] { CharsAreRunes(s[DecodeRune(s).1..]); }
  }

  // --- classes ---

  /** A bound of a range, with a backslash where it needs one: - [ ] \ ^ */
  function Bound(b: byte): Str { if b in {45, 91, 92, 93, 94} then [92, b] else [b] }

  /** A range of ASCII bytes other than the slash. */
  datatype Bytes = Bytes(lo: byte, hi: byte)

  predicate Plain(r: Bytes) { r.lo < 0x80 && r.hi < 0x80 && r.lo != 47 && r.hi != 47 }

  /** A single byte, or two with a dash between them. */
  function Written(r: Bytes): Str { if r.lo == r.hi then Bound(r.lo) else Bound(r.lo) + ([45] + Bound(r.hi)) }

  function WrittenAll(rs: seq<Bytes>): Str { if rs == [] then [] else Written(rs[0]) + WrittenAll(rs[1..]) }

  function RangesOf(rs: seq<Bytes>): (ranges: seq<Range>)
    ensures |ranges| == |rs| && forall i :: 0 <= i < |rs| ==> ranges[i] == Range(rs[i].lo as int, rs[i].hi as int)
  {
    seq(|rs|, i requires 0 <= i < |rs| => Range(rs[i].lo as int, rs[i].hi as int))
  }

  lemma {:induction false} ParseWrittenBound(b: byte, rest: Str)
    requires b < 0x80 && b != 47 && rest != []
    ensures ParseBound(Bound(b) + rest) == Some((b as int, rest))
  {
    var p := Bound(b) + rest;
    if b in {45, 91, 92, 93, 94} {
      assert p[0] == BACKSLASH && p[1..][0] == b && p[1..][1..] == rest;
    } else {
      assert p[0] == b && p[1..] == rest;
    }
  }

  lemma {:induction false} ParseWritten(r: Bytes, rest: Str)
    requires Plain(r) && rest != [] && rest[0] != 45
    ensures ParseRange(Written(r) + rest) == Some((Range(r.lo as int, r.hi as int), rest))
  {
    if r.lo == r.hi {
      ParseWrittenBound(r.lo, rest);
    } else {
      ParseWrittenBound(r.lo, [45] + (Bound(r.hi) + rest));
      ParseWrittenBound(r.hi, rest);
      DashBetween(Bound(r.lo), Bound(r.hi), rest);
    }
  }

  lemma {:induction false} DashBetween(x: Str, y: Str, rest: Str)
    ensures x + ([45] + y) + rest == x + ([45] + (y + rest)) && ([45] + (y + rest))[1..] == y + rest
  {}

  lemma {:induction false} ParseWrittenAll(rs: seq<Bytes>, first: bool)
    requires (forall i :: 0 <= i < |rs| ==> Plain(rs[i])) && (first ==> rs != [])
    ensures ParseRanges(WrittenAll(rs) + [93], first) == Some((RangesOf(rs), []))
  {
    if rs == [] {
      assert WrittenAll(rs) + [93] == [93] && [RBRACKET][1..] == [];
    } else {
      var rest := WrittenAll(rs[1..]) + [93];
      ConcatAssoc(Written(rs[0]), WrittenAll(rs[1..]), [93]);
      FirstOf(rs);
      HeadOf(rs[1..]);
      ParseWritten(rs[0], rest);
      ParseWrittenAll(rs[1..], false);
      RangesStep(rs);
    }
  }

  lemma {:induction false} FirstOf(rs: seq<Bytes>)
    requires rs != []
    ensures (WrittenAll(rs) + [93])[0] != 93 && (WrittenAll(rs) + [93])[0] != 94
  {}

  lemma {:induction false} RangesStep(rs: seq<Bytes>)
    requires rs != []
    ensures RangesOf(rs) == [Range(rs[0].lo as int, rs[0].hi as int)] + RangesOf(rs[1..])
  {}

  lemma {:induction false} HeadOf(rs: seq<Bytes>)
    ensures (WrittenAll(rs) + [93])[0] != 45
  {}

  /** The class of some ranges. */
  function ClassBytes(negated: bool, rs: seq<Bytes>): Str
  {
    [91] + ((if negated then [94] else []) + (WrittenAll(rs) + [93]))
  }

  lemma {:induction false} ParseClass(negated: bool, rs: seq<Bytes>)
    requires rs != [] && forall i :: 0 <= i < |rs| ==> Plain(rs[i])
    ensures Parse(ClassBytes(negated, rs)) == Some([Class(negated, RangesOf(rs))])
  {
    ParseWrittenAll(rs, true);
    if !negated { FirstOf(rs); }
    ReadClass(negated, WrittenAll(rs) + [93], RangesOf(rs));
  }

  lemma {:induction false} ReadClass(negated: bool, body: Str, ranges: seq<Range>)
    requires body != [] && (negated || body[0] != 94) && ParseRanges(body, true) == Some((ranges, []))
    ensures Parse([91] + ((if negated then [94] else []) + body)) == Some([Class(negated, ranges)])
  {
    var p := [91] + ((if negated then [94] else []) + body);
    assert p[if negated then 2 else 1..] == body;
    assert p[1] == CARET <==> negated;
    assert ParseTerm(p) == Some((Class(negated, ranges), []));
    ParseHead(p, Class(negated, ranges), []);
    assert Parse([]) == Some([]);
    assert [Class(negated, ranges)] + [] == [Class(negated, ranges)];
  }

  /** A class stands for the single bytes in one of its ranges, and with ^ for those in none of them. */
  lemma {:induction false} ClassIff(negated: bool, rs: seq<Bytes>, b: byte)
    requires b < 0x80 && rs != [] && forall i :: 0 <= i < |rs| ==> Plain(rs[i])
    ensures PathMatch(ClassBytes(negated, rs), [b]) <==> (exists i :: 0 <= i < |rs| && rs[i].lo <= b <= rs[i].hi) != negated
  {
    var term := Class(negated, RangesOf(rs));
    ParseClass(negated, rs);
    ScanChunk([term], [b]);
    assert [term][1..] == [] && [b][1..] == [] && DecodeRune([b]) == (b as int, 1);
    InClassIff(negated, rs, b);
  }

  lemma {:induction false} InClassIff(negated: bool, rs: seq<Bytes>, b: byte)
    ensures InClass(b as int, Class(negated, RangesOf(rs))) <==>
      (exists i :: 0 <= i < |rs| && rs[i].lo <= b <= rs[i].hi) != negated
  {
    var ranges := RangesOf(rs);
    if i :| 0 <= i < |rs| && rs[i].lo <= b <= rs[i].hi { assert ranges[i] in ranges; }
  }

  /** A class stands for single characters only, and never for none. */
  lemma {:induction false} ClassTakesOne(negated: bool, rs: seq<Bytes>, name: Str)
    requires rs != [] && (forall i :: 0 <= i < |rs| ==> Plain(rs[i])) && PathMatch(ClassBytes(negated, rs), name)
    ensures |Runes(name)| == 1
  {
    var term := Class(negated, RangesOf(rs));
    ParseClass(negated, rs);
    ScanChunk([term], name);
    WildTakesAll([term], name);
    CharsAreRunes(name);
  }
}
