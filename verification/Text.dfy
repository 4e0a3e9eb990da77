/** strings.TrimSpace: white space as in unicode.IsSpace, on UTF-8 bytes. */
module Text {
  import opened Basics
  import Utf8

  predicate AsciiSpace(b: byte) { b == 32 || 9 <= b <= 13 }

  /** U+1680, U+2000 to U+200A, U+2028, U+2029, U+202F, U+205F and U+3000. */
  predicate WideSpace(a: byte, b: byte, c: byte)
  {
    (a == 0xE1 && b == 0x9A && c == 0x80) ||
    (a == 0xE2 && b == 0x80 && (0x80 <= c <= 0x8A || c == 0xA8 || c == 0xA9 || c == 0xAF)) ||
    (a == 0xE2 && b == 0x81 && c == 0x9F) ||
    (a == 0xE3 && b == 0x80 && c == 0x80)
  }

  /** The width of the white-space rune at `i`, or 0; U+0085 and U+00A0 take two bytes. */
  function SpaceAt(s: Str, i: nat): (w: nat)
    ensures w > 0 ==> i + w <= |s|
  {
    if i < |s| && AsciiSpace(s[i]) then 1
    else if i + 1 < |s| && s[i] == 0xC2 && (s[i + 1] == 0x85 || s[i + 1] == 0xA0) then 2
    else if i + 2 < |s| && WideSpace(s[i], s[i + 1], s[i + 2]) then 3
    else 0
  }

  function LeadingSpace(s: Str): (w: nat)
    ensures w <= |s|
  {
    SpaceAt(s, 0)
  }

  function TrailingSpace(s: Str): (w: nat)
    ensures w <= |s|
  {
    if |s| >= 1 && SpaceAt(s, |s| - 1) == 1 then 1
    else if |s| >= 2 && SpaceAt(s, |s| - 2) == 2 then 2
    else if |s| >= 3 && SpaceAt(s, |s| - 3) == 3 then 3
    else 0
  }

  function TrimStart(s: Str): Str
    decreases |s|
  {
    if LeadingSpace(s) > 0 then TrimStart(s[LeadingSpace(s)..]) else s
  }

  function TrimEnd(s: Str): Str
    decreases |s|
  {
    if TrailingSpace(s) > 0 then TrimEnd(s[..|s| - TrailingSpace(s)]) else s
  }

  function TrimSpace(s: Str): Str { TrimEnd(TrimStart(s)) }

  /** No white-space rune at either end. */
  predicate Trimmed(s: Str) { LeadingSpace(s) == 0 && TrailingSpace(s) == 0 }

  lemma {:induction false} TrimStartStarts(s: Str)
    ensures LeadingSpace(TrimStart(s)) == 0
    ensures forall b :: b in TrimStart(s) ==> b in s
    decreases |s|
  {
    if LeadingSpace(s) > 0 { TrimStartStarts(s[LeadingSpace(s)..]); }
  }

  /** A rune at the start of a prefix is at the start of the whole. */
  lemma {:induction false} LeadingOfPrefix(t: Str, s: Str)
    requires t <= s && LeadingSpace(s) == 0
    ensures LeadingSpace(t) == 0
  {}

  lemma {:induction false} TrimEndEnds(s: Str)
    ensures TrimEnd(s) <= s && TrailingSpace(TrimEnd(s)) == 0
    decreases |s|
  {
    if TrailingSpace(s) > 0 { TrimEndEnds(s[..|s| - TrailingSpace(s)]); }
  }

  lemma {:induction false} TrimSpaceTrims(s: Str)
    ensures Trimmed(TrimSpace(s))
    ensures forall b :: b in TrimSpace(s) ==> b in s
  {
    TrimStartStarts(s);
    TrimEndEnds(TrimStart(s));
    LeadingOfPrefix(TrimSpace(s), TrimStart(s));
  }

  lemma {:induction false} TrimOfTrimmed(s: Str)
    requires Trimmed(s)
    ensures TrimSpace(s) == s
  {}

  lemma {:induction false} TrimmedByEnds(s: Str)
    requires s != [] && s[0] < 0x80 && !AsciiSpace(s[0]) && s[|s| - 1] < 0x80 && !AsciiSpace(s[|s| - 1])
    ensures Trimmed(s)
  {}

  lemma {:induction false} LeadingBeforeAscii(a: Str, c: byte, b: Str)
    requires LeadingSpace(a) == 0 && c < 0x80 && !AsciiSpace(c)
    ensures LeadingSpace(a + [c] + b) == 0
  {
    var s := a + [c] + b;
    assert s[|a|] == c;
    assert forall i | 0 <= i < |a| :: s[i] == a[i];
  }

  lemma {:induction false} TrailingBehindAscii(a: Str, c: byte, b: Str)
    requires TrailingSpace(b) == 0 && c < 0x80 && !AsciiSpace(c)
    ensures TrailingSpace(a + [c] + b) == 0
  {
    var s := a + [c] + b;
    var n, m := |s|, |b|;
    assert s[|a|] == c;
    assert m >= 1 ==> s[n - 1] == b[m - 1];
    assert m >= 2 ==> s[n - 2] == b[m - 2];
    assert m >= 3 ==> s[n - 3] == b[m - 3];
  }

  /** An ASCII byte other than white space between two trimmed strings: no white-space rune reaches across it. */
  lemma {:induction false} TrimmedAround(a: Str, c: byte, b: Str)
    requires Trimmed(a) && Trimmed(b) && c < 0x80 && !AsciiSpace(c)
    ensures Trimmed(a + [c] + b)
  {
    LeadingBeforeAscii(a, c, b);
    TrailingBehindAscii(a, c, b);
  }

  /** What is trimmed off is white space, at either end. */
  predicate Blank(s: Str)
    decreases |s|
  {
    s == [] || (SpaceAt(s, 0) > 0 && Blank(s[SpaceAt(s, 0)..]))
  }

  lemma {:induction false} SpaceInFront(s: Str, rest: Str)
    requires LeadingSpace(s) > 0
    ensures var w := LeadingSpace(s);
      SpaceAt(s[..w] + rest, 0) == w && (s[..w] + rest)[w..] == rest && s == s[..w] + s[w..] &&
      s[..w] + rest + TrimStart(s[w..]) == s[..w] + (rest + TrimStart(s[w..]))
  {}

  lemma {:induction false} TrimStartIs(s: Str) returns (front: Str)
    ensures s == front + TrimStart(s) && Blank(front)
    decreases |s|
  {
    var w := LeadingSpace(s);
    if w == 0 {
      front := [];
    } else {
      var rest := TrimStartIs(s[w..]);
      front := s[..w] + rest;
      SpaceInFront(s, rest);
    }
  }

  lemma {:induction false} BlankConcat(a: Str, b: Str)
    requires Blank(a) && Blank(b)
    ensures Blank(a + b)
    decreases |a|
  {
    if a == [] {
      assert a + b == b;
    } else {
      var w := SpaceAt(a, 0);
      BlankConcat(a[w..], b);
      assert SpaceAt(a + b, 0) == w && (a + b)[w..] == a[w..] + b;
    }
  }

  lemma {:induction false} TrimEndIs(s: Str) returns (tail: Str)
    ensures s == TrimEnd(s) + tail && Blank(tail)
    decreases |s|
  {
    var w := TrailingSpace(s);
    if w == 0 {
      tail := [];
    } else {
      var front, last := DropSpace(s);
      var more := TrimEndIs(front);
      tail := more + last;
      BlankConcat(more, last);
      ConcatAssoc(TrimEnd(front), more, last);
    }
  }

  lemma {:induction false} DropSpace(s: Str) returns (front: Str, last: Str)
    requires TrailingSpace(s) > 0
    ensures s == front + last && |front| < |s| && Blank(last) && TrimEnd(s) == TrimEnd(front)
  {
    var w := TrailingSpace(s);
    front, last := s[..|s| - w], s[|s| - w..];
    LastSpace(s, w);
    Rejoin(s, |s| - w);
  }

  lemma {:induction false} Rejoin(s: Str, k: nat)
    requires k <= |s|
    ensures s == s[..k] + s[k..]
  {}

  lemma {:induction false} LastSpace(s: Str, w: nat)
    requires w == TrailingSpace(s) > 0
    ensures Blank(s[|s| - w..])
  {
    var t := s[|s| - w..];
    assert SpaceAt(s, |s| - w) == w;
    assert SpaceAt(t, 0) == w && t[w..] == [];
  }

  /** TrimSpace takes white space off either end and leaves none there. */
  lemma {:induction false} TrimSpaceIs(s: Str) returns (front: Str, tail: Str)
    ensures s == front + TrimSpace(s) + tail && Blank(front) && Blank(tail) && Trimmed(TrimSpace(s))
  {
    front := TrimStartIs(s);
    tail := TrimEndIs(TrimStart(s));
    ConcatAssoc(front, TrimSpace(s), tail);
    TrimSpaceTrims(s);
  }

  /** White space is what unicode.IsSpace says of the decoded rune. */
  lemma {:induction false} SpaceIff(s: Str)
    requires s != []
    ensures var (r, w) := Utf8.DecodeRune(s);
      SpaceAt(s, 0) ==
        if !Utf8.BadStart(s) && (9 <= r <= 13 || r == 32 || r == 0x85 || r == 0xA0 || r == 0x1680 ||
            0x2000 <= r <= 0x200A || r == 0x2028 || r == 0x2029 || r == 0x202F || r == 0x205F || r == 0x3000)
        then w else 0
  {}

}
