/** SQLite's LIKE operator, and the pattern that auditFilters builds for it (internal/audit/audit.go). */
module Like {
  import opened Basics
  import opened Utf8

  /** ASCII lower case; other bytes are left alone. */
  function Fold(b: byte): byte { if 65 <= b <= 90 then b + 32 else b }

  predicate SameFolded(a: byte, b: byte) { Fold(a) == Fold(b) }

  /** SQLite reads both operands as zero-terminated text. */
  function CText(s: Str): Str { s[..IndexOf(s, 0)] }

  /** The width of the character that `_` consumes: a lead byte takes its continuation bytes along. */
  function CharWidth(t: Str): (n: nat)
    requires t != []
    ensures 1 <= n <= |t|
  {
    if t[0] < 0xC0 then 1 else 1 + ContinuationRun(t[1..])
  }

  function ContinuationRun(t: Str): (n: nat)
    ensures n <= |t|
  {
    if t == [] || !Continuation(t[0]) then 0 else 1 + ContinuationRun(t[1..])
  }

  /** `text LIKE pattern ESCAPE esc`, case-insensitive in ASCII. */
  predicate Matches(pattern: Str, text: Str, esc: Option<byte>)
  {
    MatchesFrom(CText(pattern), CText(text), esc)
  }

  predicate MatchesFrom(p: Str, t: Str, esc: Option<byte>)
    decreases |p| + |t|
  {
    if p == [] then t == []
    else if p[0] == PERCENT then
      MatchesFrom(p[1..], t, esc) || (t != [] && MatchesFrom(p, t[1..], esc))
    else if esc == Some(p[0]) then
      |p| > 1 && t != [] && SameFolded(p[1], t[0]) && MatchesFrom(p[2..], t[1..], esc)
    else if p[0] == UNDERSCORE then
      t != [] && MatchesFrom(p[1..], t[CharWidth(t)..], esc)
    else
      t != [] && SameFolded(p[0], t[0]) && MatchesFrom(p[1..], t[1..], esc)
  }

  /** escapeLike: a backslash in front of every backslash, percent sign and underscore. */
  function EscapeLike(s: Str): Str
  {
    if s == [] then [] else
    (if s[0] == BACKSLASH || s[0] == PERCENT || s[0] == UNDERSCORE then [BACKSLASH, s[0]] else [s[0]]) + EscapeLike(s[1..])
  }

  /** The argument that auditFilters binds for an action filter. */
  function ActionPattern(s: Str): Str { [PERCENT] + EscapeLike(s) + [PERCENT] }

  /** `t` starts with `s`, up to ASCII case. */
  predicate StartsFolded(s: Str, t: Str)
  {
    |s| <= |t| && forall i :: 0 <= i < |s| ==> SameFolded(s[i], t[i])
  }

  /** `s` occurs in `t`, up to ASCII case. */
  predicate ContainsFolded(s: Str, t: Str)
  {
    exists k :: 0 <= k <= |t| && StartsFolded(s, t[k..])
  }

  /** `t` ends with `s`, up to ASCII case. */
  predicate EndsFolded(s: Str, t: Str)
  {
    |s| <= |t| && StartsFolded(s, t[|t| - |s|..])
  }

  const ESC: Option<byte> := Some(BACKSLASH)

  lemma {:induction false} TrailingPercent(t: Str)
    ensures MatchesFrom([PERCENT], t, ESC)
  {
    if t == [] {
      assert MatchesFrom([PERCENT][1..], t, ESC);
    } else {
      TrailingPercent(t[1..]);
    }
  }

  lemma {:induction false} StartsStep(s: Str, t: Str)
    requires s != []
    ensures StartsFolded(s, t) <==> t != [] && SameFolded(s[0], t[0]) && StartsFolded(s[1..], t[1..])
  {
    if t != [] && SameFolded(s[0], t[0]) && StartsFolded(s[1..], t[1..]) {
      forall i | 0 <= i < |s| ensures SameFolded(s[i], t[i]) {
        if i > 0 { assert s[1..][i - 1] == s[i] && t[1..][i - 1] == t[i]; }
      }
    }
  }

  /** The escaped text in front of any rest of the pattern matches itself, byte by byte, and nothing else. */
  lemma {:induction false} EscapedIsLiteral(s: Str, rest: Str, t: Str)
    ensures MatchesFrom(EscapeLike(s) + rest, t, ESC) <==>
      StartsFolded(s, t) && MatchesFrom(rest, t[|s|..], ESC)
    decreases |s|
  {
    var p := EscapeLike(s) + rest;
    if s == [] {
      assert p == rest && t[0..] == t;
    } else {
      StartsStep(s, t);
      if s[0] == BACKSLASH || s[0] == PERCENT || s[0] == UNDERSCORE {
        assert p[0] == BACKSLASH && p[1] == s[0] && p[2..] == EscapeLike(s[1..]) + rest;
      } else {
        assert p[0] == s[0] && p[1..] == EscapeLike(s[1..]) + rest;
      }
      if t != [] {
        EscapedIsLiteral(s[1..], rest, t[1..]);
        if |s| <= |t| { assert t[1..][|s| - 1..] == t[|s|..]; }
      }
    }
  }

  /** A leading percent sign: the rest may match any suffix. */
  lemma {:induction false} LeadingPercent(rest: Str, t: Str)
    ensures MatchesFrom([PERCENT] + rest, t, ESC) <==>
      exists k :: 0 <= k <= |t| && MatchesFrom(rest, t[k..], ESC)
    decreases |t|
  {
    var p := [PERCENT] + rest;
    assert p[1..] == rest && t[0..] == t;
    if t != [] {
      LeadingPercent(rest, t[1..]);
      if k :| 0 <= k <= |t[1..]| && MatchesFrom(rest, t[1..][k..], ESC) {
        assert t[1..][k..] == t[k + 1..];
      }
      if k :| 0 < k <= |t| && MatchesFrom(rest, t[k..], ESC) {
        assert t[1..][k - 1..] == t[k..];
      }
    }
  }

  lemma {:induction false} NoZero(s: Str)
    requires 0 !in s
    ensures 0 !in EscapeLike(s)
  {
    if s != [] { NoZero(s[1..]); }
  }

  lemma {:induction false} EscapeLikeAppend(s: Str, t: Str)
    ensures EscapeLike(s + t) == EscapeLike(s) + EscapeLike(t)
  {
    if s == [] {
      assert s + t == t;
    } else {
      assert (s + t)[1..] == s[1..] + t;
      EscapeLikeAppend(s[1..], t);
    }
  }

  lemma {:induction false} CTextOf(a: Str, rest: Str)
    requires 0 !in a
    ensures CText(a) == a && CText(a + [0] + rest) == a
  {
    IndexOfAbsent(a, 0);
    IndexOfUnique(a, 0, rest);
    assert (a + [0] + rest)[..|a|] == a;
  }

  /** An action filter without a zero byte selects exactly the actions that contain it, up to ASCII case. */
  lemma {:induction false} ActionFilterContains(s: Str, action: Str)
    requires 0 !in s
    ensures Matches(ActionPattern(s), action, ESC) <==> ContainsFolded(s, CText(action))
  {
    NoZero(s);
    CTextOf(ActionPattern(s), []);
    var t := CText(action);
    assert ActionPattern(s) == [PERCENT] + (EscapeLike(s) + [PERCENT]);
    LeadingPercent(EscapeLike(s) + [PERCENT], t);
    forall k | 0 <= k <= |t|
      ensures MatchesFrom(EscapeLike(s) + [PERCENT], t[k..], ESC) <==> StartsFolded(s, t[k..])
    {
      EscapedIsLiteral(s, [PERCENT], t[k..]);
      if |s| <= |t[k..]| { TrailingPercent(t[k..][|s|..]); }
    }
  }

  /** With a zero byte in it, the filter loses its tail and its closing percent sign:
      it selects the actions that end in the part before the zero byte. */
  lemma {:induction false} ActionFilterWithZero(a: Str, rest: Str, action: Str)
    requires 0 !in a
    ensures Matches(ActionPattern(a + [0] + rest), action, ESC) <==> EndsFolded(a, CText(action))
  {
    NoZero(a);
    var p := [PERCENT] + EscapeLike(a);
    EscapeLikeAppend(a, [0] + rest);
    assert a + [0] + rest == a + ([0] + rest);
    assert EscapeLike([0] + rest) == [0] + EscapeLike(rest) by { assert ([0] + rest)[1..] == rest; }
    assert ActionPattern(a + [0] + rest) == p + [0] + (EscapeLike(rest) + [PERCENT]);
    CTextOf(p, EscapeLike(rest) + [PERCENT]);
    var t := CText(action);
    LeadingPercent(EscapeLike(a), t);
    forall k | 0 <= k <= |t|
      ensures MatchesFrom(EscapeLike(a), t[k..], ESC) <==> StartsFolded(a, t[k..]) && |t[k..]| == |a|
    {
      EscapedIsLiteral(a, [], t[k..]);
      assert EscapeLike(a) + [] == EscapeLike(a);
    }
    if |a| <= |t| { assert |t[|t| - |a|..]| == |a|; }
  }

  /** So it is the "contains" test for every action exactly when the text has no zero byte. */
  lemma {:induction false} ActionFilterContainsIff(s: Str)
    ensures (forall action :: Matches(ActionPattern(s), action, ESC) <==> ContainsFolded(s, CText(action))) <==> 0 !in s
  {
    if 0 in s {
      IndexOfPresent(s, 0);
      var a := CText(s);
      Reassemble(s, |a|);
      ActionFilterWithZero(a, s[|a| + 1..], a);
      CTextOf(a, []);
      assert EndsFolded(a, a) && !ContainsFolded(s, a);
    } else {
      forall action ensures Matches(ActionPattern(s), action, ESC) <==> ContainsFolded(s, CText(action)) {
        ActionFilterContains(s, action);
      }
    }
  }

  /** Letters that differ in case only, and equal bytes. */
  lemma {:induction false} SameFoldedIff(a: byte, b: byte)
    ensures SameFolded(a, b) <==>
      a == b || (65 <= a <= 90 && b as int == a as int + 32) || (65 <= b <= 90 && a as int == b as int + 32)
  {}

  /** A prefix filter without wildcards, as ListSecretPaths builds it: the texts that start with the prefix. */
  lemma {:induction false} PrefixIff(prefix: Str, text: Str)
    requires 0 !in prefix && PERCENT !in prefix && UNDERSCORE !in prefix
    ensures Matches(prefix + [PERCENT], text, None) <==> StartsFolded(prefix, CText(text))
  {
    var p := prefix + [PERCENT];
    CTextOf(p, []);
    PrefixFrom(prefix, CText(text));
  }

  lemma {:induction false} PrefixFrom(prefix: Str, t: Str)
    requires PERCENT !in prefix && UNDERSCORE !in prefix
    ensures MatchesFrom(prefix + [PERCENT], t, None) <==> StartsFolded(prefix, t)
    decreases |prefix|
  {
    var p := prefix + [PERCENT];
    if prefix == [] {
      assert p == [PERCENT];
      PercentAlone(t);
    } else {
      StartsStep(prefix, t);
      assert p[0] == prefix[0] && p[1..] == prefix[1..] + [PERCENT];
      if t != [] { PrefixFrom(prefix[1..], t[1..]); }
    }
  }

  lemma {:induction false} PercentAlone(t: Str)
    ensures MatchesFrom([PERCENT], t, None)
  {
    if t == [] {
      assert MatchesFrom([PERCENT][1..], t, None);
    } else {
      PercentAlone(t[1..]);
    }
  }
}
