/** Who may do what to which path (internal/auth/auth.go, canAccessSecret in internal/api/server.go). */
module Auth {
  import opened Basics
  import opened PathChars
  import opened Utf8
  import Scope

  datatype Kind = Operator | Key

  datatype Principal = Principal(kind: Kind, id: int, name: Str, scope: seq<Str>, hasRead: bool, hasWrite: bool)

  /** The columns of a keys row that authentication looks at. */
  datatype KeyRow = KeyRow(id: int, name: Str, scope: Str, permissions: Str, expiresAt: Option<int>,
                           revokedAt: Option<int>)

  datatype AuthError = Unauthenticated | NotFound | Revoked | Expired

  const MANAGE: Str := Ascii("manage")

  /** The non-empty ones of the comma-separated pieces. */
  function NonEmpty(parts: seq<Str>): seq<Str>
  {
    if parts == [] then [] else (if parts[0] == [] then [] else [parts[0]]) + NonEmpty(parts[1..])
  }

  /** What parseScope computes, said without its loop. */
  function ScopePatterns(csv: Str): seq<Str> { NonEmpty(Split(ToValid(Runes(csv)), COMMA)) }

  lemma {:induction false} NonEmptyAppend(a: seq<Str>, b: seq<Str>)
    ensures NonEmpty(a + b) == NonEmpty(a) + NonEmpty(b)
  {
    if a == [] {
      assert a + b == b;
    } else {
      assert (a + b)[1..] == a[1..] + b;
      NonEmptyAppend(a[1..], b);
    }
  }

  /** A decoded rune other than the comma contains no comma. */
  lemma {:induction false} RuneCommaFree(r: Rune)
    requires IsRune(r) && r != Some([COMMA])
    ensures COMMA !in ToValid([r])
  {
    assert ToValid([r]) == (if r.Some? then r.value else [0xEF, 0xBF, 0xBD]) + ToValid([r][1..]);
    if r.Some? && r.value[0] < 0x80 { assert r.value == [r.value[0]]; }
  }

  /** The scan of parseScope from a piece `cur` in progress. */
  function Scan(cur: Str, rs: seq<Rune>): seq<Str>
    decreases |rs|
  {
    if rs == [] then NonEmpty([cur])
    else if rs[0] == Some([COMMA]) then NonEmpty([cur]) + Scan([], rs[1..])
    else Scan(cur + ToValid([rs[0]]), rs[1..])
  }

  lemma {:induction false} ScanIsSplit(cur: Str, rs: seq<Rune>)
    requires COMMA !in cur && forall r :: r in rs ==> IsRune(r)
    ensures Scan(cur, rs) == NonEmpty(Split(cur + ToValid(rs), COMMA))
    decreases |rs|
  {
    if rs == [] {
      assert cur + [] == cur;
      IndexOfAbsent(cur, COMMA);
    } else {
      ToValidStep(rs);
      var rest := ToValid(rs[1..]);
      if rs[0] == Some([COMMA]) {
        ScanIsSplit([], rs[1..]);
        assert cur + ([COMMA] + rest) == cur + [COMMA] + rest && [] + rest == rest;
        SplitAppend(cur, COMMA, rest);
        NonEmptyAppend([cur], Split(rest, COMMA));
      } else {
        RuneCommaFree(rs[0]);
        ScanIsSplit(cur + ToValid([rs[0]]), rs[1..]);
        assert cur + (ToValid([rs[0]]) + rest) == (cur + ToValid([rs[0]])) + rest;
      }
    }
  }

  lemma {:induction false} ToValidStep(rs: seq<Rune>)
    requires rs != []
    ensures ToValid(rs) == ToValid([rs[0]]) + ToValid(rs[1..])
    ensures rs[0] == Some([COMMA]) ==> ToValid([rs[0]]) == [COMMA]
  {
    assert rs == [rs[0]] + rs[1..];
    ToValidAppend([rs[0]], rs[1..]);
    var one: seq<Rune> := [rs[0]];
    assert one[1..] == [];
  }

  /** parseScope: a scan over the runes, rebuilding each piece. */
  method ParseScope(csv: Str) returns (out: seq<Str>)
    ensures out == ScopePatterns(csv)
  {
    out := [];
    var cur: Str := [];
    var rs := Runes(csv);
    var i := 0;
    assert rs[0..] == rs;
    while i < |rs|
      invariant 0 <= i <= |rs|
      invariant out + Scan(cur, rs[i..]) == Scan([], rs)
    {
      assert rs[i..][1..] == rs[i + 1..];
      if rs[i] == Some([COMMA]) {
        ConcatAssoc(out, NonEmpty([cur]), Scan([], rs[i + 1..]));
        Push(out, cur);
        if cur != [] { out := out + [cur]; }
        cur := [];
      } else {
        cur := cur + ToValid([rs[i]]);
      }
      i := i + 1;
    }
    Push(out, cur);
    if cur != [] { out := out + [cur]; }
    ScanIsSplit([], rs);
    assert [] + ToValid(rs) == ToValid(rs);
  }

  lemma {:induction false} Push(out: seq<Str>, cur: Str)
    ensures out + NonEmpty([cur]) == if cur != [] then out + [cur] else out
  {
    assert [cur][1..] == [];
  }

  /** The pieces as the scan rebuilds them. */
  function Rebuilt(parts: seq<Str>): (r: seq<Str>)
    ensures |r| == |parts| && forall i :: 0 <= i < |r| ==> r[i] == ToValid(Runes(parts[i]))
  {
    if parts == [] then [] else [ToValid(Runes(parts[0]))] + Rebuilt(parts[1..])
  }

  lemma {:induction false} RebuiltJoin(parts: seq<Str>)
    requires parts != []
    ensures ToValid(Runes(Join(parts, COMMA))) == Join(Rebuilt(parts), COMMA)
  {
    if |parts| > 1 {
      var rest := Join(parts[1..], COMMA);
      RebuiltJoin(parts[1..]);
      RunesAppendAscii(parts[0], COMMA, rest);
      ToValidAppend(Runes(parts[0]) + [Some([COMMA])], Runes(rest));
      ToValidAppend(Runes(parts[0]), [Some([COMMA])]);
      assert ToValid([Some([COMMA])]) == [COMMA] by { assert [Some([COMMA])][1..] == []; }
      JoinCons(ToValid(Runes(parts[0])), Rebuilt(parts[1..]), COMMA);
    }
  }

  lemma {:induction false} ToValidCommaFree(rs: seq<Rune>)
    requires Some([COMMA]) !in rs && forall r :: r in rs ==> IsRune(r)
    ensures COMMA !in ToValid(rs)
  {
    if rs != [] {
      ToValidCommaFree(rs[1..]);
      RuneCommaFree(rs[0]);
      assert rs == [rs[0]] + rs[1..];
      ToValidAppend([rs[0]], rs[1..]);
    }
  }

  lemma {:induction false} RunesCommaFree(s: Str)
    requires COMMA !in s
    ensures Some([COMMA]) !in Runes(s)
    decreases |s|
  {
    if s != [] { RunesCommaFree(s[DecodeRune(s).1..]); }
  }

  lemma {:induction false} NonEmptyAll(parts: seq<Str>)
    requires [] !in parts
    ensures NonEmpty(parts) == parts
  {
    if parts != [] { NonEmptyAll(parts[1..]); }
  }

  lemma {:induction false} RebuiltNotEmpty(s: Str)
    requires s != []
    ensures ToValid(Runes(s)) != []
  {}

  lemma {:induction false} RebuiltPiece(p: Str)
    requires p != [] && COMMA !in p
    ensures ToValid(Runes(p)) != [] && COMMA !in ToValid(Runes(p))
  {
    RunesCommaFree(p);
    ToValidCommaFree(Runes(p));
    RebuiltNotEmpty(p);
  }

  /** Joining non-empty comma-free patterns and parsing them gives each pattern back, with ill-formed bytes replaced. */
  lemma {:induction false} ParseJoined(patterns: seq<Str>)
    requires patterns != [] && forall p :: p in patterns ==> p != [] && COMMA !in p
    ensures ScopePatterns(Join(patterns, COMMA)) == Rebuilt(patterns)
  {
    var rebuilt := Rebuilt(patterns);
    RebuiltJoin(patterns);
    forall i | 0 <= i < |rebuilt| ensures COMMA !in rebuilt[i] && rebuilt[i] != [] {
      assert patterns[i] in patterns;
      RebuiltPiece(patterns[i]);
    }
    SplitJoin(rebuilt, COMMA);
    NonEmptyAll(rebuilt);
  }

  /** So they come back unchanged exactly when every one of them is valid UTF-8. */
  lemma {:induction false} RebuiltSameIff(patterns: seq<Str>)
    ensures Rebuilt(patterns) == patterns <==> forall i :: 0 <= i < |patterns| ==> ValidUtf8(patterns[i])
  {
    forall i | 0 <= i < |patterns| ensures Rebuilt(patterns)[i] == patterns[i] <==> ValidUtf8(patterns[i]) {
      ToValidSameIff(patterns[i]);
    }
  }

  lemma {:induction false} NonEmptyHolds(parts: seq<Str>, p: Str)
    ensures p in NonEmpty(parts) <==> p in parts && p != []
  {
    if parts != [] { NonEmptyHolds(parts[1..], p); }
  }

  lemma {:induction false} SplitValid(s: Str)
    requires ValidUtf8(s)
    ensures forall p :: p in Split(s, COMMA) ==> ValidUtf8(p)
    decreases |s|
  {
    var i := IndexOf(s, COMMA);
    if i < |s| {
      Reassemble(s, i);
      RunesAppendAscii(s[..i], COMMA, s[i + 1..]);
      SplitValid(s[i + 1..]);
    }
  }

  /** What a scope can hold: exactly the non-empty patterns without a comma that are valid UTF-8. */
  lemma {:induction false} ReceivableIff(pattern: Str)
    ensures (exists csv :: pattern in ScopePatterns(csv)) <==> Receivable(pattern)
  {
    if csv :| pattern in ScopePatterns(csv) {
      var v := ToValid(Runes(csv));
      ToValidIsValid(Runes(csv));
      NonEmptyHolds(Split(v, COMMA), pattern);
      SplitFree(v, COMMA);
      SplitValid(v);
    }
    if Receivable(pattern) {
      ParseOne(pattern);
      assert pattern in ScopePatterns(pattern);
    }
  }

  lemma {:induction false} ParseOne(pattern: Str)
    requires Receivable(pattern)
    ensures ScopePatterns(pattern) == [pattern]
  {
    ParseJoined([pattern]);
    RebuiltSameIff([pattern]);
    assert Join([pattern], COMMA) == pattern;
  }

  /** Some pattern of the scope is documented to match the path. */
  predicate SomeDocumented(patterns: seq<Str>, path: Str)
  {
    exists i :: 0 <= i < |patterns| && Scope.DocumentedSegments(patterns[i], path)
  }

  /** The paths that every scope reaches just as path.Match is documented are those of one-byte characters; any other path
      is reached by some scope that is documented not to reach it. */
  lemma {:induction false} ScopesAsDocumentedIff(path: Str)
    ensures (forall csv :: Scope.AnyMatch(ScopePatterns(csv), path) <==> SomeDocumented(ScopePatterns(csv), path)) <==>
      Scope.SingleSegments(path)
  {
    Scope.MatchDocumentedIff(path);
    if Scope.SingleSegments(path) {
      forall csv ensures Scope.AnyMatch(ScopePatterns(csv), path) <==> SomeDocumented(ScopePatterns(csv), path) {
        AnyAsDocumented(ScopePatterns(csv), path);
      }
    } else {
      var pattern :| Receivable(pattern) && !(Scope.Match(pattern, path) <==> Scope.DocumentedSegments(pattern, path));
      ParseOne(pattern);
      var one := ScopePatterns(pattern);
      assert Scope.AnyMatch(one, path) <==> Scope.Match(one[0], path);
      assert SomeDocumented(one, path) <==> Scope.DocumentedSegments(one[0], path);
    }
  }

  lemma {:induction false} AnyAsDocumented(patterns: seq<Str>, path: Str)
    requires Scope.SingleSegments(path)
    ensures Scope.AnyMatch(patterns, path) <==> SomeDocumented(patterns, path)
  {
    forall i | 0 <= i < |patterns|
      ensures Scope.Match(patterns[i], path) <==> Scope.DocumentedSegments(patterns[i], path)
    {
      Scope.DocumentedWithinMatch(patterns[i], path);
    }
  }

  /** Authenticate for a presented key, given the row its hash selects. */
  function AuthenticateKey(row: Option<KeyRow>, now: int): Result<Principal, AuthError>
  {
    match row
    case None => Err(NotFound)
    case Some(k) =>
      if k.revokedAt.Some? then Err(Revoked)
      else if k.expiresAt.Some? && k.expiresAt.value > 0 && k.expiresAt.value < now then Err(Expired)
      else Ok(Principal(Key, k.id, k.name, ScopePatterns(k.scope), true, k.permissions == MANAGE))
  }

  /** canAccessSecret. */
  predicate CanAccess(p: Principal, path: Str)
  {
    p.kind.Operator? || Scope.AnyMatch(p.scope, path)
  }

  /** A key is let in exactly while it is neither revoked nor past its expiry; a revocation is reported first. It may write
      exactly with the permission "manage". */
  lemma {:induction false} AuthenticatesIff(k: KeyRow, now: int)
    ensures var r := AuthenticateKey(Some(k), now);
      (r.Ok? <==> k.revokedAt.None? && (k.expiresAt.None? || k.expiresAt.value <= 0 || now <= k.expiresAt.value)) &&
      (r == Err(Revoked) <==> k.revokedAt.Some?) &&
      (r.Ok? ==> r.value == Principal(Key, k.id, k.name, ScopePatterns(k.scope), true,
                                      k.permissions == [109, 97, 110, 97, 103, 101]))
    ensures AuthenticateKey(None, now) == Err(NotFound)
  {
    assert MANAGE == [109, 97, 110, 97, 103, 101];
  }

  /** Operators reach every path, keys those that a pattern of their scope matches. */
  lemma {:induction false} CanAccessIff(p: Principal, path: Str)
    ensures CanAccess(p, path) <==>
      p.kind == Operator || exists i :: 0 <= i < |p.scope| && Scope.Match(p.scope[i], path)
  {}

  /** A live key reaches a path exactly when one of the patterns it was issued with matches it: always when the path is
      one of its own by the documentation, never without a pattern that stands for the whole path as a glob of bytes, and
      always with one if the patterns or the path are such that Match is exact. */
  lemma {:induction false} KeyReachesIff(k: KeyRow, now: int, p: Principal, patterns: seq<Str>, path: Str)
    requires k.scope == Join(patterns, COMMA) && patterns != []
    requires forall q :: q in patterns ==> q != [] && COMMA !in q && ValidUtf8(q)
    requires AuthenticateKey(Some(k), now) == Ok(p)
    ensures CanAccess(p, path) <==> exists i :: 0 <= i < |patterns| && Scope.Match(patterns[i], path)
    ensures SomeDocumented(patterns, path) ==> CanAccess(p, path)
    ensures CanAccess(p, path) ==> Scope.SomeWhole(patterns, path)
    ensures (forall i :: 0 <= i < |patterns| ==> Scope.Exact(patterns[i], path)) && Scope.SomeWhole(patterns, path) ==>
      CanAccess(p, path)
  {
    KeyScope(k, now, patterns);
    Scope.AnyMatchIsWholeGlob(patterns, path);
    if i :| 0 <= i < |patterns| && Scope.DocumentedSegments(patterns[i], path) {
      Scope.DocumentedWithinMatch(patterns[i], path);
    }
  }

  /** So a key, live or not, reaches a path exactly when it is not revoked, not expired, and a pattern matches. */
  lemma {:induction false} KeyAdmittedIff(k: KeyRow, now: int, patterns: seq<Str>, path: Str)
    requires k.scope == Join(patterns, COMMA) && patterns != []
    requires forall q :: q in patterns ==> q != [] && COMMA !in q && ValidUtf8(q)
    ensures var r := AuthenticateKey(Some(k), now);
      r.Ok? && CanAccess(r.value, path) <==>
      k.revokedAt.None? && (k.expiresAt.None? || k.expiresAt.value <= 0 || now <= k.expiresAt.value) &&
      exists i :: 0 <= i < |patterns| && Scope.Match(patterns[i], path)
  {
    if AuthenticateKey(Some(k), now).Ok? { KeyScope(k, now, patterns); }
  }

  lemma {:induction false} KeyScope(k: KeyRow, now: int, patterns: seq<Str>)
    requires k.scope == Join(patterns, COMMA) && patterns != []
    requires forall q :: q in patterns ==> q != [] && COMMA !in q && ValidUtf8(q)
    requires AuthenticateKey(Some(k), now).Ok?
    ensures AuthenticateKey(Some(k), now).value.scope == patterns
  {
    ParseJoined(patterns);
    forall i | 0 <= i < |patterns| ensures ValidUtf8(patterns[i]) { assert patterns[i] in patterns; }
    RebuiltSameIff(patterns);
  }
}
