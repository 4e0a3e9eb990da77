/** The text that the full-text index holds for a metadata object
    (flattenMetadata in internal/store/secrets.go). */
module FtsText {
  import opened Basics
  import opened MetadataJson
  import opened Sorting
  import opened Text
  import opened Utf8
  import Json

  function TrimPrefix(s: Str, c: byte): Str { if s != [] && s[0] == c then s[1..] else s }

  function TrimSuffix(s: Str, c: byte): Str { if s != [] && s[|s| - 1] == c then s[..|s| - 1] else s }

  /** strings.ReplaceAll(s, `"`, ""). */
  function Unquote(s: Str): Str
  {
    if s == [] then [] else (if s[0] == QUOTE then [] else [s[0]]) + Unquote(s[1..])
  }

  /** What one comma-separated piece contributes: nothing, or one "k=v". */
  function PairOf(piece: Str): seq<Str>
  {
    var kv := TrimSpace(piece);
    if kv == [] then [] else
    var parts := SplitN(kv, COLON, 2);
    if |parts| != 2 then [] else [TrimSpace(parts[0]) + [EQUALS] + TrimSpace(parts[1])]
  }

  function PairsOf(pieces: seq<Str>): seq<Str> { ConcatMap(PairOf, pieces) }

  function Flattened(metadata: Str): Str
  {
    var t := TrimSpace(metadata);
    if t == [] || t == [LBRACE, RBRACE] then []
    else Join(PairsOf(Split(Unquote(TrimSuffix(TrimPrefix(t, LBRACE), RBRACE)), COMMA)), SEMICOLON)
  }

  method FlattenMetadata(metadata: Str) returns (r: Str)
    ensures r == Flattened(metadata)
  {
    var s := TrimSpace(metadata);
    if s == [] || s == [LBRACE, RBRACE] { return []; }
    s := Unquote(TrimSuffix(TrimPrefix(s, LBRACE), RBRACE));
    var pairs: seq<Str> := [];
    var pieces := Split(s, COMMA);
    for i := 0 to |pieces|
      invariant pairs == PairsOf(pieces[..i])
    {
      assert pieces[..i + 1] == pieces[..i] + [pieces[i]];
      ConcatMapAppend(PairOf, pieces[..i], pieces[i]);
      var kv := TrimSpace(pieces[i]);
      if kv == [] { continue; }
      var parts := SplitN(kv, COLON, 2);
      if |parts| != 2 { continue; }
      pairs := pairs + [TrimSpace(parts[0]) + [EQUALS] + TrimSpace(parts[1])];
    }
    assert pieces[..|pieces|] == pieces;
    r := Join(pairs, SEMICOLON);
  }

  /** No byte of the string is escaped in JSON. */
  predicate Unescaped(s: Str)
  {
    forall r :: r in Runes(s) ==> r.Some? && Json.Escape(r) == r.value
  }

  /** What the index text cannot tell apart from its own punctuation is absent. */
  predicate SimpleValue(s: Str) { Unescaped(s) && Trimmed(s) && COMMA !in s && QUOTE !in s }

  predicate SimpleKey(s: Str) { SimpleValue(s) && COLON !in s }

  predicate Simple(m: map<Str, Str>) { forall k :: k in m ==> SimpleKey(k) && SimpleValue(m[k]) }

  /** "k=v" for each of the keys. */
  function KeyValues(m: map<Str, Str>, keys: seq<Str>): (r: seq<Str>)
    requires forall k :: k in keys ==> k in m
    ensures |r| == |keys|
  {
    if keys == [] then [] else [keys[0] + [EQUALS] + m[keys[0]]] + KeyValues(m, keys[1..])
  }

  /** "k:v" for each of the keys. */
  function Bare(m: map<Str, Str>, keys: seq<Str>): (r: seq<Str>)
    requires forall k :: k in keys ==> k in m
    ensures |r| == |keys|
  {
    if keys == [] then [] else [keys[0] + [COLON] + m[keys[0]]] + Bare(m, keys[1..])
  }

  lemma {:induction false} EscapeAllPlain(rs: seq<Rune>)
    requires forall r :: r in rs ==> IsRune(r) && r.Some? && Json.Escape(r) == r.value
    ensures Json.EscapeAll(rs) == Flatten(rs)
  {
    if rs != [] { EscapeAllPlain(rs[1..]); }
  }

  lemma {:induction false} QuotePlain(s: Str)
    requires Unescaped(s)
    ensures Json.Quote(s) == [QUOTE] + s + [QUOTE]
  {
    EscapeAllPlain(Runes(s));
    FlattenRunes(s);
  }

  lemma {:induction false} UnquoteStep(h: byte, t: Str)
    ensures Unquote([h] + t) == (if h == QUOTE then [] else [h]) + Unquote(t)
  {
    assert ([h] + t)[1..] == t;
  }

  lemma {:induction false} UnquoteAppend(a: Str, b: Str)
    ensures Unquote(a + b) == Unquote(a) + Unquote(b)
  {
    if a == [] {
      assert a + b == b;
    } else {
      var h, t := a[0], a[1..];
      UnquoteAppend(t, b);
      ConcatAssoc([h], t, b);
      assert a == [h] + t;
      UnquoteStep(h, t);
      UnquoteStep(h, t + b);
      ConcatAssoc(if h == QUOTE then [] else [h], Unquote(t), Unquote(b));
    }
  }

  lemma {:induction false} UnquoteFree(s: Str)
    requires QUOTE !in s
    ensures Unquote(s) == s
  {
    if s != [] { UnquoteFree(s[1..]); }
  }

  /** A member as it stands in the object, without the comma or brace behind it. */
  function MemberText(m: Json.Member): Str { m.name + Json.ValueText(m.value) }

  function MemberTexts(ms: seq<Json.Member>): (r: seq<Str>)
    ensures |r| == |ms|
  {
    if ms == [] then [] else [MemberText(ms[0])] + MemberTexts(ms[1..])
  }

  lemma {:induction false} MembersAsJoin(ms: seq<Json.Member>)
    requires ms != []
    ensures Json.Members(ms) == Join(MemberTexts(ms), COMMA) + [RBRACE]
  {
    if |ms| > 1 {
      MembersAsJoin(ms[1..]);
      JoinCons(MemberText(ms[0]), MemberTexts(ms[1..]), COMMA);
    } else {
      assert ms[1..] == [];
    }
  }

  function UnquoteAll(parts: seq<Str>): (r: seq<Str>)
    ensures |r| == |parts|
  {
    if parts == [] then [] else [Unquote(parts[0])] + UnquoteAll(parts[1..])
  }

  lemma {:induction false} UnquoteJoin(parts: seq<Str>)
    ensures Unquote(Join(parts, COMMA)) == Join(UnquoteAll(parts), COMMA)
  {
    if |parts| > 1 {
      UnquoteJoin(parts[1..]);
      JoinCons(Unquote(parts[0]), UnquoteAll(parts[1..]), COMMA);
      UnquoteAppend(parts[0] + [COMMA], Join(parts[1..], COMMA));
      UnquoteAppend(parts[0], [COMMA]);
      UnquoteFree([COMMA]);
    }
  }

  lemma {:induction false} UnquoteQuoted(s: Str)
    requires Unescaped(s) && QUOTE !in s
    ensures Unquote(Json.Quote(s)) == s
  {
    QuotePlain(s);
    UnquoteStep(QUOTE, s + [QUOTE]);
    assert [QUOTE] + s + [QUOTE] == [QUOTE] + (s + [QUOTE]);
    UnquoteAppend(s, [QUOTE]);
    UnquoteStep(QUOTE, []);
    assert [QUOTE] + [] == [QUOTE];
    UnquoteFree(s);
  }

  lemma {:induction false} UnquoteMember(m: map<Str, Str>, k: Str)
    requires k in m && SimpleKey(k) && SimpleValue(m[k])
    ensures Unquote(MemberText(MemberOf(m, k))) == k + [COLON] + m[k]
  {
    UnquoteAppend(Json.Quote(k) + [COLON], Json.Quote(m[k]));
    UnquoteAppend(Json.Quote(k), [COLON]);
    UnquoteQuoted(k);
    UnquoteQuoted(m[k]);
    UnquoteFree([COLON]);
  }

  lemma {:induction false} UnquoteMembers(m: map<Str, Str>, keys: seq<Str>)
    requires Simple(m) && forall k :: k in keys ==> k in m
    ensures UnquoteAll(MemberTexts(MembersOf(m, keys))) == Bare(m, keys)
  {
    if keys != [] {
      UnquoteMembers(m, keys[1..]);
      UnquoteMember(m, keys[0]);
      assert MembersOf(m, keys)[1..] == MembersOf(m, keys[1..]);
      assert MemberTexts(MembersOf(m, keys))[1..] == MemberTexts(MembersOf(m, keys[1..]));
    }
  }

  lemma {:induction false} PairOfBare(k: Str, v: Str)
    requires SimpleKey(k) && SimpleValue(v)
    ensures PairOf(k + [COLON] + v) == [k + [EQUALS] + v]
  {
    var kv := k + [COLON] + v;
    TrimmedAround(k, COLON, v);
    TrimOfTrimmed(kv);
    SplitNAppend(k, COLON, v, 2);
    TrimOfTrimmed(k);
    TrimOfTrimmed(v);
  }

  /** A piece without a colon contributes nothing. */
  lemma {:induction false} NoColonNothing(piece: Str)
    requires COLON !in piece
    ensures PairOf(piece) == []
  {
    var kv := TrimSpace(piece);
    TrimSpaceTrims(piece);
    IndexOfAbsent(kv, COLON);
  }

  lemma {:induction false} PairsOfBare(m: map<Str, Str>, keys: seq<Str>)
    requires Simple(m) && forall k :: k in keys ==> k in m
    ensures PairsOf(Bare(m, keys)) == KeyValues(m, keys)
  {
    if keys != [] {
      PairsOfBare(m, keys[1..]);
      PairOfBare(keys[0], m[keys[0]]);
    }
  }

  lemma {:induction false} BareCommaFree(m: map<Str, Str>, keys: seq<Str>)
    requires Simple(m) && forall k :: k in keys ==> k in m
    ensures forall p :: p in Bare(m, keys) ==> COMMA !in p
  {
    if keys != [] { BareCommaFree(m, keys[1..]); }
  }

  lemma {:induction false} Braces(s: Str)
    ensures TrimSuffix(TrimPrefix([LBRACE] + (s + [RBRACE]), LBRACE), RBRACE) == s
  {
    assert ([LBRACE] + (s + [RBRACE]))[1..] == s + [RBRACE];
  }

  /** For maps of simple strings the index text of the canonical object is the key-sorted list of its pairs. */
  lemma {:induction false} FlattenOfMarshal(m: map<Str, Str>)
    requires Simple(m)
    ensures Flattened(Marshal(m)) == Join(KeyValues(m, Sorted(m.Keys)), SEMICOLON)
  {
    var keys := Sorted(m.Keys);
    var ms := MembersOf(m, keys);
    TrimMarshal(m);
    if m.Keys == {} {
      assert m == map[];
      MarshalEmpty();
      assert keys == [];
    } else {
      NonEmptyMarshal(m);
      MembersAsJoin(ms);
      Braces(Join(MemberTexts(ms), COMMA));
      UnquoteJoin(MemberTexts(ms));
      UnquoteMembers(m, keys);
      BareCommaFree(m, keys);
      SplitJoin(Bare(m, keys), COMMA);
      PairsOfBare(m, keys);
    }
  }
}
