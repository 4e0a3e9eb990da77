/** Metadata objects (internal/metadata/metadata.go: NormalizeMetadata, MergeMetadata;
    internal/store/secrets.go: flattenMetadata). json.Unmarshal is a parameter. */
module MetadataJson {
  import opened Basics
  import opened Sorting
  import opened Text
  import Json
  import Utf8

  const MAX_PAIRS := 32
  const MAX_KEY_LEN := 64
  const MAX_VALUE_LEN := 256

  /** A decoded member: a string, or anything else. */
  datatype JsonValue = JsonString(text: Str) | JsonOther

  /** json.Unmarshal into a map; None is an error, and null is the empty map. */
  type Decoder = Str -> Option<map<Str, JsonValue>>

  const COLON: byte := 58
  const LBRACE: byte := 123
  const RBRACE: byte := 125
  const EQUALS: byte := 61
  const SEMICOLON: byte := 59

  function MemberOf(m: map<Str, Str>, k: Str): Json.Member
    requires k in m
  {
    Json.Member(Json.Quote(k) + [COLON], Json.Text(m[k]))
  }

  function MembersOf(m: map<Str, Str>, keys: seq<Str>): (ms: seq<Json.Member>)
    requires forall k :: k in keys ==> k in m
    ensures |ms| == |keys|
  {
    if keys == [] then [] else [MemberOf(m, keys[0])] + MembersOf(m, keys[1..])
  }

  /** json.Marshal of a map of strings: keys in order, no white space. */
  function Marshal(m: map<Str, Str>): Str { Json.Object(MembersOf(m, Sorted(m.Keys))) }

  predicate KeyOk(k: Str) { |k| <= MAX_KEY_LEN }

  predicate MemberOk(m: map<Str, JsonValue>, k: Str)
    requires k in m
  {
    KeyOk(k) && m[k].JsonString? && |m[k].text| <= MAX_VALUE_LEN
  }

  /** The checks of NormalizeMetadata. */
  predicate WithinLimits(m: map<Str, JsonValue>)
  {
    |m| <= MAX_PAIRS && forall k :: k in m ==> MemberOk(m, k)
  }

  function Texts(m: map<Str, JsonValue>): map<Str, Str>
  {
    map k | k in m && m[k].JsonString? :: m[k].text
  }

  /** What NormalizeMetadata returns; None is an error. Which of several violations it reports depends on
      the iteration order of a Go map, so they are not told apart. */
  function Normalized(dec: Decoder, raw: Str): Option<Str>
  {
    var t := TrimSpace(raw);
    if t == [] then Some([LBRACE, RBRACE])
    else match dec(t)
      case None => None
      case Some(m) => if WithinLimits(m) then Some(Marshal(Texts(m))) else None
  }

  method NormalizeMetadata(dec: Decoder, raw: Str) returns (r: Option<Str>)
    ensures r == Normalized(dec, raw)
  {
    var t := TrimSpace(raw);
    if t == [] { return Some([LBRACE, RBRACE]); }
    var decoded := dec(t);
    if decoded.None? { return None; }
    var m := decoded.value;
    if |m| > MAX_PAIRS { return None; }
    var out: map<Str, Str> := map[];
    var todo := m.Keys;
    while todo != {}
      invariant todo <= m.Keys && out.Keys == m.Keys - todo
      invariant forall k :: k in m.Keys - todo ==> MemberOk(m, k) && out[k] == m[k].text
      decreases |todo|
    {
      var k :| k in todo;
      if |k| > MAX_KEY_LEN { assert !MemberOk(m, k); return None; }
      if !m[k].JsonString? { assert !MemberOk(m, k); return None; }
      if |m[k].text| > MAX_VALUE_LEN { assert !MemberOk(m, k); return None; }
      out := out[k := m[k].text];
      todo := todo - {k};
    }
    assert out == Texts(m);
    return Some(Marshal(out));
  }

  function AsJson(m: map<Str, Str>): map<Str, JsonValue> { map k | k in m :: JsonString(m[k]) }

  ghost predicate ValidTexts(m: map<Str, Str>)
  {
    forall k :: k in m ==> Utf8.ValidUtf8(k) && Utf8.ValidUtf8(m[k])
  }

  /** What Go's decoder promises: it undoes json.Marshal on valid UTF-8, and yields only valid UTF-8. */
  ghost predicate DecoderCorrect(dec: Decoder)
  {
    (forall m: map<Str, Str> {:trigger Marshal(m)} :: ValidTexts(m) ==> dec(Marshal(m)) == Some(AsJson(m))) &&
    forall s: Str {:trigger dec(s)} :: dec(s).Some? ==> ValidTexts(Texts(dec(s).value))
  }

  /** An object starts with a brace and ends with one, so trimming leaves it alone. */
  lemma {:induction false} MembersEnd(ms: seq<Json.Member>)
    ensures var s := Json.Members(ms); s[|s| - 1] == RBRACE
  {
    if ms != [] { MembersEnd(ms[1..]); }
  }

  lemma {:induction false} TrimMarshal(m: map<Str, Str>)
    ensures TrimSpace(Marshal(m)) == Marshal(m) && Marshal(m) != []
  {
    var ms := MembersOf(m, Sorted(m.Keys));
    MembersEnd(ms);
    assert Json.Object(ms)[0] == LBRACE;
    assert Json.Object(ms)[|Json.Object(ms)| - 1] == RBRACE;
    TrimmedByEnds(Marshal(m));
    TrimOfTrimmed(Marshal(m));
  }

  lemma {:induction false} MarshalEmpty()
    ensures Marshal(map[]) == [LBRACE, RBRACE]
  {
    var m: map<Str, Str> := map[];
    assert m.Keys == {};
    assert Sorted({}) == [];
  }

  lemma {:induction false} TextsAsJson(m: map<Str, Str>)
    ensures Texts(AsJson(m)) == m
  {}

  lemma {:induction false} AsJsonTexts(m: map<Str, JsonValue>)
    requires WithinLimits(m)
    ensures AsJson(Texts(m)) == m
  {
    forall k | k in m ensures k in Texts(m) && AsJson(Texts(m))[k] == m[k] { assert MemberOk(m, k); }
  }

  /** Normalizing canonical text checks the limits and changes nothing. */
  lemma {:induction false} NormalizeMarshal(dec: Decoder, m: map<Str, Str>)
    requires DecoderCorrect(dec) && ValidTexts(m)
    ensures Normalized(dec, Marshal(m)) == if WithinLimits(AsJson(m)) then Some(Marshal(m)) else None
  {
    TrimMarshal(m);
    TextsAsJson(m);
  }

  /** NormalizeMetadata is idempotent. */
  lemma {:induction false} NormalizeIdempotent(dec: Decoder, raw: Str)
    requires DecoderCorrect(dec) && Normalized(dec, raw).Some?
    ensures Normalized(dec, Normalized(dec, raw).value) == Normalized(dec, raw)
  {
    var t := TrimSpace(raw);
    if t == [] {
      MarshalEmpty();
      NormalizeMarshal(dec, map[]);
    } else {
      var m := dec(t).value;
      AsJsonTexts(m);
      NormalizeMarshal(dec, Texts(m));
    }
  }

  /** What is left of the old members, with the new ones over it. */
  function Overridden(m: map<Str, JsonValue>, added: map<Str, Str>, unset: seq<Str>): map<Str, JsonValue>
  {
    (m - Elements(unset)) + AsJson(added)
  }

  predicate HasOther(m: map<Str, JsonValue>) { exists k :: k in m && m[k].JsonOther? }

  /** The object to change; blank text is the empty one. */
  function BaseOf(dec: Decoder, base: Str): Option<map<Str, JsonValue>>
  {
    var t := TrimSpace(base);
    if t == [] || t == [LBRACE, RBRACE] then Some(map[]) else dec(t)
  }

  /** What MergeMetadata returns; None is an error. */
  function MergedMetadata(dec: Decoder, base: Str, added: map<Str, Str>, unset: seq<Str>): Option<Str>
  {
    match BaseOf(dec, base)
    case None => None
    case Some(m) =>
      var merged := Overridden(m, added, unset);
      if HasOther(merged) then None else Normalized(dec, Marshal(Texts(merged)))
  }

  /** The delete loop. */
  method RemoveAll(before: map<Str, JsonValue>, unset: seq<Str>) returns (m: map<Str, JsonValue>)
    ensures m == before - Elements(unset)
  {
    m := before;
    for i := 0 to |unset|
      invariant m == before - Elements(unset[..i])
    {
      assert unset[..i + 1] == unset[..i] + [unset[i]];
      m := m - {unset[i]};
    }
    assert unset[..|unset|] == unset;
  }

  /** The set loop, whose order does not matter. */
  method SetAll(before: map<Str, JsonValue>, added: map<Str, Str>) returns (m: map<Str, JsonValue>)
    ensures m == before + AsJson(added)
  {
    m := before;
    var todo := added.Keys;
    while todo != {}
      invariant todo <= added.Keys
      invariant m.Keys == before.Keys + (added.Keys - todo)
      invariant forall k :: k in m ==> m[k] == if k in added && k !in todo then JsonString(added[k]) else before[k]
      decreases |todo|
    {
      var k :| k in todo;
      m := m[k := JsonString(added[k])];
      todo := todo - {k};
    }
  }

  method MergeMetadata(dec: Decoder, base: Str, added: map<Str, Str>, unset: seq<Str>) returns (r: Option<Str>)
    ensures r == MergedMetadata(dec, base, added, unset)
  {
    var m: map<Str, JsonValue> := map[];
    var t := TrimSpace(base);
    if t != [] && t != [LBRACE, RBRACE] {
      var decoded := dec(t);
      if decoded.None? { return None; }
      m := decoded.value;
    }
    m := RemoveAll(m, unset);
    m := SetAll(m, added);
    r := Rewrite(dec, m);
  }

  /** NormalizeMetadata of what toJSON writes; a member that is not a string is written out and then refused. */
  method Rewrite(dec: Decoder, m: map<Str, JsonValue>) returns (r: Option<Str>)
    ensures r == if HasOther(m) then None else Normalized(dec, Marshal(Texts(m)))
  {
    if HasOther(m) { return None; }
    r := NormalizeMetadata(dec, Marshal(Texts(m)));
  }

  /** On stored metadata MergeMetadata is removal, then override: what is set wins over what is unset. */
  lemma {:induction false} MergeIsOverride(dec: Decoder, before: map<Str, Str>, added: map<Str, Str>, unset: seq<Str>)
    requires DecoderCorrect(dec) && ValidTexts(before) && ValidTexts(added)
    ensures var merged := (before - Elements(unset)) + added;
      MergedMetadata(dec, Marshal(before), added, unset) ==
        if WithinLimits(AsJson(merged)) then Some(Marshal(merged)) else None
  {
    var merged := (before - Elements(unset)) + added;
    DecodedBase(dec, before);
    OverrideTexts(before, added, unset);
    TextsAsJson(merged);
    MergedValid(before, added, unset);
    NormalizeMarshal(dec, merged);
  }

  lemma {:induction false} DecodedBase(dec: Decoder, before: map<Str, Str>)
    requires DecoderCorrect(dec) && ValidTexts(before)
    ensures BaseOf(dec, Marshal(before)) == Some(AsJson(before))
  {
    TrimMarshal(before);
    if before.Keys == {} {
      assert before == map[] && AsJson(before) == map[];
      MarshalEmpty();
    } else {
      NonEmptyMarshal(before);
    }
  }

  lemma {:induction false} MergedValid(before: map<Str, Str>, added: map<Str, Str>, unset: seq<Str>)
    requires ValidTexts(before) && ValidTexts(added)
    ensures ValidTexts((before - Elements(unset)) + added)
  {}

  lemma {:induction false} OverrideTexts(before: map<Str, Str>, added: map<Str, Str>, unset: seq<Str>)
    ensures Overridden(AsJson(before), added, unset) == AsJson((before - Elements(unset)) + added)
    ensures !HasOther(AsJson((before - Elements(unset)) + added))
  {
    var m, n := Overridden(AsJson(before), added, unset), AsJson((before - Elements(unset)) + added);
    forall k ensures k in m <==> k in n {}
  }

  /** Only the empty map is written as two braces. */
  lemma {:induction false} NonEmptyMarshal(m: map<Str, Str>)
    requires m.Keys != {}
    ensures Sorted(m.Keys) != [] && Marshal(m) != [LBRACE, RBRACE]
  {
    var keys := Sorted(m.Keys);
    var k :| k in m.Keys;
    assert k in keys;
    var ms := MembersOf(m, keys);
    assert Marshal(m)[1] == ms[0].name[0] == QUOTE;
  }

  /** NormalizeMetadata accepts blank text, and otherwise exactly the objects of at most 32 strings of at most 256 bytes
      under keys of at most 64; what it returns stands for the same object, and depends on nothing else. */
  lemma {:induction false} NormalizedIff(dec: Decoder, raw: Str)
    requires DecoderCorrect(dec)
    ensures var t := TrimSpace(raw);
      (Normalized(dec, raw).Some? <==>
         t == [] ||
         (dec(t).Some? && |dec(t).value| <= 32 &&
          forall k :: k in dec(t).value ==>
            |k| <= 64 && dec(t).value[k].JsonString? && |dec(t).value[k].text| <= 256)) &&
      (Normalized(dec, raw).Some? ==> dec(Normalized(dec, raw).value) == if t == [] then Some(map[]) else dec(t))
  {
    var t := TrimSpace(raw);
    if t == [] {
      MarshalEmpty();
      assert dec(Marshal(map[])) == Some(AsJson(map[])) && AsJson(map[]) == map[];
    } else if dec(t).Some? {
      var m := dec(t).value;
      if forall k :: k in m ==> |k| <= 64 && m[k].JsonString? && |m[k].text| <= 256 {
        forall k | k in m ensures MemberOk(m, k) {}
      }
      if WithinLimits(m) {
        forall k | k in m ensures |k| <= 64 && m[k].JsonString? && |m[k].text| <= 256 { assert MemberOk(m, k); }
        AsJsonTexts(m);
        assert dec(Marshal(Texts(m))) == Some(AsJson(Texts(m)));
      }
    }
  }

  lemma {:induction false} NormalizedSame(dec: Decoder, raw: Str, other: Str)
    requires DecoderCorrect(dec) && Normalized(dec, raw).Some? && Normalized(dec, other).Some?
    requires dec(Normalized(dec, raw).value) == dec(Normalized(dec, other).value)
    ensures Normalized(dec, raw) == Normalized(dec, other)
  {
    NormalizedIff(dec, raw);
    NormalizedIff(dec, other);
    CanonicalOf(dec, raw);
    CanonicalOf(dec, other);
  }

  lemma {:induction false} CanonicalOf(dec: Decoder, raw: Str)
    requires DecoderCorrect(dec) && Normalized(dec, raw).Some?
    ensures dec(Normalized(dec, raw).value).Some?
    ensures Normalized(dec, raw) == Some(Marshal(Texts(dec(Normalized(dec, raw).value).value)))
  {
    NormalizedIff(dec, raw);
    MarshalEmpty();
    var none: map<Str, JsonValue> := map[];
    assert Texts(none) == map[];
  }

  lemma {:induction false} FitsIff(m: map<Str, Str>)
    ensures WithinLimits(AsJson(m)) <==> |m| <= 32 && forall k :: k in m ==> |k| <= 64 && |m[k]| <= 256
  {
    var j := AsJson(m);
    assert j.Keys == m.Keys;
    assert |j| == |j.Keys| && |m| == |m.Keys|;
    forall k | k in m ensures MemberOk(j, k) <==> |k| <= 64 && |m[k]| <= 256 {}
  }
}
