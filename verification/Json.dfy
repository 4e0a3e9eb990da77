/** JSON strings as Go's encoding/json writes them (section 7 of RFC 8259), with its HTML escaping on. */
module Json {
  import opened Basics
  import opened Decimal
  import opened Utf8

  /** A lower-case hexadecimal digit. */
  function Hex(d: int): byte
    requires 0 <= d < 16
  {
    if d < 10 then 48 + d else 87 + d
  }

  /** The one-letter escapes; 0 stands for "none". */
  function ShortEscape(b: byte): byte
  {
    if b == QUOTE || b == BACKSLASH then b
    else if b == 8 then 98        // \b
    else if b == 12 then 102      // \f
    else if b == 10 then 110      // \n
    else if b == 13 then 114      // \r
    else if b == 9 then 116       // \t
    else 0
  }

  /** Control characters, and the < > & that encoding/json keeps out of its output. */
  predicate NeedsHex(b: byte) { b < 0x20 || b == 60 || b == 62 || b == 38 }

  /** The output for one decoded rune; an ill-formed byte becomes the six characters \ufffd. */
  function Escape(r: Rune): (e: Str)
    requires IsRune(r)
    ensures e != [] && e[0] != QUOTE
  {
    match r
    case None => [BACKSLASH, 117, 102, 102, 102, 100]
    case Some(s) =>
      if s[0] < 0x80 then
        if ShortEscape(s[0]) != 0 then [BACKSLASH, ShortEscape(s[0])]
        else if NeedsHex(s[0]) then [BACKSLASH, 117, 48, 48, Hex(s[0] as int / 16), Hex(s[0] as int % 16)]
        else s
      else if s == [0xE2, 0x80, 0xA8] || s == [0xE2, 0x80, 0xA9] then
        [BACKSLASH, 117, 50, 48, 50, Hex(s[2] as int % 16)]
      else s
  }

  function EscapeAll(rs: seq<Rune>): Str
    requires forall r :: r in rs ==> IsRune(r)
  {
    if rs == [] then [] else Escape(rs[0]) + EscapeAll(rs[1..])
  }

  function Quote(s: Str): Str
  {
    [QUOTE] + EscapeAll(Runes(s)) + [QUOTE]
  }

  /** The width of a rune is fixed by its first byte. */
  lemma {:induction false} WidthByFirstByte(a: Str, b: Str)
    requires IsRune(Some(a)) && IsRune(Some(b)) && a[0] == b[0]
    ensures |a| == |b|
  {}

  /** No escaped rune is a proper prefix of another, and different runes are written differently. */
  lemma {:induction false} EscapeUnambiguous(a: Rune, b: Rune, t: Str, u: Str)
    requires IsRune(a) && IsRune(b)
    requires Escape(a) + t == Escape(b) + u
    ensures a == b && t == u
  {
    var s := Escape(a) + t;
    assert s[..|Escape(a)|] == Escape(a) && s[|Escape(a)|..] == t;
    assert s[..|Escape(b)|] == Escape(b) && s[|Escape(b)|..] == u;
    assert s[0] == Escape(a)[0] == Escape(b)[0];
    if s[0] == BACKSLASH {
      assert s[1] == Escape(a)[1] == Escape(b)[1];
    } else {
      WidthByFirstByte(a.value, b.value);
    }
    EscapeInjective(a, b);
  }

  lemma {:induction false} EscapeInjective(a: Rune, b: Rune)
    requires IsRune(a) && IsRune(b)
    requires Escape(a) == Escape(b)
    ensures a == b
  {
    var e, f := Escape(a), Escape(b);
    assert a.Some? && a.value[0] < 0x80 ==> a.value == [a.value[0]];
    assert b.Some? && b.value[0] < 0x80 ==> b.value == [b.value[0]];
    if e[0] == BACKSLASH && |e| == 6 {
      assert e[2] == f[2] && e[4] == f[4] && e[5] == f[5];
    } else if e[0] == BACKSLASH {
      assert e[1] == f[1];
    }
  }

  lemma {:induction false} EscapeAllHead(a: seq<Rune>, t: Str)
    requires forall r :: r in a ==> IsRune(r)
    ensures (EscapeAll(a) + [QUOTE] + t)[0] == QUOTE <==> a == []
  {
    if a != [] {
      assert (EscapeAll(a) + [QUOTE] + t)[0] == Escape(a[0])[0];
    }
  }

  lemma {:induction false} EscapeAllStep(a: seq<Rune>, t: Str)
    requires a != [] && forall r :: r in a ==> IsRune(r)
    ensures EscapeAll(a) + [QUOTE] + t == Escape(a[0]) + (EscapeAll(a[1..]) + [QUOTE] + t)
  {}

  lemma {:induction false} EscapeAllUnambiguous(a: seq<Rune>, b: seq<Rune>, t: Str, u: Str)
    requires forall r :: r in a ==> IsRune(r)
    requires forall r :: r in b ==> IsRune(r)
    requires EscapeAll(a) + [QUOTE] + t == EscapeAll(b) + [QUOTE] + u
    ensures a == b && t == u
  {
    EscapeAllHead(a, t);
    EscapeAllHead(b, u);
    if a == [] {
      var s := EscapeAll(a) + [QUOTE] + t;
      assert s[1..] == t && s[1..] == u;
    } else {
      EscapeAllStep(a, t);
      EscapeAllStep(b, u);
      var a', b' := EscapeAll(a[1..]) + [QUOTE] + t, EscapeAll(b[1..]) + [QUOTE] + u;
      EscapeUnambiguous(a[0], b[0], a', b');
      EscapeAllUnambiguous(a[1..], b[1..], t, u);
      assert a == [a[0]] + a[1..] && b == [b[0]] + b[1..];
    }
  }

  /** A quoted string can be read back in one way, whatever follows it: up to the ill-formed bytes. */
  lemma {:induction false} QuoteUnambiguous(a: Str, b: Str, t: Str, u: Str)
    requires Quote(a) + t == Quote(b) + u
    ensures Runes(a) == Runes(b) && t == u
  {
    var s, s' := EscapeAll(Runes(a)) + [QUOTE] + t, EscapeAll(Runes(b)) + [QUOTE] + u;
    assert Quote(a) + t == [QUOTE] + s;
    assert Quote(b) + u == [QUOTE] + s';
    CancelPrefix([QUOTE], s, s');
    EscapeAllUnambiguous(Runes(a), Runes(b), t, u);
  }

  /** Exactly when two strings are written alike. */
  lemma {:induction false} QuoteEqualIff(a: Str, b: Str)
    ensures Quote(a) == Quote(b) <==> Runes(a) == Runes(b)
  {
    if Quote(a) == Quote(b) { QuoteUnambiguous(a, b, [], []); }
  }

  /** A string is the only one with its encoding exactly when it is valid UTF-8. */
  lemma {:induction false} QuoteUniqueIff(a: Str)
    ensures (forall b :: Quote(b) == Quote(a) ==> b == a) <==> ValidUtf8(a)
  {
    if ValidUtf8(a) {
      forall b | Quote(b) == Quote(a) ensures b == a {
        QuoteEqualIff(a, b);
        FlattenRunes(a);
        FlattenRunes(b);
      }
    } else {
      RespellSameRunes(a);
      assert Quote(Respell(a)) == Quote(a);
    }
  }

  /** The values that the vault's objects hold. */
  datatype Value = Text(text: Str) | Number(number: int)

  /** A quoted key with its colon, and the value behind it. */
  datatype Member = Member(name: Str, value: Value)

  function ValueText(v: Value): Str
  {
    match v
    case Text(s) => Quote(s)
    case Number(n) => Dec(n)
  }

  /** The members from one on, each with the comma or closing brace behind it. */
  function Members(ms: seq<Member>): (s: Str)
    ensures s != [] && (ms == [] ==> EndsNumber(s))
  {
    if ms == [] then [125] else
    ms[0].name + ValueText(ms[0].value) + (if |ms| == 1 then [] else [44]) + Members(ms[1..])
  }

  /** An object as json.Marshal writes a map: no white space. */
  function Object(ms: seq<Member>): Str { [123] + Members(ms) }

  /** The value of a member, and what follows it. */
  lemma {:induction false} ValueUnambiguous(v: Value, w: Value, t: Str, u: Str)
    requires v.Text? == w.Text? && EndsNumber(t) && EndsNumber(u)
    requires ValueText(v) + t == ValueText(w) + u
    ensures t == u && (v.Number? ==> v == w) && (v.Text? ==> Runes(v.text) == Runes(w.text))
  {
    if v.Text? { QuoteUnambiguous(v.text, w.text, t, u); } else { DecUnambiguous(v.number, w.number, t, u); }
  }

  /** Two members with the same key that differ at most in ill-formed bytes. */
  predicate SameMember(m: Member, n: Member)
  {
    m.name == n.name && m.value.Text? == n.value.Text? &&
    (if m.value.Text? then Runes(m.value.text) == Runes(n.value.text) else m.value == n.value)
  }

  function Tail(ms: seq<Member>): (s: Str)
    requires ms != []
    ensures EndsNumber(s)
  {
    (if |ms| == 1 then [] else [44]) + Members(ms[1..])
  }

  lemma {:induction false} MembersStep(ms: seq<Member>)
    requires ms != []
    ensures Members(ms) == ms[0].name + (ValueText(ms[0].value) + Tail(ms))
  {}

  /** Objects with the same keys and kinds of value are written alike exactly when their values agree. */
  lemma {:induction false} MembersEqualIff(a: seq<Member>, b: seq<Member>)
    requires |a| == |b|
    requires forall i :: 0 <= i < |a| ==> a[i].name == b[i].name && a[i].value.Text? == b[i].value.Text?
    ensures Members(a) == Members(b) <==> forall i :: 0 <= i < |a| ==> SameMember(a[i], b[i])
  {
    if a != [] {
      MembersStep(a);
      MembersStep(b);
      MembersEqualIff(a[1..], b[1..]);
      assert (forall i :: 0 <= i < |a| ==> SameMember(a[i], b[i])) <==>
        SameMember(a[0], b[0]) && forall i :: 0 <= i < |a[1..]| ==> SameMember(a[1..][i], b[1..][i])
      by { SplitForall(a, b); }
      var k := a[0].name;
      var s, t := ValueText(a[0].value) + Tail(a), ValueText(b[0].value) + Tail(b);
      if Members(a) == Members(b) {
        assert (k + s)[|k|..] == s && (k + t)[|k|..] == t;
        ValueUnambiguous(a[0].value, b[0].value, Tail(a), Tail(b));
        TailEqual(a, b);
      } else if SameMember(a[0], b[0]) && Members(a[1..]) == Members(b[1..]) {
        if a[0].value.Text? { QuoteEqualIff(a[0].value.text, b[0].value.text); }
      }
    }
  }

  lemma {:induction false} TailEqual(a: seq<Member>, b: seq<Member>)
    requires |a| == |b| && a != [] && Tail(a) == Tail(b)
    ensures Members(a[1..]) == Members(b[1..])
  {
    if |a| > 1 {
      assert Tail(a)[1..] == Members(a[1..]) && Tail(b)[1..] == Members(b[1..]);
    }
  }

  lemma {:induction false} SplitForall(a: seq<Member>, b: seq<Member>)
    requires |a| == |b| && a != []
    ensures (forall i :: 0 <= i < |a| ==> SameMember(a[i], b[i])) <==>
      SameMember(a[0], b[0]) && forall i :: 0 <= i < |a[1..]| ==> SameMember(a[1..][i], b[1..][i])
  {
    if SameMember(a[0], b[0]) && forall i :: 0 <= i < |a[1..]| ==> SameMember(a[1..][i], b[1..][i]) {
      forall i | 0 <= i < |a| ensures SameMember(a[i], b[i]) {
        if i > 0 { assert SameMember(a[1..][i - 1], b[1..][i - 1]); }
      }
    } else if forall i :: 0 <= i < |a| ==> SameMember(a[i], b[i]) {
      forall i | 0 <= i < |a[1..]| ensures SameMember(a[1..][i], b[1..][i]) {
        assert SameMember(a[i + 1], b[i + 1]);
      }
    }
  }

  lemma {:induction false} ObjectEqualIff(a: seq<Member>, b: seq<Member>)
    requires |a| == |b|
    requires forall i :: 0 <= i < |a| ==> a[i].name == b[i].name && a[i].value.Text? == b[i].value.Text?
    ensures Object(a) == Object(b) <==> forall i :: 0 <= i < |a| ==> SameMember(a[i], b[i])
  {
    MembersEqualIff(a, b);
    assert Object(a)[1..] == Members(a) && Object(b)[1..] == Members(b);
  }

  // --- reading back ---

  function HexValue(b: byte): Option<int>
  {
    if 48 <= b <= 57 then Some(b as int - 48)
    else if 97 <= b <= 102 then Some(b as int - 87)
    else if 65 <= b <= 70 then Some(b as int - 55)
    else None
  }

  function Hex4(s: Str): Option<int>
    requires |s| == 4
  {
    var a, b, c, d := HexValue(s[0]), HexValue(s[1]), HexValue(s[2]), HexValue(s[3]);
    if a.None? || b.None? || c.None? || d.None? then None
    else Some(a.value * 4096 + b.value * 256 + c.value * 16 + d.value)
  }

  /** The character of a one-letter escape (section 7 of RFC 8259). */
  function LetterEscape(b: byte): Option<byte>
  {
    if b == QUOTE || b == BACKSLASH || b == SLASH then Some(b)
    else if b == 98 then Some(8)
    else if b == 102 then Some(12)
    else if b == 110 then Some(10)
    else if b == 114 then Some(13)
    else if b == 116 then Some(9)
    else None
  }

  /** What stands between the quotes of a JSON string, read as section 7 of RFC 8259 says; surrogates do not occur here. */
  function Unescaped(s: Str): Option<Str>
  {
    if s == [] then Some([])
    else if s[0] == QUOTE || s[0] < 0x20 then None
    else if s[0] != BACKSLASH then Prepended([s[0]], Unescaped(s[1..]))
    else if |s| >= 2 && LetterEscape(s[1]).Some? then Prepended([LetterEscape(s[1]).value], Unescaped(s[2..]))
    else if |s| >= 6 && s[1] == 117 && Hex4(s[2..6]).Some? && Scalar(Hex4(s[2..6]).value) then
      Prepended(EncodeRune(Hex4(s[2..6]).value), Unescaped(s[6..]))
    else None
  }

  function Prepended(x: Str, rest: Option<Str>): Option<Str> { if rest.None? then None else Some(x + rest.value) }

  lemma {:induction false} PrependedTwice(x: Str, y: Str, rest: Option<Str>)
    ensures Prepended(x, Prepended(y, rest)) == Prepended(x + y, rest)
  {
    if rest.Some? { ConcatAssoc(x, y, rest.value); }
  }

  /** Bytes above ASCII stand for themselves. */
  lemma {:induction false} UnescapedBytes(x: Str, rest: Str)
    requires forall b :: b in x ==> b >= 0x80
    ensures Unescaped(x + rest) == Prepended(x, Unescaped(rest))
  {
    if x == [] {
      assert x + rest == rest;
      if Unescaped(rest).Some? { assert [] + Unescaped(rest).value == Unescaped(rest).value; }
    } else {
      assert x[0] in x && (x + rest)[0] == x[0] && (x + rest)[1..] == x[1..] + rest;
      assert forall b :: b in x[1..] ==> b in x;
      UnescapedBytes(x[1..], rest);
      PrependedTwice([x[0]], x[1..], Unescaped(rest));
      assert [x[0]] + x[1..] == x;
    }
  }

  /** The character of a rune; U+FFFD for an ill-formed byte. */
  function Character(r: Rune): Str { if r.Some? then r.value else [0xEF, 0xBF, 0xBD] }

  lemma {:induction false} UnescapedRune(r: Rune, rest: Str)
    requires IsRune(r)
    ensures Unescaped(Escape(r) + rest) == Prepended(Character(r), Unescaped(rest))
  {
    var e := Escape(r);
    var s := e + rest;
    assert s[|e|..] == rest && s[0] == e[0];
    if r.Some? && r.value[0] < 0x80 {
      assert r.value == [r.value[0]];
      UnescapedAscii(r.value[0], rest);
    } else if r.Some? && e == r.value {
      forall b | b in r.value ensures b >= 0x80 {}
      UnescapedBytes(r.value, rest);
    } else {
      assert s[2..6] == e[2..6] && s[1] == 117 && |e| == 6;
    }
  }

  lemma {:induction false} UnescapedAscii(b: byte, rest: Str)
    requires b < 0x80
    ensures IsRune(Some([b]))
    ensures Unescaped(Escape(Some([b])) + rest) == Prepended([b], Unescaped(rest))
  {
    var e := Escape(Some([b]));
    var s := e + rest;
    assert s[|e|..] == rest && s[0] == e[0];
    if |e| == 6 {
      assert s[2..6] == e[2..6];
      assert s[2..6] == [48, 48, Hex(b as int / 16), Hex(b as int % 16)];
      HexOf(b as int / 16);
      HexOf(b as int % 16);
    } else if |e| == 2 {
      assert s[1] == e[1];
    }
  }

  lemma {:induction false} HexOf(d: int)
    requires 0 <= d < 16
    ensures HexValue(Hex(d)) == Some(d)
  {}

  /** A quoted string is a JSON string, and reads back as its text with U+FFFD for every ill-formed byte. */
  lemma {:induction false} QuoteReadsBack(s: Str) returns (body: Str)
    ensures Quote(s) == [QUOTE] + body + [QUOTE] && Unescaped(body) == Some(ToValid(Runes(s)))
  {
    body := EscapeAll(Runes(s));
    EscapedReadsBack(Runes(s));
  }

  lemma {:induction false} EscapedReadsBack(rs: seq<Rune>)
    requires forall r :: r in rs ==> IsRune(r)
    ensures Unescaped(EscapeAll(rs)) == Some(ToValid(rs))
  {
    if rs != [] {
      assert forall r :: r in rs[1..] ==> r in rs;
      EscapedReadsBack(rs[1..]);
      assert rs[0] in rs;
      UnescapedRune(rs[0], EscapeAll(rs[1..]));
    }
  }


  /** No control character and no < > & stands in the output. */
  lemma {:induction false} QuoteSafe(s: Str)
    ensures forall b :: b in Quote(s) ==> b >= 32 && b != 60 && b != 62 && b != 38
  {
    AllSafe(Runes(s));
  }

  lemma {:induction false} AllSafe(rs: seq<Rune>)
    requires forall r :: r in rs ==> IsRune(r)
    ensures forall b :: b in EscapeAll(rs) ==> b >= 32 && b != 60 && b != 62 && b != 38
  {
    if rs != [] {
      AllSafe(rs[1..]);
      EscapeSafe(rs[0]);
    }
  }

  lemma {:induction false} EscapeSafe(r: Rune)
    requires IsRune(r)
    ensures forall b :: b in Escape(r) ==> b >= 32 && b != 60 && b != 62 && b != 38
  {
    if r.Some? && r.value[0] >= 0x80 {
      forall i | 0 <= i < |r.value| ensures r.value[i] >= 0x80 {}
    }
  }

  predicate PlainByte(b: byte) { 32 <= b < 127 && b != 34 && b != 92 && b != 60 && b != 62 && b != 38 }

  /** Other printable ASCII text stands between quotes as it is. */
  lemma {:induction false} PlainQuoted(s: Str)
    requires forall b :: b in s ==> PlainByte(b)
    ensures Quote(s) == [34] + s + [34]
  {
    PlainEscaped(s);
  }

  lemma {:induction false} PlainEscaped(s: Str)
    requires forall b :: b in s ==> PlainByte(b)
    ensures EscapeAll(Runes(s)) == s
  {
    if s != [] {
      assert PlainByte(s[0]);
      assert forall b :: b in s[1..] ==> b in s;
      PlainEscaped(s[1..]);
      PlainRune(s);
      PlainStep(Runes(s), s[0]);
    }
  }

  lemma {:induction false} PlainStep(rs: seq<Rune>, b: byte)
    requires rs != [] && rs[0] == Some([b]) && PlainByte(b) && forall r :: r in rs ==> IsRune(r)
    ensures EscapeAll(rs) == [b] + EscapeAll(rs[1..])
  {}

  lemma {:induction false} PlainRune(s: Str)
    requires s != [] && s[0] < 0x80
    ensures Runes(s)[0] == Some([s[0]]) && Runes(s)[1..] == Runes(s[1..]) && s == [s[0]] + s[1..]
  {
    assert DecodeRune(s) == (s[0] as int, 1);
    assert s[..1] == [s[0]];
  }
}
