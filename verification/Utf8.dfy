/** Rune decoding as in Go's unicode/utf8 (RFC 3629, section 4). */
module Utf8 {
  import opened Basics

  const RUNE_ERROR := 0xFFFD

  predicate Continuation(b: byte) { 0x80 <= b <= 0xBF }

  /** The second byte's range, which rules out overlong forms, surrogates and values past U+10FFFF. */
  predicate SecondOk(b0: byte, b1: byte)
  {
    (if b0 == 0xE0 then 0xA0 else if b0 == 0xF0 then 0x90 else 0x80) <= b1 <=
    (if b0 == 0xED then 0x9F else if b0 == 0xF4 then 0x8F else 0xBF)
  }

  /** The first rune and its width; an ill-formed start is RUNE_ERROR of width 1. */
  function DecodeRune(s: Str): (r: (int, nat))
    requires s != []
    ensures 1 <= r.1 <= |s| && r.1 <= 4
  {
    var b: int := s[0];
    if b < 0x80 then (b, 1)
    else if 0xC2 <= b <= 0xDF && |s| >= 2 && Continuation(s[1]) then
      ((b - 0xC0) * 64 + (s[1] as int - 0x80), 2)
    else if 0xE0 <= b <= 0xEF && |s| >= 3 && SecondOk(s[0], s[1]) && Continuation(s[2]) then
      ((b - 0xE0) * 4096 + (s[1] as int - 0x80) * 64 + (s[2] as int - 0x80), 3)
    else if 0xF0 <= b <= 0xF4 && |s| >= 4 && SecondOk(s[0], s[1]) && Continuation(s[2]) && Continuation(s[3]) then
      ((b - 0xF0) * 262144 + (s[1] as int - 0x80) * 4096 + (s[2] as int - 0x80) * 64 + (s[3] as int - 0x80), 4)
    else (RUNE_ERROR, 1)
  }

  predicate BadStart(s: Str)
    requires s != []
  {
    DecodeRune(s) == (RUNE_ERROR, 1)
  }

  /** One decoded step of a string: the bytes of a well-formed rune, or an ill-formed byte. */
  type Rune = Option<Str>

  /** A well-formed rune's bytes decode to exactly themselves. */
  predicate IsRune(r: Rune)
  {
    r.Some? ==> r.value != [] && !BadStart(r.value) && DecodeRune(r.value).1 == |r.value|
  }

  function Runes(s: Str): (rs: seq<Rune>)
    ensures forall r :: r in rs ==> IsRune(r)
    decreases |s|
  {
    if s == [] then [] else
    var n := DecodeRune(s).1;
    [if BadStart(s) then None else Some(s[..n])] + Runes(s[n..])
  }

  /** A well-formed rune is decoded from its own bytes alone. */
  lemma {:induction false} DecodePrefix(s: Str, t: Str)
    requires s != [] && !BadStart(s)
    requires s[..DecodeRune(s).1] <= t
    ensures DecodeRune(t) == DecodeRune(s)
  {
    var n := DecodeRune(s).1;
    assert forall i | 0 <= i < n :: t[i] == s[..n][i] == s[i];
  }

  predicate ValidUtf8(s: Str) { None !in Runes(s) }

  lemma {:induction false} FirstRune(s: Str) returns (x: Str, rest: Str)
    requires s != [] && ValidUtf8(s)
    ensures s == x + rest && |rest| < |s| && ValidUtf8(rest)
    ensures Runes(s) == [Some(x)] + Runes(rest)
  {
    var n := DecodeRune(s).1;
    x, rest := s[..n], s[n..];
    assert Runes(s)[0] == Some(x);
  }

  lemma {:induction false} AsciiValid(s: Str)
    requires forall b :: b in s ==> b < 0x80
    ensures ValidUtf8(s)
  {
    if s != [] {
      assert s[0] in s && forall b :: b in s[1..] ==> b in s;
      AsciiValid(s[1..]);
      assert Runes(s) == [Some(s[..1])] + Runes(s[1..]);
    }
  }

  /** Valid text in front is decoded on its own. */
  lemma {:induction false} RunesOfConcat(a: Str, b: Str)
    requires ValidUtf8(a)
    ensures Runes(a + b) == Runes(a) + Runes(b)
    decreases |a|
  {
    if a == [] {
      assert a + b == b;
    } else {
      var x, rest := FirstRune(a);
      RunesOfConcat(rest, b);
      RuneInFront(a, b, x, rest);
      ConcatAssoc([Some(x)], Runes(rest), Runes(b));
    }
  }

  lemma {:induction false} RuneInFront(a: Str, b: Str, x: Str, rest: Str)
    requires a != [] && a == x + rest && Runes(a) == [Some(x)] + Runes(rest)
    ensures Runes(a + b) == [Some(x)] + Runes(rest + b)
  {
    var n := DecodeRune(a).1;
    assert Runes(a)[0] == Some(x);
    assert x == a[..n] && rest == a[n..];
    assert (a + b)[..n] == x && (a + b)[n..] == rest + b;
    DecodePrefix(a, a + b);
  }

  lemma {:induction false} ValidConcat(a: Str, b: Str)
    requires ValidUtf8(a) && ValidUtf8(b)
    ensures ValidUtf8(a + b)
  {
    RunesOfConcat(a, b);
  }

  /** The bytes of the well-formed runes, one after the other. */
  function Flatten(rs: seq<Rune>): Str
  {
    if rs == [] then [] else (if rs[0].Some? then rs[0].value else []) + Flatten(rs[1..])
  }

  lemma {:induction false} FlattenRunes(s: Str)
    requires ValidUtf8(s)
    ensures Flatten(Runes(s)) == s
    decreases |s|
  {
    if s != [] {
      var x, rest := FirstRune(s);
      FlattenRunes(rest);
      assert ([Some(x)] + Runes(rest))[1..] == Runes(rest);
    }
  }

  /** `s` with its first ill-formed byte changed to another byte that no rune contains. */
  function Respell(s: Str): Str
    requires !ValidUtf8(s)
    decreases |s|
  {
    var n := DecodeRune(s).1;
    if BadStart(s) then [if s[0] == 0xFF then 0xFE else 0xFF] + s[1..]
    else s[..n] + Respell(s[n..])
  }

  lemma {:induction false} RespellSameRunes(s: Str)
    requires !ValidUtf8(s)
    ensures Respell(s) != s && Runes(Respell(s)) == Runes(s)
    decreases |s|
  {
    var n := DecodeRune(s).1;
    if BadStart(s) {
      assert Respell(s)[0] != s[0];
      assert Respell(s)[1..] == s[1..];
    } else {
      RespellSameRunes(s[n..]);
      var t := Respell(s);
      assert t[..n] == s[..n] && t[n..] == Respell(s[n..]);
      DecodePrefix(s, t);
    }
  }

  /** An ASCII byte behind a string never changes how the string is decoded. */
  lemma {:induction false} DecodeBeforeAscii(a: Str, c: byte, t: Str)
    requires a != [] && c < 0x80
    ensures DecodeRune(a + [c] + t) == DecodeRune(a)
  {
    var s := a + [c] + t;
    assert s[0] == a[0];
    assert |a| > 1 ==> s[1] == a[1];
    assert |a| > 2 ==> s[2] == a[2];
    assert |a| > 3 ==> s[3] == a[3];
    assert s[|a|] == c;
  }

  lemma {:induction false} RunesAppendAscii(a: Str, c: byte, t: Str)
    requires c < 0x80
    ensures Runes(a + [c] + t) == Runes(a) + [Some([c])] + Runes(t)
    decreases |a|
  {
    var s := a + [c] + t;
    if a == [] {
      assert s == [c] + t && s[1..] == t && s[..1] == [c];
    } else {
      DecodeBeforeAscii(a, c, t);
      var n := DecodeRune(a).1;
      assert s[..n] == a[..n] && s[n..] == a[n..] + [c] + t;
      RunesAppendAscii(a[n..], c, t);
    }
  }

  /** The string that ranging over `s` and appending string(r) builds: ill-formed bytes become U+FFFD. */
  function ToValid(rs: seq<Rune>): Str
  {
    if rs == [] then [] else
    (if rs[0].Some? then rs[0].value else [0xEF, 0xBF, 0xBD]) + ToValid(rs[1..])
  }

  lemma {:induction false} ToValidAppend(a: seq<Rune>, b: seq<Rune>)
    ensures ToValid(a + b) == ToValid(a) + ToValid(b)
  {
    if a == [] {
      assert a + b == b;
    } else {
      assert (a + b)[1..] == a[1..] + b;
      ToValidAppend(a[1..], b);
    }
  }

  /** Whatever it is built from, it is well-formed. */
  lemma {:induction false} ToValidIsValid(rs: seq<Rune>)
    requires forall r :: r in rs ==> IsRune(r)
    ensures ValidUtf8(ToValid(rs))
  {
    if rs != [] {
      assert forall r :: r in rs[1..] ==> r in rs;
      ToValidIsValid(rs[1..]);
      var x := if rs[0].Some? then rs[0].value else [0xEF, 0xBF, 0xBD];
      assert rs[0] in rs;
      OneRuneValid(x);
      ValidConcat(x, ToValid(rs[1..]));
    }
  }

  lemma {:induction false} OneRuneValid(x: Str)
    requires x != [] && !BadStart(x) && DecodeRune(x).1 == |x|
    ensures ValidUtf8(x)
  {
    assert x[..|x|] == x && x[|x|..] == [];
    assert Runes(x) == [Some(x)];
  }

  lemma {:induction false} ToValidOfValid(s: Str)
    requires ValidUtf8(s)
    ensures ToValid(Runes(s)) == s
    decreases |s|
  {
    if s != [] {
      var x, rest := FirstRune(s);
      ToValidOfValid(rest);
      assert ([Some(x)] + Runes(rest))[1..] == Runes(rest);
    }
  }

  /** Each ill-formed byte is written as three. */
  lemma {:induction false} ToValidGrows(s: Str)
    ensures |ToValid(Runes(s))| >= |s|
    ensures !ValidUtf8(s) ==> |ToValid(Runes(s))| > |s|
    decreases |s|
  {
    if s != [] {
      var n := DecodeRune(s).1;
      assert Runes(s)[1..] == Runes(s[n..]);
      ToValidGrows(s[n..]);
    }
  }

  lemma {:induction false} ToValidSameIff(s: Str)
    ensures ToValid(Runes(s)) == s <==> ValidUtf8(s)
  {
    ToValidGrows(s);
    if ValidUtf8(s) { ToValidOfValid(s); }
  }

  /** A Unicode scalar value: a code point that is no surrogate. */
  predicate Scalar(r: int) { 0 <= r < 0xD800 || 0xE000 <= r <= 0x10FFFF }

  /** Its bytes (section 3 of RFC 3629). */
  function EncodeRune(r: int): (s: Str)
    requires Scalar(r)
    ensures 1 <= |s| <= 4
  {
    if r < 0x80 then [r]
    else if r < 0x800 then [0xC0 + r / 64, 0x80 + r % 64]
    else if r < 0x10000 then [0xE0 + r / 4096, 0x80 + r / 64 % 64, 0x80 + r % 64]
    else [0xF0 + r / 262144, 0x80 + r / 4096 % 64, 0x80 + r / 64 % 64, 0x80 + r % 64]
  }

  /** The base-64 digits of a number. */
  lemma {:induction false} DigitsOf(a: int, b: int, c: int, d: int)
    requires 0 <= b < 64 && 0 <= c < 64 && 0 <= d < 64
    ensures (c * 64 + d) / 64 == c && (c * 64 + d) % 64 == d
    ensures var r := b * 4096 + c * 64 + d; r / 4096 == b && r / 64 % 64 == c && r % 64 == d
    ensures var r := a * 262144 + b * 4096 + c * 64 + d;
      r / 262144 == a && r / 4096 % 64 == b && r / 64 % 64 == c && r % 64 == d
  {
    LastDigit(c, d);
    LastDigit(b, c);
    LastDigit(b * 64 + c, d);
    LastDigit(a, b);
    LastDigit(a * 64 + b, c);
    LastDigit(a * 4096 + b * 64 + c, d);
    DividedTwice(b * 4096 + c * 64 + d);
    DividedTwice(a * 262144 + b * 4096 + c * 64 + d);
  }

  lemma {:induction false} LastDigit(x: int, d: int)
    requires 0 <= d < 64
    ensures (x * 64 + d) / 64 == x && (x * 64 + d) % 64 == d
  {}

  lemma {:induction false} DividedTwice(r: int)
    ensures r / 4096 == r / 64 / 64 && r / 262144 == r / 4096 / 64
  {}

  lemma {:induction false} DigitsBack(r: int)
    requires 0 <= r <= 0x10FFFF
    ensures r == r / 64 * 64 + r % 64 && 0 <= r % 64 < 64
    ensures r == r / 4096 * 4096 + r / 64 % 64 * 64 + r % 64 && 0 <= r / 64 % 64 < 64
    ensures r == r / 262144 * 262144 + r / 4096 % 64 * 4096 + r / 64 % 64 * 64 + r % 64 && 0 <= r / 4096 % 64 < 64
  {
    DividedTwice(r);
  }

  /** Decoding finds every encoded code point. */
  lemma {:induction false} DecodeOfEncode(r: int, t: Str)
    requires Scalar(r)
    ensures DecodeRune(EncodeRune(r) + t) == (r, |EncodeRune(r)|)
  {
    DigitsBack(r);
    if r < 0x80 {
      OneByte(r, t);
    } else if r < 0x800 {
      TwoByte(0xC0 + r / 64, 0x80 + r % 64, t);
    } else if r < 0x10000 {
      ThreeByte(0xE0 + r / 4096, 0x80 + r / 64 % 64, 0x80 + r % 64, r, t);
    } else {
      FourByte(0xF0 + r / 262144, 0x80 + r / 4096 % 64, 0x80 + r / 64 % 64, 0x80 + r % 64, r, t);
    }
  }

  lemma {:induction false} OneByte(a: byte, t: Str)
    requires a < 0x80
    ensures DecodeRune([a] + t) == (a as int, 1)
  {}

  lemma {:induction false} TwoByte(a: byte, b: byte, t: Str)
    requires 0xC2 <= a <= 0xDF && 0x80 <= b < 0xC0
    ensures DecodeRune([a, b] + t) == ((a as int - 0xC0) * 64 + (b as int - 0x80), 2)
  {
    var s := [a, b] + t;
    assert s[0] == a && s[1] == b;
  }

  lemma {:induction false} ThreeByte(a: byte, b: byte, c: byte, r: int, t: Str)
    requires 0xE0 <= a <= 0xEF && 0x80 <= b < 0xC0 && 0x80 <= c < 0xC0
    requires r == (a as int - 0xE0) * 4096 + (b as int - 0x80) * 64 + (c as int - 0x80) && Scalar(r) && r >= 0x800
    ensures DecodeRune([a, b, c] + t) == (r, 3)
  {
    var s := [a, b, c] + t;
    assert s[0] == a && s[1] == b && s[2] == c;
  }

  lemma {:induction false} FourByte(a: byte, b: byte, c: byte, d: byte, r: int, t: Str)
    requires 0xF0 <= a <= 0xF4 && 0x80 <= b < 0xC0 && 0x80 <= c < 0xC0 && 0x80 <= d < 0xC0
    requires r == (a as int - 0xF0) * 262144 + (b as int - 0x80) * 4096 + (c as int - 0x80) * 64 + (d as int - 0x80)
    requires 0x10000 <= r <= 0x10FFFF
    ensures DecodeRune([a, b, c, d] + t) == (r, 4)
  {
    var s := [a, b, c, d] + t;
    assert s[0] == a && s[1] == b && s[2] == c && s[3] == d;
  }

  /** And whatever it does not call ill-formed is one. */
  lemma {:induction false} EncodeOfDecode(s: Str)
    requires s != [] && !BadStart(s)
    ensures Scalar(DecodeRune(s).0) && s[..DecodeRune(s).1] == EncodeRune(DecodeRune(s).0)
  {
    var n := DecodeRune(s).1;
    if n == 2 {
      DigitsOf(0, 0, s[0] as int - 0xC0, s[1] as int - 0x80);
    } else if n == 3 {
      EncodeThree(s);
    } else if n == 4 {
      EncodeFour(s);
    }
  }

  lemma {:induction false} EncodeThree(s: Str)
    requires s != [] && DecodeRune(s).1 == 3
    ensures Scalar(DecodeRune(s).0) && [s[0], s[1], s[2]] == EncodeRune(DecodeRune(s).0) && s[..3] == [s[0], s[1], s[2]]
  {
    DigitsOf(0, s[0] as int - 0xE0, s[1] as int - 0x80, s[2] as int - 0x80);
  }

  lemma {:induction false} EncodeFour(s: Str)
    requires s != [] && DecodeRune(s).1 == 4
    ensures Scalar(DecodeRune(s).0) && [s[0], s[1], s[2], s[3]] == EncodeRune(DecodeRune(s).0)
    ensures s[..4] == [s[0], s[1], s[2], s[3]]
  {
    DigitsOf(s[0] as int - 0xF0, s[1] as int - 0x80, s[2] as int - 0x80, s[3] as int - 0x80);
  }
}
