/** Unpadded base64url (section 5 of RFC 4648) as Go's base64.RawURLEncoding writes and reads it. */
module Base64 {
  import opened Basics

  type Sextet = d: int | 0 <= d < 64

  const LF: byte := 10
  const CR: byte := 13

  /** A-Z, a-z, 0-9, minus, underscore. */
  function Symbol(d: Sextet): byte
  {
    if d < 26 then 65 + d else if d < 52 then 71 + d else if d < 62 then d - 4 else if d == 62 then 45 else 95
  }

  function SextetOf(b: byte): Option<Sextet>
  {
    if 65 <= b <= 90 then Some(b - 65)
    else if 97 <= b <= 122 then Some(b - 71)
    else if 48 <= b <= 57 then Some(b + 4)
    else if b == 45 then Some(62)
    else if b == 95 then Some(63)
    else None
  }

  function Symbols(q: seq<Sextet>): (s: Str)
    ensures DOT !in s
  {
    if q == [] then [] else [Symbol(q[0])] + Symbols(q[1..])
  }

  /** The sextets of a text; line breaks are skipped, and any other foreign byte is an error. */
  function SextetsOf(s: Str): Option<seq<Sextet>>
  {
    if s == [] then Some([])
    else if s[0] == CR || s[0] == LF then SextetsOf(s[1..])
    else
      var rest := SextetsOf(s[1..]);
      if SextetOf(s[0]).None? || rest.None? then None else Some([SextetOf(s[0]).value] + rest.value)
  }

  /** Three bytes are four sextets; one byte left is two sextets and two bytes are three. */
  function Split64(s: Str): seq<Sextet>
  {
    if s == [] then []
    else if |s| == 1 then [s[0] / 4, s[0] % 4 * 16]
    else if |s| == 2 then [s[0] / 4, s[0] % 4 * 16 + s[1] / 16, s[1] % 16 * 4]
    else [s[0] / 4, s[0] % 4 * 16 + s[1] / 16, s[1] % 16 * 4 + s[2] / 64, s[2] % 64] + Split64(s[3..])
  }

  function Byte0(a: int, b: int): int { a * 4 + b / 16 }

  function Byte1(b: int, c: int): int { b % 16 * 16 + c / 4 }

  function Byte2(c: int, d: int): int { c % 4 * 64 + d }

  /** One sextet left over is an error; the unused low bits of the last sextet are ignored. */
  function Join64(q: seq<Sextet>): Option<Str>
  {
    if q == [] then Some([])
    else if |q| == 1 then None
    else if |q| == 2 then Some([Byte0(q[0], q[1])])
    else if |q| == 3 then Some([Byte0(q[0], q[1]), Byte1(q[1], q[2])])
    else
      var rest := Join64(q[4..]);
      if rest.None? then None else Some([Byte0(q[0], q[1]), Byte1(q[1], q[2]), Byte2(q[2], q[3])] + rest.value)
  }

  function Encode(s: Str): Str { Symbols(Split64(s)) }

  function Decode(s: Str): Option<Str>
  {
    var q := SextetsOf(s);
    if q.None? then None else Join64(q.value)
  }

  lemma {:induction false} SextetsOfSymbols(q: seq<Sextet>)
    ensures SextetsOf(Symbols(q)) == Some(q)
  {
    if q != [] {
      SextetsOfSymbols(q[1..]);
      assert Symbols(q)[1..] == Symbols(q[1..]);
      assert q == [q[0]] + q[1..];
    }
  }

  lemma {:induction false} GroupRoundTrip(a: byte, b: byte, c: byte)
    ensures Byte0(a / 4, a % 4 * 16 + b / 16) == a
    ensures Byte1(a % 4 * 16 + b / 16, b % 16 * 4 + c / 64) == b
    ensures Byte2(b % 16 * 4 + c / 64, c % 64) == c
  {}

  /** The sextets of the first group, and what they stand for. */
  lemma {:induction false} FirstGroup(s: Str) returns (w: Sextet, x: Sextet, y: Sextet, z: Sextet)
    requires |s| > 2
    ensures Split64(s) == [w, x, y, z] + Split64(s[3..])
    ensures Byte0(w, x) == s[0] && Byte1(x, y) == s[1] && Byte2(y, z) == s[2]
  {
    var q := Split64(s);
    w, x, y, z := q[0], q[1], q[2], q[3];
    GroupRoundTrip(s[0], s[1], s[2]);
  }

  lemma {:induction false} JoinStep(w: Sextet, x: Sextet, y: Sextet, z: Sextet, q: seq<Sextet>, a: byte, b: byte,
                                    c: byte)
    requires Join64(q).Some? && Byte0(w, x) == a && Byte1(x, y) == b && Byte2(y, z) == c
    ensures Join64([w, x, y, z] + q) == Some([a, b, c] + Join64(q).value)
  {
    assert ([w, x, y, z] + q)[4..] == q;
  }

  lemma {:induction false} OneLeft(s: Str) returns (w: Sextet, x: Sextet)
    requires |s| == 1
    ensures Split64(s) == [w, x] && Byte0(w, x) == s[0]
  {
    w, x := Split64(s)[0], Split64(s)[1];
    GroupRoundTrip(s[0], 0, 0);
  }

  lemma {:induction false} TwoLeft(s: Str) returns (w: Sextet, x: Sextet, y: Sextet)
    requires |s| == 2
    ensures Split64(s) == [w, x, y] && Byte0(w, x) == s[0] && Byte1(x, y) == s[1]
  {
    var q := Split64(s);
    w, x, y := q[0], q[1], q[2];
    GroupRoundTrip(s[0], s[1], 0);
  }

  lemma {:induction false} JoinShort(w: Sextet, x: Sextet, y: Sextet, a: byte, b: byte)
    ensures Byte0(w, x) == a ==> Join64([w, x]) == Some([a])
    ensures Byte0(w, x) == a && Byte1(x, y) == b ==> Join64([w, x, y]) == Some([a, b])
  {}

  lemma {:induction false} JoinOfSplit(s: Str)
    ensures Join64(Split64(s)) == Some(s)
    decreases |s|
  {
    if |s| == 1 {
      var w, x := OneLeft(s);
      JoinShort(w, x, 0, s[0], 0);
      assert s == [s[0]];
    } else if |s| == 2 {
      var w, x, y := TwoLeft(s);
      JoinShort(w, x, y, s[0], s[1]);
      assert s == [s[0], s[1]];
    } else if |s| > 2 {
      JoinOfSplit(s[3..]);
      var w, x, y, z := FirstGroup(s);
      JoinStep(w, x, y, z, Split64(s[3..]), s[0], s[1], s[2]);
      assert s == [s[0], s[1], s[2]] + s[3..];
    }
  }

  lemma {:induction false} DecodeEncode(s: Str)
    ensures Decode(Encode(s)) == Some(s)
  {
    SextetsOfSymbols(Split64(s));
    JoinOfSplit(s);
  }

  lemma {:induction false} EncodeGroup(a: byte, b: byte, c: byte, t: Str)
    ensures Encode([a, b, c] + t) ==
      [Symbol(a as int / 4), Symbol(a as int % 4 * 16 + b as int / 16), Symbol(b as int % 16 * 4 + c as int / 64),
       Symbol(c as int % 64)] + Encode(t)
  {
    var s := [a, b, c] + t;
    assert s[0] == a && s[1] == b && s[2] == c && s[3..] == t;
    SymbolsOfFour(a as int / 4, a as int % 4 * 16 + b as int / 16, b as int % 16 * 4 + c as int / 64, c as int % 64,
                  Split64(t));
  }

  lemma {:induction false} SymbolsOfFour(w: Sextet, x: Sextet, y: Sextet, z: Sextet, q: seq<Sextet>)
    ensures Symbols([w, x, y, z] + q) == [Symbol(w), Symbol(x), Symbol(y), Symbol(z)] + Symbols(q)
  {
    var a, b, c, d := [w, x, y, z] + q, [x, y, z] + q, [y, z] + q, [z] + q;
    assert a[1..] == b && b[1..] == c && c[1..] == d && d[1..] == q;
    assert Symbols(d) == [Symbol(z)] + Symbols(q);
    assert Symbols(c) == [Symbol(y), Symbol(z)] + Symbols(q);
    assert Symbols(b) == [Symbol(x), Symbol(y), Symbol(z)] + Symbols(q);
  }

  lemma {:induction false} EncodeShort(a: byte, b: byte)
    ensures Encode([a]) == [Symbol(a as int / 4), Symbol(a as int % 4 * 16)]
    ensures Encode([a, b]) ==
      [Symbol(a as int / 4), Symbol(a as int % 4 * 16 + b as int / 16), Symbol(b as int % 16 * 4)]
  {
    var p: seq<Sextet> := [a as int / 4, a as int % 4 * 16];
    var q: seq<Sextet> := [a as int / 4, a as int % 4 * 16 + b as int / 16, b as int % 16 * 4];
    assert p[1..][1..] == [] && q[1..][1..][1..] == [];
    assert Symbols(q[1..][1..]) == [Symbol(q[2])];
    assert Symbols(q[1..]) == [Symbol(q[1]), Symbol(q[2])];
    assert Symbols(p[1..]) == [Symbol(p[1])];
  }

  // --- test vectors ---

  /** "foobar", of section 10 of RFC 4648. */
  lemma {:induction false} VectorOfSix()
    ensures Encode([102, 111, 111] + [98, 97, 114]) == [90, 109, 57, 118, 89, 109, 70, 121]
  {
    EncodeGroup(102, 111, 111, [98, 97, 114]);
    EncodeGroup(98, 97, 114, []);
    assert [98, 97, 114] + [] == [98, 97, 114];
  }

  /** "fooba". */
  lemma {:induction false} VectorOfFive()
    ensures Encode([102, 111, 111] + [98, 97]) == [90, 109, 57, 118, 89, 109, 69]
  {
    EncodeGroup(102, 111, 111, [98, 97]);
    EncodeShort(98, 97);
  }

  /** "foob". */
  lemma {:induction false} VectorOfFour()
    ensures Encode([102, 111, 111] + [98]) == [90, 109, 57, 118, 89, 103]
  {
    EncodeGroup(102, 111, 111, [98]);
    EncodeShort(98, 98);
  }

  /** The two symbols of the alphabet of its section 5. */
  lemma {:induction false} VectorOfSymbols()
    ensures Encode([0xFB, 0xFF]) == [45, 95, 56]
  {
    EncodeShort(0xFB, 0xFF);
  }
}
