/** Agent keys and their base62 digits (internal/token/token.go). */
module Token {
  import opened Basics
  import opened CryptoPrimitives

  const ZERO: byte := 48

  /** "sk_live_". */
  const KEY_PREFIX: Str := [115, 107, 95, 108, 105, 118, 101, 95]

  const KEY_BODY_BYTES := 24
  const CHECKSUM_BYTES := 4

  /** 0-9, A-Z, a-z. */
  function Digit(d: int): byte
    requires 0 <= d < 62
  {
    if d < 10 then 48 + d else if d < 36 then 55 + d else 61 + d
  }

  function DigitValue(b: byte): int { if b <= 57 then b - 48 else if b <= 90 then b - 55 else b - 61 }

  /** The digits of a positive number, most significant first. */
  function Digits(n: nat): (s: Str)
    ensures n > 0 ==> s != []
    ensures UNDERSCORE !in s
  {
    if n == 0 then [] else Digits(n / 62) + [Digit(n % 62)]
  }

  /** Reading digits back: base 62, most significant first. */
  function Value(s: Str): int
  {
    if s == [] then 0 else Value(s[..|s| - 1]) * 62 + DigitValue(s[|s| - 1])
  }

  /** The first eight bytes, as a big-endian number. */
  function Number(b: Str): nat { BigEndianValue(if |b| > 8 then b[..8] else b) }

  function Encoded(b: Str): Str
  {
    if b == [] then [] else if Number(b) == 0 then [ZERO] else Digits(Number(b))
  }

  lemma {:induction false} DigitsStep(n: nat, out: Str)
    requires n > 0
    ensures Digits(n) + out == Digits(n / 62) + ([Digit(n % 62)] + out)
  {}

  method Base62(b: Str) returns (r: Str)
    ensures r == Encoded(b)
  {
    if |b| == 0 { return []; }
    var n := Number(b);
    if n == 0 { return [ZERO]; }
    var out: Str := [];
    ghost var start := n;
    assert Digits(n) + [] == Digits(start);
    while n > 0
      invariant Digits(n) + out == Digits(start)
    {
      DigitsStep(n, out);
      out := [Digit(n % 62)] + out;
      n := n / 62;
    }
    assert [] + out == out;
    return out;
  }

  lemma {:induction false} ValueOfDigits(n: nat)
    ensures Value(Digits(n)) == n
  {
    if n > 0 {
      ValueOfDigits(n / 62);
      assert Digits(n)[..|Digits(n)| - 1] == Digits(n / 62);
    }
  }

  lemma {:induction false} NoLeadingZero(n: nat)
    requires n > 0
    ensures Digits(n)[0] != ZERO
  {
    if n >= 62 {
      NoLeadingZero(n / 62);
      assert Digits(n)[0] == Digits(n / 62)[0];
    }
  }

  function Pow62(k: nat): nat { if k == 0 then 1 else 62 * Pow62(k - 1) }

  lemma {:induction false} DigitsShort(n: nat, k: nat)
    requires n < Pow62(k)
    ensures |Digits(n)| <= k
  {
    if n > 0 { DigitsShort(n / 62, k - 1); }
  }

  lemma {:induction false} BigEndianBound(s: Str)
    ensures BigEndianValue(s) < Pow256(|s|)
  {
    if s != [] { BigEndianBound(s[..|s| - 1]); }
  }

  lemma {:induction false} Pow256Grows(j: nat, k: nat)
    requires j <= k
    ensures Pow256(j) <= Pow256(k)
  {
    if j < k { Pow256Grows(j, k - 1); }
  }

  lemma {:induction false} NumberBound(b: Str)
    ensures Number(b) < TWO_64
    ensures |b| <= 4 ==> Number(b) < 0x1_0000_0000
  {
    var s := if |b| > 8 then b[..8] else b;
    BigEndianBound(s);
    Pow256Grows(|s|, 8);
    if |s| <= 4 { Pow256Grows(|s|, 4); }
    assert Pow256(4) == 0x1_0000_0000;
    assert Pow256(6) == 0x1_0000_0000_0000;
    assert Pow256(8) == TWO_64;
  }

  lemma {:induction false} Powers()
    ensures Pow62(6) > 0x1_0000_0000 && Pow62(11) > TWO_64
  {
    assert Pow62(3) == 238328;
    assert Pow62(6) == 56800235584;
    assert Pow62(9) == 13537086546263552;
    assert Pow62(11) == 52036560683837093888;
  }

  /** base62 is positional: reading its digits gives the number back, without leading zeros, in at most 11 digits
      (6 for the checksum's 4 bytes). */
  lemma {:induction false} Base62Reads(b: Str)
    requires b != []
    ensures var r := Encoded(b);
      Value(r) == Number(b) && r != [] && (r[0] == ZERO <==> r == [ZERO]) &&
      |r| <= 11 && (|b| <= CHECKSUM_BYTES ==> |r| <= 6)
  {
    var n := Number(b);
    NumberBound(b);
    Powers();
    ValueOfDigits(n);
    if n == 0 {
      assert [ZERO][..0] == [];
    } else {
      NoLeadingZero(n);
      DigitsShort(n, 11);
      if |b| <= CHECKSUM_BYTES { DigitsShort(n, 6); }
    }
  }

  lemma {:induction false} BigEndianInjective(a: Str, b: Str)
    requires |a| == |b| && BigEndianValue(a) == BigEndianValue(b)
    ensures a == b
  {
    if a != [] {
      BigEndianInjective(a[..|a| - 1], b[..|b| - 1]);
      assert a == a[..|a| - 1] + [a[|a| - 1]] && b == b[..|b| - 1] + [b[|b| - 1]];
    }
  }

  function Leading(b: Str): Str { if |b| > 8 then b[..8] else b }

  /** The alphabet: digits, capitals, small letters. */
  lemma {:induction false} Base62Alphabet(d: byte)
    requires d < 62
    ensures Encoded([d]) ==
      [if d < 10 then '0' as int + d else if d < 36 then 'A' as int + (d - 10) else 'a' as int + (d - 36)]
  {
    assert BigEndianValue([d]) == d;
    if d > 0 { assert Digits(d) == Digits(0) + [Digit(d)]; }
  }

  /** Byte strings of one length are written alike exactly when their first eight bytes agree;
      up to eight bytes, base62 is injective. */
  lemma {:induction false} Base62EqualIff(a: Str, b: Str)
    requires |a| == |b|
    ensures Encoded(a) == Encoded(b) <==> Leading(a) == Leading(b)
    ensures |a| <= 8 ==> (Encoded(a) == Encoded(b) <==> a == b)
  {
    if a != [] && Encoded(a) == Encoded(b) {
      Base62Reads(a);
      Base62Reads(b);
      BigEndianInjective(Leading(a), Leading(b));
    }
  }

  /** The token of AgentKey for the random body; its checksum covers the written body. */
  function AgentKey(c: Crypto, body: Str): Str
  {
    var text := Encoded(body);
    KEY_PREFIX + (text + [UNDERSCORE] + Encoded(c.sha256(text)[..CHECKSUM_BYTES]))
  }

  lemma {:induction false} EncodedNoUnderscore(b: Str)
    ensures UNDERSCORE !in Encoded(b)
  {}

  /** Behind the prefix a key splits at its one underscore into the body and the checksum. */
  lemma {:induction false} AgentKeySplits(c: Crypto, body: Str)
    ensures AgentKey(c, body)[..|KEY_PREFIX|] == KEY_PREFIX
    ensures Split(AgentKey(c, body)[|KEY_PREFIX|..], UNDERSCORE) ==
      [Encoded(body), Encoded(c.sha256(Encoded(body))[..CHECKSUM_BYTES])]
  {
    var text := Encoded(body);
    var chk := Encoded(c.sha256(text)[..CHECKSUM_BYTES]);
    assert AgentKey(c, body)[|KEY_PREFIX|..] == text + [UNDERSCORE] + chk;
    EncodedNoUnderscore(body);
    EncodedNoUnderscore(c.sha256(text)[..CHECKSUM_BYTES]);
    SplitAppend(text, UNDERSCORE, chk);
    IndexOfAbsent(chk, UNDERSCORE);
  }

  /** Two 24-byte bodies make the same key exactly when their first eight bytes agree: the other sixteen are not used. */
  lemma {:induction false} SameKeyIff(c: Crypto, a: Str, b: Str)
    requires |a| == KEY_BODY_BYTES && |b| == KEY_BODY_BYTES
    ensures AgentKey(c, a) == AgentKey(c, b) <==> a[..8] == b[..8]
  {
    Base62EqualIff(a, b);
    AgentKeySplits(c, a);
    AgentKeySplits(c, b);
  }
}
