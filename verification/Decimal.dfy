/** Decimal integers as fmt's %d and encoding/json write them, and strconv.ParseInt(s, 10, 64) reads them. */
module Decimal {
  import opened Basics

  const MINUS: byte := 45
  const PLUS: byte := 43
  const INT64_MIN := -0x8000_0000_0000_0000
  const INT64_MAX := 0x7FFF_FFFF_FFFF_FFFF

  predicate IsDigit(b: byte) { 48 <= b <= 57 }

  function DecNat(n: nat): (s: Str)
    ensures s != [] && forall b :: b in s ==> IsDigit(b)
  {
    if n < 10 then [48 + n] else DecNat(n / 10) + [48 + n % 10]
  }

  function Dec(n: int): (s: Str)
    ensures s != [] && (s[0] == MINUS || IsDigit(s[0]))
  {
    if n < 0 then [MINUS] + DecNat(-n) else DecNat(n)
  }

  function NatValue(s: Str): (n: int)
    requires forall b :: b in s ==> IsDigit(b)
    ensures 0 <= n
  {
    if s == [] then 0 else
    assert IsDigit(s[|s| - 1]) by { assert s[|s| - 1] in s; }
    NatValue(s[..|s| - 1]) * 10 + (s[|s| - 1] as int - 48)
  }

  lemma {:induction false} NatValueDecNat(n: nat)
    ensures NatValue(DecNat(n)) == n
  {
    if n >= 10 {
      NatValueDecNat(n / 10);
      assert DecNat(n)[..|DecNat(n)| - 1] == DecNat(n / 10);
    } else {
      assert DecNat(n)[..0] == [];
    }
  }

  predicate AllDigits(s: Str) { s != [] && forall b :: b in s ==> IsDigit(b) }

  /** An optional sign, at least one digit, nothing else, and a value that fits in an int64. */
  function ParseInt64(s: Str): Option<int>
  {
    if s == [] then None else
    var digits := if s[0] == MINUS || s[0] == PLUS then s[1..] else s;
    if !AllDigits(digits) then None else
    var n := if s[0] == MINUS then -NatValue(digits) else NatValue(digits);
    if INT64_MIN <= n <= INT64_MAX then Some(n) else None
  }

  lemma {:induction false} ParseDec(n: int)
    requires INT64_MIN <= n <= INT64_MAX
    ensures ParseInt64(Dec(n)) == Some(n)
  {
    if n < 0 {
      NatValueDecNat(-n);
      assert Dec(n)[1..] == DecNat(-n);
    } else {
      NatValueDecNat(n);
      assert Dec(n)[0] in DecNat(n);
    }
  }

  /** The length of the leading run of digits. */
  function DigitRun(s: Str): (k: nat)
    ensures k <= |s|
  {
    if s == [] || !IsDigit(s[0]) then 0 else 1 + DigitRun(s[1..])
  }

  predicate EndsNumber(t: Str) { t != [] && !IsDigit(t[0]) }

  lemma {:induction false} DigitRunStops(d: Str, t: Str)
    requires forall b :: b in d ==> IsDigit(b)
    requires EndsNumber(t)
    ensures DigitRun(d + t) == |d|
  {
    if d == [] {
      assert d + t == t;
    } else {
      assert (d + t)[0] == d[0] && (d + t)[1..] == d[1..] + t;
      DigitRunStops(d[1..], t);
    }
  }

  lemma {:induction false} DecNatUnambiguous(a: nat, b: nat, t: Str, u: Str)
    requires EndsNumber(t) && EndsNumber(u)
    requires DecNat(a) + t == DecNat(b) + u
    ensures a == b && t == u
  {
    DigitRunStops(DecNat(a), t);
    DigitRunStops(DecNat(b), u);
    var s := DecNat(a) + t;
    assert s[..|DecNat(a)|] == DecNat(a) && s[|DecNat(a)|..] == t;
    assert s[..|DecNat(b)|] == DecNat(b) && s[|DecNat(b)|..] == u;
    NatValueDecNat(a);
    NatValueDecNat(b);
  }

  lemma {:induction false} DecSign(n: int, t: Str)
    ensures (Dec(n) + t)[0] == MINUS <==> n < 0
  {
    if n >= 0 { assert DecNat(n)[0] in DecNat(n); }
  }

  /** A number followed by a non-digit can be read back in one way only. */
  lemma {:induction false} DecUnambiguous(a: int, b: int, t: Str, u: Str)
    requires EndsNumber(t) && EndsNumber(u)
    requires Dec(a) + t == Dec(b) + u
    ensures a == b && t == u
  {
    DecSign(a, t);
    DecSign(b, u);
    if a < 0 {
      var s, s' := DecNat(-a) + t, DecNat(-b) + u;
      assert Dec(a) + t == [MINUS] + s;
      assert Dec(b) + u == [MINUS] + s';
      CancelPrefix([MINUS], s, s');
      DecNatUnambiguous(-a, -b, t, u);
    } else {
      DecNatUnambiguous(a, b, t, u);
    }
  }
}
