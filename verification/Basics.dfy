/** Byte strings, results, and the few sequence operations the other modules share. */
module Basics {

  type byte = b: int | 0 <= b < 256

  /** A Go string or []byte: an arbitrary sequence of bytes. */
  type Str = seq<byte>

  datatype Option<+T> = None | Some(value: T)

  datatype Result<+T, +E> = Ok(value: T) | Err(error: E)

  const QUOTE: byte := 34
  const PERCENT: byte := 37
  const SLASH: byte := 47
  const COMMA: byte := 44
  const DOT: byte := 46
  const BACKSLASH: byte := 92
  const UNDERSCORE: byte := 95
  const BAR: byte := 124

  /** The bytes of an ASCII literal. */
  function Ascii(s: string): (r: Str)
    ensures |r| == |s|
  {
    seq(|s|, i requires 0 <= i < |s| => if s[i] < 128 as char then s[i] as int else 63)
  }

  /** Elements picked out by position, in any order and any number of times. */
  function Pick<T>(s: seq<T>, at: seq<nat>): (r: seq<T>)
    requires forall k :: 0 <= k < |at| ==> at[k] < |s|
    ensures |r| == |at| && forall k :: 0 <= k < |at| ==> r[k] == s[at[k]]
  {
    if at == [] then [] else [s[at[0]]] + Pick(s, at[1..])
  }

  function Elements<T(==)>(s: seq<T>): set<T> { set x | x in s }

  lemma {:induction false} ElementsOneMore<T>(s: seq<T>, x: T)
    ensures Elements(s + [x]) == Elements(s) + {x}
  {}

  /** The position of the first `c`, or |s|. */
  function IndexOf(s: Str, c: byte): (i: nat)
    ensures i <= |s|
    ensures c !in s[..i]
    ensures i < |s| ==> s[i] == c
  {
    if s == [] || s[0] == c then 0 else
    var i := 1 + IndexOf(s[1..], c);
    assert s[..i] == [s[0]] + s[1..][..i - 1];
    i
  }

  lemma {:induction false} IndexOfUnique(a: Str, c: byte, t: Str)
    requires c !in a
    ensures IndexOf(a + [c] + t, c) == |a|
  {
    var s := a + [c] + t;
    var i := IndexOf(s, c);
    assert s[|a|] == c && forall k | 0 <= k < |a| :: s[k] == a[k];
    assert forall k | 0 <= k < i :: s[k] == s[..i][k];
  }

  lemma {:induction false} IndexOfAbsent(s: Str, c: byte)
    requires c !in s
    ensures IndexOf(s, c) == |s|
  {}

  lemma {:induction false} IndexOfPresent(s: Str, c: byte)
    requires c in s
    ensures IndexOf(s, c) < |s|
  {
    assert s[..|s|] == s;
  }

  lemma {:induction false} CancelPrefix(k: Str, s: Str, t: Str)
    requires k + s == k + t
    ensures s == t
  {
    assert (k + s)[|k|..] == s && (k + t)[|k|..] == t;
  }

  /** strings.Split on a one-byte separator. */
  function Split(s: Str, c: byte): (parts: seq<Str>)
    ensures |parts| > 0
    decreases |s|
  {
    var i := IndexOf(s, c);
    if i == |s| then [s] else [s[..i]] + Split(s[i + 1..], c)
  }

  lemma {:induction false} SplitFree(s: Str, c: byte)
    ensures forall p :: p in Split(s, c) ==> c !in p
    decreases |s|
  {
    var i := IndexOf(s, c);
    if i < |s| { SplitFree(s[i + 1..], c); }
  }

  /** strings.SplitN for n > 0: at most n pieces, the last one unsplit. */
  function SplitN(s: Str, c: byte, n: nat): seq<Str>
    requires n > 0
    decreases n
  {
    var i := IndexOf(s, c);
    if n == 1 || i == |s| then [s] else [s[..i]] + SplitN(s[i + 1..], c, n - 1)
  }

  /** strings.Join with a one-byte separator. */
  function Join(parts: seq<Str>, c: byte): Str
  {
    if parts == [] then [] else
    if |parts| == 1 then parts[0] else parts[0] + [c] + Join(parts[1..], c)
  }

  lemma {:induction false} JoinCons(p: Str, parts: seq<Str>, c: byte)
    requires parts != []
    ensures Join([p] + parts, c) == p + [c] + Join(parts, c)
  {
    assert ([p] + parts)[1..] == parts;
  }

  lemma {:induction false} JoinSplit(s: Str, c: byte)
    ensures Join(Split(s, c), c) == s
    decreases |s|
  {
    var i := IndexOf(s, c);
    if i < |s| {
      var rest := s[i + 1..];
      JoinSplit(rest, c);
      JoinCons(s[..i], Split(rest, c), c);
      Reassemble(s, i);
    }
  }

  lemma {:induction false} Reassemble(s: Str, i: nat)
    requires i < |s|
    ensures s == s[..i] + [s[i]] + s[i + 1..]
  {}

  /** A piece in front of a separator splits off on its own. */
  lemma {:induction false} SplitAppend(a: Str, c: byte, t: Str)
    requires c !in a
    ensures Split(a + [c] + t, c) == [a] + Split(t, c)
  {
    IndexOfUnique(a, c, t);
    var s := a + [c] + t;
    assert s[..|a|] == a && s[|a| + 1..] == t;
  }

  lemma {:induction false} SplitJoin(parts: seq<Str>, c: byte)
    requires parts != []
    requires forall p :: p in parts ==> c !in p
    ensures Split(Join(parts, c), c) == parts
  {
    if |parts| == 1 {
      IndexOfAbsent(parts[0], c);
    } else {
      SplitJoin(parts[1..], c);
      SplitAppend(parts[0], c, Join(parts[1..], c));
    }
  }

  lemma {:induction false} SplitNAppend(a: Str, c: byte, t: Str, n: nat)
    requires c !in a && n > 1
    ensures SplitN(a + [c] + t, c, n) == [a] + SplitN(t, c, n - 1)
  {
    IndexOfUnique(a, c, t);
    var s := a + [c] + t;
    assert s[..|a|] == a && s[|a| + 1..] == t;
  }

  /** What `f` makes of each piece, one after the other. */
  function ConcatMap(f: Str -> seq<Str>, pieces: seq<Str>): seq<Str>
  {
    if pieces == [] then [] else f(pieces[0]) + ConcatMap(f, pieces[1..])
  }

  lemma {:induction false} ConcatMapAppend(f: Str -> seq<Str>, pieces: seq<Str>, last: Str)
    ensures ConcatMap(f, pieces + [last]) == ConcatMap(f, pieces) + f(last)
  {
    if pieces == [] {
      assert [] + [last] == [last] && [last][1..] == [];
    } else {
      ConcatMapAppend(f, pieces[1..], last);
      assert (pieces + [last])[1..] == pieces[1..] + [last];
    }
  }

  lemma {:induction false} ConcatAssoc<T>(a: seq<T>, b: seq<T>, c: seq<T>)
    ensures (a + b) + c == a + (b + c)
  {}
}
