/** Byte-wise order on strings, and the sorted list of a finite set of them
    (SQLite's ORDER BY on text, Go's sorted map keys). */
module Sorting {
  import opened Basics

  predicate Less(a: Str, b: Str)
  {
    b != [] && (a == [] || (if a[0] != b[0] then a[0] < b[0] else Less(a[1..], b[1..])))
  }

  lemma {:induction false} LessTransitive(a: Str, b: Str, c: Str)
    requires Less(a, b) && Less(b, c)
    ensures Less(a, c)
  {
    if a != [] && a[0] == b[0] == c[0] { LessTransitive(a[1..], b[1..], c[1..]); }
  }

  lemma {:induction false} LessIrreflexive(a: Str)
    ensures !Less(a, a)
  {
    if a != [] { LessIrreflexive(a[1..]); }
  }

  lemma {:induction false} LessTotal(a: Str, b: Str)
    ensures a == b || Less(a, b) || Less(b, a)
  {
    if a != [] && b != [] && a[0] == b[0] {
      LessTotal(a[1..], b[1..]);
      assert a == [a[0]] + a[1..] && b == [b[0]] + b[1..];
    }
  }

  /** The order is that of the first byte in which the two differ, and a proper prefix comes first. */
  lemma {:induction false} LessIff(a: Str, b: Str)
    ensures Less(a, b) <==>
      (|a| < |b| && a == b[..|a|]) || exists k :: 0 <= k < |a| && k < |b| && a[..k] == b[..k] && a[k] < b[k]
  {
    if a != [] && b != [] && a[0] == b[0] {
      LessIff(a[1..], b[1..]);
      LessBehind(a, b);
    } else if a != [] && b != [] {
      assert a[..0] == b[..0];
      forall k | 0 < k < |a| && k < |b| ensures a[..k] != b[..k] { assert a[..k][0] == a[0] && b[..k][0] == b[0]; }
    }
  }

  lemma {:induction false} LessBehind(a: Str, b: Str)
    requires a != [] && b != [] && a[0] == b[0]
    ensures |a| <= |b| ==> (a == b[..|a|] <==> a[1..] == b[1..][..|a| - 1])
    ensures forall k :: 0 < k < |a| && k < |b| ==> (a[..k] == b[..k] <==> a[1..][..k - 1] == b[1..][..k - 1])
    ensures (exists k :: 0 <= k < |a| && k < |b| && a[..k] == b[..k] && a[k] < b[k]) <==>
      exists k :: 0 <= k < |a| - 1 && k < |b| - 1 && a[1..][..k] == b[1..][..k] && a[1..][k] < b[1..][k]
  {
    if |a| <= |b| { SamePrefix(a, b, |a|); }
    forall k | 0 < k < |a| && k < |b| ensures a[..k] == b[..k] <==> a[1..][..k - 1] == b[1..][..k - 1] {
      SamePrefix(a, b, k);
    }
    if k :| 0 <= k < |a| - 1 && k < |b| - 1 && a[1..][..k] == b[1..][..k] && a[1..][k] < b[1..][k] {
      SamePrefix(a, b, k + 1);
      assert a[..k + 1] == b[..k + 1] && a[k + 1] < b[k + 1];
    }
    if k :| 0 <= k < |a| && k < |b| && a[..k] == b[..k] && a[k] < b[k] {
      SamePrefix(a, b, k);
      assert a[1..][k - 1] < b[1..][k - 1];
    }
  }

  lemma {:induction false} SamePrefix(a: Str, b: Str, k: nat)
    requires a != [] && b != [] && a[0] == b[0] && 0 < k <= |a| && k <= |b|
    ensures a[..k] == b[..k] <==> a[1..][..k - 1] == b[1..][..k - 1]
  {
    assert a[..k] == [a[0]] + a[1..][..k - 1] && b[..k] == [b[0]] + b[1..][..k - 1];
    assert a[..k][1..] == a[1..][..k - 1] && b[..k][1..] == b[1..][..k - 1];
  }

  predicate IsFirst(m: Str, s: set<Str>)
  {
    m in s && forall x :: x in s && x != m ==> Less(m, x)
  }

  lemma {:induction false} FirstExists(s: set<Str>) returns (m: Str)
    requires s != {}
    ensures IsFirst(m, s)
    decreases |s|
  {
    m :| m in s;
    if s != {m} {
      var m' := FirstExists(s - {m});
      LessTotal(m, m');
      if Less(m, m') {
        forall x | x in s && x != m ensures Less(m, x) { if x != m' { LessTransitive(m, m', x); } }
      } else {
        m := m';
      }
    }
  }

  lemma {:induction false} FirstUnique(s: set<Str>)
    requires s != {}
    ensures exists m :: m in s && IsFirst(m, s)
    ensures forall m, n :: IsFirst(m, s) && IsFirst(n, s) ==> m == n
  {
    var w := FirstExists(s);
    forall m, n | IsFirst(m, s) && IsFirst(n, s) ensures m == n {
      if m != n {
        LessTransitive(m, n, m);
        LessIrreflexive(m);
      }
    }
  }

  function First(s: set<Str>): (m: Str)
    requires s != {}
    ensures IsFirst(m, s)
  {
    FirstUnique(s);
    var m :| m in s && IsFirst(m, s);
    m
  }

  /** The elements of `s` in ascending order. */
  function Sorted(s: set<Str>): (r: seq<Str>)
    ensures forall x :: x in r <==> x in s
    decreases |s|
  {
    if s == {} then [] else [First(s)] + Sorted(s - {First(s)})
  }

  lemma {:induction false} SortedDistinct(s: set<Str>)
    ensures |Sorted(s)| == |s|
    ensures forall i, j :: 0 <= i < j < |Sorted(s)| ==> Sorted(s)[i] != Sorted(s)[j]
    decreases |s|
  {
    if s != {} {
      var rest := s - {First(s)};
      SortedDistinct(rest);
      assert First(s) !in Sorted(rest);
      assert Sorted(s)[1..] == Sorted(rest);
      forall i, j | 0 <= i < j < |Sorted(s)| ensures Sorted(s)[i] != Sorted(s)[j] {
        assert Sorted(s)[j] == Sorted(rest)[j - 1];
        if i > 0 { assert Sorted(s)[i] == Sorted(rest)[i - 1]; }
      }
    }
  }

  predicate Ascending(r: seq<Str>)
  {
    r == [] || ((forall x :: x in r[1..] ==> Less(r[0], x)) && Ascending(r[1..]))
  }

  lemma {:induction false} SortedAscending(s: set<Str>)
    ensures Ascending(Sorted(s))
    decreases |s|
  {
    if s != {} {
      SortedAscending(s - {First(s)});
      assert Sorted(s)[1..] == Sorted(s - {First(s)});
    }
  }

  /** An ascending list is determined by its elements. */
  lemma {:induction false} AscendingUnique(a: seq<Str>, b: seq<Str>)
    requires Ascending(a) && Ascending(b) && forall x :: x in a <==> x in b
    ensures a == b
  {
    if b != [] { assert b[0] in b && b[0] in a; }
    if a != [] {
      assert a[0] in a && a[0] in b;
      if a[0] != b[0] {
        assert a[0] in b[1..] && b[0] in a[1..];
        LessTransitive(a[0], b[0], a[0]);
        LessIrreflexive(a[0]);
      }
      forall x ensures x in a[1..] <==> x in b[1..] {
        LessIrreflexive(a[0]);
        assert x in a <==> x == a[0] || x in a[1..];
        assert x in b <==> x == b[0] || x in b[1..];
      }
      AscendingUnique(a[1..], b[1..]);
      assert a == [a[0]] + a[1..] && b == [b[0]] + b[1..];
    }
  }

  /** The elements that are in `keep`, in their order. */
  function Keep(r: seq<Str>, keep: set<Str>): (k: seq<Str>)
    ensures forall x :: x in k <==> x in r && x in keep
  {
    if r == [] then [] else (if r[0] in keep then [r[0]] else []) + Keep(r[1..], keep)
  }

  lemma {:induction false} KeepAscending(r: seq<Str>, keep: set<Str>)
    requires Ascending(r)
    ensures Ascending(Keep(r, keep))
  {
    if r != [] {
      KeepAscending(r[1..], keep);
      if r[0] in keep {
        assert Keep(r, keep)[1..] == Keep(r[1..], keep);
      } else {
        assert Keep(r, keep) == Keep(r[1..], keep);
      }
    }
  }

  /** Filtering the sorted list is sorting the filtered set. */
  lemma {:induction false} KeepSorted(s: set<Str>, keep: set<Str>)
    ensures Keep(Sorted(s), keep) == Sorted(s * keep)
  {
    SortedAscending(s);
    KeepAscending(Sorted(s), keep);
    SortedAscending(s * keep);
    AscendingUnique(Keep(Sorted(s), keep), Sorted(s * keep));
  }
}
