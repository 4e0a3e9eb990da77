/** A chain of hashes over arbitrary contents: which sequences of links can verify (internal/audit/audit.go). */
module HashChain {
  import opened Basics
  import opened CryptoPrimitives

  /** The hash functions, and how contents are written out to be hashed. */
  datatype Scheme<!E> = Scheme(crypto: Crypto, encode: E -> Str)

  /** What the chain sees of a row: the stored predecessor, the content, the stored hash and MAC. */
  datatype Link<E> = Link(prev: Str, content: E, hash: Str, mac: Str)

  /** The hash that link `i` must name as its predecessor's. */
  function PrevOf<E>(links: seq<Link<E>>, i: nat): Str
    requires i <= |links|
  {
    if i == 0 then ZERO_HASH else links[i - 1].hash
  }

  function EndHash<E>(links: seq<Link<E>>): Str { PrevOf(links, |links|) }

  function Preimage<E>(c: Scheme<E>, l: Link<E>): Str { l.prev + c.encode(l.content) }

  predicate LinkOk<E>(c: Scheme<E>, key: Str, prev: Str, l: Link<E>)
  {
    l.prev == prev && l.hash == c.crypto.sha256(Preimage(c, l)) && l.mac == c.crypto.hmac(key, l.hash)
  }

  predicate LinkAt<E>(c: Scheme<E>, key: Str, links: seq<Link<E>>, i: nat)
    requires i < |links|
  {
    LinkOk(c, key, PrevOf(links, i), links[i])
  }

  /** Every link is the right successor of the one before it. */
  ghost predicate Chained<E>(c: Scheme<E>, key: Str, links: seq<Link<E>>)
  {
    forall i :: 0 <= i < |links| ==> LinkAt(c, key, links, i)
  }

  /** The link that an append adds. */
  function NewLink<E>(c: Scheme<E>, key: Str, prev: Str, content: E): Link<E>
  {
    var hash := c.crypto.sha256(prev + c.encode(content));
    Link(prev, content, hash, c.crypto.hmac(key, hash))
  }

  lemma {:induction false} ChainedExtend<E>(c: Scheme<E>, key: Str, links: seq<Link<E>>, l: Link<E>)
    ensures Chained(c, key, links + [l]) <==> Chained(c, key, links) && LinkOk(c, key, EndHash(links), l)
  {
    var more := links + [l];
    assert forall i | 0 <= i <= |links| :: PrevOf(more, i) == PrevOf(links, i);
    if Chained(c, key, more) {
      assert LinkAt(c, key, more, |links|);
      forall i | 0 <= i < |links| ensures LinkAt(c, key, links, i) {
        assert LinkAt(c, key, more, i);
      }
    } else if Chained(c, key, links) && LinkOk(c, key, EndHash(links), l) {
      forall i | 0 <= i < |more| ensures LinkAt(c, key, more, i) {
        if i < |links| { assert LinkAt(c, key, links, i); }
      }
    }
  }

  lemma {:induction false} AppendChained<E>(c: Scheme<E>, key: Str, links: seq<Link<E>>, content: E)
    requires Chained(c, key, links)
    ensures Chained(c, key, links + [NewLink(c, key, EndHash(links), content)])
  {
    ChainedExtend(c, key, links, NewLink(c, key, EndHash(links), content));
  }

  lemma {:induction false} ChainedPrefix<E>(c: Scheme<E>, key: Str, links: seq<Link<E>>, n: nat)
    requires Chained(c, key, links) && n <= |links|
    ensures Chained(c, key, links[..n]) && EndHash(links[..n]) == PrevOf(links, n)
  {
    forall k | 0 <= k < n ensures LinkAt(c, key, links[..n], k) {
      assert LinkAt(c, key, links, k);
    }
  }

  /** On the byte strings in `known`, SHA-256 shows no collision and never the all-zero digest. */
  ghost predicate HashesSafe<E>(c: Scheme<E>, known: set<Str>)
  {
    (forall x, y {:trigger c.crypto.sha256(x), c.crypto.sha256(y)} ::
      x in known && y in known && c.crypto.sha256(x) == c.crypto.sha256(y) ==> x == y) &&
    forall x {:trigger c.crypto.sha256(x)} :: x in known ==> c.crypto.sha256(x) != ZERO_HASH
  }

  ghost predicate Covers<E>(c: Scheme<E>, known: set<Str>, links: seq<Link<E>>)
  {
    forall i {:trigger Preimage(c, links[i])} :: 0 <= i < |links| ==> Preimage(c, links[i]) in known
  }

  /** Equal preimages with 32-byte predecessors agree on both parts. */
  lemma {:induction false} PreimageSplit<E>(c: Scheme<E>, l: Link<E>, m: Link<E>)
    requires Preimage(c, l) == Preimage(c, m) && |l.prev| == 32 && |m.prev| == 32
    ensures l.prev == m.prev && c.encode(l.content) == c.encode(m.content)
  {
    var s := Preimage(c, l);
    assert s[..32] == l.prev && s[..32] == m.prev;
    assert s[32..] == c.encode(l.content) && s[32..] == c.encode(m.content);
  }

  lemma {:induction false} PrevIs32<E>(c: Scheme<E>, key: Str, links: seq<Link<E>>, i: nat)
    requires Chained(c, key, links) && i <= |links|
    ensures |PrevOf(links, i)| == 32
    ensures i < |links| ==> LinkOk(c, key, PrevOf(links, i), links[i])
  {
    if i > 0 { assert LinkAt(c, key, links, i - 1); }
    if i < |links| { assert LinkAt(c, key, links, i); }
  }

  /** Two links of verified chains with the same hash have the same predecessor and content. */
  lemma {:induction false} SameHash<E>(c: Scheme<E>, known: set<Str>, key: Str, a: seq<Link<E>>, i: nat, key': Str,
                                       b: seq<Link<E>>, j: nat)
    requires Chained(c, key, a) && i < |a| && Chained(c, key', b) && j < |b|
    requires HashesSafe(c, known) && Covers(c, known, a) && Covers(c, known, b)
    requires a[i].hash == b[j].hash
    ensures PrevOf(a, i) == PrevOf(b, j) && c.encode(a[i].content) == c.encode(b[j].content)
  {
    PrevIs32(c, key, a, i);
    PrevIs32(c, key', b, j);
    PreimageSplit(c, a[i], b[j]);
  }

  lemma {:induction false} HashNotZero<E>(c: Scheme<E>, known: set<Str>, key: Str, links: seq<Link<E>>, i: nat)
    requires Chained(c, key, links) && i < |links| && HashesSafe(c, known) && Covers(c, known, links)
    ensures links[i].hash != ZERO_HASH
  {
    PrevIs32(c, key, links, i);
  }

  /** In a verified chain no two links have the same hash. */
  lemma {:induction false} HashesDistinct<E>(c: Scheme<E>, known: set<Str>, key: Str, links: seq<Link<E>>, i: nat,
                                             j: nat)
    requires Chained(c, key, links) && HashesSafe(c, known) && Covers(c, known, links)
    requires i < j < |links|
    ensures links[i].hash != links[j].hash
    decreases i
  {
    if links[i].hash == links[j].hash {
      SameHash(c, known, key, links, i, key, links, j);
      if i > 0 {
        HashesDistinct(c, known, key, links, i - 1, j - 1);
      } else {
        HashNotZero(c, known, key, links, j - 1);
      }
    }
  }

  /** Within a verified chain, a link's predecessor hash gives its position away. */
  lemma {:induction false} PrevDetermines<E>(c: Scheme<E>, known: set<Str>, key: Str, links: seq<Link<E>>, i: nat,
                                             k: nat)
    requires Chained(c, key, links) && HashesSafe(c, known) && Covers(c, known, links)
    requires i <= |links| && k <= |links| && PrevOf(links, i) == PrevOf(links, k)
    ensures i == k
  {
    if 0 < i < k { HashesDistinct(c, known, key, links, i - 1, k - 1); }
    else if 0 < k < i { HashesDistinct(c, known, key, links, k - 1, i - 1); }
    else if 0 < i { HashNotZero(c, known, key, links, i - 1); }
    else if 0 < k { HashNotZero(c, known, key, links, k - 1); }
  }

  lemma {:induction false} ChainedPickStays<E>(c: Scheme<E>, known: set<Str>, key: Str, links: seq<Link<E>>,
                                               at: seq<nat>, s: seq<Link<E>>, k: nat)
    requires Chained(c, key, links) && HashesSafe(c, known) && Covers(c, known, links)
    requires |s| == |at| && forall i :: 0 <= i < |at| ==> at[i] < |links| && s[i] == links[at[i]]
    requires Chained(c, key, s) && k < |at|
    ensures at[k] == k
  {
    PrevIs32(c, key, links, at[k]);
    PrevIs32(c, key, s, k);
    if k > 0 { ChainedPickStays(c, known, key, links, at, s, k - 1); }
    PrevDetermines(c, known, key, links, at[k], k);
  }

  /** Links dropped, repeated or moved: what remains verifies exactly when every link kept its place,
      which makes it a prefix of the chain. */
  lemma {:induction false} PickChainedIff<E>(c: Scheme<E>, known: set<Str>, key: Str, links: seq<Link<E>>, at: seq<nat>)
    requires Chained(c, key, links) && HashesSafe(c, known) && Covers(c, known, links)
    requires forall k :: 0 <= k < |at| ==> at[k] < |links|
    ensures Chained(c, key, Pick(links, at)) <==> Pick(links, at) <= links
    ensures Chained(c, key, Pick(links, at)) ==> forall k :: 0 <= k < |at| ==> at[k] == k
  {
    var s := Pick(links, at);
    if Chained(c, key, s) {
      forall k | 0 <= k < |at| ensures at[k] == k { ChainedPickStays(c, known, key, links, at, s, k); }
      if |at| > 0 { assert at[|at| - 1] == |at| - 1; }
    }
    if s <= links {
      ChainedPrefix(c, key, links, |s|);
      assert links[..|s|] == s;
    }
  }

  /** Two verified chains with the same final hash are equally long, under any MAC keys ... */
  lemma {:induction false} SameEndSameLength<E>(c: Scheme<E>, known: set<Str>, key: Str, a: seq<Link<E>>, key': Str,
                                                b: seq<Link<E>>)
    requires Chained(c, key, a) && Chained(c, key', b)
    requires HashesSafe(c, known) && Covers(c, known, a) && Covers(c, known, b)
    requires EndHash(a) == EndHash(b)
    ensures |a| == |b|
    decreases |a|
  {
    var n, m := |a| - 1, |b| - 1;
    if n >= 0 && m >= 0 {
      SameHash(c, known, key, a, n, key', b, m);
      ChainedPrefix(c, key, a, n);
      ChainedPrefix(c, key', b, m);
      SameEndSameLength(c, known, key, a[..n], key', b[..m]);
    } else if n >= 0 {
      HashNotZero(c, known, key, a, n);
    } else if m >= 0 {
      HashNotZero(c, known, key', b, m);
    }
  }

  /** ... and their contents are written alike, place by place. */
  lemma {:induction false} SameEndSameContent<E>(c: Scheme<E>, known: set<Str>, key: Str, a: seq<Link<E>>, key': Str,
                                                 b: seq<Link<E>>, i: nat)
    requires Chained(c, key, a) && Chained(c, key', b) && i < |a| == |b|
    requires HashesSafe(c, known) && Covers(c, known, a) && Covers(c, known, b)
    requires EndHash(a) == EndHash(b)
    ensures c.encode(a[i].content) == c.encode(b[i].content)
    decreases |a|
  {
    var n := |a| - 1;
    SameHash(c, known, key, a, n, key', b, n);
    if i < n {
      ChainedPrefix(c, key, a, n);
      ChainedPrefix(c, key', b, n);
      SameEndSameContent(c, known, key, a[..n], key', b[..n], i);
    }
  }

  /** The first link that does not verify. */
  ghost predicate BreaksAt<E>(c: Scheme<E>, key: Str, links: seq<Link<E>>, k: nat)
  {
    k < |links| && Chained(c, key, links[..k]) && !LinkOk(c, key, PrevOf(links, k), links[k])
  }

  lemma {:induction false} BreaksIff<E>(c: Scheme<E>, key: Str, links: seq<Link<E>>, k: nat)
    requires BreaksAt(c, key, links, k)
    ensures !Chained(c, key, links)
  {
    assert !LinkAt(c, key, links, k);
  }

  /** A link overwritten by anything at all. If it is not a right successor the chain breaks there. If it is, the
      chain still verifies when it is the last link or has the old hash, and otherwise breaks one link further on. */
  lemma {:induction false} OverwriteOutcome<E>(c: Scheme<E>, key: Str, links: seq<Link<E>>, k: nat, l: Link<E>)
    requires Chained(c, key, links) && k < |links|
    ensures var edited := links[k := l];
      if !LinkOk(c, key, PrevOf(links, k), l) then BreaksAt(c, key, edited, k)
      else if l.hash == links[k].hash || k == |links| - 1 then Chained(c, key, edited)
      else BreaksAt(c, key, edited, k + 1)
  {
    var edited := links[k := l];
    ChainedPrefix(c, key, links, k);
    assert edited[..k] == links[..k];
    assert PrevOf(edited, k) == PrevOf(links, k);
    if LinkOk(c, key, PrevOf(links, k), l) {
      assert edited[..k + 1] == links[..k] + [l];
      ChainedExtend(c, key, links[..k], l);
      if l.hash == links[k].hash || k == |links| - 1 {
        forall i | 0 <= i < |edited| ensures LinkAt(c, key, edited, i) { PrevIs32(c, key, links, i); }
      } else {
        PrevIs32(c, key, links, k + 1);
      }
    }
  }
}
