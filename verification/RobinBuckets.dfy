/** Bucket arrays of the robin-hood table: the invariant, and what single bucket updates do to it. */
module RobinBuckets {
  import opened Bits
  import opened GrowthPolicy

  /** A bucket; the distance stored in an empty one is -1. */
  datatype Bucket<K, V> = Empty | Full(dist: nat, thash: nat, key: K, value: V)

  const TRUNCATED_BITS := 32

  function Truncate(hash: nat): nat {
    And(hash, Ones(TRUNCATED_BITS))
  }

  function Dist<K, V>(b: Bucket<K, V>): int {
    if b.Empty? then -1 else b.dist
  }

  function NextBucket(i: nat, n: nat): (j: nat)
    requires i < n
    ensures j < n
  {
    if i + 1 == n then 0 else i + 1
  }

  function PreviousBucket(i: nat, n: nat): (j: nat)
    requires i < n
    ensures j < n && NextBucket(j, n) == i
  {
    if i == 0 then n - 1 else i - 1
  }

  /** The bucket d probes after bucket h. */
  function Probe(h: nat, d: nat, n: nat): (i: nat)
    requires h < n
    ensures i < n
  {
    if d == 0 then h else NextBucket(Probe(h, d - 1, n), n)
  }

  lemma ProbeOn(h: nat, d: nat, n: nat)
    requires h < n
    ensures Probe(h, d + 1, n) == NextBucket(Probe(h, d, n), n)
    ensures PreviousBucket(Probe(h, d + 1, n), n) == Probe(h, d, n)
  {
  }

  /** Probing wraps around: position = home + distance modulo the number of buckets. */
  lemma {:induction false} ProbeIsModular(h: nat, d: nat, n: nat)
    requires h < n
    ensures Probe(h, d, n) == (h + d) % n
  {
    if d > 0 {
      ProbeIsModular(h, d - 1, n);
      ModSuccessor(h + d - 1, n);
    } else {
      ModUnique(h, n, 0, h);
    }
  }

  /** The number of probes from p to e. */
  function Gap(p: nat, e: nat, n: nat): nat
    requires p < n && e < n
  {
    if p <= e then e - p else e - p + n
  }

  lemma GapStep(p: nat, e: nat, n: nat)
    requires p < n && e < n && p != e
    ensures Gap(NextBucket(p, n), e, n) < Gap(p, e, n)
  {
  }

  function Home<K>(hash: K -> nat, key: K, n: nat): (h: nat)
    requires n > 0
    ensures h < n
  {
    hash(key) % n
  }

  /** The sizes of a table: a power of two of buckets, one even if the table asks for none. */
  ghost predicate Shaped(length: nat, bucketCount: nat, mask: nat, loadThreshold: nat) {
    && length == (if bucketCount == 0 then 1 else bucketCount)
    && IsPow2(length) && mask == length - 1
    && loadThreshold == bucketCount / 2
  }

  /** Where every stored key is, and what it maps to. */
  datatype Index<!K, V> = Index(pos: map<K, nat>, contents: map<K, V>)

  predicate InPlace<K, V>(hash: K -> nat, s: seq<Bucket<K, V>>, i: nat)
    requires i < |s| && s[i].Full?
  {
    s[i].thash == Truncate(hash(s[i].key)) && Probe(Home(hash, s[i].key, |s|), s[i].dist, |s|) == i
  }

  /** Position = home + distance. */
  ghost predicate Placed<K, V>(hash: K -> nat, s: seq<Bucket<K, V>>) {
    forall i :: 0 <= i < |s| && s[i].Full? ==> InPlace(hash, s, i)
  }

  predicate InOrder<K, V>(s: seq<Bucket<K, V>>, i: nat)
    requires i < |s|
  {
    Dist(s[i]) <= Dist(s[PreviousBucket(i, |s|)]) + 1
  }

  /** Distance at a bucket is at most one more than at the bucket before it. */
  ghost predicate Robin<K, V>(s: seq<Bucket<K, V>>) {
    forall i :: 0 <= i < |s| ==> InOrder(s, i)
  }

  /** The buckets hold exactly the entries of the index, each key once. */
  ghost predicate Indexed<K, V>(s: seq<Bucket<K, V>>, x: Index<K, V>) {
    && x.pos.Keys == x.contents.Keys
    && (forall k :: k in x.pos ==> x.pos[k] < |s| && s[x.pos[k]].Full? && s[x.pos[k]].key == k && s[x.pos[k]].value == x.contents[k])
    && (forall i :: 0 <= i < |s| && s[i].Full? ==> s[i].key in x.pos && x.pos[s[i].key] == i)
  }

  ghost predicate Table<K, V>(hash: K -> nat, s: seq<Bucket<K, V>>, x: Index<K, V>) {
    |s| > 0 && Placed(hash, s) && Robin(s) && Indexed(s, x)
  }

  /** A table of this many entries, within its load threshold. */
  ghost predicate Stands<K, V>(hash: K -> nat, s: seq<Bucket<K, V>>, x: Index<K, V>, nbElements: nat, loadThreshold: nat) {
    Table(hash, s, x) && nbElements == |x.contents| <= loadThreshold
  }

  // Lookup.

  /** On the way from its home to a stored key no bucket is poorer than the probe count. */
  lemma {:induction false} NoEarlyExit<K, V>(hash: K -> nat, s: seq<Bucket<K, V>>, x: Index<K, V>, k: K, t: nat)
    requires Table(hash, s, x) && k in x.pos && t <= s[x.pos[k]].dist
    ensures Dist(s[Probe(Home(hash, k, |s|), t, |s|)]) >= t
    decreases s[x.pos[k]].dist - t
  {
    var h, d := Home(hash, k, |s|), s[x.pos[k]].dist;
    assert InPlace(hash, s, x.pos[k]);
    if t < d {
      NoEarlyExit(hash, s, x, k, t + 1);
      assert InOrder(s, Probe(h, t + 1, |s|));
    }
  }

  /** A probe that has come `dist` buckets from the key's home and not passed the key. */
  ghost predicate Probes<K, V>(hash: K -> nat, s: seq<Bucket<K, V>>, x: Index<K, V>, key: K, ibucket: nat, dist: nat) {
    var n := |s|;
    && ibucket < n && ibucket == Probe(Home(hash, key, n), dist, n)
    && dist <= Dist(s[PreviousBucket(ibucket, n)]) + 1
    && (key in x.pos ==> x.pos[key] < n && s[x.pos[key]].Full? && dist <= s[x.pos[key]].dist)
  }

  // Insertion.

  /** An entry on its way into the table, to be put down at bucket p or further on. */
  datatype Carried<K, V> = Carried(dist: nat, thash: nat, key: K, value: V)

  ghost predicate CanLand<K, V>(hash: K -> nat, s: seq<Bucket<K, V>>, x: Index<K, V>, c: Carried<K, V>, p: nat)
    requires |s| > 0
  {
    && p == Probe(Home(hash, c.key, |s|), c.dist, |s|)
    && c.thash == Truncate(hash(c.key))
    && c.key !in x.pos
    && c.dist <= Dist(s[PreviousBucket(p, |s|)]) + 1
  }

  /** The table and the entry in hand stand for the target map. */
  ghost predicate Carries<K, V>(
      hash: K -> nat, s: seq<Bucket<K, V>>, x: Index<K, V>, c: Carried<K, V>, p: nat, target: map<K, V>, size: nat)
  {
    && Table(hash, s, x) && p < |s| && CanLand(hash, s, x, c, p)
    && x.contents[c.key := c.value] == target && |x.contents| == size
  }

  function Landed<K, V>(c: Carried<K, V>): Bucket<K, V> {
    Full(c.dist, c.thash, c.key, c.value)
  }

  function Added<K, V>(x: Index<K, V>, c: Carried<K, V>, p: nat): Index<K, V> {
    Index(x.pos[c.key := p], x.contents[c.key := c.value])
  }

  function Removed<K, V>(x: Index<K, V>, k: K): Index<K, V> {
    Index(x.pos - {k}, x.contents - {k})
  }

  lemma NothingRemoved<K, V>(m: map<K, V>, k: K)
    requires k !in m
    ensures m - {k} == m
  {
  }

  /** Putting the entry down at p, over an empty or a richer bucket. */
  lemma LandOrder<K, V>(hash: K -> nat, s: seq<Bucket<K, V>>, x: Index<K, V>, c: Carried<K, V>, p: nat)
    requires Table(hash, s, x) && CanLand(hash, s, x, c, p) && c.dist > Dist(s[p])
    ensures Placed(hash, s[p := Landed(c)]) && Robin(s[p := Landed(c)])
  {
    var s' := s[p := Landed(c)];
    forall i | 0 <= i < |s'| ensures InOrder(s', i) {
      assert InOrder(s, i);
    }
    forall i | 0 <= i < |s'| && s'[i].Full? ensures InPlace(hash, s', i) {
      if i != p { assert InPlace(hash, s, i); }
    }
  }

  lemma Land<K, V>(hash: K -> nat, s: seq<Bucket<K, V>>, x: Index<K, V>, c: Carried<K, V>, p: nat)
    requires Table(hash, s, x) && CanLand(hash, s, x, c, p) && s[p].Empty?
    ensures Table(hash, s[p := Landed(c)], Added(x, c, p))
  {
    LandOrder(hash, s, x, c, p);
  }

  /** The index after an entry has taken another one's bucket. */
  function Replaced<K, V>(s: seq<Bucket<K, V>>, x: Index<K, V>, c: Carried<K, V>, p: nat): Index<K, V>
    requires p < |s| && s[p].Full?
  {
    Added(Removed(x, s[p].key), c, p)
  }

  function Evicted<K, V>(b: Bucket<K, V>): Carried<K, V>
    requires b.Full?
  {
    Carried(b.dist + 1, b.thash, b.key, b.value)
  }

  lemma StealIndex<K, V>(s: seq<Bucket<K, V>>, x: Index<K, V>, c: Carried<K, V>, p: nat)
    requires Indexed(s, x) && p < |s| && s[p].Full? && c.key !in x.pos
    ensures Indexed(s[p := Landed(c)], Replaced(s, x, c, p))
  {
  }

  lemma StealContents<K, V>(s: seq<Bucket<K, V>>, x: Index<K, V>, c: Carried<K, V>, p: nat)
    requires Indexed(s, x) && p < |s| && s[p].Full? && c.key !in x.pos
    ensures Replaced(s, x, c, p).contents[s[p].key := s[p].value] == x.contents[c.key := c.value]
    ensures |Replaced(s, x, c, p).contents| == |x.contents|
  {
    var k := s[p].key;
    assert x.contents.Keys == (x.contents - {k}).Keys + {k};
    assert Replaced(s, x, c, p).contents.Keys == (x.contents - {k}).Keys + {c.key};
  }

  /** A richer entry gives up its bucket and is carried on. */
  lemma Steal<K, V>(hash: K -> nat, s: seq<Bucket<K, V>>, x: Index<K, V>, c: Carried<K, V>, p: nat)
    requires Table(hash, s, x) && CanLand(hash, s, x, c, p) && s[p].Full? && c.dist > s[p].dist
    ensures Table(hash, s[p := Landed(c)], Replaced(s, x, c, p))
    ensures CanLand(hash, s[p := Landed(c)], Replaced(s, x, c, p), Evicted(s[p]), NextBucket(p, |s|))
  {
    LandOrder(hash, s, x, c, p);
    StealIndex(s, x, c, p);
    assert InPlace(hash, s, p);
    ProbeOn(Home(hash, s[p].key, |s|), s[p].dist, |s|);
  }

  lemma PassOn<K, V>(hash: K -> nat, s: seq<Bucket<K, V>>, x: Index<K, V>, c: Carried<K, V>, p: nat)
    requires Table(hash, s, x) && CanLand(hash, s, x, c, p) && s[p].Full? && c.dist <= s[p].dist
    ensures CanLand(hash, s, x, c.(dist := c.dist + 1), NextBucket(p, |s|))
  {
    ProbeOn(Home(hash, c.key, |s|), c.dist, |s|);
  }

  // Removal.

  /**
   * Bucket p has just been emptied: everything is in order but the bucket after it, which is too far from its
   * home by at most what the emptied bucket made up for. Bucket e is another empty one.
   */
  ghost predicate Holed<K, V>(hash: K -> nat, s: seq<Bucket<K, V>>, x: Index<K, V>, p: nat, e: nat) {
    && p < |s| && e < |s| && p != e && s[p].Empty? && s[e].Empty?
    && Placed(hash, s) && Indexed(s, x)
    && (forall i :: 0 <= i < |s| && i != NextBucket(p, |s|) ==> InOrder(s, i))
    && Dist(s[NextBucket(p, |s|)]) <= Dist(s[PreviousBucket(p, |s|)]) + 2
  }

  lemma MakeHole<K, V>(hash: K -> nat, s: seq<Bucket<K, V>>, x: Index<K, V>, p: nat, e: nat)
    requires Table(hash, s, x) && p < |s| && s[p].Full? && e < |s| && s[e].Empty?
    ensures Holed(hash, s[p := Empty], Removed(x, s[p].key), p, e)
  {
    var s' := s[p := Empty];
    HoleOrder(s, s', p);
    HoleIndexed(s, x, p);
    forall i | 0 <= i < |s'| && s'[i].Full? ensures InPlace(hash, s', i) {
      assert InPlace(hash, s, i);
    }
  }

  lemma HoleOrder<K, V>(s: seq<Bucket<K, V>>, s': seq<Bucket<K, V>>, p: nat)
    requires Robin(s) && p < |s| && s' == s[p := Empty]
    ensures forall i :: 0 <= i < |s'| && i != NextBucket(p, |s'|) ==> InOrder(s', i)
    ensures Dist(s[NextBucket(p, |s|)]) <= Dist(s[PreviousBucket(p, |s|)]) + 2
  {
    assert InOrder(s, NextBucket(p, |s|)) && InOrder(s, p);
    forall i | 0 <= i < |s'| && i != NextBucket(p, |s'|) ensures InOrder(s', i) {
      assert InOrder(s, i);
    }
  }

  lemma HoleIndexed<K, V>(s: seq<Bucket<K, V>>, x: Index<K, V>, p: nat)
    requires Indexed(s, x) && p < |s| && s[p].Full?
    ensures Indexed(s[p := Empty], Removed(x, s[p].key))
  {
  }

  /** The entry after the hole, one step closer to its home. */
  function Closer<K, V>(b: Bucket<K, V>): Bucket<K, V>
    requires b.Full? && b.dist > 0
  {
    Full(b.dist - 1, b.thash, b.key, b.value)
  }

  function Shifted<K, V>(s: seq<Bucket<K, V>>, p: nat): seq<Bucket<K, V>>
    requires p < |s| && Dist(s[NextBucket(p, |s|)]) > 0
  {
    s[p := Closer(s[NextBucket(p, |s|)])][NextBucket(p, |s|) := Empty]
  }

  lemma ShiftPlaced<K, V>(hash: K -> nat, s: seq<Bucket<K, V>>, x: Index<K, V>, p: nat, e: nat)
    requires Holed(hash, s, x, p, e) && Dist(s[NextBucket(p, |s|)]) > 0
    ensures Placed(hash, Shifted(s, p))
  {
    var c, s' := NextBucket(p, |s|), Shifted(s, p);
    assert InPlace(hash, s, c);
    forall i | 0 <= i < |s'| && s'[i].Full? ensures InPlace(hash, s', i) {
      if i == p {
        assert s'[p] == Closer(s[c]);
        ProbeOn(Home(hash, s[c].key, |s|), s[c].dist - 1, |s|);
      } else {
        assert InPlace(hash, s, i);
      }
    }
  }

  lemma ShiftOrder<K, V>(hash: K -> nat, s: seq<Bucket<K, V>>, x: Index<K, V>, p: nat, e: nat, i: nat)
    requires Holed(hash, s, x, p, e) && Dist(s[NextBucket(p, |s|)]) > 0
    requires i < |s| && i != NextBucket(NextBucket(p, |s|), |s|)
    ensures InOrder(Shifted(s, p), i)
  {
    if i != NextBucket(p, |s|) {
      assert InOrder(s, i);
    }
  }

  lemma ShiftIndexed<K, V>(hash: K -> nat, s: seq<Bucket<K, V>>, x: Index<K, V>, p: nat, e: nat)
    requires Holed(hash, s, x, p, e) && Dist(s[NextBucket(p, |s|)]) > 0
    ensures Indexed(Shifted(s, p), x.(pos := x.pos[s[NextBucket(p, |s|)].key := p]))
  {
  }

  /** Backward shift: the hole moves on, everything else stays as it should be. */
  lemma ShiftBack<K, V>(hash: K -> nat, s: seq<Bucket<K, V>>, x: Index<K, V>, p: nat, e: nat)
    requires Holed(hash, s, x, p, e) && Dist(s[NextBucket(p, |s|)]) > 0
    ensures var c := NextBucket(p, |s|);
            Holed(hash, Shifted(s, p), x.(pos := x.pos[s[c].key := p]), c, e)
  {
    var c, s' := NextBucket(p, |s|), Shifted(s, p);
    ShiftPlaced(hash, s, x, p, e);
    ShiftIndexed(hash, s, x, p, e);
    ShiftLeaves(s, p, e);
    forall i | 0 <= i < |s'| && i != NextBucket(c, |s'|) ensures InOrder(s', i) {
      ShiftOrder(hash, s, x, p, e, i);
    }
    assert InOrder(s, NextBucket(c, |s|));
  }

  lemma ShiftLeaves<K, V>(s: seq<Bucket<K, V>>, p: nat, e: nat)
    requires p < |s| && e < |s| && p != e && s[e].Empty? && Dist(s[NextBucket(p, |s|)]) > 0
    ensures var c, s' := NextBucket(p, |s|), Shifted(s, p);
      && |s'| == |s| && c != e && s'[c].Empty? && s'[e].Empty?
      && (p != c ==> Dist(s'[p]) == Dist(s[c]) - 1)
      && forall i :: 0 <= i < |s| && i != p && i != c ==> s'[i] == s[i]
  {
  }

  lemma HoleClosed<K, V>(hash: K -> nat, s: seq<Bucket<K, V>>, x: Index<K, V>, p: nat, e: nat)
    requires Holed(hash, s, x, p, e) && Dist(s[NextBucket(p, |s|)]) <= 0
    ensures Table(hash, s, x)
  {
    forall i | 0 <= i < |s| ensures InOrder(s, i) {
    }
  }

  // At least one bucket is empty.

  function KeysBelow<K, V>(s: seq<Bucket<K, V>>, m: nat): set<K>
    requires m <= |s| && forall i :: 0 <= i < |s| ==> s[i].Full?
  {
    if m == 0 then {} else KeysBelow(s, m - 1) + {s[m - 1].key}
  }

  lemma {:induction false} KeysBelowSize<K, V>(s: seq<Bucket<K, V>>, x: Index<K, V>, m: nat)
    requires Indexed(s, x) && m <= |s| && forall i :: 0 <= i < |s| ==> s[i].Full?
    ensures |KeysBelow(s, m)| == m && KeysBelow(s, m) <= x.pos.Keys
    ensures forall k :: k in KeysBelow(s, m) ==> x.pos[k] < m
  {
    if m > 0 {
      KeysBelowSize(s, x, m - 1);
    }
  }

  lemma {:induction false} SubsetSize<T>(a: set<T>, b: set<T>)
    requires a <= b
    ensures |a| <= |b|
  {
    if a != {} {
      var t :| t in a;
      SubsetSize(a - {t}, b - {t});
    }
  }

  lemma SomeEmpty<K, V>(s: seq<Bucket<K, V>>, x: Index<K, V>) returns (e: nat)
    requires Indexed(s, x) && |x.contents| < |s|
    ensures e < |s| && s[e].Empty?
  {
    assert |x.pos.Keys| == |x.contents.Keys| == |x.contents|;
    if forall i :: 0 <= i < |s| ==> s[i].Full? {
      KeysBelowSize(s, x, |s|);
      SubsetSize(KeysBelow(s, |s|), x.pos.Keys);
    }
    e :| 0 <= e < |s| && s[e].Empty?;
  }
}
