/** The robin-hood hash table, updated in place, against the finite map it stands for. */
module RobinHash {
  import opened Bits
  import opened GrowthPolicy
  import opened RobinBuckets

  const MAX_BUCKET_COUNT := Pow2(63)
  const DIST_LIMIT := 4096

  datatype InsertResult = Inserted(bucket: nat) | Present(bucket: nat) | LengthError

  class Table<!K(==), V> {
    const hash: K -> nat
    const storeHash: bool
    const compareStored: bool
    var buckets: array<Bucket<K, V>>
    var bucketCount: nat
    var mask: nat
    var nbElements: nat
    var loadThreshold: nat
    var growOnNextInsert: bool
    var tryShrinkOnNextInsert: bool
    ghost var index: Index<K, V>

    /** A table of no buckets shares one bucket that is never written. */
    ghost predicate Shape()
      reads this`buckets, this`bucketCount, this`mask, this`loadThreshold
    {
      Shaped(buckets.Length, bucketCount, mask, loadThreshold)
    }

    ghost predicate Valid()
      reads this`buckets, this`bucketCount, this`mask, this`loadThreshold, this`nbElements, this`index, buckets
    {
      Shape() && Stands(hash, buckets[..], index, nbElements, loadThreshold)
    }

    /** The map the table stands for. */
    ghost function Contents(): map<K, V>
      reads this`index
    {
      index.contents
    }

    /** A table of `n` buckets, with one never written if there are none. */
    constructor WithBuckets(n: nat, size: nat, hash: K -> nat, storeHash: bool, compareStored: bool)
      requires size == (if n == 0 then 1 else n) && IsPow2(size)
      ensures Valid() && Contents() == map[] && fresh(buckets) && bucketCount == n
      ensures this.hash == hash && this.storeHash == storeHash && this.compareStored == compareStored
      ensures !growOnNextInsert && !tryShrinkOnNextInsert
    {
      this.hash, this.storeHash, this.compareStored := hash, storeHash, compareStored;
      buckets := new Bucket<K, V>[size](_ => Empty);
      bucketCount, mask, nbElements, loadThreshold := n, size - 1, 0, n / 2;
      growOnNextInsert, tryShrinkOnNextInsert := false, false;
      index := Index(map[], map[]);
      new;
      EmptyTable(hash, buckets[..]);
    }

    /** A new table for a number of buckets; none stands for the exception when that is too many. */
    static method Create(count: nat, hash: K -> nat, storeHash: bool, compareStored: bool) returns (t: Table?<K, V>)
      ensures t == null <==> count > MAX_BUCKET_COUNT
      ensures t != null ==>
        && fresh(t) && fresh(t.buckets) && t.Valid() && t.Contents() == map[]
        && t.hash == hash && t.storeHash == storeHash && t.compareStored == compareStored
        && t.bucketCount >= count && (count == 0 ==> t.bucketCount == 0)
        && !t.growOnNextInsert && !t.tryShrinkOnNextInsert
    {
      if count > MAX_BUCKET_COUNT {
        return null;
      }
      var n, size := Sizes(count);
      t := new Table.WithBuckets(n, size, hash, storeHash, compareStored);
    }

    /** The number of buckets for a wish, and of buckets allocated. */
    static method Sizes(count: nat) returns (n: nat, size: nat)
      requires count <= MAX_BUCKET_COUNT
      ensures n >= count && (count == 0 ==> n == 0) && size == (if n == 0 then 1 else n) && IsPow2(size)
    {
      n := 0;
      if count > 0 {
        n := RoundUpToPowerOfTwo(count);
      }
      assert IsPow2(1) by { assert Pow2(0) == 1; }
      size := if n == 0 then 1 else n;
    }

    function BucketForHash(h: nat): (i: nat)
      reads this`mask
    {
      And(h, mask)
    }

    function Following(i: nat): nat
      reads this`mask
    {
      And(i + 1, mask)
    }

    lemma MaskedHash(h: nat)
      requires Shape()
      ensures BucketForHash(h) == h % buckets.Length
    {
      var k: nat :| buckets.Length == Pow2(k);
      MaskIsMod(h, k);
    }

    lemma FollowingIsNext(i: nat)
      requires Shape() && i < buckets.Length
      ensures Following(i) == NextBucket(i, buckets.Length)
    {
      MaskedHash(i + 1);
      if i + 1 < buckets.Length {
        ModUnique(i + 1, buckets.Length, 0, i + 1);
      } else {
        ModUnique(i + 1, buckets.Length, 1, 0);
      }
    }

    /**
     * The probe loop: either the key's bucket, or the bucket at which the key is known to be missing and may
     * be put down.
     */
    method Search(key: K) returns (found: bool, ibucket: nat, dist: nat)
      requires Valid()
      ensures ibucket < buckets.Length
      ensures found ==> key in index.pos && ibucket == index.pos[key]
      ensures !found ==> dist > Dist(buckets[ibucket]) && key !in index.pos && Probing(key, ibucket, dist)
    {
      ProbeStart(key);
      ibucket, dist := BucketForHash(hash(key)), 0;
      ghost var e := SomeEmpty(buckets[..], index);
      while dist <= Dist(buckets[ibucket])
        invariant Probing(key, ibucket, dist)
        decreases Gap(ibucket, e, buckets.Length)
      {
        ProbeTurn(key, ibucket, dist, e);
        if KeyAt(key, ibucket) {
          return true, ibucket, dist;
        }
        ibucket, dist := Following(ibucket), dist + 1;
      }
      ProbeMissed(key, ibucket, dist);
      return false, ibucket, dist;
    }

    /** The comparison in a bucket: the stored hashes first, if they are compared, then the keys. */
    predicate KeyAt(key: K, i: nat)
      requires i < buckets.Length && buckets[i].Full?
      reads this`buckets, buckets
    {
      (!compareStored || buckets[i].thash == Truncate(hash(key))) && buckets[i].key == key
    }

    /** The probe has come `dist` buckets from the key's home and not passed the key. */
    ghost predicate Probing(key: K, ibucket: nat, dist: nat)
      reads this`buckets, this`index, buckets
    {
      Probes(hash, buckets[..], index, key, ibucket, dist)
    }

    lemma ProbeStart(key: K)
      requires Valid()
      ensures Probing(key, BucketForHash(hash(key)), 0)
    {
      MaskedHash(hash(key));
    }

    /** A turn of the loop: the key is here, or the probe goes on towards the empty bucket `e`. */
    lemma ProbeTurn(key: K, ibucket: nat, dist: nat, e: nat)
      requires Valid() && Probing(key, ibucket, dist) && dist <= Dist(buckets[ibucket])
      requires e < buckets.Length && buckets[e].Empty?
      ensures KeyAt(key, ibucket) ==> key in index.pos && index.pos[key] == ibucket
      ensures !KeyAt(key, ibucket) ==>
        && Probing(key, Following(ibucket), dist + 1)
        && Gap(Following(ibucket), e, buckets.Length) < Gap(ibucket, e, buckets.Length)
    {
      var s, n := buckets[..], buckets.Length;
      assert s[ibucket] == buckets[ibucket];
      if !KeyAt(key, ibucket) {
        NotHere(hash, s, index, key, ibucket, compareStored);
        FollowingIsNext(ibucket);
        GapStep(ibucket, e, n);
        ProbeOn(Home(hash, key, n), dist, n);
        PassedBy(hash, s, index, key, ibucket, dist);
      }
    }

    lemma ProbeMissed(key: K, ibucket: nat, dist: nat)
      requires Valid() && Probing(key, ibucket, dist) && dist > Dist(buckets[ibucket])
      ensures key !in index.pos
    {
      if key in index.pos {
        NoEarlyExit(hash, buckets[..], index, key, dist);
      }
    }

    method Find(key: K) returns (i: nat)
      requires Valid()
      ensures key in Contents() ==>
        i < bucketCount && buckets[i].Full? && buckets[i].key == key && buckets[i].value == Contents()[key]
      ensures key !in Contents() ==> i == bucketCount
    {
      var found, ibucket, dist := Search(key);
      i := if found then ibucket else bucketCount;
    }

    ghost predicate Sound()
      reads this`buckets, this`bucketCount, this`mask, this`loadThreshold, this`index, buckets
    {
      Shape() && RobinBuckets.Table(hash, buckets[..], index)
    }

    ghost predicate Landable(c: Carried<K, V>, p: nat)
      reads this`buckets, this`index, buckets
    {
      buckets.Length > 0 && CanLand(hash, buckets[..], index, c, p)
    }

    /** Puts the carried entry into bucket p and carries the entry found there on to the next bucket. */
    method SwapWithBucket(p: nat, c: Carried<K, V>) returns (c': Carried<K, V>)
      requires Sound() && p < buckets.Length && Landable(c, p) && buckets[p].Full? && c.dist > buckets[p].dist
      modifies this`index, buckets
      ensures Sound() && Landable(c', NextBucket(p, buckets.Length))
      ensures forall i :: 0 <= i < buckets.Length && i != p ==> buckets[i] == old(buckets[i])
      ensures Contents()[c'.key := c'.value] == old(Contents())[c.key := c.value]
      ensures |Contents()| == |old(Contents())|
      ensures c.key in index.pos && index.pos[c.key] == p
      ensures forall k :: k in old(index.pos) && old(index.pos[k]) != p ==> k in index.pos && index.pos[k] == old(index.pos[k])
    {
      ghost var s := buckets[..];
      Steal(hash, s, index, c, p);
      StealContents(s, index, c, p);
      index := Replaced(s, index, c, p);
      c' := Evicted(buckets[p]);
      buckets[p] := Landed(c);
      assert buckets[..] == s[p := Landed(c)];
    }

    method SetEmptyBucket(p: nat, c: Carried<K, V>)
      requires Sound() && p < buckets.Length && Landable(c, p) && buckets[p].Empty?
      modifies this`index, buckets
      ensures Sound() && Contents() == old(Contents())[c.key := c.value] && |Contents()| == |old(Contents())| + 1
      ensures index.pos == old(index.pos)[c.key := p]
    {
      ghost var s := buckets[..];
      Land(hash, s, index, c, p);
      index := Added(index, c, p);
      buckets[p] := Landed(c);
      assert buckets[..] == s[p := Landed(c)];
    }

    /** One probe with a carried entry: swap if the bucket's entry is richer, pass on otherwise. */
    method Displace(p: nat, c: Carried<K, V>) returns (p': nat, c': Carried<K, V>)
      requires Sound() && p < buckets.Length && Landable(c, p) && buckets[p].Full?
      modifies this`index, buckets
      ensures Sound() && p' == NextBucket(p, buckets.Length) && Landable(c', p')
      ensures forall i :: 0 <= i < buckets.Length && old(buckets[i].Empty?) ==> buckets[i].Empty?
      ensures Contents()[c'.key := c'.value] == old(Contents())[c.key := c.value]
      ensures |Contents()| == |old(Contents())|
      ensures c.dist > old(buckets[p].dist) ==> c.key in index.pos && index.pos[c.key] == p
      ensures forall k :: k in old(index.pos) && old(index.pos[k]) != p ==> k in index.pos && index.pos[k] == old(index.pos[k])
    {
      FollowingIsNext(p);
      if c.dist > buckets[p].dist {
        c' := SwapWithBucket(p, c);
      } else {
        PassOn(hash, buckets[..], index, c, p);
        c' := c.(dist := c.dist + 1);
      }
      p' := Following(p);
    }

    /** The displacement loop, entered at a bucket whose entry is richer than the new one. */
    method InsertValueImpl(start: nat, entry: Carried<K, V>)
      requires Sound() && start < buckets.Length && Landable(entry, start)
      requires buckets[start].Full? && entry.dist > buckets[start].dist && |Contents()| < buckets.Length
      modifies this`index, this`growOnNextInsert, buckets
      ensures Sound() && Contents() == old(Contents())[entry.key := entry.value]
      ensures |Contents()| == |old(Contents())| + 1
      ensures index.pos[entry.key] == start
    {
      ghost var target, size := Contents()[entry.key := entry.value], |Contents()|;
      ghost var e := SomeEmpty(buckets[..], index);
      GapStep(start, e, buckets.Length);
      var ibucket: nat, c := Displace(start, entry);
      PutDown(ibucket, c, start, entry.key, e, target, size);
    }

    /** The rest of the loop: on to the empty bucket `e` at the latest, without coming back to `start`. */
    method PutDown(from: nat, entry: Carried<K, V>, ghost start: nat, ghost key: K, ghost e: nat, ghost target: map<K, V>,
                   ghost size: nat)
      requires Carrying(from, entry, target, size) && e < buckets.Length && buckets[e].Empty? && start < buckets.Length
      requires Gap(from, e, buckets.Length) < Gap(start, e, buckets.Length)
      requires key in index.pos && index.pos[key] == start
      modifies this`index, this`growOnNextInsert, buckets
      ensures Sound() && Contents() == target && |Contents()| == size + 1
      ensures key in index.pos && index.pos[key] == start
    {
      ghost var n := buckets.Length;
      var ibucket: nat, c := from, entry;
      while !buckets[ibucket].Empty?
        invariant ibucket < n && Carrying(ibucket, c, target, size) && buckets[e].Empty?
        invariant Gap(ibucket, e, n) < Gap(start, e, n) && key in index.pos && index.pos[key] == start
        decreases Gap(ibucket, e, n)
      {
        GapStep(ibucket, e, n);
        ibucket, c := CarryOn(ibucket, c, target, size, e, key);
      }
      SetEmptyBucket(ibucket, c);
    }

    /** The table and the entry in hand stand for the target map. */
    ghost predicate Carrying(ibucket: nat, c: Carried<K, V>, target: map<K, V>, size: nat)
      reads this`buckets, this`bucketCount, this`mask, this`loadThreshold, this`index, buckets
    {
      Shape() && Carries(hash, buckets[..], index, c, ibucket, target, size)
    }

    /** One turn of the loop; an entry that stays where it is keeps its place. */
    method CarryOn(ibucket: nat, c: Carried<K, V>, ghost target: map<K, V>, ghost size: nat, ghost e: nat, ghost key: K)
      returns (next: nat, c': Carried<K, V>)
      requires Carrying(ibucket, c, target, size) && buckets[ibucket].Full? && e < buckets.Length && buckets[e].Empty?
      requires key in index.pos && index.pos[key] != ibucket
      modifies this`index, this`growOnNextInsert, buckets
      ensures next == NextBucket(ibucket, buckets.Length) && Carrying(next, c', target, size) && buckets[e].Empty?
      ensures key in index.pos && index.pos[key] == old(index.pos[key])
    {
      if c.dist > buckets[ibucket].dist && c.dist >= DIST_LIMIT {
        growOnNextInsert := true;
      }
      next, c' := Displace(ibucket, c);
    }

    /** The insertion loop used while rehashing, from the entry's home bucket on. */
    method InsertValueOnRehash(start: nat, entry: Carried<K, V>)
      requires Sound() && start < buckets.Length && Landable(entry, start) && |Contents()| < buckets.Length
      modifies this`index, buckets
      ensures Sound() && Contents() == old(Contents())[entry.key := entry.value]
      ensures |Contents()| == |old(Contents())| + 1
    {
      ghost var n, target := buckets.Length, Contents()[entry.key := entry.value];
      ghost var e := SomeEmpty(buckets[..], index);
      var ibucket: nat, c := start, entry;
      while buckets[ibucket].Full?
        invariant Sound() && ibucket < n && Landable(c, ibucket) && buckets[e].Empty?
        invariant Contents()[c.key := c.value] == target && |Contents()| == |old(Contents())|
        decreases Gap(ibucket, e, n)
      {
        GapStep(ibucket, e, n);
        ibucket, c := Displace(ibucket, c);
      }
      SetEmptyBucket(ibucket, c);
    }

    // Rehashing.

    /** Whether the stored 32 bits of a hash are enough to find a bucket among `count`. */
    predicate UseStoredHash(count: nat) {
      storeHash && count > 0 && count - 1 <= Ones(TRUNCATED_BITS)
    }

    /** The home bucket found from the stored hash is the one the full hash selects. */
    lemma StoredHashSelects(key: K, thash: nat, stored: bool)
      requires Shape() && (stored ==> buckets.Length - 1 <= Ones(TRUNCATED_BITS)) && thash == Truncate(hash(key))
      ensures var h := if stored then thash else hash(key);
              BucketForHash(h) == Home(hash, key, buckets.Length) && Truncate(h) == thash
    {
      var k: nat :| buckets.Length == Pow2(k);
      MaskIsMod(hash(key), k);
      if stored {
        if k > TRUNCATED_BITS { Pow2Monotone(TRUNCATED_BITS, k); }
        TruncatedMask(hash(key), k, TRUNCATED_BITS);
        TruncatedMask(hash(key), TRUNCATED_BITS, TRUNCATED_BITS);
      }
    }

    /** Inserts an entry of another table whose key is not here yet. */
    method Reinsert(b: Bucket<K, V>)
      requires Sound() && b.Full? && b.thash == Truncate(hash(b.key)) && b.key !in Contents() && |Contents()| < buckets.Length
      modifies this`index, buckets
      ensures Sound() && Contents() == old(Contents())[b.key := b.value] && |Contents()| == |old(Contents())| + 1
    {
      var stored := UseStoredHash(bucketCount);
      var h := if stored then b.thash else hash(b.key);
      StoredHashSelects(b.key, b.thash, stored);
      InsertValueOnRehash(BucketForHash(h), Carried(0, Truncate(h), b.key, b.value));
    }

    /** Takes every entry of another table's buckets into this empty one, which has room for them. */
    method TakeAll(s: seq<Bucket<K, V>>, ghost x: Index<K, V>)
      requires RobinBuckets.Table(hash, s, x)
      requires Sound() && Contents() == map[] && 2 * |x.contents| <= bucketCount
      modifies this`index, buckets
      ensures Sound() && Contents() == x.contents
    {
      var i: nat := 0;
      BelowNone(x);
      BelowAll(s, x);
      while i < |s|
        invariant i <= |s| && Sound() && Contents() == Below(x, i)
      {
        TakeBucket(s, x, i);
        i := i + 1;
      }
    }

    method TakeBucket(s: seq<Bucket<K, V>>, ghost x: Index<K, V>, i: nat)
      requires RobinBuckets.Table(hash, s, x) && i < |s|
      requires Sound() && Contents() == Below(x, i) && 2 * |x.contents| <= bucketCount
      modifies this`index, buckets
      ensures Sound() && Contents() == Below(x, i + 1)
    {
      BelowStep(s, x, i);
      BelowSize(x, i);
      if s[i].Full? {
        assert InPlace(hash, s, i);
        assert |x.contents| > 0 by { assert s[i].key in x.contents; }
        Reinsert(s[i]);
      }
    }

    method RehashImpl(count: nat)
      requires Valid() && 2 * nbElements <= count <= MAX_BUCKET_COUNT
      modifies this
      ensures Valid() && Contents() == old(Contents()) && fresh(buckets) && nbElements == old(nbElements)
      ensures bucketCount >= count && !growOnNextInsert && !tryShrinkOnNextInsert
    {
      var t := Create(count, hash, storeHash, compareStored);
      t.TakeAll(buckets[..], index);
      Adopt(t);
    }

    /** Takes over another table's buckets. */
    method Adopt(t: Table<K, V>)
      requires t != this && t.Sound() && t.hash == hash && t.Contents() == Contents()
      requires nbElements == |Contents()| <= t.loadThreshold
      modifies this`index, this`buckets, this`bucketCount, this`mask, this`loadThreshold, this`growOnNextInsert,
               this`tryShrinkOnNextInsert
      ensures Valid() && Contents() == t.Contents() && buckets == t.buckets && bucketCount == t.bucketCount
      ensures growOnNextInsert == t.growOnNextInsert && tryShrinkOnNextInsert == t.tryShrinkOnNextInsert
    {
      ghost var s, x := t.buckets[..], t.index;
      assert Stands(hash, s, x, nbElements, t.loadThreshold);
      index, buckets, bucketCount, mask, loadThreshold := t.index, t.buckets, t.bucketCount, t.mask, t.loadThreshold;
      growOnNextInsert, tryShrinkOnNextInsert := t.growOnNextInsert, t.tryShrinkOnNextInsert;
      assert buckets[..] == s && index == x;
    }

    /** Full enough to grow, at the largest number of buckets. */
    ghost predicate AtLargest()
      reads this`buckets, this`nbElements, this`loadThreshold, this`growOnNextInsert
    {
      (growOnNextInsert || nbElements >= loadThreshold) && buckets.Length > MAX_BUCKET_COUNT / 2
    }

    /** Grows the table when it is full enough; `tooLarge` stands for the exception when it cannot grow. */
    method RehashOnExtremeLoad() returns (rehashed: bool, tooLarge: bool)
      requires Valid()
      modifies this
      ensures Valid() && Contents() == old(Contents()) && nbElements == old(nbElements)
      ensures buckets == old(buckets) || fresh(buckets)
      ensures !tooLarge ==> nbElements < loadThreshold
      ensures tooLarge <==> old(AtLargest())
      ensures tooLarge ==> !rehashed && unchanged(this)
      ensures !rehashed ==> buckets == old(buckets) && index == old(index)
    {
      if growOnNextInsert || nbElements >= loadThreshold {
        if mask + 1 > MAX_BUCKET_COUNT / 2 {
          return false, true;
        }
        Grow();
        return true, false;
      }
      if tryShrinkOnNextInsert {
        tryShrinkOnNextInsert := false;
      }
      return false, false;
    }

    /** Twice the buckets. */
    method Grow()
      requires Valid() && mask + 1 <= MAX_BUCKET_COUNT / 2
      modifies this
      ensures Valid() && Contents() == old(Contents()) && nbElements == old(nbElements) && fresh(buckets)
      ensures nbElements < loadThreshold
    {
      RehashImpl((mask + 1) * 2);
      growOnNextInsert := false;
    }

    /** Adds the key unless it is there already. A new entry always ends up in the bucket returned. */
    method Insert(key: K, value: V) returns (res: InsertResult)
      requires Valid()
      modifies this, buckets
      ensures Valid() && (buckets == old(buckets) || fresh(buckets))
      ensures res.Present? <==> key in old(Contents())
      ensures Contents() == if res.Inserted? then old(Contents())[key := value] else old(Contents())
      ensures !res.LengthError? ==> index.pos[key] == res.bucket
      ensures res.LengthError? <==> key !in old(Contents()) && old(AtLargest())
      ensures res.LengthError? ==> unchanged(this)
    {
      var found, ibucket, dist := Search(key);
      if found {
        return Present(ibucket);
      }
      res := InsertMissing(key, value, ibucket, dist);
    }

    /** A key that is missing goes where the search stopped, or where it stops after a rehash. */
    method InsertMissing(key: K, value: V, at: nat, from: nat) returns (res: InsertResult)
      requires Valid() && key !in index.pos && Probing(key, at, from) && from > Dist(buckets[at])
      modifies this, buckets
      ensures Valid() && (buckets == old(buckets) || fresh(buckets)) && !res.Present?
      ensures Contents() == if res.Inserted? then old(Contents())[key := value] else old(Contents())
      ensures res.Inserted? ==> index.pos[key] == res.bucket
      ensures res.LengthError? <==> old(AtLargest())
      ensures res.LengthError? ==> unchanged(this)
    {
      var ibucket, dist := at, from;
      var rehashed, tooLarge := RehashOnExtremeLoad();
      if tooLarge {
        return LengthError;
      }
      if rehashed {
        var found;
        found, ibucket, dist := Search(key);
      }
      var entry := Carried(dist, Truncate(hash(key)), key, value);
      Lands(entry, ibucket);
      InsertAt(ibucket, entry);
      return Inserted(ibucket);
    }

    lemma Lands(c: Carried<K, V>, ibucket: nat)
      requires Probing(c.key, ibucket, c.dist) && c.key !in index.pos && c.thash == Truncate(hash(c.key))
      ensures Landable(c, ibucket)
    {
    }

    method InsertAt(ibucket: nat, c: Carried<K, V>)
      requires Valid() && nbElements < loadThreshold && ibucket < buckets.Length && Landable(c, ibucket)
      requires c.dist > Dist(buckets[ibucket])
      modifies this`index, this`nbElements, this`growOnNextInsert, buckets
      ensures Valid() && Contents() == old(Contents())[c.key := c.value] && index.pos[c.key] == ibucket
    {
      ghost var size := |Contents()|;
      if buckets[ibucket].Empty? {
        SetEmptyBucket(ibucket, c);
      } else {
        InsertValueImpl(ibucket, c);
      }
      assert Sound() && |Contents()| == size + 1;
      nbElements := nbElements + 1;
    }

    // Removal.

    /** Moves the entry after the empty bucket p one bucket back. */
    method ShiftOne(p: nat, ghost e: nat)
      requires Shape() && Holed(hash, buckets[..], index, p, e) && Dist(buckets[NextBucket(p, buckets.Length)]) > 0
      modifies this`index, buckets
      ensures Holed(hash, buckets[..], index, NextBucket(p, buckets.Length), e) && Contents() == old(Contents())
    {
      ghost var s := buckets[..];
      FollowingIsNext(p);
      var c := Following(p);
      ShiftBack(hash, s, index, p, e);
      index := index.(pos := index.pos[buckets[c].key := p]);
      buckets[p] := Closer(buckets[c]);
      buckets[c] := Empty;
      assert buckets[..] == Shifted(s, p);
    }

    method ClearBucket(pos: nat, ghost e: nat)
      requires Sound() && pos < buckets.Length && buckets[pos].Full? && e < buckets.Length && buckets[e].Empty?
      modifies this`index, buckets
      ensures Shape() && Holed(hash, buckets[..], index, pos, e)
      ensures Contents() == old(Contents()) - {old(buckets[pos].key)} && |Contents()| == |old(Contents())| - 1
    {
      ghost var s, key := buckets[..], buckets[pos].key;
      MakeHole(hash, s, index, pos, e);
      assert index.contents.Keys == (index.contents - {key}).Keys + {key};
      index := Removed(index, key);
      buckets[pos] := Empty;
      assert buckets[..] == s[pos := Empty];
    }

    /** Backward shift, until an empty bucket or an entry that is at home. */
    method CloseHole(pos: nat, ghost e: nat)
      requires Shape() && Holed(hash, buckets[..], index, pos, e)
      modifies this`index, buckets
      ensures Sound() && Contents() == old(Contents())
    {
      ghost var n := buckets.Length;
      var previous: nat := pos;
      FollowingIsNext(previous);
      var ibucket: nat := Following(previous);
      while Dist(buckets[ibucket]) > 0
        invariant Shape() && Holed(hash, buckets[..], index, previous, e) && ibucket == NextBucket(previous, n)
        invariant Contents() == old(Contents())
        decreases Gap(ibucket, e, n)
      {
        GapStep(ibucket, e, n);
        ShiftOne(previous, e);
        previous := ibucket;
        FollowingIsNext(previous);
        ibucket := Following(previous);
      }
      HoleClosed(hash, buckets[..], index, previous, e);
    }

    method EraseFromBucket(pos: nat)
      requires Valid() && pos < buckets.Length && buckets[pos].Full?
      modifies this`index, this`nbElements, buckets
      ensures Valid() && Contents() == old(Contents()) - {old(buckets[pos].key)}
    {
      RemoveEntry(pos);
      nbElements := nbElements - 1;
    }

    method RemoveEntry(pos: nat)
      requires Sound() && pos < buckets.Length && buckets[pos].Full? && |Contents()| < buckets.Length
      modifies this`index, buckets
      ensures Sound() && Contents() == old(Contents()) - {old(buckets[pos].key)} && |Contents()| == |old(Contents())| - 1
    {
      ghost var e := SomeEmpty(buckets[..], index);
      ClearBucket(pos, e);
      CloseHole(pos, e);
    }

    /** Removes the key; the number of entries removed. */
    method Erase(key: K) returns (removed: nat)
      requires Valid()
      modifies this`index, this`nbElements, this`tryShrinkOnNextInsert, buckets
      ensures Valid() && Contents() == old(Contents()) - {key} && buckets == old(buckets)
      ensures removed == if key in old(Contents()) then 1 else 0
    {
      var i := Find(key);
      if i != bucketCount {
        EraseFromBucket(i);
        tryShrinkOnNextInsert := true;
        return 1;
      }
      NothingRemoved(Contents(), key);
      return 0;
    }

    /** Removes the entry at an iterator; the iterator to the next entry. */
    method EraseAt(pos: nat) returns (next: nat)
      requires Valid() && pos < bucketCount && buckets[pos].Full?
      modifies this`index, this`nbElements, this`tryShrinkOnNextInsert, buckets
      ensures Valid() && Contents() == old(Contents()) - {old(buckets[pos].key)} && buckets == old(buckets)
      ensures pos <= next <= bucketCount && (next < bucketCount ==> buckets[next].Full?)
      ensures forall i :: pos <= i < next ==> buckets[i].Empty?
    {
      EraseFromBucket(pos);
      tryShrinkOnNextInsert := true;
      next := EntryFrom(pos);
    }

    /** The first occupied bucket from `pos` on, or the end. */
    method EntryFrom(pos: nat) returns (next: nat)
      requires pos <= bucketCount <= buckets.Length
      ensures pos <= next <= bucketCount && (next < bucketCount ==> buckets[next].Full?)
      ensures forall i :: pos <= i < next ==> buckets[i].Empty?
    {
      next := pos;
      while next < bucketCount && buckets[next].Empty?
        invariant pos <= next <= bucketCount && forall i :: pos <= i < next ==> buckets[i].Empty?
      {
        next := next + 1;
      }
    }

    /** Rehashes to at least `count` buckets and at least twice the number of entries. */
    method Rehash(count: nat) returns (ok: bool)
      requires Valid()
      modifies this
      ensures Valid() && Contents() == old(Contents()) && (buckets == old(buckets) || fresh(buckets))
      ensures ok ==> bucketCount >= count
      ensures ok <==> count <= MAX_BUCKET_COUNT && 2 * old(nbElements) <= MAX_BUCKET_COUNT
      ensures !ok ==> unchanged(this)
    {
      var size := if count < 2 * nbElements then 2 * nbElements else count;
      if size > MAX_BUCKET_COUNT {
        return false;
      }
      RehashImpl(size);
      return true;
    }

    /** The value under a key. */
    method Get(key: K) returns (answer: Answer<V>)
      requires Valid()
      ensures answer == Look(Contents(), key)
    {
      var i := Find(key);
      if i == bucketCount {
        return Missing;
      }
      return Found(buckets[i].value);
    }

    /** Finding a key and removing the entry at the iterator. */
    method EraseFound(key: K) returns (removed: nat)
      requires Valid()
      modifies this`index, this`nbElements, this`tryShrinkOnNextInsert, buckets
      ensures Valid() && Contents() == old(Contents()) - {key} && buckets == old(buckets)
      ensures removed == if key in old(Contents()) then 1 else 0
    {
      var i := Find(key);
      if i == bucketCount {
        return 0;
      }
      var next := EraseAt(i);
      return 1;
    }

    /** The operations that throw: a new entry for a table that cannot grow, and a rehash to more than the largest size. */
    ghost predicate Refuses(op: Op<K, V>)
      reads this`index, this`buckets, this`nbElements, this`loadThreshold, this`growOnNextInsert
    {
      || (op.Put? && op.key !in Contents() && AtLargest())
      || (op.Resize? && (op.count > MAX_BUCKET_COUNT || 2 * nbElements > MAX_BUCKET_COUNT))
    }

    method PutEntry(key: K, value: V) returns (answer: Answer<V>, ok: bool)
      requires Valid()
      modifies this, buckets
      ensures Valid() && (buckets == old(buckets) || fresh(buckets))
      ensures ok ==> Contents() == Effect(old(Contents()), Put(key, value)) && answer == Reply(old(Contents()), Put(key, value))
      ensures ok <==> !old(Refuses(Put(key, value)))
      ensures !ok ==> unchanged(this)
    {
      var res := Insert(key, value);
      ok := !res.LengthError?;
      answer := Changed(if res.Inserted? then 1 else 0);
    }

    /** One operation of a run; `ok` is false when it threw. */
    method Perform(op: Op<K, V>) returns (answer: Answer<V>, ok: bool)
      requires Valid()
      modifies this, buckets
      ensures Valid() && (buckets == old(buckets) || fresh(buckets))
      ensures ok ==> Contents() == Effect(old(Contents()), op) && answer == Reply(old(Contents()), op)
      ensures ok <==> !old(Refuses(op))
      ensures !ok ==> unchanged(this)
    {
      if op.Put? {
        answer, ok := PutEntry(op.key, op.value);
      } else if op.Resize? {
        answer := Missing;
        ok := Rehash(op.count);
      } else {
        ok := true;
        answer := LookupOrRemove(op);
      }
    }

    /** The operations that keep the buckets and cannot fail. */
    method LookupOrRemove(op: Op<K, V>) returns (answer: Answer<V>)
      requires Valid() && (op.Lookup? || op.Remove? || op.RemoveAtIterator?)
      modifies this`index, this`nbElements, this`tryShrinkOnNextInsert, buckets
      ensures Valid() && buckets == old(buckets)
      ensures Contents() == Effect(old(Contents()), op) && answer == Reply(old(Contents()), op)
    {
      if op.Lookup? {
        answer := Get(op.key);
      } else {
        var n;
        if op.Remove? {
          n := Erase(op.key);
        } else {
          n := EraseFound(op.key);
        }
        answer := Changed(n);
      }
    }

    /** Any run of operations answers as the plain map does and leaves the plain map, up to the first one refused. */
    method Replay(ops: seq<Op<K, V>>) returns (answers: seq<Answer<V>>, ok: bool)
      requires Valid()
      modifies this, buckets
      ensures Valid() && (buckets == old(buckets) || fresh(buckets))
      ensures ok ==> answers == Replies(old(Contents()), ops) && Contents() == Effects(old(Contents()), ops)
      ensures !ok ==> |answers| < |ops| && answers == Replies(old(Contents()), ops[..|answers|])
      ensures !ok ==> Contents() == Effects(old(Contents()), ops[..|answers|]) && Refuses(ops[|answers|])
    {
      answers, ok := [], true;
      ghost var start := Contents();
      var i := 0;
      while i < |ops|
        invariant 0 <= i <= |ops| && ok && Valid() && (buckets == old(buckets) || fresh(buckets))
        invariant answers == Replies(start, ops[..i]) && Contents() == Effects(start, ops[..i])
      {
        var answer;
        answer, ok := Perform(ops[i]);
        if !ok { return; }
        OneMore(start, ops, i);
        answers := answers + [answer];
        i := i + 1;
      }
      assert ops[..i] == ops;
    }
  }

  /** The operations of a run. */
  datatype Op<K, V> = Put(key: K, value: V) | Lookup(key: K) | Remove(key: K) | RemoveAtIterator(key: K) | Resize(count: nat)

  /** Their answers: a value, or how many entries were added or removed. */
  datatype Answer<V> = Found(value: V) | Missing | Changed(n: nat)

  // The same run on a plain map.

  function Look<K, V>(m: map<K, V>, key: K): Answer<V> {
    if key in m then Found(m[key]) else Missing
  }

  function Effect<K, V>(m: map<K, V>, op: Op<K, V>): map<K, V> {
    match op
    case Put(key, value) => if key in m then m else m[key := value]
    case Remove(key) => m - {key}
    case RemoveAtIterator(key) => m - {key}
    case _ => m
  }

  function Reply<K, V>(m: map<K, V>, op: Op<K, V>): Answer<V> {
    match op
    case Put(key, _) => Changed(if key in m then 0 else 1)
    case Lookup(key) => Look(m, key)
    case Remove(key) => Changed(if key in m then 1 else 0)
    case RemoveAtIterator(key) => Changed(if key in m then 1 else 0)
    case Resize(_) => Missing
  }

  function Effects<K, V>(m: map<K, V>, ops: seq<Op<K, V>>): map<K, V> {
    if ops == [] then m else Effect(Effects(m, ops[..|ops| - 1]), ops[|ops| - 1])
  }

  function Replies<K, V>(m: map<K, V>, ops: seq<Op<K, V>>): (answers: seq<Answer<V>>)
    ensures |answers| == |ops|
  {
    if ops == [] then []
    else Replies(m, ops[..|ops| - 1]) + [Reply(Effects(m, ops[..|ops| - 1]), ops[|ops| - 1])]
  }

  lemma OneMore<K, V>(m: map<K, V>, ops: seq<Op<K, V>>, i: nat)
    requires i < |ops|
    ensures Effects(m, ops[..i + 1]) == Effect(Effects(m, ops[..i]), ops[i])
    ensures Replies(m, ops[..i + 1]) == Replies(m, ops[..i]) + [Reply(Effects(m, ops[..i]), ops[i])]
  {
    assert ops[..i + 1][..i] == ops[..i];
  }

  /** A bucket reached on the way to a key without matching it is not the key's bucket. */
  lemma NotHere<K, V>(hash: K -> nat, s: seq<Bucket<K, V>>, x: Index<K, V>, key: K, i: nat, compareStored: bool)
    requires RobinBuckets.Table(hash, s, x) && i < |s| && s[i].Full?
    requires !((!compareStored || s[i].thash == Truncate(hash(key))) && s[i].key == key)
    ensures key in x.pos ==> x.pos[key] != i
  {
    assert InPlace(hash, s, i);
  }

  /** A probe that has not met the key at its own distance goes on towards it. */
  lemma PassedBy<K, V>(hash: K -> nat, s: seq<Bucket<K, V>>, x: Index<K, V>, key: K, i: nat, dist: nat)
    requires RobinBuckets.Table(hash, s, x) && i == Probe(Home(hash, key, |s|), dist, |s|)
    requires key in x.pos ==> x.pos[key] != i && dist <= s[x.pos[key]].dist
    ensures key in x.pos ==> dist + 1 <= s[x.pos[key]].dist
  {
    if key in x.pos { assert InPlace(hash, s, x.pos[key]); }
  }

  lemma EmptyTable<K, V>(hash: K -> nat, s: seq<Bucket<K, V>>)
    requires |s| > 0 && forall i :: 0 <= i < |s| ==> s[i] == Empty
    ensures RobinBuckets.Table(hash, s, Index(map[], map[]))
  {
    forall i | 0 <= i < |s| ensures InOrder(s, i) {
    }
  }

  /** The part of the map stored below bucket i. */
  ghost function Below<K, V>(x: Index<K, V>, i: nat): map<K, V> {
    map k | k in x.contents && k in x.pos && x.pos[k] < i :: x.contents[k]
  }

  lemma BelowNone<K, V>(x: Index<K, V>)
    ensures Below(x, 0) == map[]
  {
  }

  lemma BelowStep<K, V>(s: seq<Bucket<K, V>>, x: Index<K, V>, i: nat)
    requires Indexed(s, x) && i < |s|
    ensures s[i].Empty? ==> Below(x, i + 1) == Below(x, i)
    ensures s[i].Full? ==> s[i].key !in Below(x, i) && Below(x, i + 1) == Below(x, i)[s[i].key := s[i].value]
  {
  }

  lemma BelowSize<K, V>(x: Index<K, V>, i: nat)
    ensures |Below(x, i)| <= |x.contents|
  {
    SubsetSize(Below(x, i).Keys, x.contents.Keys);
  }

  lemma BelowAll<K, V>(s: seq<Bucket<K, V>>, x: Index<K, V>)
    requires Indexed(s, x)
    ensures Below(x, |s|) == x.contents
  {
  }
}
