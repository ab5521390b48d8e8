/**
 * The table invariant and what every operation does to it: placement, the bound
 * stored entries <= size() <= bucket count, and a bucket count of 1000 doubled k times.
 */
module TableInvariants {
  import opened Outcomes
  import opened Chains
  import opened Buckets
  import opened HashTable

  /** Every reachable bucket count is at least the initial 1000. */
  lemma GrownAtLeastInitial(n: nat)
    requires Grown(n)
    ensures n >= InitialBucketCount
  {
  }

  /** Doubling a reachable bucket count gives a reachable bucket count. */
  lemma GrownDoubles(n: nat)
    requires Grown(n)
    ensures Grown(2 * n)
  {
    GrownAtLeastInitial(n);
    assert (2 * n) / 2 == n;
  }

  /** A table with a non-empty bucket stores at least one entry. */
  lemma NonEmptyBucket<K, V>(bs: seq<Chain<K, V>>, i: nat)
    requires i < |bs| && |bs[i]| > 0
    ensures |Flatten(bs)| > 0
  {
    ChainInFlatten(bs, i);
    assert bs[i][0] in multiset(bs[i]);
  }

  /** The prologue of operator[] and insert leaves room for exactly one more entry. */
  lemma ReserveKeepsRoom<K, V>(t: Table<K, V>, hash: K -> nat)
    requires Valid(t, hash)
    ensures var u := Reserve(t, hash);
      && WellFormed(u)
      && Grown(u.bucketCount)
      && Placed(u.buckets, hash)
      && |Flatten(u.buckets)| == |Flatten(t.buckets)|
      && |Flatten(u.buckets)| < u.size <= u.bucketCount
  {
    var u := Reserve(t, hash);
    assert |Contents(u)| == |Contents(t)|;
    if t.size + 1 > t.bucketCount {
      GrownDoubles(t.bucketCount);
    }
  }

  /** A fresh table satisfies the invariant, is empty, stores nothing, and finds no key. */
  lemma EmptyIsValid<K, V>(hash: K -> nat)
    ensures Valid(Empty<K, V>(), hash)
    ensures IsEmpty(Empty<K, V>()) && Size(Empty<K, V>()) == 0
    ensures Flatten(Empty<K, V>().buckets) == []
    ensures forall k :: At(Empty<K, V>(), k, hash) == Failure(OutOfRange)
    ensures forall k :: Find(Empty<K, V>(), k, hash) == End
  {
    FlattenAllEmpty(Empty<K, V>().buckets);
  }

  /** clear() puts any table back into the state of a fresh one. */
  lemma ClearResets<K, V>(t: Table<K, V>, hash: K -> nat)
    ensures Valid(Clear(t), hash)
    ensures IsEmpty(Clear(t)) && Size(Clear(t)) == 0
    ensures Clear(t).bucketCount == InitialBucketCount
    ensures Flatten(Clear(t).buckets) == []
    ensures forall k :: At(Clear(t), k, hash) == Failure(OutOfRange)
    ensures forall k :: Find(Clear(t), k, hash) == End
  {
    EmptyIsValid<K, V>(hash);
  }

  /** The invariant bounds the counter: stored entries <= size() <= bucket count, and 1000 <= bucket count. */
  lemma SizeBounds<K, V>(t: Table<K, V>, hash: K -> nat)
    requires Valid(t, hash)
    ensures |Flatten(t.buckets)| <= Size(t) <= t.bucketCount
    ensures t.bucketCount >= InitialBucketCount
    ensures IsEmpty(t) <==> Flatten(t.buckets) == []
  {
    GrownAtLeastInitial(t.bucketCount);
  }

  /** operator[] keeps the invariant. */
  lemma IndexKeepsValid<K, V>(t: Table<K, V>, k: K, hash: K -> nat, zero: V)
    requires Valid(t, hash)
    ensures Valid(Index(t, k, hash, zero).table, hash)
  {
    var u := Reserve(t, hash);
    ReserveKeepsRoom(t, hash);
    var r := Index(t, k, hash, zero).table;
    var b := BucketOf(u, k, hash);
    if HasKey(u.buckets[b], k) {
      NonEmptyBucket(u.buckets, b);
    } else {
      assert r.buckets == PrependEntry(u.buckets, hash, (k, zero));
      PrependEntryPlaced(u.buckets, hash, (k, zero));
      assert |Contents(r)| == |Contents(u)| + 1;
    }
  }

  /** Overwriting a value keeps every key where it was, so it keeps the invariant. */
  lemma SetValueKeepsValid<K, V>(t: Table<K, V>, p: Pos, v: V, hash: K -> nat)
    requires Valid(t, hash) && p.bucket < |t.buckets| && p.index < |t.buckets[p.bucket]|
    ensures Valid(SetValue(t, p, v), hash)
  {
    var r := SetValue(t, p, v);
    forall i, j | 0 <= i < |r.buckets| && 0 <= j < |r.buckets[i]|
      ensures hash(r.buckets[i][j].0) % |r.buckets| == i
    {
      assert r.buckets[i][j].0 == t.buckets[i][j].0;
    }
    var e := t.buckets[p.bucket][p.index];
    SameCardinality(Contents(r), Contents(t), e, (e.0, v));
  }

  /** Trading one element for another keeps a multiset's size. */
  lemma SameCardinality<T>(a: multiset<T>, b: multiset<T>, x: T, y: T)
    requires a + multiset{x} == b + multiset{y}
    ensures |a| == |b|
  {
    assert |a + multiset{x}| == |a| + 1;
    assert |b + multiset{y}| == |b| + 1;
  }

  /** `t[k] = v` keeps the invariant. */
  lemma AssignKeepsValid<K, V>(t: Table<K, V>, k: K, v: V, hash: K -> nat, zero: V)
    requires Valid(t, hash)
    ensures Valid(Assign(t, k, v, hash, zero), hash)
  {
    var s := Index(t, k, hash, zero);
    IndexKeepsValid(t, k, hash, zero);
    SetValueKeepsValid(s.table, s.pos, v, hash);
  }

  /** insert keeps the invariant. */
  lemma InsertKeepsValid<K, V>(t: Table<K, V>, e: Entry<K, V>, hash: K -> nat)
    requires Valid(t, hash)
    ensures Valid(Insert(t, e, hash).table, hash)
  {
    var u := Reserve(t, hash);
    ReserveKeepsRoom(t, hash);
    var r := Insert(t, e, hash);
    if r.inserted {
      assert r.table.buckets == PrependEntry(u.buckets, hash, e);
      PrependEntryPlaced(u.buckets, hash, e);
      assert |Contents(r.table)| == |Contents(u)| + 1;
    } else {
      NonEmptyBucket(u.buckets, r.pos.bucket);
    }
  }

  /** find and at agree: find is `End` exactly when at fails, and otherwise points at the value at returns. */
  lemma FindAtAgree<K, V>(t: Table<K, V>, k: K, hash: K -> nat)
    requires WellFormed(t)
    ensures Find(t, k, hash).End? <==> At(t, k, hash).Failure?
    ensures Find(t, k, hash).AtPos? ==>
      var p := Find(t, k, hash).pos;
      At(t, k, hash) == Success(t.buckets[p.bucket][p.index].1)
  {
  }

  /** Under placement, at fails exactly when no stored entry anywhere has key `k`. */
  /**
   * A rehash keeps every key findable, and finds no new key, even when a key is stored with
   * several values (which value at returns may change; see RehashReordersSameKeyEntries).
   */
  lemma RehashKeepsFindable<K, V>(t: Table<K, V>, k: K, hash: K -> nat)
    requires WellFormed(t) && Placed(t.buckets, hash)
    ensures Find(Rehash(t, hash), k, hash).End? <==> Find(t, k, hash).End?
    ensures At(Rehash(t, hash), k, hash).Failure? <==> At(t, k, hash).Failure?
  {
    var r := Rehash(t, hash);
    AtFailsOnlyWhenKeyAbsent(t, k, hash);
    AtFailsOnlyWhenKeyAbsent(r, k, hash);
    FindAtAgree(t, k, hash);
    FindAtAgree(r, k, hash);
  }

  lemma AtFailsOnlyWhenKeyAbsent<K, V>(t: Table<K, V>, k: K, hash: K -> nat)
    requires WellFormed(t) && Placed(t.buckets, hash)
    ensures At(t, k, hash).Failure? <==> forall e :: e in Contents(t) ==> e.0 != k
  {
    var b := BucketOf(t, k, hash);
    if At(t, k, hash).Failure? {
      forall e | e in Contents(t) ensures e.0 != k {
        var i, j := LocateEntry(t.buckets, e);
      }
    } else {
      var j :| 0 <= j < |t.buckets[b]| && t.buckets[b][j].0 == k;
      ChainInFlatten(t.buckets, b);
      assert t.buckets[b][j] in multiset(t.buckets[b]);
    }
  }

  /** Round trip: after `t[k] = v`, at(k) returns `v` and find(k) is not `End`. */
  lemma AssignThenAt<K, V>(t: Table<K, V>, k: K, v: V, hash: K -> nat, zero: V)
    requires WellFormed(t)
    ensures At(Assign(t, k, v, hash, zero), k, hash) == Success(v)
    ensures Find(Assign(t, k, v, hash, zero), k, hash).AtPos?
  {
    var s := Index(t, k, hash, zero);
    var r := Assign(t, k, v, hash, zero);
    var p := s.pos;
    FirstKeyIgnoresValues(s.table.buckets[p.bucket], r.buckets[p.bucket], k);
  }

  /** operator[] on a key the table does not hold stores and refers to the default value. */
  lemma IndexAbsentGivesDefault<K, V>(t: Table<K, V>, k: K, hash: K -> nat, zero: V)
    requires WellFormed(t) && Placed(t.buckets, hash)
    requires At(t, k, hash).Failure?
    ensures var s := Index(t, k, hash, zero);
      && s.table.buckets[s.pos.bucket][s.pos.index] == (k, zero)
      && At(s.table, k, hash) == Success(zero)
      && Contents(s.table) == Contents(t) + multiset{(k, zero)}
  {
    var u := Reserve(t, hash);
    var b := BucketOf(u, k, hash);
    AtFailsOnlyWhenKeyAbsent(t, k, hash);
    ChainInFlatten(u.buckets, b);
    forall j | 0 <= j < |u.buckets[b]| ensures u.buckets[b][j].0 != k {
      assert u.buckets[b][j] in multiset(u.buckets[b]);
    }
  }
}
