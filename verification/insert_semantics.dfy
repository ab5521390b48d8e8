/**
 * insert's uniqueness test compares key AND value, so one key can be stored with several
 * values; which of them at(k) returns then depends on chain order, and a rehash reverses
 * the order of entries that land in the same new bucket.
 */
module InsertSemantics {
  import opened Outcomes
  import opened Chains
  import opened Buckets
  import opened HashTable
  import opened TableInvariants

  /** An entry not among the stored ones is in no bucket. */
  lemma NotStoredNotInBucket<K, V>(t: Table<K, V>, e: Entry<K, V>, b: nat)
    requires b < |t.buckets| && e !in Contents(t)
    ensures e !in t.buckets[b]
  {
    ChainInFlatten(t.buckets, b);
  }

  /** Under placement, a stored entry is in the bucket its key hashes to. */
  lemma StoredInItsBucket<K, V>(t: Table<K, V>, e: Entry<K, V>, hash: K -> nat)
    requires WellFormed(t) && Placed(t.buckets, hash) && e in Contents(t)
    ensures e in t.buckets[BucketOf(t, e.0, hash)]
  {
    var i, j := LocateEntry(t.buckets, e);
  }

  /** Inserting an entry that is not stored adds it and keeps the invariant. */
  lemma InsertNewEntry<K, V>(t: Table<K, V>, e: Entry<K, V>, hash: K -> nat)
    requires Valid(t, hash) && e !in Contents(t)
    ensures var r := Insert(t, e, hash);
      r.inserted && Valid(r.table, hash) && Contents(r.table) == Contents(t) + multiset{e}
  {
    var u := Reserve(t, hash);
    NotStoredNotInBucket(u, e, BucketOf(u, e.0, hash));
    InsertKeepsValid(t, e, hash);
  }

  /** Inserting an entry that is already stored adds nothing. */
  lemma InsertStoredEntry<K, V>(t: Table<K, V>, e: Entry<K, V>, hash: K -> nat)
    requires Valid(t, hash) && e in Contents(t)
    ensures !Insert(t, e, hash).inserted
  {
    var u := Reserve(t, hash);
    ReserveKeepsRoom(t, hash);
    StoredInItsBucket(u, e, hash);
  }

  /** A freshly inserted entry heads its chain, so at and find see it. */
  lemma InsertedIsFound<K, V>(t: Table<K, V>, e: Entry<K, V>, hash: K -> nat)
    requires WellFormed(t) && Insert(t, e, hash).inserted
    ensures var r := Insert(t, e, hash);
      At(r.table, e.0, hash) == Success(e.1) && Find(r.table, e.0, hash) == AtPos(r.pos)
  {
    var r := Insert(t, e, hash);
    assert FirstKey(r.table.buckets[r.pos.bucket], e.0) == Some(0);
  }

  /**
   * Inserting `(k, v1)` and then `(k, v2)` for a key the table does not hold stores both
   * entries; at and find then see the later one; inserting `(k, v2)` again adds nothing.
   */
  lemma InsertSameKeyTwice<K, V>(t: Table<K, V>, k: K, v1: V, v2: V, hash: K -> nat)
    requires Valid(t, hash) && At(t, k, hash).Failure? && v1 != v2
    ensures var r1 := Insert(t, (k, v1), hash);
      var r2 := Insert(r1.table, (k, v2), hash);
      && r1.inserted && r2.inserted
      && Contents(r2.table) == Contents(t) + multiset{(k, v1), (k, v2)}
      && At(r2.table, k, hash) == Success(v2)
      && Find(r2.table, k, hash) == AtPos(r2.pos)
      && !Insert(r2.table, (k, v2), hash).inserted
  {
    AtFailsOnlyWhenKeyAbsent(t, k, hash);
    var c := Contents(t);
    var r1 := Insert(t, (k, v1), hash);
    InsertNewEntry(t, (k, v1), hash);
    OtherValueNotStored(c, k, v1, v2);
    var r2 := Insert(r1.table, (k, v2), hash);
    InsertNewEntry(r1.table, (k, v2), hash);
    InsertedIsFound(r1.table, (k, v2), hash);
    InsertStoredEntry(r2.table, (k, v2), hash);
  }

  /** With no entry for key `k`, adding `(k, v1)` and then `(k, v2)` adds two distinct fresh entries. */
  lemma OtherValueNotStored<K, V>(c: multiset<Entry<K, V>>, k: K, v1: V, v2: V)
    requires forall e :: e in c ==> e.0 != k
    requires v1 != v2
    ensures (k, v1) !in c
    ensures (k, v2) !in c + multiset{(k, v1)}
    ensures (k, v2) in c + multiset{(k, v1)} + multiset{(k, v2)}
    ensures c + multiset{(k, v1)} + multiset{(k, v2)} == c + multiset{(k, v1), (k, v2)}
  {
  }

  /** Inserting `(k, b)` and then `(k, a)` into a fresh table leaves one chain `[(k, a), (k, b)]`. */
  lemma TwoInsertsIntoFresh<K, V>(k: K, a: V, b: V, hash: K -> nat)
    requires a != b
    ensures var t := Insert(Insert(Empty<K, V>(), (k, b), hash).table, (k, a), hash).table;
      && WellFormed(t)
      && t.buckets == Empty<K, V>().buckets[BucketOf(t, k, hash) := [(k, a), (k, b)]]
  {
    var t0 := Empty<K, V>();
    var t1 := Insert(t0, (k, b), hash).table;
    var c := BucketOf(t0, k, hash);
    assert Reserve(t0, hash).buckets == t0.buckets;
    assert Reserve(t0, hash).bucketCount == t0.bucketCount;
    assert t0.buckets[c] == [];
    assert Insert(t0, (k, b), hash).inserted;
    assert [(k, b)] + t0.buckets[c] == [(k, b)];
    assert t1.buckets == t0.buckets[c := [(k, b)]];
    assert Reserve(t1, hash).buckets == t1.buckets;
    assert Reserve(t1, hash).bucketCount == t1.bucketCount;
    assert (k, a) !in t1.buckets[c];
    assert [(k, a)] + t1.buckets[c] == [(k, a), (k, b)];
  }

  /** Rehashing a table whose traversal is `[(k, a), (k, b)]` leaves the chain `[(k, b), (k, a)]`. */
  lemma RehashTwoEntries<K, V>(t: Table<K, V>, k: K, a: V, b: V, hash: K -> nat)
    requires WellFormed(t) && Flatten(t.buckets) == [(k, a), (k, b)]
    ensures var r := Rehash(t, hash); r.buckets[BucketOf(r, k, hash)] == [(k, b), (k, a)]
  {
    var n := 2 * t.bucketCount;
    var e2 := EmptyBuckets<K, V>(n);
    var acc1 := PrependEntry(e2, hash, (k, a));
    var acc2 := PrependEntry(acc1, hash, (k, b));
    assert Redistribute([(k, b)], acc1, hash) == acc2;
    assert [(k, a), (k, b)][1..] == [(k, b)];
    assert Redistribute([(k, a), (k, b)], e2, hash) == acc2;
  }

  /**
   * A rehash can change what at(k) returns: after inserting `(k, b)` and then `(k, a)` into a
   * fresh table, at(k) gives `a`; after a rehash, it gives `b`.
   */
  lemma RehashReordersSameKeyEntries<K, V>(k: K, a: V, b: V, hash: K -> nat)
    requires a != b
    ensures var t := Insert(Insert(Empty<K, V>(), (k, b), hash).table, (k, a), hash).table;
      && At(t, k, hash) == Success(a)
      && At(Rehash(t, hash), k, hash) == Success(b)
  {
    var t := Insert(Insert(Empty<K, V>(), (k, b), hash).table, (k, a), hash).table;
    TwoInsertsIntoFresh(k, a, b, hash);
    var c := BucketOf(t, k, hash);
    HeadIsFound(t, k, hash);
    FlattenSingleBucket(t.buckets, c);
    RehashTwoEntries(t, k, a, b, hash);
    HeadIsFound(Rehash(t, hash), k, hash);
  }

  /**
   * With two values stored for `k2`, assigning an unrelated key `k` can change at(k2): when
   * the table is full, the prologue of operator[] rehashes and reverses `k2`'s chain. This is
   * why the map-view lemmas ask for every key to be stored once.
   */
  lemma AssignCanChangeOtherLookup<K, V>(k: K, k2: K, a: V, b: V, v: V, hash: K -> nat, zero: V)
    requires k != k2 && a != b
    ensures var t := Insert(Insert(Empty<K, V>(), (k2, b), hash).table, (k2, a), hash).table
                       .(size := InitialBucketCount);
      && Valid(t, hash)
      && At(t, k2, hash) == Success(a)
      && At(Assign(t, k, v, hash, zero), k2, hash) == Success(b)
  {
    var t := Insert(Insert(Empty<K, V>(), (k2, b), hash).table, (k2, a), hash).table
               .(size := InitialBucketCount);
    FullTableOfTwo(k2, a, b, hash);
    AssignIntoFullTableOfTwo(t, k, k2, a, b, v, hash, zero);
  }

  /** `t[k] = v` on a full table holding `(k2, a)` then `(k2, b)` leaves at(k2) reading `b`. */
  lemma AssignIntoFullTableOfTwo<K, V>(t: Table<K, V>, k: K, k2: K, a: V, b: V, v: V, hash: K -> nat, zero: V)
    requires WellFormed(t) && t.size == t.bucketCount && k != k2
    requires Flatten(t.buckets) == [(k2, a), (k2, b)]
    ensures At(Assign(t, k, v, hash, zero), k2, hash) == Success(b)
  {
    ReserveReverses(t, k2, a, b, hash);
    var u := Reserve(t, hash);
    var c := u.buckets[BucketOf(u, k2, hash)];
    assert c == [(k2, b), (k2, a)];
    assert !HasKey(c, k);
    AssignKeepsOtherHead(t, k, k2, b, v, hash, zero);
  }

  /** The two same-key entries inserted into a fresh table, with the counter at the bucket count. */
  lemma FullTableOfTwo<K, V>(k2: K, a: V, b: V, hash: K -> nat)
    requires a != b
    ensures var t := Insert(Insert(Empty<K, V>(), (k2, b), hash).table, (k2, a), hash).table
                       .(size := InitialBucketCount);
      && Valid(t, hash)
      && t.size == t.bucketCount
      && Flatten(t.buckets) == [(k2, a), (k2, b)]
      && At(t, k2, hash) == Success(a)
  {
    var t2 := Insert(Insert(Empty<K, V>(), (k2, b), hash).table, (k2, a), hash).table;
    TwoInsertsIntoFresh(k2, a, b, hash);
    LoneChainTable(t2.(size := InitialBucketCount), k2, a, b, hash);
  }

  /** A table of 1000 buckets whose only non-empty chain is `[(k2, a), (k2, b)]` in `k2`'s bucket. */
  lemma LoneChainTable<K, V>(t: Table<K, V>, k2: K, a: V, b: V, hash: K -> nat)
    requires WellFormed(t) && t.bucketCount == InitialBucketCount && 2 <= t.size <= t.bucketCount
    requires t.buckets == Empty<K, V>().buckets[BucketOf(t, k2, hash) := [(k2, a), (k2, b)]]
    ensures Valid(t, hash) && Flatten(t.buckets) == [(k2, a), (k2, b)] && At(t, k2, hash) == Success(a)
  {
    var h := BucketOf(t, k2, hash);
    FlattenSingleBucket(t.buckets, h);
    forall i, j | 0 <= i < |t.buckets| && 0 <= j < |t.buckets[i]|
      ensures hash(t.buckets[i][j].0) % |t.buckets| == i
    {
      assert i == h;
    }
    assert Grown(t.bucketCount);
    HeadIsFound(t, k2, hash);
  }

  /** When the counter reaches the bucket count, the prologue reverses a two-entry chain. */
  lemma ReserveReverses<K, V>(t: Table<K, V>, k2: K, a: V, b: V, hash: K -> nat)
    requires WellFormed(t) && t.size == t.bucketCount
    requires Flatten(t.buckets) == [(k2, a), (k2, b)]
    ensures var u := Reserve(t, hash); u.buckets[BucketOf(u, k2, hash)] == [(k2, b), (k2, a)]
  {
    var bumped := t.(size := t.size + 1);
    assert Reserve(t, hash) == Rehash(bumped, hash);
    RehashTwoEntries(bumped, k2, a, b, hash);
  }

  /**
   * If the prologue leaves `(k2, b)` at the head of a chain holding only key `k2`, then
   * `t[k] = v` for another key leaves at(k2) reading `b`.
   */
  lemma AssignKeepsOtherHead<K, V>(t: Table<K, V>, k: K, k2: K, b: V, v: V, hash: K -> nat, zero: V)
    requires WellFormed(t) && k != k2
    requires var u := Reserve(t, hash); var c := u.buckets[BucketOf(u, k2, hash)];
      |c| > 0 && c[0] == (k2, b) && !HasKey(c, k)
    ensures At(Assign(t, k, v, hash, zero), k2, hash) == Success(b)
  {
    var u := Reserve(t, hash);
    var s := Index(t, k, hash, zero);
    assert Assign(t, k, v, hash, zero) == SetValue(s.table, s.pos, v);
    if s.pos.bucket == BucketOf(u, k2, hash) {
      SharedBucketAfterAssign(t, k, k2, b, v, hash, zero);
    } else {
      OtherBucketAfterAssign(t, k, k2, b, v, hash, zero);
    }
  }

  /** The case of AssignKeepsOtherHead where `k` and `k2` share a bucket: `(k, v)` goes in front. */
  lemma SharedBucketAfterAssign<K, V>(t: Table<K, V>, k: K, k2: K, b: V, v: V, hash: K -> nat, zero: V)
    requires WellFormed(t) && k != k2
    requires var u := Reserve(t, hash); var c := u.buckets[BucketOf(u, k2, hash)];
      |c| > 0 && c[0] == (k2, b) && !HasKey(c, k)
    requires Index(t, k, hash, zero).pos.bucket == BucketOf(Reserve(t, hash), k2, hash)
    ensures At(SetValue(Index(t, k, hash, zero).table, Index(t, k, hash, zero).pos, v), k2, hash) == Success(b)
  {
    var u := Reserve(t, hash);
    var h2 := BucketOf(u, k2, hash);
    var s := Index(t, k, hash, zero);
    var r := SetValue(s.table, s.pos, v);
    assert BucketOf(r, k2, hash) == h2;
    assert s.pos.index == 0;
    assert s.table.buckets[h2] == [(k, zero)] + u.buckets[h2];
    assert r.buckets[h2][0].0 == k && r.buckets[h2][1] == (k2, b);
    SecondIsFound(r, k2, hash);
  }

  /** The case of AssignKeepsOtherHead where `k` lands elsewhere: `k2`'s bucket is untouched. */
  lemma OtherBucketAfterAssign<K, V>(t: Table<K, V>, k: K, k2: K, b: V, v: V, hash: K -> nat, zero: V)
    requires WellFormed(t)
    requires var u := Reserve(t, hash); var c := u.buckets[BucketOf(u, k2, hash)];
      |c| > 0 && c[0] == (k2, b)
    requires Index(t, k, hash, zero).pos.bucket != BucketOf(Reserve(t, hash), k2, hash)
    ensures At(SetValue(Index(t, k, hash, zero).table, Index(t, k, hash, zero).pos, v), k2, hash) == Success(b)
  {
    var u := Reserve(t, hash);
    var h2 := BucketOf(u, k2, hash);
    var s := Index(t, k, hash, zero);
    var r := SetValue(s.table, s.pos, v);
    assert BucketOf(r, k2, hash) == h2;
    assert r.buckets[h2] == s.table.buckets[h2] == u.buckets[h2];
    HeadIsFound(r, k2, hash);
  }

  /** When only the second entry of a key's bucket has that key, at returns its value. */
  lemma SecondIsFound<K, V>(t: Table<K, V>, k: K, hash: K -> nat)
    requires WellFormed(t)
    requires var c := t.buckets[BucketOf(t, k, hash)]; |c| > 1 && c[0].0 != k && c[1].0 == k
    ensures At(t, k, hash) == Success(t.buckets[BucketOf(t, k, hash)][1].1)
  {
    assert FirstKey(t.buckets[BucketOf(t, k, hash)], k) == Some(1);
  }

  /** When the head of a key's bucket has that key, at returns the head's value. */
  lemma HeadIsFound<K, V>(t: Table<K, V>, k: K, hash: K -> nat)
    requires WellFormed(t)
    requires |t.buckets[BucketOf(t, k, hash)]| > 0 && t.buckets[BucketOf(t, k, hash)][0].0 == k
    ensures At(t, k, hash) == Success(t.buckets[BucketOf(t, k, hash)][0].1)
  {
    assert FirstKey(t.buckets[BucketOf(t, k, hash)], k) == Some(0);
  }
}
