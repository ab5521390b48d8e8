/**
 * A separate-chaining hash map: a bucket array of singly linked chains, a bucket count
 * that starts at 1000 and doubles on growth, and a use counter that operator[] and
 * insert bump before they know whether they add anything.
 *
 * The hasher is the parameter `hash`, key equality is `==`, and the value that
 * operator[] stores for a new key (hash_table.h writes the literal 0) is the parameter `zero`.
 */
module HashTable {
  import opened Outcomes
  import opened Chains
  import opened Buckets

  /** Bucket count of a fresh or cleared table. */
  const InitialBucketCount: nat := 1000

  /** The table's state: the bucket array, its length, and the counter reported by size(). */
  datatype Table<K, V> = Table(buckets: seq<Chain<K, V>>, bucketCount: nat, size: nat)

  /** Where an entry lives: a bucket index and a position in that bucket's chain. */
  datatype Pos = Pos(bucket: nat, index: nat)

  /** The result of find: an entry's position, or the past-the-end cursor. */
  datatype Cursor = AtPos(pos: Pos) | End

  /** operator[]'s reference to a value slot, together with the table it lives in. */
  datatype Slot<K, V> = Slot(table: Table<K, V>, pos: Pos)

  /** insert's (iterator, inserted) pair, together with the updated table. */
  datatype Inserted<K, V> = Inserted(table: Table<K, V>, pos: Pos, inserted: bool)

  /** at's failure: the key has no entry in its bucket. */
  datatype LookupError = OutOfRange

  /** The bucket vector has as many chains as the bucket count says, and at least one. */
  predicate WellFormed<K, V>(t: Table<K, V>) {
    t.bucketCount >= 1 && |t.buckets| == t.bucketCount
  }

  /** A bucket count the table can reach: 1000, doubled any number of times. */
  predicate Grown(n: nat)
    decreases n
  {
    n == InitialBucketCount || (n > InitialBucketCount && n % 2 == 0 && Grown(n / 2))
  }

  /** The multiset of stored entries. */
  ghost function Contents<K, V>(t: Table<K, V>): multiset<Entry<K, V>> {
    multiset(Flatten(t.buckets))
  }

  /**
   * The table invariant: placement, stored entries <= counter <= bucket count,
   * a reachable bucket count, and a non-zero counter only once something is stored.
   */
  ghost predicate Valid<K, V>(t: Table<K, V>, hash: K -> nat) {
    && WellFormed(t)
    && Grown(t.bucketCount)
    && Placed(t.buckets, hash)
    && |Flatten(t.buckets)| <= t.size <= t.bucketCount
    && (t.size > 0 ==> |Flatten(t.buckets)| > 0)
  }

  /** The bucket a key hashes to. */
  function BucketOf<K, V>(t: Table<K, V>, k: K, hash: K -> nat): (b: nat)
    requires WellFormed(t)
    ensures b < |t.buckets|
  {
    hash(k) % t.bucketCount
  }

  /** A fresh table: 1000 empty buckets and a zero counter. */
  function Empty<K, V>(): (t: Table<K, V>)
    ensures WellFormed(t)
    ensures t.bucketCount == InitialBucketCount && t.size == 0
    ensures forall i :: 0 <= i < |t.buckets| ==> t.buckets[i] == []
  {
    Table(EmptyBuckets(InitialBucketCount), InitialBucketCount, 0)
  }

  /** clear(): back to the state of a fresh table. */
  function Clear<K, V>(t: Table<K, V>): (r: Table<K, V>)
    ensures WellFormed(r)
    ensures r.bucketCount == InitialBucketCount && r.size == 0
    ensures forall i :: 0 <= i < |r.buckets| ==> r.buckets[i] == []
  {
    Empty()
  }

  /** size(): the element counter; how it relates to the stored entries is SizeBounds. */
  function Size<K, V>(t: Table<K, V>): (n: nat)
    ensures n == 0 <==> IsEmpty(t)
  {
    t.size
  }

  /** empty(): whether the element counter is zero. */
  predicate IsEmpty<K, V>(t: Table<K, V>): (b: bool) {
    t.size == 0
  }

  /**
   * Rehash(): double the bucket count, then walk the old buckets in order and each chain
   * head to tail, prepending every entry to the new bucket its key hashes to.
   */
  function Rehash<K, V>(t: Table<K, V>, hash: K -> nat): (r: Table<K, V>)
    requires WellFormed(t)
    ensures WellFormed(r)
    ensures r.bucketCount == 2 * t.bucketCount && r.size == t.size
    ensures Placed(r.buckets, hash)
    ensures Contents(r) == Contents(t)
  {
    var n := 2 * t.bucketCount;
    FlattenAllEmpty(EmptyBuckets<K, V>(n));
    RedistributeContents(Flatten(t.buckets), EmptyBuckets(n), hash);
    Table(Redistribute(Flatten(t.buckets), EmptyBuckets(n), hash), n, t.size)
  }

  /**
   * The prologue operator[] and insert share: bump the counter, and rehash when the
   * counter now exceeds the bucket count.
   */
  function Reserve<K, V>(t: Table<K, V>, hash: K -> nat): (r: Table<K, V>)
    requires WellFormed(t)
    ensures WellFormed(r) && r.size == t.size + 1
    ensures r.bucketCount == if t.size + 1 > t.bucketCount then 2 * t.bucketCount else t.bucketCount
    ensures t.size + 1 <= t.bucketCount ==> r.buckets == t.buckets
    ensures Contents(r) == Contents(t)
    ensures t.size + 1 > t.bucketCount || Placed(t.buckets, hash) ==> Placed(r.buckets, hash)
  {
    var bumped := t.(size := t.size + 1);
    if bumped.size > bumped.bucketCount then Rehash(bumped, hash) else bumped
  }

  /**
   * operator[] (get-or-insert-default): after the prologue, find the first entry with key
   * `k` in its bucket, or else prepend `(k, zero)` there; return that entry's position.
   */
  function Index<K(==), V>(t: Table<K, V>, k: K, hash: K -> nat, zero: V): (r: Slot<K, V>)
    requires WellFormed(t)
    ensures WellFormed(r.table) && r.table.size == t.size + 1
    ensures var u := Reserve(t, hash);
      && r.table.bucketCount == u.bucketCount
      && r.pos.bucket == BucketOf(u, k, hash)
      && FirstKey(r.table.buckets[r.pos.bucket], k) == Some(r.pos.index)
    ensures var u := Reserve(t, hash); var b := BucketOf(u, k, hash);
      HasKey(u.buckets[b], k) ==> r.table.buckets == u.buckets && Contents(r.table) == Contents(t)
    ensures var u := Reserve(t, hash); var b := BucketOf(u, k, hash);
      !HasKey(u.buckets[b], k) ==>
        && r.pos.index == 0
        && r.table.buckets == u.buckets[b := [(k, zero)] + u.buckets[b]]
        && Contents(r.table) == Contents(t) + multiset{(k, zero)}
  {
    var u := Reserve(t, hash);
    var b := BucketOf(u, k, hash);
    match FirstKey(u.buckets[b], k) {
      case Some(j) => Slot(u, Pos(b, j))
      case None =>
        PrependEntryContents(u.buckets, hash, (k, zero));
        Slot(u.(buckets := PrependEntry(u.buckets, hash, (k, zero))), Pos(b, 0))
    }
  }

  /** Writing through operator[]'s reference: replace the value at `p`, keep its key. */
  function SetValue<K, V>(t: Table<K, V>, p: Pos, v: V): (r: Table<K, V>)
    requires WellFormed(t) && p.bucket < |t.buckets| && p.index < |t.buckets[p.bucket]|
    ensures WellFormed(r) && r.bucketCount == t.bucketCount && r.size == t.size
    ensures |r.buckets[p.bucket]| == |t.buckets[p.bucket]|
    ensures r.buckets[p.bucket][p.index] == (t.buckets[p.bucket][p.index].0, v)
    ensures forall j :: 0 <= j < |t.buckets[p.bucket]| && j != p.index ==>
      r.buckets[p.bucket][j] == t.buckets[p.bucket][j]
    ensures forall i :: 0 <= i < |t.buckets| && i != p.bucket ==> r.buckets[i] == t.buckets[i]
    ensures Contents(r) + multiset{t.buckets[p.bucket][p.index]}
         == Contents(t) + multiset{(t.buckets[p.bucket][p.index].0, v)}
  {
    var c := t.buckets[p.bucket];
    var c' := c[p.index := (c[p.index].0, v)];
    FlattenUpdateEntry(t.buckets, p.bucket, p.index, (c[p.index].0, v));
    t.(buckets := t.buckets[p.bucket := c'])
  }

  /** `t[k] = v`: operator[] followed by an assignment through the returned reference. */
  function Assign<K(==), V>(t: Table<K, V>, k: K, v: V, hash: K -> nat, zero: V): (r: Table<K, V>)
    requires WellFormed(t)
    ensures WellFormed(r) && r.size == t.size + 1
    ensures r.bucketCount == Reserve(t, hash).bucketCount
  {
    var s := Index(t, k, hash, zero);
    SetValue(s.table, s.pos, v)
  }

  /** at(k): the value of the first entry with key `k` in its bucket; fails when there is none. */
  function At<K(==), V>(t: Table<K, V>, k: K, hash: K -> nat): (r: Result<V, LookupError>)
    requires WellFormed(t)
    ensures var c := t.buckets[BucketOf(t, k, hash)];
      && (r.Failure? <==> !HasKey(c, k))
      && (r.Success? ==> exists j :: 0 <= j < |c| && c[j].0 == k && c[j].1 == r.value
                                   && forall i :: 0 <= i < j ==> c[i].0 != k)
  {
    var c := t.buckets[BucketOf(t, k, hash)];
    match FirstKey(c, k) {
      case Some(j) => Success(c[j].1)
      case None => Failure(OutOfRange)
    }
  }

  /** find(k): the position of the first entry with key `k` in its bucket, or `End`. */
  function Find<K(==), V>(t: Table<K, V>, k: K, hash: K -> nat): (r: Cursor)
    requires WellFormed(t)
    ensures var b := BucketOf(t, k, hash); var c := t.buckets[b];
      && (r.End? <==> !HasKey(c, k))
      && (r.AtPos? ==> && r.pos.bucket == b && r.pos.index < |c| && c[r.pos.index].0 == k
                       && forall i :: 0 <= i < r.pos.index ==> c[i].0 != k)
  {
    var b := BucketOf(t, k, hash);
    match FirstKey(t.buckets[b], k) {
      case Some(j) => AtPos(Pos(b, j))
      case None => End
    }
  }

  /**
   * insert((k, v)): after the prologue, an entry equal in key AND value to `e` is reported
   * as not inserted; otherwise `e` is prepended to its bucket, even when its key is present.
   */
  function Insert<K(==), V(==)>(t: Table<K, V>, e: Entry<K, V>, hash: K -> nat): (r: Inserted<K, V>)
    requires WellFormed(t)
    ensures WellFormed(r.table) && r.table.size == t.size + 1
    ensures var u := Reserve(t, hash); var b := BucketOf(u, e.0, hash);
      && r.table.bucketCount == u.bucketCount
      && r.pos.bucket == b
      && r.pos.index < |r.table.buckets[b]|
      && r.table.buckets[b][r.pos.index] == e
      && (r.inserted <==> e !in u.buckets[b])
    ensures var u := Reserve(t, hash); var b := BucketOf(u, e.0, hash);
      !r.inserted ==>
        && r.table.buckets == u.buckets
        && FirstEntry(u.buckets[b], e) == Some(r.pos.index)
        && Contents(r.table) == Contents(t)
    ensures var u := Reserve(t, hash); var b := BucketOf(u, e.0, hash);
      r.inserted ==>
        && r.pos.index == 0
        && r.table.buckets == u.buckets[b := [e] + u.buckets[b]]
        && Contents(r.table) == Contents(t) + multiset{e}
  {
    var u := Reserve(t, hash);
    var b := BucketOf(u, e.0, hash);
    match FirstEntry(u.buckets[b], e) {
      case Some(j) => Inserted(u, Pos(b, j), false)
      case None =>
        PrependEntryContents(u.buckets, hash, e);
        Inserted(u.(buckets := PrependEntry(u.buckets, hash, e)), Pos(b, 0), true)
    }
  }

  /** emplace(k, v): builds the pair and inserts it. */
  function Emplace<K(==), V(==)>(t: Table<K, V>, k: K, v: V, hash: K -> nat): (r: Inserted<K, V>)
    requires WellFormed(t)
    ensures r == Insert(t, (k, v), hash)
    ensures r.table.size == t.size + 1
    ensures r.table.buckets[r.pos.bucket][r.pos.index] == (k, v)
  {
    Insert(t, (k, v), hash)
  }
}
