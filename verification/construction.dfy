/**
 * Building a table from a vector of pairs: `t[k] = v` for each pair in order, so a later
 * pair overwrites an earlier one with the same key.
 */
module Construction {
  import opened Outcomes
  import opened Chains
  import opened HashTable
  import opened TableInvariants
  import opened MapView

  /**
   * The state in which the vector constructor of `HashTable` (hash_table.h:181-185) starts its loop: the members hold
   * their default initialisers (bucket count 1000, counter 0) but the bucket vector is
   * never resized, so it has no buckets at all.
   */
  function VectorCtorStart<K, V>(): (t: Table<K, V>)
    ensures t.bucketCount == InitialBucketCount && t.size == 0 && |t.buckets| == 0
  {
    Table([], InitialBucketCount, 0)
  }

  /**
   * The constructor's first operator[] does not rehash (the counter becomes 1, not above
   * 1000) and then indexes bucket `hash(k) % 1000` of an empty vector: outside its bounds.
   */
  lemma VectorCtorIndexesEmptyVector<K, V>(k: K, hash: K -> nat)
    ensures var t := VectorCtorStart<K, V>();
      && !WellFormed(t)
      && t.size + 1 <= t.bucketCount
      && hash(k) % t.bucketCount >= |t.buckets|
  {
  }

  /** The value the last pair with key `k` carries, if any pair has key `k`. */
  function LastAssigned<K(==), V>(ps: seq<Entry<K, V>>, k: K): Option<V>
    decreases |ps|
  {
    if |ps| == 0 then None
    else if ps[|ps| - 1].0 == k then Some(ps[|ps| - 1].1)
    else LastAssigned(ps[..|ps| - 1], k)
  }

  /** The vector constructor as intended: start from a fresh table and assign each pair in order. */
  function FromPairs<K(==), V>(ps: seq<Entry<K, V>>, hash: K -> nat, zero: V): (t: Table<K, V>)
    ensures WellFormed(t)
    ensures t.size == |ps|
    decreases |ps|
  {
    if |ps| == 0 then Empty()
    else
      var p := ps[|ps| - 1];
      Assign(FromPairs(ps[..|ps| - 1], hash, zero), p.0, p.1, hash, zero)
  }

  /** A table built from pairs satisfies the invariant and stores each key once. */
  lemma {:induction false} FromPairsValid<K, V>(ps: seq<Entry<K, V>>, hash: K -> nat, zero: V)
    ensures Valid(FromPairs(ps, hash, zero), hash)
    ensures UniqueKeys(Contents(FromPairs(ps, hash, zero)))
    decreases |ps|
  {
    if |ps| == 0 {
      EmptyIsValid<K, V>(hash);
    } else {
      var q := ps[..|ps| - 1];
      var p := ps[|ps| - 1];
      FromPairsValid(q, hash, zero);
      AssignKeepsValid(FromPairs(q, hash, zero), p.0, p.1, hash, zero);
      AssignContents(FromPairs(q, hash, zero), p.0, p.1, hash, zero);
    }
  }

  /** at(k) on a table built from pairs returns the value of the last pair with key `k`, and fails when there is none. */
  lemma {:induction false} FromPairsLookup<K, V>(ps: seq<Entry<K, V>>, k: K, hash: K -> nat, zero: V)
    ensures At(FromPairs(ps, hash, zero), k, hash) ==
      match LastAssigned(ps, k)
      case Some(v) => Success(v)
      case None => Failure(OutOfRange)
    decreases |ps|
  {
    if |ps| == 0 {
      EmptyIsValid<K, V>(hash);
    } else {
      var q := ps[..|ps| - 1];
      var p := ps[|ps| - 1];
      if p.0 == k {
        AssignThenAt(FromPairs(q, hash, zero), k, p.1, hash, zero);
      } else {
        FromPairsValid(q, hash, zero);
        AssignOtherKey(FromPairs(q, hash, zero), p.0, k, p.1, hash, zero);
        FromPairsLookup(q, k, hash, zero);
      }
    }
  }
}
