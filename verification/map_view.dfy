/**
 * The map reading of the table. While every key is stored at most once, operator[]
 * and assignment through it behave like a finite map: at(k) returns the one value stored
 * with `k`, an assignment changes only the assigned key, and a rehash changes no lookup.
 * insert is not part of this reading: it can store one key with several values, and then
 * a rehash can change which of them at(k) returns.
 */
module MapView {
  import opened Outcomes
  import opened Chains
  import opened Buckets
  import opened HashTable
  import opened TableInvariants

  /** Each entry is stored at most once, and no two stored entries share a key. */
  ghost predicate UniqueKeys<K, V>(ms: multiset<Entry<K, V>>) {
    && (forall e :: e in ms ==> ms[e] == 1)
    && (forall a, b :: a in ms && b in ms && a.0 == b.0 ==> a == b)
  }

  /** With unique keys, at(k) returns `v` exactly when `(k, v)` is stored. */
  lemma AtMatchesContents<K, V>(t: Table<K, V>, k: K, hash: K -> nat)
    requires WellFormed(t) && Placed(t.buckets, hash) && UniqueKeys(Contents(t))
    ensures At(t, k, hash).Success? ==> (k, At(t, k, hash).value) in Contents(t)
    ensures forall v :: (k, v) in Contents(t) ==> At(t, k, hash) == Success(v)
  {
    var b := BucketOf(t, k, hash);
    ChainInFlatten(t.buckets, b);
    AtFailsOnlyWhenKeyAbsent(t, k, hash);
    if At(t, k, hash).Success? {
      var j :| 0 <= j < |t.buckets[b]| && t.buckets[b][j].0 == k && t.buckets[b][j].1 == At(t, k, hash).value;
      assert t.buckets[b][j] in multiset(t.buckets[b]);
    }
  }

  /** Two placed tables with unique keys that store the same values for `k` look `k` up alike. */
  lemma SameEntriesSameLookup<K, V>(t1: Table<K, V>, t2: Table<K, V>, k: K, hash: K -> nat)
    requires WellFormed(t1) && Placed(t1.buckets, hash) && UniqueKeys(Contents(t1))
    requires WellFormed(t2) && Placed(t2.buckets, hash) && UniqueKeys(Contents(t2))
    requires forall w :: (k, w) in Contents(t1) <==> (k, w) in Contents(t2)
    ensures At(t1, k, hash) == At(t2, k, hash)
  {
    AtMatchesContents(t1, k, hash);
    AtMatchesContents(t2, k, hash);
    AtFailsOnlyWhenKeyAbsent(t1, k, hash);
    AtFailsOnlyWhenKeyAbsent(t2, k, hash);
    if At(t1, k, hash).Success? {
      assert (k, At(t1, k, hash).value) in Contents(t2);
    }
  }

  /** A rehash changes no lookup while keys are unique. */
  lemma RehashKeepsLookups<K, V>(t: Table<K, V>, k: K, hash: K -> nat)
    requires WellFormed(t) && Placed(t.buckets, hash) && UniqueKeys(Contents(t))
    ensures At(Rehash(t, hash), k, hash) == At(t, k, hash)
  {
    SameEntriesSameLookup(Rehash(t, hash), t, k, hash);
  }

  /** Adding an entry whose key is not stored keeps keys unique. */
  lemma AddFreshKey<K, V>(c: multiset<Entry<K, V>>, e: Entry<K, V>)
    requires UniqueKeys(c)
    requires forall d :: d in c ==> d.0 != e.0
    ensures UniqueKeys(c + multiset{e})
  {
    assert e !in c;
  }

  /**
   * The multiset step behind an assignment: `c2` is `cs` with `prev` traded for `(k, v)`,
   * where `cs` is either `c` holding `prev`, or `c` without key `k` plus `prev`.
   */
  lemma ReplaceKeyed<K, V>(c: multiset<Entry<K, V>>, cs: multiset<Entry<K, V>>, c2: multiset<Entry<K, V>>,
                           prev: Entry<K, V>, k: K, v: V)
    requires UniqueKeys(c) && prev.0 == k
    requires c2 + multiset{prev} == cs + multiset{(k, v)}
    requires (cs == c && prev in c) || (cs == c + multiset{prev} && forall e :: e in c ==> e.0 != k)
    ensures forall e: Entry<K, V> :: e.0 != k ==> c2[e] == c[e]
    ensures forall w :: c2[(k, w)] == if w == v then 1 else 0
    ensures UniqueKeys(c2)
  {
    forall w ensures c[(k, w)] == if cs == c && (k, w) == prev then 1 else 0 {
      if (k, w) in c {
        assert (k, w) == prev;
      }
    }
    forall e: Entry<K, V> ensures c2[e] == (if e.0 != k then c[e] else if e == (k, v) then 1 else 0) {
      assert (c2 + multiset{prev})[e] == (cs + multiset{(k, v)})[e];
      if e.0 == k {
        assert e == (k, e.1);
      }
    }
    forall w ensures c2[(k, w)] == if w == v then 1 else 0 {
      assert (k, w).0 == k;
    }
  }

  /** What operator[] does to the stored entries, in terms of at before the call. */
  lemma IndexContents<K, V>(t: Table<K, V>, k: K, hash: K -> nat, zero: V)
    requires Valid(t, hash)
    ensures var s := Index(t, k, hash, zero);
      && s.table.buckets[s.pos.bucket][s.pos.index].0 == k
      && (At(t, k, hash).Success? ==>
            && Contents(s.table) == Contents(t)
            && s.table.buckets[s.pos.bucket][s.pos.index] in Contents(t))
      && (At(t, k, hash).Failure? ==>
            && Contents(s.table) == Contents(t) + multiset{(k, zero)}
            && s.table.buckets[s.pos.bucket][s.pos.index] == (k, zero)
            && forall e :: e in Contents(t) ==> e.0 != k)
  {
    var u := Reserve(t, hash);
    var s := Index(t, k, hash, zero);
    ReserveKeepsRoom(t, hash);
    AtFailsOnlyWhenKeyAbsent(t, k, hash);
    AtFailsOnlyWhenKeyAbsent(u, k, hash);
    ChainInFlatten(s.table.buckets, s.pos.bucket);
    assert s.table.buckets[s.pos.bucket][s.pos.index] in multiset(s.table.buckets[s.pos.bucket]);
  }

  /**
   * What `t[k] = v` does to the stored entries: every entry with another key keeps its
   * multiplicity, and `(k, v)` becomes the one entry with key `k`.
   */
  lemma AssignContents<K, V>(t: Table<K, V>, k: K, v: V, hash: K -> nat, zero: V)
    requires Valid(t, hash) && UniqueKeys(Contents(t))
    ensures var c' := Contents(Assign(t, k, v, hash, zero));
      && (forall e: Entry<K, V> :: e.0 != k ==> c'[e] == Contents(t)[e])
      && (forall w :: c'[(k, w)] == if w == v then 1 else 0)
      && UniqueKeys(c')
  {
    var s := Index(t, k, hash, zero);
    IndexContents(t, k, hash, zero);
    var prev := s.table.buckets[s.pos.bucket][s.pos.index];
    ReplaceKeyed(Contents(t), Contents(s.table), Contents(Assign(t, k, v, hash, zero)), prev, k, v);
  }

  /** `t[k] = v` keeps keys unique and leaves every other key's lookup unchanged. */
  lemma AssignOtherKey<K, V>(t: Table<K, V>, k: K, k2: K, v: V, hash: K -> nat, zero: V)
    requires Valid(t, hash) && UniqueKeys(Contents(t))
    requires k2 != k
    ensures At(Assign(t, k, v, hash, zero), k2, hash) == At(t, k2, hash)
  {
    var r := Assign(t, k, v, hash, zero);
    AssignKeepsValid(t, k, v, hash, zero);
    AssignContents(t, k, v, hash, zero);
    forall w ensures (k2, w) in Contents(r) <==> (k2, w) in Contents(t) {
      assert (k2, w).0 != k;
    }
    SameEntriesSameLookup(r, t, k2, hash);
  }

  /**
   * operator[] with unique keys: the looked-up key reads its stored value, or the default
   * when it had none; every other key reads as before; keys stay unique.
   */
  lemma IndexLookups<K, V>(t: Table<K, V>, k: K, k2: K, hash: K -> nat, zero: V)
    requires Valid(t, hash) && UniqueKeys(Contents(t))
    ensures var r := Index(t, k, hash, zero).table;
      && UniqueKeys(Contents(r))
      && At(r, k2, hash) == if k2 == k && At(t, k, hash).Failure? then Success(zero) else At(t, k2, hash)
  {
    var r := Index(t, k, hash, zero).table;
    IndexKeepsValid(t, k, hash, zero);
    IndexContents(t, k, hash, zero);
    if At(t, k, hash).Failure? {
      AddFreshKey(Contents(t), (k, zero));
      if k2 == k {
        AtMatchesContents(r, k, hash);
      } else {
        forall w ensures (k2, w) in Contents(r) <==> (k2, w) in Contents(t) {
          assert (k2, w) != (k, zero);
        }
        SameEntriesSameLookup(r, t, k2, hash);
      }
    } else {
      SameEntriesSameLookup(r, t, k2, hash);
    }
  }
}
