/** A bucket's chain: a singly linked list of key-value entries, head first. */
module Chains {
  import opened Outcomes

  /** One stored key-value pair. */
  type Entry<K, V> = (K, V)

  /** The entries of one bucket; index 0 is the head, i.e. the most recently prepended entry. */
  type Chain<K, V> = seq<Entry<K, V>>

  /** Some entry of `c` has key `k`. */
  predicate HasKey<K(==), V>(c: Chain<K, V>, k: K) {
    exists j :: 0 <= j < |c| && c[j].0 == k
  }

  /** The position of the first entry of `c` whose key equals `k`, scanning from the head. */
  function FirstKey<K(==), V>(c: Chain<K, V>, k: K): (r: Option<nat>)
    ensures r.Some? ==> r.value < |c| && c[r.value].0 == k
    ensures r.Some? ==> forall j :: 0 <= j < r.value ==> c[j].0 != k
    ensures r.None? <==> !HasKey(c, k)
    decreases |c|
  {
    if |c| == 0 then None
    else if c[0].0 == k then Some(0)
    else
      match FirstKey(c[1..], k) {
        case None =>
          assert forall j :: 1 <= j < |c| ==> c[j] == c[1..][j - 1];
          None
        case Some(j) => Some(j + 1)
      }
  }

  /** The position of the first entry of `c` whose key and value both equal those of `e`. */
  function FirstEntry<K(==), V(==)>(c: Chain<K, V>, e: Entry<K, V>): (r: Option<nat>)
    ensures r.Some? ==> r.value < |c| && c[r.value] == e
    ensures r.Some? ==> forall j :: 0 <= j < r.value ==> c[j] != e
    ensures r.None? <==> e !in c
    decreases |c|
  {
    if |c| == 0 then None
    else if c[0] == e then Some(0)
    else
      match FirstEntry(c[1..], e) {
        case None =>
          assert c == [c[0]] + c[1..];
          None
        case Some(j) => Some(j + 1)
      }
  }

  /** Two chains that carry the same keys at the same positions find the same first key-equal entry. */
  lemma FirstKeyIgnoresValues<K, V>(c: Chain<K, V>, d: Chain<K, V>, k: K)
    requires |c| == |d|
    requires forall j :: 0 <= j < |c| ==> c[j].0 == d[j].0
    ensures FirstKey(c, k) == FirstKey(d, k)
  {
  }
}
