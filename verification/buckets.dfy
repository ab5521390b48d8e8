/** The bucket array: a sequence of chains indexed by `hash(key) % bucket count`. */
module Buckets {
  import opened Chains

  /** A bucket array of `n` empty chains, as a freshly sized vector of lists. */
  function EmptyBuckets<K, V>(n: nat): (bs: seq<Chain<K, V>>)
    ensures |bs| == n
    ensures forall i :: 0 <= i < n ==> bs[i] == []
  {
    seq(n, i => [])
  }

  /** Every entry of the array in traversal order: buckets ascending, each chain head to tail. */
  function Flatten<K, V>(bs: seq<Chain<K, V>>): seq<Entry<K, V>>
    decreases |bs|
  {
    if |bs| == 0 then [] else Flatten(bs[..|bs| - 1]) + bs[|bs| - 1]
  }

  /** Placement: every entry sits in the bucket its key hashes to, modulo the array length. */
  ghost predicate Placed<K, V>(bs: seq<Chain<K, V>>, hash: K -> nat) {
    forall i, j :: 0 <= i < |bs| && 0 <= j < |bs[i]| ==> hash(bs[i][j].0) % |bs| == i
  }

  /** An array of empty chains holds no entry. */
  lemma {:induction false} FlattenAllEmpty<K, V>(bs: seq<Chain<K, V>>)
    requires forall i :: 0 <= i < |bs| ==> bs[i] == []
    ensures Flatten(bs) == []
    decreases |bs|
  {
    if |bs| > 0 {
      FlattenAllEmpty(bs[..|bs| - 1]);
    }
  }

  /** An array whose only non-empty bucket is `b` holds exactly that bucket's chain. */
  lemma {:induction false} FlattenSingleBucket<K, V>(bs: seq<Chain<K, V>>, b: nat)
    requires b < |bs|
    requires forall i :: 0 <= i < |bs| && i != b ==> bs[i] == []
    ensures Flatten(bs) == bs[b]
    decreases |bs|
  {
    var n := |bs| - 1;
    if b == n {
      FlattenAllEmpty(bs[..n]);
    } else {
      FlattenSingleBucket(bs[..n], b);
    }
  }

  /** Every chain's entries are among the array's entries. */
  lemma {:induction false} ChainInFlatten<K, V>(bs: seq<Chain<K, V>>, i: nat)
    requires i < |bs|
    ensures multiset(bs[i]) <= multiset(Flatten(bs))
    decreases |bs|
  {
    var n := |bs| - 1;
    if i < n {
      ChainInFlatten(bs[..n], i);
      assert bs[..n][i] == bs[i];
    }
  }

  /** Each of the array's entries is stored at some (bucket, chain position). */
  lemma {:induction false} LocateEntry<K, V>(bs: seq<Chain<K, V>>, e: Entry<K, V>) returns (i: nat, j: nat)
    requires e in multiset(Flatten(bs))
    ensures i < |bs| && j < |bs[i]| && bs[i][j] == e
    decreases |bs|
  {
    var n := |bs| - 1;
    if e in multiset(bs[n]) {
      assert e in bs[n];
      i := n;
      j :| 0 <= j < |bs[n]| && bs[n][j] == e;
    } else {
      i, j := LocateEntry(bs[..n], e);
      assert bs[..n][i] == bs[i];
    }
  }

  /** Replacing one chain swaps that chain's entries for the new chain's entries. */
  lemma {:induction false} FlattenUpdate<K, V>(bs: seq<Chain<K, V>>, i: nat, c: Chain<K, V>)
    requires i < |bs|
    ensures multiset(Flatten(bs[i := c])) + multiset(bs[i]) == multiset(Flatten(bs)) + multiset(c)
    decreases |bs|
  {
    var n := |bs| - 1;
    var bs' := bs[i := c];
    if i == n {
      assert bs'[..n] == bs[..n];
    } else {
      var p, p' := bs[..n], bs'[..n];
      assert p' == p[i := c];
      assert p[i] == bs[i];
      FlattenUpdate(p, i, c);
      calc {
        multiset(Flatten(bs')) + multiset(bs[i]);
        multiset(Flatten(p') + bs[n]) + multiset(bs[i]);
        multiset(Flatten(p')) + multiset(bs[i]) + multiset(bs[n]);
        multiset(Flatten(p)) + multiset(c) + multiset(bs[n]);
        multiset(Flatten(p) + bs[n]) + multiset(c);
        multiset(Flatten(bs)) + multiset(c);
      }
    }
  }

  /** The array after prepending `e` to the bucket its key hashes to. */
  function PrependEntry<K, V>(bs: seq<Chain<K, V>>, hash: K -> nat, e: Entry<K, V>): (r: seq<Chain<K, V>>)
    requires |bs| > 0
    ensures |r| == |bs|
    ensures r[hash(e.0) % |bs|] == [e] + bs[hash(e.0) % |bs|]
    ensures forall i :: 0 <= i < |bs| && i != hash(e.0) % |bs| ==> r[i] == bs[i]
  {
    var b := hash(e.0) % |bs|;
    bs[b := [e] + bs[b]]
  }

  /** Prepending to the hashed bucket adds exactly `e` to the array's entries. */
  lemma PrependEntryContents<K, V>(bs: seq<Chain<K, V>>, hash: K -> nat, e: Entry<K, V>)
    requires |bs| > 0
    ensures multiset(Flatten(PrependEntry(bs, hash, e))) == multiset(Flatten(bs)) + multiset{e}
  {
    var b := hash(e.0) % |bs|;
    var c := [e] + bs[b];
    var bs' := PrependEntry(bs, hash, e);
    assert bs' == bs[b := c];
    FlattenUpdate(bs, b, c);
    MultisetCancel(multiset(Flatten(bs')), multiset(Flatten(bs)) + multiset{e}, multiset(bs[b]));
  }

  /** Overwriting one element of a chain swaps that element for the new one. */
  lemma ChainUpdate<K, V>(c: Chain<K, V>, j: nat, e: Entry<K, V>)
    requires j < |c|
    ensures multiset(c[j := e]) + multiset{c[j]} == multiset(c) + multiset{e}
  {
    assert c == c[..j] + [c[j]] + c[j + 1..];
    assert c[j := e] == c[..j] + [e] + c[j + 1..];
  }

  /** Replacing one entry anywhere in the array swaps that entry for the new one. */
  lemma FlattenUpdateEntry<K, V>(bs: seq<Chain<K, V>>, i: nat, j: nat, e: Entry<K, V>)
    requires i < |bs| && j < |bs[i]|
    ensures multiset(Flatten(bs[i := bs[i][j := e]])) + multiset{bs[i][j]} == multiset(Flatten(bs)) + multiset{e}
  {
    var c, c' := bs[i], bs[i][j := e];
    FlattenUpdate(bs, i, c');
    ChainUpdate(c, j, e);
    MultisetSwap(multiset(Flatten(bs[i := c'])), multiset(Flatten(bs)), multiset(c), multiset(c'), c[j], e);
  }

  /** If `a` and `b` differ by trading `z` for `w`, and `w` is `z` with `p` traded for `q`, then `a` is `b` with `q` traded for `p`. */
  lemma MultisetSwap<T>(a: multiset<T>, b: multiset<T>, z: multiset<T>, w: multiset<T>, p: T, q: T)
    requires a + z == b + w
    requires w + multiset{p} == z + multiset{q}
    ensures a + multiset{p} == b + multiset{q}
  {
    forall x ensures (a + multiset{p})[x] == (b + multiset{q})[x] {
      assert (a + z)[x] == (b + w)[x];
      assert (w + multiset{p})[x] == (z + multiset{q})[x];
    }
  }

  /** Cancellation for multiset sums. */
  lemma MultisetCancel<T>(x: multiset<T>, y: multiset<T>, z: multiset<T>)
    requires x + z == y + z
    ensures x == y
  {
    assert x == x + z - z;
  }

  /** Prepending to the hashed bucket keeps every entry placed. */
  lemma PrependEntryPlaced<K, V>(bs: seq<Chain<K, V>>, hash: K -> nat, e: Entry<K, V>)
    requires |bs| > 0
    ensures Placed(bs, hash) ==> Placed(PrependEntry(bs, hash, e), hash)
  {
    var b := hash(e.0) % |bs|;
    var bs': seq<Chain<K, V>> := PrependEntry(bs, hash, e);
    if Placed(bs, hash) {
      forall i, j | 0 <= i < |bs'| && 0 <= j < |bs'[i]|
        ensures hash(bs'[i][j].0) % |bs'| == i
      {
        if i == b && j > 0 {
          assert bs'[i][j] == bs[b][j - 1];
        }
      }
    }
  }

  /**
   * The redistribution loop of a rehash: take the entries `es` in order and prepend each
   * to the bucket of `acc` its key hashes to.
   */
  function Redistribute<K, V>(es: seq<Entry<K, V>>, acc: seq<Chain<K, V>>, hash: K -> nat): (r: seq<Chain<K, V>>)
    requires |acc| > 0
    ensures |r| == |acc|
    ensures Placed(acc, hash) ==> Placed(r, hash)
    decreases |es|
  {
    if |es| == 0 then acc
    else
      PrependEntryPlaced(acc, hash, es[0]);
      Redistribute(es[1..], PrependEntry(acc, hash, es[0]), hash)
  }

  /** Adding `e` and then the elements of `rest` adds the elements of `es == [e] + rest`. */
  lemma AddToSum<T>(x: multiset<T>, a: multiset<T>, a': multiset<T>, e: T, es: seq<T>, rest: seq<T>)
    requires es == [e] + rest
    requires x == a' + multiset(rest) && a' == a + multiset{e}
    ensures x == a + multiset(es)
  {
    assert multiset(es) == multiset{e} + multiset(rest);
  }

  /** Redistribution moves entries and neither drops nor duplicates any. */
  lemma {:induction false} RedistributeContents<K, V>(es: seq<Entry<K, V>>, acc: seq<Chain<K, V>>, hash: K -> nat)
    requires |acc| > 0
    ensures multiset(Flatten(Redistribute(es, acc, hash))) == multiset(Flatten(acc)) + multiset(es)
    decreases |es|
  {
    if |es| == 0 { assert Redistribute(es, acc, hash) == acc; } else {
      var e, rest := es[0], es[1..];
      var acc' := PrependEntry(acc, hash, e);
      PrependEntryContents(acc, hash, e);
      RedistributeContents(rest, acc', hash);
      assert es == [e] + rest;
      assert Redistribute(es, acc, hash) == Redistribute(rest, acc', hash);
      AddToSum(multiset(Flatten(Redistribute(rest, acc', hash))), multiset(Flatten(acc)),
               multiset(Flatten(acc')), e, es, rest);
    }
  }
}
