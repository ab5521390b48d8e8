# HashTable — a Dafny model

This project models `HashTable<K, V>` from `hash_table.h`, a separate-chaining hash map.
The table is a vector of singly linked chains of `(key, value)` pairs, a bucket count, and a
counter that `size()` reports. The bucket count starts at 1000 and doubles on every rehash.
`operator[]` and `insert` bump the counter *before* they look for the key, and they rehash when
the counter exceeds the bucket count. So `size()` counts calls, not stored entries.

The model is functional. A `Table` holds `buckets: seq<seq<(K, V)>>`, `bucketCount` and `size`.
Each operation is a pure function that returns the new table. Three things become parameters:

- the hasher is a parameter `hash: K -> nat`;
- key equality is Dafny's `==`;
- the value `operator[]` stores for a new key is a parameter `zero` (hash_table.h writes the literal `0`).

`operator[]` returns a reference, and the model splits it in two. `Index` does the
get-or-insert-default and returns the slot's position (bucket, chain index). `SetValue` writes
through that position. `Assign` is `t[k] = v`, which is `Index` followed by `SetValue`.

Every lookup (`At`, `Find`, `Size`, `IsEmpty`) is a pure function of the table, so none of them can modify it.

Modules:

- `Outcomes`: `Option` and `Result`.
- `Chains`: entries, chains, and the head-to-tail scans for the first key-equal entry and the first equal entry.
- `Buckets`: the bucket array and its traversal order, `Flatten`. Buckets are taken in ascending order, each chain head to tail.
- `Buckets` also holds the placement predicate and the rehash redistribution loop, with their multiset lemmas.
- `HashTable`: the table and its operations.
- `TableInvariants`: the invariant `Valid` and how each operation preserves it. `Valid` covers placement, stored entries <= `size()` <= bucket count, and a bucket count of 1000·2^j.
- `TableInvariants` also proves the lookup facts: the `at`/`find` agreement and the `t[k] = v` round trip.
- `MapView`: while every key is stored once, `at` behaves as a finite map. A rehash changes no lookup, and an assignment changes only its own key.
- `InsertSemantics`: `insert` compares key *and* value, so one key can hold several values. A rehash can then change what `at(k)` returns.
- `Construction`: the vector constructor, both as written and as intended.

The counter is not the number of stored entries: operator[] and insert increment it
unconditionally (hash_table.h:87, 116), even when nothing is added. The model follows the
code and proves stored entries <= `size()` <= bucket count instead.

## Model

| member | source | states |
|---|---|---|
| Chains.FirstKey | hash_table.h:91-98 | the result is the position of the first entry whose key equals `k`, and every earlier entry has another key; it is None exactly when no entry of the chain has key `k` |
| Chains.FirstEntry | hash_table.h:120-127 | the result is the position of the first entry equal in key and value to `e`, and no earlier entry equals `e`; it is None exactly when `e` is not in the chain |
| HashTable.Empty | hash_table.h:82-84 | a fresh table has 1000 buckets, all of them empty chains, and a zero counter |
| HashTable.Clear | hash_table.h:145-150 | clear() yields a well-formed table of 1000 empty buckets with a zero counter, whatever the table held before |
| HashTable.Rehash | hash_table.h:228-237 | the bucket count doubles and the counter is kept; the multiset of stored entries is unchanged; every entry sits in bucket `hash(key) % newCount` |
| Buckets.Redistribute | hash_table.h:231-235 | prepending each entry, in traversal order, to its hashed bucket keeps the array length and leaves every entry of an already placed array placed |
| Buckets.RedistributeContents | hash_table.h:231-235 | the redistribution loop adds exactly the walked entries to the array: the stored multiset grows by the multiset of the walked sequence |
| HashTable.Reserve | hash_table.h:87-90 | the shared prologue of operator[] and insert raises the counter by exactly 1; it doubles the bucket count exactly when the new counter exceeds it, and otherwise leaves every chain as it was; it keeps the stored entries and their placement |
| HashTable.Index | hash_table.h:86-101 | the counter rises by exactly 1 whether or not anything is added; the returned slot is the first key-equal entry of bucket `hash(k) % count`; if that bucket holds the key, no chain changes, and otherwise `(k, zero)` is prepended there and is the only entry added |
| HashTable.SetValue | hash_table.h:95 | writing through the reference replaces that one entry's value, keeps its key and every other entry, and trades exactly that entry for the new pair in the stored multiset |
| HashTable.Assign | hash_table.h:183 | `t[k] = v` raises the counter by exactly 1 and grows the bucket array exactly as the prologue does |
| HashTable.At | hash_table.h:103-113 | it fails with out_of_range exactly when no entry of bucket `hash(k) % count` has key `k`; otherwise it returns the value of the first entry with that key |
| HashTable.Find | hash_table.h:169-179 | it returns End exactly when no entry of the key's bucket has key `k`; otherwise it returns the position of the first entry with key `k` in that bucket |
| HashTable.Insert | hash_table.h:115-130 | the counter rises by exactly 1; the returned position holds an entry equal to `e` in `e`'s bucket; inserted is true exactly when no equal entry was in that bucket; when it is false no chain changes and the position is the first equal entry; when it is true `e` is prepended at position 0 and is the only entry added |
| HashTable.Emplace | hash_table.h:132-135 | emplace(k, v) is insert((k, v)): same table, position and flag |
| TableInvariants.EmptyIsValid | hash_table.h:239-240 | a fresh table satisfies the invariant; empty() is true and size() is 0; it stores nothing; at fails and find gives End for every key |
| TableInvariants.ClearResets | hash_table.h:145-150 | after clear() the table satisfies the invariant with bucket count 1000; size() is 0 and empty() is true; nothing is stored; at fails and find gives End for every key |
| HashTable.Size | hash_table.h:141-143 | size() returns the counter, which is zero exactly when empty() holds; its relation to the stored entries is SizeBounds |
| HashTable.IsEmpty | hash_table.h:137-139 | empty() holds exactly when size() is zero (stated on Size) |
| TableInvariants.SizeBounds | hash_table.h:137-143 | under the invariant, stored entries <= size() <= bucket count and the bucket count is at least 1000; empty() holds exactly when nothing is stored |
| TableInvariants.GrownAtLeastInitial | hash_table.h:229 | a bucket count reached by doubling from 1000 is at least 1000 |
| TableInvariants.ReserveKeepsRoom | hash_table.h:116-119 | after the prologue there is room for one more entry: stored entries < counter <= bucket count, with placement kept |
| TableInvariants.IndexKeepsValid | hash_table.h:86-101 | operator[] preserves placement and the bound stored entries <= size() <= bucket count |
| TableInvariants.SetValueKeepsValid | hash_table.h:100 | writing a value through the reference preserves the invariant |
| TableInvariants.AssignKeepsValid | hash_table.h:86-100 | `t[k] = v` preserves the invariant |
| TableInvariants.InsertKeepsValid | hash_table.h:115-129 | insert preserves placement and the bound stored entries <= size() <= bucket count |
| TableInvariants.FindAtAgree | hash_table.h:169-178 | find(k) is End exactly when at(k) fails; otherwise at(k) returns the value at find's position |
| TableInvariants.RehashKeepsFindable | hash_table.h:228-237 | a rehash keeps every key findable and makes no absent key findable: find(k) is end and at(k) throws exactly when they did before, even when keys are stored with several values |
| TableInvariants.AtFailsOnlyWhenKeyAbsent | hash_table.h:104-112 | with every entry placed, at(k) fails exactly when no stored entry anywhere in the table has key `k` |
| TableInvariants.AssignThenAt | hash_table.h:86-112 | round trip: after `t[k] = v`, at(k) returns `v` and find(k) is not End |
| TableInvariants.IndexAbsentGivesDefault | hash_table.h:99-100 | operator[] on a key the table does not hold refers to a new `(k, zero)` entry; at(k) then returns `zero`, and the stored entries gain exactly that pair |
| MapView.AtMatchesContents | hash_table.h:103-111 | with unique keys and placement, at(k) returns `v` exactly when `(k, v)` is stored |
| MapView.SameEntriesSameLookup | hash_table.h:103-113 | two placed, key-unique tables that store the same values for `k` give the same at(k) |
| MapView.RehashKeepsLookups | hash_table.h:228-237 | with unique keys, a rehash changes no at(k) |
| MapView.AssignContents | hash_table.h:86-101 | with unique keys, `t[k] = v` keeps the multiplicity of every entry with another key; `(k, v)` becomes the only entry with key `k`; keys stay unique |
| MapView.AssignOtherKey | hash_table.h:91-100 | with unique keys, `t[k] = v` leaves at(k2) unchanged for every other key k2 |
| MapView.IndexLookups | hash_table.h:91-100 | with unique keys, operator[] on `k` keeps keys unique; afterwards at(k) reads the stored value, or `zero` if there was none; every other key reads as before |
| InsertSemantics.InsertNewEntry | hash_table.h:128-129 | inserting an entry that is not stored reports inserted, adds exactly that entry, and keeps the invariant |
| InsertSemantics.InsertStoredEntry | hash_table.h:122-125 | inserting an entry already stored, equal in key and value, reports not inserted |
| InsertSemantics.InsertedIsFound | hash_table.h:128-129 | a freshly inserted entry heads its chain, so at returns its value and find returns its position |
| InsertSemantics.InsertSameKeyTwice | hash_table.h:115-130 | take a key the table does not hold: inserting `(k, v1)` and then `(k, v2)` (v1 != v2) stores both; at and find see `(k, v2)`; inserting `(k, v2)` again reports not inserted |
| InsertSemantics.RehashTwoEntries | hash_table.h:231-235 | rehashing a table whose traversal is `[(k, a), (k, b)]` leaves the chain `[(k, b), (k, a)]`: entries that land in one new bucket come out in reverse order |
| InsertSemantics.RehashReordersSameKeyEntries | hash_table.h:228-237 | after inserting `(k, b)` and then `(k, a)` into a fresh table, at(k) gives `a`; after a rehash it gives `b` |
| InsertSemantics.AssignCanChangeOtherLookup | hash_table.h:87-100 | with `(k2, a)` and `(k2, b)` both stored in a full table, `t[k] = v` for another key `k` rehashes and reverses that chain, so at(k2) changes from `a` to `b`: without unique keys, assigning one key can change another key's lookup |
| Construction.VectorCtorStart | hash_table.h:181-185 | the vector constructor starts its loop with bucket count 1000, counter 0 and no buckets at all |
| Construction.VectorCtorIndexesEmptyVector | hash_table.h:181-183 | from that state, the first operator[] does not rehash and computes a bucket index outside the empty bucket vector |
| Construction.FromPairs | hash_table.h:181-185 | the corrected constructor starts from a fresh table and assigns each pair in order; the result is well formed and its counter is the number of pairs |
| Construction.FromPairsValid | hash_table.h:181-185 | a table built from pairs satisfies the invariant and stores every key once |
| Construction.FromPairsLookup | hash_table.h:181-185 | at(k) on a table built from pairs returns the value of the last pair with key `k`, and fails when no pair has key `k` |

## Left out

- Iterator classes, `begin` and `end` (hash_table.h:10-80, 152-167): iterator `!=` compares only the raw list iterator, so `operator++` compares iterators of different lists, which the C++ standard leaves undefined; with the usual null `end()` iterator a traversal never leaves the bucket it starts in (bucket 0 from `begin()`). The const `end()` uses `begin()` of the last bucket. None of this has a faithful value model. `Flatten` gives the intended bucket-then-chain traversal order instead.
- Find and Insert return positions only: the `End` cursor stands for the end-of-last-bucket iterator of hash_table.h:157.
- Copy and move constructors and assignments (hash_table.h:187-223): they concern ownership and aliasing, which a value model does not have. Both assignment operators also fall off the end without `return *this`.
- The vector constructor as written (hash_table.h:181-185): it is modelled only up to the first out-of-bounds index (see Findings). `FromPairs` is the intended behaviour.
- Concrete `std::hash` and `std::equal_to`: the hasher is an arbitrary function and equality is `==`, so "equal keys hash equal" holds by construction.
- `size_t` wrap-around of the counter, of `bucket_count_ * 2` and of the hash: the model uses unbounded integers.
- Allocation failure.
- Outside mutation of the public `hash_table_` member.
- Rehash triggered by operator[]'s counter: it is modelled, but nothing is proved about the cost of the work.
- MapView lemmas hold only while every key is stored once. Tables built with `Empty`, `Clear`, `Index` and `Assign` keep that property (see `FromPairsValid`), but `insert` can break it (see `InsertSameKeyTwice`). `AssignCanChangeOtherLookup` shows the unique-key requirement is needed: with a duplicated key, an assignment to another key can change that key's lookup.

## Findings

| source | as written | input that shows it | evidently intended | confidence | as-written member | corrected member |
|---|---|---|---|---|---|---|
| hash_table.h:181-185 | the vector constructor never resizes the bucket vector before its loop calls operator[] | any non-empty vector, e.g. one pair `(k, v)`: operator[] raises the counter to 1, does not rehash, and indexes bucket `hash(k) % 1000` of a vector with no buckets | allocate 1000 empty buckets as the default constructor does, then assign each pair in order | high; not executed | Construction.VectorCtorIndexesEmptyVector | Construction.FromPairs |
