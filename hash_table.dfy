/**
 * The separate-chaining hash table of hash_table.c: an array of buckets,
 * each a list of key/value pairs; a key's bucket is its hash modulo the
 * capacity, and a bucket is searched with ll_findItem and the table's pair
 * comparator.
 *
 * Keys and values are values here, not pointers; a bucket is the sequence
 * of pairs its list holds. The comparator of a table is the function
 * `Comparator(keyComparator)` that the lookups hand to ll_findItem.
 */
module HashTables {
  import opened Options
  import LinkedLists

  // ---------------------------------------------------------------------------
  // ht_hashString
  // ---------------------------------------------------------------------------

  /** A C `char` read from the string: the low byte, sign-extended to 32 bits. */
  function SignedChar(c: char): bv32 {
    var b := ((c as int) % 256) as bv8;
    if b < 0x80 then b as bv32 else b as bv32 | 0xFFFF_FF00
  }

  /** One round of the loop of ht_hashString. */
  function Mix(value: bv32, c: char): bv32 {
    var v := value + SignedChar(c);
    var v := v + (v << 10);
    v ^ (v >> 6)
  }

  /** The loop of ht_hashString over a whole string. */
  function Mixed(s: string): bv32 {
    if s == [] then 0 else Mix(Mixed(s[..|s| - 1]), s[|s| - 1])
  }

  /** The final avalanche of ht_hashString. */
  function Finish(value: bv32): bv32 {
    var v := value + (value << 3);
    var v := v ^ (v >> 11);
    v + (v << 15)
  }

  /** Jenkins' one-at-a-time hash, which ht_hashString computes. */
  function OneAtATime(s: string): bv32 {
    Finish(Mixed(s))
  }

  /** ht_hashString: the one-at-a-time hash of the characters before the terminator. */
  method HashString(data: string) returns (value: bv32)
    ensures value == OneAtATime(data)
  {
    value := 0;
    var i := 0;
    while i < |data|
      invariant i <= |data| && value == Mixed(data[..i])
    {
      assert data[..i + 1][..i] == data[..i];
      value := Mix(value, data[i]);
      i := i + 1;
    }
    assert data[..i] == data;
    value := Finish(value);
  }

  /** The published values of the one-at-a-time hash. */
  lemma OneAtATimeValues()
    ensures OneAtATime("") == 0
    ensures OneAtATime("a") == 0xca2e_9442
    ensures OneAtATime("ab") == 0x45e6_1e58
  {
    MixedValues();
    assert Finish(0x1_8270) == 0xca2e_9442;
    assert Finish(0x614_f9f9) == 0x45e6_1e58;
  }

  /** The mixing loop of the one-at-a-time hash over "a" and "ab". */
  lemma MixedValues()
    ensures Mixed("a") == 0x1_8270
    ensures Mixed("ab") == 0x614_f9f9
  {
    assert SignedChar('a') == 0x61 && SignedChar('b') == 0x62;
    assert Mix(0, 'a') == 0x1_8270;
    assert Mix(0x1_8270, 'b') == 0x614_f9f9;
    assert "a"[..0] == "";
    assert "ab"[..1] == "a";
  }

  // ---------------------------------------------------------------------------
  // The pair comparator
  // ---------------------------------------------------------------------------

  /**
   * pairComparator as written: the key comparator when there is one,
   * otherwise 1 for identical keys and 0 for different ones. ll_findItem
   * takes 0 as a match, so without a key comparator a key matches every
   * key but itself.
   */
  function PairCompareAsWritten<K(==)>(keyComparator: Option<(K, K) -> int>, key: K, other: K): int {
    match keyComparator
    case Some(f) => f(key, other)
    case None => if key == other then 1 else 0
  }

  /** pairComparator corrected: without a key comparator, 0 exactly for identical keys. */
  function PairCompare<K(==)>(keyComparator: Option<(K, K) -> int>, key: K, other: K): int {
    match keyComparator
    case Some(f) => f(key, other)
    case None => if key == other then 0 else 1
  }

  function ComparatorAsWritten<K(==)>(keyComparator: Option<(K, K) -> int>): (K, K) -> int {
    (key, other) => PairCompareAsWritten(keyComparator, key, other)
  }

  function Comparator<K(==)>(keyComparator: Option<(K, K) -> int>): (K, K) -> int {
    (key, other) => PairCompare(keyComparator, key, other)
  }

  /** A comparator that returns 0 exactly for equal keys. */
  ghost predicate IsEquality<K(!new)>(compare: (K, K) -> int) {
    forall a: K, b: K :: compare(a, b) == 0 <==> a == b
  }

  /** Without a key comparator the corrected comparator is key equality. */
  lemma DefaultComparator<K(!new)>()
    ensures IsEquality(Comparator<K>(None))
  {
  }

  // ---------------------------------------------------------------------------
  // One bucket
  // ---------------------------------------------------------------------------

  /** The keys of a bucket, in order. */
  function Keys<K, V>(bucket: seq<(K, V)>): (keys: seq<K>)
    ensures |keys| == |bucket|
    ensures forall i | 0 <= i < |bucket| :: keys[i] == bucket[i].0
  {
    seq(|bucket|, i requires 0 <= i < |bucket| => bucket[i].0)
  }

  /** getPairByKey: the position of the first pair whose key compares 0 to key, |bucket| if none. */
  function Find<K(==), V>(bucket: seq<(K, V)>, key: K, compare: (K, K) -> int): (i: nat)
    ensures i <= |bucket|
    ensures forall j | 0 <= j < i :: compare(key, bucket[j].0) != 0
    ensures i < |bucket| ==> compare(key, bucket[i].0) == 0
  {
    var i := LinkedLists.FirstMatch(Keys(bucket), key, Some(compare));
    assert forall j | 0 <= j < i :: !LinkedLists.Matches(key, Keys(bucket)[j], Some(compare));
    i
  }

  /** The first position whose key compares 0 is the one Find returns. */
  lemma FindAt<K, V>(bucket: seq<(K, V)>, key: K, compare: (K, K) -> int, k: nat)
    requires k <= |bucket|
    requires forall j | 0 <= j < k :: compare(key, bucket[j].0) != 0
    requires k < |bucket| ==> compare(key, bucket[k].0) == 0
    ensures Find(bucket, key, compare) == k
  {
  }

  /** The value of the pair getPairByKey finds. */
  function Lookup<K(==), V>(bucket: seq<(K, V)>, key: K, compare: (K, K) -> int): Option<V> {
    var i := Find(bucket, key, compare);
    if i < |bucket| then Some(bucket[i].1) else None
  }

  /** The bucket after ht_insertElement: the found pair takes the value, or (key, value) is pushed at the back. */
  function Put<K(==), V>(bucket: seq<(K, V)>, key: K, value: V, compare: (K, K) -> int): seq<(K, V)> {
    var i := Find(bucket, key, compare);
    if i < |bucket| then bucket[i := (bucket[i].0, value)] else bucket + [(key, value)]
  }

  /** The bucket after ht_removeElement: the found pair is unlinked. */
  function Delete<K(==), V>(bucket: seq<(K, V)>, key: K, compare: (K, K) -> int): seq<(K, V)> {
    var i := Find(bucket, key, compare);
    if i < |bucket| then bucket[..i] + bucket[i + 1..] else bucket
  }

  /** No two pairs of a bucket share a key. */
  ghost predicate DistinctKeys<K, V>(bucket: seq<(K, V)>) {
    forall i, j | 0 <= i < j < |bucket| :: bucket[i].0 != bucket[j].0
  }

  /** After a put, the key finds the value put, whenever the comparator matches a key with itself. */
  lemma PutThenLookup<K, V>(bucket: seq<(K, V)>, key: K, value: V, compare: (K, K) -> int)
    requires compare(key, key) == 0
    ensures Lookup(Put(bucket, key, value, compare), key, compare) == Some(value)
  {
    var i := Find(bucket, key, compare);
    var b' := Put(bucket, key, value, compare);
    FindAt(b', key, compare, i);
  }

  /** A key that was found is still found after any put: puts never take a pair away. */
  lemma PutKeepsFound<K, V>(bucket: seq<(K, V)>, key: K, value: V, other: K, compare: (K, K) -> int)
    requires Lookup(bucket, other, compare).Some?
    ensures Lookup(Put(bucket, key, value, compare), other, compare).Some?
  {
    var b' := Put(bucket, key, value, compare);
    FindAt(b', other, compare, Find(bucket, other, compare));
  }

  /** Under key equality a put leaves every other key's lookup as it was. */
  lemma PutKeepsOthers<K(!new), V>(bucket: seq<(K, V)>, key: K, value: V, other: K, compare: (K, K) -> int)
    requires IsEquality(compare) && other != key
    ensures Lookup(Put(bucket, key, value, compare), other, compare) == Lookup(bucket, other, compare)
  {
    var b' := Put(bucket, key, value, compare);
    var i := Find(bucket, key, compare);
    var j := Find(bucket, other, compare);
    if i < |bucket| || j < |bucket| {
      FindAt(b', other, compare, j);
    } else {
      FindAt(b', other, compare, |b'|);
    }
  }

  /** Under key equality a put keeps the keys of the bucket distinct. */
  lemma PutDistinct<K(!new), V>(bucket: seq<(K, V)>, key: K, value: V, compare: (K, K) -> int)
    requires IsEquality(compare) && DistinctKeys(bucket)
    ensures DistinctKeys(Put(bucket, key, value, compare))
  {
  }

  /** Under key equality, with distinct keys, a deleted key is not found any more. */
  lemma DeleteThenLookup<K(!new), V>(bucket: seq<(K, V)>, key: K, compare: (K, K) -> int)
    requires IsEquality(compare) && DistinctKeys(bucket)
    ensures Lookup(Delete(bucket, key, compare), key, compare) == None
  {
    var b' := Delete(bucket, key, compare);
    var i := Find(bucket, key, compare);
    if i < |bucket| {
      assert forall m | 0 <= m < |b'| :: b'[m] == if m < i then bucket[m] else bucket[m + 1];
      FindAt(b', key, compare, |b'|);
    }
  }

  /** Under key equality a delete leaves every other key's lookup as it was. */
  lemma DeleteKeepsOthers<K(!new), V>(bucket: seq<(K, V)>, key: K, other: K, compare: (K, K) -> int)
    requires IsEquality(compare) && other != key
    ensures Lookup(Delete(bucket, key, compare), other, compare) == Lookup(bucket, other, compare)
  {
    var b' := Delete(bucket, key, compare);
    var i := Find(bucket, key, compare);
    var j := Find(bucket, other, compare);
    if i < |bucket| {
      assert forall m | 0 <= m < |b'| :: b'[m] == if m < i then bucket[m] else bucket[m + 1];
      if j < i {
        FindAt(b', other, compare, j);
      } else {
        FindAt(b', other, compare, j - 1);
      }
    }
  }

  /** A delete keeps the keys of the bucket distinct. */
  lemma DeleteDistinct<K, V>(bucket: seq<(K, V)>, key: K, compare: (K, K) -> int)
    requires DistinctKeys(bucket)
    ensures DistinctKeys(Delete(bucket, key, compare))
  {
    var i := Find(bucket, key, compare);
    var b' := Delete(bucket, key, compare);
    if i < |bucket| {
      assert forall m | 0 <= m < |b'| :: b'[m] == if m < i then bucket[m] else bucket[m + 1];
    }
  }

  // ---------------------------------------------------------------------------
  // The whole table, as a sequence of buckets
  // ---------------------------------------------------------------------------

  /** getBucket: hash % capacity, a valid bucket number. */
  function Index<K>(hash: K -> nat, key: K, capacity: nat): (i: nat)
    requires capacity > 0
    ensures i < capacity
  {
    hash(key) % capacity
  }

  /** ht_getValue on buckets bs. */
  function Get<K(==), V>(bs: seq<seq<(K, V)>>, hash: K -> nat, compare: (K, K) -> int, key: K): Option<V>
    requires |bs| > 0
  {
    Lookup(bs[Index(hash, key, |bs|)], key, compare)
  }

  /** getPairByKey on buckets bs: the pair found for key, whose value ht_getValue returns. */
  function PairOf<K(==), V>(bs: seq<seq<(K, V)>>, hash: K -> nat, compare: (K, K) -> int, key: K): (r: Option<(K, V)>)
    requires |bs| > 0
    ensures r.Some? <==> Get(bs, hash, compare, key).Some?
    ensures r.Some? ==> r.value.1 == Get(bs, hash, compare, key).value && compare(key, r.value.0) == 0
  {
    var b := bs[Index(hash, key, |bs|)];
    var i := Find(b, key, compare);
    if i < |b| then Some(b[i]) else None
  }

  /** ht_insertElement on buckets bs. */
  function Inserted<K(==), V>(bs: seq<seq<(K, V)>>, hash: K -> nat, compare: (K, K) -> int, key: K, value: V): seq<seq<(K, V)>>
    requires |bs| > 0
  {
    var i := Index(hash, key, |bs|);
    bs[i := Put(bs[i], key, value, compare)]
  }

  /** ht_removeElement on buckets bs. */
  function Removed<K(==), V>(bs: seq<seq<(K, V)>>, hash: K -> nat, compare: (K, K) -> int, key: K): seq<seq<(K, V)>>
    requires |bs| > 0
  {
    var i := Index(hash, key, |bs|);
    bs[i := Delete(bs[i], key, compare)]
  }

  /** Every pair of every bucket, in bucket order then list order: the order the table iterator follows. */
  function Flatten<K, V>(bs: seq<seq<(K, V)>>): seq<(K, V)> {
    if bs == [] then [] else Flatten(bs[..|bs| - 1]) + bs[|bs| - 1]
  }

  /** Every pair sits in the bucket its key hashes to. */
  ghost predicate Placed<K, V>(bs: seq<seq<(K, V)>>, hash: K -> nat) {
    forall i, j | 0 <= i < |bs| && 0 <= j < |bs[i]| :: Index(hash, bs[i][j].0, |bs|) == i
  }

  /** No bucket holds a key twice. */
  ghost predicate Distinct<K, V>(bs: seq<seq<(K, V)>>) {
    forall i | 0 <= i < |bs| :: DistinctKeys(bs[i])
  }

  /** ht_getValue after ht_insertElement of key gives the inserted value. */
  lemma InsertThenGet<K, V>(bs: seq<seq<(K, V)>>, hash: K -> nat, compare: (K, K) -> int, key: K, value: V)
    requires |bs| > 0 && compare(key, key) == 0
    ensures Get(Inserted(bs, hash, compare, key, value), hash, compare, key) == Some(value)
  {
    PutThenLookup(bs[Index(hash, key, |bs|)], key, value, compare);
  }

  /** Under key equality, ht_insertElement of key changes no other key's value. */
  lemma InsertKeepsOthers<K(!new), V>(bs: seq<seq<(K, V)>>, hash: K -> nat, compare: (K, K) -> int, key: K, value: V, other: K)
    requires |bs| > 0 && IsEquality(compare) && other != key
    ensures Get(Inserted(bs, hash, compare, key, value), hash, compare, other) == Get(bs, hash, compare, other)
  {
    if Index(hash, other, |bs|) == Index(hash, key, |bs|) {
      PutKeepsOthers(bs[Index(hash, key, |bs|)], key, value, other, compare);
    }
  }

  /** ht_insertElement never loses a key. */
  lemma InsertKeepsFound<K, V>(bs: seq<seq<(K, V)>>, hash: K -> nat, compare: (K, K) -> int, key: K, value: V, other: K)
    requires |bs| > 0 && Get(bs, hash, compare, other).Some?
    ensures Get(Inserted(bs, hash, compare, key, value), hash, compare, other).Some?
  {
    if Index(hash, other, |bs|) == Index(hash, key, |bs|) {
      PutKeepsFound(bs[Index(hash, key, |bs|)], key, value, other, compare);
    }
  }

  /** Under key equality and distinct keys, ht_getValue after ht_removeElement of key finds nothing. */
  lemma RemoveThenGet<K(!new), V>(bs: seq<seq<(K, V)>>, hash: K -> nat, compare: (K, K) -> int, key: K)
    requires |bs| > 0 && IsEquality(compare) && Distinct(bs)
    ensures Get(Removed(bs, hash, compare, key), hash, compare, key) == None
  {
    DeleteThenLookup(bs[Index(hash, key, |bs|)], key, compare);
  }

  /** Under key equality, ht_removeElement of key changes no other key's value. */
  lemma RemoveKeepsOthers<K(!new), V>(bs: seq<seq<(K, V)>>, hash: K -> nat, compare: (K, K) -> int, key: K, other: K)
    requires |bs| > 0 && IsEquality(compare) && other != key
    ensures Get(Removed(bs, hash, compare, key), hash, compare, other) == Get(bs, hash, compare, other)
  {
    if Index(hash, other, |bs|) == Index(hash, key, |bs|) {
      DeleteKeepsOthers(bs[Index(hash, key, |bs|)], key, other, compare);
    }
  }

  /** Insertion keeps every pair in its key's bucket. */
  lemma InsertPlaced<K, V>(bs: seq<seq<(K, V)>>, hash: K -> nat, compare: (K, K) -> int, key: K, value: V)
    requires |bs| > 0 && Placed(bs, hash)
    ensures Placed(Inserted(bs, hash, compare, key, value), hash)
  {
    var b := bs[Index(hash, key, |bs|)];
    var put := Put(b, key, value, compare);
    assert forall j | 0 <= j < |put| :: put[j].0 == key || put[j].0 == b[j].0;
  }

  /** Removal keeps every pair in its key's bucket. */
  lemma RemovePlaced<K, V>(bs: seq<seq<(K, V)>>, hash: K -> nat, compare: (K, K) -> int, key: K)
    requires |bs| > 0 && Placed(bs, hash)
    ensures Placed(Removed(bs, hash, compare, key), hash)
  {
    var b := bs[Index(hash, key, |bs|)];
    var f := Find(b, key, compare);
    var del := Delete(b, key, compare);
    assert forall j | 0 <= j < |del| :: del[j] == if j < f then b[j] else b[j + 1];
  }

  /** Under key equality, insertion keeps the keys of every bucket distinct. */
  lemma InsertDistinct<K(!new), V>(bs: seq<seq<(K, V)>>, hash: K -> nat, compare: (K, K) -> int, key: K, value: V)
    requires |bs| > 0 && Distinct(bs) && IsEquality(compare)
    ensures Distinct(Inserted(bs, hash, compare, key, value))
  {
    PutDistinct(bs[Index(hash, key, |bs|)], key, value, compare);
  }

  /** Removal keeps the keys of every bucket distinct. */
  lemma RemoveDistinct<K, V>(bs: seq<seq<(K, V)>>, hash: K -> nat, compare: (K, K) -> int, key: K)
    requires |bs| > 0 && Distinct(bs)
    ensures Distinct(Removed(bs, hash, compare, key))
  {
    DeleteDistinct(bs[Index(hash, key, |bs|)], key, compare);
  }

  /** The pairs of the buckets before bucket m come first in Flatten. */
  lemma {:induction false} FlattenPrefix<K, V>(bs: seq<seq<(K, V)>>, m: nat)
    requires m <= |bs|
    ensures Flatten(bs[..m]) <= Flatten(bs)
    decreases |bs| - m
  {
    if m < |bs| {
      FlattenPrefix(bs, m + 1);
      assert bs[..m + 1][..m] == bs[..m];
    } else {
      assert bs[..m] == bs;
    }
  }

  /** The j-th pair of bucket i sits in Flatten right after the buckets before i. */
  lemma FlattenAt<K, V>(bs: seq<seq<(K, V)>>, i: nat, j: nat)
    requires i < |bs| && j < |bs[i]|
    ensures |Flatten(bs[..i])| + j < |Flatten(bs)|
    ensures Flatten(bs)[|Flatten(bs[..i])| + j] == bs[i][j]
  {
    FlattenPrefix(bs, i + 1);
    assert bs[..i + 1][..i] == bs[..i];
  }

  /** Past bucket i and the empty buckets after it, Flatten has grown by bucket i. */
  lemma FlattenPast<K, V>(bs: seq<seq<(K, V)>>, i: nat, next: nat)
    requires i < next <= |bs| && forall j | i < j < next :: bs[j] == []
    ensures |Flatten(bs[..next])| == |Flatten(bs[..i])| + |bs[i]|
  {
    FlattenSkips(bs, i + 1, next);
    assert bs[..i + 1][..i] == bs[..i];
  }

  /** Empty buckets add nothing to Flatten. */
  lemma {:induction false} FlattenSkips<K, V>(bs: seq<seq<(K, V)>>, a: nat, b: nat)
    requires a <= b <= |bs| && forall j | a <= j < b :: bs[j] == []
    ensures Flatten(bs[..b]) == Flatten(bs[..a])
    decreases b - a
  {
    if a < b {
      FlattenSkips(bs, a, b - 1);
      assert bs[..b][..b - 1] == bs[..b - 1];
    }
  }

  /** Replacing one bucket changes the number of pairs by the change of that bucket's length. */
  lemma {:induction false} FlattenUpdate<K, V>(bs: seq<seq<(K, V)>>, i: nat, b: seq<(K, V)>)
    requires i < |bs|
    ensures |Flatten(bs[i := b])| + |bs[i]| == |Flatten(bs)| + |b|
    decreases |bs|
  {
    var n := |bs| - 1;
    assert bs[i := b][..n] == if i < n then bs[..n][i := b] else bs[..n];
    if i < n {
      FlattenUpdate(bs[..n], i, b);
    }
  }

  /** The number of pairs after ht_insertElement: one more exactly when the key was not found. */
  lemma InsertCount<K, V>(bs: seq<seq<(K, V)>>, hash: K -> nat, compare: (K, K) -> int, key: K, value: V)
    requires |bs| > 0
    ensures |Flatten(Inserted(bs, hash, compare, key, value))| == |Flatten(bs)| + if Get(bs, hash, compare, key).None? then 1 else 0
  {
    var i := Index(hash, key, |bs|);
    FlattenUpdate(bs, i, Put(bs[i], key, value, compare));
  }

  /** The number of pairs after ht_removeElement: one less exactly when the key was found. */
  lemma RemoveCount<K, V>(bs: seq<seq<(K, V)>>, hash: K -> nat, compare: (K, K) -> int, key: K)
    requires |bs| > 0
    ensures |Flatten(Removed(bs, hash, compare, key))| + (if Get(bs, hash, compare, key).Some? then 1 else 0) == |Flatten(bs)|
  {
    var i := Index(hash, key, |bs|);
    FlattenUpdate(bs, i, Delete(bs[i], key, compare));
  }

  // ---------------------------------------------------------------------------
  // What pairComparator does without a key comparator
  // ---------------------------------------------------------------------------

  /**
   * With no key comparator, the table as written does not find a key just
   * inserted, and a second key in the same bucket overwrites the first
   * key's value instead of being added. The corrected comparator keeps
   * both and finds each.
   */
  lemma NoKeyComparatorMismatches<K, V>(hash: K -> nat, k1: K, k2: K, v1: V, v2: V)
    requires k1 != k2
    ensures var compare := ComparatorAsWritten<K>(None);
            var t1 := Inserted([[]], hash, compare, k1, v1);
            && Get(t1, hash, compare, k1) == None
            && Inserted(t1, hash, compare, k2, v2) == [[(k1, v2)]]
  {
    var w := ComparatorAsWritten<K>(None);
    assert Index(hash, k1, 1) == 0 && Index(hash, k2, 1) == 0;
    var b1 := [(k1, v1)];
    var b0: seq<(K, V)> := [];
    FindAt(b0, k1, w, 0);
    assert Put(b0, k1, v1, w) == b1;
    assert [b0][0 := b1] == [b1];
    assert Inserted([b0], hash, w, k1, v1) == [b1];
    assert w(k1, k1) == 1 && w(k2, k1) == 0;
    FindAt(b1, k1, w, 1);
    FindAt(b1, k2, w, 0);
    assert Put(b1, k2, v2, w) == [(k1, v2)];
    assert [b1][0 := [(k1, v2)]] == [[(k1, v2)]];
  }

  /** The corrected comparator keeps both keys of the same bucket and finds each. */
  lemma NoKeyComparatorFinds<K, V>(hash: K -> nat, k1: K, k2: K, v1: V, v2: V)
    requires k1 != k2
    ensures var compare := Comparator<K>(None);
            var t2 := Inserted(Inserted([[]], hash, compare, k1, v1), hash, compare, k2, v2);
            && t2 == [[(k1, v1), (k2, v2)]]
            && Get(t2, hash, compare, k1) == Some(v1) && Get(t2, hash, compare, k2) == Some(v2)
  {
    var c := Comparator<K>(None);
    assert Index(hash, k1, 1) == 0 && Index(hash, k2, 1) == 0;
    var b1 := [(k1, v1)];
    assert c(k1, k1) == 0 && c(k2, k2) == 0 && c(k2, k1) == 1 && c(k1, k2) == 1;
    var b0: seq<(K, V)> := [];
    FindAt(b0, k1, c, 0);
    assert Put(b0, k1, v1, c) == b1;
    assert [b0][0 := b1] == [b1];
    assert Inserted([b0], hash, c, k1, v1) == [b1];
    FindAt(b1, k2, c, 1);
    var b2 := [(k1, v1), (k2, v2)];
    assert Put(b1, k2, v2, c) == b2;
    assert [b1][0 := b2] == [b2];
    assert Inserted([b1], hash, c, k2, v2) == [b2];
    FindAt(b2, k1, c, 0);
    FindAt(b2, k2, c, 1);
  }

  // ---------------------------------------------------------------------------
  // The table
  // ---------------------------------------------------------------------------

  /**
   * ht_Table: buckets (its length is the capacity), size, the hash
   * function, the key comparator and whether a pair destructor was given.
   */
  class HashTable<K(==, !new), V> {
    var buckets: array<seq<(K, V)>>
    var size: nat
    const hash: K -> nat
    const keyComparator: Option<(K, K) -> int>
    const destructor: bool

    /** The comparator the lookups pass to ll_findItem. */
    function Compare(): (K, K) -> int {
      Comparator(keyComparator)
    }

    ghost predicate Valid()
      reads this, buckets
    {
      && Placed(buckets[..], hash)
      && (IsEquality(Compare()) ==> Distinct(buckets[..]))
      && size == |Flatten(buckets[..])|
    }

    /** The value stored under key, as ht_getValue finds it. */
    ghost function Value(key: K): Option<V>
      reads this, buckets
      requires buckets.Length > 0
    {
      Get(buckets[..], hash, Compare(), key)
    }

    /** ht_createTable: capacity empty buckets and size 0. */
    constructor (capacity: nat, hash: K -> nat, keyComparator: Option<(K, K) -> int>, destructor: bool)
      ensures Valid() && fresh(buckets) && buckets.Length == capacity && size == 0
      ensures forall i | 0 <= i < capacity :: buckets[i] == []
      ensures this.hash == hash && this.keyComparator == keyComparator && this.destructor == destructor
    {
      buckets := new seq<(K, V)>[capacity](_ => []);
      size := 0;
      this.hash := hash;
      this.keyComparator := keyComparator;
      this.destructor := destructor;
      new;
      FlattenSkips(buckets[..], 0, capacity);
      assert buckets[..][..capacity] == buckets[..];
    }

    /** getBucket: the bucket of key, a valid index. */
    method GetBucket(key: K) returns (index: nat)
      requires buckets.Length > 0
      ensures index < buckets.Length && index == Index(hash, key, buckets.Length)
    {
      index := hash(key) % buckets.Length;
    }

    /**
     * ht_insertElement: the value of the pair found for key is replaced,
     * otherwise (key, value) is pushed at the back of its bucket and the
     * size grows by one.
     */
    method Insert(key: K, value: V)
      requires Valid() && buckets.Length > 0
      modifies this, buckets
      ensures Valid() && buckets == old(buckets)
      ensures buckets[..] == Inserted(old(buckets[..]), hash, Compare(), key, value)
      ensures size == old(size) + if old(Value(key)).None? then 1 else 0
    {
      ghost var bs := buckets[..];
      InsertPlaced(bs, hash, Compare(), key, value);
      if IsEquality(Compare()) {
        InsertDistinct(bs, hash, Compare(), key, value);
      }
      InsertCount(bs, hash, Compare(), key, value);
      var index := GetBucket(key);
      var bucket := buckets[index];
      var existing := Find(bucket, key, Compare());
      if existing < |bucket| {
        buckets[index] := bucket[existing := (bucket[existing].0, value)];
      } else {
        buckets[index] := bucket + [(key, value)];
        size := size + 1;
      }
      assert buckets[..] == Inserted(bs, hash, Compare(), key, value);
    }

    /** ht_getValue: the value stored under key, or nothing. */
    method GetValue(key: K) returns (r: Option<V>)
      requires Valid() && buckets.Length > 0
      ensures r == Value(key)
    {
      var index := GetBucket(key);
      var bucket := buckets[index];
      var pair := Find(bucket, key, Compare());
      r := if pair < |bucket| then Some(bucket[pair].1) else None;
    }

    /**
     * ht_removeElement: the pair found for key is unlinked, handed to the
     * destructor, and the size drops by one; with no such pair nothing
     * changes.
     */
    method Remove(key: K) returns (destroyed: seq<(K, V)>)
      requires Valid() && buckets.Length > 0
      modifies this, buckets
      ensures Valid() && buckets == old(buckets)
      ensures buckets[..] == Removed(old(buckets[..]), hash, Compare(), key)
      ensures size + (if old(Value(key)).Some? then 1 else 0) == old(size)
      ensures destroyed == if destructor && old(Value(key)).Some? then [old(PairOf(buckets[..], hash, Compare(), key)).value] else []
    {
      ghost var bs := buckets[..];
      RemovePlaced(bs, hash, Compare(), key);
      if IsEquality(Compare()) {
        RemoveDistinct(bs, hash, Compare(), key);
      }
      RemoveCount(bs, hash, Compare(), key);
      var index := GetBucket(key);
      var bucket := buckets[index];
      var i := Find(bucket, key, Compare());
      destroyed := [];
      if i < |bucket| {
        if destructor {
          destroyed := [bucket[i]];
        }
        buckets[index] := bucket[..i] + bucket[i + 1..];
        size := size - 1;
      }
      assert buckets[..] == Removed(bs, hash, Compare(), key);
    }

    /**
     * ht_freeTable: every pair goes to the destructor, bucket by bucket,
     * and the table is left without buckets, capacity 0 and size 0.
     */
    method Free() returns (destroyed: seq<(K, V)>)
      requires Valid()
      modifies this
      ensures Valid() && buckets.Length == 0 && size == 0
      ensures destroyed == if destructor then Flatten(old(buckets[..])) else []
    {
      destroyed := [];
      for i := 0 to buckets.Length
        invariant destroyed == if destructor then Flatten(buckets[..i]) else []
      {
        if destructor {
          assert buckets[..i + 1][..i] == buckets[..i];
          destroyed := destroyed + buckets[i];
        }
      }
      assert buckets[..buckets.Length] == buckets[..];
      buckets := new seq<(K, V)>[0];
      size := 0;
    }
  }

  /**
   * firstNonEmptyBucketIndex: the first bucket at or after offset, below
   * limit, that holds a pair; limit when there is none.
   */
  method FirstNonEmptyBucketIndex<K, V>(buckets: array<seq<(K, V)>>, offset: nat, limit: nat) returns (index: nat)
    requires offset <= limit <= buckets.Length
    ensures offset <= index <= limit
    ensures forall j | offset <= j < index :: buckets[j] == []
    ensures index < limit ==> buckets[index] != []
  {
    index := offset;
    while index < limit && |buckets[index]| == 0
      invariant offset <= index <= limit
      invariant forall j | offset <= j < index :: buckets[j] == []
    {
      index := index + 1;
    }
  }

  /**
   * ht_Iterator: the bucket being walked and the position in it (the
   * bucket's own list iterator); pos counts the pairs returned.
   */
  class HashIterator<K(==, !new), V> {
    const table: HashTable<K, V>
    var bucketIndex: nat
    var inner: nat
    ghost var pos: nat

    ghost predicate Valid()
      reads this, table, table.buckets
    {
      var bs := table.buckets[..];
      && table.Valid()
      && bucketIndex <= |bs|
      && (bucketIndex < |bs| ==> inner < |bs[bucketIndex]|)
      && pos == |Flatten(bs[..bucketIndex])| + (if bucketIndex < |bs| then inner else 0)
    }

    /** The pairs of the table in iteration order. */
    ghost function Pairs(): seq<(K, V)>
      reads table, table.buckets
    {
      Flatten(table.buckets[..])
    }

    /** ht_createIterator: positioned on the first non-empty bucket. */
    constructor (table: HashTable<K, V>)
      requires table.Valid() && table.buckets.Length > 0
      ensures this.table == table && Valid() && pos == 0
    {
      this.table := table;
      var index := FirstNonEmptyBucketIndex(table.buckets, 0, table.buckets.Length);
      bucketIndex := index;
      inner := 0;
      pos := 0;
      new;
      FlattenSkips(table.buckets[..], 0, index);
    }

    /** ht_iteratorHasNext: some pair is still to be returned. */
    method HasNext() returns (b: bool)
      requires Valid()
      ensures b == (pos < |Pairs()|)
    {
      var bs := table.buckets[..];
      if bucketIndex < |bs| {
        FlattenAt(bs, bucketIndex, inner);
      } else {
        assert bs[..bucketIndex] == bs;
      }
      b := bucketIndex < table.buckets.Length && inner < |table.buckets[bucketIndex]|;
    }

    /** ht_iteratorNext: the pairs come out bucket by bucket, each bucket in list order. */
    method Next() returns (pair: (K, V))
      requires Valid() && pos < |Pairs()|
      modifies this
      ensures Valid() && pair == Pairs()[old(pos)] && pos == old(pos) + 1
    {
      ghost var bs := table.buckets[..];
      assert bs[..|bs|] == bs;
      var bucket := table.buckets[bucketIndex];
      FlattenAt(bs, bucketIndex, inner);
      pair := bucket[inner];
      var index, next := bucketIndex, inner + 1;
      if next == |bucket| {
        index := FirstNonEmptyBucketIndex(table.buckets, bucketIndex + 1, table.buckets.Length);
        FlattenPast(bs, bucketIndex, index);
        if index < table.buckets.Length {
          next := 0;
        }
      }
      bucketIndex, inner, pos := index, next, pos + 1;
    }
  }
}
