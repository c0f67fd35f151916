/**
 * The two hash sets built on the hash table: the set of collections/set.c,
 * a table whose values are a sentinel, with a size mirror and an optional
 * copy factory used by set_union, and the older set of set.c, which is the
 * table itself hashed with ht_hashString.
 *
 * The sentinel value is the unit value `()`: a key is in the set exactly
 * when ht_getValue finds a value for it.
 */
module Sets {
  import opened Options
  import opened HashTables

  // ---------------------------------------------------------------------------
  // Specification functions
  // ---------------------------------------------------------------------------

  /** What set_union inserts for an element of s2: its copy when a copy factory is set. */
  function Copied<K>(copyFactory: Option<K -> K>, value: K): K {
    match copyFactory
    case Some(copy) => copy(value)
    case None => value
  }

  /** The values set_union inserts, in the order the iterator of s2 yields them. */
  function CopiedAll<K>(copyFactory: Option<K -> K>, values: seq<K>): (r: seq<K>)
    ensures |r| == |values|
    ensures forall i | 0 <= i < |values| :: r[i] == Copied(copyFactory, values[i])
  {
    seq(|values|, i requires 0 <= i < |values| => Copied(copyFactory, values[i]))
  }

  /** The buckets after set_insertValue of each of keys in turn. */
  function InsertAll<K(==)>(bs: seq<seq<(K, ())>>, hash: K -> nat, compare: (K, K) -> int, keys: seq<K>): (r: seq<seq<(K, ())>>)
    requires |bs| > 0
    ensures |r| == |bs|
  {
    if keys == [] then bs
    else Inserted(InsertAll(bs, hash, compare, keys[..|keys| - 1]), hash, compare, keys[|keys| - 1], ())
  }

  /** InsertAll of the first p + 1 keys inserts key p after the first p. */
  lemma InsertAllSnoc<K>(bs: seq<seq<(K, ())>>, hash: K -> nat, compare: (K, K) -> int, keys: seq<K>, p: nat,
                         before: seq<seq<(K, ())>>, after: seq<seq<(K, ())>>)
    requires |bs| > 0 && p < |keys| && before == InsertAll(bs, hash, compare, keys[..p])
    requires after == Inserted(before, hash, compare, keys[p], ())
    ensures after == InsertAll(bs, hash, compare, keys[..p + 1])
  {
    assert keys[..p + 1][..p] == keys[..p];
  }

  /** Inserting a run of keys never loses a key that was found before. */
  lemma {:induction false} InsertAllKeepsFound<K>(bs: seq<seq<(K, ())>>, hash: K -> nat, compare: (K, K) -> int, keys: seq<K>, other: K)
    requires |bs| > 0 && Get(bs, hash, compare, other).Some?
    ensures Get(InsertAll(bs, hash, compare, keys), hash, compare, other).Some?
    decreases |keys|
  {
    if keys != [] {
      var init := keys[..|keys| - 1];
      InsertAllKeepsFound(bs, hash, compare, init, other);
      InsertKeepsFound(InsertAll(bs, hash, compare, init), hash, compare, keys[|keys| - 1], (), other);
    }
  }

  /** After a run of insertions every inserted key is found, when the comparator matches it with itself. */
  lemma {:induction false} InsertAllFinds<K>(bs: seq<seq<(K, ())>>, hash: K -> nat, compare: (K, K) -> int, keys: seq<K>, i: nat)
    requires |bs| > 0 && i < |keys| && compare(keys[i], keys[i]) == 0
    ensures Get(InsertAll(bs, hash, compare, keys), hash, compare, keys[i]).Some?
    decreases |keys|
  {
    var init := keys[..|keys| - 1];
    var last := keys[|keys| - 1];
    if i == |keys| - 1 {
      InsertThenGet(InsertAll(bs, hash, compare, init), hash, compare, last, ());
    } else {
      assert init[i] == keys[i];
      InsertAllFinds(bs, hash, compare, init, i);
      InsertKeepsFound(InsertAll(bs, hash, compare, init), hash, compare, last, (), keys[i]);
    }
  }

  // ---------------------------------------------------------------------------
  // collections/set.c
  // ---------------------------------------------------------------------------

  /**
   * set_HashSet: the table, the size copied from the table after every
   * insertion, and the copy factory set_union applies to s2's elements.
   */
  class HashSet<K(==, !new)> {
    const table: HashTable<K, ()>
    var size: nat
    const copyFactory: Option<K -> K>

    ghost predicate Valid()
      reads this, table, table.buckets
    {
      table.Valid() && table.buckets.Length > 0 && size == table.size
    }

    /** set_contains: the table finds a value for the key. */
    ghost predicate Has(value: K)
      reads table, table.buckets
      requires table.buckets.Length > 0
    {
      table.Value(value).Some?
    }

    /** The elements in the order the set iterator yields them. */
    ghost function Elements(): seq<K>
      reads table, table.buckets
    {
      Keys(Flatten(table.buckets[..]))
    }

    /** set_createSet: an empty table of the given capacity. */
    constructor (capacity: nat, hash: K -> nat, comparator: Option<(K, K) -> int>, copyFactory: Option<K -> K>, destructor: bool)
      requires capacity > 0
      ensures Valid() && fresh(table) && fresh(table.buckets) && size == 0
      ensures Elements() == [] && forall v :: !Has(v)
      ensures table.hash == hash && table.keyComparator == comparator && table.destructor == destructor
      ensures this.copyFactory == copyFactory
    {
      table := new HashTable(capacity, hash, comparator, destructor);
      size := 0;
      this.copyFactory := copyFactory;
      new;
      assert forall v :: !Has(v) by {
        forall v ensures !Has(v) {
          assert table.buckets[Index(hash, v, capacity)] == [];
        }
      }
    }

    /**
     * set_insertValue: the element goes into the table with the sentinel
     * value; the size follows the table's, so it grows only for a new element.
     */
    method InsertValue(value: K)
      requires Valid()
      modifies this, table, table.buckets
      ensures Valid() && table.buckets == old(table.buckets)
      ensures table.buckets[..] == Inserted(old(table.buckets[..]), table.hash, table.Compare(), value, ())
      ensures size == old(size) + if old(Has(value)) then 0 else 1
      ensures table.Compare()(value, value) == 0 ==> Has(value)
      ensures forall v | old(Has(v)) :: Has(v)
    {
      ghost var bs := table.buckets[..];
      table.Insert(value, ());
      size := table.size;
      if table.Compare()(value, value) == 0 {
        InsertThenGet(bs, table.hash, table.Compare(), value, ());
      }
      forall v | Get(bs, table.hash, table.Compare(), v).Some?
        ensures Has(v)
      {
        InsertKeepsFound(bs, table.hash, table.Compare(), value, (), v);
      }
    }

    /** set_contains. */
    method Contains(value: K) returns (b: bool)
      requires Valid()
      ensures b == Has(value)
    {
      var r := table.GetValue(value);
      b := r.Some?;
    }

    /**
     * set_union: every element of s2, or its copy, is inserted into this
     * set in s2's iteration order; an empty s2 changes nothing.
     */
    method Union(s2: HashSet<K>)
      requires Valid() && s2.Valid() && copyFactory == s2.copyFactory
      requires table != s2.table && table.buckets != s2.table.buckets
      modifies this, table, table.buckets
      ensures Valid() && table.buckets == old(table.buckets)
      ensures table.buckets[..] == InsertAll(old(table.buckets[..]), table.hash, table.Compare(), CopiedAll(copyFactory, old(s2.Elements())))
      ensures s2.Elements() == old(s2.Elements())
    {
      if s2.table.size == 0 {
        assert s2.Elements() == [];
        return;
      }
      ghost var bs := table.buckets[..];
      ghost var elements := s2.Elements();
      ghost var values := CopiedAll(copyFactory, elements);
      var it := new SetIterator(s2);
      var more := it.HasNext();
      while more
        invariant Valid() && table.buckets == old(table.buckets)
        invariant fresh(it.inner) && it.Valid() && it.owner == s2 && s2.Elements() == elements
        invariant it.Pos() <= |values| && more == (it.Pos() < |values|)
        invariant table.buckets[..] == InsertAll(bs, table.hash, table.Compare(), values[..it.Pos()])
        decreases |values| - it.Pos()
      {
        more := UnionTurn(s2, it, bs, elements, values);
      }
      assert values[..|values|] == values;
    }

    /** One turn of set_union's loop, with the test that ends it. */
    method UnionTurn(s2: HashSet<K>, it: SetIterator<K>, ghost bs: seq<seq<(K, ())>>, ghost elements: seq<K>, ghost values: seq<K>) returns (more: bool)
      requires Valid() && it.Valid() && it.owner == s2 && this != s2 && table != s2.table && table.buckets != s2.table.buckets
      requires |bs| > 0 && s2.Elements() == elements && values == CopiedAll(copyFactory, elements) && it.Pos() < |values|
      requires table.buckets[..] == InsertAll(bs, table.hash, table.Compare(), values[..it.Pos()])
      modifies this, table, table.buckets, it.inner
      ensures Valid() && table.buckets == old(table.buckets) && it.Valid() && s2.Elements() == elements
      ensures it.Pos() == old(it.Pos()) + 1 && more == (it.Pos() < |values|)
      ensures table.buckets[..] == InsertAll(bs, table.hash, table.Compare(), values[..it.Pos()])
    {
      UnionStep(s2, it, bs, elements, values);
      more := it.HasNext();
    }

    /** The body of set_union's loop: the next element of s2, or its copy, is inserted. */
    method UnionStep(s2: HashSet<K>, it: SetIterator<K>, ghost bs: seq<seq<(K, ())>>, ghost elements: seq<K>, ghost values: seq<K>)
      requires Valid() && it.Valid() && it.owner == s2 && this != s2 && table != s2.table && table.buckets != s2.table.buckets
      requires |bs| > 0 && s2.Elements() == elements && values == CopiedAll(copyFactory, elements) && it.Pos() < |values|
      requires table.buckets[..] == InsertAll(bs, table.hash, table.Compare(), values[..it.Pos()])
      modifies this, table, table.buckets, it.inner
      ensures Valid() && table.buckets == old(table.buckets) && it.Valid() && s2.Elements() == elements
      ensures it.Pos() == old(it.Pos()) + 1
      ensures table.buckets[..] == InsertAll(bs, table.hash, table.Compare(), values[..it.Pos()])
    {
      ghost var p, before := it.Pos(), table.buckets[..];
      var value := it.Next();
      InsertCopy(value);
      InsertAllSnoc(bs, table.hash, table.Compare(), values, p, before, table.buckets[..]);
    }

    /** The insertion set_union makes for one element of s2. */
    method InsertCopy(value: K)
      requires Valid()
      modifies this, table, table.buckets
      ensures Valid() && table.buckets == old(table.buckets)
      ensures table.buckets[..] == Inserted(old(table.buckets[..]), table.hash, table.Compare(), Copied(copyFactory, value), ())
    {
      if copyFactory.Some? {
        var copy := copyFactory.value(value);
        InsertValue(copy);
      } else {
        InsertValue(value);
      }
    }
  }

  /** set_Iterator: the table iterator of the set, handing out keys. */
  class SetIterator<K(==, !new)> {
    const owner: HashSet<K>
    const inner: HashIterator<K, ()>

    ghost predicate Valid()
      reads this, owner, owner.table, owner.table.buckets, inner
    {
      owner.Valid() && inner.table == owner.table && inner.Valid()
    }

    /** The number of elements handed out. */
    ghost function Pos(): nat
      reads inner
    {
      inner.pos
    }

    /** set_createIterator. */
    constructor (owner: HashSet<K>)
      requires owner.Valid()
      ensures Valid() && this.owner == owner && fresh(inner) && Pos() == 0
    {
      this.owner := owner;
      inner := new HashIterator(owner.table);
    }

    /** set_iteratorHasNext: some element is still to be handed out. */
    method HasNext() returns (b: bool)
      requires Valid()
      ensures b == (Pos() < |owner.Elements()|)
    {
      b := inner.HasNext();
    }

    /** set_iteratorNext: the key of the table iterator's next pair. */
    method Next() returns (value: K)
      requires Valid() && Pos() < |owner.Elements()|
      modifies inner
      ensures Valid() && value == owner.Elements()[old(Pos())] && Pos() == old(Pos()) + 1
    {
      var pair := inner.Next();
      value := pair.0;
    }
  }

  /** After a union, every element of s2, or its copy, is in s1, when the comparator matches it with itself. */
  lemma UnionContains<K>(bs: seq<seq<(K, ())>>, hash: K -> nat, compare: (K, K) -> int, copyFactory: Option<K -> K>, elements: seq<K>, i: nat)
    requires |bs| > 0 && i < |elements|
    requires var c := Copied(copyFactory, elements[i]); compare(c, c) == 0
    ensures Get(InsertAll(bs, hash, compare, CopiedAll(copyFactory, elements)), hash, compare, Copied(copyFactory, elements[i])).Some?
  {
    InsertAllFinds(bs, hash, compare, CopiedAll(copyFactory, elements), i);
  }

  /** A union keeps every element s1 already held. */
  lemma UnionKeeps<K>(bs: seq<seq<(K, ())>>, hash: K -> nat, compare: (K, K) -> int, copyFactory: Option<K -> K>, elements: seq<K>, other: K)
    requires |bs| > 0 && Get(bs, hash, compare, other).Some?
    ensures Get(InsertAll(bs, hash, compare, CopiedAll(copyFactory, elements)), hash, compare, other).Some?
  {
    InsertAllKeepsFound(bs, hash, compare, CopiedAll(copyFactory, elements), other);
  }

  // ---------------------------------------------------------------------------
  // set.c: the older set is the table itself
  // ---------------------------------------------------------------------------

  /** ht_hashString as a table hash function. */
  function StringHash(s: string): nat {
    OneAtATime(s) as nat
  }

  /** set_createSet of table.c: a table hashed with ht_hashString. */
  method CreateStringSet(capacity: nat, comparator: Option<(string, string) -> int>, destructor: bool) returns (table: HashTable<string, ()>)
    ensures fresh(table) && fresh(table.buckets) && table.Valid()
    ensures table.buckets.Length == capacity && table.size == 0
    ensures table.hash == StringHash && table.keyComparator == comparator && table.destructor == destructor
  {
    table := new HashTable(capacity, StringHash, comparator, destructor);
  }

  /** set_insertValue of table.c: insert with the sentinel; a second insertion adds no entry. */
  method StringSetInsert(table: HashTable<string, ()>, value: string)
    requires table.Valid() && table.buckets.Length > 0
    modifies table, table.buckets
    ensures table.Valid() && table.buckets == old(table.buckets)
    ensures table.buckets[..] == Inserted(old(table.buckets[..]), table.hash, table.Compare(), value, ())
    ensures table.size == old(table.size) + if old(table.Value(value)).Some? then 0 else 1
    ensures table.Compare()(value, value) == 0 ==> table.Value(value).Some?
  {
    ghost var bs := table.buckets[..];
    table.Insert(value, ());
    if table.Compare()(value, value) == 0 {
      InsertThenGet(bs, table.hash, table.Compare(), value, ());
    }
  }

  /** set_contains of table.c. */
  method StringSetContains(table: HashTable<string, ()>, value: string) returns (b: bool)
    requires table.Valid() && table.buckets.Length > 0
    ensures b == table.Value(value).Some?
  {
    var r := table.GetValue(value);
    b := r.Some?;
  }
}
