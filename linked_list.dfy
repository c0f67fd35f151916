/**
 * The singly linked list of collections/linked_list.c (and its older copy,
 * linked_list.c): nodes holding a data pointer and a next pointer, a list
 * header with front, back and size, and an iterator that keeps the current
 * node and the address of the field pointing to it (pEntry), so that it can
 * splice a node in at the cursor.
 *
 * Memory is an arena: every node ever allocated for the list is an entry of
 * `nodes`, its index is its address, and NIL is NULL. A node that is
 * unlinked stays in the arena (freed memory is never reused here). The
 * order of the list is a ghost `chain`: the addresses reached from front.
 */
module LinkedLists {
  import opened Options

  /** NULL. */
  const NIL: int := -1

  /** ll_LinkedListItem: data and the address of the next node. */
  datatype Node<T> = Node(data: T, next: int)

  /** The list header and the arena its nodes live in. */
  datatype ListState<T> = ListState(nodes: seq<Node<T>>, front: int, back: int, size: nat)

  /** What an iterator's pEntry points to: the header's front field, or a node's next field. */
  datatype Entry = FrontField | NextField(node: nat)

  /** ll_Iterator without its list: the current node and pEntry. */
  datatype Cursor = Cursor(current: int, entry: Entry)

  function First(chain: seq<nat>): int { if chain == [] then NIL else chain[0] }
  function Last(chain: seq<nat>): int { if chain == [] then NIL else chain[|chain| - 1] }

  /**
   * chain lists, in order and each once, the nodes reached from front, the
   * last one's next being NULL.
   */
  ghost predicate Linked<T>(s: ListState<T>, chain: seq<nat>) {
    && (forall i | 0 <= i < |chain| :: chain[i] < |s.nodes|)
    && (forall i, j | 0 <= i < j < |chain| :: chain[i] != chain[j])
    && s.front == First(chain)
    && (forall i | 0 <= i < |chain| :: s.nodes[chain[i]].next == if i + 1 < |chain| then chain[i + 1] else NIL)
  }

  /** A well-formed list: linked along chain, back the last node, size its length. */
  ghost predicate WellFormed<T>(s: ListState<T>, chain: seq<nat>) {
    Linked(s, chain) && s.back == Last(chain) && s.size == |chain|
  }

  /** The data of the list, front to back. */
  function Contents<T>(s: ListState<T>, chain: seq<nat>): (xs: seq<T>)
    requires forall i | 0 <= i < |chain| :: chain[i] < |s.nodes|
    ensures |xs| == |chain|
  {
    seq(|chain|, i requires 0 <= i < |chain| => s.nodes[chain[i]].data)
  }

  /** The field that points to the k-th node: front for k = 0, else the (k-1)-th node's next. */
  function EntryAt(chain: seq<nat>, k: nat): Entry
    requires k <= |chain|
  {
    if k == 0 then FrontField else NextField(chain[k - 1])
  }

  /** The k-th node, or NULL past the end. */
  function At(chain: seq<nat>, k: nat): int {
    if k < |chain| then chain[k] else NIL
  }

  /** The cursor has returned the first k elements: pEntry points to the k-th node, which is current. */
  ghost predicate CursorAt(chain: seq<nat>, c: Cursor, k: nat) {
    k <= |chain| && c.entry == EntryAt(chain, k) && c.current == At(chain, k)
  }

  /**
   * The cursor right after ll_iteratorInsert: current is the k-th node, the
   * one just inserted, and pEntry is already that node's next field.
   */
  ghost predicate Pending(chain: seq<nat>, c: Cursor, k: nat) {
    k < |chain| && c.entry == NextField(chain[k]) && c.current == chain[k]
  }

  /** The data met walking next pointers from address at, for at most fuel nodes. */
  function Reach<T>(nodes: seq<Node<T>>, at: int, fuel: nat): seq<T>
    decreases fuel
  {
    if fuel == 0 || !(0 <= at < |nodes|) then [] else [nodes[at].data] + Reach(nodes, nodes[at].next, fuel - 1)
  }

  // ---------------------------------------------------------------------------
  // The pointer updates
  // ---------------------------------------------------------------------------

  /** An address of the arena, or NULL. */
  predicate IsAddr<T>(s: ListState<T>, p: int) { p == NIL || 0 <= p < |s.nodes| }

  /** An entry that exists in the arena. */
  predicate IsEntry<T>(s: ListState<T>, e: Entry) { e.NextField? ==> e.node < |s.nodes| }

  /** *pEntry */
  function Deref<T>(s: ListState<T>, e: Entry): int
    requires IsEntry(s, e)
  {
    match e
    case FrontField => s.front
    case NextField(n) => s.nodes[n].next
  }

  /** *pEntry = v */
  function Assign<T>(s: ListState<T>, e: Entry, v: int): ListState<T>
    requires IsEntry(s, e)
  {
    match e
    case FrontField => s.(front := v)
    case NextField(n) => s.(nodes := s.nodes[n := s.nodes[n].(next := v)])
  }

  /** ll_pushBack: a new node after back, or as the only node of an empty list. */
  function Pushed<T>(s: ListState<T>, x: T): ListState<T>
    requires IsAddr(s, s.back)
  {
    var n := |s.nodes|;
    var nodes := s.nodes + [Node(x, NIL)];
    if s.back != NIL then ListState(nodes[s.back := nodes[s.back].(next := n)], s.front, n, s.size + 1)
    else ListState(nodes, n, n, s.size + 1)
  }

  /** ll_iteratorNext: the current node's data; pEntry moves to its next field. */
  function Advanced<T>(s: ListState<T>, c: Cursor): (T, Cursor)
    requires 0 <= c.current < |s.nodes|
  {
    (s.nodes[c.current].data, Cursor(s.nodes[c.current].next, NextField(c.current)))
  }

  /**
   * ll_iteratorInsert as written: the new node goes where pEntry points,
   * before the current node, and the size grows by one; back is never
   * updated. The iterator is left at the new node, pEntry at its next field.
   */
  function InsertedAsWritten<T>(s: ListState<T>, e: Entry, x: T): ListState<T>
    requires IsEntry(s, e)
  {
    var n := |s.nodes|;
    var s' := Assign(s.(nodes := s.nodes + [Node(x, Deref(s, e))]), e, n);
    s'.(size := s.size + 1)
  }

  /** ll_iteratorInsert corrected: as written, and back moves to the new node when it is the last one. */
  function Inserted<T>(s: ListState<T>, e: Entry, x: T): ListState<T>
    requires IsEntry(s, e)
  {
    var s' := InsertedAsWritten(s, e, x);
    if Deref(s, e) == NIL then s'.(back := |s.nodes|) else s'
  }

  /**
   * The unlinking of ll_removeItem, with prev the node before cur (or NULL):
   * prev's next skips cur, front moves on when cur is the front, back falls
   * back to prev when cur is the back.
   */
  function Unlinked<T>(s: ListState<T>, prev: int, cur: nat): ListState<T>
    requires IsAddr(s, prev) && cur < |s.nodes| && s.size > 0
  {
    var nodes := if prev != NIL then s.nodes[prev := s.nodes[prev].(next := s.nodes[cur].next)] else s.nodes;
    var front := if cur == s.front then s.nodes[cur].next else s.front;
    var back := if cur == s.back then prev else s.back;
    ListState(nodes, front, back, s.size - 1)
  }

  // ---------------------------------------------------------------------------
  // Properties of the pointer updates
  // ---------------------------------------------------------------------------

  /** An empty list: front and back NULL, size 0. */
  lemma EmptyWellFormed<T>(nodes: seq<Node<T>>)
    ensures WellFormed(ListState(nodes, NIL, NIL, 0), [])
    ensures Contents(ListState(nodes, NIL, NIL, 0), []) == []
  {
  }

  /** ll_pushBack appends: the contents become old ++ [x], the list stays well formed. */
  lemma PushBackAppends<T>(s: ListState<T>, chain: seq<nat>, x: T)
    requires WellFormed(s, chain)
    ensures IsAddr(s, s.back)
    ensures var s' := Pushed(s, x);
            && WellFormed(s', chain + [|s.nodes|])
            && Contents(s', chain + [|s.nodes|]) == Contents(s, chain) + [x]
  {
    var n := |s.nodes|;
    var s' := Pushed(s, x);
    var chain' := chain + [n];
    forall i | 0 <= i < |chain'|
      ensures s'.nodes[chain'[i]].next == if i + 1 < |chain'| then chain'[i + 1] else NIL
      ensures s'.nodes[chain'[i]].data == if i < |chain| then s.nodes[chain[i]].data else x
    {
      if i < |chain| - 1 {
        assert chain[i] != chain[|chain| - 1];
      }
    }
  }

  /** ll_iteratorNext with the k-th node current: it returns the k-th element and the cursor has returned k + 1. */
  lemma NextReturns<T>(s: ListState<T>, chain: seq<nat>, c: Cursor, k: nat)
    requires Linked(s, chain) && k < |chain| && c.current == chain[k]
    ensures 0 <= c.current < |s.nodes|
    ensures Advanced(s, c).0 == Contents(s, chain)[k] && CursorAt(chain, Advanced(s, c).1, k + 1)
  {
  }

  /** The field pointing to the k-th node exists in the arena and holds the k-th node's address. */
  lemma EntryPoints<T>(s: ListState<T>, chain: seq<nat>, k: nat)
    requires Linked(s, chain) && k <= |chain|
    ensures IsEntry(s, EntryAt(chain, k)) && Deref(s, EntryAt(chain, k)) == At(chain, k)
  {
  }

  /** The chain with node n placed at position k. */
  function Splice(chain: seq<nat>, k: nat, n: nat): (r: seq<nat>)
    requires k <= |chain|
    ensures |r| == |chain| + 1
    ensures forall i | 0 <= i < |r| :: r[i] == if i < k then chain[i] else if i == k then n else chain[i - 1]
  {
    chain[..k] + [n] + chain[k..]
  }

  /** What ll_iteratorInsert does to memory: one new node, and the field pEntry points to. */
  lemma InsertAsWrittenWrites<T>(s: ListState<T>, e: Entry, x: T)
    requires IsEntry(s, e)
    ensures var s' := InsertedAsWritten(s, e, x);
            && |s'.nodes| == |s.nodes| + 1
            && s'.nodes[|s.nodes|] == Node(x, Deref(s, e))
            && (forall p | 0 <= p < |s.nodes| :: s'.nodes[p] == if e == NextField(p) then s.nodes[p].(next := |s.nodes|) else s.nodes[p])
            && s'.front == (if e == FrontField then |s.nodes| else s.front)
            && s'.back == s.back && s'.size == s.size + 1
  {
  }

  /** The i-th node of the spliced chain links to the (i+1)-th. */
  lemma SplicedNode<T>(s: ListState<T>, chain: seq<nat>, e: Entry, k: nat, x: T, i: nat)
    requires WellFormed(s, chain) && k <= |chain| && e == EntryAt(chain, k) && i <= |chain|
    ensures IsEntry(s, e)
    ensures var s' := InsertedAsWritten(s, e, x);
            var chain' := Splice(chain, k, |s.nodes|);
            && chain'[i] < |s'.nodes|
            && s'.nodes[chain'[i]].next == (if i < |chain| then chain'[i + 1] else NIL)
  {
    InsertAsWrittenWrites(s, e, x);
    var n := |s.nodes|;
    var chain' := Splice(chain, k, n);
    if i < k {
      assert chain'[i] == chain[i];
      if i < k - 1 {
        assert chain[i] != chain[k - 1];
        assert chain'[i + 1] == chain[i + 1];
      }
    } else if i == k {
      assert chain'[i] == n;
      EntryPoints(s, chain, k);
    } else {
      var p := chain[i - 1];
      assert chain'[i] == p;
      if k > 0 {
        assert p != chain[k - 1];
      }
      assert e != NextField(p);
      assert s.nodes[p].next == if i < |chain| then chain[i] else NIL;
      if i < |chain| {
        assert chain'[i + 1] == chain[i];
      }
    }
  }

  /** The i-th node of the spliced chain holds the old data, with x at position k. */
  lemma SplicedData<T>(s: ListState<T>, chain: seq<nat>, e: Entry, k: nat, x: T, i: nat)
    requires WellFormed(s, chain) && k <= |chain| && e == EntryAt(chain, k) && i <= |chain|
    ensures IsEntry(s, e)
    ensures var s' := InsertedAsWritten(s, e, x);
            var chain' := Splice(chain, k, |s.nodes|);
            && chain'[i] < |s'.nodes|
            && s'.nodes[chain'[i]].data == (if i < k then s.nodes[chain[i]].data else if i == k then x else s.nodes[chain[i - 1]].data)
  {
    InsertAsWrittenWrites(s, e, x);
    var chain' := Splice(chain, k, |s.nodes|);
    if i < k {
      assert chain'[i] == chain[i];
    } else if i == k {
      assert chain'[i] == |s.nodes|;
    } else {
      assert chain'[i] == chain[i - 1];
    }
  }

  /** After ll_iteratorInsert the arena is linked along the spliced chain. */
  lemma SplicedLinked<T>(s: ListState<T>, chain: seq<nat>, e: Entry, k: nat, x: T)
    requires WellFormed(s, chain) && k <= |chain| && e == EntryAt(chain, k)
    ensures IsEntry(s, e)
    ensures Linked(InsertedAsWritten(s, e, x), Splice(chain, k, |s.nodes|))
  {
    var n := |s.nodes|;
    var s' := InsertedAsWritten(s, e, x);
    var chain' := Splice(chain, k, n);
    InsertAsWrittenWrites(s, e, x);
    forall i | 0 <= i < |chain'|
      ensures chain'[i] < |s'.nodes|
      ensures s'.nodes[chain'[i]].next == if i + 1 < |chain'| then chain'[i + 1] else NIL
    {
      SplicedNode(s, chain, e, k, x, i);
    }
    forall i, j | 0 <= i < j < |chain'|
      ensures chain'[i] != chain'[j]
    {
    }
    assert s'.front == First(chain');
    assert Linked(s', chain');
  }

  /** After ll_iteratorInsert the data along the spliced chain is the old data with x at position k. */
  lemma SplicedContents<T>(s: ListState<T>, chain: seq<nat>, e: Entry, k: nat, x: T)
    requires WellFormed(s, chain) && k <= |chain| && e == EntryAt(chain, k)
    ensures IsEntry(s, e)
    ensures forall i | 0 <= i <= |chain| :: Splice(chain, k, |s.nodes|)[i] < |InsertedAsWritten(s, e, x).nodes|
    ensures Contents(InsertedAsWritten(s, e, x), Splice(chain, k, |s.nodes|)) == Contents(s, chain)[..k] + [x] + Contents(s, chain)[k..]
  {
    var n := |s.nodes|;
    var s' := InsertedAsWritten(s, e, x);
    var chain' := Splice(chain, k, n);
    var cs := Contents(s, chain);
    var want := cs[..k] + [x] + cs[k..];
    forall i | 0 <= i < |chain'|
      ensures chain'[i] < |s'.nodes|
      ensures s'.nodes[chain'[i]].data == want[i]
    {
      SplicedData(s, chain, e, k, x, i);
    }
  }

  /**
   * The splice of ll_iteratorInsert, as written: the new node sits at the
   * cursor, the list is linked in the new order with the size one more, and
   * the next ll_iteratorNext returns the new element; back is right exactly
   * when the cursor was not at the end.
   */
  lemma InsertAsWrittenSplices<T>(s: ListState<T>, chain: seq<nat>, e: Entry, k: nat, x: T)
    requires WellFormed(s, chain) && k <= |chain| && e == EntryAt(chain, k)
    ensures IsEntry(s, e)
    ensures var s' := InsertedAsWritten(s, e, x);
            var c' := Cursor(|s.nodes|, NextField(|s.nodes|));
            var chain' := Splice(chain, k, |s.nodes|);
            && Linked(s', chain') && s'.size == |chain'|
            && Contents(s', chain') == Contents(s, chain)[..k] + [x] + Contents(s, chain)[k..]
            && |s.nodes| < |s'.nodes|
            && Pending(chain', c', k) && Advanced(s', c').0 == x
            && (s'.back == Last(chain') <==> k < |chain|)
  {
    SplicedLinked(s, chain, e, k, x);
    SplicedContents(s, chain, e, k, x);
    InsertAsWrittenWrites(s, e, x);
    var chain' := Splice(chain, k, |s.nodes|);
    assert k < |chain| ==> Last(chain') == chain[|chain| - 1];
  }

  /**
   * ll_iteratorInsert corrected: the same splice, and the list stays well
   * formed wherever the cursor is.
   */
  lemma InsertSplices<T>(s: ListState<T>, chain: seq<nat>, e: Entry, k: nat, x: T)
    requires WellFormed(s, chain) && k <= |chain| && e == EntryAt(chain, k)
    ensures IsEntry(s, e)
    ensures var s' := Inserted(s, e, x);
            var c' := Cursor(|s.nodes|, NextField(|s.nodes|));
            var chain' := Splice(chain, k, |s.nodes|);
            && WellFormed(s', chain')
            && Contents(s', chain') == Contents(s, chain)[..k] + [x] + Contents(s, chain)[k..]
            && |s.nodes| < |s'.nodes|
            && Pending(chain', c', k) && Advanced(s', c').0 == x
  {
    InsertAsWrittenSplices(s, chain, e, k, x);
    EntryPoints(s, chain, k);
  }

  /**
   * The stale back at work: in a one-element list, after one
   * ll_iteratorNext, ll_iteratorInsert as written then ll_pushBack leave a
   * list of size 3 whose nodes, walked from front, are only the first and
   * the pushed one: the inserted node has been cut off. The corrected insert
   * keeps all three.
   */
  lemma StaleBackDropsInserted<T>(a: T, b: T, d: T)
    ensures var s1 := Pushed(ListState([], NIL, NIL, 0), a);
            var c := Advanced(s1, Cursor(s1.front, FrontField)).1;
            var s3 := Pushed(InsertedAsWritten(s1, c.entry, b), d);
            s3.size == 3 && Reach(s3.nodes, s3.front, 3) == [a, d]
    ensures var s1 := Pushed(ListState([], NIL, NIL, 0), a);
            var c := Advanced(s1, Cursor(s1.front, FrontField)).1;
            var s3 := Pushed(Inserted(s1, c.entry, b), d);
            s3.size == 3 && Reach(s3.nodes, s3.front, 3) == [a, b, d]
  {
    var s1 := Pushed(ListState([], NIL, NIL, 0), a);
    assert s1 == ListState([Node(a, NIL)], 0, 0, 1);
    var c := Advanced(s1, Cursor(s1.front, FrontField)).1;
    assert c == Cursor(NIL, NextField(0));
    var s2 := InsertedAsWritten(s1, c.entry, b);
    assert s2 == ListState([Node(a, 1), Node(b, NIL)], 0, 0, 2);
    var s3 := Pushed(s2, d);
    assert s3 == ListState([Node(a, 2), Node(b, NIL), Node(d, NIL)], 0, 2, 3);
    assert Reach(s3.nodes, 2, 1) == [d];
    var t2 := Inserted(s1, c.entry, b);
    assert t2 == ListState([Node(a, 1), Node(b, NIL)], 0, 1, 2);
    var t3 := Pushed(t2, d);
    assert t3 == ListState([Node(a, 1), Node(b, 2), Node(d, NIL)], 0, 2, 3);
    assert Reach(t3.nodes, 2, 1) == [d];
    assert Reach(t3.nodes, 1, 2) == [b, d];
  }

  /** The node before the k-th one, or NULL for the front. */
  function Prev(chain: seq<nat>, k: nat): int
    requires k <= |chain|
  {
    if k == 0 then NIL else chain[k - 1]
  }

  /** The chain without its k-th node. */
  function Drop(chain: seq<nat>, k: nat): (r: seq<nat>)
    requires k < |chain|
    ensures |r| == |chain| - 1
    ensures forall i | 0 <= i < |r| :: r[i] == if i < k then chain[i] else chain[i + 1]
  {
    chain[..k] + chain[k + 1..]
  }

  /** The j-th node of a linked chain points to the (j+1)-th, or to NULL at the end. */
  lemma LinkedNext<T>(s: ListState<T>, chain: seq<nat>, j: nat)
    requires Linked(s, chain) && j < |chain|
    ensures chain[j] < |s.nodes| && s.nodes[chain[j]].next == At(chain, j + 1)
  {
  }

  /** Walking on from the k-th node: its next field leads to node k + 1, and its data extends the prefix. */
  lemma WalkStep<T>(s: ListState<T>, chain: seq<nat>, k: nat)
    requires WellFormed(s, chain) && k < |chain|
    ensures chain[k] < |s.nodes| && s.nodes[chain[k]].next == At(chain, k + 1)
    ensures Contents(s, chain)[..k + 1] == Contents(s, chain)[..k] + [s.nodes[chain[k]].data]
  {
    LinkedNext(s, chain, k);
  }

  /** The unlinking only rewrites a next field: every node keeps its data. */
  lemma UnlinkedKeepsData<T>(s: ListState<T>, prev: int, cur: nat, p: nat)
    requires IsAddr(s, prev) && cur < |s.nodes| && s.size > 0 && p < |s.nodes|
    ensures |Unlinked(s, prev, cur).nodes| == |s.nodes|
    ensures Unlinked(s, prev, cur).nodes[p].data == s.nodes[p].data
  {
  }

  /** The i-th node of the shortened chain links to the (i+1)-th. */
  lemma UnlinkedNode<T>(s: ListState<T>, chain: seq<nat>, k: nat, i: nat)
    requires WellFormed(s, chain) && k < |chain| && i < |chain| - 1
    ensures var s' := Unlinked(s, Prev(chain, k), chain[k]);
            var chain' := Drop(chain, k);
            && chain'[i] < |s'.nodes|
            && s'.nodes[chain'[i]].next == (if i + 1 < |chain'| then chain'[i + 1] else NIL)
  {
    var s' := Unlinked(s, Prev(chain, k), chain[k]);
    var chain' := Drop(chain, k);
    LinkedNext(s, chain, k);
    if i + 1 < k {
      assert chain'[i] == chain[i] && chain'[i + 1] == chain[i + 1];
      assert chain[i] != chain[k - 1];
      assert s.nodes[chain[i]].next == chain[i + 1];
    } else if i + 1 == k {
      assert chain'[i] == chain[k - 1];
      if k + 1 < |chain| {
        assert chain'[i + 1] == chain[k + 1];
      }
    } else {
      var p := chain[i + 1];
      assert chain'[i] == p;
      if k > 0 {
        assert p != chain[k - 1];
      }
      LinkedNext(s, chain, i + 1);
      if i + 1 < |chain'| {
        assert chain'[i + 1] == chain[i + 2];
      }
    }
  }

  /** ll_removeItem's unlinking of the k-th node leaves the list linked along the shortened chain. */
  lemma UnlinkedLinked<T>(s: ListState<T>, chain: seq<nat>, k: nat)
    requires WellFormed(s, chain) && k < |chain|
    ensures IsAddr(s, Prev(chain, k)) && s.size > 0
    ensures Linked(Unlinked(s, Prev(chain, k), chain[k]), Drop(chain, k))
  {
    var s' := Unlinked(s, Prev(chain, k), chain[k]);
    var chain' := Drop(chain, k);
    forall i | 0 <= i < |chain'|
      ensures chain'[i] < |s'.nodes|
      ensures s'.nodes[chain'[i]].next == if i + 1 < |chain'| then chain'[i + 1] else NIL
    {
      UnlinkedNode(s, chain, k, i);
    }
    forall i, j | 0 <= i < j < |chain'|
      ensures chain'[i] != chain'[j]
    {
    }
    assert s.nodes[chain[k]].next == At(chain, k + 1);
    if k > 0 {
      assert chain[k] != chain[0];
    }
    assert s'.front == First(chain');
    assert Linked(s', chain');
  }

  /** After the unlinking, back is the last node of the shortened chain and size its length. */
  lemma UnlinkedBack<T>(s: ListState<T>, chain: seq<nat>, k: nat)
    requires WellFormed(s, chain) && k < |chain|
    ensures IsAddr(s, Prev(chain, k)) && s.size > 0
    ensures var s' := Unlinked(s, Prev(chain, k), chain[k]);
            s'.back == Last(Drop(chain, k)) && s'.size == |Drop(chain, k)|
  {
    if k + 1 < |chain| {
      assert chain[k] != chain[|chain| - 1];
      assert Drop(chain, k)[|chain| - 2] == chain[|chain| - 1];
    } else if k > 0 {
      assert Drop(chain, k)[k - 1] == chain[k - 1];
    }
  }

  /** The data along the shortened chain is the old data without the k-th element. */
  lemma UnlinkedContents<T>(s: ListState<T>, chain: seq<nat>, k: nat)
    requires WellFormed(s, chain) && k < |chain|
    ensures IsAddr(s, Prev(chain, k)) && s.size > 0
    ensures var s' := Unlinked(s, Prev(chain, k), chain[k]);
            && (forall i | 0 <= i < |Drop(chain, k)| :: Drop(chain, k)[i] < |s'.nodes|)
            && Contents(s', Drop(chain, k)) == Contents(s, chain)[..k] + Contents(s, chain)[k + 1..]
  {
    var s' := Unlinked(s, Prev(chain, k), chain[k]);
    var chain' := Drop(chain, k);
    var cs := Contents(s, chain);
    var want := cs[..k] + cs[k + 1..];
    forall i | 0 <= i < |chain'|
      ensures chain'[i] < |s'.nodes|
      ensures s'.nodes[chain'[i]].data == want[i]
    {
      UnlinkedKeepsData(s, Prev(chain, k), chain[k], chain'[i]);
    }
  }

  /**
   * ll_removeItem's unlinking of the k-th node keeps the list well formed,
   * with the k-th element gone and the others in order.
   */
  lemma UnlinkRemoves<T>(s: ListState<T>, chain: seq<nat>, k: nat)
    requires WellFormed(s, chain) && k < |chain|
    ensures IsAddr(s, Prev(chain, k)) && s.size > 0
    ensures var s' := Unlinked(s, Prev(chain, k), chain[k]);
            && WellFormed(s', Drop(chain, k))
            && Contents(s', Drop(chain, k)) == Contents(s, chain)[..k] + Contents(s, chain)[k + 1..]
  {
    UnlinkedLinked(s, chain, k);
    UnlinkedBack(s, chain, k);
    UnlinkedContents(s, chain, k);
  }

  // ---------------------------------------------------------------------------
  // Matching, as ll_findItem and ll_removeItem do it
  // ---------------------------------------------------------------------------

  /** A comparator result of 0 is a match; with no comparator the pointers are compared. */
  predicate Matches<T(==)>(query: T, v: T, cmp: Option<(T, T) -> int>) {
    match cmp
    case Some(f) => f(query, v) == 0
    case None => query == v
  }

  /** The position of the first element matching query, or |xs| when none does. */
  function FirstMatch<T(==)>(xs: seq<T>, query: T, cmp: Option<(T, T) -> int>): (i: nat)
    ensures i <= |xs|
    ensures forall j | 0 <= j < i :: !Matches(query, xs[j], cmp)
    ensures i < |xs| ==> Matches(query, xs[i], cmp)
  {
    if xs == [] then 0
    else if Matches(query, xs[0], cmp) then 0
    else 1 + FirstMatch(xs[1..], query, cmp)
  }

  /** The comparator returns 0 on each of the first n pairs of elements at the same position. */
  predicate PairsAgree<T>(xs: seq<T>, ys: seq<T>, cmp: (T, T) -> int, n: nat)
    requires n <= |xs| && n <= |ys|
  {
    forall i | 0 <= i < n :: cmp(xs[i], ys[i]) == 0
  }

  // ---------------------------------------------------------------------------
  // The list and its iterator
  // ---------------------------------------------------------------------------

  /**
   * ll_LinkedList. Nodes are never reused once unlinked; destructor says
   * whether a destructor was given at creation.
   */
  class LinkedList<T(==)> {
    var nodes: seq<Node<T>>
    var front: int
    var back: int
    var size: nat
    const destructor: bool
    ghost var chain: seq<nat>

    function State(): ListState<T>
      reads this
    {
      ListState(nodes, front, back, size)
    }

    ghost predicate Valid()
      reads this
    {
      WellFormed(State(), chain)
    }

    /** The elements, front to back. */
    ghost function Items(): seq<T>
      reads this
      requires Valid()
    {
      Contents(State(), chain)
    }

    /** ll_createLinkedList: an empty list of size 0. */
    constructor (destructor: bool)
      ensures Valid() && Items() == [] && size == 0 && front == NIL && back == NIL
      ensures this.destructor == destructor
    {
      nodes := [];
      front, back, size := NIL, NIL, 0;
      this.destructor := destructor;
      chain := [];
    }

    /**
     * ll_freeLinkedList with the destructor passed in (the older list) or
     * taken from the list: every element goes to the destructor, front to
     * back, and the list is left empty.
     */
    method FreeWith(destroy: bool) returns (destroyed: seq<T>)
      requires Valid()
      modifies this
      ensures Valid() && Items() == [] && size == 0 && front == NIL && back == NIL
      ensures destroyed == if destroy then old(Items()) else []
      ensures nodes == old(nodes)
    {
      var current := front;
      ghost var k := 0;
      destroyed := [];
      while current != NIL
        invariant unchanged(this) && k <= |chain| && current == At(chain, k)
        invariant destroyed == if destroy then Items()[..k] else []
        decreases |chain| - k
      {
        WalkStep(State(), chain, k);
        var next := nodes[current].next;
        if destroy {
          destroyed := destroyed + [nodes[current].data];
        }
        current := next;
        k := k + 1;
      }
      assert Items()[..k] == Items();
      front, back, size := NIL, NIL, 0;
      chain := [];
    }

    /** ll_freeLinkedList of the collections list: the list's own destructor. */
    method Free() returns (destroyed: seq<T>)
      requires Valid()
      modifies this
      ensures Valid() && Items() == [] && size == 0 && front == NIL && back == NIL
      ensures destroyed == if destructor then old(Items()) else []
    {
      destroyed := FreeWith(destructor);
    }

    /** ll_pushBack: x becomes the last element. */
    method PushBack(x: T)
      requires Valid()
      modifies this
      ensures Valid() && Items() == old(Items()) + [x] && size == old(size) + 1
      ensures State() == Pushed(old(State()), x)
    {
      PushBackAppends(State(), chain, x);
      var n := |nodes|;
      nodes := nodes + [Node(x, NIL)];
      if back != NIL {
        nodes := nodes[back := nodes[back].(next := n)];
        back := n;
      } else {
        front, back := n, n;
      }
      size := size + 1;
      chain := chain + [n];
    }

    /** ll_pushBackBatch: the arguments are appended in order. */
    method PushBackBatch(xs: seq<T>)
      requires Valid() && |xs| > 0
      modifies this
      ensures Valid() && Items() == old(Items()) + xs && size == old(size) + |xs|
    {
      for i := 0 to |xs|
        invariant Valid() && Items() == old(Items()) + xs[..i] && size == old(size) + i
      {
        PushBack(xs[i]);
        assert xs[..i + 1] == xs[..i] + [xs[i]];
      }
      assert xs[..|xs|] == xs;
    }

    /** ll_findItem: the first element the comparator matches, or nothing. */
    method FindItem(query: T, cmp: Option<(T, T) -> int>) returns (r: Option<T>)
      requires Valid()
      ensures var i := FirstMatch(Items(), query, cmp);
              r == if i < |Items()| then Some(Items()[i]) else None
    {
      ghost var items := Items();
      var it := new Iterator(this);
      var more := it.HasNext();
      while more
        invariant it.Valid() && it.list == this && !it.pending && Items() == items
        invariant it.pos <= |items| && more == (it.pos < |items|)
        invariant forall j | 0 <= j < it.pos :: !Matches(query, items[j], cmp)
        decreases |items| - it.pos
      {
        var value := it.Next();
        if Matches(query, value, cmp) {
          assert FirstMatch(items, query, cmp) == it.pos - 1;
          return Some(value);
        }
        more := it.HasNext();
      }
      return None;
    }

    /**
     * ll_removeItem: the first element the comparator matches is unlinked
     * and handed to the destructor; without a match nothing changes.
     */
    method RemoveItem(item: T, cmp: Option<(T, T) -> int>) returns (removed: bool, destroyed: seq<T>)
      requires Valid()
      modifies this
      ensures Valid()
      ensures var i := FirstMatch(old(Items()), item, cmp);
              && removed == (i < |old(Items())|)
              && Items() == (if removed then old(Items())[..i] + old(Items())[i + 1..] else old(Items()))
              && size == (if removed then old(size) - 1 else old(size))
              && destroyed == (if removed && destructor then [old(Items())[i]] else [])
    {
      ghost var items := Items();
      var previous := NIL;
      var current := front;
      ghost var k := 0;
      destroyed := [];
      while current != NIL
        invariant Valid() && State() == old(State()) && chain == old(chain) && Items() == items
        invariant k <= |chain| && current == At(chain, k) && previous == Prev(chain, k)
        invariant forall j | 0 <= j < k :: !Matches(item, items[j], cmp)
        decreases |chain| - k
      {
        if Matches(item, nodes[current].data, cmp) {
          assert items[k] == nodes[current].data;
          assert FirstMatch(items, item, cmp) == k;
          destroyed := RemoveAt(previous, current, k);
          return true, destroyed;
        }
        NextReturns(State(), chain, Cursor(current, FrontField), k);
        previous := current;
        current := nodes[current].next;
        k := k + 1;
      }
      assert k == |items|;
      return false, destroyed;
    }

    /** The branch of ll_removeItem that found its element: unlink it, then hand it to the destructor. */
    method RemoveAt(previous: int, current: nat, ghost k: nat) returns (destroyed: seq<T>)
      requires Valid() && k < |chain| && current == chain[k] && previous == Prev(chain, k)
      modifies this
      ensures Valid() && Items() == old(Items())[..k] + old(Items())[k + 1..] && size == old(size) - 1
      ensures destroyed == if destructor then [old(Items())[k]] else []
    {
      var data := UnlinkAt(previous, current, k);
      destroyed := if destructor then [data] else [];
    }

    /** The unlinking step of ll_removeItem: the k-th node, previous being the one before it. */
    method UnlinkAt(previous: int, current: nat, ghost k: nat) returns (data: T)
      requires Valid() && k < |chain| && current == chain[k] && previous == Prev(chain, k)
      modifies this
      ensures Valid() && data == old(Items())[k] && chain == Drop(old(chain), k)
      ensures Items() == old(Items())[..k] + old(Items())[k + 1..] && size == old(size) - 1
      ensures State() == Unlinked(old(State()), previous, current)
    {
      ghost var s := State();
      UnlinkRemoves(s, chain, k);
      data := nodes[current].data;
      var next := nodes[current].next;
      // previous->next, front and back each skip the node when they point to it
      var nodes' := if previous != NIL then nodes[previous := nodes[previous].(next := next)] else nodes;
      var front' := if current == front then next else front;
      var back' := if current == back then previous else back;
      nodes, front, back, size := nodes', front', back', size - 1;
      assert State() == Unlinked(s, previous, current);
      chain := Drop(chain, k);
    }

    /** The splice of ll_iteratorInsert (with back kept right) at entry, the field pointing to the k-th node. */
    method Link(entry: Entry, ghost k: nat, x: T) returns (n: nat)
      requires Valid() && k <= |chain| && entry == EntryAt(chain, k)
      modifies this
      ensures Valid() && n == |old(nodes)| && chain == Splice(old(chain), k, n)
      ensures Items() == old(Items())[..k] + [x] + old(Items())[k..] && size == old(size) + 1
      ensures State() == Inserted(old(State()), entry, x)
    {
      ghost var s := State();
      InsertSplices(s, chain, entry, k, x);
      EntryPoints(s, chain, k);
      n := |nodes|;
      var next := if entry.FrontField? then front else nodes[entry.node].next;
      nodes := nodes + [Node(x, next)];
      if entry.FrontField? {
        front := n;
      } else {
        nodes := nodes[entry.node := nodes[entry.node].(next := n)];
      }
      if next == NIL {
        back := n;
      }
      size := size + 1;
      assert State() == Inserted(s, entry, x);
      chain := Splice(chain, k, n);
    }

    /**
     * ll_isEqual: false on a size mismatch, otherwise true exactly when the
     * comparator returns 0 on every pair of elements at the same position.
     */
    static method IsEqual(l1: LinkedList<T>, l2: LinkedList<T>, comparator: (T, T) -> int) returns (b: bool)
      requires l1.Valid() && l2.Valid()
      ensures b == (|l1.Items()| == |l2.Items()| && forall i | 0 <= i < |l1.Items()| :: comparator(l1.Items()[i], l2.Items()[i]) == 0)
    {
      if l1.size != l2.size {
        return false;
      }
      ghost var items1, items2 := l1.Items(), l2.Items();
      var it1 := new Iterator(l1);
      var it2 := new Iterator(l2);
      var more := it1.HasNext();
      while more
        invariant it1.Valid() && it1.list == l1 && !it1.pending && l1.Items() == items1
        invariant it2.Valid() && it2.list == l2 && !it2.pending && l2.Items() == items2
        invariant it1.pos == it2.pos <= |items1| == |items2| && more == (it1.pos < |items1|)
        invariant PairsAgree(items1, items2, comparator, it1.pos)
        decreases |items1| - it1.pos
      {
        var data1, data2 := NextPair(it1, it2);
        if comparator(data1, data2) != 0 {
          return false;
        }
        more := it1.HasNext();
      }
      return true;
    }

    /** The two ll_iteratorNext calls of one ll_isEqual round, each advancing its own list. */
    static method NextPair(it1: Iterator<T>, it2: Iterator<T>) returns (x1: T, x2: T)
      requires it1 != it2 && it1.Valid() && it2.Valid() && !it1.pending && !it2.pending
      requires it1.pos < |it1.list.Items()| && it2.pos < |it2.list.Items()|
      modifies it1, it2
      ensures it1.Valid() && !it1.pending && it1.pos == old(it1.pos) + 1 && it1.list.Items() == old(it1.list.Items())
      ensures it2.Valid() && !it2.pending && it2.pos == old(it2.pos) + 1 && it2.list.Items() == old(it2.list.Items())
      ensures x1 == it1.list.Items()[old(it1.pos)] && x2 == it2.list.Items()[old(it2.pos)]
    {
      x1 := it1.Next();
      x2 := it2.Next();
    }
  }

  /**
   * ll_Iterator: current and pEntry over a list. pos counts the elements
   * returned so far; pending says the cursor is in the state
   * ll_iteratorInsert leaves it in.
   */
  class Iterator<T(==)> {
    const list: LinkedList<T>
    var current: int
    var entry: Entry
    ghost var pos: nat
    ghost var pending: bool

    ghost predicate Valid()
      reads this, list
    {
      && list.Valid()
      && if pending then Pending(list.chain, Cursor(current, entry), pos) else CursorAt(list.chain, Cursor(current, entry), pos)
    }

    /** ll_createIterator / ll_initIterator: nothing returned yet. */
    constructor (list: LinkedList<T>)
      requires list.Valid()
      ensures this.list == list && Valid() && pos == 0 && !pending
    {
      this.list := list;
      current := list.front;
      entry := FrontField;
      pos := 0;
      pending := false;
    }

    /** ll_iteratorHasNext: some element is still to be returned. */
    method HasNext() returns (b: bool)
      requires Valid()
      ensures b == (pos < |list.Items()|)
    {
      b := current != NIL;
    }

    /** ll_iteratorNext: the elements come out in list order. */
    method Next() returns (x: T)
      requires Valid() && pos < |list.Items()|
      modifies this
      ensures Valid() && x == list.Items()[old(pos)] && pos == old(pos) + 1 && !pending
    {
      NextReturns(list.State(), list.chain, Cursor(current, entry), pos);
      x := list.nodes[current].data;
      entry := NextField(current);
      current := list.nodes[current].next;
      pos := pos + 1;
      pending := false;
    }

    /**
     * ll_iteratorInsert, with back kept right: x goes in at the cursor (just
     * after an element inserted by the previous call), so the next
     * ll_iteratorNext returns it; the other elements keep their order.
     */
    method Insert(x: T)
      requires Valid()
      modifies this, list
      ensures Valid() && pending
      ensures var at := if old(pending) then old(pos) + 1 else old(pos);
              && list.Items() == old(list.Items())[..at] + [x] + old(list.Items())[at..]
              && list.size == old(list.size) + 1 && pos == at
    {
      ghost var at := if pending then pos + 1 else pos;
      var n := list.Link(entry, at, x);
      current := n;
      entry := NextField(n);
      pos := at;
      pending := true;
    }
  }
}
