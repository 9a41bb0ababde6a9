/**
  * The duplicate suppressor of seen_lookup.c: a fixed pool of nodes, each either in the free ring or in both
  * the arrival ring and the tree.
  */
module SeenLookup {
  import opened CList
  import opened RbTree
  import opened RbCorrect
  import opened RbNodes
  import opened RbHeap
  import opened RbSearch
  import RbDelete
  import opened Window

  function Elems<T>(s: seq<T>): set<T> {
    set i | 0 <= i < |s| :: s[i]
  }

  /** The tree indexes exactly the nodes of the arrival ring, the k-th of which carries the number w[k]. */
  ghost predicate Indexes(t: Tree, arrival: seq<Node<Item>>, w: seq<int>) {
    && Valid(t) && Nodes(t) == Elems(arrival) && |w| == |arrival|
    && forall k :: 0 <= k < |w| ==> HasEntry(t, arrival[k], w[k])
  }

  ghost predicate HasEntry(t: Tree, n: Node<Item>, num: int) {
    exists i :: 0 <= i < |InOrder(t)| && InOrder(t)[i].node == n && InOrder(t)[i].num == num
  }

  /** Every node of the pool is in exactly one of the three sequences. */
  ghost predicate Partition(pool: seq<Node<Item>>, arrival: seq<Node<Item>>, free: seq<Node<Item>>, spare: seq<Node<Item>>) {
    && |arrival| + |free| + |spare| == |pool|
    && NoDuplicates(arrival + free + spare)
    && (forall i :: 0 <= i < |arrival| ==> arrival[i] in pool)
    && (forall i :: 0 <= i < |free| ==> free[i] in pool)
    && (forall i :: 0 <= i < |spare| ==> spare[i] in pool)
  }

  lemma PartitionEvict(pool: seq<Node<Item>>, arrival: seq<Node<Item>>, free: seq<Node<Item>>)
    requires Partition(pool, arrival, free, []) && arrival != []
    ensures Partition(pool, arrival[1..], free, [arrival[0]])
    ensures NoDuplicates(arrival) && (forall i :: 0 <= i < |free| ==> free[i] !in arrival)
    ensures forall i :: 0 <= i < |arrival| ==> arrival[i] in pool
  {
    var s, s' := arrival + free + [], arrival[1..] + free + [arrival[0]];
    assert forall i :: 0 <= i < |s| ==> s'[i] == s[if i + 1 < |s| then i + 1 else 0];
    assert forall i :: 0 <= i < |arrival| ==> arrival[i] == s[i];
    assert forall i :: 0 <= i < |free| ==> free[i] == s[|arrival| + i];
  }

  lemma PartitionTake(pool: seq<Node<Item>>, arrival: seq<Node<Item>>, free: seq<Node<Item>>)
    requires Partition(pool, arrival, free, []) && free != []
    ensures Partition(pool, arrival, free[1..], [free[0]])
    ensures NoDuplicates(free) && (forall i :: 0 <= i < |arrival| ==> arrival[i] !in free)
    ensures forall i :: 0 <= i < |free| ==> free[i] in pool
  {
    var s, s', n := arrival + free + [], arrival + free[1..] + [free[0]], |arrival|;
    assert forall i :: 0 <= i < |s| ==> s'[i] == s[if i < n then i else if i + 1 < |s| then i + 1 else n];
    assert forall i :: 0 <= i < |arrival| ==> arrival[i] == s[i];
    assert forall i :: 0 <= i < |free| ==> free[i] == s[n + i];
  }

  lemma PartitionInsert(pool: seq<Node<Item>>, arrival: seq<Node<Item>>, free: seq<Node<Item>>, x: Node<Item>)
    requires Partition(pool, arrival, free, [x])
    ensures Partition(pool, arrival + [x], free, []) && x in pool && x !in arrival && x !in free
    ensures forall i :: 0 <= i < |arrival| ==> arrival[i] in pool && arrival[i] !in free
  {
    var s, s', n := arrival + free + [x], arrival + [x] + free + [], |arrival|;
    assert forall i :: 0 <= i < |s| ==> s'[i] == s[if i < n then i else if i == n then |s| - 1 else i - 1];
    assert forall i :: 0 <= i < |arrival| ==> arrival[i] == s[i];
    assert forall i :: 0 <= i < |free| ==> free[i] == s[n + i];
    assert [x][0] in pool && s[|s| - 1] == x;
  }

  lemma PartitionCovers(pool: seq<Node<Item>>, arrival: seq<Node<Item>>, free: seq<Node<Item>>)
    requires Partition(pool, arrival, free, [])
    ensures Elems(pool) == Elems(arrival) + Elems(free) && Elems(arrival) !! Elems(free)
  {
    hide NoDuplicates;
    var s := arrival + free;
    assert s + [] == s;
    ElemsJoin(arrival, free);
    ElemsSize(s);
    ElemsFew(pool);
    SameSize(Elems(s), Elems(pool));
  }

  lemma SameSize<T>(a: set<T>, b: set<T>)
    requires a <= b && |b| <= |a|
    ensures a == b
  {
    assert b == a + (b - a);
  }

  lemma ElemsJoin(x: seq<Node<Item>>, y: seq<Node<Item>>)
    ensures Elems(x + y) == Elems(x) + Elems(y)
    ensures NoDuplicates(x + y) ==> Elems(x) !! Elems(y)
  {
    var s := x + y;
    assert forall i :: 0 <= i < |x| ==> s[i] == x[i];
    assert forall i :: 0 <= i < |y| ==> s[|x| + i] == y[i];
  }

  lemma PartitionArrival(pool: seq<Node<Item>>, arrival: seq<Node<Item>>, free: seq<Node<Item>>)
    requires Partition(pool, arrival, free, [])
    ensures NoDuplicates(arrival)
  {
    var s := arrival + free + [];
    assert forall i :: 0 <= i < |arrival| ==> s[i] == arrival[i];
  }

  lemma EntryNodesSize(s: seq<Entry>)
    requires DistinctNodes(s)
    ensures |EntryNodes(s)| == |s|
  {
    var nodes := seq(|s|, i requires 0 <= i < |s| => s[i].node);
    ElemsSize(nodes);
    assert Elems(nodes) == EntryNodes(s) by {
      assert forall i :: 0 <= i < |s| ==> nodes[i] == s[i].node;
    }
  }

  lemma EntryOf(t: Tree, n: Node<Item>) returns (i: nat)
    requires n in Nodes(t)
    ensures i < |InOrder(t)| && InOrder(t)[i].node == n
  {
    NodesInOrder(t);
    i :| 0 <= i < |InOrder(t)| && InOrder(t)[i].node == n;
  }

  /** A number that is not in the tree compares with every number that is. */
  lemma AbsentIsComparable(t: Tree, arrival: seq<Node<Item>>, w: seq<int>, e: Entry)
    requires Indexes(t, arrival, w) && Distinct(t) && e.num !in w
    ensures Comparable(InOrder(t), e)
  {
    IndexedNums(t, arrival, w, e.num);
  }

  /** The i-th entry of the tree is that of some node of the arrival ring. */
  lemma EntryIsIndexed(t: Tree, arrival: seq<Node<Item>>, w: seq<int>, i: nat) returns (k: nat)
    requires Indexes(t, arrival, w) && Distinct(t) && i < |InOrder(t)|
    ensures k < |arrival| == |w| && InOrder(t)[i].node == arrival[k] && InOrder(t)[i].num == w[k]
  {
    var s := InOrder(t);
    NodesInOrder(t);
    assert s[i].node in EntryNodes(s);
    k :| 0 <= k < |arrival| && arrival[k] == s[i].node;
    assert HasEntry(t, arrival[k], w[k]);
    var j :| 0 <= j < |s| && s[j].node == arrival[k] && s[j].num == w[k];
    assert i == j;
  }

  /** The tree holds a number exactly if a node of the arrival ring does. */
  lemma IndexedNums(t: Tree, arrival: seq<Node<Item>>, w: seq<int>, num: Key)
    requires Indexes(t, arrival, w) && Distinct(t)
    ensures HasNum(InOrder(t), num) <==> num in w
  {
    var s := InOrder(t);
    NodesInOrder(t);
    if num in w {
      var k :| 0 <= k < |w| && w[k] == num;
      assert HasEntry(t, arrival[k], w[k]);
    }
    if HasNum(s, num) {
      var i :| 0 <= i < |s| && s[i].num == num;
      var k := EntryIsIndexed(t, arrival, w, i);
    }
  }

  lemma KeepsEntry(t: Tree, t': Tree, i: nat, n: Node<Item>, num: int)
    requires HasEntry(t, n, num) && i < |InOrder(t)| && InOrder(t)[i].node != n
    requires InOrder(t') == Without(InOrder(t), i)
    ensures HasEntry(t', n, num)
  {
    var s, s' := InOrder(t), InOrder(t');
    var j :| 0 <= j < |s| && s[j].node == n && s[j].num == num;
    assert s'[if j < i then j else j - 1] == s[j];
  }

  lemma GainsEntry(t: Tree, t': Tree, p: nat, e: Entry, n: Node<Item>, num: int)
    requires p <= |InOrder(t)| && InOrder(t') == With(InOrder(t), p, e)
    requires HasEntry(t, n, num) || (e.node == n && e.num == num)
    ensures HasEntry(t', n, num)
  {
    var s, s' := InOrder(t), InOrder(t');
    assert s'[p] == e;
    if HasEntry(t, n, num) {
      var j :| 0 <= j < |s| && s[j].node == n && s[j].num == num;
      assert s'[if j < p then j else j + 1] == s[j];
    }
  }

  lemma ElemsAppend<T>(s: seq<T>, x: T)
    ensures Elems(s + [x]) == Elems(s) + {x}
  {
    assert (s + [x])[|s|] == x;
    assert forall i :: 0 <= i < |s| ==> (s + [x])[i] == s[i];
  }

  lemma ElemsTail<T>(s: seq<T>)
    requires s != []
    ensures Elems(s) == {s[0]} + Elems(s[1..])
  {
    assert forall i :: 0 <= i < |s| - 1 ==> s[1..][i] == s[i + 1];
    assert forall i :: 0 < i < |s| ==> s[i] == s[1..][i - 1];
  }

  /** The tree without the oldest node indexes the rest of the arrival ring. */
  lemma IndexesWithout(t: Tree, arrival: seq<Node<Item>>, w: seq<int>, t': Tree, i: nat)
    requires Indexes(t, arrival, w) && arrival != [] && NoDuplicates(arrival)
    requires i < |InOrder(t)| && InOrder(t)[i].node == arrival[0]
    requires Valid(t') && InOrder(t') == Without(InOrder(t), i) && Nodes(t') == Elems(arrival[1..])
    ensures Indexes(t', arrival[1..], w[1..])
  {
    hide InOrder;
    hide Valid;
    hide HasEntry;
    hide Elems;
    forall k | 1 <= k < |w|
      ensures HasEntry(t', arrival[k], w[k])
    {
      KeepsEntry(t, t', i, arrival[k], w[k]);
    }
  }

  lemma FirstNotInTail(s: seq<Node<Item>>)
    requires s != [] && NoDuplicates(s)
    ensures s[0] !in Elems(s[1..])
  {
  }

  /** The tree with a node added indexes the arrival ring with it at the end. */
  lemma IndexesWith(t: Tree, arrival: seq<Node<Item>>, w: seq<int>, t': Tree, p: nat, e: Entry)
    requires Indexes(t, arrival, w)
    requires Valid(t') && p <= |InOrder(t)| && InOrder(t') == With(InOrder(t), p, e) && Nodes(t') == Nodes(t) + {e.node}
    ensures Indexes(t', arrival + [e.node], w + [e.num])
  {
    hide InOrder;
    hide Valid;
    hide HasEntry;
    hide Elems;
    forall k | 0 <= k <= |w|
      ensures HasEntry(t', (arrival + [e.node])[k], (w + [e.num])[k])
    {
      GainsEntry(t, t', p, e, (arrival + [e.node])[k], (w + [e.num])[k]);
    }
    ElemsAppend(arrival, e.node);
  }

  /** Distinct numbers in the arrival ring are distinct numbers in the tree. */
  lemma DistinctNums(t: Tree, arrival: seq<Node<Item>>, w: seq<int>)
    requires Indexes(t, arrival, w) && Distinct(t) && NoRepeats(w)
    ensures forall i, j :: 0 <= i < j < |InOrder(t)| ==> InOrder(t)[i].num < InOrder(t)[j].num
  {
    hide InOrder;
    hide HasEntry;
    hide RedBlack;
    hide Nodes;
    hide Distinct;
    var s := InOrder(t);
    forall i, j | 0 <= i < j < |s|
      ensures s[i].num < s[j].num
    {
      var k := EntryIsIndexed(t, arrival, w, i);
      var l := EntryIsIndexed(t, arrival, w, j);
      assert Less(s[i], s[j]);
    }
  }

  lemma {:induction false} ElemsSize<T>(s: seq<T>)
    requires NoDuplicates(s)
    ensures |Elems(s)| == |s|
  {
    if s != [] {
      ElemsSize(s[1..]);
      ElemsTail(s);
    }
  }

  lemma {:induction false} ElemsFew<T>(s: seq<T>)
    ensures |Elems(s)| <= |s|
  {
    if s != [] {
      ElemsFew(s[1..]);
      ElemsTail(s);
    }
  }

  /** The first node of the ring leaves the ring and the tree. */
  method Unlink(list: Link, tree: Link, item: Node<Item>, ghost rest: seq<Node<Item>>, ghost t: Tree, ghost i: nat)
    returns (list': Link, tree': Link, ghost t': Tree)
    requires Ring(list, [] + [item] + rest)
    requires Models(tree, t) && RbCorrect.Valid(t) && i < |InOrder(t)| && InOrder(t)[i] == Entry(item, item.data.num)
    modifies item`prev, item`next, rest`prev, rest`next, Nodes(t)`data
    ensures Ring(list', rest)
    ensures Models(tree', t') && RbCorrect.Valid(t') && Nodes(t') == Nodes(t) - {item}
    ensures InOrder(t') == Without(InOrder(t), i)
  {
    hide InOrder;
    hide Models;
    hide RbCorrect.Valid;
    hide Nodes;
    hide Ring;
    assert [] + rest == rest && allocated(Nodes(t));
    list' := Del(list, item, [], rest);
    tree', t' := RbDelete.Delete(tree, item, t, i);
  }

  /** A node in no ring takes a number and enters the ring and the tree; the nodes of another ring stay as they are. */
  method LinkIn(list: Link, tree: Link, item: Node<Item>, num: Key, ghost s: seq<Node<Item>>, ghost t: Tree,
                ghost other: Link, ghost others: seq<Node<Item>>)
    returns (list': Link, tree': Link, ghost t': Tree, ghost p: nat)
    requires Ring(list, s) && item !in s && Models(tree, t) && RbCorrect.Valid(t) && item !in Nodes(t)
    requires Comparable(InOrder(t), Entry(item, num)) && Ring(other, others)
    requires forall k :: 0 <= k < |others| ==> others[k] != item && others[k] !in s && others[k] !in Nodes(t)
    modifies item`prev, item`next, item`data, s`prev, s`next, Nodes(t)`data
    ensures Ring(list', s + [item]) && Ring(other, others)
    ensures forall k :: 0 <= k < |others| ==> others[k].data == old(others[k].data)
    ensures Models(tree', t') && RbCorrect.Valid(t') && Nodes(t') == Nodes(t) + {item}
    ensures p <= |InOrder(t)| && InOrder(t') == With(InOrder(t), p, Entry(item, num))
  {
    hide InOrder;
    hide Models;
    hide RbCorrect.Valid;
    hide Comparable;
    hide Nodes;
    hide Ring;
    hide With;
    assert allocated(Nodes(t));
    item.data := item.data.(num := num);
    list' := AddLast(list, item, s);
    tree', t', p := RbHeap.Add(tree, item, t);
  }

  class Lookup {
    const pool: seq<Node<Item>>
    var freeItems: Link
    var list: Link
    var tree: Link
    var items: nat

    ghost var free: seq<Node<Item>>
    ghost var arrival: seq<Node<Item>>
    ghost var shape: Tree
    ghost var pushes: seq<int>    // every number pushed so far
    ghost var accepted: seq<int>  // every number accepted so far

    /** The rings and the tree, with the nodes of `spare` in none of them. */
    ghost predicate Linked(spare: seq<Node<Item>>)
      reads this`freeItems, this`list, this`tree, this`items, this`free, this`arrival, this`shape, pool
    {
      && Partition(pool, arrival, free, spare)
      && Ring(list, arrival) && Ring(freeItems, free) && items == |arrival|
      && Nodes(shape) == Elems(arrival) && Models(tree, shape)
    }

    ghost predicate Valid()
      reads this, pool
    {
      && Linked([])
      && accepted == Run(|pool|, pushes) && Indexes(shape, arrival, Last(|pool|, accepted))
    }

    /** What lookup_push needs besides: with an empty pool it would find no node to reuse. */
    ghost predicate Usable()
      reads this, pool
    {
      Valid() && |pool| > 0
    }

    /** new_lookup: all nodes of the pool are free. */
    constructor (size: nat)
      ensures Valid() && |pool| == size && pushes == accepted == [] && fresh(pool)
    {
      var nodes: seq<Node<Item>>, head: Link := [], null;
      for i := 0 to size
        invariant Ring(head, nodes) && |nodes| == i
        invariant forall k :: 0 <= k < i ==> fresh(nodes[k])
      {
        var n := new Node(i, Item(0, Black, null, null));
        head := AddLast(head, n, nodes);
        nodes := nodes + [n];
      }
      pool, freeItems, free := nodes, head, nodes;
      list, tree, items := null, null, 0;
      arrival, shape, pushes, accepted := [], Nil, [], [];
      new;
      assert arrival + free + [] == pool;
    }

    /** What the invariant says of the oldest node: i is its place in the tree's order. */
    lemma Oldest() returns (i: nat)
      requires Usable() && items == |pool|
      ensures arrival != [] && list == arrival[0] && Ring(list, [] + [arrival[0]] + arrival[1..])
      ensures RbCorrect.Valid(shape) && Models(tree, shape) && allocated(Nodes(shape))
      ensures Indexes(shape, arrival, Last(|pool|, accepted))
      ensures i < |InOrder(shape)| && InOrder(shape)[i] == Entry(arrival[0], arrival[0].data.num)
      ensures Partition(pool, arrival[1..], free, [arrival[0]])
      ensures Nodes(shape) - {arrival[0]} == Elems(arrival[1..]) && NoDuplicates(arrival)
      ensures forall k :: 0 <= k < |arrival| ==> arrival[k] in pool
      ensures free == []
      ensures forall n :: n in Nodes(shape) ==> n in pool
    {
      hide HasEntry;
      hide Run;
      hide Last;
      hide NoDuplicates;
      hide InOrder;
      hide RbCorrect.Valid;
      PartitionEvict(pool, arrival, free);
      assert arrival == [] + [arrival[0]] + arrival[1..];
      ElemsTail(arrival);
      FirstNotInTail(arrival);
      assert arrival[0] in Elems(arrival);
      i := EntryOf(shape, arrival[0]);
      StoredNums(shape);
    }

    /** The full lookup's way to a node: the oldest leaves the ring and the tree. */
    method Evict() returns (item: Node<Item>, ghost i: nat)
      requires Usable() && items == |pool|
      modifies this`list, this`tree, this`items, this`arrival, this`shape, pool
      ensures Linked([item]) && item == old(arrival)[0] && arrival == old(arrival)[1..]
      ensures RbCorrect.Valid(shape) && Nodes(shape) == Elems(arrival)
      ensures i < |old(InOrder(shape))| && old(InOrder(shape))[i].node == item
      ensures InOrder(shape) == Without(old(InOrder(shape)), i)
    {
      hide Partition;
      hide Indexes;
      hide InOrder;
      hide Models;
      hide RbCorrect.Valid;
      hide Elems;
      hide Nodes;
      hide Ring;
      hide Last;
      hide NoDuplicates;
      i := Oldest();
      ghost var rest, t := arrival[1..], shape;
      assert [] + rest == rest;
      item := list;
      list, tree, shape := Unlink(list, tree, item, rest, t, i);
      arrival, items := rest, items - 1;
    }

    /** What the invariant says of the first free node. */
    lemma FirstFree()
      requires Valid() && items < |pool|
      ensures free != [] && freeItems == free[0] && Ring(freeItems, [] + [free[0]] + free[1..])
      ensures Partition(pool, arrival, free[1..], [free[0]])
      ensures forall k :: 0 <= k < |free| ==> free[k] in pool
      ensures (forall k :: 0 <= k < |arrival| ==> arrival[k] !in free) && allocated(Nodes(shape))
    {
      hide Indexes;
      hide NoDuplicates;
      hide Models;
      hide Run;
      hide Last;
      PartitionTake(pool, arrival, free);
      assert free == [] + [free[0]] + free[1..];
    }

    /** While the pool lasts, a free node is used. */
    method TakeFree() returns (item: Node<Item>)
      requires Valid() && items < |pool|
      modifies this`freeItems, this`free, pool
      ensures Linked([item]) && item == old(free)[0] && free == old(free)[1..]
    {
      hide Partition;
      hide Indexes;
      hide Models;
      hide Elems;
      hide Nodes;
      hide Ring;
      hide NoDuplicates;
      hide Run;
      hide Last;
      FirstFree();
      ghost var rest := free[1..];
      assert [] + rest == rest;
      item := freeItems;
      freeItems := Del(freeItems, item, [], rest);
      free := rest;
    }

    /** What the invariant says of the node about to be inserted. */
    lemma Spare(item: Node<Item>, num: Key, w: seq<int>)
      requires Linked([item]) && Indexes(shape, arrival, w) && num !in w
      ensures item in pool && item !in arrival && item !in free && item !in Nodes(shape)
      ensures Comparable(InOrder(shape), Entry(item, num))
      ensures RbCorrect.Valid(shape) && allocated(Nodes(shape)) && Nodes(shape) + {item} == Elems(arrival + [item])
      ensures Partition(pool, arrival + [item], free, [])
      ensures forall k :: 0 <= k < |arrival| ==> arrival[k] in pool
      ensures forall k :: 0 <= k < |free| ==> free[k] != item && free[k] !in arrival && free[k] !in Nodes(shape)
      ensures forall n :: n in Nodes(shape) ==> n in pool
    {
      PartitionInsert(pool, arrival, free, item);
      AbsentIsComparable(shape, arrival, w, Entry(item, num));
      ElemsAppend(arrival, item);
    }

    /** The node takes the new number only here, when it is in neither ring nor in the tree. */
    method Insert(item: Node<Item>, num: Key, ghost w: seq<int>)
      requires Linked([item]) && Indexes(shape, arrival, w) && num !in w
      modifies this`list, this`tree, this`items, this`arrival, this`shape, pool
      ensures Linked([]) && arrival == old(arrival) + [item] && Indexes(shape, arrival, w + [num])
      ensures forall k :: 0 <= k < |free| ==> free[k].data == old(free[k].data)
    {
      hide Partition;
      hide With;
      hide Indexes;
      hide InOrder;
      hide Models;
      hide RbCorrect.Valid;
      hide Comparable;
      hide Elems;
      hide Nodes;
      hide Ring;
      hide NoDuplicates;
      Spare(item, num, w);
      ghost var p, t := 0, shape;
      list, tree, shape, p := LinkIn(list, tree, item, num, arrival, t, freeItems, free);
      IndexesWith(t, arrival, w, shape, p, Entry(item, num));
      arrival, items := arrival + [item], items + 1;
    }

    /** The search in the tree decides membership in the window. */
    lemma Verdict(num: Key)
      requires Valid()
      ensures RbCorrect.Valid(shape) && Models(tree, shape) && NoDuplicates(arrival)
      ensures HasNum(InOrder(shape), num) <==> num in Last(|pool|, accepted)
      ensures items == |arrival| == |Last(|pool|, accepted)| && (items == |pool| <==> |accepted| >= |pool|)
      ensures items <= |pool|
    {
      IndexedNums(shape, arrival, Last(|pool|, accepted), num);
    }

    /**
      * The numbers in the tree are pairwise distinct, so the comparison of addresses never decides, and the check of
      * sglib accepts the tree.
      */
    lemma TieBreakUnused()
      requires Valid()
      ensures forall i, j :: 0 <= i < j < |InOrder(shape)| ==> InOrder(shape)[i].num < InOrder(shape)[j].num
      ensures tree == Root(shape) && Stored(shape) && LocallyOrdered(shape) && RedBlack(shape) && !IsRed(shape)
    {
      WindowNoRepeats(|pool|, pushes);
      DistinctNums(shape, arrival, Last(|pool|, accepted));
      ValidIsConsistent(shape);
    }

    /** The tree has as many entries as the arrival ring has nodes. */
    lemma TreeSize()
      requires Valid()
      ensures |InOrder(shape)| == items
    {
      NodesInOrder(shape);
      EntryNodesSize(InOrder(shape));
      ElemsSize(arrival) by {
        PartitionArrival(pool, arrival, free);
      }
    }

    /** Every node of the pool is in the free ring or in the arrival ring, and none is in both. */
    lemma PoolIsCovered()
      requires Valid()
      ensures Elems(pool) == Elems(arrival) + Elems(free) && Elems(arrival) !! Elems(free) && |arrival| + |free| == |pool|
    {
      PartitionCovers(pool, arrival, free);
    }

    /** The arrival ring carries the last accepted numbers, oldest first. */
    lemma ArrivalCarries(k: nat)
      requires Valid() && k < |Last(|pool|, accepted)|
      ensures items == |arrival| == |Last(|pool|, accepted)| && arrival[k].data.num == Last(|pool|, accepted)[k]
    {
      StoredNums(shape);
      assert HasEntry(shape, arrival[k], Last(|pool|, accepted)[k]);
    }

    /** The node that lookup_push goes on to reuse exists exactly if the pool is not empty. */
    lemma NodeToReuseIff()
      requires Valid()
      ensures (if items == |pool| then list else freeItems) != null <==> |pool| > 0
    {
      assert |arrival| + |free| == |pool|;
    }

    /** lookup_push: a number is accepted unless it is among the last |pool| accepted. */
    method Push(num: Key) returns (added: bool, ghost steps: nat)
      requires Usable()
      modifies this, pool
      ensures Usable() && pushes == old(pushes) + [num]
      ensures added == (num !in Last(|pool|, old(accepted)))
      ensures accepted == Window.Push(|pool|, old(accepted), num)
      ensures Pow2(steps) <= (old(items) + 1) * (old(items) + 1)
      ensures arrival == if !added then old(arrival)
                         else if old(items) == |pool| then old(arrival)[1..] + [old(arrival)[0]]
                         else old(arrival) + [old(free)[0]]
    {
      hide Linked;
      hide Indexes;
      hide InOrder;
      hide Models;
      hide HasNum;
      hide RbCorrect.Valid;
      hide Elems;
      hide Nodes;
      hide NoDuplicates;
      hide Last;
      Verdict(num);
      assert (pushes + [num])[..|pushes|] == pushes;
      ghost var w := Last(|pool|, accepted);
      TreeSize();
      var found;
      found, steps := FindMember(tree, num, shape);
      if found != null {
        pushes := pushes + [num];
        return false, steps;
      }
      var item;
      if items == |pool| {
        ghost var i;
        item, i := Evict();
        IndexesWithout(old(shape), old(arrival), w, shape, i);
        w := w[1..];
      } else {
        item := TakeFree();
      }
      Insert(item, num, w);
      LastOfPush(|pool|, accepted, num);
      pushes, accepted := pushes + [num], accepted + [num];
      added := true;
    }
  }
}
