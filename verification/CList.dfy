/** The circular list of clist.h: a doubly linked ring with a head pointer, NULL when it is empty. */
module CList {

  /** A structure with the two link fields of the ring embedded in it. All its other fields are `data`. */
  class Node<T> {
    const addr: nat  // its address; only compared, never dereferenced
    var data: T
    var prev: Node?<T>
    var next: Node?<T>

    constructor (addr: nat, data: T)
      ensures this.addr == addr && this.data == data
    {
      this.addr := addr;
      this.data := data;
      prev, next := null, null;
    }
  }

  ghost predicate NoDuplicates<T>(s: seq<T>) {
    forall i, j :: 0 <= i < j < |s| ==> s[i] != s[j]
  }

  /** The cyclic successor and predecessor of position i among n positions. */
  function After(n: nat, i: nat): nat
    requires i < n
  {
    if i + 1 == n then 0 else i + 1
  }

  function Before(n: nat, i: nat): nat
    requires i < n
  {
    if i == 0 then n - 1 else i - 1
  }

  /** `head` leads a ring whose nodes, in order, are `s`. */
  ghost predicate Ring<T>(head: Node?<T>, s: seq<Node<T>>)
    reads s`prev, s`next
  {
    && NoDuplicates(s)
    && (s == [] ==> head == null)
    && (s != [] ==> head == s[0])
    && (forall i {:trigger s[i].next} :: 0 <= i < |s| ==> s[i].next == s[After(|s|, i)])
    && (forall i {:trigger s[i].prev} :: 0 <= i < |s| ==> s[i].prev == s[Before(|s|, i)])
  }

  /** CLIST_ADD_LAST: `item` becomes the predecessor of the head. */
  method AddLast<T>(list: Node?<T>, item: Node<T>, ghost s: seq<Node<T>>) returns (head: Node<T>)
    requires Ring(list, s) && item !in s
    modifies s`prev, s`next, item`prev, item`next
    ensures Ring(head, s + [item])
  {
    if list == null {
      item.prev := item;
      item.next := item;
      head := item;
    } else {
      // CLIST_ADD_BEFORE(list, item)
      item.prev := list.prev;
      item.next := list;
      list.prev.next := item;
      list.prev := item;
      head := list;
    }
  }

  /** CLIST_DEL: unlinks a member, wherever in the ring it stands, and moves the head off it. */
  method Del<T>(list: Node?<T>, item: Node<T>, ghost pre: seq<Node<T>>, ghost post: seq<Node<T>>)
    returns (head: Node?<T>)
    requires Ring(list, pre + [item] + post)
    modifies pre`prev, pre`next, item`prev, item`next, post`prev, post`next
    ensures Ring(head, pre + post) && item !in pre + post
  {
    ghost var s, k := pre + [item] + post, |pre|;
    ghost var p, q := Before(|s|, k), After(|s|, k);
    assert s[k] == item && item.prev == s[p] && item.next == s[q];
    assert item.next == item <==> |s| == 1;
    head := list;
    if item == list {
      if item.next == item {
        head := null;
      } else {
        head := item.next;
      }
    }
    item.prev.next := item.next;
    item.next.prev := item.prev;
    assert s[..k] + s[k + 1..] == pre + post;
    RelinkedRing(head, s, k);
  }

  /** Where the i-th survivor of removing position k stood. */
  function Survivor(k: nat, i: nat): nat {
    if i < k then i else i + 1
  }

  lemma SurvivorNeighbours(n: nat, k: nat, i: nat)
    requires k < n && i < n - 1
    ensures Survivor(k, i) < n && Survivor(k, i) != k
    ensures Survivor(k, After(n - 1, i))
            == if Survivor(k, i) == Before(n, k) then After(n, k) else After(n, Survivor(k, i))
    ensures Survivor(k, Before(n - 1, i))
            == if Survivor(k, i) == After(n, k) then Before(n, k) else Before(n, Survivor(k, i))
  {
  }

  /** Once the neighbours of position k point at each other, the nodes other than s[k] form a ring. */
  lemma RelinkedRing<T>(head: Node?<T>, s: seq<Node<T>>, k: nat)
    requires k < |s| && NoDuplicates(s)
    requires head == if |s| == 1 then null else if k == 0 then s[1] else s[0]
    requires forall i {:trigger s[i].next} :: 0 <= i < |s| && i != k ==>
               s[i].next == s[if i == Before(|s|, k) then After(|s|, k) else After(|s|, i)]
    requires forall i {:trigger s[i].prev} :: 0 <= i < |s| && i != k ==>
               s[i].prev == s[if i == After(|s|, k) then Before(|s|, k) else Before(|s|, i)]
    ensures Ring(head, s[..k] + s[k + 1..]) && s[k] !in s[..k] + s[k + 1..]
  {
    var rest, n := s[..k] + s[k + 1..], |s|;
    assert NoDuplicates(rest) && s[k] !in rest by {
      OthersDistinct(s, k);
    }
    hide NoDuplicates;
    forall i | 0 <= i < |rest|
      ensures rest[i].next == rest[After(n - 1, i)]
      ensures rest[i].prev == rest[Before(n - 1, i)]
    {
      SurvivorNeighbours(n, k, i);
      assert rest[i] == s[Survivor(k, i)];
    }
  }

  lemma OthersDistinct<T>(s: seq<Node<T>>, k: nat)
    requires k < |s| && NoDuplicates(s)
    ensures NoDuplicates(s[..k] + s[k + 1..]) && s[k] !in s[..k] + s[k + 1..]
  {
    var rest := s[..k] + s[k + 1..];
    assert forall i :: 0 <= i < |rest| ==> rest[i] == s[Survivor(k, i)];
  }

  /** Next and prev undo each other all around a ring, and the ring has only one reading. */
  lemma LinksAreInverse<T>(head: Node?<T>, s: seq<Node<T>>, i: nat)
    requires Ring(head, s) && i < |s|
    ensures s[i].next != null && s[i].next in s && s[i].next.prev == s[i]
    ensures s[i].prev != null && s[i].prev in s && s[i].prev.next == s[i]
  {
    var p, q := Before(|s|, i), After(|s|, i);
    assert s[i].next == s[q] && s[q].prev == s[Before(|s|, q)];
    assert s[i].prev == s[p] && s[p].next == s[After(|s|, p)];
  }

  lemma {:induction false} CommonPrefix<T>(head: Node?<T>, s: seq<Node<T>>, s': seq<Node<T>>, n: nat)
    requires Ring(head, s) && Ring(head, s') && n <= |s| && n <= |s'|
    ensures s[..n] == s'[..n]
  {
    if n > 1 {
      CommonPrefix(head, s, s', n - 1);
      assert s[n - 2] == s[..n - 1][n - 2] == s'[..n - 1][n - 2] == s'[n - 2];
      assert s[n - 1] == s[n - 2].next == s'[n - 1];
    }
  }

  /** The nodes reachable from the head determine the abstract sequence. */
  lemma RingReadsOneSequence<T>(head: Node?<T>, s: seq<Node<T>>, s': seq<Node<T>>)
    requires Ring(head, s) && Ring(head, s')
    ensures s == s'
  {
    var n := if |s| < |s'| then |s| else |s'|;
    CommonPrefix(head, s, s', n);
    if n > 0 {
      assert s[n - 1] == s[..n][n - 1] == s'[..n][n - 1] == s'[n - 1];
      assert s[n - 1].next == s[After(|s|, n - 1)] == s'[After(|s'|, n - 1)];
    }
  }

  /** The node a cursor holds when the nodes from position i on are `s[i..]`: NULL past the end. */
  ghost function At<T>(s: seq<Node<T>>, i: nat): Node?<T> {
    if i < |s| then s[i] else null
  }

  /**
    * The lookahead of CLIST_FOREACH beyond `token`: its stop test reads the head as the body left it. The
    * initialiser computes it for the head itself, every step for the token that becomes the item.
    */
  function Lookahead<T>(list: Node?<T>, token: Node?<T>): Node?<T>
    reads token
  {
    if token != null then (if token.next != list then token.next else null) else null
  }

  /** Whatever was deleted before it, the lookahead is the node after the token, NULL at the ring's end. */
  lemma LookaheadIsNext<T>(list: Node?<T>, kept: seq<Node<T>>, rest: seq<Node<T>>)
    requires Ring(list, kept + rest)
    ensures Lookahead(list, At(rest, 0)) == At(rest, 1)
    ensures kept == [] ==> list == At(rest, 0)
  {
    var s := kept + rest;
    if rest != [] {
      assert s[|kept|] == rest[0] && s[|kept|].next == s[After(|s|, |kept|)];
    }
  }

  ghost function Survivors<T>(s: seq<Node<T>>, deleted: set<Node<T>>): seq<Node<T>> {
    if s == [] then [] else (if s[0] in deleted then [] else [s[0]]) + Survivors(s[1..], deleted)
  }

  lemma UnfoldSurvivors<T>(kept: seq<Node<T>>, rest: seq<Node<T>>, deleted: set<Node<T>>)
    ensures kept + Survivors(rest, deleted)
            == if rest == [] then kept
               else (if rest[0] in deleted then kept else kept + [rest[0]]) + Survivors(rest[1..], deleted)
  {
  }

  /**
    * A CLIST_FOREACH whose body deletes the nodes of `deleted` as it visits them. What a deleted node's
    * links hold afterwards is arbitrary, so the loop cannot depend on them.
    */
  method Foreach<T>(list: Node?<T>, deleted: set<Node<T>>, ghost s: seq<Node<T>>)
    returns (head: Node?<T>, visited: seq<Node<T>>)
    requires Ring(list, s)
    modifies s`prev, s`next
    ensures visited == s
    ensures Ring(head, Survivors(s, deleted))
  {
    hide Ring;
    hide Survivors;
    head, visited := list, [];
    ghost var kept, rest := [], s;
    assert kept + rest == s;
    LookaheadIsNext(list, kept, rest);
    var item, token := list, Lookahead(list, list);
    while item != null
      invariant visited + rest == s && forall i :: 0 <= i < |rest| ==> rest[i] in s
      invariant Ring(head, kept + rest) && forall i :: 0 <= i < |kept| ==> kept[i] in s
      invariant item == At(rest, 0) && token == At(rest, 1)
      invariant kept + Survivors(rest, deleted) == Survivors(s, deleted)
      decreases |rest|
    {
      UnfoldSurvivors(kept, rest, deleted);
      var n: Node<T> := item;
      assert kept + rest == kept + [n] + rest[1..] && n in s;
      visited, rest := visited + [n], rest[1..];
      head := Visit(head, n, n in deleted, kept, rest);
      kept := if n in deleted then kept else kept + [n];
      LookaheadIsNext(head, kept, rest);
      item, token := token, Lookahead(head, token);
    }
    UnfoldSurvivors(kept, rest, deleted);
  }

  /** The body of that loop: it gives the node back to the allocator, or leaves it in the ring. */
  method Visit<T>(list: Node?<T>, item: Node<T>, delete: bool, ghost pre: seq<Node<T>>, ghost post: seq<Node<T>>)
    returns (head: Node?<T>)
    requires Ring(list, pre + [item] + post)
    modifies pre`prev, pre`next, item`prev, item`next, post`prev, post`next
    ensures Ring(head, (if delete then pre else pre + [item]) + post)
  {
    head := list;
    if delete {
      head := Del(list, item, pre, post);
      item.prev, item.next := *, *;
    }
  }

  function Rotate<T>(s: seq<T>): seq<T> {
    if s == [] then [] else s[1..] + [s[0]]
  }

  /** A circular list can be read from any member: the next one heads the rotated sequence. */
  lemma RingRotates<T>(head: Node?<T>, s: seq<Node<T>>)
    requires Ring(head, s) && s != []
    ensures head != null && Ring(head.next, Rotate(s))
  {
    var n, r := |s|, Rotate(s);
    assert forall i :: 0 <= i < n ==> r[i] == s[After(n, i)];
    forall i | 0 <= i < n
      ensures r[i].next == r[After(n, i)] && r[i].prev == r[Before(n, i)]
    {
      assert r[i] == s[After(n, i)];
      assert After(n, Before(n, i)) == i == Before(n, After(n, i));
    }
  }
}
