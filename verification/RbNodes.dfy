/** Which nodes the trees are made of: no operation duplicates a node or loses one but the deleted. */
module RbNodes {
  import opened CList
  import opened RbTree
  import opened RbFix
  import opened RbCorrect

  ghost function EntryNodes(s: seq<Entry>): set<Node<Item>> {
    set i | 0 <= i < |s| :: s[i].node
  }

  ghost predicate DistinctNodes(s: seq<Entry>) {
    forall i, j :: 0 <= i < j < |s| ==> s[i].node != s[j].node
  }

  lemma EntryNodesJoin(x: seq<Entry>, e: Entry, y: seq<Entry>)
    ensures EntryNodes(x + [e] + y) == EntryNodes(x) + {e.node} + EntryNodes(y)
  {
    var s := x + [e] + y;
    assert s[|x|] == e;
    assert forall i :: 0 <= i < |x| ==> s[i] == x[i];
    assert forall i :: 0 <= i < |y| ==> s[|x| + 1 + i] == y[i];
  }

  lemma DistinctNodesJoin(x: seq<Entry>, e: Entry, y: seq<Entry>)
    ensures DistinctNodes(x + [e] + y) <==>
            && DistinctNodes(x) && DistinctNodes(y)
            && e.node !in EntryNodes(x) && e.node !in EntryNodes(y) && EntryNodes(x) !! EntryNodes(y)
  {
    var s, n := x + [e] + y, |x|;
    assert s[n] == e && (forall i :: 0 <= i < n ==> s[i] == x[i]);
    assert forall i :: n < i < |s| ==> s[i] == y[i - n - 1];
    if DistinctNodes(s) {
      assert forall i :: 0 <= i < |y| ==> y[i] == s[n + 1 + i];
    }
    if && DistinctNodes(x) && DistinctNodes(y)
       && e.node !in EntryNodes(x) && e.node !in EntryNodes(y) && EntryNodes(x) !! EntryNodes(y) {
      forall i, j | 0 <= i < j < |s|
        ensures s[i].node != s[j].node
      {
        assert i < n ==> s[i].node in EntryNodes(x);
        assert j > n ==> s[j].node in EntryNodes(y);
      }
    }
  }

  lemma WithoutNodes(s: seq<Entry>, i: nat)
    requires i < |s| && DistinctNodes(s)
    ensures DistinctNodes(Without(s, i)) && EntryNodes(Without(s, i)) == EntryNodes(s) - {s[i].node}
  {
    var x, y := s[..i], s[i + 1..];
    assert s == x + [s[i]] + y;
    DistinctNodesJoin(x, s[i], y);
    EntryNodesJoin(x, s[i], y);
    var r := x + y;
    assert forall k :: 0 <= k < |x| ==> r[k] == x[k];
    assert forall k :: 0 <= k < |y| ==> r[|x| + k] == y[k];
    assert forall k :: |x| <= k < |r| ==> r[k] == y[k - |x|];
  }

  /** The nodes of a tree, and whether they are distinct, can be read off its in-order sequence. */
  lemma {:induction false} NodesInOrder(t: Tree)
    ensures Nodes(t) == EntryNodes(InOrder(t))
    ensures Distinct(t) <==> DistinctNodes(InOrder(t))
  {
    if t.Bin? {
      NodesInOrder(t.left);
      NodesInOrder(t.right);
      EntryNodesJoin(InOrder(t.left), t.entry, InOrder(t.right));
      DistinctNodesJoin(InOrder(t.left), t.entry, InOrder(t.right));
    }
  }

  lemma SameOrder(t: Tree, u: Tree)
    requires InOrder(t) == InOrder(u)
    ensures Nodes(t) == Nodes(u) && (Distinct(t) <==> Distinct(u))
  {
    NodesInOrder(t);
    NodesInOrder(u);
  }

  lemma {:induction false} AddRecursiveNodes(t: Tree, e: Entry)
    requires Distinct(t) && e.node !in Nodes(t)
    ensures Distinct(AddRecursive(t, e)) && Nodes(AddRecursive(t, e)) == Nodes(t) + {e.node}
  {
    if t.Bin? {
      var s := if Less(e, t.entry) then Left else Right;
      AddRecursiveNodes(Child(s, t), e);
      var t' := Make(s, AddRecursive(Child(s, t), e), t.entry, t.color, Child(s.Other(), t));
      FixInsertionOrder(s, t');
      SameOrder(FixInsertion(s, t'), t');
    }
  }

  lemma ShrinkNodes(s: Side, t: Tree, sub: Shrunk)
    requires t.Bin? && Distinct(sub.tree) && Distinct(Child(s.Other(), t))
    requires Nodes(sub.tree) !! Nodes(Child(s.Other(), t))
    requires t.entry.node !in Nodes(sub.tree) && t.entry.node !in Nodes(Child(s.Other(), t))
    ensures Distinct(Shrink(s, t, sub).tree)
    ensures Nodes(Shrink(s, t, sub).tree) == Nodes(sub.tree) + {t.entry.node} + Nodes(Child(s.Other(), t))
  {
    var t' := Make(s, sub.tree, t.entry, t.color, Child(s.Other(), t));
    FixDeletionOrder(s.Other(), t');
    SameOrder(FixDeletion(s.Other(), t').tree, t');
  }

  lemma {:induction false} DeleteRightmostNodes(t: Tree)
    requires t.Bin? && Distinct(t)
    ensures var r := DeleteRightmost(t).tree; var n := Rightmost(t).node;
            Distinct(r) && n in Nodes(t) && Nodes(r) == Nodes(t) - {n}
  {
    if t.right.Bin? {
      DeleteRightmostNodes(t.right);
      ShrinkNodes(Right, t, DeleteRightmost(t.right));
    }
  }

  lemma DeleteRootNodes(t: Tree)
    requires t.Bin? && Distinct(t)
    ensures Distinct(DeleteRoot(t).tree) && Nodes(DeleteRoot(t).tree) == Nodes(t) - {t.entry.node}
  {
    if t.left.Bin? {
      DeleteRightmostNodes(t.left);
      ShrinkNodes(Left, t.(entry := Rightmost(t.left)), DeleteRightmost(t.left));
    }
  }

  lemma DeleteRecursiveNodes(t: Tree, i: nat)
    requires Distinct(t) && Sorted(InOrder(t)) && i < |InOrder(t)|
    ensures var r := DeleteRecursive(t, InOrder(t)[i]).tree;
            Distinct(r) && Nodes(r) == Nodes(t) - {InOrder(t)[i].node}
  {
    hide *;
    DeleteRecursiveOrder(t, i);
    NodesInOrder(t);
    WithoutNodes(InOrder(t), i);
    NodesInOrder(DeleteRecursive(t, InOrder(t)[i]).tree);
  }
}
