/** Deletion in the pointer code of sglib.h's red-black tree: relinking, never copying a key. */
module RbDelete {
  import opened CList
  import opened RbTree
  import opened RbFix
  import opened RbCorrect
  import opened RbNodes
  import opened RbHeap

  /** What follows a deleting call on a child: its root is stored, and lost height calls for the fix-up. */
  method ShrinkAbove(s: Side, tree: Node<Item>, link: Link, deepDecreased: bool, ghost t: Tree, ghost sub: Shrunk)
    returns (root: Node<Item>, res: bool)
    requires t.Bin? && tree == t.entry.node && tree.data.num == t.entry.num && tree.data.color == t.color
    requires RedBlack(t) && Shrinks(Child(s, t), sub) && deepDecreased == sub.shallower
    requires var far := Child(s.Other(), t);
             && Models(link, sub.tree) && Stored(far) && Distinct(far) && Get(s.Other(), tree.data) == Root(far)
             && tree !in Nodes(sub.tree) && tree !in Nodes(far) && Nodes(sub.tree) !! Nodes(far)
    modifies tree`data, Nodes(sub.tree)`data, Nodes(Child(s.Other(), t))`data
    ensures Models(root, Shrink(s, t, sub).tree) && res == Shrink(s, t, sub).shallower
  {
    ghost var far := Child(s.Other(), t);
    ghost var t' := Make(s, sub.tree, t.entry, t.color, far);
    FixDeletionOrder(s.Other(), t');
    SameOrder(FixDeletion(s.Other(), t').tree, t');
    FitsParts(s, t);
    if deepDecreased {
      SiblingExists(BlackHeight(sub.tree), s.Other(), t');
    }
    hide *;
    root, res := tree, false;
    Relink(s, tree, link, sub.tree, t.entry, t.color, far);
    if deepDecreased {
      root, res := FixDeletionDiscrepancy(s.Other(), tree, t');
    }
  }

  method DeleteRightmostLeaf(tree: Node<Item>, ghost t: Tree) returns (root: Link, leaf: Node<Item>, res: bool)
    requires t.Bin? && Models(tree, t) && RedBlack(t)
    modifies Nodes(t)`data
    ensures var r := DeleteRightmost(t);
            Models(root, r.tree) && res == r.shallower
    ensures leaf == Rightmost(t).node && leaf.data.num == Rightmost(t).num
  {
    Parts(Right, t);
    if tree.data.right == null {
      leaf := tree;
      var left := tree.data.left;
      if left != null {
        OnlyChild(Left, t);
        if tree.data.color == Black && left.data.color == Black {
          assert false;
        }
        res := false;
        Recolor(left, Black, t.left);
        root := left;
      } else {
        root, res := null, tree.data.color == Black;
      }
    } else {
      DeleteRightmostRedBlack(t.right);
      DeleteRightmostNodes(t.right);
      assert allocated(Nodes(t.left));
      var link, deepDecreased;
      link, leaf, deepDecreased := DeleteRightmostLeaf(tree.data.right, t.right);
      root, res := ShrinkAbove(Right, tree, link, deepDecreased, t, DeleteRightmost(t.right));
    }
  }

  /** The deletion of a node found: its predecessor, if any, takes over its links and colour. */
  method DeleteFound(tree: Node<Item>, ghost t: Tree) returns (root: Link, res: bool)
    requires t.Bin? && Models(tree, t) && RedBlack(t)
    modifies Nodes(t)`data
    ensures Models(root, DeleteRoot(t).tree) && res == DeleteRoot(t).shallower
  {
    Parts(Left, t);
    var left, right := tree.data.left, tree.data.right;
    if left == null {
      if right == null {
        root, res := null, tree.data.color == Black;
      } else {
        OnlyChild(Right, t);
        if tree.data.color == Black && right.data.color == Black {
          assert false;
        }
        res := false;
        Recolor(right, Black, t.right);
        root := right;
      }
    } else {
      ghost var u := t.(entry := Rightmost(t.left));
      DeleteRightmostRedBlack(t.left);
      DeleteRightmostNodes(t.left);
      assert RedBlack(u);
      assert allocated(Nodes(t.right));
      var link, leaf, deepDecreased := DeleteRightmostLeaf(left, t.left);
      leaf.data := Item(leaf.data.num, tree.data.color, link, tree.data.right);
      root, res := ShrinkAbove(Left, leaf, link, deepDecreased, u, DeleteRightmost(t.left));
    }
  }

  /** On the way down, the comparisons lead to the subtree that holds the i-th entry. */
  lemma Locate(t: Tree, i: nat)
    requires Sorted(InOrder(t)) && i < |InOrder(t)|
    ensures var e, n := InOrder(t)[i], |InOrder(t.left)|;
            if Less(e, t.entry) then i < n && InOrder(t.left)[i] == e
            else if Less(t.entry, e) then n < i && InOrder(t.right)[i - n - 1] == e
            else i == n && e == t.entry
  {
    SortedParts(t);
  }

  method DeleteRecursive(tree: Link, elem: Node<Item>, ghost t: Tree, ghost i: nat) returns (root: Link, res: bool)
    requires Models(tree, t) && RedBlack(t) && Sorted(InOrder(t))
    requires i < |InOrder(t)| && InOrder(t)[i] == Entry(elem, elem.data.num)
    modifies Nodes(t)`data
    ensures var r := RbTree.DeleteRecursive(t, InOrder(t)[i]);
            Models(root, r.tree) && res == r.shallower
    decreases t, 1
  {
    if tree == null {
      assert false;
    } else {
      Locate(t, i);
      var cmp := Compare(elem.data.num, tree.data.num);
      if cmp < 0 || (cmp == 0 && elem.addr < tree.addr) {
        root, res := DeleteBelow(Left, tree, elem, t, i);
      } else if cmp > 0 || (cmp == 0 && elem.addr > tree.addr) {
        root, res := DeleteBelow(Right, tree, elem, t, i);
      } else {
        assert elem == tree;
        root, res := DeleteFound(tree, t);
      }
    }
  }

  /** The recursive call into the child on side s. */
  method DeleteBelow(s: Side, tree: Node<Item>, elem: Node<Item>, ghost t: Tree, ghost i: nat) returns (root: Link, res: bool)
    requires Models(tree, t) && t.Bin? && RedBlack(t) && Sorted(InOrder(t))
    requires i < |InOrder(t)| && InOrder(t)[i] == Entry(elem, elem.data.num)
    requires if s == Left then Less(InOrder(t)[i], t.entry) else Less(t.entry, InOrder(t)[i])
    modifies Nodes(t)`data
    ensures var r := RbTree.DeleteRecursive(t, InOrder(t)[i]);
            Models(root, r.tree) && res == r.shallower
    decreases t, 0
  {
    ghost var e, sub, far := InOrder(t)[i], Child(s, t), Child(s.Other(), t);
    Locate(t, i);
    SortedParts(t);
    ghost var j := if s == Left then i else i - |InOrder(t.left)| - 1;
    Parts(s, t);
    DeleteRecursiveRedBlack(sub, e);
    DeleteRecursiveNodes(sub, j);
    assert allocated(Nodes(far));
    hide Stored;
    hide Distinct;
    hide Nodes;
    hide InOrder;
    hide Sorted;
    hide Shrink;
    hide Shrinks;
    var link, deepDecreased := DeleteRecursive(Get(s, tree.data), elem, sub, j);
    root, res := ShrinkAbove(s, tree, link, deepDecreased, t, RbTree.DeleteRecursive(sub, e));
  }

  /** sglib_lookup_item_t_delete: from a valid tree, a valid tree without the i-th node and no other change. */
  method Delete(tree: Link, elem: Node<Item>, ghost t: Tree, ghost i: nat) returns (root: Link, ghost t': Tree)
    requires Models(tree, t) && Valid(t)
    requires i < |InOrder(t)| && InOrder(t)[i] == Entry(elem, elem.data.num)
    modifies Nodes(t)`data
    ensures Models(root, t') && Valid(t') && Nodes(t') == Nodes(t) - {elem}
    ensures InOrder(t') == Without(InOrder(t), i)
  {
    t' := RbTree.Delete(t, InOrder(t)[i]);
    DeleteCorrect(t, i);
    DeleteRecursiveNodes(t, i);
    hide InOrder;
    var res;
    root, res := DeleteRecursive(tree, elem, t, i);
    if root != null {
      Recolor(root, Black, RbTree.DeleteRecursive(t, InOrder(t)[i]).tree);
    }
  }
}
