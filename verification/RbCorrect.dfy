/** Adding to and deleting from a red-black search tree: what becomes of its order, colours and heights. */
module RbCorrect {
  import opened CList
  import opened RbTree
  import opened RbFix

  /** What the program keeps between calls: a search tree with a black root and no discrepancy. */
  ghost predicate Valid(t: Tree) {
    RedBlack(t) && !IsRed(t) && Sorted(InOrder(t))
  }

  function Without<T>(s: seq<T>, i: nat): seq<T>
    requires i < |s|
  {
    s[..i] + s[i + 1..]
  }

  function With<T>(s: seq<T>, i: nat, x: T): seq<T>
    requires i <= |s|
  {
    s[..i] + [x] + s[i..]
  }

  /** e is ordered against every entry: no other node has its number and address. */
  ghost predicate Comparable(s: seq<Entry>, e: Entry) {
    forall i :: 0 <= i < |s| ==> Less(e, s[i]) || Less(s[i], e)
  }

  lemma SortedParts(t: Tree)
    requires t.Bin? && Sorted(InOrder(t))
    ensures Sorted(InOrder(t.left)) && Sorted(InOrder(t.right))
    ensures forall i :: 0 <= i < |InOrder(t.left)| ==> Less(InOrder(t.left)[i], t.entry)
    ensures forall i :: 0 <= i < |InOrder(t.right)| ==> Less(t.entry, InOrder(t.right)[i])
  {
    var l, s := InOrder(t.left), InOrder(t);
    assert s[|l|] == t.entry;
    assert forall i :: 0 <= i < |l| ==> s[i] == l[i];
    assert forall i :: 0 <= i < |InOrder(t.right)| ==> s[|l| + 1 + i] == InOrder(t.right)[i];
  }

  // ---------------------------------------------------------------------------------------------
  // Insertion

  /** The position e takes among the entries already in order. */
  ghost predicate Splits(s: seq<Entry>, p: nat, e: Entry) {
    && p <= |s|
    && (forall i :: 0 <= i < p ==> Less(s[i], e))
    && (forall i :: p <= i < |s| ==> Less(e, s[i]))
  }

  lemma SplitsEmpty(e: Entry)
    ensures Splits([], 0, e) && With([], 0, e) == [e]
  {
  }

  lemma SplitsLeft(l: seq<Entry>, x: Entry, r: seq<Entry>, e: Entry, p: nat)
    requires Sorted(l + [x] + r) && Less(e, x) && Splits(l, p, e)
    ensures Splits(l + [x] + r, p, e) && With(l + [x] + r, p, e) == With(l, p, e) + [x] + r
  {
    var s := l + [x] + r;
    assert s[|l|] == x;
    assert forall i :: 0 <= i < |l| ==> s[i] == l[i];
  }

  lemma SplitsRight(l: seq<Entry>, x: Entry, r: seq<Entry>, e: Entry, p: nat)
    requires Sorted(l + [x] + r) && Less(x, e) && Splits(r, p, e)
    ensures Splits(l + [x] + r, |l| + 1 + p, e) && With(l + [x] + r, |l| + 1 + p, e) == l + [x] + With(r, p, e)
  {
    var s := l + [x] + r;
    assert s[|l|] == x;
    assert forall i :: 0 <= i < |l| ==> s[i] == l[i];
    assert forall i :: |l| < i < |s| ==> s[i] == r[i - |l| - 1];
  }

  lemma ComparableParts(t: Tree, e: Entry)
    requires t.Bin? && Comparable(InOrder(t), e)
    ensures Comparable(InOrder(t.left), e) && Comparable(InOrder(t.right), e)
    ensures Less(e, t.entry) || Less(t.entry, e)
  {
    var l, s := InOrder(t.left), InOrder(t);
    assert s[|l|] == t.entry;
    assert forall i :: 0 <= i < |l| ==> s[i] == l[i];
    assert forall i :: 0 <= i < |InOrder(t.right)| ==> s[|l| + 1 + i] == InOrder(t.right)[i];
  }

  lemma {:induction false} AddRecursiveOrder(t: Tree, e: Entry) returns (p: nat)
    requires Sorted(InOrder(t)) && Comparable(InOrder(t), e)
    ensures Splits(InOrder(t), p, e)
    ensures InOrder(AddRecursive(t, e)) == With(InOrder(t), p, e)
  {
    hide Sorted;
    hide Splits;
    hide With;
    hide Comparable;
    hide FixInsertion;
    if t.Nil? {
      p := 0;
      SplitsEmpty(e);
    } else {
      SortedParts(t);
      ComparableParts(t, e);
      var l, r := InOrder(t.left), InOrder(t.right);
      var side := if Less(e, t.entry) then Left else Right;
      FixInsertionOrder(side, Make(side, AddRecursive(Child(side, t), e), t.entry, t.color, Child(side.Other(), t)));
      p := AddRecursiveOrder(Child(side, t), e);
      if side == Left {
        SplitsLeft(l, t.entry, r, e, p);
      } else {
        SplitsRight(l, t.entry, r, e, p);
        p := |l| + 1 + p;
      }
    }
  }

  lemma {:induction false} AddRecursiveRedBlack(t: Tree, e: Entry)
    requires RedBlack(t)
    ensures var t' := AddRecursive(t, e);
            && Balanced(t') && BlackHeight(t') == BlackHeight(t)
            && Tolerated(t') && (!IsRed(t) ==> NoRedRed(t'))
  {
    if t.Bin? {
      var s := if Less(e, t.entry) then Left else Right;
      var sub, far := Child(s, t), Child(s.Other(), t);
      AddRecursiveRedBlack(sub, e);
      var t' := Make(s, AddRecursive(sub, e), t.entry, t.color, far);
      if t.color == Black {
        FixInsertionRedBlack(BlackHeight(sub), s, t');
      }
    }
  }

  /** Adding an entry that is not in the tree puts it at its place in order and breaks no rule. */
  lemma AddCorrect(t: Tree, e: Entry) returns (p: nat)
    requires Valid(t) && Comparable(InOrder(t), e)
    ensures Splits(InOrder(t), p, e)
    ensures InOrder(Add(t, e)) == With(InOrder(t), p, e)
    ensures Valid(Add(t, e))
  {
    p := AddRecursiveOrder(t, e);
    AddRecursiveRedBlack(t, e);
    var t' := AddRecursive(t, e);
    OrderPaint(Black, t');
    FitsPaint(t');
  }

  // ---------------------------------------------------------------------------------------------
  // Deletion

  lemma ShrinkOrder(s: Side, t: Tree, sub: Shrunk)
    requires t.Bin?
    ensures InOrder(Shrink(s, t, sub).tree) == Join(s, InOrder(sub.tree), t.entry, InOrder(Child(s.Other(), t)))
  {
    FixDeletionOrder(s.Other(), Make(s, sub.tree, t.entry, t.color, Child(s.Other(), t)));
  }

  lemma {:induction false} DeleteRightmostOrder(t: Tree)
    requires t.Bin?
    ensures InOrder(t) == InOrder(DeleteRightmost(t).tree) + [Rightmost(t)]
  {
    if t.right.Bin? {
      DeleteRightmostOrder(t.right);
      ShrinkOrder(Right, t, DeleteRightmost(t.right));
    }
  }

  lemma DeleteRootOrder(t: Tree)
    requires t.Bin?
    ensures InOrder(DeleteRoot(t).tree) == InOrder(t.left) + InOrder(t.right)
  {
    if t.left.Bin? {
      DeleteRightmostOrder(t.left);
      ShrinkOrder(Left, t.(entry := Rightmost(t.left)), DeleteRightmost(t.left));
    }
  }

  lemma {:induction false} DeleteRecursiveOrder(t: Tree, i: nat)
    requires Sorted(InOrder(t)) && i < |InOrder(t)|
    ensures InOrder(DeleteRecursive(t, InOrder(t)[i]).tree) == Without(InOrder(t), i)
  {
    hide Sorted;
    hide Shrink;
    hide DeleteRoot;
    hide DeleteRecursive;
    hide Without;
    SortedParts(t);
    var l, r, s, e := InOrder(t.left), InOrder(t.right), InOrder(t), InOrder(t)[i];
    DeleteDirection(t, i);
    WithoutParts(l, t.entry, r, i);
    if i < |l| {
      DeleteRecursiveOrder(t.left, i);
      ShrinkOrder(Left, t, DeleteRecursive(t.left, e));
    } else if i > |l| {
      var j := i - |l| - 1;
      DeleteRecursiveOrder(t.right, j);
      ShrinkOrder(Right, t, DeleteRecursive(t.right, e));
    } else {
      DeleteRootOrder(t);
    }
  }

  lemma WithoutParts<T>(l: seq<T>, e: T, r: seq<T>, i: nat)
    requires i < |l| + 1 + |r|
    ensures Without(l + [e] + r, i) == if i < |l| then Without(l, i) + [e] + r
                                       else if i > |l| then l + [e] + Without(r, i - |l| - 1)
                                       else l + r
  {
  }

  /** The search goes to the side on which the i-th entry stands. */
  lemma DeleteDirection(t: Tree, i: nat)
    requires Sorted(InOrder(t)) && i < |InOrder(t)|
    ensures var n, e := |InOrder(t.left)|, InOrder(t)[i];
            && (i < n ==> e == InOrder(t.left)[i] && DeleteRecursive(t, e) == Shrink(Left, t, DeleteRecursive(t.left, e)))
            && (i > n ==> e == InOrder(t.right)[i - n - 1]
                          && DeleteRecursive(t, e) == Shrink(Right, t, DeleteRecursive(t.right, e)))
            && (i == n ==> DeleteRecursive(t, e) == DeleteRoot(t))
  {
    hide Shrink;
    hide DeleteRoot;
    var n, s := |InOrder(t.left)|, InOrder(t);
    assert s[n] == t.entry;
    assert i != n ==> if i < n then Less(s[i], s[n]) else Less(s[n], s[i]);
  }

  /** What every deleting call promises its caller about the subtree t it was given. */
  ghost predicate Shrinks(t: Tree, r: Shrunk) {
    && RedBlack(r.tree)
    && BlackHeight(t) == BlackHeight(r.tree) + (if r.shallower then 1 else 0)
    && (IsRed(r.tree) ==> IsRed(t))
  }

  lemma ShrinkRedBlack(s: Side, t: Tree, sub: Shrunk)
    requires t.Bin? && RedBlack(t) && Shrinks(Child(s, t), sub)
    ensures Shrinks(t, Shrink(s, t, sub))
  {
    var t' := Make(s, sub.tree, t.entry, t.color, Child(s.Other(), t));
    if sub.shallower {
      FixDeletionRedBlack(BlackHeight(sub.tree), s.Other(), t');
    }
  }

  lemma {:induction false} DeleteRightmostRedBlack(t: Tree)
    requires t.Bin? && RedBlack(t)
    ensures Shrinks(t, DeleteRightmost(t))
  {
    if t.right.Bin? {
      DeleteRightmostRedBlack(t.right);
      ShrinkRedBlack(Right, t, DeleteRightmost(t.right));
    } else if t.left.Bin? {
      OnlyChild(Left, t);
      FitsPaint(t.left);
    }
  }

  /** An only child is red below a black node, so deleting its parent never costs black height. */
  lemma OnlyChild(s: Side, t: Tree)
    requires t.Bin? && RedBlack(t) && Child(s, t).Bin? && Child(s.Other(), t).Nil?
    ensures t.color == Black && Child(s, t).color == Red
  {
  }

  lemma DeleteRootRedBlack(t: Tree)
    requires t.Bin? && RedBlack(t)
    ensures Shrinks(t, DeleteRoot(t))
  {
    if t.left.Bin? {
      DeleteRightmostRedBlack(t.left);
      var u := t.(entry := Rightmost(t.left));
      assert RedBlack(u) && BlackHeight(u) == BlackHeight(t);
      ShrinkRedBlack(Left, u, DeleteRightmost(t.left));
    } else if t.right.Bin? {
      OnlyChild(Right, t);
      FitsPaint(t.right);
    }
  }

  lemma {:induction false} DeleteRecursiveRedBlack(t: Tree, e: Entry)
    requires RedBlack(t)
    ensures Shrinks(t, DeleteRecursive(t, e))
  {
    if t.Bin? {
      if Less(e, t.entry) {
        DeleteRecursiveRedBlack(t.left, e);
        ShrinkRedBlack(Left, t, DeleteRecursive(t.left, e));
      } else if Less(t.entry, e) {
        DeleteRecursiveRedBlack(t.right, e);
        ShrinkRedBlack(Right, t, DeleteRecursive(t.right, e));
      } else {
        DeleteRootRedBlack(t);
      }
    }
  }

  /** Deleting a member takes exactly it out of the order and breaks no rule. */
  lemma DeleteCorrect(t: Tree, i: nat)
    requires Valid(t) && i < |InOrder(t)|
    ensures InOrder(Delete(t, InOrder(t)[i])) == Without(InOrder(t), i)
    ensures Valid(Delete(t, InOrder(t)[i]))
  {
    var r := DeleteRecursive(t, InOrder(t)[i]);
    DeleteRecursiveOrder(t, i);
    DeleteRecursiveRedBlack(t, InOrder(t)[i]);
    OrderPaint(Black, r.tree);
    assert !IsRed(r.tree);
    assert Paint(Black, r.tree) == r.tree;
  }
}
