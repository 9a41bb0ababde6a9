/** Read-only walks over the tree in the heap: member search and sglib's own consistency check. */
module RbSearch {
  import opened CList
  import opened RbTree
  import opened RbFix
  import opened RbCorrect
  import opened RbHeap

  // ---------------------------------------------------------------------------------------------
  // The comparator

  /** The subtracting comparator has the sign of the comparison exactly when the difference does not overflow. */
  lemma CompareExact(x: int, y: int)
    requires -0x8000_0000 <= x < 0x8000_0000 && -0x8000_0000 <= y < 0x8000_0000
    ensures ((Compare(x, y) < 0 <==> x < y) && (Compare(x, y) > 0 <==> x > y))
            <==> -0x8000_0000 <= x - y < 0x8000_0000
  {
    if x - y >= 0x8000_0000 {
      assert (x - y) % 0x1_0000_0000 == x - y;
    } else if x < y {
      assert (x - y) % 0x1_0000_0000 == x - y + 0x1_0000_0000;
    }
  }

  // ---------------------------------------------------------------------------------------------
  // Height

  function Pow2(n: nat): nat {
    if n == 0 then 1 else 2 * Pow2(n - 1)
  }

  lemma {:induction false} Pow2Monotone(m: nat, n: nat)
    requires m <= n
    ensures Pow2(m) <= Pow2(n)
  {
    if m < n {
      Pow2Monotone(m, n - 1);
    }
  }

  lemma {:induction false} Pow2Square(n: nat)
    ensures Pow2(2 * n) == Pow2(n) * Pow2(n)
  {
    if n > 0 {
      Pow2Square(n - 1);
      assert Pow2(2 * n) == 2 * Pow2(2 * n - 1) == 4 * Pow2(2 * n - 2);
    }
  }

  function Height(t: Tree): nat {
    if t.Nil? then 0
    else 1 + if Height(t.left) > Height(t.right) then Height(t.left) else Height(t.right)
  }

  lemma {:induction false} HeightIsBlack(t: Tree)
    requires RedBlack(t)
    ensures Height(t) <= 2 * BlackHeight(t) + if IsRed(t) then 1 else 0
    ensures Pow2(BlackHeight(t)) <= |InOrder(t)| + 1
  {
    if t.Bin? {
      HeightIsBlack(t.left);
      HeightIsBlack(t.right);
    }
  }

  /** The height of a valid tree of n nodes is at most 2 log2(n + 1). */
  lemma HeightIsLogarithmic(t: Tree)
    requires Valid(t)
    ensures Pow2(Height(t)) <= (|InOrder(t)| + 1) * (|InOrder(t)| + 1)
  {
    var h, n := BlackHeight(t), |InOrder(t)| + 1;
    HeightIsBlack(t);
    Pow2Monotone(Height(t), 2 * h);
    Pow2Square(h);
    assert Pow2(h) * Pow2(h) <= n * n by {
      MulMonotone(Pow2(h), n);
    }
  }

  lemma MulMonotone(x: nat, y: nat)
    requires x <= y
    ensures x * x <= y * y
  {
    assert x * x <= x * y <= y * y;
  }

  // ---------------------------------------------------------------------------------------------
  // Search

  ghost predicate HasNum(s: seq<Entry>, num: Key) {
    exists i :: 0 <= i < |s| && s[i].num == num
  }

  lemma HasNumJoin(x: seq<Entry>, e: Entry, y: seq<Entry>, num: Key)
    ensures HasNum(x + [e] + y, num) <==> HasNum(x, num) || e.num == num || HasNum(y, num)
  {
    var s := x + [e] + y;
    assert s[|x|] == e;
    if i :| 0 <= i < |x| && x[i].num == num {
      assert s[i].num == num;
    }
    if i :| 0 <= i < |y| && y[i].num == num {
      assert s[|x| + 1 + i].num == num;
    }
  }

  /** Only one side of a sorted tree can hold a number. */
  lemma HasNumParts(t: Tree, num: Key)
    requires t.Bin? && Sorted(InOrder(t))
    ensures Sorted(InOrder(t.left)) && Sorted(InOrder(t.right))
    ensures HasNum(InOrder(t), num) <==>
            if num < t.entry.num then HasNum(InOrder(t.left), num)
            else num == t.entry.num || HasNum(InOrder(t.right), num)
  {
    HasNumJoin(InOrder(t.left), t.entry, InOrder(t.right), num);
    SortedParts(t);
    hide Sorted;
  }

  /** sglib_lookup_item_t_find_member finds a node with the number if there is one, in logarithmic time. */
  method FindMember(tree: Link, num: Key, ghost t: Tree) returns (res: Link, steps: nat)
    requires Models(tree, t) && Valid(t)
    ensures res != null <==> HasNum(InOrder(t), num)
    ensures res != null ==> res in Nodes(t) && res.data.num == num
    ensures Pow2(steps) <= (|InOrder(t)| + 1) * (|InOrder(t)| + 1)
  {
    assert !HasNum(InOrder(Nil), num);
    HeightIsLogarithmic(t);
    hide HasNum;
    hide Sorted;
    hide RedBlack;
    hide InOrder;
    ghost var u := t;
    res, steps := tree, 0;
    while res != null
      invariant res == Root(u) && Stored(u) && Nodes(u) <= Nodes(t) && Sorted(InOrder(u))
      invariant HasNum(InOrder(u), num) <==> HasNum(InOrder(t), num)
      invariant steps + Height(u) <= Height(t)
      decreases u
    {
      HasNumParts(u, num);
      steps := steps + 1;
      var c := Compare(num, res.data.num);
      if c < 0 {
        res, u := res.data.left, u.left;
      } else if c > 0 {
        res, u := res.data.right, u.right;
      } else {
        break;
      }
    }
    Pow2Monotone(steps, Height(t));
  }

  // ---------------------------------------------------------------------------------------------
  // sglib's consistency check

  /** Every node is ordered against its children, which is all the check compares. */
  ghost predicate LocallyOrdered(t: Tree) {
    t.Bin? ==>
      && LocallyOrdered(t.left) && LocallyOrdered(t.right)
      && (t.left.Bin? ==> t.left.entry.num <= t.entry.num)
      && (t.right.Bin? ==> t.entry.num <= t.right.entry.num)
  }

  /** `ok` is false where an assert of the check would abort; `pathdeep` is -1 until the first NULL is met. */
  method CheckRecursive(tree: Link, pathdeep: int, cdeep: nat, ghost t: Tree) returns (ok: bool, pathdeep': int)
    requires tree == Root(t) && Stored(t)
    ensures ok <==> LocallyOrdered(t) && RedBlack(t) && (pathdeep < 0 || pathdeep == cdeep + BlackHeight(t))
    ensures ok ==> pathdeep' == cdeep + BlackHeight(t)
    decreases t
  {
    pathdeep' := pathdeep;
    if tree == null {
      if pathdeep' < 0 {
        pathdeep' := cdeep;
      }
      ok := pathdeep' == cdeep;
    } else {
      var left, right := tree.data.left, tree.data.right;
      ok := (left != null ==> Compare(left.data.num, tree.data.num) <= 0)
        && (right != null ==> Compare(tree.data.num, right.data.num) <= 0);
      if tree.data.color == Red {
        ok := ok && (left == null || left.data.color == Black) && (right == null || right.data.color == Black);
      }
      if !ok { return; }
      assert allocated(Nodes(t.right));
      var cdeep' := if tree.data.color == Red then cdeep else cdeep + 1;
      ok, pathdeep' := CheckRecursive(left, pathdeep', cdeep', t.left);
      if !ok { return; }
      ok, pathdeep' := CheckRecursive(right, pathdeep', cdeep', t.right);
    }
  }

  /** The check accepts exactly the black-rooted red-black trees with ordered parents and children. */
  method ConsistencyCheck(tree: Link, ghost t: Tree) returns (ok: bool)
    requires tree == Root(t) && Stored(t)
    ensures ok <==> LocallyOrdered(t) && RedBlack(t) && !IsRed(t)
  {
    ok := tree == null || tree.data.color == Black;
    if ok {
      var pathdeep;
      ok, pathdeep := CheckRecursive(tree, -1, 0, t);
    }
  }

  /** Every tree the program keeps passes the check. */
  lemma {:induction false} ValidIsConsistent(t: Tree)
    requires Sorted(InOrder(t))
    ensures LocallyOrdered(t)
  {
    if t.Bin? {
      SortedParts(t);
      ValidIsConsistent(t.left);
      ValidIsConsistent(t.right);
      if t.left.Bin? {
        assert InOrder(t.left)[|InOrder(t.left.left)|] == t.left.entry;
      }
      if t.right.Bin? {
        assert InOrder(t.right)[|InOrder(t.right.left)|] == t.right.entry;
      }
    }
  }
}
