/** The pointer code of sglib.h's red-black tree, proved to do to the heap what RbTree says of shapes. */
module RbHeap {
  import opened CList
  import opened RbTree
  import opened RbFix
  import opened RbCorrect
  import opened RbNodes

  function Root(t: Tree): Link {
    if t.Nil? then null else t.entry.node
  }

  /** Every node of t holds in the heap what t says: its number, colour and links. */
  ghost predicate Stored(t: Tree)
    reads Nodes(t)`data
  {
    t.Bin? ==>
      && t.entry.node.data == Item(t.entry.num, t.color, Root(t.left), Root(t.right))
      && Stored(t.left) && Stored(t.right)
  }

  /** The pointer `tree` leads to exactly the tree t. */
  ghost predicate Models(tree: Link, t: Tree)
    reads Nodes(t)`data
  {
    tree == Root(t) && Stored(t) && Distinct(t)
  }

  // ---------------------------------------------------------------------------------------------
  // Fields by side, as the macro parameters leftt and rightt name them

  function Get(s: Side, i: Item): Link {
    if s == Left then i.left else i.right
  }

  function Set(s: Side, i: Item, link: Link): Item {
    if s == Left then i.(left := link) else i.(right := link)
  }

  lemma StoredMake(s: Side, near: Tree, e: Entry, c: Color, far: Tree)
    requires Stored(near) && Stored(far)
    requires var i := e.node.data; i.num == e.num && i.color == c && Get(s, i) == Root(near) && Get(s.Other(), i) == Root(far)
    ensures Stored(Make(s, near, e, c, far)) && Root(Make(s, near, e, c, far)) == e.node
  {
  }

  /** A node's fields, and its two subtrees, which are apart from it and from each other. */
  lemma Parts(s: Side, t: Tree)
    requires t.Bin? && Models(Root(t), t)
    ensures var i := t.entry.node.data;
            i.num == t.entry.num && i.color == t.color && Get(s, i) == Root(Near(s, t)) && Get(s.Other(), i) == Root(Far(s, t))
    ensures Stored(Near(s, t)) && Distinct(Near(s, t)) && Stored(Far(s, t)) && Distinct(Far(s, t))
    ensures Nodes(t) == Nodes(Near(s, t)) + {t.entry.node} + Nodes(Far(s, t))
    ensures t.entry.node !in Nodes(Near(s, t)) && t.entry.node !in Nodes(Far(s, t))
    ensures Nodes(Near(s, t)) !! Nodes(Far(s, t))
  {
  }

  /** In-order entries are what the nodes hold. */
  lemma {:induction false} StoredNums(t: Tree)
    requires Stored(t)
    ensures forall i :: 0 <= i < |InOrder(t)| ==> InOrder(t)[i].node.data.num == InOrder(t)[i].num
  {
    if t.Bin? {
      StoredNums(t.left);
      StoredNums(t.right);
    }
  }

  ghost predicate Apart(n: Node<Item>, x: Tree, y: Tree, z: Tree, u: Tree, w: Tree) {
    n !in Nodes(x) && n !in Nodes(y) && n !in Nodes(z) && n !in Nodes(u) && n !in Nodes(w)
  }

  /** The root of t stores what t says, and so do its subtrees. */
  ghost predicate Linked(s: Side, t: Tree)
    reads if t.Bin? then {t.entry.node} else {}, Nodes(Near(s, t))`data, Nodes(Far(s, t))`data
  {
    t.Bin? ==>
      && t.entry.node.data.num == t.entry.num && t.entry.node.data.color == t.color
      && Get(s, t.entry.node.data) == Root(Near(s, t)) && Get(s.Other(), t.entry.node.data) == Root(Far(s, t))
      && Stored(Near(s, t)) && Stored(Far(s, t)) && Distinct(Near(s, t)) && Distinct(Far(s, t))
  }

  /** The nodes and subtrees a deletion fix-up works on are all apart from each other. */
  lemma Family(s: Side, t: Tree)
    requires t.Bin? && Near(s, t).Bin? && Models(Root(t), t)
    ensures var b, f := Near(s, t), Far(s, t);
            var x, c := Near(s, b), Far(s, b);
            var y, d := Near(s, c), Far(s, c);
            var z, u := Near(s, d), Far(s, d);
            && Linked(s, t) && Linked(s, b) && Linked(s, c) && Linked(s, d)
            && t.entry.node in Nodes(t) && Apart(t.entry.node, x, c, f, Nil, b) && Apart(t.entry.node, y, d, z, u, f)
            && b.entry.node in Nodes(t) && Apart(b.entry.node, x, c, f, Nil, f) && Apart(b.entry.node, y, d, z, u, f)
            && (x.Bin? ==> x.entry.node in Nodes(t) && Apart(x.entry.node, c, f, y, d, Nil))
            && (c.Bin? ==> c.entry.node in Nodes(t) && Apart(c.entry.node, x, y, d, f, Nil))
            && (c.Bin? ==> Apart(c.entry.node, z, u, Nil, Nil, Nil))
            && (y.Bin? ==> y.entry.node in Nodes(t) && Apart(y.entry.node, x, d, f, Nil, Nil))
            && (d.Bin? ==> d.entry.node in Nodes(t) && Apart(d.entry.node, x, y, z, u, f))
            && allocated(Nodes(f)) && allocated(Nodes(x)) && allocated(Nodes(c)) && allocated(Nodes(d))
  {
    var b := Near(s, t);
    var c := Far(s, b);
    Parts(s, t);
    Parts(s, b);
    if c.Bin? {
      Parts(s, c);
      if Far(s, c).Bin? {
        Parts(s, Far(s, c));
      }
    }
  }

  // ---------------------------------------------------------------------------------------------
  // The relinkings the fix-up macros are made of

  /** `b` rises above its parent `a`, which takes over b's far subtree. */
  method RotateOnce(s: Side, a: Node<Item>, b: Node<Item>, ca: Color, cb: Color,
                    ghost x: Tree, ghost y: Tree, ghost z: Tree)
    requires Stored(x) && Stored(y) && Stored(z)
    requires Get(s, b.data) == Root(x) && Get(s.Other(), b.data) == Root(y) && Get(s.Other(), a.data) == Root(z)
    requires a != b && Apart(a, x, y, z, Nil, Nil) && Apart(b, x, y, z, Nil, Nil)
    modifies a`data, b`data
    ensures Stored(Make(s, x, Entry(b, old(b.data.num)), cb, Make(s, y, Entry(a, old(a.data.num)), ca, z)))
  {
    a.data := Set(s, a.data, Get(s.Other(), b.data)).(color := ca);
    b.data := Set(s.Other(), b.data, a).(color := cb);
    StoredMake(s, y, Entry(a, a.data.num), ca, z);
    StoredMake(s, x, Entry(b, b.data.num), cb, Make(s, y, Entry(a, a.data.num), ca, z));
  }

  /** `c` rises above its parent `b` and its grandparent `a`, which take over its subtrees. */
  method RotateTwice(s: Side, a: Node<Item>, b: Node<Item>, c: Node<Item>, ca: Color, cc: Color,
                     ghost x: Tree, ghost y: Tree, ghost z: Tree, ghost w: Tree)
    requires Stored(x) && Stored(y) && Stored(z) && Stored(w)
    requires Get(s, b.data) == Root(x) && Get(s.Other(), a.data) == Root(w)
    requires Get(s, c.data) == Root(y) && Get(s.Other(), c.data) == Root(z)
    requires a != b && a != c && b != c
    requires Apart(a, x, y, z, Nil, w) && Apart(b, x, y, z, Nil, w) && Apart(c, x, y, z, Nil, w)
    modifies a`data, b`data, c`data
    ensures Stored(Make(s, Make(s, x, Entry(b, old(b.data.num)), old(b.data.color), y), Entry(c, old(c.data.num)), cc,
                        Make(s, z, Entry(a, old(a.data.num)), ca, w)))
  {
    hide Stored;
    hide Nodes;
    hide Make;
    b.data := Set(s.Other(), b.data, Get(s, c.data));
    a.data := Set(s, a.data, Get(s.Other(), c.data)).(color := ca);
    c.data := Set(s.Other(), Set(s, c.data, b), a).(color := cc);
    StoredMake(s, x, Entry(b, b.data.num), b.data.color, y);
    StoredMake(s, z, Entry(a, a.data.num), ca, w);
    StoredMake(s, Make(s, x, Entry(b, b.data.num), b.data.color, y), Entry(c, c.data.num), cc,
               Make(s, z, Entry(a, a.data.num), ca, w));
  }

  /** `d` rises above `c`, `b` and `a`, each the parent of the one before. */
  method RotateThrice(s: Side, a: Node<Item>, b: Node<Item>, c: Node<Item>, d: Node<Item>,
                      ghost x: Tree, ghost y: Tree, ghost z: Tree, ghost u: Tree, ghost w: Tree)
    requires Stored(x) && Stored(y) && Stored(z) && Stored(u) && Stored(w)
    requires Get(s, b.data) == Root(x) && Get(s.Other(), a.data) == Root(w) && Get(s.Other(), b.data) == c
    requires Get(s, c.data) == Root(y) && Get(s, d.data) == Root(z) && Get(s.Other(), d.data) == Root(u)
    requires a != b && a != c && b != c && d != a && d != b && d != c
    requires Apart(a, x, y, z, u, w) && Apart(b, x, y, z, u, w) && Apart(c, x, y, z, u, w) && Apart(d, x, y, z, u, w)
    modifies a`data, c`data, d`data
    ensures Stored(Make(s, Make(s, x, Entry(b, old(b.data.num)), old(b.data.color),
                                Make(s, y, Entry(c, old(c.data.num)), old(c.data.color), z)),
                        Entry(d, old(d.data.num)), Black, Make(s, u, Entry(a, old(a.data.num)), old(a.data.color), w)))
  {
    hide Stored;
    hide Nodes;
    hide Make;
    ghost var c' := Make(s, y, Entry(c, c.data.num), c.data.color, z);
    c.data := Set(s.Other(), c.data, Get(s, d.data));
    a.data := Set(s, a.data, Get(s.Other(), d.data));
    d.data := Set(s.Other(), Set(s, d.data, b), a).(color := Black);
    StoredMake(s, y, Entry(c, c.data.num), c.data.color, z);
    StoredMake(s, x, Entry(b, b.data.num), b.data.color, c');
    StoredMake(s, u, Entry(a, a.data.num), a.data.color, w);
    StoredMake(s, Make(s, x, Entry(b, b.data.num), b.data.color, c'), Entry(d, d.data.num), Black,
               Make(s, u, Entry(a, a.data.num), a.data.color, w));
  }

  /** What a recursive call stored through `&t->left` or `&t->right`: the new root of that subtree. */
  method Relink(s: Side, n: Node<Item>, link: Link, ghost sub: Tree, ghost e: Entry, ghost c: Color, ghost far: Tree)
    requires Models(link, sub) && Stored(far) && Distinct(far)
    requires n == e.node && n.data.num == e.num && n.data.color == c && Get(s.Other(), n.data) == Root(far)
    requires n !in Nodes(sub) + Nodes(far) && Nodes(sub) !! Nodes(far)
    modifies n`data
    ensures Models(n, Make(s, sub, e, c, far))
    ensures Nodes(Make(s, sub, e, c, far)) == Nodes(sub) + {n} + Nodes(far)
  {
    n.data := Set(s, n.data, link);
    StoredMake(s, sub, e, c, far);
  }

  /** The parent `a` and its children `b` and `f` take other colours, and no link changes. */
  method RecolorFamily(s: Side, a: Node<Item>, b: Node<Item>, f: Node<Item>, ca: Color, cb: Color, cf: Color,
                       ghost x: Tree, ghost y: Tree)
    requires Models(b, x) && Models(f, y) && Get(s, a.data) == b && Get(s.Other(), a.data) == f
    requires Nodes(x) !! Nodes(y) && a !in Nodes(x) + Nodes(y)
    modifies a`data, b`data, f`data
    ensures Stored(Make(s, Paint(cb, x), Entry(a, old(a.data.num)), ca, Paint(cf, y)))
  {
    b.data := b.data.(color := cb);
    f.data := f.data.(color := cf);
    a.data := a.data.(color := ca);
    StoredMake(s, Paint(cb, x), Entry(a, a.data.num), ca, Paint(cf, y));
  }

  // ---------------------------------------------------------------------------------------------
  // Insertion

  method FixInsertionDiscrepancy(s: Side, tree: Node<Item>, ghost t: Tree) returns (root: Node<Item>)
    requires Models(tree, t) && Near(s, t).Bin?
    modifies Nodes(t)`data
    ensures root == Root(FixInsertion(s, t)) && Stored(FixInsertion(s, t))
  {
    ghost var B, F := Near(s, t), Far(s, t);
    ghost var Bn, Bf := Near(s, B), Far(s, B);
    Parts(s, t);
    Parts(s, B);
    hide Stored;
    hide Distinct;
    hide Nodes;
    hide Make;
    hide Near;
    hide Far;
    hide Get;
    root := tree;
    var tl: Node<Item> := Get(s, tree.data);
    var far, bn, bf := Get(s.Other(), tree.data), Get(s, tl.data), Get(s.Other(), tl.data);
    if far != null && far.data.color == Red {
      if tl.data.color == Red {
        if (bn != null && bn.data.color == Red) || (bf != null && bf.data.color == Red) {
          RecolorFamily(s, tree, tl, far, Red, Black, Black, B, F);
        }
      }
    } else {
      if tl.data.color == Red {
        if bn != null && bn.data.color == Red {
          RotateOnce(s, tree, tl, Red, Black, Bn, Bf, F);
          root := tl;
        } else if bf != null && bf.data.color == Red {
          Parts(s, Bf);
          RotateTwice(s, tree, tl, bf, Red, Black, Bn, Near(s, Bf), Far(s, Bf), F);
          root := bf;
        }
      }
    }
  }

  /** The comparator as the C compiler sees it: a difference in 32-bit two's complement. */
  function Compare(x: int, y: int): int {
    var d := (x - y) % 0x1_0000_0000;
    if d < 0x8000_0000 then d else d - 0x1_0000_0000
  }

  method AddRecursive(tree: Link, elem: Node<Item>, ghost t: Tree) returns (root: Node<Item>)
    requires Models(tree, t) && elem !in Nodes(t)
    requires elem.data.left == null && elem.data.right == null
    modifies Nodes(t)`data, elem`data
    ensures Models(root, RbTree.AddRecursive(t, Entry(elem, old(elem.data.num))))
    decreases t, 1
  {
    if tree == null {
      elem.data := elem.data.(color := Red);
      root := elem;
    } else {
      var cmp := Compare(elem.data.num, tree.data.num);
      if cmp < 0 || (cmp == 0 && elem.addr < tree.addr) {
        root := AddBelow(Left, tree, elem, t);
      } else {
        root := AddBelow(Right, tree, elem, t);
      }
    }
  }

  /** The recursive call into the child on side s. */
  method AddBelow(s: Side, tree: Node<Item>, elem: Node<Item>, ghost t: Tree) returns (root: Node<Item>)
    requires Models(tree, t) && t.Bin? && elem !in Nodes(t)
    requires elem.data.left == null && elem.data.right == null
    requires s == if Less(Entry(elem, elem.data.num), t.entry) then Left else Right
    modifies Nodes(t)`data, elem`data
    ensures Models(root, RbTree.AddRecursive(t, Entry(elem, old(elem.data.num))))
    decreases t, 0
  {
    ghost var e, sub, far := Entry(elem, elem.data.num), Child(s, t), Child(s.Other(), t);
    Parts(s, t);
    AddRecursiveNodes(sub, e);
    hide Stored;
    hide Distinct;
    hide FixInsertion;
    assert allocated(Nodes(far));
    var link := AddRecursive(Get(s, tree.data), elem, sub);
    root := FixAbove(s, tree, link, RbTree.AddRecursive(sub, e), t.entry, t.color, far);
  }

  /** What follows the recursive call: its root is stored, and a black node calls for the fix-up. */
  method FixAbove(s: Side, tree: Node<Item>, link: Link, ghost sub: Tree, ghost e: Entry, ghost c: Color, ghost far: Tree)
    returns (root: Node<Item>)
    requires Models(link, sub) && sub.Bin? && Stored(far) && Distinct(far)
    requires tree == e.node && tree.data.num == e.num && tree.data.color == c && Get(s.Other(), tree.data) == Root(far)
    requires tree !in Nodes(sub) + Nodes(far) && Nodes(sub) !! Nodes(far)
    modifies tree`data, Nodes(sub)`data, Nodes(far)`data
    ensures var t := Make(s, sub, e, c, far);
            Models(root, if c == Black then FixInsertion(s, t) else t)
  {
    root := tree;
    ghost var t := Make(s, sub, e, c, far);
    FixInsertionOrder(s, t);
    SameOrder(FixInsertion(s, t), t);
    hide Stored;
    hide Distinct;
    hide Nodes;
    hide FixInsertion;
    Relink(s, tree, link, sub, e, c, far);
    if tree.data.color == Black {
      root := FixInsertionDiscrepancy(s, tree, t);
    }
  }

  /** sglib_lookup_item_t_add: from a valid tree, a valid tree with elem at its place in order. */
  method Add(tree: Link, elem: Node<Item>, ghost t: Tree) returns (root: Node<Item>, ghost t': Tree, ghost p: nat)
    requires Models(tree, t) && Valid(t) && elem !in Nodes(t)
    requires Comparable(InOrder(t), Entry(elem, elem.data.num))
    modifies Nodes(t)`data, elem`data
    ensures Models(root, t') && Valid(t') && Nodes(t') == Nodes(t) + {elem}
    ensures p <= |InOrder(t)| && InOrder(t') == With(InOrder(t), p, Entry(elem, old(elem.data.num)))
  {
    ghost var e := Entry(elem, elem.data.num);
    t' := RbTree.Add(t, e);
    AddRecursiveNodes(t, e);
    p := AddCorrect(t, e);
    elem.data := elem.data.(left := null, right := null);
    root := AddRecursive(tree, elem, t);
    root.data := root.data.(color := Black);
  }

  // ---------------------------------------------------------------------------------------------
  // Deletion

  method Recolor(n: Node<Item>, c: Color, ghost t: Tree)
    requires n == Root(t) && Stored(t) && Distinct(t)
    modifies n`data
    ensures Stored(Paint(c, t)) && Root(Paint(c, t)) == n && Nodes(Paint(c, t)) == Nodes(t)
    ensures n.data == old(n.data).(color := c)
  {
    n.data := n.data.(color := c);
  }

  /** The deletion fix-up where the sibling b is black. */
  method FixBesideBlack(s: Side, a: Node<Item>, b: Node<Item>, ghost t: Tree) returns (root: Node<Item>, res: bool)
    requires Models(a, t) && b == Root(Near(s, t)) && !IsRed(Near(s, t))
    modifies Nodes(t)`data
    ensures var r := RbTree.FixBesideBlack(s, t);
            root == Root(r.tree) && Stored(r.tree) && res == r.shallower
  {
    ghost var B, F := Near(s, t), Far(s, t);
    ghost var Bl, C := Near(s, B), Far(s, B);
    Family(s, t);
    hide Stored;
    hide Distinct;
    hide Nodes;
    hide Make;
    hide Near;
    hide Far;
    hide Get;
    var bl, br := Get(s, b.data), Get(s.Other(), b.data);
    if (bl == null || bl.data.color == Black) && (br == null || br.data.color == Black) {
      res := a.data.color == Black;
      Recolor(b, Red, B);
      a.data := a.data.(color := Black);
      StoredMake(s, Paint(Red, B), t.entry, Black, F);
      root := a;
    } else if bl != null && bl.data.color == Red {
      if br == null || br.data.color == Black {
        Recolor(bl, Black, Bl);
        RotateOnce(s, a, b, Black, a.data.color, Paint(Black, Bl), C, F);
        root, res := b, false;
      } else {
        RotateTwice(s, a, b, br, Black, a.data.color, Bl, Near(s, C), Far(s, C), F);
        root, res := br, false;
      }
    } else {
      assert br != null && br.data.color == Red;
      RotateTwice(s, a, b, br, Black, a.data.color, Bl, Near(s, C), Far(s, C), F);
      root, res := br, false;
    }
  }

  /** The deletion fix-up where the sibling b is red. */
  method FixBesideRed(s: Side, a: Node<Item>, b: Node<Item>, ghost t: Tree) returns (root: Node<Item>, res: bool)
    requires Models(a, t) && b == Root(Near(s, t)) && IsRed(Near(s, t))
    requires AssertsHold(s, t)
    modifies Nodes(t)`data
    ensures var r := RbTree.FixBesideRed(s, t);
            root == Root(r.tree) && Stored(r.tree) && res == r.shallower
  {
    ghost var B, F := Near(s, t), Far(s, t);
    ghost var Bl, C := Near(s, B), Far(s, B);
    ghost var Cl, Cr := Near(s, C), Far(s, C);
    Family(s, t);
    hide Stored;
    hide Distinct;
    hide Nodes;
    hide Make;
    hide Near;
    hide Far;
    hide Get;
    hide Fits;
    var br := Get(s.Other(), b.data);
    if br == null {
      RotateOnce(s, a, b, a.data.color, Black, Bl, C, F);
      root, res := b, false;
    } else {
      var c: Node<Item> := br;
      assert c.data.color == Black;
      var cl, cr := Get(s, c.data), Get(s.Other(), c.data);
      if (cl == null || cl.data.color == Black) && (cr == null || cr.data.color == Black) {
        Recolor(c, Red, C);
        RotateOnce(s, a, b, a.data.color, Black, Bl, Paint(Red, C), F);
        root, res := b, false;
      } else if cl != null && cl.data.color == Red {
        if cr != null && cr.data.color == Red {
          RotateThrice(s, a, b, c, cr, Bl, Cl, Near(s, Cr), Far(s, Cr), F);
          root, res := cr, false;
        } else {
          Recolor(cl, Black, Cl);
          RotateTwice(s, a, b, c, a.data.color, c.data.color, Bl, Paint(Black, Cl), Cr, F);
          root, res := c, false;
        }
      } else if cr != null && cr.data.color == Red {
        assert cl == null || cl.data.color == Black;
        RotateThrice(s, a, b, c, cr, Bl, Cl, Near(s, Cr), Far(s, Cr), F);
        root, res := cr, false;
      } else {
        assert false;
      }
    }
  }

  /** The deletion fix-up, on every input that its asserts let through. */
  method FixDeletionDiscrepancy(s: Side, tree: Node<Item>, ghost t: Tree) returns (root: Node<Item>, res: bool)
    requires Models(tree, t) && AssertsHold(s, t)
    modifies Nodes(t)`data
    ensures var r := FixDeletion(s, t);
            root == Root(r.tree) && Stored(r.tree) && res == r.shallower
  {
    Parts(s, t);
    if Near(s, t).Bin? {
      Parts(s, Near(s, t));
    }
    var b := Get(s, tree.data);
    if b == null {
      assert tree.data.color == Red;
      Recolor(tree, Black, t);
      root, res := tree, false;
    } else if b.data.color == Red {
      root, res := FixBesideRed(s, tree, b, t);
    } else {
      root, res := FixBesideBlack(s, tree, b, t);
    }
  }
}
