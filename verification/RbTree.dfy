/**
  * The red-black tree of sglib.h on values: its shape, what makes it a red-black search tree, and what
  * each of its operations does to the shape. RbHeap.dfy proves the pointer code against these functions.
  */
module RbTree {
  import opened CList

  /** A sequence number two of which cannot overflow the subtracting comparator. */
  type Key = k: int | 0 <= k < 0x8000_0000

  datatype Color = Black | Red

  /** The fields of a lookup_item_t besides its ring links. */
  datatype Item = Item(num: Key, color: Color, left: Link, right: Link)

  type Link = Node?<Item>

  /** A tree of nodes, each with the number and colour it holds. */
  datatype Tree = Nil | Bin(left: Tree, entry: Entry, color: Color, right: Tree)

  datatype Entry = Entry(node: Node<Item>, num: Key)

  /** Which of the two children: sglib instantiates each fix-up macro once for either side. */
  datatype Side = Left | Right {
    function Other(): Side {
      if this == Left then Right else Left
    }
  }

  // ---------------------------------------------------------------------------------------------
  // Red-black search trees

  /** The order in which the tree keeps nodes: by number, equal numbers by address. */
  predicate Less(a: Entry, b: Entry) {
    a.num < b.num || (a.num == b.num && a.node.addr < b.node.addr)
  }

  ghost predicate Sorted(s: seq<Entry>) {
    forall i, j :: 0 <= i < j < |s| ==> Less(s[i], s[j])
  }

  function InOrder(t: Tree): seq<Entry> {
    match t
    case Nil => []
    case Bin(l, e, _, r) => InOrder(l) + [e] + InOrder(r)
  }

  ghost function Nodes(t: Tree): set<Node<Item>> {
    match t
    case Nil => {}
    case Bin(l, e, _, r) => Nodes(l) + {e.node} + Nodes(r)
  }

  /** No node stands at two places. */
  ghost predicate Distinct(t: Tree) {
    match t
    case Nil => true
    case Bin(l, e, _, r) =>
      && Distinct(l) && Distinct(r)
      && e.node !in Nodes(l) && e.node !in Nodes(r) && Nodes(l) !! Nodes(r)
  }

  predicate IsRed(t: Tree) {
    t.Bin? && t.color == Red
  }

  /** No red node has a red child. */
  predicate NoRedRed(t: Tree) {
    t.Bin? ==>
      && NoRedRed(t.left) && NoRedRed(t.right)
      && (t.color == Red ==> !IsRed(t.left) && !IsRed(t.right))
  }

  /** The black nodes on the leftmost way down; on every way down when the tree is balanced. */
  function BlackHeight(t: Tree): nat {
    if t.Nil? then 0 else BlackHeight(t.left) + if t.color == Black then 1 else 0
  }

  predicate Balanced(t: Tree) {
    t.Bin? ==> Balanced(t.left) && Balanced(t.right) && BlackHeight(t.left) == BlackHeight(t.right)
  }

  predicate RedBlack(t: Tree) {
    NoRedRed(t) && Balanced(t)
  }

  // ---------------------------------------------------------------------------------------------
  // Children by side

  function Child(s: Side, t: Tree): Tree
    requires t.Bin?
  {
    if s == Left then t.left else t.right
  }

  /** The node e with child `near` on side s and `far` on the other. */
  function Make(s: Side, near: Tree, e: Entry, c: Color, far: Tree): Tree {
    if s == Left then Bin(near, e, c, far) else Bin(far, e, c, near)
  }

  function Near(s: Side, t: Tree): Tree {
    if t.Nil? then Nil else Child(s, t)
  }

  function Far(s: Side, t: Tree): Tree {
    if t.Nil? then Nil else Child(s.Other(), t)
  }

  function Paint(c: Color, t: Tree): Tree {
    if t.Nil? then Nil else t.(color := c)
  }

  // ---------------------------------------------------------------------------------------------
  // Insertion

  /** SGLIB___RBTREE_FIX_INSERTION_DISCREPANCY after an insertion on side s of t. */
  function FixInsertion(s: Side, t: Tree): Tree
    requires t.Bin?
  {
    var b, far := Near(s, t), Far(s, t);
    var bn, bf := Near(s, b), Far(s, b);
    if !IsRed(b) then t
    else if IsRed(far) then
      if IsRed(bn) || IsRed(bf) then Make(s, Paint(Black, b), t.entry, Red, Paint(Black, far)) else t
    else if IsRed(bn) then
      Make(s, bn, b.entry, Black, Make(s, bf, t.entry, Red, far))
    else if IsRed(bf) then
      Make(s, Make(s, bn, b.entry, Red, Near(s, bf)), bf.entry, Black, Make(s, Far(s, bf), t.entry, Red, far))
    else t
  }

  /** The recursion of add; its caller then blackens the root. */
  function AddRecursive(t: Tree, e: Entry): Tree {
    if t.Nil? then Bin(Nil, e, Red, Nil)
    else
      var s := if Less(e, t.entry) then Left else Right;
      var t' := Make(s, AddRecursive(Child(s, t), e), t.entry, t.color, Child(s.Other(), t));
      if t.color == Black then FixInsertion(s, t') else t'
  }

  function Add(t: Tree, e: Entry): Tree {
    Paint(Black, AddRecursive(t, e))
  }

  // ---------------------------------------------------------------------------------------------
  // Deletion

  /** A subtree after a deletion, and whether its black height fell by one. */
  datatype Shrunk = Shrunk(tree: Tree, shallower: bool)

  /**
    * SGLIB___RBTREE_FIX_DELETION_DISCREPANCY when the subtree opposite to side s has lost one in black
    * height; s is the side of the sibling b.
    */
  function FixDeletion(s: Side, t: Tree): Shrunk
    requires t.Bin?
  {
    if Near(s, t).Nil? then Shrunk(Paint(Black, t), false)
    else if IsRed(Near(s, t)) then FixBesideRed(s, t)
    else FixBesideBlack(s, t)
  }

  function FixBesideRed(s: Side, t: Tree): Shrunk
    requires Near(s, t).Bin?
  {
    var a, b, far := t.entry, Near(s, t), Far(s, t);
    var bl, c := Near(s, b), Far(s, b);
    var cl, cr := Near(s, c), Far(s, c);
    if c.Nil? then Shrunk(Make(s, bl, b.entry, Black, Make(s, Nil, a, t.color, far)), false)
    else if !IsRed(cl) && !IsRed(cr) then
      Shrunk(Make(s, bl, b.entry, Black, Make(s, Paint(Red, c), a, t.color, far)), false)
    else if IsRed(cr) then
      var dl, dr := Near(s, cr), Far(s, cr);
      Shrunk(Make(s, Make(s, bl, b.entry, Red, Make(s, cl, c.entry, c.color, dl)), cr.entry, Black,
                  Make(s, dr, a, t.color, far)), false)
    else
      Shrunk(Make(s, Make(s, bl, b.entry, Red, Paint(Black, cl)), c.entry, c.color, Make(s, cr, a, t.color, far)), false)
  }

  function FixBesideBlack(s: Side, t: Tree): Shrunk
    requires Near(s, t).Bin?
  {
    var a, b, far := t.entry, Near(s, t), Far(s, t);
    var bl, c := Near(s, b), Far(s, b);
    if !IsRed(bl) && !IsRed(c) then
      Shrunk(Make(s, Paint(Red, b), a, Black, far), t.color == Black)
    else if !IsRed(c) then
      Shrunk(Make(s, Paint(Black, bl), b.entry, t.color, Make(s, c, a, Black, far)), false)
    else
      Shrunk(Make(s, Make(s, bl, b.entry, Black, Near(s, c)), c.entry, t.color, Make(s, Far(s, c), a, Black, far)), false)
  }

  /** The tree with `sub` in place of its child on side s, repaired if `sub` lost black height. */
  function Shrink(s: Side, t: Tree, sub: Shrunk): Shrunk
    requires t.Bin?
  {
    var t' := Make(s, sub.tree, t.entry, t.color, Child(s.Other(), t));
    if sub.shallower then FixDeletion(s.Other(), t') else Shrunk(t', false)
  }

  function Rightmost(t: Tree): Entry
    requires t.Bin?
  {
    if t.right.Nil? then t.entry else Rightmost(t.right)
  }

  function DeleteRightmost(t: Tree): Shrunk
    requires t.Bin?
  {
    if t.right.Bin? then Shrink(Right, t, DeleteRightmost(t.right))
    else if t.left.Bin? then Shrunk(Paint(Black, t.left), t.color == Black && t.left.color == Black)
    else Shrunk(Nil, t.color == Black)
  }

  /** The removal of the root: its in-order predecessor is linked in its place, in its colour. */
  function DeleteRoot(t: Tree): Shrunk
    requires t.Bin?
  {
    if t.left.Nil? then
      if t.right.Nil? then Shrunk(Nil, t.color == Black)
      else Shrunk(Paint(Black, t.right), t.color == Black && t.right.color == Black)
    else Shrink(Left, t.(entry := Rightmost(t.left)), DeleteRightmost(t.left))
  }

  function DeleteRecursive(t: Tree, e: Entry): Shrunk {
    if t.Nil? then Shrunk(Nil, false)
    else if Less(e, t.entry) then Shrink(Left, t, DeleteRecursive(t.left, e))
    else if Less(t.entry, e) then Shrink(Right, t, DeleteRecursive(t.right, e))
    else DeleteRoot(t)
  }

  function Delete(t: Tree, e: Entry): Tree {
    Paint(Black, DeleteRecursive(t, e).tree)
  }
}
