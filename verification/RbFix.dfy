/** The two fix-up macros: both keep the in-order sequence and restore the red-black rules. */
module RbFix {
  import opened CList
  import opened RbTree

  // ---------------------------------------------------------------------------------------------
  // In-order sequences, read from either side

  function Join(s: Side, near: seq<Entry>, e: Entry, far: seq<Entry>): seq<Entry> {
    if s == Left then near + [e] + far else far + [e] + near
  }

  lemma JoinRotates(s: Side, x: seq<Entry>, e: Entry, y: seq<Entry>, f: Entry, z: seq<Entry>)
    ensures Join(s, Join(s, x, e, y), f, z) == Join(s, x, e, Join(s, y, f, z))
  {
  }

  lemma JoinRotatesTwice(s: Side, x: seq<Entry>, b: Entry, y: seq<Entry>, c: Entry, z: seq<Entry>, a: Entry, w: seq<Entry>)
    ensures Join(s, Join(s, x, b, Join(s, y, c, z)), a, w) == Join(s, Join(s, x, b, y), c, Join(s, z, a, w))
  {
    JoinRotates(s, x, b, y, c, z);
    JoinRotates(s, Join(s, x, b, y), c, z, a, w);
  }

  lemma OrderMake(s: Side, near: Tree, e: Entry, c: Color, far: Tree)
    ensures InOrder(Make(s, near, e, c, far)) == Join(s, InOrder(near), e, InOrder(far))
  {
  }

  lemma OrderPaint(c: Color, t: Tree)
    ensures InOrder(Paint(c, t)) == InOrder(t)
  {
  }

  lemma Unmake(s: Side, t: Tree)
    requires t.Bin?
    ensures t == Make(s, Near(s, t), t.entry, t.color, Far(s, t))
    ensures InOrder(t) == Join(s, InOrder(Near(s, t)), t.entry, InOrder(Far(s, t)))
  {
  }

  /** A rotation to either side keeps the in-order sequence. */
  lemma Rotates(s: Side, x: Tree, e: Entry, c: Color, y: Tree, f: Entry, d: Color, z: Tree, c': Color, d': Color)
    ensures InOrder(Make(s, Make(s, x, e, c, y), f, d, z)) == InOrder(Make(s, x, e, c', Make(s, y, f, d', z)))
  {
    OrderMake(s, x, e, c, y);
    OrderMake(s, y, f, d', z);
    OrderMake(s, Make(s, x, e, c, y), f, d, z);
    OrderMake(s, x, e, c', Make(s, y, f, d', z));
    JoinRotates(s, InOrder(x), e, InOrder(y), f, InOrder(z));
  }

  // ---------------------------------------------------------------------------------------------
  // Red-black trees of a given black height

  ghost predicate Fits(h: nat, t: Tree) {
    RedBlack(t) && BlackHeight(t) == h
  }

  lemma Fitting(h: nat, t: Tree)
    requires Fits(h, t)
    ensures RedBlack(t) && BlackHeight(t) == h
  {
  }

  function Blacks(c: Color): nat {
    if c == Black then 1 else 0
  }

  lemma FitsMake(h: nat, s: Side, near: Tree, e: Entry, c: Color, far: Tree)
    requires Fits(h, near) && Fits(h, far)
    requires c == Red ==> !IsRed(near) && !IsRed(far)
    ensures Fits(h + Blacks(c), Make(s, near, e, c, far))
  {
  }

  lemma FitsParts(s: Side, t: Tree)
    requires RedBlack(t) && t.Bin?
    ensures t == Make(s, Near(s, t), t.entry, t.color, Far(s, t))
    ensures BlackHeight(t) >= Blacks(t.color)
    ensures Fits(BlackHeight(t) - Blacks(t.color), Near(s, t)) && Fits(BlackHeight(t) - Blacks(t.color), Far(s, t))
    ensures t.color == Red ==> !IsRed(Near(s, t)) && !IsRed(Far(s, t))
  {
  }

  lemma FitsPaint(t: Tree)
    requires RedBlack(t) && t.Bin?
    ensures Fits(BlackHeight(t) + 1 - Blacks(t.color), Paint(Black, t))
    ensures t.color == Black && !IsRed(t.left) && !IsRed(t.right) ==> BlackHeight(t) > 0 && Fits(BlackHeight(t) - 1, Paint(Red, t))
  {
  }

  // ---------------------------------------------------------------------------------------------
  // Insertion

  /** The one discrepancy a recursive add may leave: a red root with one red child. */
  predicate Tolerated(t: Tree) {
    t.Bin? ==>
      && NoRedRed(t.left) && NoRedRed(t.right)
      && !(t.color == Red && IsRed(t.left) && IsRed(t.right))
  }

  lemma FixInsertionOrder(s: Side, t: Tree)
    requires t.Bin?
    ensures InOrder(FixInsertion(s, t)) == InOrder(t)
  {
    var b, far := Near(s, t), Far(s, t);
    var bn, bf := Near(s, b), Far(s, b);
    Unmake(s, t);
    if b.Bin? {
      Unmake(s, b);
      OrderPaint(Black, b);
      OrderPaint(Black, far);
      OrderMake(s, Paint(Black, b), t.entry, Red, Paint(Black, far));
      Rotates(s, bn, b.entry, b.color, bf, t.entry, t.color, far, Black, Red);
      if bf.Bin? {
        Unmake(s, bf);
        var c, cn, cf := bf.entry, Near(s, bf), Far(s, bf);
        Rotates(s, bn, b.entry, Red, cn, c, bf.color, cf, b.color, bf.color);
        OrderMake(s, Make(s, Make(s, bn, b.entry, Red, cn), c, bf.color, cf), t.entry, t.color, far);
        OrderMake(s, b, t.entry, t.color, far);
        Rotates(s, Make(s, bn, b.entry, Red, cn), c, bf.color, cf, t.entry, t.color, far, Black, Red);
      }
    }
  }

  lemma ToleratedParts(s: Side, t: Tree)
    requires Tolerated(t) && Balanced(t) && t.Bin?
    ensures t == Make(s, Near(s, t), t.entry, t.color, Far(s, t))
    ensures Fits(BlackHeight(t) - Blacks(t.color), Near(s, t)) && Fits(BlackHeight(t) - Blacks(t.color), Far(s, t))
    ensures t.color == Red ==> !(IsRed(Near(s, t)) && IsRed(Far(s, t)))
  {
  }

  /** An insertion below a black node leaves no discrepancy once it is fixed. */
  lemma FixInsertionRedBlack(h: nat, s: Side, t: Tree)
    requires t.Bin? && t.color == Black
    requires Tolerated(Near(s, t)) && Balanced(Near(s, t)) && BlackHeight(Near(s, t)) == h
    requires Fits(h, Far(s, t))
    ensures Fits(h + 1, FixInsertion(s, t))
  {
    var b, far := Near(s, t), Far(s, t);
    Unmake(s, t);
    if IsRed(b) {
      ToleratedParts(s, b);
      hide Balanced;
      hide NoRedRed;
      hide BlackHeight;
      hide Fits;
      var bn, bf := Near(s, b), Far(s, b);
      if IsRed(far) {
        if IsRed(bn) || IsRed(bf) {
          FitsMake(h, s, bn, b.entry, Black, bf);
          Fitting(h, far);
          FitsPaint(far);
          FitsMake(h + 1, s, Paint(Black, b), t.entry, Red, Paint(Black, far));
        } else {
          FitsMake(h, s, bn, b.entry, Red, bf);
          FitsMake(h, s, b, t.entry, Black, far);
        }
      } else if IsRed(bn) {
        FitsMake(h, s, bf, t.entry, Red, far);
        FitsMake(h, s, bn, b.entry, Black, Make(s, bf, t.entry, Red, far));
      } else if IsRed(bf) {
        Fitting(h, bf);
        FitsParts(s, bf);
        FitsMake(h, s, bn, b.entry, Red, Near(s, bf));
        FitsMake(h, s, Far(s, bf), t.entry, Red, far);
        FitsMake(h, s, Make(s, bn, b.entry, Red, Near(s, bf)), bf.entry, Black, Make(s, Far(s, bf), t.entry, Red, far));
      } else {
        FitsMake(h, s, bn, b.entry, Red, bf);
        FitsMake(h, s, b, t.entry, Black, far);
      }
    } else {
      assert Fits(h, b);
      FitsMake(h, s, b, t.entry, Black, far);
    }
  }


  // ---------------------------------------------------------------------------------------------
  // Deletion

  /** Where a deletion fix-up is called: the child opposite to side s is one short of black height h + 1. */
  ghost predicate Deficient(h: nat, s: Side, t: Tree) {
    && t.Bin? && Fits(h + 1, Near(s, t)) && Fits(h, Far(s, t))
    && (t.color == Red ==> !IsRed(t.left) && !IsRed(t.right))
  }

  /** What the asserts ahead of the rotations ask for. */
  ghost predicate AssertsHold(s: Side, t: Tree) {
    && t.Bin? && (Near(s, t).Nil? ==> t.color == Red)
    && (IsRed(Near(s, t)) ==> !IsRed(Far(s, Near(s, t))))
  }

  /** The branches of the macro guarded by `b==NULL`, `br==NULL` and `assert(0)` are never taken. */
  lemma SiblingExists(h: nat, s: Side, t: Tree)
    requires Deficient(h, s, t)
    ensures var b := Near(s, t); var c := Far(s, b);
            AssertsHold(s, t) && b.Bin? && (b.color == Red ==> t.color == Black && c.Bin? && c.color == Black)
  {
    FitsParts(s, Near(s, t));
  }

  lemma FixDeletionOrder(s: Side, t: Tree)
    requires t.Bin?
    ensures InOrder(FixDeletion(s, t).tree) == InOrder(t)
  {
    var b := Near(s, t);
    var c := Far(s, b);
    var cl, cr := Near(s, c), Far(s, c);
    if b.Nil? {
      OrderPaint(Black, t);
    } else {
      hide FixDeletion;
      hide InOrder;
      if IsRed(b) && IsRed(cr) {
        FixDeletionRotatesThrice(s, t);
      } else if if IsRed(b) then IsRed(cl) else IsRed(c) {
        FixDeletionRotatesTwice(s, t);
      } else {
        FixDeletionRotates(s, t);
      }
    }
  }

  lemma FixDeletionRotates(s: Side, t: Tree)
    requires t.Bin? && Near(s, t).Bin?
    requires var b := Near(s, t); var c := Far(s, b);
             if IsRed(b) then !IsRed(Near(s, c)) && !IsRed(Far(s, c)) else !IsRed(c)
    ensures InOrder(FixDeletion(s, t).tree) == InOrder(t)
  {
    var a, b, far := t.entry, Near(s, t), Far(s, t);
    var bl, c := Near(s, b), Far(s, b);
    Unmake(s, t);
    Unmake(s, b);
    OrderPaint(Red, b);
    OrderPaint(Red, c);
    OrderPaint(Black, bl);
    JoinRotates(s, InOrder(bl), b.entry, InOrder(c), a, InOrder(far));
    OrderMake(s, Paint(Red, b), a, Black, far);
    var c' := if IsRed(b) && c.Bin? then Paint(Red, c) else c;
    var y := if IsRed(b) then t.color else Black;
    var right := Make(s, c', a, y, far);
    OrderMake(s, c', a, y, far);
    OrderMake(s, bl, b.entry, Black, right);
    OrderMake(s, Paint(Black, bl), b.entry, t.color, right);
  }

  lemma FixDeletionRotatesTwice(s: Side, t: Tree)
    requires t.Bin? && Near(s, t).Bin?
    requires var b := Near(s, t); var c := Far(s, b);
             if IsRed(b) then IsRed(Near(s, c)) && !IsRed(Far(s, c)) else IsRed(c)
    ensures InOrder(FixDeletion(s, t).tree) == InOrder(t)
  {
    var a, b, far := t.entry, Near(s, t), Far(s, t);
    var bl, c := Near(s, b), Far(s, b);
    var cl, cr := Near(s, c), Far(s, c);
    Unmake(s, t);
    Unmake(s, b);
    Unmake(s, c);
    OrderPaint(Black, cl);
    JoinRotatesTwice(s, InOrder(bl), b.entry, InOrder(cl), c.entry, InOrder(cr), a, InOrder(far));
    var cl' := if IsRed(b) then Paint(Black, cl) else cl;
    var y := if IsRed(b) then t.color else Black;
    OrderMake(s, bl, b.entry, b.color, cl');
    OrderMake(s, cr, a, y, far);
    OrderMake(s, Make(s, bl, b.entry, b.color, cl'), c.entry, if IsRed(b) then c.color else t.color, Make(s, cr, a, y, far));
  }

  lemma FixDeletionRotatesThrice(s: Side, t: Tree)
    requires IsRed(Near(s, t)) && IsRed(Far(s, Far(s, Near(s, t))))
    ensures InOrder(FixDeletion(s, t).tree) == InOrder(t)
  {
    var a, b, far := t.entry, Near(s, t), Far(s, t);
    var bl, c := Near(s, b), Far(s, b);
    var cl, d := Near(s, c), Far(s, c);
    var dl, dr := Near(s, d), Far(s, d);
    Unmake(s, t);
    Unmake(s, b);
    Unmake(s, c);
    Unmake(s, d);
    JoinRotates(s, InOrder(cl), c.entry, InOrder(dl), d.entry, InOrder(dr));
    JoinRotatesTwice(s, InOrder(bl), b.entry, Join(s, InOrder(cl), c.entry, InOrder(dl)), d.entry, InOrder(dr), a, InOrder(far));
    var c' := Make(s, cl, c.entry, c.color, dl);
    OrderMake(s, cl, c.entry, c.color, dl);
    OrderMake(s, bl, b.entry, Red, c');
    OrderMake(s, dr, a, t.color, far);
    OrderMake(s, Make(s, bl, b.entry, Red, c'), d.entry, Black, Make(s, dr, a, t.color, far));
  }

  /** The red-black rules hold again, and the result says exactly whether height was lost. */
  ghost predicate Restored(h: nat, t: Tree, r: Shrunk)
    requires t.Bin?
  {
    && Fits(h + 1 + Blacks(t.color) - (if r.shallower then 1 else 0), r.tree)
    && (IsRed(r.tree) ==> t.color == Red)
  }

  lemma RedSiblingRestores(h: nat, s: Side, t: Tree)
    requires Deficient(h, s, t) && IsRed(Near(s, t))
    ensures Restored(h, t, FixBesideRed(s, t))
  {
    var a, b, far := t.entry, Near(s, t), Far(s, t);
    SiblingExists(h, s, t);
    Fitting(h + 1, b);
    var bl, c := Near(s, b), Far(s, b);
    var cl, cr := Near(s, c), Far(s, c);
    hide Fits;
    hide NoRedRed;
    hide Balanced;
    hide BlackHeight;
    hide Make;
    FitsParts(s, b);
    FitsParts(s, c);
    if !IsRed(cl) && !IsRed(cr) {
      FitsPaint(c);
      FitsMake(h, s, Paint(Red, c), a, Black, far);
      FitsMake(h + 1, s, bl, b.entry, Black, Make(s, Paint(Red, c), a, Black, far));
    } else if IsRed(cr) {
      FitsParts(s, cr);
      var dl, dr := Near(s, cr), Far(s, cr);
      var c' := Make(s, cl, c.entry, Black, dl);
      FitsMake(h, s, cl, c.entry, Black, dl);
      FitsMake(h + 1, s, bl, b.entry, Red, c');
      FitsMake(h, s, dr, a, Black, far);
      FitsMake(h + 1, s, Make(s, bl, b.entry, Red, c'), cr.entry, Black, Make(s, dr, a, Black, far));
    } else {
      FitsPaint(cl);
      FitsMake(h + 1, s, bl, b.entry, Red, Paint(Black, cl));
      FitsMake(h, s, cr, a, Black, far);
      FitsMake(h + 1, s, Make(s, bl, b.entry, Red, Paint(Black, cl)), c.entry, Black, Make(s, cr, a, Black, far));
    }
  }

  lemma BlackSiblingRestores(h: nat, s: Side, t: Tree)
    requires Deficient(h, s, t) && Near(s, t).Bin? && !IsRed(Near(s, t))
    ensures Restored(h, t, FixBesideBlack(s, t))
  {
    var a, b, far := t.entry, Near(s, t), Far(s, t);
    Fitting(h + 1, b);
    var bl, c := Near(s, b), Far(s, b);
    hide Fits;
    hide NoRedRed;
    hide Balanced;
    hide BlackHeight;
    hide Make;
    FitsParts(s, b);
    if !IsRed(bl) && !IsRed(c) {
      FitsPaint(b);
      FitsMake(h, s, Paint(Red, b), a, Black, far);
    } else if !IsRed(c) {
      FitsPaint(bl);
      FitsMake(h, s, c, a, Black, far);
      FitsMake(h + 1, s, Paint(Black, bl), b.entry, t.color, Make(s, c, a, Black, far));
    } else {
      FitsParts(s, c);
      var cl, cr := Near(s, c), Far(s, c);
      FitsMake(h, s, bl, b.entry, Black, cl);
      FitsMake(h, s, cr, a, Black, far);
      FitsMake(h + 1, s, Make(s, bl, b.entry, Black, cl), c.entry, t.color, Make(s, cr, a, Black, far));
    }
  }

  /** A deletion fix-up restores the red-black rules, and reports exactly whether height was lost. */
  lemma FixDeletionRedBlack(h: nat, s: Side, t: Tree)
    requires Deficient(h, s, t)
    ensures Restored(h, t, FixDeletion(s, t))
  {
    SiblingExists(h, s, t);
    if IsRed(Near(s, t)) {
      RedSiblingRestores(h, s, t);
    } else {
      BlackSiblingRestores(h, s, t);
    }
  }
}
