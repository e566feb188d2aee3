/** What the two repair loops do to the shape, as functions with the same cases in the same order. */
module Repair {
  import opened SbtNodes
  import opened Shapes

  // ---------- rbt_fix ----------

  /** The rbt_fix loop with `node` the root of t. */
  function InsFix(z: Ctx, t: Tree): Tree
    decreases z
  {
    if z.Step? && z.color == Red && z.up.Step? then
      if z.up.sib.IsRed() then InsFix(z.up.up, Recolor(z, t)) else Plug(z.up.up, Rise(z, t))
    else
      Plug(z, t)
  }

  /** Parent and uncle become black, the grandparent red. */
  function Recolor(z: Ctx, t: Tree): Tree
    requires z.Step? && z.up.Step?
  {
    Mk(z.up.side, Mk(z.side, t, z.item, Black, z.sib), z.up.item, Red, z.up.sib.Painted(Black))
  }

  /** sbt_rotate at t: of the three nodes in a row t, parent and grandparent, the one in the middle comes up. */
  function Raised(z: Ctx, t: Tree): Tree
    requires z.Step? && z.up.Step?
  {
    var g, d := z.up, z.up.side;
    if z.side == d || t.Leaf? then
      Mk(d, t, z.item, z.color, Mk(d, z.sib, g.item, g.color, g.sib))
    else
      Mk(d, Mk(d, z.sib, z.item, z.color, t.Sub(d)), t.item, t.color, Mk(d, t.Sub(z.side), g.item, g.color, g.sib))
  }

  /** A node becomes black and both its children red. */
  function Crown(t: Tree): Tree
    requires t.Node?
  {
    Node(t.left.Painted(Red), t.item, Black, t.right.Painted(Red))
  }

  function Rise(z: Ctx, t: Tree): Tree
    requires z.Step? && z.up.Step?
  {
    Crown(Raised(z, t))
  }

  /** The state of the rbt_fix loop: black counts agree everywhere, `node` (the root of t) is red, and the
      only red node with a red child is possibly its parent. */
  ghost predicate OneRedRed(z: Ctx, t: Tree, h: int) {
    && t.IsRed() && NoRR(t) && Bal(t, h) && CBal(z, h)
    && (z.Step? ==> CNoRR(z, false))
  }

  lemma {:induction false} PlugGood(z: Ctx, t: Tree, h: int)
    requires NoRR(t) && Bal(t, h) && CBal(z, h) && CNoRR(z, t.IsRed())
    ensures NoRR(Plug(z, t)) && exists k :: Bal(Plug(z, t), k)
    ensures z.Step? ==> !Plug(z, t).IsRed()
  {
    if z.Step? {
      PlugGood(z.up, Mk(z.side, t, z.item, z.color, z.sib), if z.color == Black then h + 1 else h);
    }
  }

  lemma RiseGood(z: Ctx, t: Tree, h: int)
    requires OneRedRed(z, t, h) && z.Step? && z.color == Red && !z.up.sib.IsRed()
    ensures var u := Rise(z, t); u.Node? && !u.IsRed() && NoRR(u) && Bal(u, h + 1)
    ensures CBal(z.up.up, h + 1) && CNoRR(z.up.up, false)
  {
    var g := z.up;
    assert CBal(g, h) && CNoRR(g, true);
    if z.side == g.side {
      MkBal(g.side, z.sib, g.item, Red, g.sib, h);
      MkBal(g.side, t, z.item, Black, Mk(g.side, z.sib, g.item, Red, g.sib), h + 1);
    } else {
      MkBal(g.side, z.sib, z.item, Red, t.Sub(g.side), h);
      MkBal(g.side, t.Sub(z.side), g.item, Red, g.sib, h);
    }
  }

  lemma RiseInorder(z: Ctx, t: Tree)
    requires z.Step? && z.up.Step? && t.Node?
    ensures Around(z.up.up, Rise(z, t)) == Around(z, t)
  {
    assert Inorder(Rise(z, t)) == Inorder(Raised(z, t));
    var g := z.up;
    var p := Mk(z.side, t, z.item, z.color, z.sib);
    AroundUp(z, t, z.color, z.sib);
    AroundUp(g, p, g.color, g.sib);
    var d := g.side;
    if z.side == d {
      assert Inorder(Raised(z, t)) == Inorder(Mk(d, p, g.item, g.color, g.sib)) by {
        RotInorder(d, t, z.item, z.sib, g.item, g.sib, z.color, g.color, z.color, g.color);
      }
    } else {
      var low := Mk(d, z.sib, z.item, Red, t.Sub(d));
      RotInorder(d, z.sib, z.item, t.Sub(d), t.item, t.Sub(z.side), z.color, t.color, Red, Red);
      assert Inorder(p) == Inorder(Mk(d, low, t.item, Red, t.Sub(z.side)));
      RotInorder(d, low, t.item, t.Sub(z.side), g.item, g.sib, Black, Red, Red, g.color);
    }
  }

  /** One recolouring pass of the loop: the red-red edge moves two levels up. */
  lemma RecolorGood(z: Ctx, t: Tree, h: int)
    requires OneRedRed(z, t, h) && z.Step? && z.color == Red && z.up.sib.IsRed()
    ensures OneRedRed(z.up.up, Recolor(z, t), h + 1)
    ensures Around(z.up.up, Recolor(z, t)) == Around(z, t)
  {
    var g := z.up;
    var p, u := Mk(z.side, t, z.item, Black, z.sib), g.sib.Painted(Black);
    assert CBal(g, h) && CNoRR(g, true);
    assert Bal(u, h + 1) && NoRR(u);
    MkBal(z.side, t, z.item, Black, z.sib, h + 1);
    MkBal(g.side, p, g.item, Red, u, h + 1);
    AroundUp(z, t, Black, z.sib);
    AroundUp(g, p, Red, u);
  }

  /** The whole insert repair: from one red-red edge at `node` to a tree that is red-black once its root is
      black, with the same in-order sequence. */
  lemma {:induction false} InsFixGood(z: Ctx, t: Tree, h: int)
    requires OneRedRed(z, t, h)
    ensures InsFix(z, t).Node? && RedBlack(InsFix(z, t).Painted(Black))
    ensures Inorder(InsFix(z, t)) == Around(z, t)
    decreases z
  {
    if z.Top? || z.color == Black {
      Finish(z, t, h);
    } else if z.up.sib.IsRed() {
      RecolorGood(z, t, h);
      InsFixGood(z.up.up, Recolor(z, t), h + 1);
    } else {
      RiseGood(z, t, h);
      RiseInorder(z, t);
      Finish(z.up.up, Rise(z, t), h + 1);
    }
  }

  /** After the loop the true root is the old root, or the old root is its child: one step up is enough. */
  lemma {:induction false} InsFixRoot(z: Ctx, t: Tree)
    requires t.Node?
    ensures var f, old_ := InsFix(z, t), TopNode(z, t.item.n);
      && f.Node?
      && (f.item.n == old_ || exists d :: f.Sub(d).Node? && f.Sub(d).item.n == old_)
    decreases z
  {
    if z.Step? && z.color == Red && z.up.Step? {
      var g := z.up;
      assert TopNode(z, t.item.n) == TopNode(g.up, g.item.n);
      if g.sib.IsRed() {
        InsFixRoot(g.up, Recolor(z, t));
      } else if g.up.Top? {
        assert Rise(z, t).Sub(g.side.Other()).item.n == g.item.n;
      } else {
        PlugRoot(g.up, Rise(z, t));
        assert TopNode(g.up, g.item.n) == TopNode(g.up, Rise(z, t).item.n);
      }
    } else {
      PlugRoot(z, t);
    }
  }

  lemma {:induction false} PlugRoot(z: Ctx, t: Tree)
    requires t.Node?
    ensures Plug(z, t).Node? && Plug(z, t).item.n == TopNode(z, t.item.n)
  {
    if z.Step? { PlugRoot(z.up, Mk(z.side, t, z.item, z.color, z.sib)); }
  }

  lemma Finish(z: Ctx, t: Tree, h: int)
    requires t.Node? && NoRR(t) && Bal(t, h) && CBal(z, h)
    requires z.Step? ==> CNoRR(z, t.IsRed())
    ensures Plug(z, t).Node? && RedBlack(Plug(z, t).Painted(Black)) && Inorder(Plug(z, t)) == Around(z, t)
  {
    PlugRoot(z, t);
    PlugInorder(z, t);
    if z.Top? {
      assert Bal(t.Painted(Black), if t.IsRed() then h + 1 else h);
    } else {
      PlugGood(z, t, h);
    }
  }

  // ---------- rbt_del_fix ----------

  /** The context of the hole after the rotation at the parent, which lifts the sibling, and after the
      rotation at the sibling, which lifts the niece. */
  function SibUp(z: Ctx): Ctx
    requires z.Step? && z.sib.Node?
  {
    Step(z.side, z.item, z.color, z.sib.Sub(z.side),
         Step(z.side, z.sib.item, z.sib.color, z.sib.Sub(z.side.Other()), z.up))
  }

  function NieceUp(z: Ctx): Ctx
    requires z.Step? && z.sib.Node? && z.sib.Sub(z.side).Node?
  {
    z.(sib := Rotated(z.side.Other(), z.sib))
  }

  function Repaint(z: Ctx, c: Color): Ctx
    requires z.Step?
  {
    z.(color := c)
  }

  function PaintUp(z: Ctx, c: Color): Ctx
    requires z.Step? && z.up.Step?
  {
    z.(up := z.up.(color := c))
  }

  /** The root of the whole tree changes exactly when the parent was the root. */
  lemma LiftedRoot(z: Ctx, c: SbtNode)
    requires z.Step? && z.sib.Node? && CDist(z)
    ensures TopNode(z, c) == z.item.n <==> z.up.Top?
    ensures TopNode(SibUp(z), c) == if z.up.Top? then z.sib.item.n else TopNode(z, c)
  {
    assert TopNode(SibUp(z), c) == TopNode(SibUp(z).up, z.item.n) == TopNode(z.up, z.sib.item.n);
    if z.up.Step? { TopNodeIn(z.up, z.item.n); }
  }

  /** What each branch of the loop that ends with a rotation makes of the context of `node`. */
  function RedParent(z: Ctx): Ctx
    requires z.Step? && z.sib.Node?
  {
    if z.sib.Sub(z.side).IsRed() then Repaint(SibUp(NieceUp(z)), Black) else SibUp(z)
  }

  function RedSibling(z: Ctx): Ctx
    requires z.Step? && z.sib.Node?
  {
    PaintUp(Repaint(SibUp(z), Red), Black)
  }

  function RedNephew(z: Ctx): Ctx
    requires z.Step? && z.sib.Node?
  {
    var v := SibUp(z);
    v.(up := v.up.(sib := v.up.sib.Painted(Black)))
  }

  function RedNiece(z: Ctx): Ctx
    requires z.Step? && z.sib.Node? && z.sib.Sub(z.side).Node?
  {
    PaintUp(SibUp(NieceUp(z)), Black)
  }

  /** Distance to the end of the loop: a red parent ends it, a recolouring moves one level up. */
  function Left(z: Ctx): nat {
    if z.Top? || z.color == Red then 0 else 1 + Depth(z)
  }

  /** rbt_del_fix with `node` the root of t. The two places where the text of src/sbtree.cpp departs from this
      are line 452 (it leaves the loop after the red-sibling rotation) and line 470 (it goes on at the
      grandparent); see TreeAsWritten. A nil sibling cannot occur, see SiblingExists. */
  function DelFix(z: Ctx, t: Tree): Tree
    decreases Left(z)
  {
    if z.Top? || t.IsRed() || z.sib.Leaf? then Plug(z, t.Painted(Black))
    else
      var near, far := z.sib.Sub(z.side), z.sib.Sub(z.side.Other());
      if z.color == Red then Plug(RedParent(z), t)
      else if z.sib.color == Red then DelFix(RedSibling(z), t)
      else if far.IsRed() then Plug(RedNephew(z), t)
      else if near.IsRed() then Plug(RedNiece(z), t)
      else DelFix(z.up, Mk(z.side, t, z.item, Black, z.sib.Painted(Red)))
  }

  /** The hole of z may be filled with a tree of black height h and a black root: everything else is in order. */
  ghost predicate Fits(z: Ctx, h: int) {
    CBal(z, h) && CNoRR(z, false)
  }

  /** The state of the rbt_del_fix loop: the subtree at `node` has black height h, its surroundings expect one
      black node more, and nothing else is wrong. */
  ghost predicate Short(z: Ctx, t: Tree, h: int) {
    NoRR(t) && Bal(t, h) && Fits(z, h + 1)
  }

  lemma BalNonNegative(t: Tree, h: int)
    requires Bal(t, h)
    ensures h >= 0
  {
  }

  /** One level of the predicates. */
  lemma Kids(t: Tree, h: int)
    requires Bal(t, h) && NoRR(t) && t.Node?
    ensures forall d :: Bal(t.Sub(d), if t.color == Black then h - 1 else h) && NoRR(t.Sub(d))
    ensures t.color == Red ==> Bal(t.Painted(Black), h + 1) && NoRR(t.Painted(Black)) && forall d :: !t.Sub(d).IsRed()
    ensures t.color == Black ==> Bal(t.Painted(Red), h - 1)
  {
  }

  lemma SiblingExists(z: Ctx, t: Tree, h: int)
    requires Short(z, t, h) && z.Step?
    ensures z.sib.Node?
    ensures z.color == Red ==> z.up.Step? && z.sib.color == Black
  {
    BalNonNegative(t, h);
  }

  /** When two contexts with the same hole side sit on top of each other. */
  lemma TwoSteps(d: Side, p: Item, pc: Color, near: Tree, s: Item, sc: Color, far: Tree, up: Ctx, h: int)
    requires NoRR(near) && NoRR(far) && Bal(near, h) && Bal(far, if pc == Black then h + 1 else h)
    requires CBal(up, h + (if pc == Black then 1 else 0) + (if sc == Black then 1 else 0))
    requires CNoRR(up, false) && (sc == Red ==> CNoRR(up, true) && up.Step? && pc == Black && !far.IsRed())
    requires pc == Red ==> !near.IsRed()
    ensures Fits(Step(d, p, pc, near, Step(d, s, sc, far, up)), h)
  {
    var w := Step(d, s, sc, far, up);
    assert CBal(w, if pc == Black then h + 1 else h);
    assert CNoRR(w, pc == Red);
  }

  lemma BlackHole(z: Ctx)
    requires CNoRR(z, true)
    ensures CNoRR(z, false)
  {
  }

  /** The rotations keep the in-order sequence, whatever the colours. */
  lemma SibUpAround(z: Ctx, t: Tree, far: Tree, pc: Color, sc: Color)
    requires z.Step? && z.sib.Node? && Inorder(far) == Inorder(z.sib.Sub(z.side.Other()))
    ensures Around(Step(z.side, z.item, pc, z.sib.Sub(z.side), Step(z.side, z.sib.item, sc, far, z.up)), t) ==
      Around(z, t)
  {
    var v := Step(z.side, z.item, pc, z.sib.Sub(z.side), Step(z.side, z.sib.item, sc, far, z.up));
    var a, b := Inorder(z.sib.Sub(z.side)), Inorder(far);
    if z.side == L {
      assert After(v.up) == [z.sib.item] + b + After(z.up) && Before(v.up) == Before(z.up);
      Assoc([z.item], a, [z.sib.item], b, After(z.up));
    } else {
      assert Before(v.up) == Before(z.up) + b + [z.sib.item] && After(v.up) == After(z.up);
      Assoc(Before(z.up), b, [z.sib.item], a, [z.item]);
    }
  }

  lemma NieceUpAround(z: Ctx, t: Tree)
    requires z.Step? && z.sib.Node? && z.sib.Sub(z.side).Node?
    ensures Around(NieceUp(z), t) == Around(z, t)
  {
    var o, q := z.side.Other(), z.sib.Sub(z.side);
    var s := z.sib;
    RotInorder(o, s.Sub(o), s.item, q.Sub(o), q.item, q.Sub(z.side), s.color, q.color, s.color, q.color);
  }

  /** With a red parent one pass clears the shortage. */
  lemma RedParentGood(z: Ctx, t: Tree, h: int)
    requires Short(z, t, h) && z.Step? && z.color == Red && z.sib.Node?
    ensures Fits(RedParent(z), h) && Around(RedParent(z), t) == Around(z, t)
  {
    SiblingExists(z, t, h);
    BlackHole(z.up);
    var d, s := z.side, z.sib;
    var near, far := s.Sub(d), s.Sub(d.Other());
    assert CBal(z.up, h + 1);
    Kids(s, h + 1);
    if near.IsRed() {
      Kids(near, h);
      var y := NieceUp(z);
      MkBal(d, near.Sub(d.Other()), s.item, Black, far, h + 1);
      TwoSteps(d, z.item, Black, near.Sub(d), near.item, Red, y.sib.Sub(d.Other()), z.up, h);
      NieceUpAround(z, t);
      SibUpAround(y, t, y.sib.Sub(d.Other()), Black, Red);
    } else {
      TwoSteps(d, z.item, Red, near, s.item, Black, far, z.up, h);
      SibUpAround(z, t, far, Red, Black);
    }
  }

  /** With a black parent and a black sibling, a red nephew clears the shortage. */
  lemma RedNephewGood(z: Ctx, t: Tree, h: int)
    requires Short(z, t, h) && z.Step? && z.color == Black && z.sib.Node? && z.sib.color == Black
    requires z.sib.Sub(z.side.Other()).IsRed()
    ensures Fits(RedNephew(z), h) && Around(RedNephew(z), t) == Around(z, t)
  {
    var d := z.side;
    var near, far := z.sib.Sub(d), z.sib.Sub(d.Other());
    Kids(z.sib, h + 1);
    Kids(far, h);
    TwoSteps(d, z.item, Black, near, z.sib.item, Black, far.Painted(Black), z.up, h);
    SibUpAround(z, t, far.Painted(Black), Black, Black);
  }

  /** And so does a red niece. */
  lemma RedNieceGood(z: Ctx, t: Tree, h: int)
    requires Short(z, t, h) && z.Step? && z.color == Black && z.sib.Node? && z.sib.color == Black
    requires z.sib.Sub(z.side).IsRed()
    requires !z.sib.Sub(z.side.Other()).IsRed()
    ensures Fits(RedNiece(z), h) && Around(RedNiece(z), t) == Around(z, t)
  {
    var d, y := z.side, NieceUp(z);
    var near, far := z.sib.Sub(d), z.sib.Sub(d.Other());
    Kids(z.sib, h + 1);
    Kids(near, h);
    MkBal(d, near.Sub(d.Other()), z.sib.item, Black, far, h + 1);
    TwoSteps(d, z.item, Black, near.Sub(d), near.item, Black, y.sib.Sub(d.Other()), z.up, h);
    NieceUpAround(z, t);
    SibUpAround(y, t, y.sib.Sub(d.Other()), Black, Black);
  }

  /** A red sibling does not clear the shortage: the pass keeps it at `node` and gives `node` a red parent. */
  lemma RedSiblingGood(z: Ctx, t: Tree, h: int)
    requires Short(z, t, h) && z.Step? && z.color == Black && z.sib.IsRed()
    ensures Short(RedSibling(z), t, h) && RedSibling(z).color == Red
    ensures Around(RedSibling(z), t) == Around(z, t)
  {
    var d := z.side;
    var near, far := z.sib.Sub(d), z.sib.Sub(d.Other());
    TwoSteps(d, z.item, Red, near, z.sib.item, Black, far, z.up, h + 1);
    SibUpAround(z, t, far, Red, Black);
  }

  /** A recolouring pass moves the shortage from the child to its parent. */
  lemma RecolorShort(z: Ctx, t: Tree, h: int)
    requires Short(z, t, h) && z.Step? && !t.IsRed() && z.color == Black && z.sib.Node? && z.sib.color == Black
    requires !z.sib.left.IsRed() && !z.sib.right.IsRed()
    ensures Short(z.up, Mk(z.side, t, z.item, Black, z.sib.Painted(Red)), h + 1)
    ensures Around(z.up, Mk(z.side, t, z.item, Black, z.sib.Painted(Red))) == Around(z, t)
  {
    assert Bal(z.sib.Painted(Red), h) && NoRR(z.sib.Painted(Red));
    MkBal(z.side, t, z.item, Black, z.sib.Painted(Red), h + 1);
    AroundUp(z, t, Black, z.sib.Painted(Red));
  }

  /** The whole delete repair: the shortage goes away, nothing else does. */
  lemma {:induction false} DelFixGood(z: Ctx, t: Tree, h: int)
    requires Short(z, t, h)
    ensures RedBlack(DelFix(z, t))
    ensures Inorder(DelFix(z, t)) == Around(z, t)
    decreases Left(z)
  {
    if z.Top? || t.IsRed() {
      Whole(z, t.Painted(Black), if t.IsRed() then h + 1 else h);
    } else {
      SiblingExists(z, t, h);
      if z.color == Red {
        RedParentGood(z, t, h);
        Whole(RedParent(z), t, h);
      } else if z.sib.color == Red {
        RedSiblingGood(z, t, h);
        DelFixGood(RedSibling(z), t, h);
      } else if z.sib.Sub(z.side.Other()).IsRed() {
        RedNephewGood(z, t, h);
        Whole(RedNephew(z), t, h);
      } else if z.sib.Sub(z.side).IsRed() {
        RedNieceGood(z, t, h);
        Whole(RedNiece(z), t, h);
      } else {
        RecolorShort(z, t, h);
        DelFixGood(z.up, Mk(z.side, t, z.item, Black, z.sib.Painted(Red)), h + 1);
      }
    }
  }

  lemma Whole(z: Ctx, t: Tree, h: int)
    requires NoRR(t) && !t.IsRed() && Bal(t, h) && (z.Step? ==> Fits(z, h))
    ensures RedBlack(Plug(z, t)) && Inorder(Plug(z, t)) == Around(z, t)
  {
    if z.Step? {
      PlugGood(z, t, h);
    }
    PlugInorder(z, t);
  }
}
