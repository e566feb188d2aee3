module RbTrees {
  import opened SbtNodes
  import opened Shapes
  import opened Links
  import opened Repair
  import opened Removal
  import opened Order

  class RbTree {
    const nil: SbtNode
    var root: SbtNode?
    ghost var shape: Tree
    ghost var above: SbtNode?
    ghost var nodes: set<SbtNode>

    /** The tree has a black root, no red node with a red child, the same number of black nodes on every path,
        keys in order, parent links that match the child links, and `root` at the true root. */
    ghost predicate Valid()
      reads this, nodes
    {
      exists h :: Sound(h)
    }

    /** Valid, with h black nodes on every path. */
    ghost predicate Sound(h: int)
      reads this, nodes
    {
      && nodes == Nodes(shape) + {nil} && nil.color == Black
      && (if shape.Leaf? then IsNull(root, nil) else root == shape.item.n)
      && Linked(Snap(nodes), Top(above), shape, nil)
      && !shape.IsRed() && NoRR(shape) && Bal(shape, h) && Sorted(Inorder(shape))
    }

    /** Whoever touches neither the tree nor its nodes keeps it valid. NILNODE may change, as it does when a node of
        another tree below it is deleted, as long as it stays black. */
    twostate lemma Kept()
      requires old(Valid()) && unchanged(this) && unchanged(nodes - {nil}) && (unchanged(nil) || nil.color == Black)
      ensures Valid() && Contents() == old(Contents())
    {
      var h: int :| old(Sound(h));
      var m, m' := old(Snap(nodes)), Snap(nodes);
      assert forall n <- nodes - {nil} :: m'[n] == m[n];
      FrameLinked(m, m', Top(above), shape, nil);
      assert Sound(h);
    }

    /** The nodes of the tree in order, with their keys. */
    ghost function Contents(): seq<Item>
      reads this
    {
      Inorder(shape)
    }

    /** A tree with no node, below a sentinel that other trees may share. */
    constructor (nil: SbtNode)
      requires nil.color == Black
      ensures Valid() && this.nil == nil && Contents() == [] && nodes == {nil}
    {
      this.nil, root, shape, above, nodes := nil, null, Leaf, null, {nil};
      new;
      assert Sound(0);
    }

    /** rotate_left. As at all its uses, "has a parent" means a parent that is not NILNODE. */
    method RotateLeft(x: SbtNode) returns (rch: SbtNode)
      requires Rotatable(Snap(nodes), L, x, nil)
      modifies nodes
      ensures Snap(nodes) == Rot(old(Snap(nodes)), L, x, nil)
      ensures rch == old(x.right)
    {
      rch := x.right;
      x.SetRight(rch.left, nodes);
      if !IsNull(rch.left, nil) { rch.left.SetParent(x, nodes); }
      rch.SetParent(x.parent, nodes);
      if !IsNull(x.parent, nil) {
        if x == x.parent.left { x.parent.SetLeft(rch, nodes); } else { x.parent.SetRight(rch, nodes); }
      }
      rch.SetLeft(x, nodes);
      x.SetParent(rch, nodes);
    }

    /** rotate_right */
    method RotateRight(x: SbtNode) returns (lch: SbtNode)
      requires Rotatable(Snap(nodes), R, x, nil)
      modifies nodes
      ensures Snap(nodes) == Rot(old(Snap(nodes)), R, x, nil)
      ensures lch == old(x.left)
    {
      lch := x.left;
      x.SetLeft(lch.right, nodes);
      if !IsNull(lch.right, nil) { lch.right.SetParent(x, nodes); }
      lch.SetParent(x.parent, nodes);
      if !IsNull(x.parent, nil) {
        if x == x.parent.right { x.parent.SetRight(lch, nodes); } else { x.parent.SetLeft(lch, nodes); }
      }
      lch.SetRight(x, nodes);
      x.SetParent(lch, nodes);
    }

    /** The rotation to side d of x, the root of t in the context z. */
    method Rotate(d: Side, x: SbtNode, ghost z: Ctx, ghost t: Tree) returns (top: SbtNode)
      requires nil in nodes && Linked(Snap(nodes), z, t, nil)
      requires t.Node? && t.Sub(d.Other()).Node? && t.item.n == x
      modifies nodes
      ensures Linked(Snap(nodes), z, Rotated(d, t), nil)
      ensures nil.View() == old(nil.View()) && top == t.Sub(d.Other()).item.n
    {
      ghost var m := Snap(nodes);
      ghost var q := t.Sub(d.Other());
      RotLinked(m, d, z, t.Sub(d), t.item, t.color, q.Sub(d), q.item, q.color, q.Sub(d.Other()), nil);
      ReadNode(nodes, z, t, nil);
      assert m[nil] == nil.View();
      if d == L {
        top := RotateLeft(x);
      } else {
        top := RotateRight(x);
      }
      assert Snap(nodes)[nil] == nil.View();
    }

    // ---------- rbt_del_fix ----------

    /** `node` is the root of t in the context z; when t is empty, node is NILNODE and NILNODE.parent is the
        node above the hole. */
    ghost predicate At(node: SbtNode, z: Ctx, t: Tree)
      reads this, nodes
    {
      && nil in nodes && nil.color == Black
      && Linked(Snap(nodes), z, t, nil) && node == Ptr(t, nil)
      && (t.Leaf? ==> nil.parent == Above(z))
    }

    /** is_black */
    function IsBlack(n: SbtNode?): bool
      reads n
    {
      IsNull(n, nil) || n.color == Black
    }

    lemma ReadColor(z: Ctx, t: Tree)
      requires Linked(Snap(nodes), z, t, nil)
      ensures IsBlack(Ptr(t, nil)) == !t.IsRed()
    {
      if t.Node? { ReadNode(nodes, z, t, nil); }
    }

    /** sibling_of, neice_of, nephew_of, the side from get_dir, and the colours the loop looks at. */
    method LookAround(node: SbtNode, ghost z: Ctx, ghost t: Tree)
      returns (side: Side, sib: SbtNode, niece: SbtNode, nephew: SbtNode, redSibling: bool, redNiece: bool,
              redNephew: bool)
      requires At(node, z, t) && node.parent != null && z.Step? && z.sib.Node?
      ensures side == z.side && sib == z.sib.item.n && redSibling == z.sib.IsRed()
      ensures niece == Ptr(z.sib.Sub(side), nil) && redNiece == z.sib.Sub(side).IsRed()
      ensures nephew == Ptr(z.sib.Sub(side.Other()), nil) && redNephew == z.sib.Sub(side.Other()).IsRed()
      ensures node.parent == z.item.n && node.parent.color == z.color
    {
      ReadUp(nodes, z, t, nil);
      if t.Node? { ReadNode(nodes, z, t, nil); }
      assert Linked(Snap(nodes), Beside(z, t), z.sib, nil) by { SiblingLinked(Snap(nodes), z, t, nil); }
      ReadNode(nodes, Beside(z, t), z.sib, nil);
      ChildLinked(Snap(nodes), L, Beside(z, t), z.sib, nil);
      ChildLinked(Snap(nodes), R, Beside(z, t), z.sib, nil);
      ReadColor(Into(L, Beside(z, t), z.sib), z.sib.left);
      ReadColor(Into(R, Beside(z, t), z.sib), z.sib.right);
      var p := node.parent;
      sib := if node == p.left then p.right else p.left;
      niece := if node == p.left then sib.left else sib.right;
      nephew := if node == p.right then sib.left else sib.right;
      side := if node == p.right then R else L;
      redSibling := sib.color == Red;
      redNiece := !IsBlack(niece);
      redNephew := !IsBlack(nephew);
    }

    /** The rotation at node->parent that lifts the sibling. */
    method RotateParent(side: Side, node: SbtNode, ghost z: Ctx, ghost t: Tree) returns (top: SbtNode)
      requires At(node, z, t) && z.Step? && side == z.side && z.sib.Node? && node.parent == z.item.n
      modifies nodes
      ensures At(node, SibUp(z), t) && top == z.sib.item.n && node.parent == z.item.n
    {
      ghost var u := Mk(side, t, z.item, z.color, z.sib);
      Refocus(Snap(nodes), z, t, nil);
      top := Rotate(side, node.parent, z.up, u);
      ghost var v := SibUp(z);
      Refocus(Snap(nodes), v.up, Mk(side, t, v.item, v.color, v.sib), nil);
      Refocus(Snap(nodes), v, t, nil);
      if t.Node? { ReadNode(nodes, v, t, nil); }
    }

    /** The rotation at the sibling that lifts the niece. */
    method RotateSibling(side: Side, node: SbtNode, sib: SbtNode, ghost z: Ctx, ghost t: Tree)
      requires At(node, z, t) && z.Step? && side == z.side && z.sib.Node? && z.sib.Sub(side).Node?
      requires sib == z.sib.item.n && node.parent == z.item.n
      modifies nodes
      ensures At(node, NieceUp(z), t) && node.parent == z.item.n
    {
      SiblingLinked(Snap(nodes), z, t, nil);
      var _ := Rotate(side.Other(), sib, Beside(z, t), z.sib);
      SiblingLinked(Snap(nodes), NieceUp(z), t, nil);
      if t.Node? { ReadNode(nodes, NieceUp(z), t, nil); }
    }

    /** Colouring the root of t, anywhere in the tree. */
    method Paint(n: SbtNode, c: Color, ghost z: Ctx, ghost t: Tree)
      requires nil in nodes && Linked(Snap(nodes), z, t, nil) && t.Node? && n == t.item.n
      modifies nodes
      ensures Linked(Snap(nodes), z, t.Painted(c), nil) && nil.View() == old(nil.View())
    {
      PaintLinked(Snap(nodes), z, t, c, nil);
      ReadNode(nodes, z, t, nil);
      n.SetColor(c, nodes);
    }

    /** Colouring node->parent. */
    method PaintParent(p: SbtNode, c: Color, node: SbtNode, ghost z: Ctx, ghost t: Tree)
      requires At(node, z, t) && z.Step? && p == z.item.n && node.parent == p
      modifies nodes
      ensures At(node, z.(color := c), t) && node.parent == p
    {
      Refocus(Snap(nodes), z, t, nil);
      Paint(p, c, z.up, Mk(z.side, t, z.item, z.color, z.sib));
      Refocus(Snap(nodes), z.(color := c), t, nil);
      if t.Node? { ReadNode(nodes, z.(color := c), t, nil); }
    }

    /** Colouring the node above node->parent. */
    method PaintGrandparent(g: SbtNode, c: Color, node: SbtNode, ghost z: Ctx, ghost t: Tree)
      requires At(node, z, t) && z.Step? && z.up.Step? && g == z.up.item.n && node.parent == z.item.n
      modifies nodes
      ensures At(node, z.(up := z.up.(color := c)), t) && node.parent == z.item.n
    {
      ghost var u, v := Mk(z.side, t, z.item, z.color, z.sib), z.(up := z.up.(color := c));
      Refocus(Snap(nodes), z, t, nil);
      Refocus(Snap(nodes), z.up, u, nil);
      Paint(g, c, z.up.up, Mk(z.up.side, u, z.up.item, z.up.color, z.up.sib));
      Refocus(Snap(nodes), v.up, u, nil);
      Refocus(Snap(nodes), v, t, nil);
      if t.Node? { ReadNode(nodes, v, t, nil); }
    }

    /** Colouring a node of the subtree beside node or beside its parent. */
    method PaintSibling(n: SbtNode, c: Color, node: SbtNode, ghost z: Ctx, ghost t: Tree)
      requires At(node, z, t) && z.Step? && z.sib.Node? && n == z.sib.item.n && node.parent == z.item.n
      modifies nodes
      ensures At(node, z.(sib := z.sib.Painted(c)), t) && node.parent == z.item.n
    {
      ghost var v := z.(sib := z.sib.Painted(c));
      SiblingLinked(Snap(nodes), z, t, nil);
      Paint(n, c, Beside(z, t), z.sib);
      SiblingLinked(Snap(nodes), v, t, nil);
      if t.Node? { ReadNode(nodes, v, t, nil); }
    }

    method PaintAunt(n: SbtNode, c: Color, node: SbtNode, ghost z: Ctx, ghost t: Tree)
      requires At(node, z, t) && z.Step? && z.up.Step? && z.up.sib.Node? && n == z.up.sib.item.n
      requires node.parent == z.item.n
      modifies nodes
      ensures At(node, z.(up := z.up.(sib := z.up.sib.Painted(c))), t) && node.parent == z.item.n
    {
      ghost var u, g := Mk(z.side, t, z.item, z.color, z.sib), z.up.(sib := z.up.sib.Painted(c));
      Refocus(Snap(nodes), z, t, nil);
      SiblingLinked(Snap(nodes), z.up, u, nil);
      Paint(n, c, Beside(z.up, u), z.up.sib);
      SiblingLinked(Snap(nodes), g, u, nil);
      Refocus(Snap(nodes), z.(up := g), t, nil);
      if t.Node? { ReadNode(nodes, z.(up := g), t, nil); }
    }

    /** The rotation at node->parent, with the root pointer following when the parent was the root.
        (src/sbtree.cpp:402-405 and 475-476 lose the root here.) */
    method LiftSibling(side: Side, node: SbtNode, ghost z: Ctx, ghost t: Tree)
      requires At(node, z, t) && z.Step? && side == z.side && z.sib.Node? && node.parent == z.item.n
      requires root == TopNode(z, node)
      modifies this`root, nodes
      ensures At(node, SibUp(z), t) && node.parent == z.item.n && root == TopNode(SibUp(z), node)
    {
      hide CRep, Rep, CNodes, Nodes, Inorder;
      LiftedRoot(z, node);
      var p := node.parent;
      var top := RotateParent(side, node, z, t);
      if root == p { root := top; }
    }

    /** The branches of the loop body that leave the loop, red parent first. */
    method FixRedParent(side: Side, node: SbtNode, sib: SbtNode, redNiece: bool, ghost z: Ctx, ghost t: Tree)
      requires At(node, z, t) && z.Step? && side == z.side && z.sib.Node? && node.parent == z.item.n
      requires sib == z.sib.item.n
      requires redNiece == z.sib.Sub(side).IsRed() && root == TopNode(z, node)
      modifies this`root, nodes
      ensures At(node, RedParent(z), t) && node.parent == z.item.n && root == TopNode(RedParent(z), node)
    {
      if redNiece {
        RotateSibling(side, node, sib, z, t);
        LiftSibling(side, node, NieceUp(z), t);
        PaintParent(node.parent, Black, node, SibUp(NieceUp(z)), t);
      } else {
        LiftSibling(side, node, z, t);
      }
    }

    method FixRedSibling(side: Side, node: SbtNode, sib: SbtNode, ghost z: Ctx, ghost t: Tree)
      requires At(node, z, t) && z.Step? && side == z.side && z.sib.Node? && node.parent == z.item.n
      requires sib == z.sib.item.n
      requires root == TopNode(z, node)
      modifies this`root, nodes
      ensures At(node, RedSibling(z), t) && root == TopNode(RedSibling(z), node)
    {
      var p := node.parent;
      LiftSibling(side, node, z, t);
      PaintParent(p, Red, node, SibUp(z), t);
      PaintGrandparent(sib, Black, node, Repaint(SibUp(z), Red), t);
    }

    method FixRedNephew(side: Side, node: SbtNode, nephew: SbtNode, ghost z: Ctx, ghost t: Tree)
      requires At(node, z, t) && z.Step? && side == z.side && z.sib.Node? && node.parent == z.item.n
      requires z.sib.Sub(side.Other()).Node? && nephew == z.sib.Sub(side.Other()).item.n && root == TopNode(z, node)
      modifies this`root, nodes
      ensures At(node, RedNephew(z), t) && node.parent == z.item.n && root == TopNode(RedNephew(z), node)
    {
      LiftSibling(side, node, z, t);
      PaintAunt(nephew, Black, node, SibUp(z), t);
    }

    method FixRedNiece(side: Side, node: SbtNode, sib: SbtNode, niece: SbtNode, ghost z: Ctx, ghost t: Tree)
      requires At(node, z, t) && z.Step? && side == z.side && z.sib.Node? && node.parent == z.item.n
      requires sib == z.sib.item.n
      requires z.sib.Sub(side).Node? && niece == z.sib.Sub(side).item.n && root == TopNode(z, node)
      modifies this`root, nodes
      ensures At(node, RedNiece(z), t) && node.parent == z.item.n && root == TopNode(RedNiece(z), node)
    {
      RotateSibling(side, node, sib, z, t);  // the two rotations of sbt_rotate(niece)
      LiftSibling(side, node, NieceUp(z), t);
      PaintGrandparent(niece, Black, node, SibUp(NieceUp(z)), t);
    }

    ghost predicate DelState(node: SbtNode, z: Ctx, t: Tree, h: int)
      reads this, nodes
    {
      At(node, z, t) && Short(z, t, h) && root == TopNode(z, node)
    }

    /** One pass of the rbt_del_fix loop; `leave` is its break. */
    method DelFixPass(node: SbtNode, ghost z: Ctx, ghost t: Tree, ghost h: int)
      returns (leave: bool, node': SbtNode, ghost z': Ctx, ghost t': Tree, ghost h': int)
      requires DelState(node, z, t, h) && z.Step? && !t.IsRed()
      modifies this`root, nodes
      ensures Base(z') == Base(z) && At(node', z', t') && root == TopNode(z', node')
      ensures leave ==> Plug(z', t') == DelFix(z, t) && z'.Step? && !t'.IsRed() && Around(z', t') == Around(z, t)
      ensures !leave ==> Short(z', t', h') && DelFix(z', t') == DelFix(z, t) && Left(z') < Left(z)
    {
      hide CRep, Rep, CNodes, Nodes, Inorder, Bal, CBal, NoRR, CNoRR;
      SiblingExists(z, t, h);
      ReadUp(nodes, z, t, nil);
      if t.Node? { ReadNode(nodes, z, t, nil); }
      leave, node', t', h' := true, node, t, h;
      var side, sib, niece, nephew, redSibling, redNiece, redNephew := LookAround(node, z, t);
      var redParent := node.parent.color == Red;
      if redParent {
        RedParentGood(z, t, h);
        FixRedParent(side, node, sib, redNiece, z, t);
        z' := RedParent(z);
      } else if redSibling {
        RedSiblingGood(z, t, h);
        FixRedSibling(side, node, sib, z, t);
        leave, z' := false, RedSibling(z);  // src/sbtree.cpp:452 leaves the loop here
      } else if redNephew {
        RedNephewGood(z, t, h);
        FixRedNephew(side, node, nephew, z, t);
        z' := RedNephew(z);
      } else if redNiece {
        RedNieceGood(z, t, h);
        FixRedNiece(side, node, sib, niece, z, t);
        z' := RedNiece(z);
      } else {
        RecolorShort(z, t, h);
        PaintSibling(sib, Red, node, z, t);
        ghost var v := z.(sib := z.sib.Painted(Red));
        leave, z', t', h' := false, z.up, Mk(z.side, t, z.item, Black, v.sib), h + 1;
        Refocus(Snap(nodes), v, t, nil);
        node' := node.parent;  // src/sbtree.cpp:470 takes the grandparent
      }
    }

    /** rbt_del_fix, from any state in which exactly the subtree at `start` is one black node short. */
    method RbtDelFix(start: SbtNode, ghost z0: Ctx, ghost t0: Tree, ghost h0: int)
      requires DelState(start, z0, t0, h0)
      modifies this`root, nodes
      ensures Linked(Snap(nodes), Top(Base(z0)), DelFix(z0, t0), nil) && nil in nodes && nil.color == Black
      ensures root == Ptr(DelFix(z0, t0), nil)
    {
      var node := start;
      ghost var z, t, h := z0, t0, h0;
      AboveNil(node, z, t);
      while !IsNull(node.parent, nil) && node.color == Black
        invariant DelState(node, z, t, h) && DelFix(z, t) == DelFix(z0, t0) && Base(z) == Base(z0)
        invariant IsNull(node.parent, nil) <==> z.Top?
        invariant node.color == Black <==> !t.IsRed()
        decreases Left(z)
      {
        var leave;
        leave, node, z, t, h := DelFixPass(node, z, t, h);
        AboveNil(node, z, t);
        if leave {
          break;
        }
      }
      assert DelFix(z0, t0) == Plug(z, t.Painted(Black));
      FinishDel(node, z, t);
    }

    /** The two statements after the loop. */
    method FinishDel(node: SbtNode, ghost z: Ctx, ghost t: Tree)
      requires At(node, z, t) && root == TopNode(z, node)
      modifies this`root, nodes
      ensures Linked(Snap(nodes), Top(Base(z)), Plug(z, t.Painted(Black)), nil) && nil in nodes && nil.color == Black
      ensures root == Ptr(Plug(z, t.Painted(Black)), nil)
    {
      AboveNil(node, z, t);
      ghost var m := Snap(nodes);
      assert m[nil] == nil.View();
      if t.Node? {
        PaintLinked(m, z, t, Black, nil);
        assert node != nil;
      } else {
        assert m[nil := m[nil].(color := Black)] == m;
      }
      node.SetColor(Black, nodes);
      Unzip(Snap(nodes), z, t.Painted(Black), nil);
      PlugPtr(z, t.Painted(Black), nil);
      if IsNull(node.parent, nil) { root := node; }
    }

    lemma AboveNil(node: SbtNode, z: Ctx, t: Tree)
      requires At(node, z, t)
      ensures node in nodes && (IsNull(node.parent, nil) <==> z.Top?) && (node.color == Black <==> !t.IsRed())
    {
      if t.Node? { ReadNode(nodes, z, t, nil); }
      if z.Step? { ReadUp(nodes, z, t, nil); }
    }

    // ---------- rbt_delete ----------

    /** transplant */
    method Transplant(a: SbtNode, b: SbtNode)
      requires a in nodes && b in nodes && a != b
      requires !IsNull(a.parent, nil) ==> a.parent in nodes
      modifies nodes
      ensures Snap(nodes) == Transplanted(old(Snap(nodes)), a, b, nil)
    {
      b.SetParent(a.parent, nodes);
      if IsNull(a.parent, nil) {
        return;
      }
      var onLeft := a != a.parent.right;
      if onLeft {
        a.parent.SetLeft(b, nodes);
      } else {
        a.parent.SetRight(b, nodes);
      }
    }

    /** The loop that walks to the leftmost node below `start`. */
    method LeftMost(start: SbtNode, ghost z: Ctx, ghost t: Tree) returns (y: SbtNode)
      requires nil in nodes && Linked(Snap(nodes), z, t, nil) && t.Node? && start == t.item.n
      ensures y == MinTree(t).item.n && Linked(Snap(nodes), LeftSpine(t, z), MinTree(t), nil)
    {
      y := start;
      ghost var z', t' := z, t;
      ReadNode(nodes, z, t, nil);
      while !IsNull(y.left, nil)
        invariant Linked(Snap(nodes), z', t', nil) && t'.Node? && y == t'.item.n
        invariant LeftSpine(t', z') == LeftSpine(t, z) && MinTree(t') == MinTree(t)
        invariant y.left == Ptr(t'.left, nil)
        decreases t'
      {
        y := y.left;
        ChildLinked(Snap(nodes), L, z', t', nil);
        z', t' := Into(L, z', t'), t'.left;
        ReadNode(nodes, z', t', nil);
      }
    }

    /** A node with a missing child goes; its other child x comes up. */
    method Detach(del: SbtNode, x: SbtNode, ghost d: Side, ghost z: Ctx, ghost t: Tree)
      requires nil in nodes && nil.color == Black && Linked(Snap(nodes), z, t, nil)
      requires t.Node? && del == t.item.n && x == Ptr(t.Sub(d), nil)
      modifies nodes
      ensures At(x, z, t.Sub(d)) && del.View() == old(del.View())
      ensures t.Sub(d).Node? ==> nil.View() == old(nil.View())
    {
      ghost var m := Snap(nodes);
      ReadNode(nodes, z, t, nil);
      TransplantChild(m, d, z, t, nil);
      assert m[nil] == nil.View() && m[del] == del.View();
      Transplant(del, x);
      assert Snap(nodes)[nil] == nil.View() && Snap(nodes)[del] == del.View();
    }

    /** y takes over the place of del. */
    method TakeOver(del: SbtNode, y: SbtNode) returns (wasBlack: bool)
      requires del in nodes && y in nodes && y != del && y != nil
      requires !IsNull(del.parent, nil) ==> del.parent in nodes && del.parent != del && del.parent != y
      requires del.left != null && del.left in nodes && del.left != y && del.left != del
      requires del.right != null && del.right in nodes && del.right != y && del.right != del
      modifies nodes
      ensures Snap(nodes) == TakenOver(old(Snap(nodes)), del, y, nil)
      ensures wasBlack == (old(y.color) == Black)
    {
      ghost var m := Snap(nodes);
      assert m[y] == y.View() && m[del] == del.View();
      Transplant(del, y);
      assert Snap(nodes)[y] == y.View() && Snap(nodes)[del] == del.View();
      if y != del.right {
        y.SetRight(del.right, nodes);
        y.right.SetParent(y, nodes);
      }
      y.SetLeft(del.left, nodes);
      y.left.SetParent(y, nodes);
      wasBlack := IsBlack(y);
      y.SetColor(del.color, nodes);
    }

    /** A node with two children: the leftmost node y of its right subtree is taken out, then takes its place. */
    method DetachInner(del: SbtNode, ghost z: Ctx, ghost t: Tree) returns (x: SbtNode, y: SbtNode, wasBlack: bool)
      requires nil in nodes && nil.color == Black && Linked(Snap(nodes), z, t, nil)
      requires t.Node? && t.left.Node? && t.right.Node? && del == t.item.n
      modifies nodes
      ensures var m := MinTree(t.right);
        && At(x, LeftSpine(t.right, Step(R, m.item, t.color, t.left, z)), m.right)
        && y == m.item.n && wasBlack == (m.color == Black)
    {
      ghost var r, base, m := t.right, Into(R, z, t), MinTree(t.right);
      ReadNode(nodes, z, t, nil);
      ChildLinked(Snap(nodes), R, z, t, nil);
      y := LeftMost(del.right, base, r);
      ghost var v := LeftSpine(r, base);
      ReadNode(nodes, v, m, nil);
      x := y.right;
      Detach(y, x, R, v, m);
      Emptied(Snap(nodes), z, t, m, nil);
      wasBlack := MoveUp(del, y, z, t);
    }

    /** The second half of DetachInner. */
    method MoveUp(del: SbtNode, y: SbtNode, ghost z: Ctx, ghost t: Tree) returns (wasBlack: bool)
      requires nil in nodes && nil.color == Black && t.Node? && t.left.Node? && t.right.Node? && del == t.item.n
      requires var m := MinTree(t.right); var t1 := t.(right := PlugMin(t.right, m.right));
        && Linked(Snap(nodes), z, t1, nil) && y !in Nodes(t1) && y !in CNodes(z)
        && y == m.item.n && y != nil && y in nodes && y.key == m.item.key && y.color == m.color
        && (m.right.Leaf? ==> nil.parent == Above(LeftSpine(t.right, Into(R, z, t))))
      modifies nodes
      ensures var m := MinTree(t.right); var v := LeftSpine(t.right, Step(R, m.item, t.color, t.left, z));
        At(Ptr(m.right, nil), v, m.right) && wasBlack == (m.color == Black)
    {
      ghost var r, m, mem := t.right, MinTree(t.right), Snap(nodes);
      ghost var t1 := t.(right := PlugMin(r, m.right));
      assert mem[nil] == nil.View() && mem[y] == y.View();
      ReadNode(nodes, z, t1, nil);
      if z.Step? { ReadUp(nodes, z, t1, nil); }
      assert t1.left.item.n in Nodes(t1) && (t1.right.Node? ==> t1.right.item.n in Nodes(t1));
      TakenOverLinked(mem, z, t1, m.item, nil);
      wasBlack := TakeOver(del, y);
      assert Snap(nodes)[nil] == nil.View();
      ghost var base := Step(R, m.item, t.color, t.left, z);
      Refocus(Snap(nodes), base, t1.right, nil);
      SpineLinked(Snap(nodes), r, base, m.right, nil);
      if r.left.Node? { SpineAbove(r, Into(R, z, t), base); }
    }

    /** rbt_delete: the tree without exactly that node. */
    method RbtDelete(del: SbtNode)
      requires Valid() && del in Nodes(shape)
      modifies this, nodes
      ensures Valid() && Contents() == Without(old(Contents()), del)
      ensures nodes == old(nodes) - {del} && above == old(above) && (Contents() == [] ==> root == nil)
    {
      ghost var z, t := Open(del);
      ghost var s := DeleteAt(del, z, t);
      Shrink(nodes, nodes - {del}, Top(Base(z)), s, nil);
      Update(s, Base(z), nodes - {del});
    }

    /** Sets the ghost fields once the pointers are right. */
    ghost method Update(s: Tree, p: SbtNode?, ns: set<SbtNode>)
      requires ns == Nodes(s) + {nil} && nil.color == Black
      requires if s.Leaf? then IsNull(root, nil) else root == s.item.n
      requires Linked(Snap(ns), Top(p), s, nil) && RedBlack(s) && Sorted(Inorder(s))
      modifies this`shape, this`above, this`nodes
      ensures Valid() && shape == s && nodes == ns && above == p
    {
      ghost var m := Snap(ns);
      ghost var h :| Bal(s, h);
      shape, above, nodes := s, p, ns;
      assert Snap(nodes) == m;
      assert Sound(h);
    }

    /** The place of a node. */
    lemma Open(n: SbtNode) returns (z: Ctx, t: Tree)
      requires Valid() && n in Nodes(shape)
      ensures Linked(Snap(nodes), z, t, nil) && Plug(z, t) == shape && Base(z) == above
      ensures t.Node? && t.item.n == n && root == TopNode(z, n)
    {
      z, t := Focus(Top(above), shape, n).0, Focus(Top(above), shape, n).1;
      FocusIs(Top(above), shape, n);
      Unzip(Snap(nodes), z, t, nil);
      PlugPtr(z, t, nil);
    }

    /** Everything of rbt_delete that comes before the repair: X stands at the place that Unlinked gives; Y is
        the node that stands where del stood. */
    method Unlink(del: SbtNode, ghost z: Ctx, ghost t: Tree) returns (x: SbtNode, y: SbtNode, wasBlack: bool)
      requires nil in nodes && nil.color == Black && Linked(Snap(nodes), z, t, nil)
      requires t.Node? && t.item.n == del
      modifies nodes
      ensures var (v, u, b) := Unlinked(z, t);
        At(x, v, u) && b == wasBlack && Base(v) == Base(z) && TopNode(v, x) == TopNode(z, y)
    {
      ReadNode(nodes, z, t, nil);
      MissingChild(del, z, t);
      if IsNull(del.left, nil) && IsNull(del.right, nil) {
        wasBlack := IsBlack(del);
        x := del.right;
        Detach(del, x, R, z, t);
        y := x;
      } else if IsNull(del.right, nil) {
        x, wasBlack := UnlinkOne(del, del.left, L, z, t);
        y := x;
      } else if IsNull(del.left, nil) {
        x, wasBlack := UnlinkOne(del, del.right, R, z, t);
        y := x;
      } else {
        x, y, wasBlack := DetachInner(del, z, t);
        ghost var m := MinTree(t.right);
        SpinePlug(t.right, Step(R, m.item, t.color, t.left, z), m.right);
        SpineTop(t.right, Step(R, m.item, t.color, t.left, z), x);
      }
    }

    lemma MissingChild(n: SbtNode, z: Ctx, t: Tree)
      requires nil in nodes && Linked(Snap(nodes), z, t, nil) && t.Node? && n == t.item.n
      ensures IsNull(n.left, nil) <==> t.left.Leaf?
      ensures IsNull(n.right, nil) <==> t.right.Leaf?
    {
      ReadNode(nodes, z, t, nil);
      assert t.left.Node? ==> t.left.item.n in Nodes(t);
      assert t.right.Node? ==> t.right.item.n in Nodes(t);
    }

    /** The only child comes up and takes the colour. */
    method UnlinkOne(del: SbtNode, child: SbtNode, ghost d: Side, ghost z: Ctx, ghost t: Tree)
      returns (x: SbtNode, wasBlack: bool)
      requires nil in nodes && nil.color == Black && Linked(Snap(nodes), z, t, nil)
      requires t.Node? && t.item.n == del && t.Sub(d).Node? && child == t.Sub(d).item.n
      modifies nodes
      ensures At(x, z, t.Sub(d).Painted(t.color)) && x == child && wasBlack == !t.Sub(d).IsRed()
    {
      ReadNode(nodes, z, t, nil);
      x := child;
      Detach(del, x, d, z, t);
      ReadColor(z, t.Sub(d));
      wasBlack := IsBlack(x);
      Paint(x, del.color, z, t.Sub(d));
    }

    /** rbt_delete at a known place; s is the new shape. */
    method DeleteAt(del: SbtNode, ghost z: Ctx, ghost t: Tree) returns (ghost s: Tree)
      requires nil in nodes && nil.color == Black && Linked(Snap(nodes), z, t, nil)
      requires RedBlack(Plug(z, t)) && Sorted(Inorder(Plug(z, t)))
      requires t.Node? && t.item.n == del && root == TopNode(z, del)
      modifies this`root, nodes
      ensures Linked(Snap(nodes), Top(Base(z)), s, nil) && nil.color == Black
      ensures root == Ptr(s, nil) && RedBlack(s) && Sorted(Inorder(s))
      ensures Inorder(s) == Without(Inorder(Plug(z, t)), del) && Nodes(s) == Nodes(Plug(z, t)) - {del}
    {
      s := DeletedFacts(z, t);
      DeletePointers(del, z, t);
    }

    /** The pointer work of rbt_delete. */
    method DeletePointers(del: SbtNode, ghost z: Ctx, ghost t: Tree)
      requires nil in nodes && nil.color == Black && Linked(Snap(nodes), z, t, nil) && RedBlack(Plug(z, t))
      requires t.Node? && t.item.n == del && root == TopNode(z, del)
      modifies this`root, nodes
      ensures Linked(Snap(nodes), Top(Base(z)), Deleted(z, t), nil) && nil.color == Black
      ensures root == Ptr(Deleted(z, t), nil)
    {
      hide CRep, Rep, CNodes, Nodes, RedBlack, Good, Bal, CBal, NoRR, CNoRR, Inorder, Dist, CDist, Plug;
      ghost var m := Snap(nodes);
      ghost var h := GoodPart(z, t);
      ghost var k := UnlinkedGood(z, t, h);
      ghost var (v, u, b) := Unlinked(z, t);
      IsRoot(z, t);
      var isRoot := root == del;
      nil.SetParent(del, nodes);
      FrameLinked(m, Snap(nodes), z, t, nil);
      var x, y, wasBlack := Unlink(del, z, t);
      if isRoot { root := y; }  // before the repair and in every case; see src/sbtree.cpp:402-405
      assert root == TopNode(v, x);
      if wasBlack {
        RbtDelFix(x, v, u, k);
      } else {
        Unzip(Snap(nodes), v, u, nil);
        PlugPtr(v, u, nil);
      }
    }

    lemma IsRoot(z: Ctx, t: Tree)
      requires Linked(Snap(nodes), z, t, nil) && t.Node?
      ensures TopNode(z, t.item.n) == t.item.n <==> z.Top?
      ensures z.Step? ==> forall c :: TopNode(z, c) == TopNode(z, t.item.n)
    {
      if z.Step? { TopNodeIn(z, t.item.n); }
      assert t.item.n in Nodes(t);
    }

    // ---------- sbt_search, sbt_insert ----------

    /** The loop of sbt_search and sbt_insert: where a key is, or where it belongs. */
    method Descend(key: Score) returns (node: SbtNode?, parent: SbtNode?, ghost z: Ctx, ghost t: Tree, ghost steps: nat)
      requires Valid()
      ensures Linked(Snap(nodes), z, t, nil) && Plug(z, t) == shape && Base(z) == above
      ensures if t.Leaf? then IsNull(node, nil) else node == t.item.n && t.item.key == key
      ensures t.Leaf? ==> node == if z.Top? then root else nil
      ensures parent == if z.Top? then root else z.item.n
      ensures Between(z, key) && steps + Height(t) <= Height(shape)
    {
      z, t, steps := Top(above), shape, 0;
      node, parent := root, root;
      if t.Node? { ReadNode(nodes, z, t, nil); }
      while !IsNull(node, nil) && node.key != key
        invariant Linked(Snap(nodes), z, t, nil) && Plug(z, t) == shape && Base(z) == above
        invariant if t.Leaf? then IsNull(node, nil) else node == t.item.n && node != nil && t.item.key == node.key
        invariant t.Leaf? ==> node == if z.Top? then root else nil
        invariant parent == if z.Top? then root else z.item.n
        invariant Between(z, key) && steps + Height(t) <= Height(shape)
        decreases t
      {
        ghost var d := if node.key < key then R else L;
        StepDown(z, t, key, d);
        ReadNode(nodes, z, t, nil);
        ChildLinked(Snap(nodes), d, z, t, nil);
        parent := node;
        if node.key < key {
          node := node.right;
        } else {
          node := node.left;
        }
        z, t, steps := Into(d, z, t), t.Sub(d), steps + 1;
        if t.Node? { ReadNode(nodes, z, t, nil); }
      }
    }

    /** sbt_search: the node with that key, if any, within Height(shape) steps down. */
    method SbtSearch(key: Score) returns (found: SbtNode?, ghost steps: nat)
      requires Valid()
      ensures found == null ==> forall x <- Contents() :: x.key != key
      ensures found != null ==> found in Nodes(shape) && Item(found, key) in Contents() && found.key == key
      ensures Pow2(steps) <= (|Contents()| + 1) * (|Contents()| + 1)
    {
      var node, parent;
      ghost var z, t;
      node, parent, z, t, steps := Descend(key);
      SearchEnd(z, t, key);
      HeightBound(shape);
      Pow2Monotone(steps, Height(shape));
      NodesPlug(z, t);
      if t.Node? { ReadNode(nodes, z, t, nil); }
      found := if IsNull(node, nil) then null else node;
    }

    // ---------- rbt_insert ----------

    /** uncle_of */
    method UncleOf(node: SbtNode, ghost z: Ctx, ghost t: Tree) returns (u: SbtNode)
      requires nil in nodes && Linked(Snap(nodes), z, t, nil) && z.Step? && z.up.Step? && node.parent == z.item.n
      ensures u == Ptr(z.up.sib, nil) && node.parent.parent == z.up.item.n && !IsNull(node.parent.parent, nil)
    {
      ghost var v := Mk(z.side, t, z.item, z.color, z.sib);
      Refocus(Snap(nodes), z, t, nil);
      ReadNode(nodes, z.up, v, nil);
      ReadUp(nodes, z.up, v, nil);
      var p := node.parent;
      u := if p == p.parent.left then p.parent.right else p.parent.left;
    }

    /** sbt_rotate */
    method SbtRotate(node: SbtNode, ghost z: Ctx, ghost t: Tree) returns (top: SbtNode)
      requires nil in nodes && Linked(Snap(nodes), z, t, nil) && z.Step? && z.up.Step? && t.Node? && node == t.item.n
      modifies nodes
      ensures Linked(Snap(nodes), z.up.up, Raised(z, t), nil) && nil.View() == old(nil.View())
      ensures top == Raised(z, t).item.n
    {
      ghost var v := Mk(z.side, t, z.item, z.color, z.sib);
      ReadNode(nodes, z, t, nil);
      ReadUp(nodes, z, t, nil);
      Refocus(Snap(nodes), z, t, nil);
      ReadUp(nodes, z.up, v, nil);
      Refocus(Snap(nodes), z.up, v, nil);
      var p, g := node.parent, node.parent.parent;
      var parentSide := if p == g.right then R else L;
      var side := if node == p.right then R else L;
      ghost var w := v;
      if side != parentSide {  // LR and RL: the middle node first comes up to the parent's place
        var _ := Rotate(parentSide, p, z.up, v);
        w := Rotated(parentSide, v);
        Refocus(Snap(nodes), z.up, w, nil);
      }
      top := Rotate(parentSide.Other(), g, z.up.up, Mk(z.up.side, w, z.up.item, z.up.color, z.up.sib));
    }

    /** The branch of rbt_fix with a red uncle. */
    method RecolorFamily(node: SbtNode, p: SbtNode, g: SbtNode, u: SbtNode, ghost z: Ctx, ghost t: Tree)
      requires At(node, z, t) && t.Node? && z.Step? && z.up.Step? && z.up.sib.Node?
      requires p == z.item.n && node.parent == p && g == z.up.item.n && u == z.up.sib.item.n
      modifies nodes
      ensures At(g, z.up.up, Recolor(z, t))
    {
      PaintParent(p, Black, node, z, t);
      ghost var z1 := z.(color := Black);
      PaintGrandparent(g, Red, node, z1, t);
      ghost var z2 := z1.(up := z1.up.(color := Red));
      PaintAunt(u, Black, node, z2, t);
      ghost var z3 := z2.(up := z2.up.(sib := z2.up.sib.Painted(Black)));
      Refocus(Snap(nodes), z3, t, nil);
      Refocus(Snap(nodes), z3.up, Mk(z3.side, t, z3.item, z3.color, z3.sib), nil);
    }

    /** The branch of rbt_fix with a black uncle. */
    method RotateFamily(node: SbtNode, ghost z: Ctx, ghost t: Tree)
      requires At(node, z, t) && t.Node? && z.Step? && z.up.Step?
      modifies nodes
      ensures Linked(Snap(nodes), z.up.up, Rise(z, t), nil) && nil.color == Black
    {
      ghost var c, v := z.up.up, Raised(z, t);
      var top := SbtRotate(node, z, t);
      ReadNode(nodes, c, v, nil);
      var l, r := top.left, top.right;
      Paint(top, Black, c, v);
      v := v.Painted(Black);
      ChildLinked(Snap(nodes), L, c, v, nil);
      Paint(l, Red, Into(L, c, v), v.left);
      ChildLinked(Snap(nodes), L, c, v.(left := v.left.Painted(Red)), nil);
      v := v.(left := v.left.Painted(Red));
      ChildLinked(Snap(nodes), R, c, v, nil);
      Paint(r, Red, Into(R, c, v), v.right);
      ChildLinked(Snap(nodes), R, c, v.(right := v.right.Painted(Red)), nil);
    }

    ghost predicate InsState(node: SbtNode, z: Ctx, t: Tree, h: int)
      reads this, nodes
    {
      At(node, z, t) && OneRedRed(z, t, h)
    }

    /** One pass of the rbt_fix loop; `leave` is its break. */
    method InsFixPass(node: SbtNode, ghost z: Ctx, ghost t: Tree, ghost h: int) returns (leave: bool, node': SbtNode)
      requires InsState(node, z, t, h) && z.Step? && z.color == Red
      modifies nodes
      ensures leave ==> !z.up.sib.IsRed() && Linked(Snap(nodes), z.up.up, Rise(z, t), nil) && nil.color == Black
      ensures !leave ==> z.up.sib.IsRed() && At(node', z.up.up, Recolor(z, t))
    {
      ReadNode(nodes, z, t, nil);
      var u := UncleOf(node, z, t);
      SiblingUp(z, t);
      ReadColor(Beside(z.up, Mk(z.side, t, z.item, z.color, z.sib)), z.up.sib);
      if !IsNull(u, nil) && u.color == Red {
        leave, node' := false, node.parent.parent;
        RecolorFamily(node, node.parent, node.parent.parent, u, z, t);
      } else {
        leave, node' := true, node;
        RotateFamily(node, z, t);
      }
    }

    lemma SiblingUp(z: Ctx, t: Tree)
      requires Linked(Snap(nodes), z, t, nil) && z.Step? && z.up.Step?
      ensures var v := Mk(z.side, t, z.item, z.color, z.sib);
        Linked(Snap(nodes), Beside(z.up, v), z.up.sib, nil)
    {
      Refocus(Snap(nodes), z, t, nil);
      SiblingLinked(Snap(nodes), z.up, Mk(z.side, t, z.item, z.color, z.sib), nil);
    }

    /** rbt_fix */
    method RbtFix(start: SbtNode, ghost z0: Ctx, ghost t0: Tree, ghost h0: int)
      requires InsState(start, z0, t0, h0)
      modifies nodes
      ensures Linked(Snap(nodes), Top(Base(z0)), InsFix(z0, t0), nil) && nil in nodes && nil.color == Black
    {
      var node := start;
      ghost var z, t, h := z0, t0, h0;
      ReadParent(node, z, t);
      while !IsNull(node.parent, nil) && node.parent.color == Red
        invariant InsState(node, z, t, h) && InsFix(z, t) == InsFix(z0, t0) && Base(z) == Base(z0)
        invariant IsNull(node.parent, nil) <==> z.Top?
        invariant z.Step? ==> node.parent != null && node.parent.color == z.color
        decreases z
      {
        var leave;
        leave, node := InsFixPass(node, z, t, h);
        if leave {
          Unzip(Snap(nodes), z.up.up, Rise(z, t), nil);
          return;
        }
        RecolorGood(z, t, h);
        z, t, h := z.up.up, Recolor(z, t), h + 1;
        ReadParent(node, z, t);
      }
      Unzip(Snap(nodes), z, t, nil);
    }

    lemma ReadParent(node: SbtNode, z: Ctx, t: Tree)
      requires At(node, z, t) && t.Node?
      ensures IsNull(node.parent, nil) <==> z.Top?
      ensures z.Step? ==> node.parent != null && node.parent.color == z.color
    {
      ReadNode(nodes, z, t, nil);
      if z.Step? { ReadUp(nodes, z, t, nil); }
    }

    /** A search that ends outside an empty tree ends at the root pointer. */
    lemma TopIsEmpty(z: Ctx)
      requires Valid() && Linked(Snap(nodes), z, Leaf, nil) && Plug(z, Leaf) == shape
      ensures z.Top? <==> IsNull(root, nil)
    {
      PlugPtr(z, Leaf, nil);
      if z.Step? { TopNodeIn(z, nil); }
    }

    /** sbt_insert. At line 159 the key test must exclude the sentinel, whose key is 0. */
    method SbtInsert(in_: SbtNode) returns (inserted: bool, ghost z: Ctx)
      requires Valid() && in_ !in nodes && in_.left == nil && in_.right == nil && in_.color == Red
      modifies this`root, this`nodes, nodes, in_
      ensures in_.key == old(in_.key)
      ensures inserted <==> forall x <- Contents() :: x.key != in_.key
      ensures !inserted ==> Valid() && nodes == old(nodes) && Snap(nodes) == old(Snap(nodes)) && root == old(root)
      ensures inserted ==> nodes == old(nodes) + {in_} && nil.color == Black
      ensures inserted ==> Linked(Snap(nodes), z, NewNode(Item(in_, in_.key)), nil) && root == TopNode(z, in_)
      ensures inserted ==> Plug(z, Leaf) == shape && Between(z, in_.key)
      ensures inserted ==> Base(z) == if old(IsNull(root, nil)) then old(root) else above
      ensures inserted ==> root == if old(IsNull(root, nil)) then in_ else old(root)
    {
      hide CRep, Rep, RedBlack, Bal, CBal, NoRR, CNoRR, Inorder;
      var node, parent;
      ghost var t, steps;
      node, parent, z, t, steps := Descend(in_.key);
      SearchEnd(z, t, in_.key);
      inserted := IsNull(node, nil);
      if !inserted {
        return;
      }
      z := PlaceNode(in_, parent, z);
    }

    /** The node goes to the place where its search ended, below an empty root pointer when there is no node yet. */
    method PlaceNode(in_: SbtNode, parent: SbtNode?, ghost z0: Ctx) returns (ghost z: Ctx)
      requires Valid() && in_ !in nodes && in_.left == nil && in_.right == nil && in_.color == Red
      requires Linked(Snap(nodes), z0, Leaf, nil) && Plug(z0, Leaf) == shape && Base(z0) == above
      requires Between(z0, in_.key) && parent == if z0.Top? then root else z0.item.n
      modifies this`root, this`nodes, nodes, in_
      ensures in_.key == old(in_.key) && nodes == old(nodes) + {in_} && nil.color == Black
      ensures Linked(Snap(nodes), z, NewNode(Item(in_, in_.key)), nil) && root == TopNode(z, in_)
      ensures Plug(z, Leaf) == shape && Between(z, in_.key)
      ensures Base(z) == if old(IsNull(root, nil)) then old(root) else above
      ensures root == if old(IsNull(root, nil)) then in_ else old(root)
    {
      hide CRep, Rep, RedBlack, Bal, CBal, NoRR, CNoRR, Inorder;
      PlugPtr(z0, Leaf, nil);
      NodesPlug(z0, Leaf);
      TopIsEmpty(z0);
      z := if z0.Top? then Top(root) else z0;
      Shrink(nodes, nodes + {in_}, z, Leaf, nil);
      nodes := nodes + {in_};
      HangNode(in_, parent, z);
    }

    /** The writes of sbt_insert, once the slot is known. */
    method HangNode(in_: SbtNode, parent: SbtNode?, ghost z: Ctx)
      requires nil in nodes && nil.color == Black && in_ in nodes && in_ !in CNodes(z) && in_ != nil
      requires in_.left == nil && in_.right == nil && in_.color == Red
      requires z.Top? ==> z.above == root && IsNull(root, nil)
      requires z.Step? ==> Linked(Snap(nodes), z, Leaf, nil) && root == TopNode(z, nil)
      requires Between(z, in_.key) && parent == Above(z)
      modifies this`root, nodes
      ensures Linked(Snap(nodes), z, NewNode(Item(in_, old(in_.key))), nil) && root == TopNode(z, in_)
      ensures in_.key == old(in_.key) && nil.color == Black
    {
      ghost var m := Snap(nodes);
      assert m[in_] == in_.View() && m[nil] == nil.View();
      if z.Step? {
        ReadUp(nodes, z, Leaf, nil);
        SideOf(z, in_.key);
        TopNodeIn(z, nil);
      }
      if IsNull(root, nil) {
        in_.SetParent(parent, nodes);
        root := in_;
      } else {
        in_.SetParent(parent, nodes);
        if parent.key < in_.key {
          parent.SetRight(in_, nodes);
        } else {
          parent.SetLeft(in_, nodes);
        }
      }
      Hang(m, Snap(nodes), z, Item(in_, m[in_].key), nil);
      assert Snap(nodes)[nil] == nil.View() && Snap(nodes)[in_] == in_.View();
    }

    /** rbt_insert: a tree with the new key in its place, or NILNODE and an unchanged tree when the key is there. */
    method RbtInsert(in_: SbtNode) returns (r: SbtNode)
      requires Valid() && in_ !in nodes && in_.left == nil && in_.right == nil && in_.color == Red
      modifies this, nodes, in_
      ensures Valid() && in_.key == old(in_.key)
      ensures r == nil <==> exists x <- old(Contents()) :: x.key == in_.key
      ensures r == nil ==>
        shape == old(shape) && nodes == old(nodes) && Snap(nodes) == old(Snap(nodes)) && root == old(root)
      ensures r != nil ==> r == in_ && nodes == old(nodes) + {in_}
      ensures r != nil ==> Contents() == SortedInsert(old(Contents()), Item(in_, in_.key))
      ensures r != nil ==> above == if old(IsNull(root, nil)) then old(root) else old(above)
    {
      hide CRep, Rep, CNodes, Nodes, Inorder;
      var inserted;
      ghost var z;
      inserted, z := SbtInsert(in_);
      if !inserted {
        return nil;
      }
      ghost var s := FixUp(in_, z);
      Update(s, Base(z), nodes);
      Keys();
      r := in_;
    }

    /** The rest of rbt_insert, once the node is in; s is the new shape. */
    method FixUp(in_: SbtNode, ghost z: Ctx) returns (ghost s: Tree)
      requires nil in nodes && nil.color == Black && Linked(Snap(nodes), z, NewNode(Item(in_, in_.key)), nil)
      requires root == TopNode(z, in_)
      requires RedBlack(Plug(z, Leaf)) && Sorted(Inorder(Plug(z, Leaf))) && Between(z, in_.key)
      modifies this`root, nodes
      ensures Linked(Snap(nodes), Top(Base(z)), s, nil) && nil.color == Black && s.Node? && root == s.item.n
      ensures RedBlack(s) && Sorted(Inorder(s)) && Item(in_, old(in_.key)) in Inorder(s)
      ensures Inorder(s) == SortedInsert(Inorder(Plug(z, Leaf)), Item(in_, old(in_.key)))
      ensures Nodes(s) == Nodes(Plug(z, Leaf)) + {in_}
    {
      ghost var x := Item(in_, in_.key);
      ghost var f := InsertedFacts(z, x);
      RbtFix(in_, z, NewNode(x), 0);
      FinishInsert(Base(z), f);
      s := f.Painted(Black);
    }

    /** The statements of rbt_insert after rbt_fix. At line 352 a root has a parent when that is not NILNODE. */
    method FinishInsert(ghost p: SbtNode?, ghost s: Tree)
      requires nil in nodes && nil.color == Black && Linked(Snap(nodes), Top(p), s, nil)
      requires s.Node? && (root == s.item.n || exists d :: s.Sub(d).Node? && root == s.Sub(d).item.n)
      modifies this`root, nodes
      ensures Linked(Snap(nodes), Top(p), s.Painted(Black), nil) && nil.color == Black
      ensures root == s.item.n
    {
      ReadNode(nodes, Top(p), s, nil);
      if root != s.item.n {
        ghost var d :| s.Sub(d).Node? && root == s.Sub(d).item.n;
        ChildLinked(Snap(nodes), d, Top(p), s, nil);
        ReadNode(nodes, Into(d, Top(p), s), s.Sub(d), nil);
      }
      if !IsNull(root.parent, nil) {
        root := root.parent;
      }
      Paint(root, Black, Top(p), s);
    }

    /** The root pointer of a tree without nodes, and the parent of the root of one with nodes, is null or NILNODE. */
    lemma RootFacts()
      requires Valid()
      ensures (IsNull(root, nil) <==> Contents() == []) && nil in nodes && nil.color == Black
      ensures !IsNull(root, nil) ==> root in nodes && root.parent == above && IsNull(above, nil)
    {
      if shape.Node? {
        ReadNode(nodes, Top(above), shape, nil);
        assert shape.item in Inorder(shape);
      }
    }

    /** The keys in Contents are the keys in the nodes. */
    lemma Keys()
      requires Valid()
      ensures forall x <- Contents() :: x.n in nodes && x.n != nil && x.n.key == x.key
    {
      RepKeys(Snap(nodes), shape, above, nil);
      NodesInorder(shape);
      forall x | x in Contents()
        ensures x.n in nodes && x.n != nil && x.n.key == x.key
      {
        var i :| 0 <= i < |Contents()| && Contents()[i] == x;
        assert x.n in NodesOf(Contents());
      }
    }

    /** No two nodes have the same key. */
    lemma OneKey(i: nat, j: nat)
      requires Valid() && i < |Contents()| && j < |Contents()| && Contents()[i].key == Contents()[j].key
      ensures i == j
    {
    }

    // ---------- walking in order ----------

    /** Around `start`: its links, and what a walk has to find. */
    lemma Halves(start: SbtNode) returns (z: Ctx, t: Tree)
      requires Valid() && start in Nodes(shape)
      ensures Linked(Snap(nodes), z, t, nil) && Plug(z, t) == shape && t.Node? && t.item.n == start && start in nodes
      ensures Base(z) == above
      ensures start.View() == Cell(Above(z), Ptr(t.left, nil), Ptr(t.right, nil), t.item.key, t.color)
      ensures (IsNull(start.left, nil) <==> t.left.Leaf?) && (IsNull(start.right, nil) <==> t.right.Leaf?)
    {
      z, t := Open(start);
      ReadNode(nodes, z, t, nil);
      MissingChild(start, z, t);
    }

    lemma NextIs(r: SbtNode?, z: Ctx, t: Tree)
      requires Linked(Snap(nodes), z, t, nil) && t.Node?
      requires FirstOf(r, Inorder(t.right) + After(z))
      ensures IsAt(r, Inorder(Plug(z, t)), Pos(Inorder(Plug(z, t)), t.item.n) + 1, nil)
      ensures Pos(Inorder(Plug(z, t)), t.item.n) + 1 == |Inorder(Plug(z, t))| ==> Inorder(t.right) == [] == After(z)
    {
      PosAround(z, t);
    }

    lemma PrevIs(r: SbtNode?, z: Ctx, t: Tree)
      requires Linked(Snap(nodes), z, t, nil) && t.Node?
      requires LastOf(r, Before(z) + Inorder(t.left))
      ensures IsAt(r, Inorder(Plug(z, t)), Pos(Inorder(Plug(z, t)), t.item.n) - 1, nil)
      ensures Pos(Inorder(Plug(z, t)), t.item.n) == 0 ==> Inorder(t.left) == [] == Before(z)
    {
      PosAround(z, t);
    }

    /** What a pointer at place i is. */
    lemma Place(r: SbtNode?, i: nat)
      requires Valid() && IsAt(r, Contents(), i, nil)
      ensures i < |Contents()| ==> r != null && r != nil && r in Nodes(shape) && Pos(Contents(), r) == i
    {
      if i < |Contents()| {
        Keys();
        NodesInorder(shape);
        assert Contents()[i] in Contents() && Contents()[i].n in NodesOf(Contents());
        PosAt(Contents(), i);
      }
    }

    /** r is the first (last) node of s, or none when s is empty. */
    ghost predicate FirstOf(r: SbtNode?, s: seq<Item>) {
      if s == [] then IsNull(r, nil) else r == s[0].n
    }

    ghost predicate LastOf(r: SbtNode?, s: seq<Item>) {
      if s == [] then IsNull(r, nil) else r == s[|s| - 1].n
    }

    lemma ParentSide(z: Ctx, t: Tree)
      requires Linked(Snap(nodes), z, t, nil) && t.Node?
      ensures IsNull(Above(z), nil) <==> z.Top?
      ensures z.Step? ==> z.item.n.parent == Above(z.up)
      ensures z.Step? ==> (t.item.n == z.item.n.right <==> z.side == R) && (t.item.n == z.item.n.left <==> z.side == L)
    {
      ReadNode(nodes, z, t, nil);
      if z.Step? { ReadUp(nodes, z, t, nil); }
    }

    lemma ClimbUp(z: Ctx, t: Tree) returns (z': Ctx, t': Tree)
      requires Linked(Snap(nodes), z, t, nil) && t.Node? && z.Step?
      ensures z' == z.up && t' == Mk(z.side, t, z.item, z.color, z.sib) && Linked(Snap(nodes), z', t', nil)
      ensures IsNull(Above(z'), nil) <==> z'.Top?
      ensures z'.Step? ==> z'.item.n.parent == Above(z'.up)
      ensures z'.Step? ==>
        (t'.item.n == z'.item.n.right <==> z'.side == R) && (t'.item.n == z'.item.n.left <==> z'.side == L)
    {
      z', t' := z.up, Mk(z.side, t, z.item, z.color, z.sib);
      Refocus(Snap(nodes), z, t, nil);
      ParentSide(z', t');
    }

    /** The walk to the leftmost node that starts ts_at. */
    method First() returns (r: SbtNode)
      requires Valid() && Contents() != []
      ensures r == Contents()[0].n && r in Nodes(shape) && Pos(Contents(), r) == 0
    {
      r := LeftMost(root, Top(above), shape);
      MinFirst(shape);
      Place(r, 0);
    }

    /** sbt_walk_forw, from child and parent links alone: the node after `start` in order, null or NILNODE after
        the last one. As elsewhere, a parent that is NILNODE counts as none (src/sbtree.cpp:248). */
    method SbtWalkForw(start: SbtNode?) returns (r: SbtNode?)
      requires Valid() && (IsNull(start, nil) || start in Nodes(shape))
      ensures IsNull(start, nil) ==> r == null
      ensures !IsNull(start, nil) ==> IsAt(r, Contents(), Pos(Contents(), start) + 1, nil)
      ensures !IsNull(start, nil) && Pos(Contents(), start) + 1 == |Contents()| ==> r == above
    {
      if IsNull(start, nil) {
        return null;
      }
      ghost var z, t := Halves(start);
      if !IsNull(start.right, nil) {
        ChildLinked(Snap(nodes), R, z, t, nil);
        MinFirst(t.right);
        r := LeftMost(start.right, Into(R, z, t), t.right);
      } else {
        r := ClimbForw(start, z, t);
        assert [] + After(z) == After(z);
      }
      NextIs(r, z, t);
    }

    /** The climbing loop of sbt_walk_forw. */
    method ClimbForw(start: SbtNode, ghost z0: Ctx, ghost t0: Tree) returns (p: SbtNode?)
      requires Linked(Snap(nodes), z0, t0, nil) && t0.Node? && start == t0.item.n && start.parent == Above(z0)
      ensures FirstOf(p, After(z0)) && (After(z0) == [] ==> p == Base(z0))
    {
      ghost var z, t := z0, t0;
      var node := start;
      p := start.parent;
      ParentSide(z, t);
      while !IsNull(p, nil) && node == p.right
        invariant Linked(Snap(nodes), z, t, nil) && t.Node? && node == t.item.n && p == Above(z)
        invariant After(z) == After(z0) && Base(z) == Base(z0) && (IsNull(p, nil) <==> z.Top?)
        invariant (z.Step? ==> (node == p.right <==> z.side == R))
        invariant z.Step? ==> p.parent == Above(z.up)
        decreases z
      {
        z, t := ClimbUp(z, t);
        node := p;
        p := p.parent;
      }
    }

    /** sbt_walk_back, its mirror image. */
    method SbtWalkBack(start: SbtNode?) returns (r: SbtNode?)
      requires Valid() && (IsNull(start, nil) || start in Nodes(shape))
      ensures IsNull(start, nil) ==> r == null
      ensures !IsNull(start, nil) ==> IsAt(r, Contents(), Pos(Contents(), start) - 1, nil)
      ensures !IsNull(start, nil) && Pos(Contents(), start) == 0 ==> r == above
    {
      if IsNull(start, nil) {
        return null;
      }
      ghost var z, t := Halves(start);
      if !IsNull(start.left, nil) {
        ChildLinked(Snap(nodes), L, z, t, nil);
        r := RightMost(start.left, Into(L, z, t), t.left);
      } else {
        r := ClimbBack(start, z, t);
        assert Before(z) + [] == Before(z);
      }
      PrevIs(r, z, t);
    }

    /** The loop that walks to the rightmost node below `start`. */
    method RightMost(start: SbtNode, ghost z0: Ctx, ghost t0: Tree) returns (curr: SbtNode)
      requires nil in nodes && Linked(Snap(nodes), z0, t0, nil) && t0.Node? && start == t0.item.n
      ensures LastOf(curr, Before(z0) + Inorder(t0))
    {
      ghost var z, t := z0, t0;
      curr := start;
      MissingChild(curr, z, t);
      while !IsNull(curr.right, nil)
        invariant Linked(Snap(nodes), z, t, nil) && t.Node? && curr == t.item.n
        invariant IsNull(curr.right, nil) <==> t.right.Leaf?
        invariant Before(z) + Inorder(t) == Before(z0) + Inorder(t0)
        decreases t
      {
        ReadNode(nodes, z, t, nil);
        ChildLinked(Snap(nodes), R, z, t, nil);
        IntoRest(z, t);
        curr := curr.right;
        z, t := Into(R, z, t), t.right;
        MissingChild(curr, z, t);
      }
      LastItem(z, t);
    }

    /** The climbing loop of sbt_walk_back. */
    method ClimbBack(start: SbtNode, ghost z0: Ctx, ghost t0: Tree) returns (p: SbtNode?)
      requires Linked(Snap(nodes), z0, t0, nil) && t0.Node? && start == t0.item.n && start.parent == Above(z0)
      ensures LastOf(p, Before(z0)) && (Before(z0) == [] ==> p == Base(z0))
    {
      ghost var z, t := z0, t0;
      var node := start;
      p := start.parent;
      ParentSide(z, t);
      while !IsNull(p, nil) && node == p.left
        invariant Linked(Snap(nodes), z, t, nil) && t.Node? && node == t.item.n && p == Above(z)
        invariant Before(z) == Before(z0) && Base(z) == Base(z0) && (IsNull(p, nil) <==> z.Top?)
        invariant (z.Step? ==> (node == p.left <==> z.side == L))
        invariant z.Step? ==> p.parent == Above(z.up)
        decreases z
      {
        z, t := ClimbUp(z, t);
        node := p;
        p := p.parent;
      }
    }

    /** sbt_walk_forw and sbt_walk_back undo each other. */
    lemma WalksUndo(n: SbtNode, next: SbtNode?)
      requires Valid() && n in Nodes(shape) && !IsNull(next, nil)
      ensures IsAt(next, Contents(), Pos(Contents(), n) + 1, nil) <==>
              next in Nodes(shape) && IsAt(n, Contents(), Pos(Contents(), next) - 1, nil)
    {
      NodesInorder(shape);
      Keys();
      PosIs(Contents(), n);
      assert Contents()[Pos(Contents(), n)] in Contents();
      NextPrev(Contents(), n, next, nil);
    }

    /** sbt_walk: that many steps forward, or ~offset steps back; out of the tree once past an end. */
    method SbtWalk(start: SbtNode?, offset: int) returns (out: SbtNode?)
      requires Valid() && (IsNull(start, nil) || start in Nodes(shape))
      ensures IsNull(start, nil) ==> IsNull(out, nil)
      ensures !IsNull(start, nil) ==>
        IsAt(out, Contents(), Pos(Contents(), start) + (if offset < 0 then offset + 1 else offset), nil)
    {
      hide CRep, Rep, CNodes, Nodes, Inorder;
      out := start;
      ghost var p := if IsNull(start, nil) then |Contents()| else Pos(Contents(), start);
      NodesInorder(shape);
      if !IsNull(start, nil) { PosIs(Contents(), start); }
      var forward := offset >= 0;
      var left := if offset < 0 then -offset - 1 else offset;  // ~offset
      ghost var at := p;
      while left > 0
        invariant left >= 0 && (IsNull(start, nil) ==> IsNull(out, nil))
        invariant !IsNull(start, nil) ==> IsAt(out, Contents(), at, nil)
        invariant at == if offset < 0 then p + offset + 1 + left else p + offset - left
      {
        if !IsNull(start, nil) { Within(out, at); }
        if forward {
          out := SbtWalkForw(out);
          at := at + 1;
        } else {
          out := SbtWalkBack(out);
          at := at - 1;
        }
        left := left - 1;
      }
    }

    /** What a pointer at a place that may lie outside the tree is. */
    lemma Within(r: SbtNode?, i: int)
      requires Valid() && IsAt(r, Contents(), i, nil)
      ensures if 0 <= i < |Contents()| then r != null && r != nil && r in Nodes(shape) && Pos(Contents(), r) == i
              else IsNull(r, nil)
    {
      if i >= 0 { Place(r, i); }
    }

    /** sbt_at, which counts through an index shared by the whole recursion: the node at place offset - index of
        the subtree t, and the index after it. */
    method SbtAt(n: SbtNode?, offset: int, index: nat, ghost z: Ctx, ghost t: Tree) returns (r: SbtNode?, index': nat)
      requires nil in nodes && Linked(Snap(nodes), z, t, nil)
      requires if t.Leaf? then IsNull(n, nil) else n == t.item.n
      ensures if 0 <= offset - index < |Inorder(t)| then r == Inorder(t)[offset - index].n && r != nil
              else IsNull(r, nil) && index' == index + |Inorder(t)|
      decreases t
    {
      if IsNull(n, nil) {
        if t.Node? { ReadNode(nodes, z, t, nil); }
        return n, index;
      }
      ReadNode(nodes, z, t, nil);
      ChildLinked(Snap(nodes), L, z, t, nil);
      ChildLinked(Snap(nodes), R, z, t, nil);
      var left;
      left, index' := SbtAt(n.left, offset, index, Into(L, z, t), t.left);
      if !IsNull(left, nil) {
        return left, index';
      }
      if index' == offset {
        return n, index';
      }
      r, index' := SbtAt(n.right, offset, index' + 1, Into(R, z, t), t.right);
    }

    /** sbt_at(root, offset) */
    method SbtAtRoot(offset: int) returns (r: SbtNode?)
      requires Valid()
      ensures IsAt(r, Contents(), offset, nil)
    {
      var i;
      r, i := SbtAt(root, offset, 0, Top(above), shape);
    }

    // ---------- sbt_replace ----------

    /** The pointer work of sbt_replace. */
    method ReplacePointers(oldn: SbtNode, newn: SbtNode)
      requires oldn in nodes && newn in nodes && newn != oldn && newn != nil
      requires !IsNull(oldn.parent, nil) ==> oldn.parent in nodes && oldn.parent != oldn && oldn.parent != newn
      requires !IsNull(oldn.left, nil) ==> oldn.left in nodes && oldn.left != newn && oldn.left != oldn
      requires !IsNull(oldn.right, nil) ==> oldn.right in nodes && oldn.right != newn && oldn.right != oldn
      modifies nodes
      ensures Snap(nodes) == Replaced(old(Snap(nodes)), oldn, newn, nil)
    {
      ghost var m := Snap(nodes);
      assert m[oldn] == oldn.View();
      var hasLeft, hasRight := !IsNull(oldn.left, nil), !IsNull(oldn.right, nil);
      Transplant(oldn, newn);
      assert Snap(nodes)[oldn] == oldn.View();
      newn.SetLeft(oldn.left, nodes);
      if hasLeft { newn.left.SetParent(newn, nodes); }
      newn.SetRight(oldn.right, nodes);
      if hasRight { newn.right.SetParent(newn, nodes); }
      newn.SetColor(oldn.color, nodes);
    }

    /** sbt_replace with the root update that ts_delete makes before it: newn, of the same key, takes the place of
        oldn; shape, colours and links stay. */
    method SbtReplace(oldn: SbtNode, newn: SbtNode)
      requires Valid() && oldn in Nodes(shape) && newn !in nodes && newn.key == oldn.key
      modifies this, nodes, newn
      ensures Valid() && nodes == old(nodes) - {oldn} + {newn} && SameShape(shape, old(shape)) && above == old(above)
      ensures Pos(old(Contents()), oldn) < |old(Contents())|
      ensures Contents() == old(Contents())[Pos(old(Contents()), oldn) := Item(newn, old(newn.key))]
    {
      hide Inorder, Before, After, Sorted, Dist, CDist;
      ghost var z, t := Open(oldn);
      ReadNode(nodes, z, t, nil);
      ghost var s := ReplacedFacts(z, t, Item(newn, newn.key));
      if root == oldn { root := newn; }
      ReplaceAt(oldn, newn, z, t);
      Shrink(nodes, nodes - {oldn}, Top(above), s, nil);
      Update(s, above, nodes - {oldn});
    }

    method ReplaceAt(oldn: SbtNode, newn: SbtNode, ghost z: Ctx, ghost t: Tree)
      requires nil in nodes && Linked(Snap(nodes), z, t, nil) && t.Node? && t.item.n == oldn && newn !in nodes
      requires Nodes(Plug(z, t)) <= nodes && root == TopNode(z, if z.Top? then newn else oldn)
      modifies this`nodes, nodes, newn
      ensures nodes == old(nodes) + {newn} && nil.View() == old(nil.View())
      ensures var s := Plug(z, t.(item := Item(newn, old(newn.key))));
        Linked(Snap(nodes), Top(Base(z)), s, nil) && s.Node? && root == s.item.n
    {
      ghost var u := t.(item := Item(newn, newn.key));
      NodesPlug(z, t);
      Shrink(nodes, nodes + {newn}, z, t, nil);
      nodes := nodes + {newn};
      ReplaceIn(oldn, newn, z, t);
      PlugRoot(z, u);
      IsRoot(z, u);
      Unzip(Snap(nodes), z, u, nil);
    }

    method ReplaceIn(oldn: SbtNode, newn: SbtNode, ghost z: Ctx, ghost t: Tree)
      requires nil in nodes && Linked(Snap(nodes), z, t, nil) && t.Node? && t.item.n == oldn
      requires newn in nodes && newn !in Nodes(t) + CNodes(z) && newn != nil
      modifies nodes
      ensures nil.View() == old(nil.View())
      ensures Linked(Snap(nodes), z, t.(item := Item(newn, old(newn.key))), nil)
    {
      ReadNode(nodes, z, t, nil);
      ghost var m := Snap(nodes);
      assert m[newn] == newn.View() && m[nil] == nil.View();
      ReplacedLinked(m, z, t, Item(newn, newn.key), nil);
      ReplacePointers(oldn, newn);
      assert Snap(nodes)[nil] == nil.View();
    }
  }
}
