/** Where the text of the tree departs from the model above: what the text does instead, an input on which that goes
    wrong, and exactly when it does not. */
module TreeAsWritten {
  import opened SbtNodes
  import opened Shapes
  import opened Links
  import opened Repair
  import opened Removal
  import opened Order
  import opened RbTrees

  // ---------- src/sbtree.cpp:442-453 and 469-472: rbt_del_fix ----------

  /** rbt_del_fix as it stands: it leaves the loop after the red-sibling rotation, and after recolouring it goes on at
      the grandparent. */
  function DelFixText(z: Ctx, t: Tree): Tree
    decreases z
  {
    if z.Top? || t.IsRed() || z.sib.Leaf? then Plug(z, t.Painted(Black))
    else
      var near, far := z.sib.Sub(z.side), z.sib.Sub(z.side.Other());
      if z.color == Red then Plug(RedParent(z), t)
      else if z.sib.color == Red then Plug(RedSibling(z), t)
      else if far.IsRed() then Plug(RedNephew(z), t)
      else if near.IsRed() then Plug(RedNiece(z), t)
      else
        var p := Mk(z.side, t, z.item, Black, z.sib.Painted(Red));
        if z.up.Top? then p else DelFixText(z.up.up, Mk(z.up.side, p, z.up.item, z.up.color, z.up.sib))
  }

  /** The branches that repair the shortage in one pass. */
  predicate OnePass(z: Ctx, t: Tree) {
    || z.Top? || t.IsRed() || z.color == Red
    || (z.sib.Node? && z.sib.color == Black && (z.sib.left.IsRed() || z.sib.right.IsRed() || z.up.Top?))
  }

  ghost predicate Even(t: Tree) {
    exists h :: Bal(t, h)
  }

  lemma {:induction false} UnevenPlug(z: Ctx, t: Tree)
    requires !Even(t)
    ensures !Even(Plug(z, t))
  {
    if z.Step? {
      var u := Mk(z.side, t, z.item, z.color, z.sib);
      forall h | Bal(u, h) ensures false { MkBal(z.side, t, z.item, z.color, z.sib, h); }
      UnevenPlug(z.up, u);
    }
  }

  lemma PaintEven(t: Tree, c: Color)
    requires Even(t.Painted(c))
    ensures Even(t)
  {
    var h :| Bal(t.Painted(c), h);
    if t.Node? {
      var k := if c == Black then h - 1 else h;
      assert Bal(t.left, k) && Bal(t.right, k);
      assert Bal(t, if t.color == Black then k + 1 else k);
    }
  }

  /** What is uneven once stays so. */
  lemma {:induction false} UnevenStays(z: Ctx, t: Tree)
    requires !Even(t)
    ensures !Even(DelFixText(z, t))
    decreases z
  {
    if z.Top? || t.IsRed() || z.sib.Leaf? {
      if Even(t.Painted(Black)) { PaintEven(t, Black); }
      UnevenPlug(z, t.Painted(Black));
    } else if z.color == Red {
      UnevenPlug(RedParent(z), t);
    } else if z.sib.color == Red {
      UnevenPlug(RedSibling(z), t);
    } else if z.sib.Sub(z.side.Other()).IsRed() {
      UnevenPlug(RedNephew(z), t);
    } else if z.sib.Sub(z.side).IsRed() {
      UnevenPlug(RedNiece(z), t);
    } else {
      var p := Mk(z.side, t, z.item, Black, z.sib.Painted(Red));
      forall h | Bal(p, h) ensures false { MkBal(z.side, t, z.item, Black, z.sib.Painted(Red), h); }
      if z.up.Step? {
        var g := Mk(z.up.side, p, z.up.item, z.up.color, z.up.sib);
        forall h | Bal(g, h) ensures false { MkBal(z.up.side, p, z.up.item, z.up.color, z.up.sib, h); }
        UnevenStays(z.up.up, g);
      }
    }
  }

  lemma {:induction false} OneHeight(t: Tree, h: int, k: int)
    requires Bal(t, h) && Bal(t, k)
    ensures h == k
  {
    if t.Node? {
      var d := if t.color == Black then 1 else 0;
      OneHeight(t.left, h - d, k - d);
    }
  }

  /** A subtree of the wrong black height next to its sibling is uneven. */
  lemma UnevenMk(d: Side, t: Tree, x: Item, c: Color, s: Tree, h: int, k: int)
    requires Bal(t, h) && Bal(s, k) && h != k
    ensures !Even(Mk(d, t, x, c, s))
  {
    forall j | Bal(Mk(d, t, x, c, s), j) ensures false {
      MkBal(d, t, x, c, s, j);
      var i := if c == Black then j - 1 else j;
      OneHeight(t, h, i);
      OneHeight(s, k, i);
    }
  }

  /** The text keeps all paths equally black exactly when its first pass is one of those that the shortage needs. */
  lemma DelFixTextIff(z: Ctx, t: Tree, h: int)
    requires Short(z, t, h)
    ensures Even(DelFixText(z, t)) <==> OnePass(z, t)
  {
    if z.Top? || t.IsRed() || z.color == Red {
      if z.Step? { SiblingExists(z, t, h); }
      DelFixGood(z, t, h);
      assert DelFixText(z, t) == DelFix(z, t);
      assert Even(DelFix(z, t));
    } else {
      SiblingExists(z, t, h);
      if z.sib.color == Red {
        TextRedSibling(z, t, h);
      } else if z.sib.left.IsRed() || z.sib.right.IsRed() {
        DelFixGood(z, t, h);
        assert DelFixText(z, t) == DelFix(z, t);
        assert Even(DelFix(z, t));
      } else {
        TextRecolor(z, t, h);
      }
    }
  }

  lemma TextRedSibling(z: Ctx, t: Tree, h: int)
    requires Short(z, t, h) && z.Step? && !t.IsRed() && z.color == Black && z.sib.IsRed()
    ensures !Even(DelFixText(z, t))
  {
    RedSiblingGood(z, t, h);
    var v := RedSibling(z);
    UnevenMk(v.side, t, v.item, v.color, v.sib, h, h + 1);
    UnevenPlug(v.up, Mk(v.side, t, v.item, v.color, v.sib));
  }

  lemma TextRecolor(z: Ctx, t: Tree, h: int)
    requires Short(z, t, h) && z.Step? && !t.IsRed() && z.color == Black && z.sib.Node? && z.sib.color == Black
    requires !z.sib.left.IsRed() && !z.sib.right.IsRed()
    ensures Even(DelFixText(z, t)) <==> z.up.Top?
  {
    RecolorShort(z, t, h);
    var p := Mk(z.side, t, z.item, Black, z.sib.Painted(Red));
    assert Bal(p, h + 1);
    if z.up.Step? {
      UnevenMk(z.up.side, p, z.up.item, z.up.color, z.up.sib, h + 1, h + 2);
      UnevenStays(z.up.up, Mk(z.up.side, p, z.up.item, z.up.color, z.up.sib));
    }
  }

  /** Four nodes: the black left child of a black root was deleted, the right child is red with two black children. */
  lemma RedSiblingExample(p: Item, s: Item, a: Item, b: Item)
    ensures var z := Step(L, p, Black, Node(Node(Leaf, a, Black, Leaf), s, Red, Node(Leaf, b, Black, Leaf)), Top(null));
      Short(z, Leaf, 0) && !OnePass(z, Leaf) && !Even(DelFixText(z, Leaf))
  {
    var sib := Node(Node(Leaf, a, Black, Leaf), s, Red, Node(Leaf, b, Black, Leaf));
    var z := Step(L, p, Black, sib, Top(null));
    assert Bal(sib.left, 1) && Bal(sib.right, 1) && NoRR(sib.left) && NoRR(sib.right);
    assert CBal(z, 1) && CNoRR(z, false);
    DelFixTextIff(z, Leaf, 0);
  }

  // ---------- src/sbtree.cpp:402-405 and 475-476: the root pointer ----------

  /** A rotation at the parent of `node` leaves an unchanged root pointer at the true root exactly when the parent is
      not the root. */
  lemma RootStays(z: Ctx, c: SbtNode)
    requires z.Step? && z.sib.Node? && CDist(z)
    ensures TopNode(SibUp(z), c) == TopNode(z, c) <==> z.up.Step?
  {
    LiftedRoot(z, c);
    if z.up.Top? { assert z.sib.item.n in Nodes(z.sib); }
  }

  /** The pass that moves the shortage up, and in no other way repairs it. */
  predicate Recolours(z: Ctx, t: Tree) {
    && z.Step? && !t.IsRed() && z.sib.Node? && z.color == Black && z.sib.color == Black
    && !z.sib.left.IsRed() && !z.sib.right.IsRed()
  }

  function OneUp(z: Ctx, t: Tree): Tree
    requires z.Step?
  {
    Mk(z.side, t, z.item, Black, z.sib.Painted(Red))
  }

  function TwoUp(z: Ctx, t: Tree): Tree
    requires z.Step? && z.up.Step?
  {
    Mk(z.up.side, OneUp(z, t), z.up.item, z.up.color, z.up.sib)
  }

  /** The root pointer after rbt_del_fix, r before it: every break and the return at line 472 leave it, the statement
      after the loop sets it when `node` has no parent. */
  function RootAfterFix(z: Ctx, t: Tree, r: SbtNode, nil: SbtNode): SbtNode
    decreases z
  {
    if z.Top? then Ptr(t, nil)
    else if !Recolours(z, t) || z.up.Top? then r
    else RootAfterFix(z.up.up, TwoUp(z, t), r, nil)
  }

  /** Y of rbt_delete: the node that stands where the root of t stood. */
  function StandIn(t: Tree, nil: SbtNode): SbtNode
    requires t.Node?
  {
    if t.right.Leaf? then Ptr(t.left, nil)
    else if t.left.Leaf? then Ptr(t.right, nil)
    else MinTree(t.right).item.n
  }

  /** The root pointer after rbt_delete of the root of t: lines 402-405 set it only when the loop is not called. */
  function RootText(z: Ctx, t: Tree, nil: SbtNode): SbtNode
    requires t.Node?
  {
    var root := TopNode(z, t.item.n);
    var (v, x, wasBlack) := Unlinked(z, t);
    if wasBlack then RootAfterFix(v, x, root, nil)
    else if root == t.item.n then StandIn(t, nil) else root
  }

  /** The loop of the text arrives at the root. */
  predicate Climbs(z: Ctx, t: Tree)
    decreases z
  {
    z.Top? || (Recolours(z, t) && z.up.Step? && Climbs(z.up.up, TwoUp(z, t)))
  }

  /** A pass that rotates at the root of the whole tree. */
  predicate RotatesRoot(z: Ctx, t: Tree) {
    z.Step? && z.up.Top? && !t.IsRed() && z.sib.Node? && !Recolours(z, t)
  }

  /** The loop, as it is meant, ends with such a pass. */
  predicate Lifts(z: Ctx, t: Tree)
    decreases z
  {
    if Recolours(z, t) then Lifts(z.up, OneUp(z, t)) else RotatesRoot(z, t)
  }

  /** The root does not occur again below the sibling that a rotation would lift. */
  ghost predicate TopApart(z: Ctx) {
    z.Step? ==> if z.up.Top? then z.item.n !in Nodes(z.sib) else TopApart(z.up)
  }

  lemma {:induction false} ApartTop(z: Ctx)
    requires CDist(z)
    ensures TopApart(z)
  {
    if z.Step? { ApartTop(z.up); }
  }

  lemma TopTwo(w: Ctx, c: SbtNode)
    requires w.Step? && w.up.Step?
    ensures TopNode(w, c) == TopNode(w.up.up, w.up.item.n)
  {
    assert TopNode(w, c) == TopNode(w.up, w.item.n);
  }

  /** What a rotating pass makes the root of the whole tree: the lifted node when the parent was the root. */
  lemma LiftedTop(z: Ctx, c: SbtNode)
    requires z.Step? && z.sib.Node?
    ensures var s, q := z.sib.item.n, z.sib.Sub(z.side);
      && TopNode(RedParent(z), c) == TopNode(z.up, if q.IsRed() then q.item.n else s)
      && TopNode(RedSibling(z), c) == TopNode(RedNephew(z), c) == TopNode(z.up, s)
      && (q.Node? ==> TopNode(RedNiece(z), c) == TopNode(z.up, q.item.n))
  {
    TopTwo(RedParent(z), c);
    TopTwo(RedSibling(z), c);
    TopTwo(RedNephew(z), c);
    if z.sib.Sub(z.side).Node? { TopTwo(RedNiece(z), c); }
  }

  /** A rotating pass changes the root of the whole tree exactly when the parent is the root. */
  lemma RotatedTop(z: Ctx, c: SbtNode)
    requires z.Step? && z.sib.Node? && TopApart(z)
    ensures TopNode(RedParent(z), c) == TopNode(z, c) <==> z.up.Step?
    ensures TopNode(RedSibling(z), c) == TopNode(z, c) <==> z.up.Step?
    ensures TopNode(RedNephew(z), c) == TopNode(z, c) <==> z.up.Step?
    ensures z.sib.Sub(z.side).Node? ==> (TopNode(RedNiece(z), c) == TopNode(z, c) <==> z.up.Step?)
  {
    var near := z.sib.Sub(z.side);
    assert z.sib.item.n in Nodes(z.sib);
    assert near.Node? ==> near.item.n in Nodes(near) && Nodes(near) <= Nodes(z.sib);
    LiftedTop(z, c);
  }

  lemma {:induction false} FixRoot(z: Ctx, t: Tree, r: SbtNode, nil: SbtNode)
    ensures RootAfterFix(z, t, r, nil) == if Climbs(z, t) then TopNode(z, Ptr(t, nil)) else r
    decreases z
  {
    if Recolours(z, t) && z.up.Step? { FixRoot(z.up.up, TwoUp(z, t), r, nil); }
  }

  /** The root of the repaired tree is the node that was the root exactly when the loop does not rotate there. */
  lemma {:induction false} RepairedRoot(z: Ctx, t: Tree, h: int, nil: SbtNode)
    requires Short(z, t, h) && TopApart(z)
    ensures Ptr(DelFix(z, t), nil) == TopNode(z, Ptr(t, nil)) <==> !Lifts(z, t)
    decreases z
  {
    if z.Top? || t.IsRed() {
      PlugPtr(z, t.Painted(Black), nil);
    } else {
      SiblingExists(z, t, h);
      if Recolours(z, t) {
        RecolorShort(z, t, h);
        RepairedRoot(z.up, OneUp(z, t), h + 1, nil);
      } else {
        RotatedTop(z, Ptr(t, nil));
        PlugPtr(RedParent(z), t, nil);
        if z.color == Black && z.sib.IsRed() {
          AfterRedSibling(z, t, h, nil);
        } else if z.color == Black {
          PlugPtr(RedNephew(z), t, nil);
          if z.sib.Sub(z.side).IsRed() { PlugPtr(RedNiece(z), t, nil); }
        }
      }
    }
  }

  /** The pass after a red sibling does not change the root any more. */
  lemma AfterRedSibling(z: Ctx, t: Tree, h: int, nil: SbtNode)
    requires Short(z, t, h) && z.Step? && !t.IsRed() && z.color == Black && z.sib.IsRed()
    ensures Ptr(DelFix(z, t), nil) == TopNode(RedSibling(z), Ptr(t, nil))
  {
    RedSiblingGood(z, t, h);
    var v := RedSibling(z);
    SiblingExists(v, t, h);
    assert DelFix(z, t) == Plug(RedParent(v), t);
    PlugPtr(RedParent(v), t, nil);
    LiftedTop(v, Ptr(t, nil));
    assert v.up.Step?;
  }

  /** Where the hole is before the repair, and what the root of the whole tree is then. */
  lemma UnlinkedTop(z: Ctx, t: Tree, nil: SbtNode)
    requires t.Node? && Apart(z, t, nil)
    ensures var (v, x, b) := Unlinked(z, t);
      && TopApart(v) && TopNode(v, Ptr(x, nil)) == if z.Top? then StandIn(t, nil) else TopNode(z, t.item.n)
  {
    ApartTop(z);
    if t.left.Node? && t.right.Node? {
      var y := MinTree(t.right);
      var base := Step(R, y.item, t.color, t.left, z);
      MinIn(t.right);
      SpineTop(t.right, base, Ptr(y.right, nil));
      SpineApart(t.right, base);
    }
  }

  lemma {:induction false} MinIn(r: Tree)
    requires r.Node?
    ensures MinTree(r).item.n in Nodes(r)
  {
    if r.left.Node? { MinIn(r.left); }
  }

  lemma {:induction false} SpineApart(r: Tree, base: Ctx)
    requires r.Node? && base.Step? && TopApart(base)
    ensures TopApart(LeftSpine(r, base))
  {
    if r.left.Node? { SpineApart(r.left, Into(L, base, r)); }
  }

  /** The root pointer that the text leaves is that of the tree which deletion means exactly when the loop is not
      called, or no rotation lifts a new root and the deleted node was not the root or the loop arrives there. */
  lemma RootTextIff(z: Ctx, t: Tree, nil: SbtNode)
    requires t.Node? && Apart(z, t, nil) && RedBlack(Plug(z, t)) && Sorted(Inorder(Plug(z, t)))
    ensures var (v, x, wasBlack) := Unlinked(z, t);
      RootText(z, t, nil) == Ptr(Deleted(z, t), nil) <==> !wasBlack || (!Lifts(v, x) && (z.Step? || Climbs(v, x)))
  {
    var (v, x, wasBlack) := Unlinked(z, t);
    var h := GoodPart(z, t);
    var k := UnlinkedGood(z, t, h);
    UnlinkedTop(z, t, nil);
    if z.Step? { TopNodeIn(z, t.item.n); }
    if wasBlack {
      FixRoot(v, x, TopNode(z, t.item.n), nil);
      RepairedRoot(v, x, k, nil);
      NotTheRoot(z, t, nil);
    } else {
      PlugPtr(v, x, nil);
    }
  }

  /** A deleted node is not the root of what is left. */
  lemma NotTheRoot(z: Ctx, t: Tree, nil: SbtNode)
    requires t.Node? && Apart(z, t, nil) && RedBlack(Plug(z, t)) && Sorted(Inorder(Plug(z, t)))
    ensures Ptr(Deleted(z, t), nil) != t.item.n
  {
    var s := DeletedFacts(z, t);
    if s.Node? { assert s.item.n in Nodes(s); }
  }

  lemma OneNode(x: Item)
    ensures var l := Node(Leaf, x, Black, Leaf);
      Bal(l, 1) && NoRR(l) && Inorder(l) == [x] && Nodes(l) == {x.n} && Dist(l)
  {
    assert Inorder(Leaf) == [] && Nodes(Leaf) == {};
    assert Inorder(Node(Leaf, x, Black, Leaf)) == Inorder(Leaf) + [x] + Inorder(Leaf);
  }

  /** Three black nodes, the root is deleted: one recolouring pass, and the pointer stays at the deleted node. */
  lemma RootExample(r: Item, a: Item, c: Item, nil: SbtNode)
    requires a.n != r.n && c.n != r.n && a.n != c.n && nil !in {a.n, r.n, c.n} && a.key < r.key < c.key
    ensures var t := Node(Node(Leaf, a, Black, Leaf), r, Black, Node(Leaf, c, Black, Leaf));
      && RedBlack(t) && Sorted(Inorder(t)) && Apart(Top(null), t, nil)
      && RootText(Top(null), t, nil) == r.n && Ptr(Deleted(Top(null), t), nil) == c.n
  {
    var l, s := Node(Leaf, a, Black, Leaf), Node(Leaf, c, Black, Leaf);
    var t := Node(l, r, Black, s);
    OneNode(a);
    OneNode(c);
    assert Bal(t, 2) && Inorder(t) == [a] + [r] + [c] == [a, r, c];
    assert MinTree(s) == s;
    var v := Step(R, c, Black, l, Top(null));
    assert Unlinked(Top(null), t) == (v, Leaf, true);
    assert Deleted(Top(null), t) == DelFix(v, Leaf) == OneUp(v, Leaf);
  }

  // ---------- src/sbtree.cpp:159: NILNODE taken for a node with the key ----------

  /** sbt_insert up to line 160: it refuses the key when its search ended at any node with that key, NILNODE included.
      An absent key is refused exactly when it is 0 and the root pointer is not null. */
  method RefusedText(tree: RbTree, key: Score) returns (refused: bool)
    requires tree.Valid() && tree.nil.key == 0.0
    ensures refused <==> (exists x <- tree.Contents() :: x.key == key) || (key == 0.0 && tree.root != null)
  {
    var node, parent;
    ghost var z, t, steps;
    node, parent, z, t, steps := tree.Descend(key);
    SearchEnd(z, t, key);
    tree.RootFacts();
    PlugPtr(z, t, tree.nil);
    if z.Step? { TopNodeIn(z, Ptr(t, tree.nil)); }
    if t.Node? {
      ReadNode(tree.nodes, z, t, tree.nil);
      PlugInorder(z, t);
      assert t.item in Around(z, t);
    }
    refused := node != null && node.key == key;
  }

  /** In a tree of one node with the key 1 the key 0 is refused. */
  method ZeroRefused(tree: RbTree, a: SbtNode) returns (refused: bool)
    requires tree.Valid() && tree.nil.key == 0.0 && tree.Contents() == [Item(a, 1.0)]
    ensures refused
  {
    tree.RootFacts();
    refused := RefusedText(tree, 0.0);
  }

  // ---------- src/sbtree.cpp:352: NILNODE taken for the parent of the root ----------

  /** rbt_insert with the step at line 352 as it stands: `stepped` is what the root pointer becomes, s is the tree that
      was made. Into an empty tree the step loses the tree exactly when the root pointer was NILNODE; into another one
      exactly when its root hangs below NILNODE and is still the root. */
  method RbtInsertText(tree: RbTree, in_: SbtNode) returns (inserted: bool, stepped: SbtNode?, ghost s: Tree)
    requires tree.Valid() && in_ !in tree.nodes && in_.left == tree.nil && in_.right == tree.nil && in_.color == Red
    modifies tree, tree.nodes, in_
    ensures inserted <==> forall x <- old(tree.Contents()) :: x.key != old(in_.key)
    ensures inserted ==> s.Node? && RedBlack(s.Painted(Black))
    ensures inserted ==> Inorder(s) == SortedInsert(old(tree.Contents()), Item(in_, old(in_.key)))
    ensures inserted ==> (stepped == s.item.n <==> !IsNull(stepped, tree.nil))
    ensures inserted && old(IsNull(tree.root, tree.nil)) ==> (IsNull(stepped, tree.nil) <==> old(tree.root) == tree.nil)
    ensures inserted && !old(IsNull(tree.root, tree.nil)) ==>
      (IsNull(stepped, tree.nil) <==> old(tree.above) == tree.nil && old(tree.root) == s.item.n)
  {
    hide CRep, Rep, CNodes, Nodes, Bal, CBal, NoRR, CNoRR;
    ghost var z;
    tree.RootFacts();
    assert tree.shape.Leaf? <==> tree.Contents() == [];
    inserted, z := tree.SbtInsert(in_);
    if !inserted {
      return false, null, Leaf;
    }
    s := InsertedFacts(z, Item(in_, in_.key));
    FirstNode(z, Item(in_, in_.key));
    tree.RbtFix(in_, z, NewNode(Item(in_, in_.key)), 0);
    ReadRoot(tree, z, s);
    stepped := if tree.root.parent != null then tree.root.parent else tree.root;
  }

  /** The first node of a tree needs no repair. */
  lemma FirstNode(z: Ctx, x: Item)
    ensures Plug(z, Leaf).Leaf? <==> z.Top?
    ensures z.Top? ==> InsFix(z, NewNode(x)) == NewNode(x)
  {
    if z.Step? { PlugRoot(z.up, Mk(z.side, Leaf, z.item, z.color, z.sib)); }
  }

  /** Where the old root is after the repair, and what its parent is. */
  lemma ReadRoot(tree: RbTree, z: Ctx, s: Tree)
    requires tree.nil in tree.nodes && Linked(Snap(tree.nodes), Top(Base(z)), s, tree.nil) && s.Node?
    requires tree.root == s.item.n || exists d :: s.Sub(d).Node? && s.Sub(d).item.n == tree.root
    ensures tree.root != null && s.item.n != tree.nil && IsNull(Base(z), tree.nil)
    ensures tree.root.parent == if tree.root == s.item.n then Base(z) else s.item.n
  {
    ReadNode(tree.nodes, Top(Base(z)), s, tree.nil);
    if tree.root != s.item.n {
      var d :| s.Sub(d).Node? && s.Sub(d).item.n == tree.root;
      ChildLinked(Snap(tree.nodes), d, Top(Base(z)), s, tree.nil);
      ReadNode(tree.nodes, Into(d, Top(Base(z)), s), s.Sub(d), tree.nil);
    }
  }

  /** An insertion and a deletion leave a tree whose root pointer is NILNODE. */
  method EmptiedTree(nil: SbtNode) returns (tree: RbTree)
    requires nil.color == Black
    modifies nil
    ensures tree.Valid() && fresh(tree) && tree.nil == nil && tree.Contents() == [] && tree.root == nil
    ensures tree.nodes == {nil}
  {
    tree := new RbTree(nil);
    var a := new SbtNode(1.0, nil, null);
    tree.RootFacts();
    var r := tree.RbtInsert(a);
    assert tree.Contents() == [Item(a, 1.0)];
    NodesInorder(tree.shape);
    assert a in NodesOf([Item(a, 1.0)]);
    tree.RbtDelete(a);
    tree.RootFacts();
  }

  /** The next insertion is lost. */
  method StepLost(nil: SbtNode) returns (tree: RbTree, stepped: SbtNode?)
    requires nil.color == Black
    modifies nil
    ensures IsNull(stepped, nil)
  {
    tree := EmptiedTree(nil);
    var b := new SbtNode(1.0, nil, null);
    tree.RootFacts();
    var inserted;
    ghost var s;
    inserted, stepped, s := RbtInsertText(tree, b);
  }

  /** Without that step its node is a root below NILNODE. */
  method RootBelowNil(nil: SbtNode) returns (tree: RbTree, b: SbtNode)
    requires nil.color == Black
    modifies nil
    ensures tree.Valid() && tree.nil == nil && tree.above == nil && tree.Contents() == [Item(b, 1.0)] && tree.root == b
  {
    tree := EmptiedTree(nil);
    b := new SbtNode(1.0, nil, null);
    tree.RootFacts();
    var r := tree.RbtInsert(b);
    tree.RootFacts();
    OnlyRoot(tree);
  }

  lemma OnlyRoot(tree: RbTree)
    requires tree.Valid() && |tree.Contents()| == 1
    ensures tree.root == tree.Contents()[0].n
  {
    assert |Inorder(tree.shape.left)| == |Inorder(tree.shape.right)| == 0;
    assert Inorder(tree.shape) == [tree.shape.item];
  }

  // ---------- src/sbtree.cpp:50, 75, 248 and 267: NILNODE taken for a parent ----------

  /** A rotation that tests its parent for null only: below NILNODE it writes NILNODE's child link as well. */
  function RotText(m: Mem, d: Side, x: SbtNode, nil: SbtNode): Mem
    requires Rotatable(m, d, x, nil) && nil in m
  {
    var o := d.Other();
    var r := Rot(m, d, x, nil);
    if m[x].parent != nil then r else r[nil := r[nil].WithChild(if m[nil].Child(d) == x then d else o, m[x].Child(o))]
  }

  /** It is the rotation that is meant exactly when x does not hang below NILNODE, or NILNODE has that child already. */
  lemma RotTextIff(m: Mem, d: Side, x: SbtNode, nil: SbtNode)
    requires Rotatable(m, d, x, nil) && nil in m && x != nil
    ensures RotText(m, d, x, nil) == Rot(m, d, x, nil) <==>
      m[x].parent != nil || m[nil].Child(if m[nil].Child(d) == x then d else d.Other()) == m[x].Child(d.Other())
  {
    var o, r := d.Other(), Rot(m, d, x, nil);
    if m[x].parent == nil {
      var e := if m[nil].Child(d) == x then d else o;
      var w := RotText(m, d, x, nil);
      assert w[nil] == m[nil].WithChild(e, m[x].Child(o)) && r[nil] == m[nil];
      if m[nil].Child(e) == m[x].Child(o) { assert w == r; }
    }
  }

  /** The climb of sbt_walk_forw from the last node, and of sbt_walk_back from the first one, arrives at the root. The
      text goes on from there exactly when the root hangs below NILNODE and is NILNODE's child on that side. */
  method ClimbText(tree: RbTree, last: SbtNode, first: SbtNode) returns (forw: bool, back: bool)
    requires tree.Valid() && last in Nodes(tree.shape) && first in Nodes(tree.shape)
    requires Pos(tree.Contents(), last) + 1 == |tree.Contents()| && Pos(tree.Contents(), first) == 0
    ensures forw <==> tree.above == tree.nil && tree.nil.right == tree.root
    ensures back <==> tree.above == tree.nil && tree.nil.left == tree.root
  {
    NodesInorder(tree.shape);
    tree.RootFacts();
    assert last != tree.nil && first != tree.nil by {
      tree.Keys();
      PosIs(tree.Contents(), last);
      PosIs(tree.Contents(), first);
      assert tree.Contents()[Pos(tree.Contents(), last)] in tree.Contents() && tree.Contents()[0] in tree.Contents();
    }
    var p := tree.SbtWalkForw(last);
    var q := tree.SbtWalkBack(first);
    assert !IsNull(tree.root, tree.nil) && IsNull(p, tree.nil) && IsNull(q, tree.nil);
    forw := p != null && p.right == tree.root;
    back := q != null && q.left == tree.root;
  }

  /** A left rotation of the text at a root below an untouched NILNODE makes the new root such a child. */
  lemma RotThenClimb(m: Mem, x: SbtNode, nil: SbtNode)
    requires Rotatable(m, L, x, nil) && nil in m && x != nil && m[x].parent == nil && m[nil].left == null
    ensures var up := m[x].right; var w := RotText(m, L, x, nil); up in w && w[nil].right == up && w[up].parent == nil
  {
    var up := m[x].right;
    assert Rot(m, L, x, nil)[up].parent == nil;
  }
}
