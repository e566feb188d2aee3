/** Inductive trees, a tree with one hole, and the red-black properties. No memory here. */
module Shapes {
  import opened SbtNodes

  datatype Item = Item(n: SbtNode, key: Score)

  datatype Tree = Leaf | Node(left: Tree, item: Item, color: Color, right: Tree) {
    function Sub(d: Side): Tree
      requires Node?
    {
      if d == L then left else right
    }

    predicate IsRed() { Node? && color == Red }

    function Painted(c: Color): Tree { if Node? then this.(color := c) else this }
  }

  /** A node whose child on side d is `near`. */
  function Mk(d: Side, near: Tree, item: Item, color: Color, far: Tree): Tree {
    if d == L then Node(near, item, color, far) else Node(far, item, color, near)
  }

  /** The tree after rotating its root down to side d. */
  function Rotated(d: Side, t: Tree): Tree
    requires t.Node? && t.Sub(d.Other()).Node?
  {
    var q := t.Sub(d.Other());
    Mk(d, Mk(d, t.Sub(d), t.item, t.color, q.Sub(d)), q.item, q.color, q.Sub(d.Other()))
  }

  /** A tree with a hole: the hole is the child on `side` of `item`, `sib` is the other child. */
  datatype Ctx = Top(above: SbtNode?) | Step(side: Side, item: Item, color: Color, sib: Tree, up: Ctx)

  /** The context of the d-side child of the root of t. */
  function Into(d: Side, z: Ctx, t: Tree): Ctx
    requires t.Node?
  {
    Step(d, t.item, t.color, t.Sub(d.Other()), z)
  }

  function Above(z: Ctx): SbtNode? {
    if z.Top? then z.above else z.item.n
  }

  function Base(z: Ctx): SbtNode? {
    if z.Top? then z.above else Base(z.up)
  }

  function Depth(z: Ctx): nat {
    if z.Top? then 0 else 1 + Depth(z.up)
  }

  function Plug(z: Ctx, t: Tree): Tree {
    if z.Top? then t else Plug(z.up, Mk(z.side, t, z.item, z.color, z.sib))
  }

  // ---------- in-order sequence ----------

  function Inorder(t: Tree): seq<Item> {
    if t.Leaf? then [] else Inorder(t.left) + [t.item] + Inorder(t.right)
  }

  function Before(z: Ctx): seq<Item> {
    if z.Top? then []
    else if z.side == L then Before(z.up)
    else Before(z.up) + Inorder(z.sib) + [z.item]
  }

  function After(z: Ctx): seq<Item> {
    if z.Top? then []
    else if z.side == L then [z.item] + Inorder(z.sib) + After(z.up)
    else After(z.up)
  }

  /** The in-order sequence of the whole tree, read around the hole. */
  function Around(z: Ctx, t: Tree): seq<Item> {
    Before(z) + Inorder(t) + After(z)
  }

  lemma {:induction false} PlugInorder(z: Ctx, t: Tree)
    ensures Inorder(Plug(z, t)) == Around(z, t)
  {
    if z.Step? {
      var u := Mk(z.side, t, z.item, z.color, z.sib);
      PlugInorder(z.up, u);
      AroundUp(z, t, z.color, z.sib);
    }
  }

  /** Taking the hole one step up, whatever the colours. */
  lemma AroundUp(z: Ctx, t: Tree, c: Color, s: Tree)
    requires z.Step? && Inorder(s) == Inorder(z.sib)
    ensures Around(z.up, Mk(z.side, t, z.item, c, s)) == Around(z, t)
  {
    if z.side == L {
      Assoc(Before(z.up), Inorder(t), [z.item], Inorder(s), After(z.up));
    } else {
      Assoc(Before(z.up), Inorder(s), [z.item], Inorder(t), After(z.up));
    }
  }

  lemma Assoc<T>(a: seq<T>, b: seq<T>, c: seq<T>, d: seq<T>, e: seq<T>)
    ensures a + (b + c + d) + e == a + b + (c + d + e)
    ensures a + (b + c + d) + e == a + b + c + d + e
    ensures a + b + (c + d + e) == a + b + c + d + e
  {
  }

  /** The two sides of a rotation read the same in order, whatever the colours. */
  lemma RotInorder(d: Side, a: Tree, x: Item, b: Tree, y: Item, c: Tree, k1: Color, k2: Color, k3: Color, k4: Color)
    ensures Inorder(Mk(d, a, x, k1, Mk(d, b, y, k2, c))) == Inorder(Mk(d, Mk(d, a, x, k3, b), y, k4, c))
  {
    var s, t := Mk(d, b, y, k2, c), Mk(d, a, x, k3, b);
    if d == L {
      assert Inorder(s) == Inorder(b) + [y] + Inorder(c) && Inorder(t) == Inorder(a) + [x] + Inorder(b);
      Assoc(Inorder(a), [x], Inorder(b), [y], Inorder(c));
    } else {
      assert Inorder(s) == Inorder(c) + [y] + Inorder(b) && Inorder(t) == Inorder(b) + [x] + Inorder(a);
      Assoc(Inorder(c), [y], Inorder(b), [x], Inorder(a));
    }
  }

  // ---------- the leftmost node ----------

  function MinTree(r: Tree): Tree
    requires r.Node?
    ensures MinTree(r).Node? && MinTree(r).left.Leaf?
  {
    if r.left.Leaf? then r else MinTree(r.left)
  }

  /** r with the subtree at its leftmost node replaced by x. */
  function PlugMin(r: Tree, x: Tree): Tree
    requires r.Node?
  {
    if r.left.Leaf? then x else Node(PlugMin(r.left, x), r.item, r.color, r.right)
  }

  function LeftSpine(r: Tree, base: Ctx): Ctx
    requires r.Node?
  {
    if r.left.Leaf? then base else LeftSpine(r.left, Into(L, base, r))
  }

  lemma {:induction false} SpineTop(r: Tree, base: Ctx, c: SbtNode)
    requires r.Node? && base.Step?
    ensures TopNode(LeftSpine(r, base), c) == TopNode(base, c)
  {
    if r.left.Node? { SpineTop(r.left, Into(L, base, r), c); }
  }

  // ---------- which nodes ----------

  function Nodes(t: Tree): set<SbtNode> {
    if t.Leaf? then {} else Nodes(t.left) + {t.item.n} + Nodes(t.right)
  }

  function CNodes(z: Ctx): set<SbtNode> {
    if z.Top? then {} else CNodes(z.up) + {z.item.n} + Nodes(z.sib)
  }

  /** The root of the whole tree, c when the hole is at the top. */
  function TopNode(z: Ctx, c: SbtNode): SbtNode {
    if z.Top? then c else TopNode(z.up, z.item.n)
  }

  lemma {:induction false} TopNodeIn(z: Ctx, c: SbtNode)
    requires z.Step?
    ensures TopNode(z, c) in CNodes(z)
  {
    if z.up.Step? { TopNodeIn(z.up, z.item.n); }
  }

  /** No node occurs twice. */
  ghost predicate Dist(t: Tree) {
    t.Node? ==>
      && Dist(t.left) && Dist(t.right) && Nodes(t.left) !! Nodes(t.right)
      && t.item.n !in Nodes(t.left) && t.item.n !in Nodes(t.right)
  }

  ghost predicate CDist(z: Ctx) {
    z.Step? ==>
      && CDist(z.up) && Dist(z.sib) && Nodes(z.sib) !! CNodes(z.up)
      && z.item.n !in Nodes(z.sib) && z.item.n !in CNodes(z.up)
  }

  lemma MkNodes(d: Side, a: Tree, x: Item, xc: Color, b: Tree)
    ensures Nodes(Mk(d, a, x, xc, b)) == Nodes(a) + {x.n} + Nodes(b)
    ensures Dist(Mk(d, a, x, xc, b)) <==>
            Dist(a) && Dist(b) && Nodes(a) !! Nodes(b) && x.n !in Nodes(a) && x.n !in Nodes(b)
  {
  }

  // ---------- red-black properties ----------

  /** Every path down from the root of t meets exactly h black nodes. */
  ghost predicate Bal(t: Tree, h: int) {
    if t.Leaf? then h == 0
    else
      var k := if t.color == Black then h - 1 else h;
      Bal(t.left, k) && Bal(t.right, k)
  }

  /** Filling the hole with a tree of black height h makes every path of the whole tree equally black. */
  ghost predicate CBal(z: Ctx, h: int) {
    z.Step? ==> Bal(z.sib, h) && CBal(z.up, if z.color == Black then h + 1 else h)
  }

  /** No red node has a red child. */
  ghost predicate NoRR(t: Tree) {
    t.Node? ==>
      && NoRR(t.left) && NoRR(t.right)
      && (t.color == Red ==> !t.left.IsRed() && !t.right.IsRed())
  }

  /** The same for a context whose hole is filled by a tree with a root of the given redness;
      the whole tree's root, when it is part of the context, is black. */
  ghost predicate CNoRR(z: Ctx, holeRed: bool) {
    z.Step? ==>
      && NoRR(z.sib)
      && (z.color == Red ==> !holeRed && !z.sib.IsRed())
      && (z.color == Red ==> z.up.Step?)
      && CNoRR(z.up, z.color == Red)
  }

  lemma MkBal(d: Side, a: Tree, x: Item, c: Color, b: Tree, h: int)
    ensures Bal(Mk(d, a, x, c, b), h) <==>
            Bal(a, if c == Black then h - 1 else h) && Bal(b, if c == Black then h - 1 else h)
    ensures NoRR(Mk(d, a, x, c, b)) <==> NoRR(a) && NoRR(b) && (c == Red ==> !a.IsRed() && !b.IsRed())
  {
  }

  ghost predicate RedBlack(t: Tree) {
    !t.IsRed() && NoRR(t) && exists h :: Bal(t, h)
  }
}
