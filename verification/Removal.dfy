/** What rbt_delete does to the shape before the repair, and what both operations do to the in-order sequence. */
module Removal {
  import opened SbtNodes
  import opened Shapes
  import opened Repair

  // ---------- finding a node ----------

  /** The context of node n and the subtree it roots. */
  function Focus(z: Ctx, t: Tree, n: SbtNode): (Ctx, Tree)
    requires n in Nodes(t)
    decreases t
  {
    if t.item.n == n then (z, t)
    else if n in Nodes(t.left) then Focus(Into(L, z, t), t.left, n)
    else Focus(Into(R, z, t), t.right, n)
  }

  lemma {:induction false} FocusIs(z: Ctx, t: Tree, n: SbtNode)
    requires n in Nodes(t)
    ensures var (z', t') := Focus(z, t, n);
      Plug(z', t') == Plug(z, t) && t'.Node? && t'.item.n == n && Base(z') == Base(z)
    decreases t
  {
    if t.item.n == n {
    } else if n in Nodes(t.left) {
      FocusIs(Into(L, z, t), t.left, n);
    } else {
      FocusIs(Into(R, z, t), t.right, n);
    }
  }

  /** A part of a red-black tree: t has black height h, its surroundings expect just that. */
  ghost predicate Good(z: Ctx, t: Tree, h: int) {
    NoRR(t) && Bal(t, h) && CBal(z, h) && CNoRR(z, t.IsRed()) && (z.Top? ==> !t.IsRed())
  }

  lemma GoodInto(d: Side, z: Ctx, t: Tree, h: int)
    requires Good(z, t, h) && t.Node?
    ensures Good(Into(d, z, t), t.Sub(d), if t.color == Black then h - 1 else h)
  {
  }

  lemma GoodOut(z: Ctx, t: Tree, h: int)
    requires z.Step? && Good(z.up, Mk(z.side, t, z.item, z.color, z.sib), h)
    ensures Good(z, t, if z.color == Black then h - 1 else h)
  {
    GoodInto(z.side, z.up, Mk(z.side, t, z.item, z.color, z.sib), h);
  }

  lemma {:induction false} GoodPart(z: Ctx, t: Tree) returns (h: int)
    requires RedBlack(Plug(z, t))
    ensures Good(z, t, h)
  {
    if z.Top? {
      h :| Bal(t, h);
    } else {
      var k := GoodPart(z.up, Mk(z.side, t, z.item, z.color, z.sib));
      GoodOut(z, t, k);
      h := if z.color == Black then k - 1 else k;
    }
  }

  // ---------- the leftmost node ----------

  lemma {:induction false} SpinePlug(r: Tree, base: Ctx, x: Tree)
    requires r.Node?
    ensures Plug(LeftSpine(r, base), x) == Plug(base, PlugMin(r, x)) && Base(LeftSpine(r, base)) == Base(base)
  {
    if r.left.Node? { SpinePlug(r.left, Into(L, base, r), x); }
  }

  lemma {:induction false} SpineGood(r: Tree, base: Ctx, h: int) returns (k: int)
    requires r.Node? && Good(base, r, h)
    ensures Good(LeftSpine(r, base), MinTree(r), k)
  {
    if r.left.Leaf? {
      k := h;
    } else {
      GoodInto(L, base, r, h);
      k := SpineGood(r.left, Into(L, base, r), if r.color == Black then h - 1 else h);
    }
  }

  lemma {:induction false} MinFirst(r: Tree)
    requires r.Node?
    ensures Inorder(r) == [MinTree(r).item] + Inorder(PlugMin(r, MinTree(r).right))
    ensures PlugMin(r, MinTree(r)) == r
  {
    if r.left.Node? { MinFirst(r.left); }
  }

  // ---------- rbt_delete ----------

  /** rbt_delete of the root of t in the context z, up to the repair: the place of X, the subtree there, and
      was_black. */
  function Unlinked(z: Ctx, t: Tree): (Ctx, Tree, bool)
    requires t.Node?
  {
    if t.left.Leaf? && t.right.Leaf? then (z, Leaf, t.color == Black)
    else if t.right.Leaf? then (z, t.left.Painted(t.color), !t.left.IsRed())
    else if t.left.Leaf? then (z, t.right.Painted(t.color), !t.right.IsRed())
    else
      var y := MinTree(t.right);
      (LeftSpine(t.right, Step(R, y.item, t.color, t.left, z)), y.right, y.color == Black)
  }

  /** The whole rbt_delete. */
  function Deleted(z: Ctx, t: Tree): Tree
    requires t.Node?
  {
    var (v, x, wasBlack) := Unlinked(z, t);
    if wasBlack then DelFix(v, x) else Plug(v, x)
  }

  /** Taking a node out leaves at most one shortage, exactly when was_black. */
  lemma UnlinkedGood(z: Ctx, t: Tree, h: int) returns (k: int)
    requires t.Node? && Good(z, t, h)
    ensures var (v, x, wasBlack) := Unlinked(z, t);
      && (if wasBlack then Short(v, x, k) else NoRR(x) && !x.IsRed() && Bal(x, k) && (v.Step? ==> Fits(v, k)))
      && Around(v, x) == Before(z) + Inorder(t.left) + Inorder(t.right) + After(z)
  {
    if t.left.Leaf? && t.right.Leaf? {
      DeleteHole(z, t, Leaf, h);
      k := if t.color == Black then h - 1 else h;
    } else if t.left.Leaf? || t.right.Leaf? {
      var x := if t.right.Leaf? then t.left else t.right;
      LoneChildRed(z, t, x, h);
      k := h;
    } else {
      var r, y := t.right, MinTree(t.right);
      var base := Step(R, y.item, t.color, t.left, z);
      GoodInto(R, z, t.(item := y.item), h);
      k := SpineGood(r, base, if t.color == Black then h - 1 else h);
      DeleteHole(LeftSpine(r, base), y, y.right, k);
      k := if y.color == Black then k - 1 else k;
      SpineInorder(z, t);
    }
  }

  /** Deleting any node of any red-black tree leaves a red-black tree, and its in-order sequence is the old one
      without exactly that node. */
  lemma DeletedGood(z: Ctx, t: Tree)
    requires t.Node? && RedBlack(Plug(z, t))
    ensures RedBlack(Deleted(z, t))
    ensures Inorder(Deleted(z, t)) == Before(z) + Inorder(t.left) + Inorder(t.right) + After(z)
  {
    var h := GoodPart(z, t);
    var (v, x, wasBlack) := Unlinked(z, t);
    var k := UnlinkedGood(z, t, h);
    if wasBlack {
      DelFixGood(v, x, k);
    } else {
      Whole(v, x, k);
    }
  }

  /** Taking a node out of a place where its other child is missing. */
  lemma DeleteHole(z: Ctx, t: Tree, x: Tree, h: int)
    requires Good(z, t, h) && t.Node? && t.left.Leaf? && x == t.right
    ensures t.color == Black ==> Short(z, x, h - 1)
    ensures t.color == Red ==> NoRR(x) && !x.IsRed() && Bal(x, h) && Fits(z, h)
  {
    if t.color == Red { BlackHole(z); }
    if t.color == Black { assert CNoRR(z, false); }
  }

  lemma LoneChildRed(z: Ctx, t: Tree, x: Tree, h: int)
    requires Good(z, t, h) && t.Node? && x.Node?
    requires (t.left.Leaf? && x == t.right) || (t.right.Leaf? && x == t.left)
    ensures x.IsRed() && t.color == Black
    ensures NoRR(x.Painted(Black)) && Bal(x.Painted(Black), h) && Fits(z, h)
  {
    var k := if t.color == Black then h - 1 else h;
    assert Bal(Leaf, k) && Bal(x, k) && NoRR(x);
    if x.color == Black {
      assert Bal(x.left, -1);
      BalNonNegative(x.left, -1);
    }
    Kids(x, k);
  }

  lemma Regroup<T>(a: seq<T>, b: seq<T>, c: seq<T>, d: seq<T>)
    ensures a + (b + c) + d == (a + b) + c + d
  {
  }

  lemma SpineInorder(z: Ctx, t: Tree)
    requires t.Node? && t.right.Node?
    ensures var y := MinTree(t.right);
      Around(LeftSpine(t.right, Step(R, y.item, t.color, t.left, z)), y.right)
      == Before(z) + Inorder(t.left) + Inorder(t.right) + After(z)
  {
    var y := MinTree(t.right);
    var base := Step(R, y.item, t.color, t.left, z);
    MinFirst(t.right);
    SpinePlug(t.right, base, y.right);
    PlugInorder(LeftSpine(t.right, base), y.right);
    PlugInorder(base, PlugMin(t.right, y.right));
    Regroup(Before(z) + Inorder(t.left), [y.item], Inorder(PlugMin(t.right, y.right)), After(z));
  }

  // ---------- sequences of items ----------

  ghost predicate Sorted(s: seq<Item>) {
    forall i, j :: 0 <= i < j < |s| ==> s[i].key < s[j].key
  }

  ghost predicate AllBelow(s: seq<Item>, k: Score) {
    forall i :: 0 <= i < |s| ==> s[i].key < k
  }

  ghost predicate AllAbove(s: seq<Item>, k: Score) {
    forall i :: 0 <= i < |s| ==> k < s[i].key
  }

  function SortedInsert(s: seq<Item>, x: Item): seq<Item> {
    if s == [] || x.key < s[0].key then [x] + s else [s[0]] + SortedInsert(s[1..], x)
  }

  function Without(s: seq<Item>, n: SbtNode): seq<Item> {
    if s == [] then [] else if s[0].n == n then s[1..] else [s[0]] + Without(s[1..], n)
  }

  lemma {:induction false} InsertBetween(a: seq<Item>, x: Item, b: seq<Item>)
    requires AllBelow(a, x.key) && AllAbove(b, x.key)
    ensures SortedInsert(a + b, x) == a + [x] + b
  {
    if a == [] {
      assert a + b == b;
    } else {
      assert (a + b)[0] == a[0] && (a + b)[1..] == a[1..] + b;
      InsertBetween(a[1..], x, b);
      assert [a[0]] + (a[1..] + [x] + b) == a + [x] + b;
    }
  }

  lemma {:induction false} WithoutBetween(a: seq<Item>, x: Item, b: seq<Item>)
    requires forall i :: 0 <= i < |a| ==> a[i].n != x.n
    ensures Without(a + [x] + b, x.n) == a + b
  {
    if a == [] {
      assert a + [x] + b == [x] + b && a + b == b;
    } else {
      assert (a + [x] + b)[1..] == a[1..] + [x] + b;
      WithoutBetween(a[1..], x, b);
    }
  }
}
