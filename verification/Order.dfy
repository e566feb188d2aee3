/** Facts about in-order sequences: the nodes in them, their order, and how high a tree of n nodes is. */
module Order {
  import opened SbtNodes
  import opened Shapes
  import opened Repair
  import Links
  import opened Removal

  // ---------- nodes of a sequence ----------

  function NodesOf(s: seq<Item>): set<SbtNode> {
    set i | 0 <= i < |s| :: s[i].n
  }

  lemma NodesOfCat(a: seq<Item>, b: seq<Item>)
    ensures NodesOf(a + b) == NodesOf(a) + NodesOf(b)
  {
    forall n | n in NodesOf(a) + NodesOf(b)
      ensures n in NodesOf(a + b)
    {
      if n in NodesOf(a) {
        var i :| 0 <= i < |a| && a[i].n == n;
        assert (a + b)[i].n == n;
      } else {
        var i :| 0 <= i < |b| && b[i].n == n;
        assert (a + b)[|a| + i].n == n;
      }
    }
  }

  lemma {:induction false} NodesInorder(t: Tree)
    ensures NodesOf(Inorder(t)) == Nodes(t)
  {
    if t.Node? {
      NodesInorder(t.left);
      NodesInorder(t.right);
      assert NodesOf([t.item]) == {t.item.n} by { assert [t.item][0] == t.item; }
      NodesOfCat(Inorder(t.left), [t.item]);
      NodesOfCat(Inorder(t.left) + [t.item], Inorder(t.right));
    }
  }

  lemma {:induction false} NodesAround(z: Ctx)
    ensures NodesOf(Before(z)) + NodesOf(After(z)) == CNodes(z)
  {
    if z.Step? {
      NodesAround(z.up);
      NodesInorder(z.sib);
      assert NodesOf([z.item]) == {z.item.n} by { assert [z.item][0] == z.item; }
      if z.side == L {
        NodesOfCat([z.item], Inorder(z.sib));
        NodesOfCat([z.item] + Inorder(z.sib), After(z.up));
      } else {
        NodesOfCat(Before(z.up), Inorder(z.sib));
        NodesOfCat(Before(z.up) + Inorder(z.sib), [z.item]);
      }
    }
  }

  lemma {:induction false} NodesPlug(z: Ctx, t: Tree)
    ensures Nodes(Plug(z, t)) == CNodes(z) + Nodes(t)
  {
    if z.Step? {
      NodesPlug(z.up, Mk(z.side, t, z.item, z.color, z.sib));
      MkNodes(z.side, t, z.item, z.color, z.sib);
    }
  }

  /** The in-order sequence around a node, without it, names all the other nodes. */
  lemma NodesWithout(z: Ctx, t: Tree, s: Tree)
    requires t.Node? && Inorder(s) == Before(z) + Inorder(t.left) + Inorder(t.right) + After(z)
    requires Dist(t) && Nodes(t) !! CNodes(z)
    ensures Nodes(s) == Nodes(Plug(z, t)) - {t.item.n}
    ensures Inorder(s) == Without(Inorder(Plug(z, t)), t.item.n)
  {
    var b, l, r, a := Before(z), Inorder(t.left), Inorder(t.right), After(z);
    NodesInorder(s);
    NodesAround(z);
    NodesPlug(z, t);
    PlugInorder(z, t);
    Outer(b, l, [], r, a);
    Outer(b, l, [t.item], r, a);
    assert NodesOf(b + l) == NodesOf(b) + Nodes(t.left) by { NodesInorder(t.left); NodesOfCat(b, l); }
    assert NodesOf(r + a) == NodesOf(a) + Nodes(t.right) by { NodesInorder(t.right); NodesOfCat(r, a); }
    NodesOfCat(b + l, r + a);
    forall i | 0 <= i < |b + l|
      ensures (b + l)[i].n != t.item.n
    {
      assert (b + l)[i].n in NodesOf(b + l);
    }
    WithoutBetween(b + l, t.item, r + a);
  }

  // ---------- order ----------

  lemma SortedMid(p: seq<Item>, x: Item, q: seq<Item>)
    requires Sorted(p + [x] + q)
    ensures AllBelow(p, x.key) && AllAbove(q, x.key) && Sorted(p + q)
  {
    var s, w := p + [x] + q, p + q;
    assert s[|p|] == x;
    assert forall i :: 0 <= i < |p| ==> p[i] == s[i] == w[i];
    assert forall i :: 0 <= i < |q| ==> q[i] == s[|p| + 1 + i];
    assert forall i :: |p| <= i < |w| ==> w[i] == s[i + 1];
  }

  /** What the order of a whole tree says around one node. */
  lemma SortedAround(z: Ctx, t: Tree)
    requires t.Node? && Sorted(Around(z, t))
    ensures AllBelow(Before(z) + Inorder(t.left), t.item.key) && AllAbove(Inorder(t.right) + After(z), t.item.key)
    ensures Sorted(Before(z) + Inorder(t.left) + Inorder(t.right) + After(z))
  {
    var b, l, r, a := Before(z), Inorder(t.left), Inorder(t.right), After(z);
    Outer(b, l, [t.item], r, a);
    SortedMid(b + l, t.item, r + a);
    Outer(b, l, [], r, a);
  }

  lemma Outer(a: seq<Item>, b: seq<Item>, c: seq<Item>, d: seq<Item>, e: seq<Item>)
    ensures a + (b + c + d) + e == (a + b) + c + (d + e)
    ensures c == [] ==> a + b + d + e == (a + b) + (d + e)
  {
    if c == [] {
      assert a + b + d + e == (a + b) + (d + e);
    }
  }

  lemma SortedWith(a: seq<Item>, x: Item, b: seq<Item>)
    requires Sorted(a + b) && AllBelow(a, x.key) && AllAbove(b, x.key)
    ensures Sorted(a + [x] + b)
  {
    var s, w := a + b, a + [x] + b;
    assert forall i :: 0 <= i < |a| ==> w[i] == a[i] == s[i];
    assert forall i :: |a| < i < |w| ==> w[i] == b[i - |a| - 1] == s[i - 1];
  }

  /** The hole of z is where key belongs. */
  ghost predicate Between(z: Ctx, key: Score) {
    AllBelow(Before(z), key) && AllAbove(After(z), key)
  }

  lemma StepDown(z: Ctx, t: Tree, key: Score, d: Side)
    requires t.Node? && Sorted(Inorder(Plug(z, t))) && Between(z, key) && t.item.key != key
    requires d == if t.item.key < key then R else L
    ensures Between(Into(d, z, t), key)
  {
    PlugInorder(z, t);
    SortedAround(z, t);
    if d == L {
      AboveMore(Inorder(t.right) + After(z), t.item, key);
      assert After(Into(d, z, t)) == [t.item] + (Inorder(t.right) + After(z));
    } else {
      BelowMore(Before(z) + Inorder(t.left), t.item, key);
    }
  }

  lemma BelowMore(p: seq<Item>, x: Item, k: Score)
    requires AllBelow(p, x.key) && x.key < k
    ensures AllBelow(p + [x], k)
  {
  }

  lemma AboveMore(q: seq<Item>, x: Item, k: Score)
    requires AllAbove(q, x.key) && k < x.key
    ensures AllAbove([x] + q, k)
  {
  }

  /** The side of the hole below its parent is the one the last comparison chose. */
  lemma SideOf(z: Ctx, key: Score)
    requires z.Step? && Between(z, key)
    ensures z.side == R <==> z.item.key < key
  {
    if z.side == L {
      assert After(z)[0] == z.item;
    } else {
      assert Before(z)[|Before(z)| - 1] == z.item;
    }
  }

  /** A search ends at the key, or where it would have to be. */
  lemma SearchEnd(z: Ctx, t: Tree, key: Score)
    requires Between(z, key) && (t.Node? ==> t.item.key == key)
    ensures var s := Inorder(Plug(z, t));
      if t.Node? then t.item in s else forall x <- s :: x.key != key
  {
    PlugInorder(z, t);
    if t.Node? {
      assert Around(z, t)[|Before(z)| + |Inorder(t.left)|] == t.item;
    }
  }

  /** Deleting the root of t: all that Valid needs to know about the new tree. */
  lemma DeletedFacts(z: Ctx, t: Tree) returns (s: Tree)
    requires t.Node? && RedBlack(Plug(z, t)) && Sorted(Inorder(Plug(z, t)))
    requires Dist(t) && Nodes(t) !! CNodes(z)
    ensures s == Deleted(z, t) && RedBlack(s) && Sorted(Inorder(s))
    ensures Inorder(s) == Without(Inorder(Plug(z, t)), t.item.n)
    ensures Nodes(s) == Nodes(Plug(z, t)) - {t.item.n}
  {
    s := Deleted(z, t);
    DeletedGood(z, t);
    PlugInorder(z, t);
    SortedAround(z, t);
    NodesWithout(z, t, Deleted(z, t));
  }

  /** Inserting at the place a search found: all that Valid needs to know about the new tree. */
  lemma InsertedFacts(z: Ctx, x: Item) returns (s: Tree)
    requires RedBlack(Plug(z, Leaf)) && Sorted(Inorder(Plug(z, Leaf))) && Between(z, x.key)
    ensures OneRedRed(z, Links.NewNode(x), 0)
    ensures s == InsFix(z, Links.NewNode(x)) && s.Node?
    ensures s.item.n == TopNode(z, x.n) || exists d :: s.Sub(d).Node? && s.Sub(d).item.n == TopNode(z, x.n)
    ensures RedBlack(s.Painted(Black)) && Sorted(Inorder(s.Painted(Black)))
    ensures Inorder(s.Painted(Black)) == SortedInsert(Inorder(Plug(z, Leaf)), x)
    ensures Nodes(s.Painted(Black)) == Nodes(Plug(z, Leaf)) + {x.n} && x in Inorder(s)
  {
    var t := Links.NewNode(x);
    var h := GoodPart(z, Leaf);
    if z.Step? && CNoRR(z, true) { BlackHole(z); }
    s := InsFix(z, t);
    InsFixGood(z, t, 0);
    InsFixRoot(z, t);
    InsertedOrder(z, x, s);
  }

  lemma InsertedOrder(z: Ctx, x: Item, s: Tree)
    requires Sorted(Inorder(Plug(z, Leaf))) && Between(z, x.key) && s.Node?
    requires Inorder(s) == Around(z, Links.NewNode(x))
    ensures Sorted(Inorder(s.Painted(Black))) && x in Inorder(s)
    ensures Inorder(s.Painted(Black)) == SortedInsert(Inorder(Plug(z, Leaf)), x)
    ensures Nodes(s.Painted(Black)) == Nodes(Plug(z, Leaf)) + {x.n}
  {
    PlugInorder(z, Leaf);
    assert Inorder(Links.NewNode(x)) == [x] && Around(z, Leaf) == Before(z) + After(z);
    InsertBetween(Before(z), x, After(z));
    SortedWith(Before(z), x, After(z));
    NodesAdded(z, x, s);
    assert Inorder(s)[|Before(z)|] == x;
  }

  lemma NodesAdded(z: Ctx, x: Item, s: Tree)
    requires Inorder(s) == Before(z) + [x] + After(z)
    ensures Nodes(s) == Nodes(Plug(z, Leaf)) + {x.n}
  {
    NodesInorder(s);
    NodesAround(z);
    NodesPlug(z, Leaf);
    assert NodesOf([x]) == {x.n} by { assert [x][0] == x; }
    NodesOfCat(Before(z), [x]);
    NodesOfCat(Before(z) + [x], After(z));
  }

  // ---------- positions ----------

  /** Where n stands in s; |s| when it does not. */
  function Pos(s: seq<Item>, n: SbtNode): nat
    ensures Pos(s, n) <= |s|
  {
    if s == [] || s[0].n == n then 0 else 1 + Pos(s[1..], n)
  }

  /** r is the node at place i of s; null or NILNODE when there is no such place. */
  ghost predicate IsAt(r: SbtNode?, s: seq<Item>, i: int, nil: SbtNode) {
    if 0 <= i < |s| then r == s[i].n else IsNull(r, nil)
  }

  lemma {:induction false} PosBetween(a: seq<Item>, x: Item, b: seq<Item>)
    requires x.n !in NodesOf(a)
    ensures Pos(a + [x] + b, x.n) == |a|
  {
    if a == [] {
      assert a + [x] + b == [x] + b;
    } else {
      assert a[0].n in NodesOf(a);
      forall n | n in NodesOf(a[1..])
        ensures n in NodesOf(a)
      {
        var i :| 0 <= i < |a[1..]| && a[1..][i].n == n;
        assert a[i + 1].n == n;
      }
      assert (a + [x] + b)[1..] == a[1..] + [x] + b && (a + [x] + b)[0] == a[0];
      PosBetween(a[1..], x, b);
    }
  }

  lemma PosAround(z: Ctx, t: Tree)
    requires t.Node? && Dist(t) && Nodes(t) !! CNodes(z)
    ensures var s := Inorder(Plug(z, t)); var p := Before(z) + Inorder(t.left); var q := Inorder(t.right) + After(z);
      && Pos(s, t.item.n) == |p| && |s| == |p| + 1 + |q|
      && (p != [] ==> s[|p| - 1] == p[|p| - 1]) && (q != [] ==> s[|p| + 1] == q[0])
  {
    PlugInorder(z, t);
    Outer(Before(z), Inorder(t.left), [t.item], Inorder(t.right), After(z));
    NodesAround(z);
    NodesInorder(t.left);
    NodesOfCat(Before(z), Inorder(t.left));
    PosBetween(Before(z) + Inorder(t.left), t.item, Inorder(t.right) + After(z));
  }

  lemma LastItem(z: Ctx, t: Tree)
    requires t.Node? && t.right.Leaf?
    ensures var s := Before(z) + Inorder(t); s != [] && s[|s| - 1] == t.item
  {
  }

  lemma {:induction false} PosIs(s: seq<Item>, n: SbtNode)
    requires n in NodesOf(s)
    ensures Pos(s, n) < |s| && s[Pos(s, n)].n == n
  {
    if s[0].n != n {
      var i :| 0 <= i < |s| && s[i].n == n;
      assert s[1..][i - 1].n == n;
      PosIs(s[1..], n);
    }
  }

  lemma PosAt(s: seq<Item>, i: nat)
    requires i < |s| && Sorted(s) && forall x <- s, y <- s :: x.n == y.n ==> x.key == y.key
    ensures Pos(s, s[i].n) == i
  {
    forall j | 0 <= j < i
      ensures s[j].n != s[i].n
    {
      assert s[j] in s && s[i] in s && s[j].key < s[i].key;
    }
    FirstAt(s, i);
  }

  lemma {:induction false} FirstAt(s: seq<Item>, i: nat)
    requires i < |s| && forall j :: 0 <= j < i ==> s[j].n != s[i].n
    ensures Pos(s, s[i].n) == i
  {
    if i > 0 { FirstAt(s[1..], i - 1); }
  }

  /** Going down one side keeps what lies on the other side of the goal. */
  lemma IntoRest(z: Ctx, t: Tree)
    requires t.Node?
    ensures Inorder(t.left) + After(Into(L, z, t)) == Inorder(t) + After(z)
    ensures Before(Into(R, z, t)) + Inorder(t.right) == Before(z) + Inorder(t)
  {
  }

  // ---------- another node in the same place ----------

  /** The same branching and the same colours. */
  ghost predicate SameShape(s: Tree, t: Tree) {
    if s.Leaf? || t.Leaf? then s.Leaf? && t.Leaf?
    else s.color == t.color && SameShape(s.left, t.left) && SameShape(s.right, t.right)
  }

  lemma {:induction false} SameRefl(t: Tree)
    ensures SameShape(t, t)
  {
    if t.Node? {
      SameRefl(t.left);
      SameRefl(t.right);
    }
  }

  lemma {:induction false} SamePlug(z: Ctx, s: Tree, t: Tree)
    requires SameShape(s, t)
    ensures SameShape(Plug(z, s), Plug(z, t))
  {
    if z.Step? {
      SameRefl(z.sib);
      SamePlug(z.up, Mk(z.side, s, z.item, z.color, z.sib), Mk(z.side, t, z.item, z.color, z.sib));
    }
  }

  lemma {:induction false} SameBalance(s: Tree, t: Tree, h: int)
    requires SameShape(s, t)
    ensures Bal(s, h) <==> Bal(t, h)
    ensures NoRR(s) <==> NoRR(t)
    ensures s.IsRed() <==> t.IsRed()
  {
    if s.Node? {
      var k := if s.color == Black then h - 1 else h;
      SameBalance(s.left, t.left, k);
      SameBalance(s.right, t.right, k);
    }
  }

  /** Replacing the node of the root of t by one of the same key: all that Valid needs to know. */
  lemma ReplacedFacts(z: Ctx, t: Tree, y: Item) returns (s: Tree)
    requires t.Node? && RedBlack(Plug(z, t)) && Sorted(Inorder(Plug(z, t))) && y.key == t.item.key
    requires Dist(t) && Nodes(t) !! CNodes(z)
    ensures s == Plug(z, t.(item := y)) && SameShape(s, Plug(z, t)) && RedBlack(s) && Sorted(Inorder(s))
    ensures var c := Inorder(Plug(z, t)); var k := Pos(c, t.item.n);
      k < |c| && Inorder(s) == c[k := y]
    ensures Nodes(s) == Nodes(Plug(z, t)) - {t.item.n} + {y.n}
  {
    var u := t.(item := y);
    s := Plug(z, u);
    SameRefl(t.left);
    SameRefl(t.right);
    SamePlug(z, u, t);
    var h :| Bal(Plug(z, t), h);
    SameBalance(s, Plug(z, t), h);
    RenamedOrder(z, t, y);
    NodesPlug(z, t);
    NodesPlug(z, u);
    assert Nodes(u) == Nodes(t) - {t.item.n} + {y.n};
  }

  lemma RenamedOrder(z: Ctx, t: Tree, y: Item)
    requires t.Node? && Dist(t) && Nodes(t) !! CNodes(z) && y.key == t.item.key && Sorted(Inorder(Plug(z, t)))
    ensures var c := Inorder(Plug(z, t)); var k := Pos(c, t.item.n);
      k < |c| && Inorder(Plug(z, t.(item := y))) == c[k := y] && Sorted(c[k := y])
  {
    PosAround(z, t);
    PlugInorder(z, t);
    PlugInorder(z, t.(item := y));
    Outer(Before(z), Inorder(t.left), [t.item], Inorder(t.right), After(z));
    Outer(Before(z), Inorder(t.left), [y], Inorder(t.right), After(z));
    UpdateMid(Before(z) + Inorder(t.left), t.item, y, Inorder(t.right) + After(z));
  }

  lemma UpdateMid(p: seq<Item>, x: Item, y: Item, q: seq<Item>)
    ensures (p + [x] + q)[|p| := y] == p + [y] + q
    ensures x.key == y.key && Sorted(p + [x] + q) ==> Sorted(p + [y] + q)
  {
    var s, w := p + [x] + q, p + [y] + q;
    assert s[|p|] == x;
    assert forall i :: 0 <= i < |s| ==> w[i].key == (if i == |p| then y.key else s[i].key);
  }

  // ---------- height ----------

  function Height(t: Tree): nat {
    if t.Leaf? then 0
    else 1 + if Height(t.left) > Height(t.right) then Height(t.left) else Height(t.right)
  }

  function Pow2(n: nat): nat {
    if n == 0 then 1 else 2 * Pow2(n - 1)
  }

  lemma {:induction false} EnoughNodes(t: Tree, h: nat)
    requires Bal(t, h)
    ensures |Inorder(t)| + 1 >= Pow2(h)
  {
    if t.Node? {
      var k := if t.color == Black then h - 1 else h;
      if k < 0 {
        assert Bal(t.left, -1);
        BalNonNegative(t.left, -1);
      }
      EnoughNodes(t.left, k);
      EnoughNodes(t.right, k);
    }
  }

  lemma {:induction false} NotTooHigh(t: Tree, h: int)
    requires Bal(t, h) && NoRR(t)
    ensures Height(t) <= 2 * h + (if t.IsRed() then 1 else 0)
  {
    if t.Node? {
      var k := if t.color == Black then h - 1 else h;
      NotTooHigh(t.left, k);
      NotTooHigh(t.right, k);
    }
  }

  /** Pow2 is the power of two. */
  lemma {:induction false} Pow2Adds(a: nat, b: nat)
    ensures Pow2(1) == 2 && Pow2(a + b) == Pow2(a) * Pow2(b)
  {
    if a > 0 {
      Pow2Adds(a - 1, b);
      assert Pow2(a + b) == 2 * Pow2(a - 1 + b) == 2 * (Pow2(a - 1) * Pow2(b));
    }
  }

  lemma {:induction false} Pow2Monotone(a: nat, b: nat)
    requires a <= b
    ensures Pow2(a) <= Pow2(b)
  {
    if a < b { Pow2Monotone(a, b - 1); }
  }

  /** A red-black tree of n nodes is at most 2*log2(n+1) high. */
  lemma HeightBound(t: Tree)
    requires RedBlack(t)
    ensures Pow2(Height(t)) <= (|Inorder(t)| + 1) * (|Inorder(t)| + 1)
  {
    var h :| Bal(t, h);
    BalNonNegative(t, h);
    EnoughNodes(t, h);
    NotTooHigh(t, h);
    Pow2Monotone(Height(t), 2 * h);
    Pow2Adds(h, h);
    var a, b := Pow2(h), |Inorder(t)| + 1;
    assert a * a <= a * b <= b * b by { Squares(a, b); }
  }

  lemma Squares(a: nat, b: nat)
    requires a <= b
    ensures a * a <= a * b <= b * b
  {
  }

  // ---------- paths ----------

  /** p leads from the root of t out of the tree. */
  predicate IsPath(t: Tree, p: seq<Side>) {
    if t.Leaf? then p == [] else p != [] && IsPath(t.Sub(p[0]), p[1..])
  }

  /** How many black nodes p meets. */
  function Blacks(t: Tree, p: seq<Side>): nat
    requires IsPath(t, p)
  {
    if t.Leaf? then 0 else (if t.color == Black then 1 else 0) + Blacks(t.Sub(p[0]), p[1..])
  }

  /** Every path meets h black nodes. */
  ghost predicate PathsMeet(t: Tree, h: int) {
    forall p :: IsPath(t, p) ==> Blacks(t, p) == h
  }

  /** That is what Valid asks of the colours. */
  lemma BalIsPaths(t: Tree, h: int)
    ensures Bal(t, h) <==> PathsMeet(t, h)
  {
    if Bal(t, h) {
      forall p | IsPath(t, p) ensures Blacks(t, p) == h { EachPath(t, h, p); }
    }
    if PathsMeet(t, h) { AllPaths(t, h); }
  }

  lemma {:induction false} EachPath(t: Tree, h: int, p: seq<Side>)
    requires Bal(t, h) && IsPath(t, p)
    ensures Blacks(t, p) == h
  {
    if t.Node? { EachPath(t.Sub(p[0]), if t.color == Black then h - 1 else h, p[1..]); }
  }

  lemma {:induction false} AllPaths(t: Tree, h: int)
    requires PathsMeet(t, h)
    ensures Bal(t, h)
  {
    if t.Leaf? {
      assert IsPath(t, []);
    } else {
      var k := if t.color == Black then h - 1 else h;
      assert t.Sub(L) == t.left && t.Sub(R) == t.right;
      PathsBelow(t, h, L);
      AllPaths(t.left, k);
      PathsBelow(t, h, R);
      AllPaths(t.right, k);
    }
  }

  lemma PathsBelow(t: Tree, h: int, d: Side)
    requires t.Node? && PathsMeet(t, h)
    ensures PathsMeet(t.Sub(d), if t.color == Black then h - 1 else h)
  {
    forall q | IsPath(t.Sub(d), q)
      ensures Blacks(t.Sub(d), q) == if t.color == Black then h - 1 else h
    {
      var p := [d] + q;
      assert p[1..] == q;
      assert IsPath(t, p);
    }
  }

  /** Next and previous place undo each other. */
  lemma NextPrev(s: seq<Item>, n: SbtNode, next: SbtNode, nil: SbtNode)
    requires Sorted(s) && n in NodesOf(s) && next != nil && n != nil
    requires forall x <- s, y <- s :: x.n == y.n ==> x.key == y.key
    ensures IsAt(next, s, Pos(s, n) + 1, nil) <==> next in NodesOf(s) && IsAt(n, s, Pos(s, next) - 1, nil)
  {
    PosIs(s, n);
    if IsAt(next, s, Pos(s, n) + 1, nil) { PosAt(s, Pos(s, n) + 1); }
    if next in NodesOf(s) && IsAt(n, s, Pos(s, next) - 1, nil) {
      PosIs(s, next);
      PosAt(s, Pos(s, next) - 1);
    }
  }
}
