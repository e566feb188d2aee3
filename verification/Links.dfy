/** How a memory represents a tree with parent links, and what the pointer surgery does to it. */
module Links {
  import opened SbtNodes
  import opened Shapes

  function Ptr(t: Tree, nil: SbtNode): SbtNode {
    if t.Leaf? then nil else t.item.n
  }

  /** m holds t: child links, parent links (p above the root), keys and colours; a missing child is nil. */
  ghost predicate Rep(m: Mem, t: Tree, p: SbtNode?, nil: SbtNode) {
    t.Node? ==>
      && t.item.n in m
      && m[t.item.n] == Cell(p, Ptr(t.left, nil), Ptr(t.right, nil), t.item.key, t.color)
      && Rep(m, t.left, t.item.n, nil) && Rep(m, t.right, t.item.n, nil)
  }

  function MkCell(d: Side, p: SbtNode?, near: SbtNode?, far: SbtNode?, key: Score, color: Color): Cell {
    if d == L then Cell(p, near, far, key, color) else Cell(p, far, near, key, color)
  }

  lemma MkRep(m: Mem, d: Side, a: Tree, x: Item, xc: Color, b: Tree, p: SbtNode?, nil: SbtNode)
    ensures Rep(m, Mk(d, a, x, xc, b), p, nil) <==>
            && x.n in m && m[x.n] == MkCell(d, p, Ptr(a, nil), Ptr(b, nil), x.key, xc)
            && Rep(m, a, x.n, nil) && Rep(m, b, x.n, nil)
  {
  }

  function StepCell(z: Ctx, c: SbtNode, nil: SbtNode): Cell
    requires z.Step?
  {
    MkCell(z.side, Above(z.up), c, Ptr(z.sib, nil), z.item.key, z.color)
  }

  /** m holds the context z, with c the child pointer stored at the hole. */
  ghost predicate CRep(m: Mem, z: Ctx, c: SbtNode, nil: SbtNode) {
    if z.Top? then IsNull(z.above, nil)
    else
      && z.item.n in m && m[z.item.n] == StepCell(z, c, nil)
      && Rep(m, z.sib, z.item.n, nil) && CRep(m, z.up, z.item.n, nil)
  }

  ghost predicate Apart(z: Ctx, t: Tree, nil: SbtNode) {
    && Dist(t) && CDist(z) && Nodes(t) !! CNodes(z)
    && nil !in Nodes(t) && nil !in CNodes(z)
  }

  /** m holds the tree that fills the hole of z with t. */
  ghost predicate Linked(m: Mem, z: Ctx, t: Tree, nil: SbtNode) {
    Apart(z, t, nil) && Rep(m, t, Above(z), nil) && CRep(m, z, Ptr(t, nil), nil)
  }

  // ---------- framing ----------

  ghost predicate Same(m: Mem, m': Mem, s: set<SbtNode>) {
    forall n <- s :: n in m ==> n in m' && m'[n] == m[n]
  }

  lemma {:induction false} FrameRep(m: Mem, m': Mem, t: Tree, p: SbtNode?, nil: SbtNode)
    requires Rep(m, t, p, nil) && Same(m, m', Nodes(t))
    ensures Rep(m', t, p, nil)
  {
    if t.Node? {
      FrameRep(m, m', t.left, t.item.n, nil);
      FrameRep(m, m', t.right, t.item.n, nil);
    }
  }

  lemma {:induction false} FrameCRep(m: Mem, m': Mem, z: Ctx, c: SbtNode, nil: SbtNode)
    requires CRep(m, z, c, nil) && Same(m, m', CNodes(z))
    ensures CRep(m', z, c, nil)
  {
    if z.Step? {
      FrameRep(m, m', z.sib, z.item.n, nil);
      FrameCRep(m, m', z.up, z.item.n, nil);
    }
  }

  lemma FrameLinked(m: Mem, m': Mem, z: Ctx, t: Tree, nil: SbtNode)
    requires Linked(m, z, t, nil) && Same(m, m', Nodes(t) + CNodes(z))
    ensures Linked(m', z, t, nil)
  {
    FrameRep(m, m', t, Above(z), nil);
    FrameCRep(m, m', z, Ptr(t, nil), nil);
  }

  /** Only the parent link of the root of t changes. */
  lemma Reparent(m: Mem, m': Mem, t: Tree, p: SbtNode?, p': SbtNode?, nil: SbtNode)
    requires Rep(m, t, p, nil) && Dist(t)
    requires t.Node? ==> t.item.n in m' && m'[t.item.n] == m[t.item.n].(parent := p')
    requires t.Node? ==> Same(m, m', Nodes(t) - {t.item.n})
    ensures Rep(m', t, p', nil)
  {
    if t.Node? {
      FrameRep(m, m', t.left, t.item.n, nil);
      FrameRep(m, m', t.right, t.item.n, nil);
    }
  }

  /** Only the child link at the hole changes. */
  lemma Rehang(m: Mem, m': Mem, z: Ctx, c: SbtNode, c': SbtNode, nil: SbtNode)
    requires CRep(m, z, c, nil) && CDist(z)
    requires z.Step? ==> z.item.n in m' && m'[z.item.n] == m[z.item.n].WithChild(z.side, c')
    requires z.Step? ==> Same(m, m', CNodes(z) - {z.item.n})
    ensures CRep(m', z, c', nil)
  {
    if z.Step? {
      FrameRep(m, m', z.sib, z.item.n, nil);
      FrameCRep(m, m', z.up, z.item.n, nil);
    }
  }

  // ---------- moving the hole ----------

  lemma Refocus(m: Mem, z: Ctx, t: Tree, nil: SbtNode)
    requires z.Step?
    ensures Linked(m, z, t, nil) <==> Linked(m, z.up, Mk(z.side, t, z.item, z.color, z.sib), nil)
  {
  }

  // ---------- rotation ----------

  predicate Rotatable(m: Mem, d: Side, x: SbtNode, nil: SbtNode) {
    && x in m
    && (var up := m[x].Child(d.Other());
        && !IsNull(up, nil) && up in m && up != x
        && (!IsNull(m[up].Child(d), nil) ==> m[up].Child(d) in m && m[up].Child(d) != x))
    && (!IsNull(m[x].parent, nil) ==> m[x].parent in m && m[x].parent != x)
  }

  /** rotate_left (d == L) and rotate_right (d == R): x goes down to side d, its other child comes up. */
  function Rot(m: Mem, d: Side, x: SbtNode, nil: SbtNode): Mem
    requires Rotatable(m, d, x, nil)
  {
    var o := d.Other();
    var up := m[x].Child(o);
    var mid := m[up].Child(d);
    var p := m[x].parent;
    var m1 := m[x := m[x].WithChild(o, mid)];
    var m2 := if IsNull(mid, nil) then m1 else m1[mid := m1[mid].(parent := x)];
    var m3 := m2[up := m2[up].(parent := p)];
    var m4 := if IsNull(p, nil) then m3
              else m3[p := m3[p].WithChild(if m3[p].Child(d) == x then d else o, up)];
    var m5 := m4[up := m4[up].WithChild(d, x)];
    m5[x := m5[x].(parent := up)]
  }

  /** The cells a rotation changes, one by one. */
  lemma RotEffect(m: Mem, d: Side, x: SbtNode, nil: SbtNode)
    requires Rotatable(m, d, x, nil)
    requires var up := m[x].Child(d.Other()); var mid := m[up].Child(d); var p := m[x].parent;
      mid != up && (!IsNull(p, nil) ==> p != up && p != mid)
    ensures var m' := Rot(m, d, x, nil);
      var up := m[x].Child(d.Other()); var mid := m[up].Child(d); var p := m[x].parent;
      && m'.Keys == m.Keys
      && m'[x] == m[x].WithChild(d.Other(), mid).(parent := up)
      && m'[up] == m[up].WithChild(d, x).(parent := p)
      && (!IsNull(mid, nil) ==> m'[mid] == m[mid].(parent := x))
      && (!IsNull(p, nil) ==> m'[p] == m[p].WithChild(if m[p].Child(d) == x then d else d.Other(), up))
      && (forall n <- m :: n == x || n == up || (n == mid && n != nil) || (n == p && n != nil) || m'[n] == m[n])
  {
  }

  /** A rotation of x with its child y on the other side, anywhere in a tree. */
  lemma RotLinked(m: Mem, d: Side, z: Ctx, a: Tree, x: Item, xc: Color, b: Tree, y: Item, yc: Color, c: Tree,
          nil: SbtNode)
    requires Linked(m, z, Mk(d, a, x, xc, Mk(d, b, y, yc, c)), nil)
    ensures Rotatable(m, d, x.n, nil)
    ensures Linked(Rot(m, d, x.n, nil), z, Mk(d, Mk(d, a, x, xc, b), y, yc, c), nil)
    ensures nil in m ==> nil in Rot(m, d, x.n, nil) && Rot(m, d, x.n, nil)[nil] == m[nil]
  {
    var ty := Mk(d, b, y, yc, c);
    var p := Above(z);
    SplitApart(d, z, a, x, xc, b, y, yc, c, nil);
    JoinApart(d, z, a, x, xc, b, y, yc, c, nil);
    MkRep(m, d, a, x, xc, ty, p, nil);
    MkRep(m, d, b, y, yc, c, x.n, nil);
    assert Ptr(ty, nil) == y.n;
    assert z.Step? ==> z.item.n in m && m[z.item.n] == StepCell(z, x.n, nil);
    assert Rotatable(m, d, x.n, nil);
    RotEffect(m, d, x.n, nil);
    var m' := Rot(m, d, x.n, nil);
    RotPieces(m, m', d, z, a, x, b, y, c, nil);
    MkRep(m', d, a, x, xc, b, y.n, nil);
    MkRep(m', d, Mk(d, a, x, xc, b), y, yc, c, p, nil);
  }

  lemma RotPieces(m: Mem, m': Mem, d: Side, z: Ctx, a: Tree, x: Item, b: Tree, y: Item, c: Tree, nil: SbtNode)
    requires Rep(m, a, x.n, nil) && Rep(m, b, y.n, nil) && Rep(m, c, y.n, nil) && CRep(m, z, x.n, nil)
    requires Dist(b) && CDist(z)
    requires Aside(Nodes(a), Nodes(b), Nodes(c), CNodes(z), x.n, y.n, nil)
    requires m'.Keys == m.Keys
    requires b.Node? ==> m'[b.item.n] == m[b.item.n].(parent := x.n)
    requires z.Step? ==> m'[z.item.n] == m[z.item.n].WithChild(z.side, y.n)
    requires forall n <- m ::
      n == x.n || n == y.n || (b.Node? && n == b.item.n) || (z.Step? && n == z.item.n) || m'[n] == m[n]
    ensures Rep(m', a, x.n, nil) && Rep(m', b, x.n, nil) && Rep(m', c, y.n, nil) && CRep(m', z, y.n, nil)
  {
    FrameRep(m, m', a, x.n, nil);
    FrameRep(m, m', c, y.n, nil);
    Reparent(m, m', b, y.n, x.n, nil);
    Rehang(m, m', z, x.n, y.n, nil);
  }

  lemma SplitApart(d: Side, z: Ctx, a: Tree, x: Item, xc: Color, b: Tree, y: Item, yc: Color, c: Tree, nil: SbtNode)
    requires Apart(z, Mk(d, a, x, xc, Mk(d, b, y, yc, c)), nil)
    ensures Dist(a) && Dist(b) && Dist(c) && Aside(Nodes(a), Nodes(b), Nodes(c), CNodes(z), x.n, y.n, nil)
  {
    MkNodes(d, b, y, yc, c);
    MkNodes(d, a, x, xc, Mk(d, b, y, yc, c));
    AsideSets(Nodes(a), Nodes(b), Nodes(c), CNodes(z), x.n, y.n, nil);
  }

  lemma JoinApart(d: Side, z: Ctx, a: Tree, x: Item, xc: Color, b: Tree, y: Item, yc: Color, c: Tree, nil: SbtNode)
    requires Dist(a) && Dist(b) && Dist(c) && CDist(z)
    requires Aside(Nodes(a), Nodes(b), Nodes(c), CNodes(z), x.n, y.n, nil)
    ensures Apart(z, Mk(d, Mk(d, a, x, xc, b), y, yc, c), nil)
  {
    var tx := Mk(d, a, x, xc, b);
    JoinSets(Nodes(a), Nodes(b), Nodes(c), CNodes(z), x.n, y.n, nil);
    MkNodes(d, a, x, xc, b);
    assert Dist(tx);
    MkNodes(d, tx, y, yc, c);
  }

  ghost predicate Aside(a: set<SbtNode>, b: set<SbtNode>, c: set<SbtNode>, z: set<SbtNode>, x: SbtNode, y: SbtNode,
          nil: SbtNode) {
    && a !! b && a !! c && b !! c && a !! z && b !! z && c !! z
    && x !in a && x !in b && x !in c && x !in z
    && y !in a && y !in b && y !in c && y !in z && x != y
    && nil !in a && nil !in b && nil !in c && nil !in z && nil != x && nil != y
  }

  lemma AsideSets(a: set<SbtNode>, b: set<SbtNode>, c: set<SbtNode>, z: set<SbtNode>, x: SbtNode, y: SbtNode,
          nil: SbtNode)
    requires var s := b + {y} + c; a !! s && x !in a && x !in s && (a + {x} + s) !! z && nil !in a + {x} + s
    requires b !! c && y !in b && y !in c && nil !in z
    ensures Aside(a, b, c, z, x, y, nil)
  {
  }

  lemma JoinSets(a: set<SbtNode>, b: set<SbtNode>, c: set<SbtNode>, z: set<SbtNode>, x: SbtNode, y: SbtNode,
          nil: SbtNode)
    requires Aside(a, b, c, z, x, y, nil)
    ensures (a + {x} + b) !! c && y !in a + {x} + b
    ensures (a + {x} + b + {y} + c) !! z && nil !in a + {x} + b + {y} + c
  {
  }

  // ---------- transplant and replacement ----------

  /** transplant(a, b): b takes a's place below a's parent. */
  function Transplanted(m: Mem, a: SbtNode, b: SbtNode, nil: SbtNode): Mem
    requires a in m && b in m && (!IsNull(m[a].parent, nil) ==> m[a].parent in m)
  {
    var p := m[a].parent;
    var m1 := m[b := m[b].(parent := p)];
    if IsNull(p, nil) then m1
    else m1[p := m1[p].WithChild(if a == m1[p].right then R else L, b)]
  }

  /** A node goes, its d-side child takes its place; a missing child is NILNODE, which then knows the place. */
  lemma TransplantChild(m: Mem, d: Side, z: Ctx, t: Tree, nil: SbtNode)
    requires Linked(m, z, t, nil) && t.Node? && nil in m
    ensures Above(z) != null && Above(z) != nil ==> Above(z) in m
    ensures t.item.n in m && Ptr(t.Sub(d), nil) in m && m[t.item.n].parent == Above(z) && t.item.n != Ptr(t.Sub(d), nil)
    ensures var m' := Transplanted(m, t.item.n, Ptr(t.Sub(d), nil), nil);
      && Linked(m', z, t.Sub(d), nil) && m'.Keys == m.Keys && m'[t.item.n] == m[t.item.n]
      && m'[nil] == (if t.Sub(d).Leaf? then m[nil].(parent := Above(z)) else m[nil])
  {
    var x, n := t.Sub(d), t.item.n;
    assert z.Step? ==> z.item.n in CNodes(z) && m[z.item.n] == StepCell(z, n, nil);
    assert z.Step? && z.sib.Node? ==> z.sib.item.n in CNodes(z);
    assert Rep(m, x, n, nil) && Dist(x) && (x.Node? ==> x.item.n in Nodes(x));
    var m' := Transplanted(m, n, Ptr(x, nil), nil);
    assert forall k <- m :: k == Ptr(x, nil) || (z.Step? && k == z.item.n) || m'[k] == m[k];
    Reparent(m, m', x, n, Above(z), nil);
    Rehang(m, m', z, n, Ptr(x, nil), nil);
  }

  ghost predicate Adopted(m: Mem, m': Mem, s: Tree, p: SbtNode) {
    s.Node? ==> s.item.n in m && s.item.n in m' && m'[s.item.n] == m[s.item.n].(parent := p)
  }

  /** A node y from outside the tree takes the place and the colour of the root of t. */
  lemma ReplaceLinked(m: Mem, m': Mem, z: Ctx, t: Tree, y: Item, nil: SbtNode)
    requires Linked(m, z, t, nil) && t.Node? && y.n !in Nodes(t) && y.n !in CNodes(z) && y.n != nil
    requires y.n in m' && m'[y.n] == Cell(Above(z), Ptr(t.left, nil), Ptr(t.right, nil), y.key, t.color)
    requires m.Keys <= m'.Keys
    requires Adopted(m, m', t.left, y.n) && Adopted(m, m', t.right, y.n)
    requires z.Step? ==> z.item.n in m && m'[z.item.n] == m[z.item.n].WithChild(z.side, y.n)
    requires forall k <- m ::
      k in {y.n, t.item.n, nil, Ptr(t.left, nil), Ptr(t.right, nil)} || (z.Step? && k == z.item.n) || m'[k] == m[k]
    ensures Linked(m', z, t.(item := y), nil)
  {
    Reparent(m, m', t.left, t.item.n, y.n, nil);
    Reparent(m, m', t.right, t.item.n, y.n, nil);
    Rehang(m, m', z, t.item.n, y.n, nil);
  }

  /** The second half of rbt_delete: y takes over o's parent, children and colour. */
  function TakenOver(m: Mem, o: SbtNode, y: SbtNode, nil: SbtNode): Mem
    requires o in m && y in m && (!IsNull(m[o].parent, nil) ==> m[o].parent in m)
    requires m[o].left != null && m[o].left in m && m[o].right != null && m[o].right in m
  {
    var l, r, c := m[o].left, m[o].right, m[o].color;
    var m1 := Transplanted(m, o, y, nil);
    var m2 := m1[y := m1[y].(right := r)];
    var m3 := m2[r := m2[r].(parent := y)];
    var m4 := m3[y := m3[y].(left := l)];
    var m5 := m4[l := m4[l].(parent := y)];
    m5[y := m5[y].(color := c)]
  }

  lemma TakenOverLinked(m: Mem, z: Ctx, t: Tree, y: Item, nil: SbtNode)
    requires Linked(m, z, t, nil) && t.Node? && t.left.Node? && nil in m
    requires y.n !in Nodes(t) && y.n !in CNodes(z) && y.n != nil && y.n in m && m[y.n].key == y.key
    ensures t.item.n in m && (!IsNull(m[t.item.n].parent, nil) ==> m[t.item.n].parent in m)
    ensures m[t.item.n] == Cell(Above(z), Ptr(t.left, nil), Ptr(t.right, nil), t.item.key, t.color)
    ensures Ptr(t.left, nil) in m && Ptr(t.right, nil) in m
    ensures var m' := TakenOver(m, t.item.n, y.n, nil);
      && Linked(m', z, t.(item := y), nil) && m'.Keys == m.Keys
      && m'[nil] == (if t.right.Leaf? then m[nil].(parent := y.n) else m[nil])
  {
    var n, l, r := t.item.n, t.left, t.right;
    assert z.Step? ==> z.item.n in CNodes(z) && m[z.item.n] == StepCell(z, n, nil);
    assert z.Step? && z.sib.Node? ==> z.sib.item.n in CNodes(z);
    assert l.item.n in Nodes(l) && (r.Node? ==> r.item.n in Nodes(r));
    assert Rep(m, l, n, nil) && Rep(m, r, n, nil);
    var m' := TakenOver(m, n, y.n, nil);
    TakenOverCells(m, z, t, y, nil);
    ReplaceLinked(m, m', z, t, y, nil);
  }

  lemma TakenOverCells(m: Mem, z: Ctx, t: Tree, y: Item, nil: SbtNode)
    requires t.Node? && t.left.Node? && nil in m
    requires t.item.n in m && m[t.item.n] == Cell(Above(z), Ptr(t.left, nil), Ptr(t.right, nil), t.item.key, t.color)
    requires y.n in m && m[y.n].key == y.key && Ptr(t.left, nil) in m && Ptr(t.right, nil) in m
    requires z.Top? ==> IsNull(z.above, nil)
    requires z.Step? ==>
      z.item.n in m && z.item.n != nil && m[z.item.n] == StepCell(z, t.item.n, nil) && Ptr(z.sib, nil) != t.item.n
    requires y.n !in {nil, t.item.n, Ptr(t.left, nil), Ptr(t.right, nil), Above(z)}
    requires t.item.n !in {nil, Ptr(t.left, nil), Ptr(t.right, nil), Above(z)}
    requires Above(z) !in {Ptr(t.left, nil), Ptr(t.right, nil)} || IsNull(Above(z), nil)
    requires Ptr(t.left, nil) != Ptr(t.right, nil) && Ptr(t.left, nil) != nil
    ensures var m' := TakenOver(m, t.item.n, y.n, nil);
      && m'.Keys == m.Keys
      && m'[y.n] == Cell(Above(z), Ptr(t.left, nil), Ptr(t.right, nil), y.key, t.color)
      && m'[Ptr(t.left, nil)] == m[Ptr(t.left, nil)].(parent := y.n)
      && m'[Ptr(t.right, nil)] == m[Ptr(t.right, nil)].(parent := y.n)
      && (z.Step? ==> m'[z.item.n] == m[z.item.n].WithChild(z.side, y.n))
      && (forall k <- m ::
            k in {y.n, Ptr(t.left, nil), Ptr(t.right, nil)} || (z.Step? && k == z.item.n) || m'[k] == m[k])
  {
  }

  /** sbt_replace(o, y). */
  function Replaced(m: Mem, o: SbtNode, y: SbtNode, nil: SbtNode): Mem
    requires o in m && y in m && (!IsNull(m[o].parent, nil) ==> m[o].parent in m)
    requires (!IsNull(m[o].left, nil) ==> m[o].left in m) && (!IsNull(m[o].right, nil) ==> m[o].right in m)
  {
    var l, r, c := m[o].left, m[o].right, m[o].color;
    var m1 := Transplanted(m, o, y, nil);
    var m2 := m1[y := m1[y].(left := l)];
    var m3 := if IsNull(l, nil) then m2 else m2[l := m2[l].(parent := y)];
    var m4 := m3[y := m3[y].(right := r)];
    var m5 := if IsNull(r, nil) then m4 else m4[r := m4[r].(parent := y)];
    m5[y := m5[y].(color := c)]
  }

  lemma ReplacedLinked(m: Mem, z: Ctx, t: Tree, y: Item, nil: SbtNode)
    requires Linked(m, z, t, nil) && t.Node? && nil in m
    requires y.n !in Nodes(t) && y.n !in CNodes(z) && y.n != nil && y.n in m && m[y.n].key == y.key
    ensures t.item.n in m && m[t.item.n] == Cell(Above(z), Ptr(t.left, nil), Ptr(t.right, nil), t.item.key, t.color)
    ensures Ptr(t.left, nil) in m && Ptr(t.right, nil) in m && (!IsNull(Above(z), nil) ==> Above(z) in m)
    ensures var m' := Replaced(m, t.item.n, y.n, nil);
      Linked(m', z, t.(item := y), nil) && m'.Keys == m.Keys && m'[nil] == m[nil]
  {
    var n, l, r := t.item.n, t.left, t.right;
    assert z.Step? ==> z.item.n in CNodes(z) && m[z.item.n] == StepCell(z, n, nil);
    assert z.Step? && z.sib.Node? ==> z.sib.item.n in CNodes(z);
    assert (l.Node? ==> l.item.n in Nodes(l)) && (r.Node? ==> r.item.n in Nodes(r));
    assert Rep(m, l, n, nil) && Rep(m, r, n, nil);
    ReplacedCells(m, z, t, y, nil);
    ReplaceLinked(m, Replaced(m, n, y.n, nil), z, t, y, nil);
  }

  lemma ReplacedCells(m: Mem, z: Ctx, t: Tree, y: Item, nil: SbtNode)
    requires t.Node? && nil in m
    requires t.item.n in m && m[t.item.n] == Cell(Above(z), Ptr(t.left, nil), Ptr(t.right, nil), t.item.key, t.color)
    requires y.n in m && m[y.n].key == y.key && Ptr(t.left, nil) in m && Ptr(t.right, nil) in m
    requires z.Top? ==> IsNull(z.above, nil)
    requires z.Step? ==>
      z.item.n in m && z.item.n != nil && m[z.item.n] == StepCell(z, t.item.n, nil) && Ptr(z.sib, nil) != t.item.n
    requires y.n !in {nil, t.item.n, Ptr(t.left, nil), Ptr(t.right, nil), Above(z)}
    requires t.item.n !in {nil, Ptr(t.left, nil), Ptr(t.right, nil), Above(z)}
    requires Above(z) !in {Ptr(t.left, nil), Ptr(t.right, nil)} || IsNull(Above(z), nil)
    requires Ptr(t.left, nil) != Ptr(t.right, nil) || Ptr(t.left, nil) == nil
    ensures var m' := Replaced(m, t.item.n, y.n, nil);
      && m'.Keys == m.Keys && m'[nil] == m[nil]
      && m'[y.n] == Cell(Above(z), Ptr(t.left, nil), Ptr(t.right, nil), y.key, t.color)
      && (Ptr(t.left, nil) != nil ==> m'[Ptr(t.left, nil)] == m[Ptr(t.left, nil)].(parent := y.n))
      && (Ptr(t.right, nil) != nil ==> m'[Ptr(t.right, nil)] == m[Ptr(t.right, nil)].(parent := y.n))
      && (z.Step? ==> m'[z.item.n] == m[z.item.n].WithChild(z.side, y.n))
      && (forall k <- m ::
            k in {y.n, Ptr(t.left, nil), Ptr(t.right, nil)} || (z.Step? && k == z.item.n) || m'[k] == m[k])
  {
  }

  // ---------- the left spine ----------

  lemma {:induction false} SpineLinked(m: Mem, r: Tree, base: Ctx, x: Tree, nil: SbtNode)
    requires r.Node?
    ensures Linked(m, LeftSpine(r, base), x, nil) <==> Linked(m, base, PlugMin(r, x), nil)
    ensures Nodes(x) + CNodes(LeftSpine(r, base)) == Nodes(PlugMin(r, x)) + CNodes(base)
  {
    if r.left.Node? {
      SpineLinked(m, r.left, Into(L, base, r), x, nil);
      Refocus(m, Into(L, base, r), PlugMin(r.left, x), nil);
    }
  }

  lemma {:induction false} SpineAbove(r: Tree, b: Ctx, b': Ctx)
    requires r.Node? && r.left.Node?
    ensures Above(LeftSpine(r, b)) == Above(LeftSpine(r, b'))
  {
    if r.left.left.Node? { SpineAbove(r.left, Into(L, b, r), Into(L, b', r)); }
  }

  /** After the leftmost node of the right subtree has gone, it is outside what is left. */
  lemma Emptied(m: Mem, z: Ctx, t: Tree, y: Tree, nil: SbtNode)
    requires t.Node? && t.right.Node? && y == MinTree(t.right)
    requires Linked(m, LeftSpine(t.right, Into(R, z, t)), y.right, nil)
    requires y.item.n !in Nodes(y.right) && y.item.n !in CNodes(LeftSpine(t.right, Into(R, z, t)))
    ensures var t1 := t.(right := PlugMin(t.right, y.right));
      Linked(m, z, t1, nil) && y.item.n !in Nodes(t1) && y.item.n !in CNodes(z)
  {
    var base, r1 := Into(R, z, t), PlugMin(t.right, y.right);
    SpineLinked(m, t.right, base, y.right, nil);
    Refocus(m, base, r1, nil);
    assert y.item.n !in Nodes(r1) + CNodes(base);
  }

  // ---------- a new node ----------

  function NewNode(x: Item): Tree {
    Node(Leaf, x, Red, Leaf)
  }

  /** A red node without children is hung into the hole. */
  lemma Hang(m: Mem, m': Mem, z: Ctx, x: Item, nil: SbtNode)
    requires z.Top? ==> IsNull(z.above, nil)
    requires z.Step? ==> Linked(m, z, Leaf, nil) && z.item.n in m && z.item.n in m'
    requires z.Step? ==> m'[z.item.n] == m[z.item.n].WithChild(z.side, x.n)
    requires x.n in m' && m'[x.n] == Cell(Above(z), nil, nil, x.key, Red) && x.n !in CNodes(z) && x.n != nil
    requires forall k <- m :: k == x.n || (z.Step? && k == z.item.n) || (k in m' && m'[k] == m[k])
    ensures Linked(m', z, NewNode(x), nil)
  {
    if z.Step? {
      Rehang(m, m', z, nil, x.n, nil);
    }
  }

  // ---------- painting ----------

  lemma PaintLinked(m: Mem, z: Ctx, t: Tree, c: Color, nil: SbtNode)
    requires Linked(m, z, t, nil) && t.Node?
    ensures t.item.n in m
    ensures Linked(m[t.item.n := m[t.item.n].(color := c)], z, t.Painted(c), nil)
  {
    var m' := m[t.item.n := m[t.item.n].(color := c)];
    FrameRep(m, m', t.left, t.item.n, nil);
    FrameRep(m, m', t.right, t.item.n, nil);
    FrameCRep(m, m', z, t.item.n, nil);
  }

  // ---------- reading nodes around the hole ----------

  lemma ReadNode(s: set<SbtNode>, z: Ctx, t: Tree, nil: SbtNode)
    requires Linked(Snap(s), z, t, nil) && t.Node?
    ensures t.item.n in s && t.item.n != nil
    ensures t.item.n.View() == Cell(Above(z), Ptr(t.left, nil), Ptr(t.right, nil), t.item.key, t.color)
  {
    assert t.item.n in Nodes(t);
  }

  lemma ReadUp(s: set<SbtNode>, z: Ctx, t: Tree, nil: SbtNode)
    requires Linked(Snap(s), z, t, nil) && z.Step?
    ensures z.item.n in s && z.item.n != nil
    ensures z.item.n.View() == StepCell(z, Ptr(t, nil), nil)
    ensures z.sib.Node? ==> Ptr(t, nil) != Ptr(z.sib, nil)
  {
    assert z.item.n in CNodes(z);
    if z.sib.Node? {
      assert z.sib.item.n in Nodes(z.sib);
    }
  }

  lemma {:induction false} RepKeys(m: Mem, t: Tree, p: SbtNode?, nil: SbtNode)
    requires Rep(m, t, p, nil)
    ensures forall x <- Inorder(t) :: x.n in m && m[x.n].key == x.key
  {
    if t.Node? {
      RepKeys(m, t.left, t.item.n, nil);
      RepKeys(m, t.right, t.item.n, nil);
    }
  }

  /** The memory of fewer, or of more, nodes. */
  lemma Shrink(s: set<SbtNode>, s': set<SbtNode>, z: Ctx, t: Tree, nil: SbtNode)
    requires Linked(Snap(s), z, t, nil) && Nodes(t) <= s' && CNodes(z) <= s'
    ensures Linked(Snap(s'), z, t, nil)
  {
    FrameLinked(Snap(s), Snap(s'), z, t, nil);
  }

  lemma {:induction false} PlugPtr(z: Ctx, t: Tree, nil: SbtNode)
    ensures Ptr(Plug(z, t), nil) == TopNode(z, Ptr(t, nil))
  {
    if z.Step? { PlugPtr(z.up, Mk(z.side, t, z.item, z.color, z.sib), nil); }
  }

  lemma {:induction false} Unzip(m: Mem, z: Ctx, t: Tree, nil: SbtNode)
    ensures Linked(m, z, t, nil) <==> Linked(m, Top(Base(z)), Plug(z, t), nil)
  {
    if z.Step? {
      Refocus(m, z, t, nil);
      Unzip(m, z.up, Mk(z.side, t, z.item, z.color, z.sib), nil);
    }
  }

  /** The context of the sibling of the hole of z. */
  function Beside(z: Ctx, t: Tree): Ctx
    requires z.Step?
  {
    Step(z.side.Other(), z.item, z.color, t, z.up)
  }

  lemma SiblingLinked(m: Mem, z: Ctx, t: Tree, nil: SbtNode)
    requires z.Step?
    ensures Linked(m, z, t, nil) <==> Linked(m, Beside(z, t), z.sib, nil)
  {
    Refocus(m, z, t, nil);
    Refocus(m, Beside(z, t), z.sib, nil);
  }

  lemma ChildLinked(m: Mem, d: Side, z: Ctx, t: Tree, nil: SbtNode)
    requires t.Node?
    ensures Linked(m, z, t, nil) <==> Linked(m, Into(d, z, t), t.Sub(d), nil)
  {
    Refocus(m, Into(d, z, t), t.Sub(d), nil);
  }
}
