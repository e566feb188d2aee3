/** Where the text of the sorted set departs from the model above: what the text does instead, an input on which that
    goes wrong, and exactly when it does not. */
module SetAsWritten {
  import opened SbtNodes
  import opened Shapes
  import opened Links
  import opened Removal
  import opened Order
  import opened RbTrees
  import opened HashChains
  import opened IntrusiveHash
  import S = ScoreChains
  import opened TSets

  type TSTNode = S.TSTNode
  type TMem = S.TMem
  type TChains = S.TChains

  // ---------- src/kvt_tset.cpp:39: chaining ----------

  /** ts_insert for a known score, as it stands: the head points to the new node, which points nowhere. */
  ghost function ChainText(v: TMem, h: TSTNode, n: TSTNode, c: S.TCell): TMem
    requires h in v
  {
    v[n := c.(next := null)][h := v[h].(next := n)]
  }

  /** The chain is then the head and the new node; it keeps its nodes exactly when the head was alone. */
  lemma ChainTextIff(v: TMem, s: seq<TSTNode>, s': seq<TSTNode>, n: TSTNode, c: S.TCell)
    requires s != [] && s[0] in v && S.NoDup(s) && n !in s
    requires s' != [] && s'[0] == s[0] && S.Linked(ChainText(v, s[0], n, c), s')
    ensures s' == [s[0], n]
    ensures (forall m <- s :: m in s') <==> |s| == 1
  {
    var w := ChainText(v, s[0], n, c);
    assert w[s[0]].next == n && w[n].next == null;
    S.LinkAt(w, s', 0);
    S.LinkAt(w, s', 1);
    if |s| > 1 { assert s[1] in s && s[1] != s[0]; }
  }

  // ---------- src/kvt_tset.cpp:76-84: every node treated as a head ----------

  /** Only a head is in the tree that rbt_delete and sbt_replace work on. */
  lemma OnlyHeadsInTree(ts: TSet, n: TSTNode, hs: set<HNode>, i: nat, j: nat)
    requires ts.ByScore(hs) && i < |ts.chains| && j < |ts.chains[i]| && ts.chains[i][j] == n
    ensures n.tnode in ts.tree.nodes <==> j == 0
  {
    ts.InnerOutside(n, hs, i, j);
    if j == 0 {
      ts.HeadSpot(hs, i);
      ts.InTree(i);
    }
  }

  /** The links of the chains after ts_delete as it stands: it clears the next field of the node, nothing else. */
  ghost function DeleteText(v: TMem, n: TSTNode): TMem
    requires n in v
  {
    v[n := v[n].(next := null)]
  }

  /** The tree items that chains hang off are those of their heads. */
  ghost function Heads(cs: TChains, v: TMem): seq<Item> {
    if cs == [] then []
    else (if cs[0] != [] && cs[0][0] in v then [Item(v[cs[0][0]].tnode, v[cs[0][0]].score)] else []) + Heads(cs[1..], v)
  }

  lemma {:induction false} HeadsOnly(xs: seq<Item>, cs: TChains, v: TMem)
    requires S.ChainsRep(xs, cs, v)
    ensures xs == Heads(cs, v)
  {
    if cs != [] {
      HeadsOnly(xs[1..], cs[1..], v);
      assert xs == [xs[0]] + xs[1..];
    }
  }

  /** The links are those of the chains cs, below whatever tree. */
  ghost predicate AreChains(cs: TChains, v: TMem) {
    S.ChainsRep(Heads(cs, v), cs, v)
  }

  /** The chains then are those without the node, below whatever tree, exactly when it headed its chain. Otherwise it
      is still in its chain, and what came behind it is lost. */
  lemma DeleteTextIff(xs: seq<Item>, cs: TChains, v: TMem, hs: set<HNode>, i: nat, j: nat)
    requires Agree(xs, cs, v, hs) && i < |cs| && j < |cs[i]|
    ensures cs[i][j] in v
    ensures var n := cs[i][j];
      AreChains(S.Omit(cs, n), DeleteText(v, n)) <==> j == 0
    ensures var n := cs[i][j]; var left := cs[i := cs[i][..j + 1]];
      j > 0 ==> S.ChainsRep(xs, left, DeleteText(v, n)) && n in S.Flat(left)
  {
    var n := cs[i][j];
    S.HeadAt(xs, cs, v, i);
    S.LinkAt(v, cs[i], j);
    S.InFlat(cs, i, j);
    var w := DeleteText(v, n);
    if j > 0 {
      CutChains(xs, cs, v, i, j);
      S.InFlat(cs[i := cs[i][..j + 1]], i, j);
      StillLinked(Heads(S.Omit(cs, n), w), cs, v, i, j);
    } else if v[n].next == null {
      S.OmitSingle(xs, cs, v, w, i, n);
      HeadsOnly(Without(xs, xs[i].n), S.Omit(cs, n), w);
    } else {
      S.OmitHead(xs, cs, v, w, i, n);
      HeadsOnly(xs[i := Item(v[cs[i][1]].tnode, xs[i].key)], S.Omit(cs, n), w);
    }
  }

  lemma {:induction false} OmitAt(cs: TChains, i: nat, j: nat)
    requires S.NoDup(S.Flat(cs)) && i < |cs| && 0 < j < |cs[i]|
    ensures |S.Omit(cs, cs[i][j])| == |cs| && S.Omit(cs, cs[i][j])[i] == S.SeqWithout(cs[i], cs[i][j])
  {
    S.Disjoint(cs);
    if i > 0 {
      S.InFlat(cs[1..], i - 1, j);
      OmitAt(cs[1..], i - 1, j);
    }
  }

  /** The link to an inner node is still there, so that no chain without it is. */
  lemma StillLinked(xs': seq<Item>, cs: TChains, v: TMem, i: nat, j: nat)
    requires S.NoDup(S.Flat(cs)) && i < |cs| && 0 < j < |cs[i]| && S.Linked(v, cs[i]) && cs[i][j] in v
    ensures !S.ChainsRep(xs', S.Omit(cs, cs[i][j]), DeleteText(v, cs[i][j]))
  {
    var s, n := cs[i], cs[i][j];
    var w, r := DeleteText(v, n), S.SeqWithout(s, n);
    OmitAt(cs, i, j);
    RowNoDup(cs, i);
    S.WithoutAt(s, j);
    S.LinkAt(v, s, j - 1);
    assert r[j - 1] == s[j - 1] != n && w[s[j - 1]].next == n;
    assert j < |r| ==> r[j] == s[j + 1] != n;
    if S.ChainsRep(xs', S.Omit(cs, n), w) {
      S.HeadAt(xs', S.Omit(cs, n), w, i);
      S.LinkAt(w, r, j - 1);
    }
  }

  lemma {:induction false} CutChains(xs: seq<Item>, cs: TChains, v: TMem, i: nat, j: nat)
    requires S.ChainsRep(xs, cs, v) && S.NoDup(S.Flat(cs)) && i < |cs| && j < |cs[i]| && cs[i][j] in v
    ensures S.ChainsRep(xs, cs[i := cs[i][..j + 1]], DeleteText(v, cs[i][j]))
  {
    var n := cs[i][j];
    var w := DeleteText(v, n);
    S.Disjoint(cs);
    if i == 0 {
      CutChain(v, cs[0], j, xs[0].key);
      S.FrameRep(xs[1..], cs[1..], v, w, {n});
      assert cs[0 := cs[0][..j + 1]][1..] == cs[1..];
    } else {
      S.InFlat(cs[1..], i - 1, j);
      S.FrameChain(v, w, cs[0], xs[0].key, {n});
      CutChains(xs[1..], cs[1..], v, i - 1, j);
      assert cs[i := cs[i][..j + 1]][1..] == cs[1..][i - 1 := cs[i][..j + 1]];
    }
  }

  lemma {:induction false} CutChain(v: TMem, s: seq<TSTNode>, j: nat, k: Score)
    requires S.Linked(v, s) && S.SameScore(v, s, k) && S.NoDup(s) && j < |s| && s[j] in v
    ensures S.Linked(DeleteText(v, s[j]), s[..j + 1]) && S.SameScore(DeleteText(v, s[j]), s[..j + 1], k)
  {
    if j > 0 {
      CutChain(v, s[1..], j - 1, k);
      assert s[..j + 1][1..] == s[1..][..j];
    } else {
      assert s[..1] == [s[0]] && s[..1][1..] == [];
    }
  }

  /** A chain of two nodes: the second one is deleted and stays. */
  lemma SecondStays(a: TSTNode, b: TSTNode, v: TMem, xs: seq<Item>, hs: set<HNode>)
    requires Agree(xs, [[a, b]], v, hs)
    ensures b in v && S.ChainsRep(xs, [[a, b]], DeleteText(v, b)) && b in S.Flat([[a, b]])
  {
    DeleteTextIff(xs, [[a, b]], v, hs, 0, 1);
    assert [a, b][..2] == [a, b];
    assert [[a, b]][0 := [a, b]] == [[a, b]];
  }

  // ---------- the same lines: a parent that is left over ----------

  /** What ts_delete as it stands does to the tree hooks for a node that does not head its chain: sbt_replace by the
      hook of the next node, or rbt_delete of a red node without children. */
  function HooksText(m: Mem, a: SbtNode, next: SbtNode?, nil: SbtNode): Mem
    requires a in m && nil in m && a != nil && (next != null ==> next in m)
    requires IsNull(m[a].left, nil) && IsNull(m[a].right, nil) && (!IsNull(m[a].parent, nil) ==> m[a].parent in m)
  {
    if next != null then Replaced(m, a, next, nil)
    else Transplanted(m[nil := m[nil].(parent := a)], a, nil, nil)
  }

  /** The tree stays as it is exactly when no parent is left over from an earlier place in it, which ts_update does not
      clear (lines 100-103), or, for the last node of a chain, when that parent has no left child. */
  lemma HooksTextIff(m: Mem, t: Tree, top: SbtNode?, a: SbtNode, next: SbtNode?, nil: SbtNode)
    requires Linked(m, Top(top), t, nil) && a in m && nil in m && a != nil && a !in Nodes(t)
    requires next != null ==> next in m && next != nil && next !in Nodes(t)
    requires IsNull(m[a].left, nil) && IsNull(m[a].right, nil) && (!IsNull(m[a].parent, nil) ==> m[a].parent in m)
    ensures var p := m[a].parent;
      Linked(HooksText(m, a, next, nil), Top(top), t, nil) <==>
        IsNull(p, nil) || p !in Nodes(t) || (next == null && m[p].left == nil)
  {
    var w, p := HooksText(m, a, next, nil), m[a].parent;
    if !IsNull(p, nil) && p in Nodes(t) {
      InnerLinks(m, t, top, p, nil);
      assert w[p] == m[p].(left := if next != null then next else nil);
      if Linked(w, Top(top), t, nil) { OneMemory(m, w, t, top, p, nil); }
      if w[p] == m[p] { FrameLinked(m, w, Top(top), t, nil); }
    } else {
      FrameLinked(m, w, Top(top), t, nil);
    }
  }

  lemma {:induction false} InnerLinks(m: Mem, t: Tree, p: SbtNode?, n: SbtNode, nil: SbtNode)
    requires Rep(m, t, p, nil) && n in Nodes(t)
    ensures n in m && m[n].left in Nodes(t) + {nil} && m[n].right in Nodes(t) + {nil}
  {
    if n in Nodes(t.left) {
      InnerLinks(m, t.left, t.item.n, n, nil);
    } else if n in Nodes(t.right) {
      InnerLinks(m, t.right, t.item.n, n, nil);
    }
  }

  /** A shape determines the cells of its nodes. */
  lemma {:induction false} OneMemory(m: Mem, w: Mem, t: Tree, p: SbtNode?, n: SbtNode, nil: SbtNode)
    requires Rep(m, t, p, nil) && Rep(w, t, p, nil) && n in Nodes(t)
    ensures n in m && n in w && m[n] == w[n]
  {
    if n in Nodes(t.left) {
      OneMemory(m, w, t.left, t.item.n, n, nil);
    } else if n in Nodes(t.right) {
      OneMemory(m, w, t.right, t.item.n, n, nil);
    }
  }

  // ---------- src/kvt_tset.cpp:156: the end of a walk ----------

  /** The step of ts_walk from the last element, by the text: `found ? n : nullptr`. It is not null, although there is
      no next node, exactly when the tree hangs below NILNODE. */
  method PastEndText(ts: TSet, head: TSTNode, ghost i: nat) returns (notNull: bool)
    requires ts.ByScore(ts.mp.nodes) && i + 1 == |ts.chains| && ts.chains[i] != [] && ts.chains[i][0] == head
    ensures notNull <==> ts.tree.above == ts.tree.nil
  {
    hide TSet.ByScore;
    ts.HeadSpot(ts.mp.nodes, i);
    ts.Facts(ts.mp.nodes);
    ts.tree.RootFacts();
    var found := ts.tree.SbtWalkForw(head.tnode);
    notNull := found != null;
  }

  /** A set that was emptied and has one element again: the walk past it gives a pointer that is no node. */
  method WalkToNowhere(nil: SbtNode, hash: string -> nat) returns (ts: TSet, notNull: bool)
    requires nil.color == Black && nil.owner == null
    modifies nil
    ensures notNull && |ts.Flattened()| == 1
  {
    hide TSet.Valid, TSet.ByScore, RbTree.Valid;
    ts := new TSet(nil, hash);
    assert ts.all == {} && ts.chains == [];
    var a := Only(ts, "a", 1.0);
    ts.NextIn(a);
    ts.DeleteNode(a);
    assert ts.chains == [] && ts.all == {};
    var b := Only(ts, "b", 1.0);
    ts.Scored();
    notNull := PastEndText(ts, b, 0);
    assert S.Flat([[b]]) == [b] + S.Flat([]);
  }

  /** ts_insertn into an empty set. */
  method Only(ts: TSet, name: string, score: Score) returns (n: TSTNode)
    requires ts.Valid() && ts.all == {} && ts.chains == []
    modifies ts`all, ts`chains, ts.tree, ts.tree.nodes
    modifies ts.mp, ts.mp.curr, ts.mp.prev, ts.mp.curr.buckets, ts.mp.prev.buckets, ts.mp.nodes`next
    ensures ts.Valid() && ts.all == {n} && ts.chains == [[n]] && ts.mp.Owns() && fresh(n) && fresh(n.tnode)
    ensures fresh(ts.mp.nodes - old(ts.mp.nodes)) && ts.tree.nodes <= old(ts.tree.nodes) + {n.tnode}
    ensures ts.tree.above ==
      if old(IsNull(ts.tree.root, ts.tree.nil)) then old(ts.tree.root) else old(ts.tree.above)
  {
    hide TSet.Valid;
    var ok;
    ghost var node;
    ok, node := ts.TsInsertN(name, score);
    assert ts.all == {node};
    ts.mp.OwnsMeans();
    label Found:
    var r := ts.TsFind(name);
    ts.mp.OwnsMeans@Found();
    ts.mp.OwnsMeans();
    n := r;
  }

  // ---------- src/io.cpp:444-448: the head that does not move ----------

  ghost predicate NoneEmpty(cs: TChains) {
    forall i :: 0 <= i < |cs| ==> cs[i] != []
  }

  /** What do_range_tset lists in k steps from element j of chain i on. At every end of a chain it goes where
      sbt_walk_forw leads from its first element: to the head of chain e, or nowhere when there is no such chain. */
  function ListText(cs: TChains, e: int, i: nat, j: nat, k: nat): (s: seq<TSTNode>)
    requires i < |cs| && j < |cs[i]| && forall i :: 0 <= i < |cs| ==> cs[i] != []
    ensures |s| <= k && (k > 0 ==> s != [] && s[0] == cs[i][j])
    decreases k
  {
    if k == 0 then []
    else [cs[i][j]] + (if j + 1 < |cs[i]| then ListText(cs, e, i, j + 1, k - 1)
                       else if 0 <= e < |cs| then ListText(cs, e, e, 0, k - 1) else [])
  }

  /** Where sbt_walk_forw leads from element j0 of chain i0: a head stands in the tree, before the next head. Other
      elements do not; without a left-over parent the walk leads nowhere, else `stale` says where. */
  function Exit(i0: nat, j0: nat, stale: int): int {
    if j0 == 0 then i0 + 1 else stale
  }

  lemma {:induction false} ListWithin(cs: TChains, e: int, i: nat, j: nat, k: nat)
    requires NoneEmpty(cs) && i < |cs| && j < |cs[i]| && k <= |cs[i]| - j
    ensures ListText(cs, e, i, j, k) == cs[i][j..j + k]
    decreases k
  {
    if k > 1 {
      ListWithin(cs, e, i, j + 1, k - 1);
    }
  }

  /** The list goes on where the walk from its first element leads. */
  function After(cs: TChains, e: int, k: nat): seq<TSTNode>
    requires forall i :: 0 <= i < |cs| ==> cs[i] != []
  {
    if 0 <= e < |cs| then ListText(cs, e, e, 0, k) else []
  }

  lemma {:induction false} ListBeyond(cs: TChains, e: int, i: nat, j: nat, k: nat)
    requires NoneEmpty(cs) && i < |cs| && j < |cs[i]| && k > |cs[i]| - j
    ensures ListText(cs, e, i, j, k) == cs[i][j..] + After(cs, e, k - (|cs[i]| - j))
    decreases k
  {
    var s, x := cs[i], cs[i][j];
    if j + 1 < |s| {
      ListBeyond(cs, e, i, j + 1, k - 1);
      OneMore(s, j, After(cs, e, k - (|s| - j)));
    } else {
      assert s[j..] == [x];
    }
  }

  lemma OneMore(s: seq<TSTNode>, j: nat, t: seq<TSTNode>)
    requires j < |s|
    ensures [s[j]] + (s[j + 1..] + t) == s[j..] + t
  {
    assert s[j..] == [s[j]] + s[j + 1..];
  }

  /** The flat order from element j of chain i on. */
  lemma {:induction false} FlatFrom(cs: TChains, i: nat, j: nat)
    requires i < |cs| && j <= |cs[i]|
    ensures S.Offset(cs, i) + j <= |S.Flat(cs)|
    ensures S.Flat(cs)[S.Offset(cs, i) + j..] == cs[i][j..] + S.Flat(cs[i + 1..])
  {
    if i == 0 {
      assert S.Flat(cs)[j..] == cs[0][j..] + S.Flat(cs[1..]);
    } else {
      FlatFrom(cs[1..], i - 1, j);
      assert cs[1..][i..] == cs[i + 1..];
      var q := S.Offset(cs[1..], i - 1) + j;
      assert S.Flat(cs)[|cs[0]| + q..] == S.Flat(cs[1..])[q..];
    }
  }

  lemma {:induction false} HeadsDiffer(cs: TChains, e: nat, f: nat)
    requires S.NoDup(S.Flat(cs)) && NoneEmpty(cs) && e < f < |cs|
    ensures cs[e][0] != cs[f][0]
  {
    S.Disjoint(cs);
    if e == 0 {
      S.InFlat(cs[1..], f - 1, 0);
    } else {
      HeadsDiffer(cs[1..], e - 1, f - 1);
    }
  }

  lemma SamePrefix<T>(a: seq<T>, b: seq<T>, c: seq<T>)
    ensures a + b == a + c <==> b == c
  {
    if a + b == a + c {
      assert b == (a + b)[|a|..] == (a + c)[|a|..] == c;
    }
  }

  /** What the text lists after the end of the first chain. */
  lemma RestText(cs: TChains, e: int, i: nat, q: nat)
    requires S.NoDup(S.Flat(cs)) && NoneEmpty(cs) && i < |cs| && 0 < q <= |S.Flat(cs[i + 1..])|
    ensures i + 1 < |cs|
    ensures After(cs, e, q) == S.Flat(cs[i + 1..])[..q] <==> e == i + 1 && q <= |cs[i + 1]|
  {
    var f, rest := i + 1, S.Flat(cs[i + 1..]);
    assert cs[f..] != [] && cs[f..][0] == cs[f] && cs[f..][1..] == cs[f + 1..];
    assert rest == cs[f] + S.Flat(cs[f + 1..]);
    if 0 <= e < |cs| && e != f {
      HeadsDiffer(cs, if e < f then e else f, if e < f then f else e);
      assert ListText(cs, e, e, 0, q)[0] == cs[e][0] != rest[..q][0];
    } else if e == f && q <= |cs[f]| {
      ListWithin(cs, e, f, 0, q);
    } else if e == f {
      var n := |cs[f]|;
      ListBeyond(cs, e, f, 0, q);
      assert cs[f][0..] == cs[f];
      assert cs[f + 1..] != [] && S.Flat(cs[f + 1..])[0] == cs[f + 1][0];
      HeadsDiffer(cs, f, f + 1);
      assert ListText(cs, e, f, 0, q)[n] == cs[f][0] != rest[..q][n];
    }
  }

  /** From any element on, the list is the slice exactly when it ends in the chain it began in, or when the walk from
      the first element leads to the next chain and it ends there. */
  lemma RangeTextIff(cs: TChains, i0: nat, j0: nat, stale: int, k: nat)
    requires S.NoDup(S.Flat(cs)) && NoneEmpty(cs) && i0 < |cs| && j0 < |cs[i0]|
    requires S.Offset(cs, i0) + j0 + k <= |S.Flat(cs)|
    ensures var p, e, r := S.Offset(cs, i0) + j0, Exit(i0, j0, stale), |cs[i0]| - j0;
      ListText(cs, e, i0, j0, k) == S.Flat(cs)[p..p + k] <==>
        k <= r || (e == i0 + 1 < |cs| && k <= r + |cs[i0 + 1]|)
  {
    hide S.Flat, S.Offset, ListText, S.NoDup;
    var e, r := Exit(i0, j0, stale), |cs[i0]| - j0;
    SliceFrom(cs, i0, j0, k);
    if k <= r {
      ListWithin(cs, e, i0, j0, k);
    } else {
      ListBeyond(cs, e, i0, j0, k);
      RestText(cs, e, i0, k - r);
      SamePrefix(cs[i0][j0..], After(cs, e, k - r), S.Flat(cs[i0 + 1..])[..k - r]);
    }
  }

  /** The slice, cut where the first chain ends. */
  lemma SliceFrom(cs: TChains, i: nat, j: nat, k: nat)
    requires i < |cs| && j < |cs[i]| && S.Offset(cs, i) + j + k <= |S.Flat(cs)|
    ensures var p, r, rest := S.Offset(cs, i) + j, |cs[i]| - j, S.Flat(cs[i + 1..]);
      && (k > r ==> k - r <= |rest|)
      && S.Flat(cs)[p..p + k] == if k <= r then cs[i][j..j + k] else cs[i][j..] + rest[..k - r]
  {
    hide S.Flat, S.Offset;
    FlatFrom(cs, i, j);
    var p, first, rest := S.Offset(cs, i) + j, cs[i][j..], S.Flat(cs[i + 1..]);
    assert S.Flat(cs)[p..p + k] == S.Flat(cs)[p..][..k] == (first + rest)[..k];
    if k <= |first| {
      assert (first + rest)[..k] == first[..k] == cs[i][j..j + k];
    } else {
      assert (first + rest)[..k] == first + rest[..k - |first|];
    }
  }

  /** Three different scores: the third element never comes. */
  lemma RangeExample(a: TSTNode, b: TSTNode, c: TSTNode)
    ensures ListText([[a], [b], [c]], 1, 0, 0, 3) == [a, b, b]
  {
    assert ListText([[a], [b], [c]], 1, 1, 0, 1) == [b];
    assert ListText([[a], [b], [c]], 1, 1, 0, 2) == [b] + [b];
  }

  /** A range that starts at the second of two equal scores ends there. */
  lemma RangeInside(a: TSTNode, b: TSTNode, c: TSTNode)
    ensures ListText([[a, b], [c]], Exit(0, 1, -1), 0, 1, 2) == [b] && S.Flat([[a, b], [c]]) == [a, b, c]
  {
    assert S.Flat([[c]]) == [c] + S.Flat([]);
    assert [[a, b], [c]][1..] == [[c]];
    assert S.Flat([[a, b], [c]]) == [a, b] + [c];
  }
}
