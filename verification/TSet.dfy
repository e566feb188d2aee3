/** The sorted set: the same nodes by name in a hash set and by score in a red-black tree with equal-score chains. */
module TSets {
  import opened SbtNodes
  import opened Shapes
  import opened Removal
  import opened Order
  import opened RbTrees
  import opened HashChains
  import opened IntrusiveHash
  import opened ScoreChains

  ghost predicate Owned(c: TCell, n: TSTNode) {
    c.tnode.owner == n && c.mpnode.owner == n && c.mpnode.key == n.name
  }

  /** The hash hooks hs are exactly those of the nodes of v; hooks lead back to their nodes. */
  ghost predicate Hooks(v: TMem, hs: set<HNode>) {
    && (forall n <- v :: Owned(v[n], n) && v[n].mpnode in hs)
    && (forall h <- hs :: h.owner is TSTNode && (h.owner as TSTNode) in v && v[h.owner as TSTNode].mpnode == h)
  }

  ghost predicate Names(v: TMem) {
    forall n <- v, m <- v :: n.name == m.name ==> n == m
  }

  ghost function SetOf(s: seq<TSTNode>): set<TSTNode> {
    set n | n in s
  }

  /** Both indexes hold the nodes of v, each once, each chain one score, no name twice. */
  ghost predicate Agree(xs: seq<Item>, cs: TChains, v: TMem, hs: set<HNode>) {
    ChainsRep(xs, cs, v) && NoDup(Flat(cs)) && v.Keys == SetOf(Flat(cs)) && Hooks(v, hs) && Names(v)
  }

  lemma HooksAdd(v: TMem, v': TMem, hs: set<HNode>, n: TSTNode)
    requires Hooks(v, hs) && n !in v && v'.Keys == v.Keys + {n} && Owned(v'[n], n)
    requires forall m <- v :: v'[m].tnode == v[m].tnode && v'[m].mpnode == v[m].mpnode
    ensures Hooks(v', hs + {v'[n].mpnode}) && v'[n].mpnode !in hs
  {
  }

  lemma HooksDrop(v: TMem, v': TMem, hs: set<HNode>, n: TSTNode)
    requires Hooks(v, hs) && n in v && v'.Keys == v.Keys - {n}
    requires forall m <- v' :: v'[m].tnode == v[m].tnode && v'[m].mpnode == v[m].mpnode
    ensures Hooks(v', hs - {v[n].mpnode})
  {
  }

  /** Members and hooks after a node came in, wherever it went. */
  lemma AgreeAdd(xs: seq<Item>, cs: TChains, v: TMem, hs: set<HNode>, n: TSTNode, k: Score, xs': seq<Item>, v': TMem)
    requires Agree(xs, cs, v, hs) && n !in v && v'.Keys == v.Keys + {n} && Owned(v'[n], n)
    requires forall m <- v :: v'[m].tnode == v[m].tnode && v'[m].mpnode == v[m].mpnode && m.name != n.name
    requires ChainsRep(xs', AddTo(cs, v, n, k), v')
    ensures Agree(xs', AddTo(cs, v, n, k), v', hs + {v'[n].mpnode}) && v'[n].mpnode !in hs
  {
    hide Flat;
    hide ChainsRep;
    HooksAdd(v, v', hs, n);
    assert n !in Flat(cs);
    var p := AddFlat(xs, cs, v, n, k);
    InsertNoDup(Flat(cs), p, n);
  }

  /** ts_insert does not look whether the name is there: the indexes agree afterwards exactly when it was not. */
  lemma NewNameIff(xs: seq<Item>, cs: TChains, v: TMem, hs: set<HNode>, n: TSTNode, k: Score, xs': seq<Item>, v': TMem)
    requires Agree(xs, cs, v, hs) && n !in v && v'.Keys == v.Keys + {n} && Owned(v'[n], n)
    requires forall m <- v :: v'[m].tnode == v[m].tnode && v'[m].mpnode == v[m].mpnode
    requires ChainsRep(xs', AddTo(cs, v, n, k), v')
    ensures Agree(xs', AddTo(cs, v, n, k), v', hs + {v'[n].mpnode}) <==> forall m <- v :: m.name != n.name
  {
    hide ChainsRep, Flat;
    if forall m <- v :: m.name != n.name { AgreeAdd(xs, cs, v, hs, n, k, xs', v'); }
  }

  /** Chaining behind a head, as one step on values; c is the new node's cell before. */
  ghost function Chained(v: TMem, n: TSTNode, c: TCell, h: TSTNode): TMem
    requires h in v
  {
    v[n := c.(next := v[h].next)][h := v[h].(next := n)]
  }

  lemma AgreeChained(xs: seq<Item>, cs: TChains, v: TMem, hs: set<HNode>, n: TSTNode, c: TCell, h: TSTNode)
    requires Agree(xs, cs, v, hs) && Sorted(xs) && n !in v && Owned(c, n) && (forall m <- v :: m.name != n.name)
    requires h in v && Item(v[h].tnode, c.score) in xs
    ensures Agree(xs, AddTo(cs, v, n, c.score), Chained(v, n, c, h), hs + {c.mpnode}) && c.mpnode !in hs
  {
    var v' := Chained(v, n, c, h);
    assert n !in Flat(cs);
    AddKnownScore(xs, cs, v, v', n, c.score, h);
    AgreeAdd(xs, cs, v, hs, n, c.score, xs, v');
  }

  lemma AgreeNew(xs: seq<Item>, cs: TChains, v: TMem, hs: set<HNode>, n: TSTNode, c: TCell)
    requires Agree(xs, cs, v, hs) && n !in v && Owned(c, n) && (forall m <- v :: m.name != n.name)
    requires c.next == null && forall x <- xs :: x.key != c.score
    ensures Agree(SortedInsert(xs, Item(c.tnode, c.score)), AddTo(cs, v, n, c.score), v[n := c], hs + {c.mpnode})
    ensures c.mpnode !in hs
  {
    assert n !in Flat(cs);
    AddNewScore(xs, cs, v, v[n := c], n, c.score);
    AgreeAdd(xs, cs, v, hs, n, c.score, SortedInsert(xs, Item(c.tnode, c.score)), v[n := c]);
  }

  /** And after a node left. */
  lemma AgreeDrop(xs: seq<Item>, cs: TChains, v: TMem, hs: set<HNode>, n: TSTNode, xs': seq<Item>, v': TMem)
    requires Agree(xs, cs, v, hs) && n in v && v'.Keys == v.Keys - {n}
    requires forall m <- v' :: v'[m].tnode == v[m].tnode && v'[m].mpnode == v[m].mpnode
    requires ChainsRep(xs', Omit(cs, n), v')
    ensures Agree(xs', Omit(cs, n), v', hs - {v[n].mpnode})
  {
    HooksDrop(v, v', hs, n);
    OmitFlat(cs, n);
    assert n in Flat(cs);
    WithoutNoDup(Flat(cs), n);
    assert SetOf(SeqWithout(Flat(cs), n)) == SetOf(Flat(cs)) - {n};
  }

  /** The three ways a node n at place j of chain i leaves. */
  lemma AgreeSingle(xs: seq<Item>, cs: TChains, v: TMem, hs: set<HNode>, i: nat, n: TSTNode)
    requires Agree(xs, cs, v, hs) && i < |cs| && cs[i] != [] && cs[i][0] == n && n in v && v[n].next == null
    ensures i < |xs| && xs[i].n == v[n].tnode
    ensures Agree(Without(xs, v[n].tnode), Omit(cs, n), v - {n}, hs - {v[n].mpnode})
  {
    HeadAt(xs, cs, v, i);
    OmitSingle(xs, cs, v, v - {n}, i, n);
    AgreeDrop(xs, cs, v, hs, n, Without(xs, v[n].tnode), v - {n});
  }

  lemma AgreeHead(xs: seq<Item>, cs: TChains, v: TMem, hs: set<HNode>, i: nat, n: TSTNode)
    requires Agree(xs, cs, v, hs) && i < |cs| && cs[i] != [] && cs[i][0] == n && n in v && v[n].next != null
    ensures i < |xs| && xs[i].n == v[n].tnode && v[n].next in v && v[n].next != n && |cs[i]| > 1
    ensures cs[i][1] == v[n].next
    ensures Agree(xs[i := Item(v[v[n].next].tnode, xs[i].key)], Omit(cs, n), v - {n}, hs - {v[n].mpnode})
  {
    HeadAt(xs, cs, v, i);
    OmitHead(xs, cs, v, v - {n}, i, n);
    InFlat(cs, i, 0);
    InFlat(cs, i, 1);
    RowNoDup(cs, i);
    AgreeDrop(xs, cs, v, hs, n, xs[i := Item(v[cs[i][1]].tnode, xs[i].key)], v - {n});
  }

  /** Unlinking behind p, as one step on values. */
  ghost function Unhooked(v: TMem, p: TSTNode, n: TSTNode): TMem
    requires p in v && n in v
  {
    v[p := v[p].(next := v[n].next)] - {n}
  }

  lemma AgreeInner(xs: seq<Item>, cs: TChains, v: TMem, hs: set<HNode>, i: nat, j: nat)
    requires Agree(xs, cs, v, hs) && i < |cs| && 0 < j < |cs[i]| && cs[i][j - 1] in v && cs[i][j] in v
    ensures var n := cs[i][j]; Agree(xs, Omit(cs, n), Unhooked(v, cs[i][j - 1], n), hs - {v[n].mpnode})
  {
    RowNoDup(cs, i);
    var p, n := cs[i][j - 1], cs[i][j];
    OmitInner(xs, cs, v, Unhooked(v, p, n), i, j);
    AgreeDrop(xs, cs, v, hs, n, xs, Unhooked(v, p, n));
  }

  /** There are as many hooks as nodes. */
  lemma {:induction false} HookCount(s: seq<TSTNode>, v: TMem, hs: set<HNode>)
    requires NoDup(s) && v.Keys == SetOf(s) && Hooks(v, hs)
    ensures |hs| == |s|
  {
    if s == [] {
      assert hs == {};
    } else {
      var n := s[0];
      HooksDrop(v, v - {n}, hs, n);
      assert SetOf(s[1..]) == SetOf(s) - {n};
      HookCount(s[1..], v - {n}, hs - {v[n].mpnode});
    }
  }

  lemma {:induction false} RowNoDup(cs: TChains, i: nat)
    requires NoDup(Flat(cs)) && i < |cs|
    ensures NoDup(cs[i])
  {
    Disjoint(cs);
    if i > 0 { RowNoDup(cs[1..], i - 1); }
  }

  lemma {:induction false} FlatIndex(cs: TChains, n: TSTNode) returns (i: nat, j: nat)
    requires n in Flat(cs)
    ensures i < |cs| && j < |cs[i]| && cs[i][j] == n
  {
    if n in cs[0] {
      i := 0;
      j :| 0 <= j < |cs[0]| && cs[0][j] == n;
    } else {
      i, j := FlatIndex(cs[1..], n);
      i := i + 1;
    }
  }

  class TSet {
    const tree: RbTree
    const mp: IHSet
    ghost var all: set<TSTNode>
    ghost var chains: TChains

    constructor (nil: SbtNode, hash: string -> nat)
      requires nil.color == Black && nil.owner == null
      ensures Valid() && all == {} && chains == [] && tree.nil == nil && mp.hash == hash
      ensures fresh(tree) && fresh(mp) && fresh(mp.curr) && fresh(mp.prev) && tree.nodes == {nil}
      ensures mp.curr.buckets == null && mp.prev.buckets == null && mp.nodes == {}
    {
      tree := new RbTree(nil);
      mp := new IHSet(hash);
      all, chains := {}, [];
      new;
      assert Indexes(0, {});
    }

    /** The score index holds the nodes whose hash hooks are hs. */
    ghost predicate ByScore(hs: set<HNode>)
      reads this, tree, tree.nodes, all
    {
      exists k :: Indexes(k, hs)
    }

    /** ByScore, for k nodes. */
    ghost predicate Indexes(k: int, hs: set<HNode>)
      reads this, tree, tree.nodes, all
    {
      && k == |Flat(chains)| && tree.Valid() && tree.nil.owner == null
      && Agree(tree.Contents(), chains, View(all), hs)
    }

    /** The keys that no tree node's item speaks for. */
    ghost predicate Loose()
      reads this, tree, all, set n | n in all :: n.tnode
    {
      forall n <- all :: n.tnode !in tree.nodes ==> n.tnode.key == n.score
    }

    /** The two indexes agree. */
    ghost predicate Valid()
      reads this, tree, tree.nodes, mp, mp.curr, mp.prev, mp.curr.buckets, mp.prev.buckets, mp.nodes, all,
            set n | n in all :: n.tnode
    {
      mp.Valid() && ByScore(mp.nodes) && Loose()
    }

    lemma Scored()
      requires Valid()
      ensures ByScore(mp.nodes)
    {
    }

    /** What the score index holds, and the tree it is held in. */
    lemma Facts(hs: set<HNode>)
      requires ByScore(hs)
      ensures tree.Valid() && tree.nil.owner == null && Agree(tree.Contents(), chains, View(all), hs)
    {
    }

    /** Work on the hash index leaves the score index alone. */
    twostate lemma ScoreKept(hs: set<HNode>)
      requires old(ByScore(hs)) && unchanged(this, tree) && unchanged(tree.nodes - {tree.nil}) && unchanged(all)
      requires unchanged(tree.nil) || tree.nil.color == Black
      ensures ByScore(hs)
    {
      tree.Kept();
      assert Indexes(|Flat(chains)|, hs);
    }

    /** Whoever touches nothing of a set but the colourless part of NILNODE, which other sets share, keeps it. */
    twostate lemma Kept()
      requires old(Valid()) && unchanged(this, tree, mp, mp.curr, mp.prev) && unchanged(mp.nodes) && unchanged(all)
      requires unchanged(tree.nodes - {tree.nil})
      requires forall n <- all :: n.tnode != tree.nil ==> unchanged(n.tnode)
      requires unchanged(tree.nil) || tree.nil.color == Black
      requires mp.curr.buckets != null ==> unchanged(mp.curr.buckets)
      requires mp.prev.buckets != null ==> unchanged(mp.prev.buckets)
      ensures Valid() && Flattened() == old(Flattened())
    {
      hide TSet.ByScore;
      mp.Kept();
      ScoreKept(mp.nodes);
      HookIs(mp.nodes);
      Facts(mp.nodes);
    }

    /** The nodes in order of their scores. */
    ghost function Flattened(): seq<TSTNode>
      reads this
    {
      Flat(chains)
    }

    /** The owner of a tree node is the head of a chain. */
    lemma HeadOf(t: SbtNode, k: Score, hs: set<HNode>) returns (i: nat)
      requires ByScore(hs) && Item(t, k) in tree.Contents()
      ensures i < |chains| == |tree.Contents()| && tree.Contents()[i] == Item(t, k) && chains[i] != []
      ensures chains[i][0].tnode == t
      ensures t.owner == chains[i][0] && chains[i][0] in all && chains[i][0] in Flat(chains)
    {
      i :| 0 <= i < |tree.Contents()| && tree.Contents()[i] == Item(t, k);
      HeadAt(tree.Contents(), chains, View(all), i);
      InFlat(chains, i, 0);
      assert chains[i][0] in View(all);
    }

    /** No node from outside has its hook in the tree. */
    lemma NotInTree(n: TSTNode, hs: set<HNode>)
      requires ByScore(hs) && n !in all && n.tnode.owner == n
      ensures n.tnode !in tree.nodes
    {
      if n.tnode in Nodes(tree.shape) {
        NodesInorder(tree.shape);
        var i :| 0 <= i < |tree.Contents()| && tree.Contents()[i].n == n.tnode;
        var j := HeadOf(n.tnode, tree.Contents()[i].key, hs);
      }
    }

    /** A node that ts_insert may be given: made by mk_tstn, or reset by ts_update; its name is not in the set. */
    ghost predicate Newcomer(n: TSTNode)
      reads this, all, n, n.tnode
    {
      && n !in all && n.next == null && Owned(CellOf(n), n)
      && n.tnode.left == tree.nil && n.tnode.right == tree.nil && n.tnode.color == Red && n.tnode.key == n.score
      && forall m <- all :: m.name != n.name
    }

    /** ts_insert, for a name that is not in the set. */
    method TsInsert(node: TSTNode) returns (ok: bool)
      requires Valid() && Newcomer(node) && node.mpnode.hval == mp.hash(node.name)
      modifies this`all, this`chains, tree, tree.nodes, all`next, node`next, node.tnode
      modifies mp, mp.curr, mp.prev, mp.curr.buckets, mp.prev.buckets, mp.nodes`next, node.mpnode`next
      ensures Valid() && ok && all == old(all) + {node}
      ensures chains == AddTo(old(chains), old(View(all)), node, node.score)
      ensures tree.nodes <= old(tree.nodes) + {node.tnode}
      ensures mp.Owns() && mp.nodes == old(mp.nodes) + {node.mpnode}
      ensures tree.above == if old(IsNull(tree.root, tree.nil)) then old(tree.root) else old(tree.above)
    {
      hide RbTree.Valid, IHSet.Valid;
      hide TSet.ByScore;
      InsertScore(node, mp.nodes);
      mp.Kept();
      InsertName(node.mpnode);
      return true;
    }

    /** The half that works on the name index. */
    method InsertName(h: HNode)
      requires mp.Valid() && ByScore(mp.nodes + {h}) && Loose() && h !in mp.nodes && h.hval == mp.hash(h.key)
      modifies mp, mp.curr, mp.prev, mp.curr.buckets, mp.prev.buckets, mp.nodes`next, h`next
      ensures Valid() && mp.Owns() && mp.nodes == old(mp.nodes) + {h}
    {
      hide TSet.ByScore;
      mp.Insert(h);
      ScoreKept(mp.nodes);
    }

    /** The half of ts_insert that works on the score index. */
    method InsertScore(node: TSTNode, ghost hs: set<HNode>)
      requires ByScore(hs) && Loose() && Newcomer(node)
      modifies this`all, this`chains, tree, tree.nodes, all`next, node`next, node.tnode
      ensures ByScore(hs + {node.mpnode}) && Loose() && node.mpnode !in hs && all == old(all) + {node}
      ensures chains == AddTo(old(chains), old(View(all)), node, node.score)
      ensures tree.nodes <= old(tree.nodes) + {node.tnode}
      ensures tree.above == if old(IsNull(tree.root, tree.nil)) then old(tree.root) else old(tree.above)
    {
      NotInTree(node, hs);
      var found;
      ghost var steps;
      found, steps := tree.SbtSearch(node.tnode.key);
      if found != null {
        InsertKnown(node, found, hs);
      } else {
        InsertNew(node, hs);
      }
    }

    /** The node becomes second in the chain of its score. (src/kvt_tset.cpp:39 drops the rest of the chain.) */
    method InsertKnown(node: TSTNode, found: SbtNode, ghost hs: set<HNode>)
      requires ByScore(hs) && Loose() && Newcomer(node) && Item(found, node.score) in tree.Contents()
      modifies this`all, this`chains, all`next, node`next
      ensures ByScore(hs + {node.mpnode}) && Loose() && node.mpnode !in hs && all == old(all) + {node}
      ensures chains == AddTo(old(chains), old(View(all)), node, node.score)
      ensures tree.above == if old(IsNull(tree.root, tree.nil)) then old(tree.root) else old(tree.above)
    {
      hide Agree;
      ghost var v, xs, c := View(all), tree.Contents(), CellOf(node);
      ghost var i := HeadOf(found, node.score, hs);
      var container := found.owner as TSTNode;
      AgreeChained(xs, chains, v, hs, node, c, container);
      Chain(node, container);
      tree.Kept();
      Settle(all + {node}, AddTo(chains, v, node, node.score), hs + {node.mpnode});
    }

    /** The node starts a chain of its own. */
    method InsertNew(node: TSTNode, ghost hs: set<HNode>)
      requires ByScore(hs) && Loose() && Newcomer(node) && node.tnode !in tree.nodes
      requires forall x <- tree.Contents() :: x.key != node.score
      modifies this`all, this`chains, tree, tree.nodes, node.tnode
      ensures ByScore(hs + {node.mpnode}) && Loose() && node.mpnode !in hs && all == old(all) + {node}
      ensures chains == AddTo(old(chains), old(View(all)), node, node.score)
      ensures tree.nodes <= old(tree.nodes) + {node.tnode}
      ensures tree.above == if old(IsNull(tree.root, tree.nil)) then old(tree.root) else old(tree.above)
    {
      hide RbTree.Valid, IHSet.Valid, AddTo, Omit, Flat;
      ghost var v := View(all);
      AgreeNew(tree.Contents(), chains, v, hs, node, CellOf(node));
      Plant(node);
      Settle(all + {node}, AddTo(chains, v, node, node.score), hs + {node.mpnode});
    }

    ghost function CellOf(n: TSTNode): TCell
      reads n
    {
      TCell(n.next, n.tnode, n.mpnode, n.score)
    }

    /** The pointer work of InsertKnown. */
    method Chain(node: TSTNode, container: TSTNode)
      requires node !in all && container in all
      modifies all`next, node`next
      ensures View(all + {node}) == Chained(old(View(all)), node, old(CellOf(node)), container)
    {
      ghost var v := View(all);
      ghost var big := all + {node};
      assert View(big) == v[node := CellOf(node)];
      node.SetNext(container.next, big);
      container.SetNext(node, big);
    }

    /** The tree work of InsertNew. */
    method Plant(node: TSTNode)
      requires tree.Valid() && Newcomer(node) && node.tnode !in tree.nodes
      requires forall x <- tree.Contents() :: x.key != node.score
      modifies tree, tree.nodes, node.tnode
      ensures View(all + {node}) == old(View(all))[node := old(CellOf(node))]
      ensures tree.Valid() && tree.Contents() == SortedInsert(old(tree.Contents()), Item(node.tnode, node.score))
      ensures tree.nodes == old(tree.nodes) + {node.tnode}
      ensures tree.above == if old(IsNull(tree.root, tree.nil)) then old(tree.root) else old(tree.above)
    {
      hide RbTree.Valid, IHSet.Valid;
      ghost var v, big := View(all), all + {node};
      assert View(big) == v[node := CellOf(node)];
      label Before:
      var inserted := tree.RbtInsert(node.tnode);
      assert View(big) == old@Before(View(big));
    }

    /** The ghost fields follow. */
    ghost method Settle(ns: set<TSTNode>, cs: TChains, hs: set<HNode>)
      requires tree.Valid() && tree.nil.owner == null && Agree(tree.Contents(), cs, View(ns), hs)
      requires forall n <- ns :: n.tnode !in tree.nodes ==> n.tnode.key == n.score
      modifies this`all, this`chains
      ensures ByScore(hs) && Loose() && all == ns && chains == cs
    {
      ghost var v := View(ns);
      all, chains := ns, cs;
      tree.Kept();
      assert View(all) == v;
      assert Indexes(|Flat(cs)|, hs);
    }

    /** ts_size */
    function TsSize(): nat
      reads this, mp, mp.curr, mp.prev
    {
      mp.curr.size + mp.prev.size
    }

    /** ts_size is the number of nodes in score order, that is, of nodes at all. */
    lemma SizeIs()
      requires Valid()
      ensures TsSize() == |Flattened()| && NoDup(Flattened()) && all == SetOf(Flattened())
    {
      hide TSet.ByScore;
      Facts(mp.nodes);
      mp.SizeIs();
      HookCount(Flat(chains), View(all), mp.nodes);
      assert View(all).Keys == all;
    }

    /** The order is that of the scores. */
    lemma InOrder()
      requires Valid()
      ensures forall i, j :: 0 <= i < j < |Flattened()| ==> Flattened()[i].score <= Flattened()[j].score
    {
      var v := View(all);
      FlatSorted(tree.Contents(), chains, v);
      assert forall n <- Flat(chains) :: v[n].score == n.score;
    }

    // ---------- ts_delete ----------

    /** Only the head of a chain is in the tree. */
    lemma InnerOutside(n: TSTNode, hs: set<HNode>, i: nat, j: nat)
      requires ByScore(hs) && i < |chains| && j < |chains[i]| && chains[i][j] == n
      ensures n in all && i < |tree.Contents()|
      ensures n.tnode in tree.nodes ==> j == 0 && n.tnode.key == tree.Contents()[i].key
    {
      var xs, v := tree.Contents(), View(all);
      InFlat(chains, i, j);
      assert n in v.Keys && Owned(v[n], n);
      if n.tnode in tree.nodes {
        tree.Keys();
        NodesInorder(tree.shape);
        var k :| 0 <= k < |xs| && xs[k].n == n.tnode;
        assert xs[k] in xs;
        OnlyHeads(xs, chains, v, i, j, k);
      }
    }

    /** The place of a node in the chains; its key is that of the tree node its chain hangs off. */
    lemma WhereIs(n: TSTNode, hs: set<HNode>) returns (i: nat, j: nat)
      requires ByScore(hs) && Loose() && n in all
      ensures i < |chains| == |tree.Contents()| && j < |chains[i]| && chains[i][j] == n
      ensures n.tnode.key == n.score == tree.Contents()[i].key
      ensures chains[i][0] in all && chains[i][0].tnode == tree.Contents()[i].n
    {
      var xs, v := tree.Contents(), View(all);
      assert n in v.Keys;
      i, j := FlatIndex(chains, n);
      HeadAt(xs, chains, v, i);
      SameScoreAll(v, chains[i], xs[i].key);
      InFlat(chains, i, 0);
      assert v[n].score == n.score && chains[i][0] in v.Keys;
      InnerOutside(n, hs, i, j);
    }

    /** A node that is not the head of its chain is unlinked behind its predecessor.
        (src/kvt_tset.cpp:76-84 treats every node as a head.) */
    method UnlinkInner(node: TSTNode, head: TSTNode, ghost hs: set<HNode>, ghost i: nat, ghost j: nat)
      requires ByScore(hs) && Loose() && node in all && i < |chains| && 0 < j < |chains[i]|
      requires chains[i][j] == node && chains[i][0] == head
      modifies this`all, this`chains, all`next
      ensures ByScore(hs - {node.mpnode}) && Loose() && all == old(all) - {node} && chains == Omit(old(chains), node)
      ensures node.next == null
      ensures chains != []
    {
      hide RbTree.Valid, IHSet.Valid;
      hide TSet.ByScore;
      hide Agree;
      Facts(hs);
      ghost var v := View(all);
      var prev := FindPrev(node, head, hs, i, j);
      AgreeInner(tree.Contents(), chains, v, hs, i, j);
      Unhook(node, prev);
      tree.Kept();
      Settle(all - {node}, Omit(chains, node), hs - {node.mpnode});
    }

    /** The pointer work of UnlinkInner. */
    method Unhook(node: TSTNode, prev: TSTNode)
      requires node in all && prev in all && prev != node
      modifies all`next
      ensures View(all - {node}) == Unhooked(old(View(all)), prev, node) && node.next == null
    {
      ghost var v := View(all);
      prev.SetNext(node.next, all);
      node.SetNext(null, all);
      assert View(all - {node}) == View(all) - {node};
    }

    method FindPrev(node: TSTNode, head: TSTNode, ghost hs: set<HNode>, ghost i: nat, ghost j: nat)
      returns (prev: TSTNode)
      requires ByScore(hs) && node in all && i < |chains| && 0 < j < |chains[i]|
      requires chains[i][j] == node && chains[i][0] == head
      ensures prev == chains[i][j - 1] && prev in all && prev != node
    {
      ghost var k: nat := 0;
      prev := head;
      ChainFacts(hs, i, k);
      while prev.next != node
        invariant k < j && prev == chains[i][k] && prev in all
        invariant prev.next == chains[i][k + 1]
        decreases j - k
      {
        prev := prev.next;
        k := k + 1;
        ChainFacts(hs, i, k);
      }
      RowNoDup(chains, i);
    }

    lemma ChainFacts(hs: set<HNode>, i: nat, k: nat)
      requires ByScore(hs) && i < |chains| && k < |chains[i]|
      ensures chains[i][k] in all && chains[i][k].next == if k + 1 < |chains[i]| then chains[i][k + 1] else null
    {
      HeadAt(tree.Contents(), chains, View(all), i);
      LinkAt(View(all), chains[i], k);
      assert View(all)[chains[i][k]].next == chains[i][k].next;
    }

    /** The head of a chain of its own goes, with its tree node. */
    method DropChain(node: TSTNode, ghost hs: set<HNode>, ghost i: nat)
      requires ByScore(hs) && Loose() && node in all && i < |chains| && chains[i] != [] && chains[i][0] == node
      requires node.next == null
      modifies this`all, this`chains, tree, tree.nodes
      ensures ByScore(hs - {node.mpnode}) && Loose() && all == old(all) - {node} && chains == Omit(old(chains), node)
      ensures tree.nodes <= old(tree.nodes)
      ensures tree.above == old(tree.above) && (chains == [] ==> tree.root == tree.nil)
    {
      hide RbTree.Valid, IHSet.Valid;
      ghost var v: TMem, ns: set<TSTNode> := View(all), all - {node};
      AgreeSingle(tree.Contents(), chains, v, hs, i, node);
      InTree(i);
      OwnHooks(hs);
      Uproot(node.tnode);
      assert View(ns) == v - {node};
      Settle(ns, Omit(chains, node), hs - {node.mpnode});
    }

    /** The tree work of DropChain. */
    method Uproot(hook: SbtNode)
      requires tree.Valid() && hook in Nodes(tree.shape)
      modifies tree, tree.nodes
      ensures tree.Valid() && View(all) == old(View(all)) && tree.Contents() == Without(old(tree.Contents()), hook)
      ensures tree.nodes == old(tree.nodes) - {hook} && tree.above == old(tree.above)
      ensures tree.Contents() == [] ==> tree.root == tree.nil
    {
      hide RbTree.Valid;
      tree.RbtDelete(hook);
    }

    /** The tree work of HandOver. */
    method Replace(hook: SbtNode, heir: SbtNode, ghost i: nat)
      requires i < |tree.Contents()| && Pos(tree.Contents(), hook) == i
      requires tree.Valid() && hook in Nodes(tree.shape) && heir !in tree.nodes && heir.key == hook.key
      modifies tree, tree.nodes, heir
      ensures tree.Valid() && View(all) == old(View(all)) && tree.above == old(tree.above)
      ensures tree.nodes == old(tree.nodes) - {hook} + {heir}
      ensures tree.Contents() == old(tree.Contents()[i := Item(heir, heir.key)])
    {
      hide RbTree.Valid;
      tree.SbtReplace(hook, heir);
    }

    lemma InTree(i: nat)
      requires tree.Valid()
      ensures i < |tree.Contents()| ==>
        && tree.Contents()[i].n in Nodes(tree.shape) && tree.Contents()[i].n in tree.nodes
        && tree.Contents()[i].n != tree.nil
    {
      NodesInorder(tree.shape);
      tree.Keys();
      if i < |tree.Contents()| {
        assert tree.Contents()[i].n in NodesOf(tree.Contents()) && tree.Contents()[i] in tree.Contents();
      }
    }

    /** The second node of a chain can take the tree place of the first. */
    lemma Successor(node: TSTNode, hs: set<HNode>, i: nat)
      requires ByScore(hs) && Loose() && i < |chains| && |chains[i]| > 1 && chains[i][0] == node
      requires chains[i][1] == node.next
      ensures node.tnode in Nodes(tree.shape) && node.next in all
      ensures node.next.tnode !in tree.nodes && node.next.tnode.key == node.tnode.key
      ensures i < |tree.Contents()| && tree.Contents()[i] == Item(node.tnode, node.tnode.key)
    {
      var xs, v := tree.Contents(), View(all);
      HeadAt(xs, chains, v, i);
      SameScoreAll(v, chains[i], xs[i].key);
      assert v[node].tnode == node.tnode;
      InTree(i);
      InnerOutside(node, hs, i, 0);
      InnerOutside(node.next, hs, i, 1);
      assert v[node.next].score == node.next.score;
    }

    /** The head of a longer chain hands its tree place to the second node. */
    method HandOver(node: TSTNode, ghost hs: set<HNode>, ghost i: nat)
      requires ByScore(hs) && Loose() && node in all && i < |chains| && chains[i] != [] && chains[i][0] == node
      requires node.next != null
      modifies this`all, this`chains, tree, tree.nodes, node`next, node.next.tnode
      ensures ByScore(hs - {node.mpnode}) && Loose() && all == old(all) - {node} && chains == Omit(old(chains), node)
      ensures node.next == null
      ensures tree.nodes <= old(tree.nodes + {node.next.tnode})
      ensures tree.above == old(tree.above) && chains != []
    {
      hide RbTree.Valid, IHSet.Valid;
      hide TSet.ByScore;
      hide Agree;
      Facts(hs);
      ghost var v: TMem, xs := View(all), tree.Contents();
      AgreeHead(xs, chains, v, hs, i, node);
      Successor(node, hs, i);
      PlaceOf(hs, i);
      OwnHooks(hs);
      PassOn(node, i);
      Settle(all - {node}, Omit(chains, node), hs - {node.mpnode});
    }

    lemma PlaceOf(hs: set<HNode>, i: nat)
      requires ByScore(hs) && i < |tree.Contents()|
      ensures Pos(tree.Contents(), tree.Contents()[i].n) == i
    {
      tree.Keys();
      PosAt(tree.Contents(), i);
    }

    lemma OwnHooks(hs: set<HNode>)
      requires ByScore(hs)
      ensures forall n <- all :: n.tnode.owner == n
    {
      assert forall n <- all :: n in View(all) && Owned(View(all)[n], n);
    }

    /** The pointer work of HandOver. */
    method PassOn(node: TSTNode, ghost i: nat)
      requires i < |tree.Contents()| && Pos(tree.Contents(), node.tnode) == i
      requires tree.Valid() && node in all && node.tnode in Nodes(tree.shape) && node.next != null
      requires node.next.tnode !in tree.nodes && node.next.tnode.key == node.tnode.key
      modifies tree, tree.nodes, node`next, node.next.tnode
      ensures tree.Valid() && View(all - {node}) == old(View(all)) - {node} && node.next == null
      ensures tree.nodes == old(tree.nodes - {node.tnode} + {node.next.tnode})
      ensures tree.Contents() == old(tree.Contents()[i := Item(node.next.tnode, node.next.tnode.key)])
      ensures tree.above == old(tree.above)
    {
      hide TSet.ByScore, Agree, RbTree.Valid, IHSet.Valid, Nodes, Inorder;
      Replace(node.tnode, node.next.tnode, i);
      label After:
      assert View(all - {node}) == View(all) - {node};
      node.next := null;
      tree.Kept@After();
      assert View(all - {node}) == old@After(View(all - {node}));
    }

    /** The half of ts_delete that works on the score index. */
    method DeleteScore(node: TSTNode, ghost hs: set<HNode>)
      requires ByScore(hs) && Loose() && node in all
      modifies this`all, this`chains, tree, tree.nodes, all`next, if node.next == null then {} else {node.next.tnode}
      ensures ByScore(hs - {node.mpnode}) && Loose() && all == old(all) - {node} && chains == Omit(old(chains), node)
      ensures node.next == null
      ensures tree.nodes <= old(tree.nodes + if node.next == null then {} else {node.next.tnode})
      ensures tree.above == old(tree.above) && (chains == [] ==> tree.root == tree.nil)
    {
      ghost var i, j := WhereIs(node, hs);
      var found;
      ghost var steps;
      found, steps := tree.SbtSearch(node.tnode.key);
      var head := Head(found, node, hs, i, j);
      if head != node {
        UnlinkInner(node, head, hs, i, j);
      } else if node.next != null {
        HandOver(node, hs, i);
      } else {
        DropChain(node, hs, i);
      }
    }

    /** container_of leads from the tree node of a score to the head of its chain. */
    method Head(found: SbtNode?, node: TSTNode, ghost hs: set<HNode>, ghost i: nat, ghost j: nat)
      returns (head: TSTNode)
      requires ByScore(hs) && i < |chains| == |tree.Contents()| && j < |chains[i]| && chains[i][j] == node
      requires node.tnode.key == tree.Contents()[i].key
      requires found == null ==> forall x <- tree.Contents() :: x.key != node.tnode.key
      requires found != null ==> Item(found, node.tnode.key) in tree.Contents()
      ensures head == chains[i][0] && (j > 0 ==> head != node)
    {
      assert tree.Contents()[i] in tree.Contents();
      ghost var k := HeadOf(found, node.tnode.key, hs);
      Facts(hs);
      tree.OneKey(i, k);
      RowNoDup(chains, i);
      return found.owner as TSTNode;
    }

    /** ts_delete of a node of the set. */
    method TsDelete(node: TSTNode?) returns (ok: bool)
      requires Valid() && (node != null ==> node in all)
      modifies this`all, this`chains, tree, tree.nodes, all`next
      modifies if node == null || node.next == null then {} else {node.next.tnode}
      modifies mp, mp.curr, mp.prev, mp.curr.buckets, mp.prev.buckets, mp.nodes`next
      ensures Valid() && mp.Owns() && ok == (node != null)
      ensures node == null ==> all == old(all) && chains == old(chains)
      ensures node != null ==> all == old(all) - {node} && chains == Omit(old(chains), node) && node.next == null
      ensures node != null ==> mp.nodes == old(mp.nodes) - {node.mpnode}
      ensures node != null ==>
        tree.nodes <= old(tree.nodes + if node.next == null then {} else {node.next.tnode})
    {
      if node == null { return false; }
      DeleteNode(node);
      return true;
    }

    method DeleteNode(node: TSTNode)
      requires Valid() && node in all
      modifies this`all, this`chains, tree, tree.nodes, all`next
      modifies if node.next == null then {} else {node.next.tnode}
      modifies mp, mp.curr, mp.prev, mp.curr.buckets, mp.prev.buckets, mp.nodes`next
      ensures Valid() && mp.Owns() && all == old(all) - {node} && chains == Omit(old(chains), node) && node.next == null
      ensures mp.nodes == old(mp.nodes) - {node.mpnode}
      ensures tree.nodes <= old(tree.nodes + if node.next == null then {} else {node.next.tnode})
      ensures tree.above == old(tree.above) && (chains == [] ==> tree.root == tree.nil)
    {
      hide TSet.Loose, RbTree.Valid, IHSet.Valid, Omit;
      hide TSet.ByScore;
      ghost var hs := mp.nodes;
      DeleteName(node);
      DeleteScoreOnly(node, hs);
    }

    /** DeleteScore, seen to leave the name index alone. */
    method DeleteScoreOnly(node: TSTNode, ghost hs: set<HNode>)
      requires mp.Valid() && ByScore(hs) && Loose() && node in all
      modifies this`all, this`chains, tree, tree.nodes, all`next, if node.next == null then {} else {node.next.tnode}
      ensures mp.Valid() && ByScore(hs - {node.mpnode}) && Loose() && node.next == null
      ensures unchanged(mp) && unchanged(mp.curr) && unchanged(mp.prev)
      ensures all == old(all) - {node} && chains == Omit(old(chains), node)
      ensures tree.nodes <= old(tree.nodes + if node.next == null then {} else {node.next.tnode})
      ensures tree.above == old(tree.above) && (chains == [] ==> tree.root == tree.nil)
    {
      hide TSet.ByScore;
      DeleteScore(node, hs);
      mp.Kept();
    }

    /** The half that works on the name index: what goes is the hook of that very node. */
    method DeleteName(node: TSTNode)
      requires Valid() && node in all
      modifies mp, mp.curr, mp.prev, mp.curr.buckets, mp.prev.buckets, mp.nodes`next
      ensures mp.Valid() && mp.Owns() && mp.nodes == old(mp.nodes) - {node.mpnode}
      ensures ByScore(old(mp.nodes)) && Loose()
    {
      hide RbTree.Valid, IHSet.Valid;
      hide TSet.ByScore;
      ghost var hs := mp.nodes;
      HookIs(hs);
      HashIs(node.mpnode);
      var r := mp.Remove(node.mpnode.hval, node.name);
      ScoreKept(hs);
    }

    /** From hook to node and back. */
    lemma HookIs(hs: set<HNode>)
      requires ByScore(hs)
      ensures forall h <- hs :: h.owner is TSTNode && (h.owner as TSTNode) in all && (h.owner as TSTNode).mpnode == h
      ensures forall n <- all :: n.mpnode in hs && n.mpnode.key == n.name && n.tnode.owner == n
      ensures forall n <- all, m <- all :: n.name == m.name ==> n == m
    {
      ghost var v := View(all);
      assert forall n <- all :: n in v && Owned(v[n], n);
    }

    lemma HashIs(h: HNode)
      requires mp.Valid() && h in mp.nodes
      ensures h.hval == mp.hash(h.key)
    {
      assert h in Nexts(mp.nodes);
    }

    /** ts_find; it may move hooks between the hash tables, the set stays. */
    method TsFind(name: string) returns (r: TSTNode?)
      requires Valid()
      modifies mp, mp.curr, mp.prev, mp.curr.buckets, mp.prev.buckets, mp.nodes`next
      ensures Valid() && mp.Owns() && mp.nodes == old(mp.nodes)
      ensures r == null ==> forall n <- all :: n.name != name
      ensures r != null ==> r in all && r.name == name
    {
      hide TSet.ByScore;
      HookIs(mp.nodes);
      var h := mp.Find(mp.hash(name), name);
      ScoreKept(mp.nodes);
      if h == null { return null; }
      return h.owner as TSTNode;
    }

    /** What ts_update does between its two halves: a node that is out of the set becomes as mk_tstn made it. */
    method Reset(node: TSTNode, score: Score)
      requires mp.Valid() && ByScore(mp.nodes) && Loose() && Outsider(node)
      modifies node`score, node.tnode
      ensures mp.Valid() && ByScore(mp.nodes) && Loose() && Newcomer(node)
      ensures node.score == score && View(all) == old(View(all))
    {
      hide TSet.ByScore, RbTree.Valid, IHSet.Valid;
      ghost var v := View(all);
      HookIs(mp.nodes);
      NotInTree(node, mp.nodes);
      Facts(mp.nodes);
      assert node.tnode != tree.nil;
      Renew(node, score);
      mp.Kept();
      ScoreKept(mp.nodes);
    }

    method Renew(node: TSTNode, score: Score)
      modifies node`score, node.tnode
      ensures node.tnode.View() ==
        old(node.tnode.View()).(key := score, left := tree.nil, right := tree.nil, color := Red)
      ensures node.score == score
    {
      node.score := score;
      node.tnode.key := score;
      node.tnode.left := tree.nil;
      node.tnode.right := tree.nil;
      node.tnode.color := Red;
    }

    /** A node that ts_delete took out. */
    ghost predicate Outsider(n: TSTNode)
      reads this, all, n
    {
      n !in all && n.next == null && Owned(CellOf(n), n) && forall m <- all :: m.name != n.name
    }

    /** ts_update of a node of the set; a null pointer gives false. */
    method TsUpdate(node: TSTNode?, score: Score) returns (ok: bool)
      requires Valid() && (node != null ==> node in all)
      modifies this`all, this`chains, tree, tree.nodes, all`next
      modifies (if node == null then {} else {node})`score, if node == null then {} else {node.tnode}
      modifies if node == null || node.next == null then {} else {node.next.tnode}
      modifies mp, mp.curr, mp.prev, mp.curr.buckets, mp.prev.buckets, mp.nodes`next
      ensures Valid() && mp.Owns() && ok == (node != null) && all == old(all) && mp.nodes <= old(mp.nodes)
      ensures node == null ==> chains == old(chains) && tree.nodes == old(tree.nodes)
      ensures node != null ==>
        node.score == score && chains == AddTo(Omit(old(chains), node), old(View(all)), node, score)
      ensures node != null ==>
        tree.nodes <= old(tree.nodes + {node.tnode} + if node.next == null then {} else {node.next.tnode})
    {
      hide *;
      if node == null {
        mp.OwnsMeans();
        return false;
      }
      UpdateNode(node, score);
      return true;
    }

    method UpdateNode(node: TSTNode, score: Score)
      requires Valid() && node in all
      modifies this`all, this`chains, tree, tree.nodes, all`next, node`score, node.tnode
      modifies if node.next == null then {} else {node.next.tnode}
      modifies mp, mp.curr, mp.prev, mp.curr.buckets, mp.prev.buckets, mp.nodes`next
      ensures Valid() && all == old(all) && node.score == score
      ensures chains == AddTo(Omit(old(chains), node), old(View(all)), node, score)
      ensures mp.Owns() && mp.nodes <= old(mp.nodes)
      ensures tree.nodes <= old(tree.nodes + {node.tnode} + if node.next == null then {} else {node.next.tnode})
    {
      hide TSet.ByScore;
      hide TSet.Valid, TSet.Outsider, AddTo, Omit;
      TakeOut(node, score);
      PutBack(node, score);
      assert all == old(all);
    }

    /** The first half of ts_update. */
    method TakeOut(node: TSTNode, ghost score: Score)
      requires Valid() && node in all
      modifies this`all, this`chains, tree, tree.nodes, all`next
      modifies if node.next == null then {} else {node.next.tnode}
      modifies mp, mp.curr, mp.prev, mp.curr.buckets, mp.prev.buckets, mp.nodes`next
      ensures Valid() && mp.Owns() && all == old(all) - {node} && Outsider(node) && mp.nodes <= old(mp.nodes)
      ensures old(node.mpnode in mp.nodes && node.mpnode.hval == mp.hash(node.name))
      ensures tree.nodes <= old(tree.nodes + if node.next == null then {} else {node.next.tnode})
      ensures AddTo(chains, View(all), node, score) == AddTo(Omit(old(chains), node), old(View(all)), node, score)
    {
      hide RbTree.Valid, IHSet.Valid;
      hide TSet.ByScore;
      HookIs(mp.nodes);
      HashIs(node.mpnode);
      ghost var v, cs := View(all), Omit(chains, node);
      assert Owned(CellOf(node), node);
      DeleteNode(node);
      assert Outsider(node);
      HeadsIn(mp.nodes);
      SameAdd(cs, v, View(all), node, score);
    }

    /** The second half of ts_update. */
    method PutBack(node: TSTNode, score: Score)
      requires Valid() && Outsider(node) && node.mpnode.hval == mp.hash(node.name)
      modifies this`all, this`chains, tree, tree.nodes, all`next, node`next, node`score, node.tnode
      modifies mp, mp.curr, mp.prev, mp.curr.buckets, mp.prev.buckets, mp.nodes`next, node.mpnode`next
      ensures Valid() && all == old(all) + {node} && node.score == score
      ensures chains == AddTo(old(chains), old(View(all)), node, score)
      ensures tree.nodes <= old(tree.nodes) + {node.tnode}
      ensures mp.Owns() && mp.nodes == old(mp.nodes) + {node.mpnode}
    {
      hide TSet.ByScore;
      Reset(node, score);
      var ok := TsInsert(node);
    }

    lemma HeadsIn(hs: set<HNode>)
      requires ByScore(hs)
      ensures forall c <- chains :: c != [] ==> c[0] in all
    {
      forall c | c in chains && c != []
        ensures c[0] in all
      {
        var i :| 0 <= i < |chains| && chains[i] == c;
        InFlat(chains, i, 0);
        assert c[0] in View(all).Keys;
      }
    }

    // ---------- reading in order ----------

    /** node is element j of chain i, whose head is `head`. */
    ghost predicate Stands(node: TSTNode, head: TSTNode, i: nat, j: nat)
      reads this
    {
      i < |chains| && j < |chains[i]| && chains[i][j] == node && chains[i][0] == head
    }

    /** One step of ts_walk: along the chain, or to the head of the next one. */
    method Next(node: TSTNode, head: TSTNode, ghost i: nat, ghost j: nat)
      returns (n: TSTNode?, h: TSTNode?, ghost i': nat, ghost j': nat)
      requires ByScore(mp.nodes) && Stands(node, head, i, j)
      ensures n == null ==> Offset(chains, i) + j + 1 == |Flattened()|
      ensures n != null ==> h != null && Stands(n, h, i', j') && Offset(chains, i') + j' == Offset(chains, i) + j + 1
    {
      hide TSet.ByScore, Offset, Flat;
      ChainFacts(mp.nodes, i, j);
      if node.next != null {
        return node.next, head, i, j + 1;
      }
      hide TSet.Valid;
      OffsetNext(chains, i);
      n := NextHead(head, mp.nodes, i);
      HeadSpot(mp.nodes, i + 1);
      return n, n, i + 1, 0;
    }

    /** From the head of one chain to that of the next. */
    method NextHead(head: TSTNode, ghost hs: set<HNode>, ghost i: nat) returns (n: TSTNode?)
      requires ByScore(hs) && i < |chains| && chains[i] != [] && chains[i][0] == head
      ensures n == if i + 1 < |chains| && chains[i + 1] != [] then chains[i + 1][0] else null
    {
      hide TSet.ByScore, Agree;
      HeadSpot(hs, i);
      Facts(hs);
      var found := tree.SbtWalkForw(head.tnode);
      if IsNull(found, tree.nil) {  // src/kvt_tset.cpp:156 tests for null only
        InTree(i + 1);
        return null;
      }
      HeadSpot(hs, i + 1);
      n := found.owner as TSTNode;
    }

    /** One step of ts_walk backward: still along the chain, else to the head of the chain before. */
    method Previous(node: TSTNode, head: TSTNode, ghost i: nat, ghost j: nat)
      returns (n: TSTNode?, h: TSTNode?, ghost i': nat, ghost j': nat)
      requires ByScore(mp.nodes) && Stands(node, head, i, j)
      ensures n == null ==> |BackFrom(chains, i, j)| == 1
      ensures n != null ==> h != null && Stands(n, h, i', j') && BackFrom(chains, i', j') == BackFrom(chains, i, j)[1..]
    {
      hide TSet.ByScore;
      ChainFacts(mp.nodes, i, j);
      assert BackFrom(chains, i, j)[1..] == chains[i][j + 1..] + Back(chains, i);
      if node.next != null {
        return node.next, head, i, j + 1;
      }
      hide TSet.Valid;
      HeadSpot(mp.nodes, i);
      n := PreviousHead(head, mp.nodes, i);
      if n != null { HeadSpot(mp.nodes, i - 1); }
      return n, n, if i > 0 then i - 1 else 0, 0;
    }

    method PreviousHead(head: TSTNode, ghost hs: set<HNode>, ghost i: nat) returns (n: TSTNode?)
      requires ByScore(hs) && i < |chains| && chains[i] != [] && chains[i][0] == head
      ensures i == 0 ==> n == null
      ensures i > 0 ==> chains[i - 1] != [] && n == chains[i - 1][0]
    {
      hide TSet.ByScore, Agree;
      HeadSpot(hs, i);
      Facts(hs);
      var found := tree.SbtWalkBack(head.tnode);
      if IsNull(found, tree.nil) {
        if i > 0 { InTree(i - 1); }
        return null;
      }
      HeadSpot(hs, i - 1);
      n := found.owner as TSTNode;
    }

    /** The head of chain i and tree node i belong together. */
    lemma HeadSpot(hs: set<HNode>, i: nat)
      requires ByScore(hs)
      ensures |chains| == |tree.Contents()|
      ensures i < |chains| ==>
        && chains[i] != [] && chains[i][0].tnode == tree.Contents()[i].n && chains[i][0].tnode.owner == chains[i][0]
        && chains[i][0].tnode in Nodes(tree.shape) && Pos(tree.Contents(), chains[i][0].tnode) == i
    {
      assert |chains| == |tree.Contents()|;
      if i < |chains| {
        var x := tree.Contents()[i];
        assert x in tree.Contents();
        var k := HeadOf(x.n, x.key, hs);
        tree.OneKey(i, k);
        PlaceOf(hs, i);
        InTree(i);
      }
    }

    /** The loop of ts_walk forward. `head0` may be null when `start` heads its chain; otherwise it is the head of the
        chain of start and follows the walk, so that the caller can go on (src/io.cpp:446-447 loses it). */
    method WalkForw(start: TSTNode, offset: nat, head0: TSTNode?, ghost i0: nat, ghost j0: nat)
      returns (n: TSTNode?, head: TSTNode?, ghost i: nat, ghost j: nat)
      requires ByScore(mp.nodes) && Stands(start, if head0 == null then start else head0, i0, j0)
      requires Offset(chains, i0) + j0 + offset <= |Flattened()|
      ensures n == null <==> Offset(chains, i0) + j0 + offset == |Flattened()|
      ensures n != null ==> Flattened()[Offset(chains, i0) + j0 + offset] == n
      ensures n != null && head0 != null ==>
        head != null && Stands(n, head, i, j) && Offset(chains, i) + j == Offset(chains, i0) + j0 + offset
    {
      hide TSet.ByScore, Offset, Flat;
      n, i, j := start, i0, j0;
      var h: TSTNode? := if head0 == null then start else head0;
      ghost var p := Offset(chains, i0) + j0;
      var left := offset;
      while left > 0
        invariant 0 <= left <= offset && (n == null ==> left == 0 && p + offset == |Flattened()|)
        invariant n != null ==> h != null && Stands(n, h, i, j) && Offset(chains, i) + j + left == p + offset
      {
        n, h, i, j := Next(n, h, i, j);
        left := left - 1;
      }
      if n != null { FlatAt(chains, i, j); }
      head := if head0 == null then null else h;
    }

    /** The loop of ts_walk backward. */
    method WalkBack(start: TSTNode, offset: nat, head0: TSTNode?, ghost i0: nat, ghost j0: nat)
      returns (n: TSTNode?, head: TSTNode?, ghost i: nat, ghost j: nat)
      requires ByScore(mp.nodes) && Stands(start, if head0 == null then start else head0, i0, j0)
      requires offset <= |BackFrom(chains, i0, j0)|
      ensures n == if offset < |BackFrom(chains, i0, j0)| then BackFrom(chains, i0, j0)[offset] else null
      ensures n != null && head0 != null ==> head != null && Stands(n, head, i, j)
    {
      hide TSet.ByScore, Offset, Flat, Back;
      n, i, j := start, i0, j0;
      var h: TSTNode? := if head0 == null then start else head0;
      ghost var s := BackFrom(chains, i0, j0);
      var left := offset;
      while left > 0
        invariant 0 <= left <= offset && (n == null ==> left == 0 && offset == |s|)
        invariant n != null ==> h != null && Stands(n, h, i, j) && BackFrom(chains, i, j) == s[offset - left..]
      {
        n, h, i, j := Previous(n, h, i, j);
        left := left - 1;
      }
      head := if head0 == null then null else h;
    }

    /** ts_walk: offset elements on, or ~offset steps backward, which still run forward along each chain. */
    method TsWalk(start: TSTNode, offset: int, head0: TSTNode?, ghost i0: nat, ghost j0: nat)
      returns (n: TSTNode?, head: TSTNode?, ghost i: nat, ghost j: nat)
      requires ByScore(mp.nodes) && Stands(start, if head0 == null then start else head0, i0, j0)
      requires offset >= 0 ==> Offset(chains, i0) + j0 + offset <= |Flattened()|
      requires offset < 0 ==> -offset - 1 <= |BackFrom(chains, i0, j0)|
      ensures offset >= 0 ==> (n == null <==> Offset(chains, i0) + j0 + offset == |Flattened()|)
      ensures offset >= 0 && n != null ==> Flattened()[Offset(chains, i0) + j0 + offset] == n
      ensures offset >= 0 && n != null && head0 != null ==>
        head != null && Stands(n, head, i, j) && Offset(chains, i) + j == Offset(chains, i0) + j0 + offset
      ensures offset < 0 ==> n == if -offset - 1 < |BackFrom(chains, i0, j0)|
                                  then BackFrom(chains, i0, j0)[-offset - 1] else null
      ensures offset < 0 && n != null && head0 != null ==> head != null && Stands(n, head, i, j)
    {
      hide TSet.ByScore, Offset, Flat, Back;
      if offset < 0 {
        n, head, i, j := WalkBack(start, -offset - 1, head0, i0, j0);
      } else {
        n, head, i, j := WalkForw(start, offset, head0, i0, j0);
      }
    }

    /** ts_at. It also gives the head of the chain that its node is in, which its caller needs to walk on. */
    method TsAt(offset: nat) returns (n: TSTNode, head: TSTNode, ghost i: nat, ghost j: nat)
      requires Valid() && offset < |Flattened()|
      ensures n == Flattened()[offset] && Stands(n, head, i, j) && Offset(chains, i) + j == offset
    {
      hide TSet.ByScore;
      HeadSpot(mp.nodes, 0);
      Facts(mp.nodes);
      var node := tree.First();
      var first := node.owner as TSTNode;
      n, head, i, j := TsWalk(first, offset, first, 0, 0);
    }

    // ---------- commands ----------

    /** ts_insertn of a name that is not in the set. */
    method TsInsertN(name: string, score: Score) returns (ok: bool, ghost node: TSTNode)
      requires Valid() && forall n <- all :: n.name != name
      modifies this`all, this`chains, tree, tree.nodes, all`next
      modifies mp, mp.curr, mp.prev, mp.curr.buckets, mp.prev.buckets, mp.nodes`next
      ensures Valid() && ok && fresh(node) && node.name == name && node.score == score && all == old(all) + {node}
      ensures chains == AddTo(old(chains), old(View(all)), node, score)
      ensures mp.Owns() && fresh(mp.nodes - old(mp.nodes)) && fresh(node.tnode)
      ensures tree.nodes <= old(tree.nodes) + {node.tnode}
      ensures tree.above == if old(IsNull(tree.root, tree.nil)) then old(tree.root) else old(tree.above)
    {
      hide TSet.Valid, TSet.Newcomer, AddTo;
      var made := MakeNode(name, score);
      node := made;
      ok := TsInsert(made);
    }

    method MakeNode(name: string, score: Score) returns (node: TSTNode)
      requires Valid() && forall n <- all :: n.name != name
      ensures Valid() && Newcomer(node) && node.mpnode.hval == mp.hash(name) && View(all) == old(View(all))
      ensures fresh(node) && fresh(node.tnode) && fresh(node.mpnode) && node.name == name && node.score == score
    {
      hide TSet.Valid;
      node := new TSTNode(name, score, tree.nil, mp.hash);
      assert node !in all;
    }

    /** The set says what m says. */
    ghost predicate Holds(m: map<string, Score>)
      reads this, all
    {
      Tells(View(all), m)
    }

    /** All tree nodes that the set may touch are in ts. */
    ghost predicate Covers(ts: set<SbtNode>)
      reads this, tree, all
    {
      tree.nodes <= ts && forall n <- all :: n.tnode in ts
    }

    lemma Covered(ts: set<SbtNode>)
      ensures Covers(ts) <==> tree.nodes <= ts && forall n <- all :: n.tnode in ts
    {
    }

    /** A node got a score, or came in with it. */
    twostate lemma HoldsSet(new n: TSTNode, m: map<string, Score>)
      requires old(Holds(m)) && all == old(all) + {n}
      requires forall x <- old(all) :: x != n ==> x.name != n.name && x.score == old(x.score)
      ensures Holds(m[n.name := n.score])
    {
      TellsSet(old(View(all)), View(all), m, n);
    }

    lemma InMap(m: map<string, Score>, name: string)
      requires Holds(m)
      ensures name in m <==> exists n :: n in all && n.name == name
    {
      assert forall n <- all :: n in View(all);
    }

    /** One pass of the loop of do_add_tset. */
    method AddOne(name: string, score: Score, ghost m: map<string, Score>, ghost ts: set<SbtNode>)
      returns (isNew: bool, ghost ts': set<SbtNode>)
      requires Valid() && Holds(m) && Covers(ts)
      modifies this`all, this`chains, tree, ts, all`next, all`score
      modifies mp, mp.curr, mp.prev, mp.curr.buckets, mp.prev.buckets, mp.nodes`next
      ensures Valid() && Holds(m[name := score]) && isNew == (name !in m) && Covers(ts') && fresh(ts' - ts)
      ensures mp.Owns() && fresh(all - old(all)) && fresh(mp.nodes - old(mp.nodes))
    {
      hide *;
      var found := TsFind(name);
      mp.OwnsMeans();
      label Found:
      if found != null {
        AddKnown(found, score, m, ts);
        ts' := ts;
      } else {
        ts' := AddFresh(name, score, m, ts);
      }
      mp.OwnsMeans@Found();
      mp.OwnsMeans();
      return found == null, ts';
    }

    lemma HasNames(n: TSTNode)
      requires Valid()
      ensures forall m <- all :: m.name == n.name && n in all ==> m == n
    {
      hide TSet.ByScore;
      HookIs(mp.nodes);
    }

    lemma NextIn(n: TSTNode)
      requires Valid() && n in all
      ensures n.next != null ==> n.next in all
    {
      hide TSet.ByScore;
      ghost var i, j := WhereIs(n, mp.nodes);
      ChainFacts(mp.nodes, i, j);
      if n.next != null { ChainFacts(mp.nodes, i, j + 1); }
    }

    method AddKnown(found: TSTNode, score: Score, ghost m: map<string, Score>, ghost ts: set<SbtNode>)
      requires Valid() && Holds(m) && found in all && Covers(ts)
      modifies this`all, this`chains, tree, ts, all`next, all`score
      modifies mp, mp.curr, mp.prev, mp.curr.buckets, mp.prev.buckets, mp.nodes`next
      ensures Valid() && Holds(m[found.name := score]) && found.name in m && all == old(all) && Covers(ts)
      ensures mp.Owns() && mp.nodes <= old(mp.nodes)
    {
      hide *;
      HasNames(found);
      NextIn(found);
      InMap(m, found.name);
      Covered(ts);
      UpdateNode(found, score);
      HoldsSet(found, m);
      Covered(ts);
    }

    method AddFresh(name: string, score: Score, ghost m: map<string, Score>, ghost ts: set<SbtNode>)
      returns (ghost ts': set<SbtNode>)
      requires Valid() && Holds(m) && Covers(ts) && forall n <- all :: n.name != name
      modifies this`all, this`chains, tree, ts, all`next
      modifies mp, mp.curr, mp.prev, mp.curr.buckets, mp.prev.buckets, mp.nodes`next
      ensures Valid() && Holds(m[name := score]) && name !in m && Covers(ts') && fresh(ts' - ts)
      ensures mp.Owns() && fresh(all - old(all)) && fresh(mp.nodes - old(mp.nodes))
    {
      hide *;
      InMap(m, name);
      Covered(ts);
      var ok;
      ghost var node;
      ok, node := TsInsertN(name, score);
      HoldsSet(node, m);
      ts' := ts + {node.tnode};
      Covered(ts');
    }

    /** The last part of do_range_tset, from the parsed bounds on; a negative end counts from behind. `begin` must be
        what the assertions of ts_at ask, unless the answer is RANGE_OOB. The head of the chain follows the walk; in
        src/io.cpp:445-448 it stays at the first node, which need not even head its chain. */
    method TRange(begin: int, end0: int) returns (r: Range)
      requires Valid()
      requires -|Flattened()| <= end0 < |Flattened()| ==> 0 <= begin < |Flattened()|
      ensures r == OutOfBounds <==> end0 >= |Flattened()| || end0 < -|Flattened()|
      ensures 0 <= end0 < |Flattened()| && begin <= end0 ==>
        && |r.names| == end0 - begin + 1
        && forall i :: 0 <= i < |r.names| ==> r.names[i] == Flattened()[begin + i].name
      ensures -|Flattened()| <= end0 < 0 && begin <= |Flattened()| + end0 ==>
        && |r.names| == |Flattened()| + end0 - begin + 1
        && forall i :: 0 <= i < |r.names| ==> r.names[i] == Flattened()[begin + i].name
      ensures 0 <= end0 < |Flattened()| && end0 < begin ==> r.names == []
      ensures -|Flattened()| <= end0 < 0 && |Flattened()| + end0 < begin ==> r.names == []
    {
      hide TSet.Valid, Flat, Offset;
      SizeIs();
      var tsize := TsSize();
      var end := if end0 < 0 then tsize + end0 else end0;
      if end >= tsize || end < 0 { return OutOfBounds; }
      var names := List(begin, end);
      r := Names(names);
    }

    /** Its loop. */
    method List(begin: nat, end: nat) returns (names: seq<string>)
      requires Valid() && begin < |Flattened()| && end < |Flattened()|
      ensures |names| == if begin <= end then end - begin + 1 else 0
      ensures forall i :: 0 <= i < |names| ==> names[i] == Flattened()[begin + i].name
    {
      hide TSet.Valid, TSet.ByScore, Flat, Offset;
      Scored();
      names := [];
      var node: TSTNode?, head: TSTNode?;
      ghost var k, j;
      node, head, k, j := TsAt(begin);
      ghost var s := Flattened();
      var i := begin;
      while i <= end && node != null
        invariant begin <= i && (begin <= end ==> i <= end + 1) && (end < begin ==> i == begin)
        invariant if node == null then i == |s| else i < |s| && node == s[i] && head != null && Stands(node, head, k, j)
        invariant node != null ==> Offset(chains, k) + j == i
        invariant |names| == i - begin && i <= |s|
        invariant forall l :: 0 <= l < |names| ==> names[l] == s[begin + l].name
      {
        names := names + [node.name];
        node, head, k, j := TsWalk(node, 1, head, k, j);
        i := i + 1;
      }
    }

    /** The loop of do_add_tset: pair after pair of a name and a score; a last argument without a partner is not
        looked at. strtod reads a score. */
    method TAdd(cmds: seq<string>, strtod: string -> Score, ghost m: map<string, Score>, ghost ts: set<SbtNode>)
      returns (inserted: nat, updated: nat)
      requires Valid() && Holds(m) && Covers(ts) && |cmds| >= 2
      modifies this`all, this`chains, tree, ts, all`next, all`score
      modifies mp, mp.curr, mp.prev, mp.curr.buckets, mp.prev.buckets, mp.nodes`next
      ensures Valid() && Holds(Assigned(m, cmds, 2, strtod))
      ensures inserted == |Assigned(m, cmds, 2, strtod)| - |m| && inserted + updated == (|cmds| - 2) / 2
    {
      hide *;
      mp.OwnsMeans();
      var i := 2;
      inserted, updated := 0, 0;
      ghost var m', ts' := m, ts;
      while i + 1 < |cmds|
        invariant 2 <= i <= |cmds| && i == 2 + 2 * (inserted + updated)
        invariant Valid() && Holds(m') && Covers(ts') && fresh(ts' - ts)
        invariant mp.Owns() && fresh(all - old(all)) && fresh(mp.nodes - old(mp.nodes))
        invariant Assigned(m', cmds, i, strtod) == Assigned(m, cmds, 2, strtod) && inserted == |m'| - |m|
      {
        mp.OwnsMeans();
        label Pass:
        var isNew;
        AssignedNext(m', cmds, i, strtod);
        isNew, ts' := AddOne(cmds[i], strtod(cmds[i + 1]), m', ts');
        mp.OwnsMeans@Pass();
        mp.OwnsMeans();
        m' := m'[cmds[i] := strtod(cmds[i + 1])];
        if isNew { inserted := inserted + 1; } else { updated := updated + 1; }
        i := i + 2;
      }
      AssignedNext(m', cmds, i, strtod);
    }
  }

  datatype Range = OutOfBounds | Names(names: seq<string>)

  /** Names and scores from place i on, as assignments to a plain map. */
  function Assigned(m: map<string, Score>, cmds: seq<string>, i: nat, strtod: string -> Score): map<string, Score>
    decreases |cmds| - i
  {
    if i + 1 >= |cmds| then m else Assigned(m[cmds[i] := strtod(cmds[i + 1])], cmds, i + 2, strtod)
  }

  /** Place j, counting from i on in steps of two, holds a name with a score behind it. */
  predicate PairAt(cmds: seq<string>, i: nat, j: nat) {
    i <= j && j + 1 < |cmds| && (j - i) % 2 == 0
  }

  /** The last such place with its name. */
  ghost predicate LastAt(cmds: seq<string>, i: nat, j: nat) {
    PairAt(cmds, i, j) && forall k: nat :: PairAt(cmds, i, k) && k > j ==> cmds[k] != cmds[j]
  }

  /** A name that is given in a run of assignments ends up with the score behind its last mention. */
  lemma {:induction false} AssignedLast(m: map<string, Score>, cmds: seq<string>, i: nat, strtod: string -> Score,
          j: nat)
    requires LastAt(cmds, i, j)
    ensures var r := Assigned(m, cmds, i, strtod); cmds[j] in r && r[cmds[j]] == strtod(cmds[j + 1])
    decreases |cmds| - i
  {
    var m' := m[cmds[i] := strtod(cmds[i + 1])];
    assert forall k: nat :: PairAt(cmds, i + 2, k) ==> PairAt(cmds, i, k);
    if j == i {
      AssignedOther(m', cmds, i + 2, strtod, cmds[i]);
    } else {
      AssignedLast(m', cmds, i + 2, strtod, j);
    }
  }

  /** Any other name keeps what it had. */
  lemma {:induction false} AssignedOther(m: map<string, Score>, cmds: seq<string>, i: nat, strtod: string -> Score,
          name: string)
    requires forall j: nat :: PairAt(cmds, i, j) ==> cmds[j] != name
    ensures var r := Assigned(m, cmds, i, strtod); (name in r <==> name in m) && (name in m ==> r[name] == m[name])
    decreases |cmds| - i
  {
    if i + 1 < |cmds| {
      assert PairAt(cmds, i, i);
      assert forall k: nat :: PairAt(cmds, i + 2, k) ==> PairAt(cmds, i, k);
      AssignedOther(m[cmds[i] := strtod(cmds[i + 1])], cmds, i + 2, strtod, name);
    }
  }

  lemma AssignedNext(m: map<string, Score>, cmds: seq<string>, i: nat, strtod: string -> Score)
    ensures i + 1 >= |cmds| ==> Assigned(m, cmds, i, strtod) == m
    ensures i + 1 < |cmds| ==>
      && Assigned(m, cmds, i, strtod) == Assigned(m[cmds[i] := strtod(cmds[i + 1])], cmds, i + 2, strtod)
      && |m[cmds[i] := strtod(cmds[i + 1])]| == |m| + (if cmds[i] in m then 0 else 1)
  {
    if i + 1 < |cmds| {
      var m' := m[cmds[i] := strtod(cmds[i + 1])];
      assert m'.Keys == m.Keys + {cmds[i]};
      assert |m'| == |m'.Keys| && |m| == |m.Keys|;
    }
  }
}
