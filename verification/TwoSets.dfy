/** Sorted sets of one store: they share NILNODE, whose parent field deletions write, and nothing else. Work on one
    leaves the other as it is. */
module TwoSets {
  import opened SbtNodes
  import opened RbTrees
  import opened HashChains
  import opened IntrusiveHash
  import opened ScoreChains
  import opened TSets

  /** The two sets have no object in common but NILNODE. */
  ghost predicate Separate(a: TSet, b: TSet)
    reads a, b, a.tree, b.tree, a.mp, b.mp, a.mp.curr, a.mp.prev, b.mp.curr, b.mp.prev
  {
    && a != b && a.tree != b.tree && a.mp != b.mp && a.tree.nil == b.tree.nil
    && a.tree.nodes * b.tree.nodes <= {a.tree.nil} && a.all !! b.all && a.mp.nodes !! b.mp.nodes
    && a.mp.curr !in {b.mp.curr, b.mp.prev} && a.mp.prev !in {b.mp.curr, b.mp.prev}
    && OtherArray(b.mp.curr.buckets, a) && OtherArray(b.mp.prev.buckets, a)
  }

  ghost predicate OtherArray(x: array?<HNode?>, a: TSet)
    reads a, a.mp, a.mp.curr, a.mp.prev
  {
    x != null ==> x != a.mp.curr.buckets && x != a.mp.prev.buckets
  }

  /** Hooks lead back to their set, so that no tree hook of a set stands in the tree of the other. */
  lemma OwnTrees(a: TSet, b: TSet)
    requires a.Valid() && b.Valid() && a.all !! b.all
    ensures forall n <- a.all :: n.tnode !in b.tree.nodes && n.tnode.owner == n && n.mpnode in a.mp.nodes
    ensures forall n <- a.all, m <- b.all :: n.tnode != m.tnode
    ensures a.tree.nil.color == Black && a.tree.nil.owner == null
  {
    a.HookIs(a.mp.nodes);
    b.HookIs(b.mp.nodes);
    a.Facts(a.mp.nodes);
    forall n | n in a.all ensures n.tnode !in b.tree.nodes { b.NotInTree(n, b.mp.nodes); }
  }

  lemma BlackNil(a: TSet)
    requires a.Valid()
    ensures a.tree.nil.color == Black && a.tree.nil.owner == null && a.tree.nil in a.tree.nodes
  {
    a.Facts(a.mp.nodes);
  }

  lemma SeparateIf(a: TSet, b: TSet)
    ensures Separate(a, b) <==>
      && a != b && a.tree != b.tree && a.mp != b.mp && a.tree.nil == b.tree.nil
      && a.tree.nodes * b.tree.nodes <= {a.tree.nil} && a.all !! b.all && a.mp.nodes !! b.mp.nodes
      && a.mp.curr !in {b.mp.curr, b.mp.prev} && a.mp.prev !in {b.mp.curr, b.mp.prev}
      && (b.mp.curr.buckets != null ==> b.mp.curr.buckets !in [a.mp.curr.buckets, a.mp.prev.buckets])
      && (b.mp.prev.buckets != null ==> b.mp.prev.buckets !in [a.mp.curr.buckets, a.mp.prev.buckets])
  {
  }

  lemma SeparateBothWays(a: TSet, b: TSet)
    requires Separate(a, b)
    ensures Separate(b, a)
  {
  }

  /** What a call on a can not reach. */
  lemma Foreign(a: TSet, b: TSet)
    requires a.Valid() && b.Valid() && Separate(a, b)
    ensures a != b && a.tree != b.tree && a.mp != b.mp && a.tree.nil == b.tree.nil && b.tree.nil in b.tree.nodes
    ensures a.mp.curr !in {b.mp.curr, b.mp.prev} && a.mp.prev !in {b.mp.curr, b.mp.prev}
    ensures forall n <- b.tree.nodes - {b.tree.nil} :: n !in a.tree.nodes
    ensures forall n <- a.all, m <- b.all :: n != m && n.tnode != m.tnode
    ensures forall n <- b.all :: n !in a.all && n.tnode !in a.tree.nodes && n.tnode != b.tree.nil
    ensures forall n <- b.mp.nodes :: n !in a.mp.nodes
    ensures forall n <- a.all :: n.tnode !in b.tree.nodes
    ensures b.mp.curr.buckets != null ==> b.mp.curr.buckets !in [a.mp.curr.buckets, a.mp.prev.buckets]
    ensures b.mp.prev.buckets != null ==> b.mp.prev.buckets !in [a.mp.curr.buckets, a.mp.prev.buckets]
  {
    hide TSet.Valid;
    OwnTrees(b, a);
    OwnTrees(a, b);
    BlackNil(b);
  }

  /** ts_insertn on a leaves b alone. */
  method InsertBeside(a: TSet, b: TSet, name: string, score: Score) returns (ghost node: TSTNode)
    requires a.Valid() && b.Valid() && Separate(a, b) && forall n <- a.all :: n.name != name
    modifies a`all, a`chains, a.tree, a.tree.nodes, a.all`next
    modifies a.mp, a.mp.curr, a.mp.prev, a.mp.curr.buckets, a.mp.prev.buckets, a.mp.nodes`next
    ensures a.Valid() && b.Valid() && Separate(a, b) && b.Flattened() == old(b.Flattened())
    ensures node.name == name && node.score == score && a.all == old(a.all) + {node}
  {
    hide *;
    Foreign(a, b);
    SeparateIf(a, b);
    node := InsertQuietly(a, b, name, score);
    a.mp.OwnsMeans();
    SeparateIf(a, b);
  }

  method InsertQuietly(a: TSet, b: TSet, name: string, score: Score) returns (ghost node: TSTNode)
    requires a.Valid() && b.Valid() && Separate(a, b) && forall n <- a.all :: n.name != name
    modifies a`all, a`chains, a.tree, a.tree.nodes, a.all`next
    modifies a.mp, a.mp.curr, a.mp.prev, a.mp.curr.buckets, a.mp.prev.buckets, a.mp.nodes`next
    ensures a.Valid() && b.Valid() && b.Flattened() == old(b.Flattened()) && a.mp.Owns()
    ensures fresh(node) && node.name == name && node.score == score && a.all == old(a.all) + {node}
    ensures fresh(a.mp.nodes - old(a.mp.nodes)) && fresh(node.tnode) && a.tree.nodes <= old(a.tree.nodes) + {node.tnode}
  {
    hide *;
    Foreign(a, b);
    var ok;
    ok, node := a.TsInsertN(name, score);
    BlackNil(a);
    b.Kept();
  }

  /** ts_delete on a leaves b alone. */
  method DeleteBeside(a: TSet, b: TSet, node: TSTNode)
    requires a.Valid() && b.Valid() && Separate(a, b) && node in a.all
    modifies a`all, a`chains, a.tree, a.tree.nodes, a.all`next
    modifies if node.next == null then {} else {node.next.tnode}
    modifies a.mp, a.mp.curr, a.mp.prev, a.mp.curr.buckets, a.mp.prev.buckets, a.mp.nodes`next
    ensures a.Valid() && b.Valid() && Separate(a, b) && b.Flattened() == old(b.Flattened())
    ensures a.all == old(a.all) - {node} && a.chains == Omit(old(a.chains), node)
  {
    hide *;
    Foreign(a, b);
    SeparateIf(a, b);
    a.NextIn(node);
    a.DeleteNode(node);
    BlackNil(a);
    b.Kept();
    a.mp.OwnsMeans();
    SeparateIf(a, b);
  }

  /** And so does ts_update. */
  method UpdateBeside(a: TSet, b: TSet, node: TSTNode, score: Score)
    requires a.Valid() && b.Valid() && Separate(a, b) && node in a.all
    modifies a`all, a`chains, a.tree, a.tree.nodes, a.all`next, node`score, node.tnode
    modifies if node.next == null then {} else {node.next.tnode}
    modifies a.mp, a.mp.curr, a.mp.prev, a.mp.curr.buckets, a.mp.prev.buckets, a.mp.nodes`next
    ensures a.Valid() && b.Valid() && Separate(a, b) && b.Flattened() == old(b.Flattened())
    ensures a.all == old(a.all) && node.score == score
  {
    hide *;
    Foreign(a, b);
    SeparateIf(a, b);
    a.NextIn(node);
    a.UpdateNode(node, score);
    BlackNil(a);
    b.Kept();
    a.mp.OwnsMeans();
    SeparateIf(a, b);
  }
}
