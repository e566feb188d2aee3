/** The nodes of a sorted set and their equal-score chains, as values: chain i hangs off the i-th tree node in
    order, and all its nodes have that node's score. */
module ScoreChains {
  import opened SbtNodes
  import opened Shapes
  import opened HashChains
  import opened Removal

  class TSTNode {
    var mpnode: HNode
    var tnode: SbtNode
    var next: TSTNode?
    const name: string
    ghost var score: Score  // always tnode.key

    /** mk_tstn; hash stands for genHash. container_of is the owner field of the two hooks. */
    constructor (name: string, score: Score, nil: SbtNode, hash: string -> nat)
      ensures this.name == name && this.score == score && next == null
      ensures fresh(tnode) && tnode.owner == this && tnode.View() == Cell(null, nil, nil, score, Red)
      ensures fresh(mpnode) && mpnode.owner == this && mpnode.key == name && mpnode.hval == hash(name)
    {
      this.name, this.score, next := name, score, null;
      mpnode := new HNode(name, hash(name), null);
      tnode := new SbtNode(score, nil, null);
      new;
      mpnode := new HNode(name, hash(name), this);
      tnode := new SbtNode(score, nil, this);
    }

    method SetNext(p: TSTNode?, ghost s: set<TSTNode>)
      requires this in s
      modifies this`next
      ensures View(s) == old(View(s))[this := old(View(s)[this]).(next := p)]
    {
      next := p;
    }
  }

  datatype TCell = TCell(next: TSTNode?, tnode: SbtNode, mpnode: HNode, score: Score)

  type TMem = map<TSTNode, TCell>

  ghost function View(s: set<TSTNode>): TMem
    reads s
  {
    map n | n in s :: TCell(n.next, n.tnode, n.mpnode, n.score)
  }

  /** The nodes of v say exactly what the map m from names to scores says. */
  ghost predicate Tells(v: TMem, m: map<string, Score>) {
    && (forall n <- v :: n.name in m && m[n.name] == v[n].score)
    && (forall k <- m :: exists n :: n in v && n.name == k)
  }

  /** One node of its name gets a score, or comes in with it. */
  lemma TellsSet(v: TMem, v': TMem, m: map<string, Score>, n: TSTNode)
    requires Tells(v, m) && v'.Keys == v.Keys + {n}
    requires forall x <- v :: x != n ==> x.name != n.name && v'[x].score == v[x].score
    ensures Tells(v', m[n.name := v'[n].score])
  {
    var m' := m[n.name := v'[n].score];
    forall k | k in m'
      ensures exists x :: x in v' && x.name == k
    {
      if k == n.name {
        assert n in v';
      } else {
        var x :| x in v && x.name == k;
        assert x in v';
      }
    }
  }

  // ---------- one chain ----------

  /** The next links run through s and end there. */
  ghost predicate Linked(v: TMem, s: seq<TSTNode>) {
    s != [] ==>
      && s[0] in v && v[s[0]].next == (if |s| == 1 then null else s[1])
      && Linked(v, s[1..])
  }

  ghost predicate SameScore(v: TMem, s: seq<TSTNode>, k: Score) {
    s != [] ==> s[0] in v && v[s[0]].score == k && SameScore(v, s[1..], k)
  }

  /** s hangs off tree item x. */
  ghost predicate ChainOk(v: TMem, x: Item, s: seq<TSTNode>) {
    && s != [] && s[0] in v && v[s[0]].tnode == x.n
    && Linked(v, s) && SameScore(v, s, x.key)
  }

  ghost predicate SameOff(v: TMem, v': TMem, e: set<TSTNode>) {
    forall n <- v :: n in e || (n in v' && v'[n] == v[n])
  }

  lemma {:induction false} FrameChain(v: TMem, v': TMem, s: seq<TSTNode>, k: Score, e: set<TSTNode>)
    requires SameOff(v, v', e) && forall n <- s :: n !in e
    ensures Linked(v, s) ==> Linked(v', s)
    ensures SameScore(v, s, k) ==> SameScore(v', s, k)
  {
    if s != [] { FrameChain(v, v', s[1..], k, e); }
  }

  // ---------- all chains ----------

  type TChains = seq<seq<TSTNode>>

  ghost predicate ChainsRep(xs: seq<Item>, cs: TChains, v: TMem) {
    && |xs| == |cs|
    && (cs != [] ==> ChainOk(v, xs[0], cs[0]) && ChainsRep(xs[1..], cs[1..], v))
  }

  /** The nodes in score order. */
  function Flat(cs: TChains): seq<TSTNode> {
    if cs == [] then [] else cs[0] + Flat(cs[1..])
  }

  ghost predicate NoDup(s: seq<TSTNode>) {
    forall i, j :: 0 <= i < j < |s| ==> s[i] != s[j]
  }

  lemma {:induction false} FrameRep(xs: seq<Item>, cs: TChains, v: TMem, v': TMem, e: set<TSTNode>)
    requires ChainsRep(xs, cs, v) && SameOff(v, v', e) && forall n <- Flat(cs) :: n !in e
    ensures ChainsRep(xs, cs, v')
  {
    if cs != [] {
      FrameChain(v, v', cs[0], xs[0].key, e);
      FrameRep(xs[1..], cs[1..], v, v', e);
    }
  }

  /** Chain 0 and the others share no node. */
  lemma Disjoint(cs: TChains)
    requires cs != [] && NoDup(Flat(cs))
    ensures NoDup(cs[0]) && NoDup(Flat(cs[1..])) && forall n <- cs[0] :: n !in Flat(cs[1..])
  {
    var a, b := cs[0], Flat(cs[1..]);
    assert forall i :: 0 <= i < |a| ==> (a + b)[i] == a[i];
    assert forall i :: 0 <= i < |b| ==> (a + b)[|a| + i] == b[i];
  }

  /** How many nodes stand before chain i. */
  function Offset(cs: TChains, i: nat): nat
    requires i <= |cs|
  {
    if i == 0 then 0 else |cs[0]| + Offset(cs[1..], i - 1)
  }

  lemma {:induction false} FlatAt(cs: TChains, i: nat, j: nat)
    requires i < |cs| && j < |cs[i]|
    ensures Offset(cs, i) + j < |Flat(cs)| && Flat(cs)[Offset(cs, i) + j] == cs[i][j]
  {
    if i > 0 { FlatAt(cs[1..], i - 1, j); }
  }

  lemma {:induction false} OffsetNext(cs: TChains, i: nat)
    requires i < |cs|
    ensures Offset(cs, i + 1) == Offset(cs, i) + |cs[i]|
    ensures i + 1 == |cs| ==> Offset(cs, i + 1) == |Flat(cs)|
  {
    if i > 0 {
      OffsetNext(cs[1..], i - 1);
    } else if |cs| == 1 {
      assert cs[1..] == [];
    }
  }

  /** The chains before chain i, the last of them first. */
  function Back(cs: TChains, i: nat): seq<TSTNode>
    requires i <= |cs|
  {
    if i == 0 then [] else cs[i - 1] + Back(cs, i - 1)
  }

  /** Element j of chain k comes behind all later chains, and behind j others of its own. */
  lemma {:induction false} BackAt(cs: TChains, i: nat, k: nat, j: nat)
    requires k < i <= |cs| && j < |cs[k]|
    ensures Offset(cs, k) + |cs[k]| == Offset(cs, k + 1) <= Offset(cs, i) == |Back(cs, i)|
    ensures Back(cs, i)[Offset(cs, i) - Offset(cs, k + 1) + j] == cs[k][j]
  {
    OffsetNext(cs, k);
    OffsetNext(cs, i - 1);
    BackLength(cs, i - 1);
    if k < i - 1 { BackAt(cs, i - 1, k, j); }
  }

  lemma {:induction false} BackLength(cs: TChains, i: nat)
    requires i <= |cs|
    ensures |Back(cs, i)| == Offset(cs, i)
  {
    if i > 0 {
      OffsetNext(cs, i - 1);
      BackLength(cs, i - 1);
    }
  }

  /** What a walk backward from element j of chain i meets: the rest of that chain forward, then the chains before. */
  function BackFrom(cs: TChains, i: nat, j: nat): seq<TSTNode>
    requires i < |cs| && j <= |cs[i]|
  {
    cs[i][j..] + Back(cs, i)
  }

  // ---------- insertion ----------

  /** A node of a new score gets a chain of its own, at its place; a node of a known score comes second in the
      chain of that score. */
  function AddTo(cs: TChains, v: TMem, n: TSTNode, k: Score): TChains {
    if cs == [] then [[n]]
    else if cs[0] == [] || cs[0][0] !in v || k < v[cs[0][0]].score then [[n]] + cs
    else if k == v[cs[0][0]].score then [[cs[0][0], n] + cs[0][1..]] + cs[1..]
    else [cs[0]] + AddTo(cs[1..], v, n, k)
  }

  lemma {:induction false} AddNewScore(xs: seq<Item>, cs: TChains, v: TMem, v': TMem, n: TSTNode, k: Score)
    requires ChainsRep(xs, cs, v) && SameOff(v, v', {n}) && n !in Flat(cs)
    requires forall x <- xs :: x.key != k
    requires n in v' && v'[n].next == null && v'[n].score == k
    ensures ChainsRep(SortedInsert(xs, Item(v'[n].tnode, k)), AddTo(cs, v, n, k), v')
  {
    if cs == [] || k < v[cs[0][0]].score {
      FrameRep(xs, cs, v, v', {n});
      var x := Item(v'[n].tnode, k);
      assert ([x] + xs)[1..] == xs && ([[n]] + cs)[1..] == cs;
    } else {
      FrameChain(v, v', cs[0], xs[0].key, {n});
      AddNewScore(xs[1..], cs[1..], v, v', n, k);
      var r, y := AddTo(cs[1..], v, n, k), SortedInsert(xs[1..], Item(v'[n].tnode, k));
      assert ([cs[0]] + r)[1..] == r && ([xs[0]] + y)[1..] == y;
    }
  }

  /** Only the scores of the heads matter to AddTo. */
  lemma {:induction false} SameAdd(cs: TChains, v: TMem, v': TMem, n: TSTNode, k: Score)
    requires forall c <- cs :: c != [] ==> c[0] in v && c[0] in v' && v[c[0]].score == v'[c[0]].score
    ensures AddTo(cs, v, n, k) == AddTo(cs, v', n, k)
  {
    if cs != [] {
      assert cs[0] in cs && forall c <- cs[1..] :: c in cs;
      SameAdd(cs[1..], v, v', n, k);
    }
  }

  /** container_of leads back from the tree hook. */
  ghost predicate Owners(v: TMem) {
    forall m <- v :: v[m].tnode.owner == m
  }

  /** The new node goes behind the head h of the chain of its score, before the rest of that chain. */
  lemma {:induction false} AddKnownScore(xs: seq<Item>, cs: TChains, v: TMem, v': TMem, n: TSTNode, k: Score,
          h: TSTNode)
    requires ChainsRep(xs, cs, v) && SameOff(v, v', {n, h}) && n !in Flat(cs) && NoDup(Flat(cs)) && Owners(v)
    requires Sorted(xs)
    requires h in v && h in v' && Item(v[h].tnode, k) in xs && h != n
    requires n in v' && v'[n].next == v[h].next && v'[n].score == k && v'[h] == v[h].(next := n)
    ensures ChainsRep(xs, AddTo(cs, v, n, k), v')
  {
    Disjoint(cs);
    if xs[0] == Item(v[h].tnode, k) {
      var r := cs[0][1..];
      assert h == cs[0][0];
      assert n !in Flat(cs[1..]) && forall m <- r :: m in cs[0] && m != h;
      FrameChain(v, v', r, k, {n, h});
      FrameRep(xs[1..], cs[1..], v, v', {n, h});
      assert ([h, n] + r)[1..] == [n] + r && ([n] + r)[1..] == r;
      assert ([[h, n] + r] + cs[1..])[1..] == cs[1..];
    } else {
      var i :| 0 < i < |xs| && xs[i] == Item(v[h].tnode, k);
      assert xs[1..][i - 1] == xs[i];
      HeadIn(xs[1..], cs[1..], v, i - 1, h);
      assert forall m <- cs[0] :: m in Flat(cs);
      FrameChain(v, v', cs[0], xs[0].key, {n, h});
      AddKnownScore(xs[1..], cs[1..], v, v', n, k, h);
      var r := AddTo(cs[1..], v, n, k);
      assert ([cs[0]] + r)[1..] == r;
    }
  }

  /** The head of chain i is the owner of tree item i. */
  lemma {:induction false} HeadIn(xs: seq<Item>, cs: TChains, v: TMem, i: nat, h: TSTNode)
    requires ChainsRep(xs, cs, v) && i < |xs| && Owners(v) && h in v && xs[i].n == v[h].tnode
    ensures cs[i] != [] && cs[i][0] == h && h in Flat(cs)
  {
    if i > 0 { HeadIn(xs[1..], cs[1..], v, i - 1, h); }
  }

  /** In the flat order, exactly the new node comes in somewhere. */
  lemma {:induction false} AddFlat(xs: seq<Item>, cs: TChains, v: TMem, n: TSTNode, k: Score) returns (p: nat)
    requires ChainsRep(xs, cs, v)
    ensures p <= |Flat(cs)| && Flat(AddTo(cs, v, n, k)) == Flat(cs)[..p] + [n] + Flat(cs)[p..]
  {
    if cs == [] || k < v[cs[0][0]].score {
      p := 0;
      assert ([[n]] + cs)[1..] == cs;
    } else if k == v[cs[0][0]].score {
      p := 1;
      var a := [cs[0][0], n] + cs[0][1..];
      assert ([a] + cs[1..])[1..] == cs[1..];
      assert a + Flat(cs[1..]) == Flat(cs)[..1] + [n] + Flat(cs)[1..];
    } else {
      var q := AddFlat(xs[1..], cs[1..], v, n, k);
      p := |cs[0]| + q;
      var r := AddTo(cs[1..], v, n, k);
      assert ([cs[0]] + r)[1..] == r;
      assert Flat(cs)[p..] == Flat(cs[1..])[q..] && Flat(cs)[..p] == cs[0] + Flat(cs[1..])[..q];
    }
  }

  lemma InsertNoDup(s: seq<TSTNode>, p: nat, n: TSTNode)
    requires p <= |s| && NoDup(s) && n !in s
    ensures NoDup(s[..p] + [n] + s[p..])
    ensures forall m :: m in s[..p] + [n] + s[p..] <==> m == n || m in s
  {
    var r := s[..p] + [n] + s[p..];
    assert forall i :: 0 <= i < |s| ==> r[if i < p then i else i + 1] == s[i];
    assert forall i :: 0 <= i < |r| && i != p ==> r[i] == s[if i < p then i else i - 1];
  }

  /** The flat order is the order of the scores. */
  lemma {:induction false} FlatSorted(xs: seq<Item>, cs: TChains, v: TMem)
    requires ChainsRep(xs, cs, v) && Sorted(xs)
    ensures forall n <- Flat(cs) :: n in v && exists x <- xs :: v[n].score == x.key
    ensures forall i, j :: 0 <= i < j < |Flat(cs)| ==> v[Flat(cs)[i]].score <= v[Flat(cs)[j]].score
  {
    if cs != [] {
      SameScoreAll(v, cs[0], xs[0].key);
      FlatSorted(xs[1..], cs[1..], v);
      assert forall x <- xs[1..] :: x in xs && xs[0].key < x.key;
      assert xs[0] in xs;
    }
  }

  lemma {:induction false} SameScoreAll(v: TMem, s: seq<TSTNode>, k: Score)
    requires SameScore(v, s, k)
    ensures forall n <- s :: n in v && v[n].score == k
  {
    if s != [] { SameScoreAll(v, s[1..], k); }
  }

  // ---------- removal ----------

  function SeqWithout(s: seq<TSTNode>, n: TSTNode): seq<TSTNode> {
    if s == [] then [] else if s[0] == n then s[1..] else [s[0]] + SeqWithout(s[1..], n)
  }

  /** n leaves its chain, an emptied chain goes. */
  function Omit(cs: TChains, n: TSTNode): TChains {
    if cs == [] then []
    else if n !in cs[0] then [cs[0]] + Omit(cs[1..], n)
    else if |cs[0]| == 1 then cs[1..]
    else [SeqWithout(cs[0], n)] + cs[1..]
  }

  lemma {:induction false} WithoutCat(a: seq<TSTNode>, b: seq<TSTNode>, n: TSTNode)
    ensures n in a ==> SeqWithout(a + b, n) == SeqWithout(a, n) + b
    ensures n !in a ==> SeqWithout(a + b, n) == a + SeqWithout(b, n)
  {
    if a == [] {
      assert a + b == b;
    } else {
      WithoutCat(a[1..], b, n);
      assert (a + b)[1..] == a[1..] + b && (a + b)[0] == a[0];
    }
  }

  lemma {:induction false} OmitFlat(cs: TChains, n: TSTNode)
    ensures Flat(Omit(cs, n)) == SeqWithout(Flat(cs), n)
  {
    if cs != [] {
      WithoutCat(cs[0], Flat(cs[1..]), n);
      if n !in cs[0] {
        OmitFlat(cs[1..], n);
        assert ([cs[0]] + Omit(cs[1..], n))[1..] == Omit(cs[1..], n);
      } else if |cs[0]| == 1 {
        assert SeqWithout(cs[0], n) == [] by { assert cs[0] == [cs[0][0]]; }
      } else {
        assert ([SeqWithout(cs[0], n)] + cs[1..])[1..] == cs[1..];
      }
    }
  }

  lemma {:induction false} WithoutAt(s: seq<TSTNode>, p: nat)
    requires NoDup(s) && p < |s|
    ensures SeqWithout(s, s[p]) == s[..p] + s[p + 1..]
  {
    if p > 0 {
      WithoutAt(s[1..], p - 1);
      assert s[..p] + s[p + 1..] == [s[0]] + (s[1..][..p - 1] + s[1..][p..]);
    }
  }

  lemma WithoutNoDup(s: seq<TSTNode>, n: TSTNode)
    requires NoDup(s) && n in s
    ensures NoDup(SeqWithout(s, n)) && (forall m :: m in SeqWithout(s, n) <==> m in s && m != n)
    ensures |SeqWithout(s, n)| == |s| - 1
  {
    hide SeqWithout;
    var p :| 0 <= p < |s| && s[p] == n;
    WithoutAt(s, p);
    var r := s[..p] + s[p + 1..];
    assert forall i :: 0 <= i < |r| ==> r[i] == s[if i < p then i else i + 1];
    assert forall i :: 0 <= i < |s| && i != p ==> s[i] == r[if i < p then i else i - 1];
  }

  /** The next link of a node of a chain. */
  lemma {:induction false} LinkAt(v: TMem, s: seq<TSTNode>, j: nat)
    requires Linked(v, s) && j < |s|
    ensures s[j] in v && v[s[j]].next == if j + 1 < |s| then s[j + 1] else null
  {
    if j > 0 { LinkAt(v, s[1..], j - 1); }
  }

  /** The only node of chain i goes, with its tree node. */
  lemma {:induction false} OmitSingle(xs: seq<Item>, cs: TChains, v: TMem, v': TMem, i: nat, n: TSTNode)
    requires ChainsRep(xs, cs, v) && SameOff(v, v', {n}) && NoDup(Flat(cs)) && Owners(v)
    requires i < |cs| && cs[i] != [] && cs[i][0] == n && n in v && v[n].next == null
    ensures i < |xs| && ChainsRep(Without(xs, xs[i].n), Omit(cs, n), v')
  {
    Disjoint(cs);
    if i == 0 {
      LinkAt(v, cs[0], 0);
      FrameRep(xs[1..], cs[1..], v, v', {n});
    } else {
      InFlat(cs[1..], i - 1, 0);
      assert n !in cs[0];
      HeadAt(xs, cs, v, i);
      FrameChain(v, v', cs[0], xs[0].key, {n});
      OmitSingle(xs[1..], cs[1..], v, v', i - 1, n);
      var r, y := Omit(cs[1..], n), Without(xs[1..], xs[i].n);
      assert ([cs[0]] + r)[1..] == r && ([xs[0]] + y)[1..] == y;
    }
  }

  lemma {:induction false} InFlat(cs: TChains, i: nat, j: nat)
    requires i < |cs| && j < |cs[i]|
    ensures cs[i][j] in Flat(cs)
  {
    if i > 0 { InFlat(cs[1..], i - 1, j); }
  }

  lemma {:induction false} HeadAt(xs: seq<Item>, cs: TChains, v: TMem, i: nat)
    requires ChainsRep(xs, cs, v) && i < |cs|
    ensures i < |xs| && ChainOk(v, xs[i], cs[i])
  {
    if i > 0 { HeadAt(xs[1..], cs[1..], v, i - 1); }
  }

  /** A node that is not the head of its chain hangs off no tree item. */
  lemma {:induction false} OnlyHeads(xs: seq<Item>, cs: TChains, v: TMem, i: nat, j: nat, k: nat)
    requires ChainsRep(xs, cs, v) && NoDup(Flat(cs)) && Owners(v) && i < |cs| && j < |cs[i]| && k < |xs|
    requires cs[i][j] in v && xs[k].n == v[cs[i][j]].tnode
    ensures k == i && j == 0
  {
    HeadIn(xs, cs, v, k, cs[i][j]);
    Disjoint(cs);
    if i > 0 { InFlat(cs[1..], i - 1, j); }
    if k > 0 { InFlat(cs[1..], k - 1, 0); }
    if i > 0 && k > 0 { OnlyHeads(xs[1..], cs[1..], v, i - 1, j, k - 1); }
  }

  /** The head of chain i goes, the second node takes over its tree place. */
  lemma {:induction false} OmitHead(xs: seq<Item>, cs: TChains, v: TMem, v': TMem, i: nat, n: TSTNode)
    requires ChainsRep(xs, cs, v) && SameOff(v, v', {n}) && NoDup(Flat(cs))
    requires i < |cs| && cs[i] != [] && cs[i][0] == n && n in v && v[n].next != null
    ensures i < |xs| && |cs[i]| > 1 && v[n].next == cs[i][1] && cs[i][1] in v
    ensures ChainsRep(xs[i := Item(v[cs[i][1]].tnode, xs[i].key)], Omit(cs, n), v')
  {
    Disjoint(cs);
    if i == 0 {
      var r := cs[0][1..];
      LinkAt(v, cs[0], 0);
      LinkAt(v, cs[0], 1);
      FrameChain(v, v', r, xs[0].key, {n});
      FrameRep(xs[1..], cs[1..], v, v', {n});
      assert SeqWithout(cs[0], n) == r && ([r] + cs[1..])[1..] == cs[1..];
      assert xs[0 := Item(v[cs[0][1]].tnode, xs[0].key)][1..] == xs[1..];
    } else {
      InFlat(cs[1..], i - 1, 0);
      FrameChain(v, v', cs[0], xs[0].key, {n});
      OmitHead(xs[1..], cs[1..], v, v', i - 1, n);
      var r := Omit(cs[1..], n);
      var y := Item(v[cs[i][1]].tnode, xs[i].key);
      assert ([cs[0]] + r)[1..] == r && xs[i := y][1..] == xs[1..][i - 1 := y];
    }
  }

  /** A later node of chain i is unlinked. */
  lemma {:induction false} OmitInner(xs: seq<Item>, cs: TChains, v: TMem, v': TMem, i: nat, j: nat)
    requires ChainsRep(xs, cs, v) && NoDup(Flat(cs)) && i < |cs| && 0 < j < |cs[i]|
    requires cs[i][j - 1] in v && cs[i][j] in v && SameOff(v, v', {cs[i][j - 1], cs[i][j]})
    requires cs[i][j - 1] in v' && v'[cs[i][j - 1]] == v[cs[i][j - 1]].(next := v[cs[i][j]].next)
    ensures ChainsRep(xs, Omit(cs, cs[i][j]), v')
  {
    var p, n := cs[i][j - 1], cs[i][j];
    Disjoint(cs);
    if i == 0 {
      UnlinkChain(v, v', cs[0], j, xs[0].key);
      FrameRep(xs[1..], cs[1..], v, v', {p, n});
      var r := SeqWithout(cs[0], n);
      assert r[0] == cs[0][0] && ([r] + cs[1..])[1..] == cs[1..];
    } else {
      InFlat(cs[1..], i - 1, j);
      InFlat(cs[1..], i - 1, j - 1);
      FrameChain(v, v', cs[0], xs[0].key, {p, n});
      OmitInner(xs[1..], cs[1..], v, v', i - 1, j);
      var r := Omit(cs[1..], n);
      assert ([cs[0]] + r)[1..] == r;
    }
  }

  lemma {:induction false} UnlinkChain(v: TMem, v': TMem, s: seq<TSTNode>, j: nat, k: Score)
    requires Linked(v, s) && SameScore(v, s, k) && NoDup(s) && 0 < j < |s|
    requires s[j - 1] in v && s[j] in v && SameOff(v, v', {s[j - 1], s[j]})
    requires s[j - 1] in v' && v'[s[j - 1]] == v[s[j - 1]].(next := v[s[j]].next)
    ensures Linked(v', SeqWithout(s, s[j])) && SameScore(v', SeqWithout(s, s[j]), k)
    ensures |SeqWithout(s, s[j])| == |s| - 1 && SeqWithout(s, s[j])[0] == s[0]
  {
    var n, t := s[j], s[1..];
    assert SeqWithout(s, n) == [s[0]] + SeqWithout(t, n);
    assert ([s[0]] + SeqWithout(t, n))[1..] == SeqWithout(t, n);
    if j == 1 {
      assert SeqWithout(t, n) == s[2..];
      LinkAt(v, s, 1);
      FrameChain(v, v', s[2..], k, {s[0], s[1]});
    } else {
      UnlinkChain(v, v', t, j - 1, k);
    }
  }
}
