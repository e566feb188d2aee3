/** The hash set with two live tables: one in use, one being emptied into it, 64 nodes per operation. */
module IntrusiveHash {
  import opened HashChains

  const PREHASH_WORK: nat := 64

  /** A pointer to a pointer to a node: a bucket, or the next field of a node. */
  datatype Slot = Bucket(b: nat) | NextOf(n: HNode)

  ghost function SlotAt(cs: Chains, b: nat, i: nat): Slot
    requires b < |cs| && i < |cs[b]|
  {
    if i == 0 then Bucket(b) else NextOf(cs[b][i - 1])
  }

  // ---------- one table as a value ----------

  datatype Table = Table(live: bool, heads: seq<HNode?>, mask: nat, size: nat, chains: Chains)

  /** The table is {} or has a power-of-two number of buckets, whose chains hold each node once and follow nx. */
  ghost predicate TabOk(v: Table, nx: map<HNode, HNode?>) {
    && Elems(v.chains) <= nx.Keys && v.size == SumLen(v.chains)
    && (if !v.live then v.chains == [] && v.heads == [] && v.mask == 0
        else IsPow2(v.mask + 1) && |v.chains| == v.mask + 1 && TabRep(v.heads, nx, v.chains, 0, v.mask))
  }

  /** The bucket of n is hval & mask. */
  ghost predicate HasBucket(v: Table, n: HNode) {
    BitAnd(n.hval, v.mask) < |v.chains| == |v.heads|
  }

  /** iht_insert */
  ghost function Pushed(v: Table, n: HNode): Table
    requires HasBucket(v, n)
  {
    var b := BitAnd(n.hval, v.mask);
    v.(heads := v.heads[b := n], size := v.size + 1, chains := Push(v.chains, b, n))
  }

  lemma PushedOk(v: Table, nx: map<HNode, HNode?>, n: HNode)
    requires TabOk(v, nx) && v.live && n in nx && n !in Elems(v.chains)
    ensures HasBucket(v, n)
    ensures var nx' := nx[n := v.heads[BitAnd(n.hval, v.mask)]];
      TabOk(Pushed(v, n), nx') && Elems(Pushed(v, n).chains) == Elems(v.chains) + {n}
  {
    MaskBound(n.hval, v.mask);
    var b := BitAnd(n.hval, v.mask);
    var nx', s := nx[n := v.heads[b]], [n] + v.chains[b];
    TabAt(v.heads, nx, v.chains, 0, v.mask, b);
    OnlyThere(v.heads, nx, v.chains, 0, v.mask, b, n);
    FrameChain(nx, nx', v.heads[b], v.chains[b], {n});
    assert s[1..] == v.chains[b];
    assert Members(s) == {n} + Members(v.chains[b]);
    SetChain(v.heads, nx, nx', v.chains, 0, v.mask, b, n, s, {n});
    SumSet(v.chains, b, s);
  }

  /** iht_del of node i of bucket b. */
  ghost function Dropped(v: Table, nx: map<HNode, HNode?>, b: nat, i: nat): (Table, map<HNode, HNode?>)
    requires b < |v.chains| == |v.heads| && i < |v.chains[b]| && v.chains[b][i] in nx && v.size > 0
  {
    var n, w := v.chains[b][i], v.(size := v.size - 1, chains := Drop(v.chains, b, i));
    if i == 0 then (w.(heads := v.heads[b := nx[n]]), nx) else (w, nx[v.chains[b][i - 1] := nx[n]])
  }

  lemma DroppedOk(v: Table, nx: map<HNode, HNode?>, b: nat, i: nat)
    requires TabOk(v, nx) && v.live && b < |v.chains| && i < |v.chains[b]|
    ensures v.chains[b][i] in nx && v.chains[b][i] in Elems(v.chains) && v.size > 0 && |v.heads| == |v.chains|
    ensures if i == 0 then v.heads[b] == v.chains[b][0]
      else v.chains[b][i - 1] in nx && nx[v.chains[b][i - 1]] == v.chains[b][i]
    ensures var (v', nx') := Dropped(v, nx, b, i);
      && TabOk(v', nx') && Elems(v'.chains) == Elems(v.chains) - {v.chains[b][i]}
      && SameOff(nx, nx', Elems(v.chains)) && nx'.Keys == nx.Keys
  {
    var s := v.chains[b];
    TabAt(v.heads, nx, v.chains, 0, v.mask, b);
    ChainLinks(nx, v.heads[b], s, i);
    assert s[i] in Members(s);
    SumSet(v.chains, b, s[..i] + s[i + 1..]);
    if i > 0 { assert s[i - 1] in Members(s); }
    DroppedParts(v, nx, b, i);
  }

  lemma DroppedParts(v: Table, nx: map<HNode, HNode?>, b: nat, i: nat)
    requires TabOk(v, nx) && v.live && b < |v.chains| == |v.heads| && i < |v.chains[b]| && v.chains[b][i] in nx
    requires v.size > 0
    ensures var (v', nx') := Dropped(v, nx, b, i);
      TabRep(v'.heads, nx', v'.chains, 0, v.mask) && Elems(v'.chains) == Elems(v.chains) - {v.chains[b][i]}
  {
    hide SumLen;
    var m, s := v.mask, v.chains[b];
    var r := s[..i] + s[i + 1..];
    TabAt(v.heads, nx, v.chains, 0, m, b);
    ChainLinks(nx, v.heads[b], s, i);
    DropMembers(s, i, b, m);
    if i == 0 {
      assert r == s[1..];
      SetChain(v.heads, nx, nx, v.chains, 0, m, b, nx[s[0]], r, {});
    } else {
      var nx' := nx[s[i - 1] := nx[s[i]]];
      assert s[i - 1] in Members(s) && v.heads[b := v.heads[b]] == v.heads;
      ChainDrop(nx, v.heads[b], s, i);
      SetChain(v.heads, nx, nx', v.chains, 0, m, b, v.heads[b], r, {s[i - 1]});
    }
    assert Elems(Drop(v.chains, b, i)) == Elems(v.chains) - Members(s) + Members(r);
  }

  lemma FrameTable(v: Table, nx: map<HNode, HNode?>, nx': map<HNode, HNode?>, e: set<HNode>)
    requires TabOk(v, nx) && SameOff(nx, nx', e) && e !! Elems(v.chains)
    ensures TabOk(v, nx')
  {
    if v.live { FrameTab(v.heads, nx, nx', v.chains, 0, v.mask, e); }
  }

  class IHTab {
    var buckets: array?<HNode?>
    var mask: nat
    var size: nat
    ghost var chains: Chains

    /** {} */
    constructor ()
      ensures View() == Table(false, [], 0, 0, [])
    {
      buckets, mask, size, chains := null, 0, 0, [];
    }

    ghost function View(): Table
      reads this, buckets
    {
      Table(buckets != null, if buckets == null then [] else buckets[..], mask, size, chains)
    }

    /** The assignment of one table struct to another. */
    method CopyFrom(t: IHTab, ghost s: set<HNode>)
      modifies this
      ensures View() == old(t.View()) && buckets == old(t.buckets) && Nexts(s) == old(Nexts(s))
    {
      buckets, mask, size, chains := t.buckets, t.mask, t.size, t.chains;
    }

    /** free, then {} */
    method Clear(ghost s: set<HNode>)
      modifies this
      ensures View() == Table(false, [], 0, 0, []) && Nexts(s) == old(Nexts(s))
    {
      buckets, mask, size, chains := null, 0, 0, [];
    }

    /** mk_ihtable, without the bplace path */
    method MkTable(n: nat, ghost s: set<HNode>)
      requires IsPow2(n)
      modifies this
      ensures buckets != null && fresh(buckets) && Nexts(s) == old(Nexts(s))
      ensures TabOk(View(), Nexts(s)) && |chains| == n && Elems(chains) == {} && size == 0
    {
      buckets := new HNode?[n](_ => null);
      mask := n - 1;
      size := 0;
      chains := seq(n, _ => []);
      EmptyTable(Nexts(s), buckets[..], chains, 0, mask);
    }

    method SetBucket(pos: nat, node: HNode?, ghost s: set<HNode>)
      requires buckets != null && pos < buckets.Length
      modifies buckets
      ensures View() == old(View()).(heads := old(buckets[..])[pos := node]) && Nexts(s) == old(Nexts(s))
    {
      buckets[pos] := node;
    }

    method SetSize(n: nat, ghost cs: Chains, ghost s: set<HNode>)
      modifies this`size, this`chains
      ensures View() == old(View()).(size := n, chains := cs) && Nexts(s) == old(Nexts(s))
    {
      size := n;
      chains := cs;
    }

    /** iht_insert */
    method Insert(node: HNode, ghost s: set<HNode>)
      requires buckets != null && node in s && HasBucket(View(), node)
      modifies this`size, this`chains, buckets, node`next
      ensures View() == Pushed(old(View()), node) && buckets == old(buckets)
      ensures Nexts(s) == old(Nexts(s))[node := old(buckets[BitAnd(node.hval, mask)])]
    {
      var pos := BitAnd(node.hval, mask);
      node.SetNext(buckets[pos], s);
      SetBucket(pos, node, s);
      SetSize(size + 1, Push(chains, pos, node), s);
    }

    /** iht_get: the slot that points to the first node of the bucket with that hash value and key. */
    method Get(hval: nat, key: string, ghost s: set<HNode>)
      returns (found: bool, slot: Slot, ghost b: nat, ghost i: nat)
      requires TabOk(View(), Nexts(s))
      ensures found ==> b < |chains| && i < |chains[b]| && slot == SlotAt(chains, b, i)
                        && chains[b][i].hval == hval && chains[b][i].key == key
      ensures !found ==> forall n <- Elems(chains) :: !(n.hval == hval && n.key == key)
    {
      found, slot, b, i := false, Bucket(0), 0, 0;
      if buckets == null {
        return;
      }
      MaskBound(hval, mask);
      var pos := BitAnd(hval, mask);
      b := pos;
      slot := Bucket(pos);
      var curr := buckets[pos];
      TabAt(buckets[..], Nexts(s), chains, 0, mask, b);
      while curr != null
        invariant i <= |chains[b]| && (curr == null <==> i == |chains[b]|)
        invariant i < |chains[b]| ==> curr == chains[b][i] && slot == SlotAt(chains, b, i)
        invariant forall j :: 0 <= j < i ==> !(chains[b][j].hval == hval && chains[b][j].key == key)
        decreases |chains[b]| - i
      {
        ChainLinks(Nexts(s), buckets[b], chains[b], i);
        assert chains[b][i] in Nexts(s);
        if curr.hval == hval && curr.key == key {
          found := true;
          return;
        }
        slot := NextOf(curr);
        curr := curr.next;
        i := i + 1;
      }
      forall n | n in Elems(chains)
        ensures !(n.hval == hval && n.key == key)
      {
        if n.hval == hval { OnlyThere(buckets[..], Nexts(s), chains, 0, mask, b, n); }
      }
    }

    function Deref(slot: Slot): HNode?
      reads this, buckets, if slot.NextOf? then {slot.n} else {}
      requires slot.Bucket? ==> buckets != null && slot.b < buckets.Length
    {
      if slot.Bucket? then buckets[slot.b] else slot.n.next
    }

    /** iht_del */
    method Del(target: Slot, ghost s: set<HNode>, ghost b: nat, ghost i: nat) returns (node: HNode)
      requires TabOk(View(), Nexts(s)) && b < |chains| && i < |chains[b]| && target == SlotAt(chains, b, i)
      requires chains[b][i] in s && size > 0
      modifies this`size, this`chains, buckets, s`next
      ensures node == old(chains)[b][i] && buckets == old(buckets)
      ensures (View(), Nexts(s)) == Dropped(old(View()), old(Nexts(s)), b, i)
    {
      hide Elems, TabRep, Drop;
      DroppedOk(View(), Nexts(s), b, i);
      node := Deref(target);
      if target.Bucket? {
        SetBucket(target.b, node.next, s);
      } else {
        target.n.SetNext(node.next, s);
      }
      SetSize(size - 1, Drop(chains, b, i), s);
    }
  }

  // ---------- two tables ----------

  /** Every bucket before pos is empty. */
  ghost predicate EmptyBelow(cs: Chains, pos: nat) {
    pos <= |cs| && forall b :: 0 <= b < pos ==> cs[b] == []
  }

  /** The two tables together hold every node exactly once, in the bucket its hash selects; the older one has half
      as many buckets and is empty below pos. */
  ghost predicate TwoTables(c: Table, p: Table, nx: map<HNode, HNode?>, pos: nat, hash: string -> nat) {
    && TabOk(c, nx) && TabOk(p, nx)
    && nx.Keys == Elems(c.chains) + Elems(p.chains) && Elems(c.chains) !! Elems(p.chains)
    && (forall n <- nx.Keys :: n.hval == hash(n.key))
    && (p.live ==> c.live && |c.chains| == 2 * |p.chains| && EmptyBelow(p.chains, pos))
  }

  /** Before a migration of p buckets that still has `left` of `total` nodes to move is over, at most one node
      comes in for every 64 that move. */
  ghost predicate OnTime(total: int, left: int, p: int) {
    64 * (total - p) + left + 64 <= p
  }

  /** The load bound that holds between operations. */
  ghost predicate Bounded(c: Table, p: Table) {
    if p.live then OnTime(c.size + p.size, p.size, |p.chains|) else c.live ==> c.size < |c.chains|
  }

  /** Between operations the table in use has fewer nodes than buckets, even counting those still to come. */
  lemma LoadFactor(c: Table, p: Table, nx: map<HNode, HNode?>, pos: nat, hash: string -> nat)
    requires TwoTables(c, p, nx, pos, hash) && Bounded(c, p) && c.live
    ensures |nx| == c.size + p.size < |c.chains|
  {
    TableSize(c, nx);
    TableSize(p, nx);
    assert nx.Keys == Elems(c.chains) + Elems(p.chains);
  }

  lemma TableSize(v: Table, nx: map<HNode, HNode?>)
    requires TabOk(v, nx)
    ensures v.size == |Elems(v.chains)|
  {
    if v.live { SizeIsSum(v.heads, nx, v.chains, 0, v.mask); }
  }

  lemma Migrated(c: Table, p: Table, nx: map<HNode, HNode?>, pos: nat, hash: string -> nat, c': Table)
    requires TwoTables(c, p, nx, pos, hash) && c.live && !p.live
    requires TabOk(c', nx) && c'.live && Elems(c'.chains) == {} && |c'.chains| == 2 * |c.chains|
    ensures TwoTables(c', c, nx, 0, hash)
  {
  }

  /** A new node goes into the table in use. */
  lemma Inserted(c: Table, p: Table, nx: map<HNode, HNode?>, pos: nat, hash: string -> nat, n: HNode, x: HNode?)
    requires TwoTables(c, p, nx, pos, hash) && c.live && n !in nx && n.hval == hash(n.key)
    ensures TabOk(c, nx[n := x]) && HasBucket(c, n)
    ensures TwoTables(Pushed(c, n), p, nx[n := x][n := c.heads[BitAnd(n.hval, c.mask)]], pos, hash)
  {
    var big := nx[n := x];
    FrameTable(c, nx, big, {n});
    PushedOk(c, big, n);
    Takes(c, p, nx, big[n := c.heads[BitAnd(n.hval, c.mask)]], pos, hash, n);
  }

  lemma Takes(c: Table, p: Table, nx: map<HNode, HNode?>, nx': map<HNode, HNode?>, pos: nat, hash: string -> nat,
          n: HNode)
    requires TwoTables(c, p, nx, pos, hash) && c.live && n !in nx && n.hval == hash(n.key)
    requires nx'.Keys == nx.Keys + {n} && SameOff(nx, nx', {n}) && HasBucket(c, n)
    requires TabOk(Pushed(c, n), nx') && Elems(Pushed(c, n).chains) == Elems(c.chains) + {n}
    ensures TwoTables(Pushed(c, n), p, nx', pos, hash)
  {
    FrameTable(p, nx, nx', {n});
  }

  /** A node of the older table leaves it: the state in the middle of a move, or after a removal. */
  lemma Leaves(c: Table, p: Table, nx: map<HNode, HNode?>, pos: nat, hash: string -> nat, b: nat, i: nat)
    requires TwoTables(c, p, nx, pos, hash) && p.live && b < |p.chains| && i < |p.chains[b]|
    ensures p.chains[b][i] in nx && p.chains[b][i] in Elems(p.chains) && p.size > 0 && |p.heads| == |p.chains|
    ensures var (p', nx') := Dropped(p, nx, b, i);
      TabOk(p', nx') && TabOk(c, nx') && p'.live && EmptyBelow(p'.chains, pos) && |p'.chains| == |p.chains|
      && Elems(p'.chains) == Elems(p.chains) - {p.chains[b][i]} && nx'.Keys == nx.Keys
  {
    DroppedOk(p, nx, b, i);
    var (p', nx') := Dropped(p, nx, b, i);
    FrameTable(c, nx, nx', Elems(p.chains));
  }

  /** A node leaves the set, from either table. */
  lemma Removed(c: Table, p: Table, nx: map<HNode, HNode?>, pos: nat, hash: string -> nat, b: nat, i: nat)
    requires TwoTables(c, p, nx, pos, hash) && p.live && b < |p.chains| && i < |p.chains[b]|
    ensures p.chains[b][i] in nx && p.size > 0
    ensures var (p', nx') := Dropped(p, nx, b, i); TwoTables(c, p', nx' - {p.chains[b][i]}, pos, hash)
  {
    Leaves(c, p, nx, pos, hash, b, i);
    var (p', nx') := Dropped(p, nx, b, i);
    var n := p.chains[b][i];
    FrameTable(c, nx', nx' - {n}, {n});
    FrameTable(p', nx', nx' - {n}, {n});
  }

  lemma RemovedCurr(c: Table, p: Table, nx: map<HNode, HNode?>, pos: nat, hash: string -> nat, b: nat, i: nat)
    requires TwoTables(c, p, nx, pos, hash) && c.live && b < |c.chains| && i < |c.chains[b]|
    ensures c.chains[b][i] in nx && c.size > 0
    ensures var (c', nx') := Dropped(c, nx, b, i); TwoTables(c', p, nx' - {c.chains[b][i]}, pos, hash)
  {
    DroppedOk(c, nx, b, i);
    var (c', nx') := Dropped(c, nx, b, i);
    var n := c.chains[b][i];
    FrameTable(p, nx, nx', Elems(c.chains));
    FrameTable(p, nx', nx' - {n}, {n});
    FrameTable(c', nx', nx' - {n}, {n});
  }

  /** One move: the first node of the older table's bucket at pos goes over, the whole stays what it was. */
  lemma Moved(c: Table, p: Table, nx: map<HNode, HNode?>, pos: nat, hash: string -> nat)
    requires TwoTables(c, p, nx, pos, hash) && p.live && pos < |p.chains| && p.chains[pos] != []
    ensures p.chains[pos][0] in nx && p.size > 0 && p.heads[pos] == p.chains[pos][0] && HasBucket(c, p.chains[pos][0])
    ensures var n := p.chains[pos][0];
      var (p', nx1) := Dropped(p, nx, pos, 0);
      && TabOk(c, nx1)
      && TwoTables(Pushed(c, n), p', nx1[n := c.heads[BitAnd(n.hval, c.mask)]], pos, hash)
  {
    hide TabOk, Elems, EmptyBelow, BitAnd;
    var n := p.chains[pos][0];
    DroppedOk(p, nx, pos, 0);
    Leaves(c, p, nx, pos, hash, pos, 0);
    var (p', nx1) := Dropped(p, nx, pos, 0);
    PushedOk(c, nx1, n);
    FrameTable(p', nx1, nx1[n := c.heads[BitAnd(n.hval, c.mask)]], {n});
  }

  class IHSet {
    const hash: string -> nat
    const curr: IHTab
    const prev: IHTab
    var migratePos: nat
    ghost var nodes: set<HNode>

    ghost predicate Wired()
      reads this, curr, prev, curr.buckets, prev.buckets, nodes
    {
      && curr != prev && (curr.buckets != null ==> curr.buckets != prev.buckets)
      && TwoTables(curr.View(), prev.View(), Nexts(nodes), migratePos, hash)
    }

    /** The set is well-formed and its load bound holds. */
    ghost predicate Valid()
      reads this, curr, prev, curr.buckets, prev.buckets, nodes
    {
      exists k :: Sized(k)
    }

    /** Valid, with 8 * 2^k buckets in use. */
    ghost predicate Sized(k: nat)
      reads this, curr, prev, curr.buckets, prev.buckets, nodes
    {
      Wired() && Bounded(curr.View(), prev.View()) && (curr.buckets != null ==> |curr.chains| == BucketCount(k))
    }

    /** The size that ts_size and get_size compute is the number of nodes; the table in use is never full. */
    lemma SizeIs()
      requires Valid()
      ensures curr.size + prev.size == |nodes|
      ensures curr.buckets != null ==> |nodes| < curr.buckets.Length
    {
      var c, p, nx := curr.View(), prev.View(), Nexts(nodes);
      TableSize(c, nx);
      TableSize(p, nx);
      assert nx.Keys == nodes == Elems(c.chains) + Elems(p.chains);
      if c.live { LoadFactor(c, p, nx, migratePos, hash); }
    }

    /** Whoever touches neither the set nor what it owns keeps it valid. */
    twostate lemma Kept()
      requires old(Valid()) && unchanged(this, curr, prev) && unchanged(nodes)
      requires curr.buckets != null ==> unchanged(curr.buckets)
      requires prev.buckets != null ==> unchanged(prev.buckets)
      ensures Valid()
    {
      assert Nexts(nodes) == old(Nexts(nodes)) && curr.View() == old(curr.View()) && prev.View() == old(prev.View());
    }

    /** The state that clear() makes: {}. */
    constructor (hash: string -> nat)
      ensures Valid() && nodes == {} && this.hash == hash && fresh(curr) && fresh(prev) && curr.buckets == null
      ensures prev.buckets == null
    {
      this.hash := hash;
      curr := new IHTab();
      prev := new IHTab();
      migratePos := 0;
      nodes := {};
      new;
      assert Sized(0);
    }

    /** tmigrate */
    method TMigrate()
      requires Wired() && prev.buckets == null && curr.buckets != null
      modifies this`migratePos, curr, prev
      ensures Wired() && prev.buckets == old(curr.buckets) && fresh(curr.buckets)
      ensures prev.View() == old(curr.View()) && curr.size == 0 && migratePos == 0
    {
      ghost var c, p, nx, pos := curr.View(), prev.View(), Nexts(nodes), migratePos;
      var n := (curr.mask + 1) * 2;
      assert IsPow2(n) by { assert n / 2 == curr.mask + 1; }
      migratePos := 0;
      prev.CopyFrom(curr, nodes);
      curr.MkTable(n, nodes);
      assert prev.View() == c;
      Migrated(c, p, nx, pos, hash, curr.View());
    }

    /** One node moves from the older table to the one in use. */
    method MoveOne()
      requires Wired() && prev.buckets != null && migratePos < prev.buckets.Length && prev.buckets[migratePos] != null
      modifies curr, prev, curr.buckets, prev.buckets, nodes`next
      ensures Wired() && curr.buckets == old(curr.buckets) && prev.buckets == old(prev.buckets)
      ensures curr.size == old(curr.size) + 1 && prev.size == old(prev.size) - 1
      ensures |curr.chains| == old(|curr.chains|) && |prev.chains| == old(|prev.chains|)
    {
      ghost var c, p, nx, pos := curr.View(), prev.View(), Nexts(nodes), migratePos;
      TabAt(p.heads, nx, p.chains, 0, p.mask, pos);
      Moved(c, p, nx, pos, hash);
      var n := prev.Del(Bucket(migratePos), nodes, migratePos, 0);
      assert curr.View() == c;
      curr.Insert(n, nodes);
    }

    /** An empty bucket is passed over. */
    method SkipBucket()
      requires Wired() && prev.buckets != null && migratePos < prev.buckets.Length && prev.buckets[migratePos] == null
      modifies this`migratePos
      ensures Wired() && migratePos == old(migratePos) + 1
    {
      hide Elems;
      ghost var c, p, nx := curr.View(), prev.View(), Nexts(nodes);
      TabAt(p.heads, nx, p.chains, 0, p.mask, migratePos);
      migratePos := migratePos + 1;
      assert curr.View() == c && prev.View() == p && Nexts(nodes) == nx;
    }

    /** ihs_prehash: up to 64 nodes move; an emptied table is freed. The test at line 102 must look at the bucket,
        as src/kvt_set.cpp:108-112 does. */
    method Prehash()
      requires Wired()
      modifies this`migratePos, curr, prev, curr.buckets, prev.buckets, nodes`next
      ensures Wired() && curr.buckets == old(curr.buckets) && |curr.chains| == old(|curr.chains|)
      ensures old(prev.buckets) == null ==> prev.buckets == null && curr.size == old(curr.size)
      ensures old(prev.buckets) != null && old(prev.size) <= 64 ==>
                prev.buckets == null && curr.size == old(curr.size + prev.size)
      ensures old(prev.buckets) != null && old(prev.size) > 64 ==>
                && prev.buckets == old(prev.buckets) && |prev.chains| == old(|prev.chains|)
                && prev.size == old(prev.size) - 64 && curr.size == old(curr.size) + 64
    {
      ghost var left, had := prev.size, curr.size;
      var work := 0;
      while work < PREHASH_WORK && prev.size > 0
        invariant Wired() && curr.buckets == old(curr.buckets) && prev.buckets == old(prev.buckets)
        invariant |curr.chains| == old(|curr.chains|) && |prev.chains| == old(|prev.chains|)
        invariant work <= PREHASH_WORK && prev.size == left - work && curr.size == had + work
        decreases prev.size, |prev.chains| - migratePos
      {
        SomeBucket(prev.chains, migratePos);
        if prev.buckets[migratePos] == null {
          SkipBucket();
          continue;
        }
        MoveOne();
        work := work + 1;
      }
      if prev.size == 0 && prev.buckets != null {
        FreePrev();
      }
    }

    method FreePrev()
      requires Wired() && prev.size == 0
      modifies prev
      ensures Wired() && prev.buckets == null && prev.size == 0
    {
      ghost var c, p, nx := curr.View(), prev.View(), Nexts(nodes);
      TableSize(p, nx);
      prev.Clear(nodes);
      assert curr.View() == c && Nexts(nodes) == nx;
    }

    /** The bucket arrays are the old ones or new; nothing else that the set owns is. */
    twostate predicate Owns()
      reads this, curr, prev
    {
      && (curr.buckets == null || curr.buckets == old(curr.buckets) || fresh(curr.buckets))
      && (prev.buckets == null || prev.buckets == old(prev.buckets) || prev.buckets == old(curr.buckets)
            || fresh(prev.buckets))
    }

    twostate lemma OwnsMeans()
      ensures Owns() <==>
        && (curr.buckets == null || curr.buckets == old(curr.buckets) || fresh(curr.buckets))
        && (prev.buckets == null || prev.buckets == old(prev.buckets) || prev.buckets == old(curr.buckets)
            || fresh(prev.buckets))
    {
    }

    /** ihs_find: some node with that key, if there is one. Nodes may move, the set does not change. */
    method Find(hval: nat, key: string) returns (r: HNode?)
      requires Valid() && hval == hash(key)
      modifies this, curr, prev, curr.buckets, prev.buckets, nodes`next
      ensures Valid() && Owns() && nodes == old(nodes)
      ensures r == null ==> forall n <- nodes :: n.key != key
      ensures r != null ==> r in nodes && r.key == key
    {
      hide Elems;
      hide TabOk;
      ghost var k: nat :| Sized(k);
      Prehash();
      assert Sized(k);
      var found, slot;
      ghost var b, i;
      found, slot, b, i := curr.Get(hval, key, nodes);
      if found {
        LinkAt(curr, b, i);
        return curr.Deref(slot);
      }
      found, slot, b, i := prev.Get(hval, key, nodes);
      if found {
        LinkAt(prev, b, i);
        return prev.Deref(slot);
      }
      r := null;
    }

    /** A slot that Get found points to the node it found. */
    lemma LinkAt(t: IHTab, b: nat, i: nat)
      requires TabOk(t.View(), Nexts(nodes)) && b < |t.chains| && i < |t.chains[b]|
      ensures t.buckets != null && t.chains[b][i] in nodes && t.chains[b][i] in Elems(t.chains) && t.size > 0
      ensures var s := SlotAt(t.chains, b, i);
        (s.Bucket? ==> s.b < t.buckets.Length) && t.Deref(s) == t.chains[b][i]
    {
      ghost var nx := Nexts(nodes);
      DroppedOk(t.View(), nx, b, i);
      if i > 0 { assert nx[t.chains[b][i - 1]] == t.chains[b][i - 1].next; }
    }

    /** ihs_del: one node with that key goes, if there is one. */
    method Remove(hval: nat, key: string) returns (r: HNode?)
      requires Valid() && hval == hash(key)
      modifies this, curr, prev, curr.buckets, prev.buckets, nodes`next
      ensures Valid() && Owns()
      ensures r == null ==> nodes == old(nodes) && forall n <- nodes :: n.key != key
      ensures r != null ==> r in old(nodes) && r.key == key && nodes == old(nodes) - {r}
    {
      ghost var k: nat :| Sized(k);
      Prehash();
      assert Sized(k);
      r := RemoveFrom(hval, key);
    }

    /** ihs_del after its rehashing step. */
    method RemoveFrom(hval: nat, key: string) returns (r: HNode?)
      requires Valid() && hval == hash(key)
      modifies this`nodes, curr, curr.buckets, prev, prev.buckets, nodes`next
      ensures Valid() && curr.buckets == old(curr.buckets) && prev.buckets == old(prev.buckets)
      ensures r == null ==> nodes == old(nodes) && forall n <- nodes :: n.key != key
      ensures r != null ==> r in old(nodes) && r.key == key && nodes == old(nodes) - {r}
    {
      var found, slot;
      ghost var b, i;
      found, slot, b, i := curr.Get(hval, key, nodes);
      if found {
        r := RemoveCurr(slot, b, i);
        return;
      }
      found, slot, b, i := prev.Get(hval, key, nodes);
      if found {
        r := RemovePrev(slot, b, i);
        return;
      }
      r := null;
    }

    method RemoveCurr(slot: Slot, ghost b: nat, ghost i: nat) returns (n: HNode)
      requires Valid() && b < |curr.chains| && i < |curr.chains[b]| && slot == SlotAt(curr.chains, b, i)
      modifies this`nodes, curr, curr.buckets, nodes`next
      ensures Valid() && n == old(curr.chains)[b][i] && nodes == old(nodes) - {n} && n in old(nodes)
      ensures curr.buckets == old(curr.buckets) && prev.buckets == old(prev.buckets)
    {
      ghost var c, p, nx, pos := curr.View(), prev.View(), Nexts(nodes), migratePos;
      ghost var k: nat :| Sized(k);
      LinkAt(curr, b, i);
      RemovedCurr(c, p, nx, pos, hash, b, i);
      n := curr.Del(slot, nodes, b, i);
      assert prev.View() == p;
      DropNode(n);
      assert Sized(k);
    }

    method RemovePrev(slot: Slot, ghost b: nat, ghost i: nat) returns (n: HNode)
      requires Valid() && b < |prev.chains| && i < |prev.chains[b]| && slot == SlotAt(prev.chains, b, i)
      modifies this`nodes, prev, prev.buckets, nodes`next
      ensures Valid() && n == old(prev.chains)[b][i] && nodes == old(nodes) - {n} && n in old(nodes)
      ensures curr.buckets == old(curr.buckets) && prev.buckets == old(prev.buckets)
    {
      ghost var c, p, nx, pos := curr.View(), prev.View(), Nexts(nodes), migratePos;
      ghost var k: nat :| Sized(k);
      LinkAt(prev, b, i);
      Removed(c, p, nx, pos, hash, b, i);
      n := prev.Del(slot, nodes, b, i);
      assert curr.View() == c;
      DropNode(n);
      assert Sized(k);
    }

    ghost method DropNode(n: HNode)
      modifies this`nodes
      ensures nodes == old(nodes) - {n} && Nexts(nodes) == old(Nexts(nodes)) - {n}
      ensures curr.View() == old(curr.View()) && prev.View() == old(prev.View())
    {
      nodes := nodes - {n};
    }

    /** ihs_insert */
    method Insert(node: HNode)
      requires Valid() && node !in nodes && node.hval == hash(node.key)
      modifies this, curr, prev, curr.buckets, prev.buckets, nodes`next, node`next
      ensures Valid() && Owns() && nodes == old(nodes) + {node}
    {
      if curr.buckets == null {
        FirstTable();
      }
      InsertInto(node);
    }

    method InsertInto(node: HNode)
      requires Valid() && curr.buckets != null && node !in nodes && node.hval == hash(node.key)
      modifies this, curr, prev, curr.buckets, prev.buckets, nodes`next, node`next
      ensures Valid() && nodes == old(nodes) + {node}
      ensures curr.buckets == old(curr.buckets) || fresh(curr.buckets)
      ensures prev.buckets == null || prev.buckets == old(prev.buckets) || prev.buckets == old(curr.buckets)
    {
      ghost var k: nat :| Sized(k);
      InsertCurr(node);
      Settle(k);
    }

    /** ihs_insert after the new node is in: migrate when full, then rehash. */
    method Settle(ghost k: nat)
      requires Wired() && curr.buckets != null && |curr.chains| == BucketCount(k)
      requires if prev.buckets == null then curr.size <= |curr.chains|
               else OnTime(curr.size + prev.size - 1, prev.size, |prev.chains|)
      modifies this`migratePos, curr, prev, curr.buckets, prev.buckets, nodes`next
      ensures Valid()
      ensures curr.buckets == old(curr.buckets) || fresh(curr.buckets)
      ensures prev.buckets == null || prev.buckets == old(prev.buckets) || prev.buckets == old(curr.buckets)
    {
      ghost var full := prev.buckets == null && curr.size == |curr.chains|;
      MigrateIfFull();
      Prehash();
      assert Sized(if full then k + 1 else k);
    }

    /** A full table becomes the older one; it then holds exactly as many nodes as it has buckets. */
    method MigrateIfFull()
      requires Wired() && curr.buckets != null
      requires prev.buckets == null ==> curr.size <= |curr.chains|
      modifies this`migratePos, curr, prev
      ensures Wired() && (if old(prev.buckets) == null && old(curr.size) == old(|curr.chains|) then
        && prev.buckets == old(curr.buckets) && fresh(curr.buckets)
        && |prev.chains| == old(|curr.chains|) && |curr.chains| == 2 * |prev.chains|
        && prev.size == |prev.chains| && curr.size == 0
      else
        && prev.buckets == old(prev.buckets) && curr.buckets == old(curr.buckets)
        && curr.View() == old(curr.View()) && prev.View() == old(prev.View()))
    {
      if prev.buckets == null {  // only migrate if the previous bucket set is empty
        var newBuckets := (curr.mask + 1) * 1;  // ihs_load is 1
        if curr.size >= newBuckets {
          TMigrate();
        }
      }
    }

    method FirstTable()
      requires Valid() && curr.buckets == null
      modifies curr
      ensures Valid() && curr.buckets != null && fresh(curr.buckets) && prev.buckets == null && curr.size == 0
    {
      ghost var p := prev.View();
      CountIsPow2(0);
      curr.MkTable(8, nodes);
      assert prev.View() == p;
      assert Sized(0);
    }

    method InsertCurr(node: HNode)
      requires Wired() && curr.buckets != null && node !in nodes && node.hval == hash(node.key)
      modifies this`nodes, curr, curr.buckets, node`next
      ensures Wired() && nodes == old(nodes) + {node} && curr.size == old(curr.size) + 1
      ensures curr.buckets == old(curr.buckets) && |curr.chains| == old(|curr.chains|)
    {
      ghost var c, p, nx, pos := curr.View(), prev.View(), Nexts(nodes), migratePos;
      Inserted(c, p, nx, pos, hash, node, node.next);
      AddNode(node);
      curr.Insert(node, nodes);
      assert prev.View() == p;
    }

    ghost method AddNode(n: HNode)
      modifies this`nodes
      ensures nodes == old(nodes) + {n} && Nexts(nodes) == old(Nexts(nodes))[n := old(n.next)]
      ensures curr.View() == old(curr.View()) && prev.View() == old(prev.View())
    {
      nodes := nodes + {n};
    }
  }
}
