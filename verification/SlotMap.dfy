/** The string map over a fixed array of slots: a hash set of the pairs in use, and a stack of the slots that
    removed pairs left behind. */
module SlotMaps {
  import opened HashChains
  import opened IntrusiveHash

  const MAX_IMP_ELTS: nat := 1024 * 16

  /** A pair, as it was constructed in slot `slot` of the array. */
  class Pair {
    var node: HNode
    const key: string
    const val: string
    const slot: nat

    constructor (key: string, val: string, slot: nat, hash: string -> nat)
      ensures this.key == key && this.val == val && this.slot == slot
      ensures fresh(node) && node.owner == this && node.key == key && node.hval == hash(key)
    {
      this.key, this.val, this.slot := key, val, slot;
      node := new HNode(key, hash(key), null);
      new;
      node := new HNode(key, hash(key), this);
    }
  }

  ghost predicate NoTwice(s: seq<nat>) {
    forall i, j :: 0 <= i < j < |s| ==> s[i] != s[j]
  }

  /** The slots that are handed out. */
  ghost function Live(used: nat, free: seq<nat>): set<nat> {
    set s | 0 <= s < used && s !in free
  }

  lemma {:induction false} LiveCount(used: nat, free: seq<nat>)
    requires NoTwice(free) && forall s <- free :: s < used
    ensures |Live(used, free)| == used - |free|
  {
    if free == [] {
      AllBelow(used);
    } else {
      var l := |free| - 1;
      assert NoTwice(free[..l]) && free[l] !in free[..l] && forall s <- free[..l] :: s in free;
      LiveCount(used, free[..l]);
      assert free == free[..l] + [free[l]] && free[l] in free && free[l] in Live(used, free[..l]);
      assert Live(used, free) == Live(used, free[..l]) - {free[l]};
    }
  }

  lemma {:induction false} AllBelow(used: nat)
    ensures |Live(used, [])| == used
  {
    if used > 0 {
      AllBelow(used - 1);
      assert Live(used, []) == Live(used - 1, []) + {used - 1};
    }
  }

  // ---------- slots, as values ----------

  /** hooks gives the hash hook of the pair in each live slot. Live and free slots are disjoint and together fill
      [0, used); each live slot holds one pair of the table, each pair of the table sits in one live slot. */
  ghost predicate Fits(e: seq<Pair?>, hooks: map<nat, HNode>, nodes: set<HNode>, used: nat, free: seq<nat>) {
    && used <= |e| && NoTwice(free) && (forall s <- free :: s < used)
    && hooks.Keys == Live(used, free) && |nodes| + |free| == used
    && (forall s <- hooks :: Holds(e, s, hooks[s]) && hooks[s] in nodes)
    && (forall h <- nodes :: h.owner is Pair && (h.owner as Pair).slot in hooks && hooks[(h.owner as Pair).slot] == h)
  }

  /** Slot s holds the pair that h is the hook of. */
  ghost predicate Holds(e: seq<Pair?>, s: nat, h: HNode) {
    s < |e| && e[s] != null && e[s] == h.owner && e[s].slot == s && e[s].key == h.key
  }

  /** The slot that emplace takes: the top of the stack, or the next one never used. */
  function NextSlot(used: nat, free: seq<nat>): nat {
    if free != [] then free[|free| - 1] else used
  }

  function UsedAfter(used: nat, free: seq<nat>): nat {
    if free != [] then used else used + 1
  }

  function FreeAfter(free: seq<nat>): seq<nat> {
    if free != [] then free[..|free| - 1] else []
  }

  /** While the map is not full there is a slot in range, and it is not live. */
  lemma Room(e: seq<Pair?>, hooks: map<nat, HNode>, nodes: set<HNode>, used: nat, free: seq<nat>)
    requires Fits(e, hooks, nodes, used, free) && |nodes| < |e|
    ensures NextSlot(used, free) < |e| && NextSlot(used, free) !in Live(used, free)
  {
    if free != [] { assert free[|free| - 1] in free; }
  }

  lemma LiveNext(used: nat, free: seq<nat>)
    requires NoTwice(free) && forall s <- free :: s < used
    ensures Live(UsedAfter(used, free), FreeAfter(free)) == Live(used, free) + {NextSlot(used, free)}
    ensures NoTwice(FreeAfter(free)) && forall s <- FreeAfter(free) :: s < UsedAfter(used, free)
  {
    if free != [] {
      var l := |free| - 1;
      assert free == free[..l] + [free[l]] && free[l] !in free[..l] && forall s <- free[..l] :: s in free;
    }
  }

  lemma Taken(e: seq<Pair?>, hooks: map<nat, HNode>, nodes: set<HNode>, used: nat, free: seq<nat>, p: Pair, h: HNode)
    requires Fits(e, hooks, nodes, used, free) && |nodes| < |e|
    requires h !in nodes && h.owner == p && h.key == p.key && p.slot == NextSlot(used, free)
    ensures p.slot < |e| && p.slot !in hooks
    ensures Fits(e[p.slot := p], hooks[p.slot := h], nodes + {h}, UsedAfter(used, free), FreeAfter(free))
  {
    Room(e, hooks, nodes, used, free);
    LiveNext(used, free);
  }

  lemma GivenBack(e: seq<Pair?>, hooks: map<nat, HNode>, nodes: set<HNode>, used: nat, free: seq<nat>, p: Pair,
          h: HNode)
    requires Fits(e, hooks, nodes, used, free) && h in nodes && h.owner == p
    ensures p.slot in Live(used, free) && p.key == h.key && Holds(e, p.slot, h)
    ensures Fits(e, hooks - {p.slot}, nodes - {h}, used, free + [p.slot])
    ensures Live(used, free + [p.slot]) == Live(used, free) - {p.slot}
  {
    assert p.slot in hooks && hooks[p.slot] == h;
    assert forall i :: 0 <= i < |free| ==> free[i] in free;
  }

  // ---------- the map, as a value ----------

  /** The pairs of the table say exactly what m says, each key once. */
  ghost predicate Means(nodes: set<HNode>, m: map<string, string>) {
    && (forall h <- nodes :: h.owner is Pair && h.key in m && m[h.key] == (h.owner as Pair).val)
    && (forall k <- m :: exists h :: h in nodes && h.key == k)
    && (forall h <- nodes, g <- nodes :: h.key == g.key ==> h == g)
  }

  lemma MeansMore(nodes: set<HNode>, m: map<string, string>, h: HNode)
    requires Means(nodes, m) && h.owner is Pair && h.key !in m
    ensures Means(nodes + {h}, m[h.key := (h.owner as Pair).val])
  {
    var m' := m[h.key := (h.owner as Pair).val];
    forall k | k in m'
      ensures exists g :: g in nodes + {h} && g.key == k
    {
      if k == h.key {
        assert h in nodes + {h};
      } else {
        var g :| g in nodes && g.key == k;
        assert g in nodes + {h};
      }
    }
  }

  /** With a second pair for a key the table is no map any more. */
  lemma MeansNothing(nodes: set<HNode>, m: map<string, string>, h: HNode)
    requires Means(nodes, m) && h !in nodes && h.key in m
    ensures forall m' :: !Means(nodes + {h}, m')
  {
    var g :| g in nodes && g.key == h.key;
    forall m'
      ensures !Means(nodes + {h}, m')
    {
      assert g in nodes + {h} && h in nodes + {h} && g != h;
    }
  }

  /** A key that no node has is not in the map; the value of one that a node has is the pair's. */
  lemma MeansKey(nodes: set<HNode>, m: map<string, string>, key: string)
    requires Means(nodes, m)
    ensures (forall h <- nodes :: h.key != key) ==> key !in m && m - {key} == m
    ensures forall h <- nodes :: h.owner is Pair && (h.key == key ==> key in m && (h.owner as Pair).val == m[key])
  {
  }

  lemma MeansLess(nodes: set<HNode>, m: map<string, string>, h: HNode)
    requires Means(nodes, m) && h in nodes
    ensures Means(nodes - {h}, m - {h.key})
  {
    var m' := m - {h.key};
    forall k | k in m'
      ensures exists g :: g in nodes - {h} && g.key == k
    {
      var g :| g in nodes && g.key == k;
      assert g in nodes - {h};
    }
  }

  class IntrusiveHashMap {
    const hashFunc: string -> nat
    var table: IHSet
    const elts: array<Pair?>
    var positionsUsed: nat
    var freeList: seq<nat>  // a stack, its top is the last element
    ghost var hooks: map<nat, HNode>

    ghost predicate Valid()
      reads this, elts, table, table.curr, table.prev, table.curr.buckets, table.prev.buckets, table.nodes
    {
      && elts.Length == MAX_IMP_ELTS && table.hash == hashFunc && table.Valid()
      && Fits(elts[..], hooks, table.nodes, positionsUsed, freeList)
    }

    constructor (hashFunc: string -> nat)
      ensures Valid() && this.hashFunc == hashFunc && table.nodes == {} && fresh(elts) && fresh(table)
    {
      this.hashFunc := hashFunc;
      table := new IHSet(hashFunc);
      elts := new Pair?[MAX_IMP_ELTS](_ => null);
      positionsUsed, freeList, hooks := 0, [], map[];
    }

    /** clear; the pairs stay in their slots, but no slot is live any more. */
    method Clear()
      requires Valid()
      modifies this
      ensures Valid() && table.nodes == {} && fresh(table) && positionsUsed == 0 && freeList == []
    {
      table := new IHSet(hashFunc);
      positionsUsed, freeList, hooks := 0, [], map[];
    }

    function GetSize(): nat
      reads this, table, table.curr, table.prev
    {
      table.curr.size + table.prev.size
    }

    function IsFull(): bool
      reads this, table, table.curr, table.prev
    {
      GetSize() == MAX_IMP_ELTS
    }

    /** The sizes agree, so that a map which is not full has a slot in range for one more pair. */
    lemma SizeIs()
      requires Valid()
      ensures GetSize() == |table.nodes| == positionsUsed - |freeList| == |Live(positionsUsed, freeList)|
      ensures elts.Length == 16384 && (IsFull() <==> |table.nodes| == 16384)
      ensures !IsFull() ==> |table.nodes| < elts.Length && NextSlot(positionsUsed, freeList) < elts.Length
      ensures NextSlot(positionsUsed, freeList) !in Live(positionsUsed, freeList)
    {
      table.SizeIs();
      LiveCount(positionsUsed, freeList);
      if !IsFull() {
        Room(elts[..], hooks, table.nodes, positionsUsed, freeList);
      }
    }

    lemma FitsFree()
      requires Valid()
      ensures NoTwice(freeList) && forall s <- freeList :: s < positionsUsed
    {
    }

    lemma FitsPairs()
      requires Valid()
      ensures forall h <- table.nodes :: h.owner is Pair
    {
    }

    /** emplace, which does not look whether the key is there. m is what the map meant before. */
    method Emplace(key: string, val: string, ghost m: map<string, string>) returns (entry: Pair)
      requires Valid() && !IsFull()
      modifies this, elts, table, table.curr, table.prev, table.curr.buckets, table.prev.buckets, table.nodes`next
      ensures Valid() && table == old(table) && table.nodes == old(table.nodes) + {entry.node}
      ensures fresh(entry) && entry.key == key && entry.val == val && entry.slot !in old(Live(positionsUsed, freeList))
      ensures entry.slot < elts.Length && elts[..] == old(elts[..])[entry.slot := entry]
      ensures Live(positionsUsed, freeList) == old(Live(positionsUsed, freeList)) + {entry.slot}
      ensures old(Means(table.nodes, m)) && key !in m ==> Means(table.nodes, m[key := val])
      ensures old(Means(table.nodes, m)) && key in m ==> forall m' :: !Means(table.nodes, m')
    {
      hide IHSet.Valid, Fits, Means, Live;
      SizeIs();
      entry := Occupy(key, val);
      if Means(table.nodes, m) {
        if key !in m {
          MeansMore(table.nodes, m, entry.node);
        } else {
          MeansNothing(table.nodes, m, entry.node);
        }
      }
      table.Insert(entry.node);
    }

    /** The half of emplace that works on the slots. */
    method Occupy(key: string, val: string) returns (entry: Pair)
      requires Valid() && |table.nodes| < elts.Length
      modifies this, elts
      ensures elts.Length == MAX_IMP_ELTS && table.hash == hashFunc && table.Valid() && table == old(table)
      ensures Fits(elts[..], hooks, table.nodes + {entry.node}, positionsUsed, freeList)
      ensures fresh(entry) && fresh(entry.node) && entry.node.owner == entry && entry.node.key == key
      ensures entry.node.hval == hashFunc(key)
      ensures entry.key == key && entry.val == val && entry.slot !in old(Live(positionsUsed, freeList))
      ensures entry.slot < elts.Length && elts[..] == old(elts[..])[entry.slot := entry]
      ensures Live(positionsUsed, freeList) == old(Live(positionsUsed, freeList)) + {entry.slot}
    {
      hide IHSet.Valid, Fits, Live;
      FitsFree();
      LiveNext(positionsUsed, freeList);
      ghost var e, used, free := elts[..], positionsUsed, freeList;
      Room(e, hooks, table.nodes, used, free);
      var slot := NextSlot(positionsUsed, freeList);
      if freeList != [] {
        freeList := freeList[..|freeList| - 1];
      } else {
        positionsUsed := positionsUsed + 1;
      }
      entry := new Pair(key, val, slot, hashFunc);
      elts[slot] := entry;
      assert elts[..] == e[slot := entry];
      Taken(e, hooks, table.nodes, used, free, entry, entry.node);
      hooks := hooks[slot := entry.node];
    }

    /** remove: the slot of the pair that goes is free again. */
    method Remove(key: string, ghost m: map<string, string>) returns (p: Pair?)
      requires Valid()
      modifies this`freeList, this`hooks, table, table.curr, table.prev, table.curr.buckets, table.prev.buckets
      modifies table.nodes`next
      ensures Valid()
      ensures p == null ==>
        table.nodes == old(table.nodes) && freeList == old(freeList) && forall h <- table.nodes :: h.key != key
      ensures p != null ==>
        && p.key == key && p.slot in old(Live(positionsUsed, freeList)) && p.slot < elts.Length && elts[p.slot] == p
        && freeList == old(freeList) + [p.slot]
        && Live(positionsUsed, freeList) == old(Live(positionsUsed, freeList)) - {p.slot}
      ensures old(Means(table.nodes, m)) ==>
        Means(table.nodes, m - {key}) && (p == null <==> key !in m) && (p != null ==> p.val == m[key])
    {
      hide IHSet.Valid, Fits, Means, Live;
      ghost var nodes := table.nodes;
      FitsPairs();
      var found := table.Remove(hashFunc(key), key);
      if found == null {
        if Means(nodes, m) { MeansKey(nodes, m, key); }
        return null;
      }
      p := found.owner as Pair;
      if Means(nodes, m) { MeansLess(nodes, m, found); MeansKey(nodes, m, key); }
      Vacate(p, found, nodes);
    }

    /** The half of remove that works on the slots. */
    method Vacate(p: Pair, ghost h: HNode, ghost nodes: set<HNode>)
      requires Fits(elts[..], hooks, nodes, positionsUsed, freeList) && h in nodes && h.owner == p
      modifies this`freeList, this`hooks
      ensures Fits(elts[..], hooks, nodes - {h}, positionsUsed, freeList) && freeList == old(freeList) + [p.slot]
      ensures p.key == h.key && p.slot < elts.Length && elts[p.slot] == p
      ensures p.slot in old(Live(positionsUsed, freeList))
      ensures Live(positionsUsed, freeList) == old(Live(positionsUsed, freeList)) - {p.slot}
    {
      hide Fits, Live;
      GivenBack(elts[..], hooks, nodes, positionsUsed, freeList, p, h);
      freeList := freeList + [p.slot];
      hooks := hooks - {p.slot};
    }

    /** operator[]; "" stands for no such key. */
    method Get(key: string, ghost m: map<string, string>) returns (val: string)
      requires Valid()
      modifies table, table.curr, table.prev, table.curr.buckets, table.prev.buckets, table.nodes`next
      ensures Valid() && table.nodes == old(table.nodes)
      ensures (exists h <- table.nodes :: h.key == key && h.owner is Pair && (h.owner as Pair).val == val) ||
              (val == "" && forall h <- table.nodes :: h.key != key)
      ensures Means(table.nodes, m) ==> val == if key in m then m[key] else ""
    {
      var node := table.Find(hashFunc(key), key);
      if node == null { return ""; }
      assert Fits(elts[..], hooks, table.nodes, positionsUsed, freeList);
      return (node.owner as Pair).val;
    }

    /** find */
    method Find(key: string, ghost m: map<string, string>) returns (found: bool)
      requires Valid()
      modifies table, table.curr, table.prev, table.curr.buckets, table.prev.buckets, table.nodes`next
      ensures Valid() && table.nodes == old(table.nodes) && (found <==> exists h <- table.nodes :: h.key == key)
      ensures Means(table.nodes, m) ==> found == (key in m)
    {
      var node := table.Find(hashFunc(key), key);
      return node != null;
    }
  }
}
