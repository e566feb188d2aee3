/** Where the text of the hash set departs from the model above: what the text does instead, an input on which that
    goes wrong, and exactly when it does not. */
module HashAsWritten {
  import opened HashChains
  import opened IntrusiveHash

  // ---------- src/hash.cpp:100-109: ihs_prehash ----------

  /** ihs_prehash tests the address of a bucket, which is never null, so it takes node after node out of the bucket at
      migrate_pos. True when it never takes one out of an empty bucket. */
  predicate PrehashText(bucket: seq<HNode>, size: nat, work: nat)
    decreases size
  {
    if work >= PREHASH_WORK || size == 0 then true
    else bucket != [] && PrehashText(bucket[1..], size - 1, work + 1)
  }

  lemma {:induction false} PrehashTextIff(bucket: seq<HNode>, size: nat, work: nat)
    requires work <= PREHASH_WORK
    ensures PrehashText(bucket, size, work) <==> |bucket| >= size || |bucket| >= PREHASH_WORK - work
    decreases size
  {
    if work < PREHASH_WORK && size > 0 && bucket != [] {
      PrehashTextIff(bucket[1..], size - 1, work + 1);
    }
  }

  // A full table of eight buckets with one node each, just migrated: the second node is out of reach.

  ghost function Singles(ns: seq<HNode>): Chains {
    if ns == [] then [] else [[ns[0]]] + Singles(ns[1..])
  }

  lemma {:induction false} SinglesRep(ns: seq<HNode>, nx: map<HNode, HNode?>, b: nat, m: nat)
    requires forall i :: 0 <= i < |ns| ==> ns[i] in nx && nx[ns[i]] == null && BitAnd(ns[i].hval, m) == b + i
    ensures TabRep(ns, nx, Singles(ns), b, m) && Elems(Singles(ns)) == (set n | n in ns)
    ensures SumLen(Singles(ns)) == |Singles(ns)| == |ns| && (ns != [] ==> Singles(ns)[0] == [ns[0]])
  {
    if ns != [] {
      SinglesRep(ns[1..], nx, b + 1, m);
      var cs := Singles(ns);
      assert cs[1..] == Singles(ns[1..]) && cs[0] == [ns[0]] && [ns[0]][1..] == [];
      assert Members([ns[0]]) == {ns[0]};
    }
  }

  ghost function NoLinks(ns: seq<HNode>): map<HNode, HNode?> {
    map n | n in ns :: null
  }

  /** The table with the nodes ns, and the empty table that a migration puts beside it. */
  ghost function FullTable(ns: seq<HNode>): Table {
    Table(true, ns, 7, |ns|, Singles(ns))
  }

  ghost function NewTable(): Table {
    Table(true, seq(16, _ => null), 15, 0, seq(16, _ => []))
  }

  lemma FullTableOk(ns: seq<HNode>)
    requires |ns| == 8 && forall i :: 0 <= i < 8 ==> ns[i].hval == i
    ensures TabOk(FullTable(ns), NoLinks(ns)) && Elems(FullTable(ns).chains) == NoLinks(ns).Keys
    ensures |FullTable(ns).chains| == 8 && FullTable(ns).chains[0] == [ns[0]]
  {
    hide TabRep, Elems, SumLen, BitAnd, Singles;
    CountIsPow2(0);
    forall i | 0 <= i < 8
      ensures BitAnd(ns[i].hval, 7) == i
    {
      MaskIsMod(i, 8);
    }
    SinglesRep(ns, NoLinks(ns), 0, 7);
  }

  lemma NewTableOk(nx: map<HNode, HNode?>)
    ensures TabOk(NewTable(), nx) && Elems(NewTable().chains) == {}
  {
    hide TabRep, Elems, SumLen;
    CountIsPow2(1);
    EmptyTable(nx, NewTable().heads, NewTable().chains, 0, 15);
  }

  lemma PrehashExample(ns: seq<HNode>, hash: string -> nat)
    requires |ns| == 8 && forall i :: 0 <= i < 8 ==> ns[i].hval == i == hash(ns[i].key)
    ensures TwoTables(NewTable(), FullTable(ns), NoLinks(ns), 0, hash)
    ensures !PrehashText(FullTable(ns).chains[0], FullTable(ns).size, 0)
  {
    hide TabOk, Elems, Singles, PrehashText;
    FullTableOk(ns);
    NewTableOk(NoLinks(ns));
    PrehashTextIff([ns[0]], 8, 0);
  }
}
