/** Bucket chains as values: what the tables hold, and what insertion and removal do to them. */
module HashChains {

  /** The hook that an element carries: `key` is what the equality function reads through container_of. */
  class HNode {
    var next: HNode?
    const hval: nat
    const key: string
    const owner: object?

    constructor (key: string, hval: nat, owner: object?)
      ensures this.key == key && this.hval == hval && this.owner == owner
    {
      this.next, this.key, this.hval, this.owner := null, key, hval, owner;
    }

    method SetNext(p: HNode?, ghost s: set<HNode>)
      requires this in s
      modifies this`next
      ensures Nexts(s) == old(Nexts(s))[this := p]
    {
      next := p;
    }
  }

  ghost function Nexts(s: set<HNode>): map<HNode, HNode?>
    reads s
  {
    map n | n in s :: n.next
  }

  type Chains = seq<seq<HNode>>

  // ---------- the bucket of a hash value ----------

  function BitAnd(a: nat, b: nat): nat {
    if a == 0 || b == 0 then 0
    else (if a % 2 == 1 && b % 2 == 1 then 1 else 0) + 2 * BitAnd(a / 2, b / 2)
  }

  predicate IsPow2(n: nat) {
    n == 1 || (n > 1 && n % 2 == 0 && IsPow2(n / 2))
  }

  /** The bucket counts a table can have: 8, and twice as many after every migration. */
  function BucketCount(k: nat): nat
    ensures BucketCount(k) >= 8
  {
    if k == 0 then 8 else 2 * BucketCount(k - 1)
  }

  lemma {:induction false} CountIsPow2(k: nat)
    ensures IsPow2(BucketCount(k))
  {
    if k == 0 {
      assert IsPow2(4);
    } else {
      CountIsPow2(k - 1);
    }
  }

  /** hval & mask is hval modulo the bucket count, because that is a power of two. */
  lemma {:induction false} MaskIsMod(h: nat, n: nat)
    requires IsPow2(n)
    ensures BitAnd(h, n - 1) == h % n
  {
    if n > 1 && h > 0 {
      hide BitAnd;
      MaskIsMod(h / 2, n / 2);
      MaskStep(h, n / 2);
    } else {
      NoBits(h, n);
    }
  }

  lemma NoBits(h: nat, n: nat)
    requires n == 1 || (n > 0 && h == 0)
    ensures BitAnd(h, n - 1) == 0 == h % n
  {
  }

  lemma MaskStep(h: nat, k: nat)
    requires h > 0 && k > 0 && BitAnd(h / 2, k - 1) == (h / 2) % k
    ensures BitAnd(h, 2 * k - 1) == h % (2 * k)
  {
    hide BitAnd;
    AndStep(h, k);
    ModHalf(h, k);
  }

  lemma {:induction false} MaskBound(a: nat, b: nat)
    ensures BitAnd(a, b) <= b
  {
    if a > 0 && b > 0 { MaskBound(a / 2, b / 2); }
  }

  lemma AndStep(h: nat, k: nat)
    requires h > 0 && k > 0
    ensures BitAnd(h, 2 * k - 1) == h % 2 + 2 * BitAnd(h / 2, k - 1)
  {
    assert (2 * k - 1) / 2 == k - 1 && (2 * k - 1) % 2 == 1;
  }

  lemma ModHalf(h: nat, k: nat)
    requires k > 0
    ensures h % (2 * k) == h % 2 + 2 * ((h / 2) % k)
  {
    var a := h / 2;
    var q, r := a / k, a % k;
    assert a == k * q + r;
    assert h == 2 * (k * q) + (h % 2 + 2 * r);
    assert 2 * (k * q) == (2 * k) * q;
    ModUnique(h, 2 * k, q, h % 2 + 2 * r);
  }

  lemma ModUnique(h: nat, m: nat, q: nat, r: nat)
    requires m > 0 && r < m && h == m * q + r
    ensures h % m == r
  {
    var q', r' := h / m, h % m;
    assert h == m * q' + r';
    if q < q' {
      Multiple(m, q, q');
    } else if q' < q {
      Multiple(m, q', q);
    }
  }

  lemma Multiple(m: nat, a: nat, b: nat)
    requires a < b
    ensures m * b >= m * a + m
  {
    assert m * b == m * a + m * (b - a);
    assert m * (b - a) == m + m * (b - a - 1);
    assert m * (b - a - 1) >= 0;
  }

  // ---------- chains ----------

  ghost predicate ChainRep(nx: map<HNode, HNode?>, p: HNode?, s: seq<HNode>) {
    if s == [] then p == null else p == s[0] && s[0] in nx && ChainRep(nx, nx[s[0]], s[1..])
  }

  ghost predicate Distinct(s: seq<HNode>) {
    forall i, j :: 0 <= i < j < |s| ==> s[i] != s[j]
  }

  /** Every chain runs from its head through nx, holds no node twice, and holds only nodes whose hash selects
      its bucket under the mask m (the first bucket here has number b). */
  ghost predicate TabRep(heads: seq<HNode?>, nx: map<HNode, HNode?>, cs: Chains, b: nat, m: nat) {
    && |heads| == |cs|
    && (cs != [] ==>
          && ChainRep(nx, heads[0], cs[0]) && InBucket(cs[0], b, m)
          && TabRep(heads[1..], nx, cs[1..], b + 1, m))
  }

  ghost predicate InBucket(s: seq<HNode>, b: nat, m: nat) {
    Distinct(s) && forall n <- s :: BitAnd(n.hval, m) == b
  }

  ghost function Members(s: seq<HNode>): set<HNode> {
    set n | n in s
  }

  ghost function Elems(cs: Chains): set<HNode> {
    if cs == [] then {} else Members(cs[0]) + Elems(cs[1..])
  }

  ghost function Push(cs: Chains, b: nat, n: HNode): Chains
    requires b < |cs|
  {
    cs[b := [n] + cs[b]]
  }

  ghost function Drop(cs: Chains, b: nat, i: nat): Chains
    requires b < |cs| && i < |cs[b]|
  {
    cs[b := cs[b][..i] + cs[b][i + 1..]]
  }

  ghost predicate SameOff(nx: map<HNode, HNode?>, nx': map<HNode, HNode?>, e: set<HNode>) {
    forall n <- nx :: n in e || (n in nx' && nx'[n] == nx[n])
  }

  lemma {:induction false} FrameChain(nx: map<HNode, HNode?>, nx': map<HNode, HNode?>, p: HNode?, s: seq<HNode>,
          e: set<HNode>)
    requires ChainRep(nx, p, s) && SameOff(nx, nx', e) && forall n <- s :: n !in e
    ensures ChainRep(nx', p, s)
  {
    if s != [] { FrameChain(nx, nx', nx[s[0]], s[1..], e); }
  }

  lemma {:induction false} FrameTab(heads: seq<HNode?>, nx: map<HNode, HNode?>, nx': map<HNode, HNode?>, cs: Chains,
          b: nat, m: nat, e: set<HNode>)
    requires TabRep(heads, nx, cs, b, m) && SameOff(nx, nx', e) && e !! Elems(cs)
    ensures TabRep(heads, nx', cs, b, m)
  {
    if cs != [] {
      assert forall n <- cs[0] :: n in Members(cs[0]);
      FrameChain(nx, nx', heads[0], cs[0], e);
      FrameTab(heads[1..], nx, nx', cs[1..], b + 1, m, e);
    }
  }

  /** Bucket j of the table. */
  lemma {:induction false} TabAt(heads: seq<HNode?>, nx: map<HNode, HNode?>, cs: Chains, b: nat, m: nat, j: nat)
    requires TabRep(heads, nx, cs, b, m) && j < |cs|
    ensures ChainRep(nx, heads[j], cs[j]) && InBucket(cs[j], b + j, m) && Members(cs[j]) <= Elems(cs)
  {
    if j > 0 { TabAt(heads[1..], nx, cs[1..], b + 1, m, j - 1); }
  }

  /** A node that belongs to bucket j is in chain j or nowhere. */
  lemma {:induction false} OnlyThere(heads: seq<HNode?>, nx: map<HNode, HNode?>, cs: Chains, b: nat, m: nat, j: nat,
          n: HNode)
    requires TabRep(heads, nx, cs, b, m) && j < |cs| && BitAnd(n.hval, m) == b + j
    ensures n in Elems(cs) <==> n in cs[j]
  {
    if j > 0 {
      OnlyThere(heads[1..], nx, cs[1..], b + 1, m, j - 1, n);
    } else {
      NotAfter(heads[1..], nx, cs[1..], b + 1, m, n);
    }
  }

  lemma {:induction false} NotAfter(heads: seq<HNode?>, nx: map<HNode, HNode?>, cs: Chains, b: nat, m: nat, n: HNode)
    requires TabRep(heads, nx, cs, b, m) && BitAnd(n.hval, m) < b
    ensures n !in Elems(cs)
  {
    if cs != [] { NotAfter(heads[1..], nx, cs[1..], b + 1, m, n); }
  }

  /** Chain j is changed, along with next pointers of nodes of chain j or of no chain. */
  lemma {:induction false} SetChain(heads: seq<HNode?>, nx: map<HNode, HNode?>, nx': map<HNode, HNode?>, cs: Chains,
                                    b: nat, m: nat, j: nat, p: HNode?, s: seq<HNode>, e: set<HNode>)
    requires TabRep(heads, nx, cs, b, m) && j < |cs| && SameOff(nx, nx', e)
    requires forall n <- e :: n in cs[j] || n !in Elems(cs)
    requires ChainRep(nx', p, s) && InBucket(s, b + j, m)
    ensures TabRep(heads[j := p], nx', cs[j := s], b, m)
    ensures Elems(cs[j := s]) == Elems(cs) - Members(cs[j]) + Members(s)
  {
    hide Distinct, SumLen;
    var h', c' := heads[j := p], cs[j := s];
    if j == 0 {
      Apart(heads, nx, cs, b, m);
      assert h'[1..] == heads[1..] && c'[1..] == cs[1..];
      FrameTab(heads[1..], nx, nx', cs[1..], b + 1, m, e);
    } else {
      Apart(heads, nx, cs, b, m);
      TabAt(heads[1..], nx, cs[1..], b + 1, m, j - 1);
      assert h'[1..] == heads[1..][j - 1 := p] && c'[1..] == cs[1..][j - 1 := s];
      SetChain(heads[1..], nx, nx', cs[1..], b + 1, m, j - 1, p, s, e);
      assert forall n <- cs[0] :: n in Members(cs[0]);
      FrameChain(nx, nx', heads[0], cs[0], e);
    }
  }

  /** The first bucket shares no node with the others. */
  lemma Apart(heads: seq<HNode?>, nx: map<HNode, HNode?>, cs: Chains, b: nat, m: nat)
    requires TabRep(heads, nx, cs, b, m) && cs != []
    ensures Members(cs[0]) !! Elems(cs[1..])
  {
    forall n | n in Members(cs[0])
      ensures n !in Elems(cs[1..])
    {
      NotAfter(heads[1..], nx, cs[1..], b + 1, m, n);
    }
  }

  lemma {:induction false} ChainLinks(nx: map<HNode, HNode?>, p: HNode?, s: seq<HNode>, i: nat)
    requires ChainRep(nx, p, s) && i < |s|
    ensures s[i] in nx && ChainRep(nx, nx[s[i]], s[i + 1..])
    ensures if i == 0 then p == s[0] else s[i - 1] in nx && nx[s[i - 1]] == s[i]
    ensures nx[s[i]] == if i + 1 < |s| then s[i + 1] else null
  {
    if i > 0 { ChainLinks(nx, nx[s[0]], s[1..], i - 1); }
  }

  lemma {:induction false} ChainDrop(nx: map<HNode, HNode?>, p: HNode?, s: seq<HNode>, i: nat)
    requires ChainRep(nx, p, s) && Distinct(s) && 0 < i < |s|
    ensures s[i - 1] in nx && s[i] in nx && ChainRep(nx[s[i - 1] := nx[s[i]]], p, s[..i] + s[i + 1..])
  {
    ChainLinks(nx, p, s, i);
    var nx', r := nx[s[i - 1] := nx[s[i]]], s[..i] + s[i + 1..];
    assert r[0] == s[0];
    if i == 1 {
      assert r[1..] == s[2..];
      FrameChain(nx, nx', nx[s[1]], s[2..], {s[0]});
    } else {
      ChainDrop(nx, nx[s[0]], s[1..], i - 1);
      assert r[1..] == s[1..][..i - 1] + s[1..][i..];
    }
  }

  lemma DropMembers(s: seq<HNode>, i: nat, b: nat, m: nat)
    requires InBucket(s, b, m) && i < |s|
    ensures InBucket(s[..i] + s[i + 1..], b, m) && Members(s[..i] + s[i + 1..]) == Members(s) - {s[i]}
  {
    var r := s[..i] + s[i + 1..];
    forall n | n in s && n != s[i]
      ensures n in r
    {
      var k :| 0 <= k < |s| && s[k] == n;
      assert n == if k < i then r[k] else r[k - 1];
    }
    assert forall k :: 0 <= k < |r| ==> r[k] == s[if k < i then k else k + 1];
  }

  // ---------- the sizes ----------

  function SumLen(cs: Chains): nat {
    if cs == [] then 0 else |cs[0]| + SumLen(cs[1..])
  }

  lemma {:induction false} SumSet(cs: Chains, j: nat, s: seq<HNode>)
    requires j < |cs|
    ensures SumLen(cs[j := s]) == SumLen(cs) - |cs[j]| + |s| && |cs[j]| <= SumLen(cs)
  {
    if j == 0 {
      assert cs[j := s][1..] == cs[1..];
    } else {
      SumSet(cs[1..], j - 1, s);
      assert cs[j := s][1..] == cs[1..][j - 1 := s];
    }
  }

  lemma {:induction false} EmptyTable(nx: map<HNode, HNode?>, heads: seq<HNode?>, cs: Chains, b: nat, m: nat)
    requires |heads| == |cs| && (forall i :: 0 <= i < |cs| ==> heads[i] == null && cs[i] == [])
    ensures TabRep(heads, nx, cs, b, m) && Elems(cs) == {} && SumLen(cs) == 0
  {
    if cs != [] { EmptyTable(nx, heads[1..], cs[1..], b + 1, m); }
  }

  /** A non-empty table has a non-empty bucket at or after any place below which all are empty. */
  lemma {:induction false} SomeBucket(cs: Chains, pos: nat)
    requires pos <= |cs| && (forall b :: 0 <= b < pos ==> cs[b] == []) && SumLen(cs) > 0
    ensures exists b :: pos <= b < |cs| && cs[b] != []
  {
    if pos > 0 {
      SomeBucket(cs[1..], pos - 1);
      var b :| pos - 1 <= b < |cs[1..]| && cs[1..][b] != [];
      assert cs[b + 1] != [];
    } else if cs[0] == [] {
      SomeBucket(cs[1..], 0);
      var b :| 0 <= b < |cs[1..]| && cs[1..][b] != [];
      assert cs[b + 1] != [];
    }
  }

  /** The number of nodes of a table is the sum of the lengths of its chains. */
  lemma {:induction false} SizeIsSum(heads: seq<HNode?>, nx: map<HNode, HNode?>, cs: Chains, b: nat, m: nat)
    requires TabRep(heads, nx, cs, b, m)
    ensures |Elems(cs)| == SumLen(cs)
  {
    if cs != [] {
      Apart(heads, nx, cs, b, m);
      MembersSize(cs[0]);
      SizeIsSum(heads[1..], nx, cs[1..], b + 1, m);
    }
  }

  lemma {:induction false} MembersSize(s: seq<HNode>)
    requires Distinct(s)
    ensures |Members(s)| == |s|
  {
    if s != [] {
      MembersSize(s[1..]);
      assert Members(s) == {s[0]} + Members(s[1..]);
      assert s[0] !in Members(s[1..]);
    }
  }
}
