/** The string commands of the server as operations on one plain map from keys to values. */
module Commands {
  import opened HashChains
  import opened IntrusiveHash
  import opened TSets

  datatype Value = Str(s: string) | Set(t: TSet)

  /** An entry of the database. */
  class KVObj {
    var hook: HNode
    const key: string
    var val: Value

    constructor (key: string, val: Value, hash: string -> nat)
      ensures this.key == key && this.val == val
      ensures fresh(hook) && hook.owner == this && hook.key == key && hook.hval == hash(key)
    {
      this.key, this.val := key, val;
      hook := new HNode(key, hash(key), null);
      new;
      hook := new HNode(key, hash(key), this);
    }
  }

  datatype Status = RES_OK | RES_ERR | RES_NX

  /** The message of a response, without its wording. */
  datatype Text = Nothing | GetText(key: string, val: string) | SetText(key: string, val: string)
                | DelText(key: string, val: string) | TypeMismatch

  datatype Reply = Reply(status: Status, text: Text)

  type Plain = map<string, Value>

  /** get, set and del on a plain map. A type mismatch is an error for set only: get leaves the status at RES_OK, del
      overwrites RES_ERR with RES_OK and removes the entry all the same. */
  function Get(m: Plain, key: string): Reply {
    if key !in m then Reply(RES_NX, Nothing)
    else if m[key].Str? then Reply(RES_OK, GetText(key, m[key].s)) else Reply(RES_OK, TypeMismatch)
  }

  function SetTo(m: Plain, key: string, s: string): (Plain, Reply) {
    if key in m && !m[key].Str? then (m, Reply(RES_ERR, TypeMismatch))
    else (m[key := Str(s)], Reply(RES_OK, SetText(key, s)))
  }

  function Del(m: Plain, key: string): (Plain, Reply) {
    if key !in m then (m, Reply(RES_NX, Nothing))
    else (m - {key}, Reply(RES_OK, if m[key].Str? then DelText(key, m[key].s) else TypeMismatch))
  }

  /** What was set is what get finds, until it is deleted, and what del answers; other keys are not touched. */
  lemma PlainLaws(m: Plain, key: string, other: string, s: string)
    requires other != key
    ensures (key in m && m[key].Set?) || Get(SetTo(m, key, s).0, key) == Reply(RES_OK, GetText(key, s))
    ensures Get(SetTo(m, key, s).0, other) == Get(m, other) == Get(Del(m, key).0, other)
    ensures Get(Del(m, key).0, key) == Del(Del(m, key).0, key).1 == Reply(RES_NX, Nothing)
    ensures (key in m && m[key].Set?) || Del(SetTo(m, key, s).0, key).1 == Reply(RES_OK, DelText(key, s))
    ensures key !in m ==> Del(SetTo(m, key, s).0, key).0 == m
  {
  }

  type VMem = map<KVObj, Value>

  /** The hooks hs are those of the entries of a map m, each key once; v gives the entries' values. */
  ghost predicate Stores(hs: set<HNode>, v: VMem, m: Plain) {
    && (forall h <- hs :: h.owner is KVObj && (h.owner as KVObj) in v && (h.owner as KVObj).key == h.key
          && h.key in m && m[h.key] == v[h.owner as KVObj])
    && (forall k <- m :: exists h :: h in hs && h.key == k)
    && (forall h <- hs, g <- hs :: h.key == g.key ==> h == g)
    && (forall o <- v :: exists h :: h in hs && h.owner == o)
  }

  ghost function Vals(s: set<KVObj>): VMem
    reads s
  {
    map o | o in s :: o.val
  }

  lemma StoresNew(hs: set<HNode>, v: VMem, m: Plain, h: HNode, val: Value)
    requires Stores(hs, v, m) && h.owner is KVObj && (h.owner as KVObj).key == h.key && h.key !in m
    ensures Stores(hs + {h}, v[(h.owner as KVObj) := val], m[h.key := val])
  {
    var hs', v', m' := hs + {h}, v[(h.owner as KVObj) := val], m[h.key := val];
    forall k | k in m'
      ensures exists g :: g in hs' && g.key == k
    {
      if k == h.key { assert h in hs'; } else { var g :| g in hs && g.key == k; assert g in hs'; }
    }
    forall o | o in v'
      ensures exists g :: g in hs' && g.owner == o
    {
      if o == h.owner { assert h in hs'; } else { var g :| g in hs && g.owner == o; assert g in hs'; }
    }
  }

  lemma StoresSet(hs: set<HNode>, v: VMem, m: Plain, h: HNode, val: Value)
    requires Stores(hs, v, m) && h in hs
    ensures h.owner is KVObj && Stores(hs, v[(h.owner as KVObj) := val], m[h.key := val])
  {
  }

  lemma StoresDel(hs: set<HNode>, v: VMem, m: Plain, h: HNode)
    requires Stores(hs, v, m) && h in hs
    ensures h.owner is KVObj && Stores(hs - {h}, v - {h.owner as KVObj}, m - {h.key})
  {
    var m', v' := m - {h.key}, v - {h.owner as KVObj};
    forall k | k in m'
      ensures exists g :: g in hs - {h} && g.key == k
    {
      var g :| g in hs && g.key == k;
      assert g in hs - {h};
    }
    forall o | o in v'
      ensures exists g :: g in hs - {h} && g.owner == o
    {
      var g :| g in hs && g.owner == o;
      assert g in hs - {h};
    }
  }

  lemma StoresKey(hs: set<HNode>, v: VMem, m: Plain, h: HNode?, key: string)
    requires Stores(hs, v, m) && (if h == null then forall g <- hs :: g.key != key else h in hs && h.key == key)
    ensures h == null <==> key !in m
    ensures h != null ==>
      h.owner is KVObj && (h.owner as KVObj) in v && (h.owner as KVObj).key == key && v[h.owner as KVObj] == m[key]
  {
  }

  const ARENA: nat := 1024 * 16

  class Store {
    const kvs: IHSet
    var dataIdx: nat
    ghost var objs: set<KVObj>

    /** The entries are those of the map m. */
    ghost predicate Valid(m: Plain)
      reads this, kvs, kvs.curr, kvs.prev, kvs.curr.buckets, kvs.prev.buckets, kvs.nodes, objs
    {
      kvs.Valid() && Stores(kvs.nodes, Vals(objs), m)
    }

    constructor (hash: string -> nat)
      ensures Valid(map[]) && kvs.hash == hash && dataIdx == 0 && fresh(kvs)
    {
      kvs := new IHSet(hash);
      dataIdx, objs := 0, {};
    }

    /** The lookup that every command begins with. */
    method Lookup(key: string, ghost m: Plain) returns (o: KVObj?)
      requires Valid(m)
      modifies kvs, kvs.curr, kvs.prev, kvs.curr.buckets, kvs.prev.buckets, kvs.nodes`next
      ensures Valid(m) && kvs.Owns() && kvs.nodes == old(kvs.nodes) && (o == null <==> key !in m)
      ensures o != null ==> o in objs && o.key == key && o.val == m[key]
    {
      hide IHSet.Valid, Stores;
      var h := kvs.Find(kvs.hash(key), key);
      StoresKey(kvs.nodes, Vals(objs), m, h, key);
      if h == null { return null; }
      return h.owner as KVObj;
    }

    /** get_val */
    method GetVal(key: string, ghost m: Plain) returns (out: Reply)
      requires Valid(m)
      modifies kvs, kvs.curr, kvs.prev, kvs.curr.buckets, kvs.prev.buckets, kvs.nodes`next
      ensures Valid(m) && out == Get(m, key)
      ensures key !in m ==> out == Reply(RES_NX, Nothing)
      ensures key in m && m[key].Str? ==> out == Reply(RES_OK, GetText(key, m[key].s))
      ensures key in m && m[key].Set? ==> out == Reply(RES_OK, TypeMismatch)
    {
      hide Store.Valid;
      var o := Lookup(key, m);
      if o == null { return Reply(RES_NX, Nothing); }
      match o.val
      case Set(_) => return Reply(RES_OK, TypeMismatch);
      case Str(s) => return Reply(RES_OK, GetText(key, s));
    }

    /** set_val; an entry that holds a string gets the new one, which src/io.cpp:344-355 leaves out. The array of
        entries must not be used up. */
    method SetVal(key: string, s: string, ghost m: Plain) returns (out: Reply)
      requires Valid(m) && dataIdx < ARENA
      modifies this`dataIdx, this`objs, objs`val
      modifies kvs, kvs.curr, kvs.prev, kvs.curr.buckets, kvs.prev.buckets, kvs.nodes`next
      ensures Valid(SetTo(m, key, s).0) && out == SetTo(m, key, s).1
      ensures key !in m || m[key].Str? ==> Valid(m[key := Str(s)]) && out == Reply(RES_OK, SetText(key, s))
      ensures key in m && m[key].Set? ==> Valid(m) && out == Reply(RES_ERR, TypeMismatch)
    {
      hide Store.Valid;
      var o := Lookup(key, m);
      if o == null {
        Emplace(key, Str(s), m);
      } else if !o.val.Str? {
        return Reply(RES_ERR, TypeMismatch);
      } else {
        Overwrite(o, Str(s), m);
      }
      return Reply(RES_OK, SetText(key, s));
    }

    /** emplace_kvobj */
    method Emplace(key: string, val: Value, ghost m: Plain)
      requires Valid(m) && key !in m && dataIdx < ARENA
      modifies this`dataIdx, this`objs
      modifies kvs, kvs.curr, kvs.prev, kvs.curr.buckets, kvs.prev.buckets, kvs.nodes`next
      ensures Valid(m[key := val]) && dataIdx == old(dataIdx) + 1
    {
      hide IHSet.Valid, Stores;
      var o := new KVObj(key, val, kvs.hash);
      dataIdx := dataIdx + 1;
      StoresNew(kvs.nodes, Vals(objs), m, o.hook, val);
      ghost var v := Vals(objs)[o := val];
      objs := objs + {o};
      assert Vals(objs) == v;
      kvs.Insert(o.hook);
    }

    method Overwrite(o: KVObj, val: Value, ghost m: Plain)
      requires Valid(m) && o in objs
      modifies o`val
      ensures Valid(m[o.key := val])
    {
      hide IHSet.Valid;
      assert o in Vals(objs);
      ghost var h :| h in kvs.nodes && h.owner == o;
      StoresSet(kvs.nodes, Vals(objs), m, h, val);
      ghost var v := Vals(objs)[o := val];
      o.val := val;
      assert Vals(objs) == v;
      kvs.Kept();
    }

    /** del_val */
    method DelVal(key: string, ghost m: Plain) returns (out: Reply)
      requires Valid(m)
      modifies this`objs, kvs, kvs.curr, kvs.prev, kvs.curr.buckets, kvs.prev.buckets, kvs.nodes`next
      ensures Valid(Del(m, key).0) && out == Del(m, key).1
      ensures key !in m ==> Valid(m) && out == Reply(RES_NX, Nothing)
      ensures key in m ==> Valid(m - {key})
      ensures key in m && m[key].Str? ==> out == Reply(RES_OK, DelText(key, m[key].s))
      ensures key in m && m[key].Set? ==> out == Reply(RES_OK, TypeMismatch)
    {
      hide Store.Valid;
      var o := Lookup(key, m);
      kvs.OwnsMeans();
      if o == null { return Reply(RES_NX, Nothing); }
      Drop(key, m);
      match o.val
      case Set(_) => return Reply(RES_OK, TypeMismatch);
      case Str(s) => return Reply(RES_OK, DelText(key, s));
    }

    method Drop(key: string, ghost m: Plain)
      requires Valid(m) && key in m
      modifies this`objs, kvs, kvs.curr, kvs.prev, kvs.curr.buckets, kvs.prev.buckets, kvs.nodes`next
      ensures Valid(m - {key}) && kvs.Owns()
    {
      hide IHSet.Valid, Stores;
      ghost var hs := kvs.nodes;
      var h := kvs.Remove(kvs.hash(key), key);
      StoresKey(hs, Vals(objs), m, h, key);
      StoresDel(hs, Vals(objs), m, h);
      ghost var v := Vals(objs) - {h.owner as KVObj};
      objs := objs - {h.owner as KVObj};
      assert Vals(objs) == v;
    }

    /** do_request, for all but the commands on sorted sets. */
    method DoRequest(cmd: seq<string>, ghost m: Plain) returns (out: Reply)
      requires Valid(m) && dataIdx < ARENA && !ForSets(cmd)
      modifies this`dataIdx, this`objs, objs`val
      modifies kvs, kvs.curr, kvs.prev, kvs.curr.buckets, kvs.prev.buckets, kvs.nodes`next
      ensures Valid(Do(m, cmd).0) && out == Do(m, cmd).1
      ensures !Known(cmd) ==> Valid(m) && out == Reply(RES_ERR, Nothing)
    {
      if |cmd| == 2 && cmd[0] == "get" {
        out := GetVal(cmd[1], m);
      } else if |cmd| == 3 && cmd[0] == "set" {
        out := SetVal(cmd[1], cmd[2], m);
      } else if |cmd| == 2 && cmd[0] == "del" {
        out := DelVal(cmd[1], m);
      } else {
        out := Reply(RES_ERR, Nothing);
      }
    }
  }

  predicate ForSets(cmd: seq<string>) {
    (|cmd| >= 4 && cmd[0] == "tadd") || (|cmd| == 4 && cmd[0] == "trange")
  }

  /** A name that the server knows, with as many arguments as it wants. */
  predicate Known(cmd: seq<string>) {
    || (|cmd| == 2 && (cmd[0] == "get" || cmd[0] == "del")) || (|cmd| == 3 && cmd[0] == "set")
    || (|cmd| >= 4 && cmd[0] == "tadd") || (|cmd| == 4 && cmd[0] == "trange")
  }

  function Do(m: Plain, cmd: seq<string>): (Plain, Reply)
    requires !ForSets(cmd)
  {
    if |cmd| == 2 && cmd[0] == "get" then (m, Get(m, cmd[1]))
    else if |cmd| == 3 && cmd[0] == "set" then SetTo(m, cmd[1], cmd[2])
    else if |cmd| == 2 && cmd[0] == "del" then Del(m, cmd[1])
    else (m, Reply(RES_ERR, Nothing))
  }
}
