/** The string commands behind the wire: bytes in, bytes out. */
module Service {
  import opened Wire
  import opened Connections
  import C = Commands

  const SET: Bytes := [115, 101, 116]
  const GET: Bytes := [103, 101, 116]
  const DEL: Bytes := [100, 101, 108]
  const TADD: Bytes := [116, 97, 100, 100]
  const TRANGE: Bytes := [116, 114, 97, 110, 103, 101]

  /** A string_view over bytes. */
  function Chars(b: Bytes): (s: string)
    ensures |s| == |b| && forall i :: 0 <= i < |b| ==> s[i] == b[i] as char
  {
    seq(|b|, i requires 0 <= i < |b| => b[i] as char)
  }

  function Words(c: Command): (w: seq<string>)
    ensures |w| == |c| && forall i :: 0 <= i < |c| ==> w[i] == Chars(c[i])
  {
    seq(|c|, i requires 0 <= i < |c| => Chars(c[i]))
  }

  /** What the server does that is not modelled here: the bytes of a message, and the commands on sorted sets. */
  datatype Host = Host(wording: C.Text -> Bytes, sets: Exec<C.Plain>)

  /** A response; no message is no bytes. */
  function Answer(h: Host, r: C.Reply): Response {
    Response(match r.status case RES_OK => 0 case RES_ERR => 1 case RES_NX => 2,
             if r.text.Nothing? then [] else h.wording(r.text))
  }

  /** do_request on a plain map. */
  function Request(h: Host, m: C.Plain, c: Command): (C.Plain, Response) {
    if C.ForSets(Words(c)) then h.sets(m, c) else var (m', r) := C.Do(m, Words(c)); (m', Answer(h, r))
  }

  function Execute(h: Host): Exec<C.Plain> {
    (m: C.Plain, c: Command) => Request(h, m, c)
  }

  /** Different byte strings are different keys. */
  lemma CharsInjective(a: Bytes, b: Bytes)
    requires Chars(a) == Chars(b)
    ensures a == b
  {
    forall i | 0 <= i < |a|
      ensures a[i] == b[i]
    {
      assert Chars(a)[i] == Chars(b)[i];
    }
  }

  lemma CommandNames()
    ensures Chars(SET) == "set" && Chars(GET) == "get" && Chars(DEL) == "del"
    ensures Chars(TADD) == "tadd" && Chars(TRANGE) == "trange"
  {
  }

  lemma NamesDiffer()
    ensures GET != DEL && SET != DEL
  {
    assert SET[0] != DEL[0] && GET[0] != DEL[0];
  }

  // ---------- what one command answers ----------

  lemma GetAnswer(h: Host, m: C.Plain, key: Bytes)
    ensures var k := Chars(key);
      Request(h, m, [GET, key]) ==
        (m, if k !in m then Response(2, [])
            else if m[k].Str? then Response(0, h.wording(C.GetText(k, m[k].s)))
            else Response(0, h.wording(C.TypeMismatch)))
  {
    CommandNames();
    assert Words([GET, key]) == ["get", Chars(key)];
  }

  lemma SetAnswer(h: Host, m: C.Plain, key: Bytes, val: Bytes)
    ensures var k, s := Chars(key), Chars(val);
      Request(h, m, [SET, key, val]) ==
        if k in m && m[k].Set? then (m, Response(1, h.wording(C.TypeMismatch)))
        else (m[k := C.Str(s)], Response(0, h.wording(C.SetText(k, s))))
  {
    CommandNames();
    assert Words([SET, key, val]) == ["set", Chars(key), Chars(val)];
  }

  lemma DelAnswer(h: Host, m: C.Plain, key: Bytes)
    ensures var k := Chars(key);
      Request(h, m, [DEL, key]) ==
        if k !in m then (m, Response(2, []))
        else (m - {k}, Response(0, h.wording(if m[k].Str? then C.DelText(k, m[k].s) else C.TypeMismatch)))
  {
    CommandNames();
    assert Words([DEL, key]) == ["del", Chars(key)];
  }

  /** A command that the server knows, by its bytes. */
  predicate Known(c: Command) {
    || (|c| == 2 && (c[0] == GET || c[0] == DEL)) || (|c| == 3 && c[0] == SET)
    || (|c| >= 4 && c[0] == TADD) || (|c| == 4 && c[0] == TRANGE)
  }

  lemma UnknownAnswer(h: Host, m: C.Plain, c: Command)
    requires !Known(c)
    ensures Request(h, m, c) == (m, Response(1, []))
  {
    CommandNames();
    if c != [] {
      forall name | name in [SET, GET, DEL, TADD, TRANGE] && Chars(c[0]) == Chars(name)
        ensures c[0] == name
      {
        CharsInjective(c[0], name);
      }
    }
  }

  // ---------- runs of commands over the wire ----------

  function Begin(m: C.Plain): Drained<C.Plain> {
    Drained(m, [], [], [], true)
  }

  /** Each command of a run, from the database that the one before left. */
  lemma RunOf(h: Host, m: C.Plain, c: Command, cs: seq<Command>)
    ensures var (m', a) := Request(h, m, c);
      && Answers(Execute(h), m, [c] + cs) == [a] + Answers(Execute(h), m', cs)
      && After(Execute(h), m, [c] + cs) == After(Execute(h), m', cs)
  {
    assert ([c] + cs)[1..] == cs;
  }

  lemma RunOfOne(h: Host, m: C.Plain, c: Command)
    ensures var (m', a) := Request(h, m, c);
      Answers(Execute(h), m, [c]) == [a] && After(Execute(h), m, [c]) == m'
  {
    assert [c] + [] == [c];
    RunOf(h, m, c, []);
  }

  /** A set and a get of the same key, sent over the wire in any chunks to a server in any state in which the key holds
      no sorted set: both run, both answer status 0, the get finds the value, and the client reads both answers exactly
      when they are short enough for it. */
  lemma SetThenGet(h: Host, m: C.Plain, key: Bytes, val: Bytes, chunks: seq<Bytes>)
    requires |Body([SET, key, val])| <= 20000 && Concat(chunks) == Frames([[SET, key, val], [GET, key]])
    requires Chars(key) in m ==> m[Chars(key)].Str?
    ensures var k, s := Chars(key), Chars(val);
      var d := Feed(Execute(h), Begin(m), chunks);
      var answers := [Response(0, h.wording(C.SetText(k, s))), Response(0, h.wording(C.GetText(k, s)))];
      && d.ran == [[SET, key, val], [GET, key]] && d.rest == [] && d.open && d.db == m[k := C.Str(s)]
      && d.out == PackedAll(answers)
      && (ReadAll(d.out) == Some(answers) <==> forall a <- answers :: 4 + |a.data| <= 4096)
  {
    hide *;
    var exec, c1, c2 := Execute(h), [SET, key, val], [GET, key];
    ShorterBodies(key, val);
    AllFit([c1, c2]);
    OnWire(exec, m, [c1, c2], chunks);
    SetAnswer(h, m, key, val);
    var m1 := m[Chars(key) := C.Str(Chars(val))];
    GetAnswer(h, m1, key);
    assert [c1, c2] == [c1] + [c2];
    RunOf(h, m, c1, [c2]);
    RunOfOne(h, m1, c2);
    var a1, a2 := Request(h, m, c1).1, Request(h, m1, c2).1;
    assert [a1] + [a2] == [a1, a2];
  }

  /** Set, del, get of one key: the del answers with the value that was set, and the get that there is none. */
  lemma SetDelGet(h: Host, m: C.Plain, key: Bytes, val: Bytes, chunks: seq<Bytes>)
    requires |Body([SET, key, val])| <= 20000
    requires Concat(chunks) == Frames([[SET, key, val], [DEL, key], [GET, key]])
    requires Chars(key) in m ==> m[Chars(key)].Str?
    ensures var k, s := Chars(key), Chars(val);
      var d := Feed(Execute(h), Begin(m), chunks);
      var answers :=
        [Response(0, h.wording(C.SetText(k, s))), Response(0, h.wording(C.DelText(k, s))), Response(2, [])];
      && d.ran == [[SET, key, val], [DEL, key], [GET, key]] && d.rest == [] && d.open && d.db == m - {k}
      && d.out == PackedAll(answers)
      && (ReadAll(d.out) == Some(answers) <==> forall a <- answers :: 4 + |a.data| <= 4096)
  {
    hide *;
    var exec, c1, c2, c3 := Execute(h), [SET, key, val], [DEL, key], [GET, key];
    ShorterBodies(key, val);
    AllFit([c1, c2, c3]);
    OnWire(exec, m, [c1, c2, c3], chunks);
    SetAnswer(h, m, key, val);
    var m1 := m[Chars(key) := C.Str(Chars(val))];
    var m2 := m - {Chars(key)};
    assert m1 - {Chars(key)} == m2;
    DelAnswer(h, m1, key);
    GetAnswer(h, m2, key);
    assert [c1, c2, c3] == [c1] + [c2, c3] && [c2, c3] == [c2] + [c3];
    RunOf(h, m, c1, [c2, c3]);
    RunOf(h, m1, c2, [c3]);
    RunOfOne(h, m2, c3);
    var a1, a2, a3 := Request(h, m, c1).1, Request(h, m1, c2).1, Request(h, m2, c3).1;
    assert [a1] + ([a2] + [a3]) == [a1, a2, a3];
  }

  /** One command over the wire. */
  lemma OneCommand(h: Host, m: C.Plain, c: Command, chunks: seq<Bytes>)
    requires |Body(c)| <= 20000 && Concat(chunks) == Frames([c])
    ensures var d := Feed(Execute(h), Begin(m), chunks);
      var (m', a) := Request(h, m, c);
      && d.ran == [c] && d.rest == [] && d.open && d.db == m' && d.out == PackedAll([a])
      && (ReadAll(d.out) == Some([a]) <==> 4 + |a.data| <= 4096)
  {
    hide *;
    AllFit([c]);
    OnWire(Execute(h), m, [c], chunks);
    RunOfOne(h, m, c);
    var a := Request(h, m, c).1;
    assert a in [a];
  }

  /** get or del of a key that is not there: the client reads status 2 and no text, and nothing changes. */
  lemma AbsentKey(h: Host, m: C.Plain, name: Bytes, key: Bytes, chunks: seq<Bytes>)
    requires |Body([name, key])| <= 20000 && Concat(chunks) == Frames([[name, key]])
    requires (name == GET || name == DEL) && Chars(key) !in m
    ensures var d := Feed(Execute(h), Begin(m), chunks);
      d.ran == [[name, key]] && d.open && d.db == m && ReadAll(d.out) == Some([Response(2, [])])
  {
    hide *;
    OneCommand(h, m, [name, key], chunks);
    GetAnswer(h, m, key);
    DelAnswer(h, m, key);
  }

  /** A command of no known name and length: the client reads status 1 and no text, and nothing changes. */
  lemma UnknownCommand(h: Host, m: C.Plain, c: Command, chunks: seq<Bytes>)
    requires |Body(c)| <= 20000 && Concat(chunks) == Frames([c]) && !Known(c)
    ensures var d := Feed(Execute(h), Begin(m), chunks);
      d.ran == [c] && d.open && d.db == m && ReadAll(d.out) == Some([Response(1, [])])
  {
    hide *;
    OneCommand(h, m, c, chunks);
    UnknownAnswer(h, m, c);
  }

  /** The string commands on a key that holds a sorted set: get and del answer status 0 with the error text, and del
      removes it all the same; set answers status 1 and leaves it alone. */
  lemma OnSortedSet(h: Host, m: C.Plain, c: Command, key: Bytes, chunks: seq<Bytes>)
    requires |Body(c)| <= 20000 && Concat(chunks) == Frames([c])
    requires Chars(key) in m && m[Chars(key)].Set?
    requires c == [GET, key] || c == [DEL, key] || (|c| == 3 && c == [SET, key, c[2]])
    ensures var d := Feed(Execute(h), Begin(m), chunks);
      var a := if |c| == 3 then Response(1, h.wording(C.TypeMismatch)) else Response(0, h.wording(C.TypeMismatch));
      && d.ran == [c] && d.open && d.db == (if c[0] == DEL then m - {Chars(key)} else m)
      && d.out == PackedAll([a]) && (ReadAll(d.out) == Some([a]) <==> 4 + |a.data| <= 4096)
  {
    hide *;
    OneCommand(h, m, c, chunks);
    GetAnswer(h, m, key);
    DelAnswer(h, m, key);
    NamesDiffer();
    if |c| == 3 { SetAnswer(h, m, key, c[2]); }
  }

  lemma OnWire(exec: Exec<C.Plain>, m: C.Plain, cs: seq<Command>, chunks: seq<Bytes>)
    requires Concat(chunks) == Frames(cs) && Fitting(cs)
    ensures var d := Feed(exec, Begin(m), chunks);
      && d.db == After(exec, m, cs) && d.ran == cs && d.rest == [] && d.open
      && d.out == PackedAll(Answers(exec, m, cs))
      && (ReadAll(d.out) == Some(Answers(exec, m, cs)) <==>
            forall r <- Answers(exec, m, cs) :: 4 + |r.data| <= 4096)
  {
    hide Feed, ReadAll, Frames, Answers, After, PackedAll;
    EndToEnd(exec, m, cs, chunks);
  }

  lemma AllFit(cs: seq<Command>)
    ensures Fitting(cs) <==> forall c <- cs :: |Body(c)| <= 20000
  {
  }

  lemma ShorterBodies(key: Bytes, val: Bytes)
    ensures |Body([GET, key])| == |Body([DEL, key])| <= |Body([SET, key, val])|
  {
    assert [SET, key, val] == [SET, key] + [val];
    StringsSnoc([SET, key], val);
    assert [SET, key][1..] == [key] == [GET, key][1..] == [DEL, key][1..];
    assert |Strings([SET, key])| == |Strings([GET, key])| == |Strings([DEL, key])|;
  }
}
