/** Draining pipelined requests from a growing buffer. The database is any state that `exec` moves on. */
module Connections {
  import opened Wire

  type Exec<!Db> = (Db, Command) -> (Db, Response)

  /** What draining a stream did: the state, the commands that ran, the bytes that went out, the bytes that are left,
      and whether the connection is still open. */
  datatype Drained<Db> = Drained(db: Db, ran: seq<Command>, out: Bytes, rest: Bytes, open: bool) {
    /** This, and then d. */
    function Then(d: Drained<Db>): Drained<Db> {
      Drained(d.db, ran + d.ran, out + d.out, d.rest, d.open)
    }
  }

  /** Whether a frame at the front of b is whole, and what it holds. */
  datatype Front = Wait | Refuse | Run(cmd: Command, size: nat)

  function Look(b: Bytes): (f: Front)
    ensures f.Run? ==> 4 <= f.size <= |b|
  {
    if |b| < 4 then Wait
    else if Num(b) > MAX_REQUEST then Refuse
    else if |b| < 4 + Num(b) then Wait
    else match Parse(b[4..4 + Num(b)])
      case None => Refuse
      case Some(c) => Run(c, 4 + Num(b))
  }

  /** The whole stream at once. */
  function Drain<Db>(exec: Exec<Db>, db: Db, b: Bytes): Drained<Db>
    decreases |b|
  {
    match Look(b)
    case Wait => Drained(db, [], [], b, true)
    case Refuse => Drained(db, [], [], b, false)
    case Run(c, n) =>
      var (db', res) := exec(db, c);
      Drained(db', [c], Packed(res), [], true).Then(Drain(exec, db', b[n..]))
  }

  /** More bytes do not change what the front of the buffer holds, once it is whole or refused. */
  lemma LookMore(a: Bytes, b: Bytes)
    ensures !Look(a).Wait? ==> Look(a + b) == Look(a)
  {
    hide Num, Parse;
    if |a| >= 4 {
      NumMore(a, b);
      if |a| >= 4 + Num(a) { assert (a + b)[4..4 + Num(a)] == a[4..4 + Num(a)]; }
    }
  }

  lemma NumMore(a: Bytes, b: Bytes)
    requires |a| >= 4
    ensures Num(a + b) == Num(a)
  {
  }

  /** Draining a + b at once is draining a, then what is left with b behind it; unless a closed the connection. */
  lemma {:induction false} DrainSplit<Db>(exec: Exec<Db>, db: Db, a: Bytes, b: Bytes)
    ensures var d := Drain(exec, db, a);
      Drain(exec, db, a + b) == if d.open then d.Then(Drain(exec, d.db, d.rest + b)) else d.(rest := d.rest + b)
    decreases |a|
  {
    hide Look;
    LookMore(a, b);
    match Look(a)
    case Wait =>
    case Refuse =>
    case Run(c, n) =>
      var (db', res) := exec(db, c);
      DrainSplit(exec, db', a[n..], b);
      assert (a + b)[n..] == a[n..] + b;
      var d := Drain(exec, db', a[n..]);
      var first := Drained(db', [c], Packed(res), [], true);
      if d.open { ThenThen(first, d, Drain(exec, d.db, d.rest + b)); }
  }

  lemma ThenThen<Db>(a: Drained<Db>, b: Drained<Db>, c: Drained<Db>)
    ensures a.Then(b).Then(c) == a.Then(b.Then(c))
  {
    assert a.ran + b.ran + c.ran == a.ran + (b.ran + c.ran);
    assert a.out + b.out + c.out == a.out + (b.out + c.out);
  }

  function Concat(chunks: seq<Bytes>): Bytes {
    if chunks == [] then [] else chunks[0] + Concat(chunks[1..])
  }

  /** Chunk after chunk, as long as the connection is open. */
  function Feed<Db>(exec: Exec<Db>, d: Drained<Db>, chunks: seq<Bytes>): Drained<Db>
    decreases |chunks|
  {
    if chunks == [] || !d.open then d
    else Feed(exec, d.Then(Drain(exec, d.db, d.rest + chunks[0])), chunks[1..])
  }

  /** Equal but for what a closed connection has left in its buffer. */
  predicate Same<Db(==)>(d: Drained<Db>, e: Drained<Db>) {
    d.db == e.db && d.ran == e.ran && d.out == e.out && d.open == e.open && (d.open ==> d.rest == e.rest)
  }

  /** However a stream is cut into chunks, the same commands run in the same order with the same responses, and it
      stops at the same bad frame. */
  lemma {:induction false} Pipelining<Db>(exec: Exec<Db>, db: Db, s: Bytes, chunks: seq<Bytes>)
    ensures Same(Feed(exec, Drain(exec, db, s), chunks), Drain(exec, db, s + Concat(chunks)))
    decreases |chunks|
  {
    hide Look;
    var d := Drain(exec, db, s);
    if chunks == [] {
      assert s + [] == s;
    } else {
      DrainSplit(exec, db, s, chunks[0]);
      assert s + Concat(chunks) == (s + chunks[0]) + Concat(chunks[1..]);
      if d.open {
        Pipelining(exec, db, s + chunks[0], chunks[1..]);
      } else {
        DrainSplit(exec, db, s, Concat(chunks));
      }
    }
  }

  // ---------- client to server and back ----------

  /** The frame of one command, as send_req writes it. */
  function Frame(c: Command): Bytes {
    U32(|Body(c)|) + Body(c)
  }

  function Frames(cs: seq<Command>): Bytes {
    if cs == [] then [] else Frame(cs[0]) + Frames(cs[1..])
  }

  /** What the server answers to a run of commands. */
  function Answers<Db>(exec: Exec<Db>, db: Db, cs: seq<Command>): seq<Response> {
    if cs == [] then [] else var (db', res) := exec(db, cs[0]); [res] + Answers(exec, db', cs[1..])
  }

  function PackedAll(rs: seq<Response>): Bytes {
    if rs == [] then [] else Packed(rs[0]) + PackedAll(rs[1..])
  }

  /** A frame is run exactly when its body is no longer than the server takes; else the connection is closed. */
  lemma FrameFront(c: Command, rest: Bytes)
    requires |Body(c)| < 0x1_0000_0000
    ensures Look(Frame(c) + rest) == if |Body(c)| <= 20000 then Run(c, |Frame(c)|) else Refuse
  {
    hide U32, Num, Strings;
    var b := Frame(c) + rest;
    assert b == U32(|Body(c)|) + (Body(c) + rest);
    NumU32(|Body(c)|, Body(c) + rest);
    Fit(c);
    ParseIff(Body(c), c);
    if |Body(c)| <= MAX_REQUEST { assert b[4..4 + |Body(c)|] == Body(c); }
  }

  lemma {:induction false} Fit(c: Command)
    ensures |c| <= |Strings(c)| && forall i :: 0 <= i < |c| ==> |c[i]| <= |Strings(c)|
  {
    hide U32;
    if c != [] { Fit(c[1..]); }
  }

  /** Every command fits: its body is no longer than the server takes. */
  predicate Fitting(cs: seq<Command>) {
    forall c <- cs :: |Body(c)| <= 20000
  }

  /** The database after a run of commands. */
  function After<Db>(exec: Exec<Db>, db: Db, cs: seq<Command>): Db {
    if cs == [] then db else After(exec, exec(db, cs[0]).0, cs[1..])
  }

  /** Commands that fit run as they were sent, one answer each; then comes what is behind them. */
  lemma {:induction false} ClientStream<Db>(exec: Exec<Db>, db: Db, cs: seq<Command>, rest: Bytes)
    requires Fitting(cs)
    ensures var d := Drain(exec, After(exec, db, cs), rest);
      Drain(exec, db, Frames(cs) + rest) == d.(ran := cs + d.ran, out := PackedAll(Answers(exec, db, cs)) + d.out)
    decreases |cs|
  {
    hide Look, U32, Packed, Body;
    var d := Drain(exec, After(exec, db, cs), rest);
    if cs == [] {
      assert Frames(cs) + rest == rest && [] + d.ran == d.ran && [] + d.out == d.out;
    } else {
      var c, more := cs[0], Frames(cs[1..]) + rest;
      assert Frames(cs) + rest == Frame(c) + more;
      FrameFront(c, more);
      var (db', res) := exec(db, c);
      assert (Frame(c) + more)[|Frame(c)|..] == more;
      ClientStream(exec, db', cs[1..], rest);
      var rs := Answers(exec, db', cs[1..]);
      assert [c] + cs[1..] == cs && ([res] + rs)[1..] == rs;
      assert [c] + (cs[1..] + d.ran) == cs + d.ran;
      assert Packed(res) + (PackedAll(rs) + d.out) == (Packed(res) + PackedAll(rs)) + d.out;
    }
  }

  lemma EmptyWaits()
    ensures Look([]) == Wait
  {
  }

  /** Whatever was received, what went out is the answers to the commands that ran, in order. */
  lemma {:induction false} OutIsAnswers<Db>(exec: Exec<Db>, db: Db, b: Bytes)
    ensures var d := Drain(exec, db, b); d.out == PackedAll(Answers(exec, db, d.ran))
    decreases |b|
  {
    hide Look, Packed;
    match Look(b)
    case Wait =>
    case Refuse =>
    case Run(c, n) =>
      var (db', res) := exec(db, c);
      OutIsAnswers(exec, db', b[n..]);
      var d := Drain(exec, db', b[n..]);
      assert ([c] + d.ran)[1..] == d.ran;
      var a := Answers(exec, db', d.ran);
      assert ([res] + a)[1..] == a;
  }

  /** Reading responses one after another until the stream ends. */
  function ReadAll(b: Bytes): Option<seq<Response>>
    decreases |b|
  {
    if b == [] then Some([])
    else match ReadRes(b)
      case Got(res, rest) =>
        (match ReadAll(rest) case None => None case Some(rs) => Some([res] + rs))
      case _ => None
  }

  /** The client gets back exactly the responses, provided that each is as short as it takes; if one is longer it
      does not. */
  lemma {:induction false} ReadBack(rs: seq<Response>)
    ensures ReadAll(PackedAll(rs)) == Some(rs) <==> forall r <- rs :: 4 + |r.data| <= 4096
  {
    hide ReadRes, Packed;
    if rs != [] {
      var rest := PackedAll(rs[1..]);
      ReadPacked(PackedAll(rs), rs[0], rest);
      PackedLong(rs[0]);
      ReadBack(rs[1..]);
      assert [rs[0]] + rs[1..] == rs;
      assert forall r <- rs[1..] :: r in rs;
      assert rs[0] in rs;
    }
  }

  /** Client to client: commands that fit, cut into any chunks, run as sent; the client reads back one answer each,
      in order, exactly when no answer is longer than it takes. */
  lemma EndToEnd<Db>(exec: Exec<Db>, db: Db, cs: seq<Command>, chunks: seq<Bytes>)
    requires Concat(chunks) == Frames(cs) && Fitting(cs)
    ensures var d := Feed(exec, Drained(db, [], [], [], true), chunks);
      && d.db == After(exec, db, cs) && d.ran == cs && d.rest == [] && d.open
      && d.out == PackedAll(Answers(exec, db, cs))
      && (ReadAll(d.out) == Some(Answers(exec, db, cs)) <==>
            forall r <- Answers(exec, db, cs) :: 4 + |r.data| <= 4096)
  {
    hide Look, U32, Packed, Body, ReadAll;
    EmptyWaits();
    Pipelining(exec, db, [], chunks);
    assert [] + Concat(chunks) == Frames(cs) + [];
    ClientStream(exec, db, cs, []);
    assert cs + [] == cs && PackedAll(Answers(exec, db, cs)) + [] == PackedAll(Answers(exec, db, cs));
    ReadBack(Answers(exec, db, cs));
  }

  lemma PackedLong(r: Response)
    ensures |Packed(r)| == 8 + |r.data|
  {
  }

  // ---------- frames that close the connection ----------

  /** A frame that the server does not take: a length over 20000, or a body that is no command of at most 20000
      strings. */
  ghost predicate BadFrame(f: Bytes) {
    || (exists n :: 20000 < n < 0x1_0000_0000 && f == U32(n))
    || (exists b: Bytes :: |b| <= 20000 && f == U32(|b|) + b && forall c: Command | |c| <= 20000 :: b != Body(c))
  }

  /** The beginning of a frame of at most 20000 bytes. */
  ghost predicate Unfinished(b: Bytes) {
    |b| < 4 || exists n :: n <= 20000 && |b| < 4 + n && b[..4] == U32(n)
  }

  lemma LookBad(f: Bytes, rest: Bytes)
    requires BadFrame(f)
    ensures Look(f + rest) == Refuse
  {
    hide U32, Num, Parse, Body, Look;
    if n :| 20000 < n < 0x1_0000_0000 && f == U32(n) {
      LongRefused(n, rest);
    } else {
      var b: Bytes :| |b| <= 20000 && f == U32(|b|) + b && forall c: Command | |c| <= 20000 :: b != Body(c);
      NoCommandRefused(b, rest);
    }
  }

  lemma LongRefused(n: nat, rest: Bytes)
    requires 20000 < n < 0x1_0000_0000
    ensures Look(U32(n) + rest) == Refuse
  {
    hide U32, Num, Parse;
    NumU32(n, rest);
  }

  lemma NoCommandRefused(b: Bytes, rest: Bytes)
    requires |b| <= 20000 && forall c: Command | |c| <= 20000 :: b != Body(c)
    ensures Look(U32(|b|) + b + rest) == Refuse
  {
    hide Look, U32, Parse, Body;
    WholeFrame(b, rest);
    if Parse(b).Some? { ParseIff(b, Parse(b).value); }
  }

  lemma WholeFrame(b: Bytes, rest: Bytes)
    requires |b| <= 20000
    ensures Look(U32(|b|) + b + rest) == match Parse(b) case None => Refuse case Some(c) => Run(c, 4 + |b|)
  {
    hide U32, Num, Parse;
    var f := U32(|b|) + b + rest;
    assert f == U32(|b|) + (b + rest);
    NumU32(|b|, b + rest);
    assert f[4..4 + |b|] == b;
  }

  /** What the front of any buffer is. */
  lemma LookIs(b: Bytes) returns (f: Bytes)
    ensures Look(b).Wait? ==> Unfinished(b)
    ensures Look(b).Refuse? ==> BadFrame(f) && f <= b
    ensures Look(b).Run? ==> var c := Look(b).cmd;
      |Body(c)| <= 20000 && Look(b).size == |Frame(c)| && b == Frame(c) + b[|Frame(c)|..]
  {
    hide U32, Num, Parse, Body;
    f := [];
    if |b| >= 4 {
      U32Num(b);
      var n := Num(b);
      if n > 20000 {
        f := b[..4];
      } else if |b| >= 4 + n {
        var body := b[4..4 + n];
        f := U32(n) + body;
        assert b == f + b[4 + n..];
        if Parse(body).Some? {
          ParseIff(body, Parse(body).value);
        } else {
          NoCommand(body);
        }
      }
    }
  }

  lemma NoCommand(b: Bytes)
    requires Parse(b).None? && |b| <= 20000
    ensures forall c: Command | |c| <= 20000 :: b != Body(c)
  {
    hide U32, Num, Parse, Strings;
    forall c: Command | |c| <= 20000
      ensures b != Body(c)
    {
      Fit(c);
      ParseIff(b, c);
    }
  }

  /** Commands that fit, then a bad frame, then anything, in any chunks: the commands run and are answered, nothing
      behind them runs, and the connection is closed. */
  lemma BadFrameCloses<Db>(exec: Exec<Db>, db: Db, cs: seq<Command>, bad: Bytes, rest: Bytes, chunks: seq<Bytes>)
    requires Fitting(cs) && BadFrame(bad) && Concat(chunks) == Frames(cs) + bad + rest
    ensures var d := Feed(exec, Drained(db, [], [], [], true), chunks);
      && d.ran == cs && d.out == PackedAll(Answers(exec, db, cs)) && d.db == After(exec, db, cs) && !d.open
  {
    hide Look, U32, Packed, Body, BadFrame;
    EmptyWaits();
    Pipelining(exec, db, [], chunks);
    assert [] + Concat(chunks) == Frames(cs) + (bad + rest);
    ClientStream(exec, db, cs, bad + rest);
    LookBad(bad, rest);
    assert cs + [] == cs && PackedAll(Answers(exec, db, cs)) + [] == PackedAll(Answers(exec, db, cs));
  }

  /** Any stream is commands that fit, which are what ran, then the beginning of a frame, or a bad one. */
  lemma {:induction false} StreamIs<Db>(exec: Exec<Db>, db: Db, s: Bytes) returns (bad: Bytes)
    ensures var d := Drain(exec, db, s);
      && Fitting(d.ran) && s == Frames(d.ran) + d.rest && d.db == After(exec, db, d.ran)
      && (if d.open then Unfinished(d.rest) else BadFrame(bad) && bad <= d.rest)
    decreases |s|
  {
    hide Look, U32, Packed, Body, BadFrame, Unfinished;
    bad := LookIs(s);
    match Look(s)
    case Wait => assert Frames([]) + s == s;
    case Refuse => assert Frames([]) + s == s;
    case Run(c, n) =>
      bad := StreamIs(exec, exec(db, c).0, s[n..]);
      var d := Drain(exec, exec(db, c).0, s[n..]);
      assert ([c] + d.ran)[1..] == d.ran;
      assert Frame(c) + (Frames(d.ran) + d.rest) == (Frame(c) + Frames(d.ran)) + d.rest;
  }

  /** After some commands that fit there is a bad frame. */
  ghost predicate MeetsBad(s: Bytes) {
    exists cs, bad :: Fitting(cs) && BadFrame(bad) && Frames(cs) + bad <= s
  }

  /** In any chunks of any stream: the connection stays open exactly when no bad frame was reached, and what waits
      then is the beginning of a frame behind the commands that ran. */
  lemma OpenIff<Db>(exec: Exec<Db>, db: Db, chunks: seq<Bytes>)
    ensures var d := Feed(exec, Drained(db, [], [], [], true), chunks);
      && (d.open <==> !MeetsBad(Concat(chunks)))
      && (d.open ==> Concat(chunks) == Frames(d.ran) + d.rest && Unfinished(d.rest))
      && Fitting(d.ran) && d.db == After(exec, db, d.ran)
  {
    hide Look, U32, Packed, Body, BadFrame, Unfinished;
    var s := Concat(chunks);
    EmptyWaits();
    Pipelining(exec, db, [], chunks);
    assert [] + s == s;
    var d := Drain(exec, db, s);
    var f := StreamIs(exec, db, s);
    if !d.open {
      assert Frames(d.ran) + d.rest == Frames(d.ran) + f + d.rest[|f|..];
    }
    if MeetsBad(s) {
      var cs, bad :| Fitting(cs) && BadFrame(bad) && Frames(cs) + bad <= s;
      var rest := s[|Frames(cs) + bad|..];
      assert s == Frames(cs) + bad + rest;
      BadFrameCloses(exec, db, cs, bad, rest, chunks);
    }
  }

  /** Where the server waits for more there is the beginning of a frame, and nothing else. */
  lemma WaitIff(b: Bytes)
    ensures Look(b) == Wait <==> Unfinished(b)
  {
    hide Look, Unfinished;
    if Unfinished(b) { LookUnfinished(b); }
    var f := LookIs(b);
  }

  lemma LookUnfinished(b: Bytes)
    requires Unfinished(b)
    ensures Look(b) == Wait
  {
    hide U32, Num, Parse;
    if |b| >= 4 {
      var n :| n <= 20000 && |b| < 4 + n && b[..4] == U32(n);
      assert b == U32(n) + b[4..];
      NumU32(n, b[4..]);
    }
  }

  // ---------- the connection ----------

  lemma SliceOfSlice(s: Bytes, a: nat, b: nat, c: nat, d: nat)
    requires a <= b <= |s| && c <= d <= b - a
    ensures s[a..b][c..d] == s[a + c..a + d]
  {
    var t, u := s[a..b][c..d], s[a + c..a + d];
    assert |t| == |u| && forall i :: 0 <= i < |t| ==> t[i] == s[a..b][c + i] == u[i];
  }

  class Conn<!Db> {
    const exec: Exec<Db>
    var db: Db
    var inBuff: Bytes
    var otBuff: Bytes
    var inStart: nat
    var inEnd: nat
    var otEnd: nat
    var open: bool  // false: the state is CLOSED

    predicate Valid()
      reads this
    {
      inStart <= inEnd <= |inBuff| && otEnd <= |otBuff|
    }

    /** in_data() up to in_end */
    function Pending(): Bytes
      requires Valid()
      reads this
    {
      inBuff[inStart..inEnd]
    }

    function Sent(): Bytes
      requires Valid()
      reads this
    {
      otBuff[..otEnd]
    }

    constructor (exec: Exec<Db>, db: Db)
      ensures Valid() && open && this.exec == exec && this.db == db && Pending() == [] && Sent() == []
    {
      this.exec, this.db, inBuff, otBuff, inStart, inEnd, otEnd, open := exec, db, [], [], 0, 0, 0, true;
    }

    /** memcpy into the output buffer, which is as long as it needs to be. */
    method Put(s: Bytes)
      requires Valid()
      modifies this`otBuff, this`otEnd
      ensures Valid() && Sent() == old(Sent()) + s && Pending() == old(Pending())
    {
      otBuff := otBuff[..otEnd] + s + (if otEnd + |s| <= |otBuff| then otBuff[otEnd + |s|..] else []);
      otEnd := otEnd + |s|;
    }

    /** make_response */
    method MakeResponse(res: Response)
      requires Valid()
      modifies this`otBuff, this`otEnd
      ensures Valid() && Sent() == old(Sent()) + Packed(res) && Pending() == old(Pending())
    {
      Put(U32(4 + |res.data|));
      Put(U32(res.status));
      Put(res.data);
    }

    /** try_request: true when a command ran. */
    method TryRequest() returns (again: bool, ghost did: Drained<Db>)
      requires Valid() && open
      modifies this
      ensures Valid() && did.db == db && did.open == open && did.rest == Pending() && Sent() == old(Sent()) + did.out
      ensures again ==> open && inEnd == old(inEnd) && inStart > old(inStart)
      ensures Drain(exec, old(db), old(Pending())) == if again then did.Then(Drain(exec, db, Pending())) else did
    {
      hide Num, Parse, U32, Packed;
      did := Drained(db, [], [], Pending(), true);
      ghost var b := Pending();
      if inEnd - inStart < 4 { return false, did; }
      var len := Num(inBuff[inStart..inEnd]);
      if len > MAX_REQUEST {
        open := false;
        return false, did.(open := false);
      }
      if len + 4 > inEnd - inStart { return false, did; }
      var r, cmd := ParseReq(inBuff[inStart + 4..inStart + 4 + len]);
      SliceOfSlice(inBuff, inStart, inEnd, 4, 4 + len);
      if r < 0 {
        open := false;
        return false, did.(open := false);
      }
      var (db', res) := exec(db, cmd);
      db := db';
      MakeResponse(res);
      inStart := inStart + 4 + len;
      SliceOfSlice(inBuff, old(inStart), inEnd, 4 + len, |b|);
      return true, Drained(db', [cmd], Packed(res), Pending(), true);
    }

    /** handle_read once `chunk` has arrived: the bytes go to in_end (src/io.cpp:148 copies them to in_start), then
        the buffer is drained. */
    method HandleRead(chunk: Bytes) returns (ghost did: Drained<Db>)
      requires Valid() && open
      modifies this
      ensures Valid() && did == Drain(exec, old(db), old(Pending()) + chunk)
      ensures db == did.db && open == did.open && Pending() == did.rest && Sent() == old(Sent()) + did.out
    {
      hide Drain, Look;
      ghost var b := Pending() + chunk;
      inBuff := inBuff[..inEnd] + chunk;
      inEnd := inEnd + |chunk|;
      assert Pending() == b;
      var again := true;
      did := Drained(db, [], [], b, true);
      while again
        invariant Valid() && (again ==> open) && Sent() == old(Sent()) + did.out
        invariant did.db == db && did.open == open && did.rest == Pending()
        invariant Drain(exec, old(db), b) == if again then did.Then(Drain(exec, db, Pending())) else did
        decreases again, inEnd - inStart
      {
        ghost var step;
        ghost var before := did;
        ghost var p := Pending();
        again, step := TryRequest();
        did := before.Then(step);
        ThenThen(before, step, Drain(exec, db, Pending()));
      }
    }

    /** A connection from one read to the next, until it is closed or the stream ends. */
    method Serve(chunks: seq<Bytes>) returns (ghost did: Drained<Db>)
      requires Valid() && open && Pending() == [] && Sent() == []
      modifies this
      ensures Valid() && Same(did, Drain(exec, old(db), Concat(chunks)))
      ensures db == did.db && open == did.open && Pending() == did.rest && Sent() == did.out
    {
      did := Drained(db, [], [], [], true);
      var i := 0;
      while i < |chunks| && open
        invariant Valid() && i <= |chunks| && db == did.db && open == did.open && Pending() == did.rest
        invariant Sent() == did.out
        invariant Feed(exec, Drain(exec, old(db), []), chunks) == Feed(exec, did, chunks[i..])
      {
        ghost var d := HandleRead(chunks[i]);
        assert chunks[i..][1..] == chunks[i + 1..];
        did := did.Then(d);
        i := i + 1;
      }
      Pipelining(exec, old(db), [], chunks);
      assert [] + Concat(chunks) == Concat(chunks);
    }
  }
}
