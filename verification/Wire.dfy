/** The wire format: 32-bit little-endian numbers, the request body that send_req writes and parse_req reads, and the
    response that make_response writes and read_res reads. */
module Wire {

  type Byte = b: nat | b < 256
  type Bytes = seq<Byte>
  type Command = seq<Bytes>

  datatype Option<T> = None | Some(value: T)

  const TWO32: nat := 0x1_0000_0000
  const MAX_REQUEST: nat := 20000   // both the longest frame and the most strings in it
  const K_MAX_MSG: nat := 4096

  /** The bytes of (uint32_t) n, the lowest first. */
  function U32(n: nat): (b: Bytes)
    ensures |b| == 4
  {
    [n % 256, n / 256 % 256, n / 256 / 256 % 256, n / 256 / 256 / 256 % 256]
  }

  /** What memcpy into a uint32_t reads. */
  function Num(b: Bytes): (n: nat)
    requires |b| >= 4
    ensures n < TWO32
  {
    b[0] as int + 256 * (b[1] as int + 256 * (b[2] as int + 256 * b[3] as int))
  }

  lemma NumU32(n: nat, rest: Bytes)
    ensures Num(U32(n) + rest) == n % 0x1_0000_0000
    ensures var b := U32(n);
      b[0] as int + 0x100 * b[1] as int + 0x1_0000 * b[2] as int + 0x100_0000 * b[3] as int == n % 0x1_0000_0000
  {
    var q := n / 256 / 256 / 256 / 256;
    var r := Num(U32(n) + rest);
    assert n == r + TWO32 * q;
    Remainder(n, r, q);
  }

  lemma Remainder(n: nat, r: nat, q: nat)
    requires n == r + TWO32 * q && r < TWO32
    ensures r == n % TWO32
  {
  }

  lemma U32Num(b: Bytes)
    requires |b| >= 4
    ensures U32(Num(b)) == b[..4]
  {
    var n := Num(b);
    assert n / 256 == b[1] as int + 256 * (b[2] as int + 256 * b[3] as int);
  }

  // ---------- requests ----------

  /** The strings, each behind its length. */
  function Strings(c: Command): Bytes {
    if c == [] then [] else U32(|c[0]|) + c[0] + Strings(c[1..])
  }

  /** The request body: the number of strings, then the strings. */
  function Body(c: Command): Bytes {
    U32(|c|) + Strings(c)
  }

  predicate Short(c: Command) {
    forall i :: 0 <= i < |c| ==> |c[i]| < TWO32
  }

  /** n strings that fill b to its end. */
  function Read(b: Bytes, n: nat): Option<Command> {
    if n == 0 then (if b == [] then Some([]) else None)
    else if |b| < 4 || |b| - 4 < Num(b) then None
    else
      var l := Num(b);
      match Read(b[4 + l..], n - 1)
      case None => None
      case Some(c) => Some([b[4..4 + l]] + c)
  }

  function Parse(b: Bytes): Option<Command> {
    if |b| < 4 || Num(b) > MAX_REQUEST then None else Read(b[4..], Num(b))
  }

  /** What Read accepts is exactly what Strings writes. */
  lemma {:induction false} ReadIsStrings(b: Bytes, n: nat)
    ensures var r := Read(b, n); r.Some? ==> |r.value| == n && Short(r.value) && b == Strings(r.value)
  {
    hide U32, Num;
    if n > 0 && |b| >= 4 && |b| - 4 >= Num(b) {
      var l := Num(b);
      var r := Read(b[4 + l..], n - 1);
      ReadIsStrings(b[4 + l..], n - 1);
      if r.Some? {
        U32Num(b);
        var c := [b[4..4 + l]] + r.value;
        assert c[1..] == r.value;
        assert b == b[..4] + b[4..4 + l] + b[4 + l..];
      }
    }
  }

  lemma {:induction false} ReadStrings(c: Command)
    requires Short(c)
    ensures Read(Strings(c), |c|) == Some(c)
  {
    hide U32, Num;
    if c != [] {
      var s, rest := c[0], Strings(c[1..]);
      var b := Strings(c);
      assert b == U32(|s|) + (s + rest);
      NumU32(|s|, s + rest);
      assert b[4 + |s|..] == rest && b[4..4 + |s|] == s;
      ReadStrings(c[1..]);
      assert [s] + c[1..] == c;
    }
  }

  /** A byte string parses to c exactly when it is the body of c, with at most 20000 strings whose lengths fit. */
  lemma ParseIff(b: Bytes, c: Command)
    ensures Parse(b) == Some(c) <==> b == Body(c) && |c| <= 20000 && Short(c)
  {
    hide U32, Num;
    if Parse(b) == Some(c) {
      ReadIsStrings(b[4..], Num(b));
      U32Num(b);
      assert b == b[..4] + b[4..];
    }
    if b == Body(c) && |c| <= MAX_REQUEST && Short(c) {
      NumU32(|c|, Strings(c));
      ReadStrings(c);
      assert b[4..] == Strings(c);
    }
  }

  /** Encode then parse gives the command back, and no two byte strings parse to the same command. */
  lemma ParseRoundTrip(c: Command, b1: Bytes, b2: Bytes)
    ensures |c| <= 20000 && Short(c) ==> Parse(Body(c)) == Some(c)
    ensures Parse(b1).Some? && Parse(b1) == Parse(b2) ==> b1 == b2
  {
    hide U32, Num;
    ParseIff(Body(c), c);
    if Parse(b1).Some? && Parse(b1) == Parse(b2) {
      ParseIff(b1, Parse(b1).value);
      ParseIff(b2, Parse(b1).value);
    }
  }

  /** parse_req; the result is 0 or -1, the strings come out in `out`. */
  method ParseReq(data: Bytes) returns (r: int, out: Command)
    ensures r == 0 || r == -1
    ensures r == 0 <==> Parse(data).Some?
    ensures r == 0 ==> Parse(data) == Some(out)
  {
    hide U32, Num;
    out := [];
    var cur, end := 0, |data|;
    if end - cur < 4 { return -1, out; }
    var nstr := Num(data[cur..]);
    cur := cur + 4;
    if nstr > MAX_REQUEST { return -1, out; }
    JoinedNone(Read(data[4..], nstr));
    while |out| < nstr
      invariant 4 <= cur <= end && |out| <= nstr
      invariant Parse(data) == Joined(out, Read(data[cur..], nstr - |out|))
    {
      ghost var c, left := cur, nstr - |out|;
      if end - cur < 4 { return -1, out; }
      var strLen := Num(data[cur..]);
      cur := cur + 4;
      if end - cur < strLen { return -1, out; }
      var s := data[cur..cur + strLen];
      JoinedOne(out, s, Read(data[cur + strLen..], left - 1));
      assert data[c..][4..4 + strLen] == s && data[c..][4 + strLen..] == data[cur + strLen..];
      out := out + [s];
      cur := cur + strLen;
    }
    if cur != end { return -1, out; }
    assert out + [] == out;
    r := 0;
  }

  function Joined(a: Command, r: Option<Command>): Option<Command> {
    if r.None? then None else Some(a + r.value)
  }

  lemma JoinedOne(a: Command, s: Bytes, r: Option<Command>)
    ensures Joined(a + [s], r) == Joined(a, Joined([s], r))
  {
    if r.Some? { assert (a + [s]) + r.value == a + ([s] + r.value); }
  }

  lemma JoinedNone(r: Option<Command>)
    ensures Joined([], r) == r
  {
    if r.Some? { assert [] + r.value == r.value; }
  }

  /** The length that send_req computes is a uint32_t. */
  function BodyLen(c: Command): nat {
    if c == [] then 4 else BodyLen(c[..|c| - 1]) + 4 + |c[|c| - 1]|
  }

  lemma {:induction false} StringsSnoc(c: Command, s: Bytes)
    ensures Strings(c + [s]) == Strings(c) + (U32(|s|) + s)
  {
    hide U32, Num;
    if c == [] {
      assert [] + [s] == [s] && [s][1..] == [];
    } else {
      StringsSnoc(c[1..], s);
      assert (c + [s])[1..] == c[1..] + [s] && (c + [s])[0] == c[0];
    }
  }

  lemma {:induction false} BodyLenIs(c: Command)
    ensures |Body(c)| == BodyLen(c)
  {
    hide U32, Num;
    if c != [] {
      var k := |c| - 1;
      BodyLenIs(c[..k]);
      StringsSnoc(c[..k], c[k]);
      assert c == c[..k] + [c[k]];
    }
  }

  /** memcpy */
  method CopyInto(buf: array<Byte>, cur: nat, s: Bytes)
    requires cur + |s| <= buf.Length
    modifies buf
    ensures buf[..cur + |s|] == old(buf[..cur]) + s
  {
    forall i | 0 <= i < |s| {
      buf[cur + i] := s[i];
    }
    assert buf[cur..cur + |s|] == s;
    assert buf[..cur + |s|] == buf[..cur] + buf[cur..cur + |s|];
  }

  /** One string of the request. */
  method PutString(wbuf: array<Byte>, cur: nat, s: Bytes)
    requires cur + 4 + |s| <= wbuf.Length
    modifies wbuf
    ensures wbuf[..cur + 4 + |s|] == old(wbuf[..cur]) + (U32(|s|) + s)
  {
    hide U32;
    CopyInto(wbuf, cur, U32(|s|));
    CopyInto(wbuf, cur + 4, s);
  }

  /** What send_req does up to write_all: it returns -1, writes past the end of wbuf, or has a frame to send. */
  datatype Outcome = Refused | Overrun | Sent(frame: Bytes)

  /** send_req up to write_all. The length is summed in a uint32_t, so that arguments of 4 GiB and more can wrap it to
      a length that wbuf seems to have room for. */
  method SendReq(cmd: Command) returns (r: Outcome)
    ensures r == if |Body(cmd)| % 0x1_0000_0000 > 4096 then Refused
                 else if |Body(cmd)| > 4096 then Overrun
                 else Sent(U32(|Body(cmd)|) + Body(cmd))
  {
    hide U32;
    BodyLenIs(cmd);
    var len := 4;
    for i := 0 to |cmd|
      invariant len == BodyLen(cmd[..i]) % TWO32
    {
      assert cmd[..i + 1][..i] == cmd[..i];
      len := (len + 4 + |cmd[i]|) % TWO32;
    }
    assert cmd[..|cmd|] == cmd;
    if len > K_MAX_MSG { return Refused; }
    var wbuf := new Byte[4 + K_MAX_MSG](_ => 0);
    var fits := PutStrings(wbuf, cmd, len);
    if !fits { return Overrun; }
    return Sent(wbuf[..4 + len]);
  }

  /** The copying half of send_req; false when a string does not fit any more. */
  method PutStrings(wbuf: array<Byte>, cmd: Command, len: nat) returns (fits: bool)
    requires len == BodyLen(cmd) % TWO32 && wbuf.Length == 4 + K_MAX_MSG
    modifies wbuf
    ensures fits <==> BodyLen(cmd) <= K_MAX_MSG
    ensures fits ==> len == BodyLen(cmd) && wbuf[..4 + len] == U32(len) + Body(cmd)
  {
    hide U32, BodyLen, Strings;
    LenMono(cmd, 0);
    CopyInto(wbuf, 0, U32(len));
    CopyInto(wbuf, 4, U32(|cmd|));
    assert U32(len) + U32(|cmd|) + Strings(cmd[..0]) == U32(len) + U32(|cmd|);
    var cur := 8;
    for i := 0 to |cmd|
      invariant cur == 4 + BodyLen(cmd[..i]) <= wbuf.Length
      invariant wbuf[..cur] == U32(len) + U32(|cmd|) + Strings(cmd[..i])
    {
      assert cmd[..i + 1] == cmd[..i] + [cmd[i]];
      LenMono(cmd, i + 1);
      StringsSnoc(cmd[..i], cmd[i]);
      if cur + 4 + |cmd[i]| > wbuf.Length { return false; }
      PutString(wbuf, cur, cmd[i]);
      cur := cur + 4 + |cmd[i]|;
    }
    assert cmd[..|cmd|] == cmd;
    return true;
  }

  lemma {:induction false} LenMono(c: Command, i: nat)
    requires i <= |c|
    ensures BodyLen(c[..i]) <= BodyLen(c)
    ensures i == 0 ==> BodyLen(c[..i]) == 4 && Strings(c[..i]) == []
    ensures i > 0 ==> BodyLen(c[..i]) == BodyLen(c[..i - 1]) + 4 + |c[i - 1]|
    decreases |c| - i
  {
    if i > 0 { assert c[..i][..i - 1] == c[..i - 1]; }
    if i < |c| {
      assert c[..i + 1][..i] == c[..i];
      LenMono(c, i + 1);
    } else {
      assert c[..i] == c;
    }
  }

  // ---------- responses ----------

  type Status = s: nat | s < 0x1_0000_0000

  datatype Response = Response(status: Status, data: Bytes)

  /** What make_response appends. */
  function Packed(res: Response): Bytes {
    U32(4 + |res.data|) + U32(res.status) + res.data
  }

  datatype Reply = Eof | TooLong | Bad | Got(res: Response, rest: Bytes)

  /** read_res: the first response of a byte stream, and what is left of the stream. */
  function ReadRes(b: Bytes): (r: Reply)
    ensures r.Got? ==> 4 + |r.res.data| <= K_MAX_MSG && |r.rest| < |b|
  {
    if |b| < 4 then Eof
    else if Num(b) > K_MAX_MSG then TooLong
    else if |b| - 4 < Num(b) then Eof
    else if Num(b) < 4 then Bad
    else Got(Response(Num(b[4..]), b[8..4 + Num(b)]), b[4 + Num(b)..])
  }

  /** read_res finds a response at the front of a byte stream exactly when make_response wrote it there, and it is no
      longer than the client takes. */
  lemma ReadPacked(b: Bytes, res: Response, rest: Bytes)
    ensures ReadRes(b) == Got(res, rest) <==> b == Packed(res) + rest && 4 + |res.data| <= 4096
  {
    hide ReadRes, Packed;
    if b == Packed(res) + rest && 4 + |res.data| <= K_MAX_MSG { ReadWritten(res, rest); }
    if ReadRes(b) == Got(res, rest) { ReadOnly(b, res, rest); }
  }

  lemma ReadWritten(res: Response, rest: Bytes)
    requires 4 + |res.data| <= K_MAX_MSG
    ensures ReadRes(Packed(res) + rest) == Got(res, rest)
  {
    hide U32, Num;
    var b, n := Packed(res) + rest, 4 + |res.data|;
    assert b == U32(n) + (U32(res.status) + res.data + rest);
    NumU32(n, U32(res.status) + res.data + rest);
    assert b[4..] == U32(res.status) + (res.data + rest);
    NumU32(res.status, res.data + rest);
    assert b[8..4 + n] == res.data && b[4 + n..] == rest;
  }

  lemma ReadOnly(b: Bytes, res: Response, rest: Bytes)
    requires ReadRes(b) == Got(res, rest)
    ensures b == Packed(res) + rest
  {
    hide U32, Num;
    var n := 4 + |res.data|;
    U32Num(b);
    U32Num(b[4..]);
    assert b == b[..4] + b[4..][..4] + b[8..4 + n] + b[4 + n..];
  }

  /** The request `get k`, and the response that there is no such key, byte for byte. */
  lemma OnTheWire()
    ensures Body([[103, 101, 116], [107]]) == [2, 0, 0, 0, 3, 0, 0, 0, 103, 101, 116, 1, 0, 0, 0, 107]
    ensures Packed(Response(2, [])) == [4, 0, 0, 0, 2, 0, 0, 0]
  {
    var c: Command := [[103, 101, 116], [107]];
    assert c[1..] == [[107]] && c[1..][1..] == [];
    assert Strings([]) == [] && Strings(c[1..]) == U32(1) + [107] + Strings(c[1..][1..]);
  }
}
