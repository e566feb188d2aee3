/** Where the text of the connection and the commands departs from the model above: what the text does instead, an
    input on which that goes wrong, and exactly when it does not. */
module AsWritten {
  import W = Wire
  import C = Commands

  // ---------- src/io.cpp:148: where new bytes go ----------

  /** What is pending after `chunk` was copied to in_start; `stale` is what the buffer held behind in_end. */
  function ReadText(pending: W.Bytes, chunk: W.Bytes, stale: W.Bytes): W.Bytes
    requires |stale| == |chunk|
  {
    chunk + (pending + stale)[|chunk|..]
  }

  /** That is the stream, whatever arrives, exactly when nothing was pending. */
  lemma ReadTextIff(pending: W.Bytes)
    ensures pending == [] <==>
      forall chunk: W.Bytes, stale: W.Bytes | |stale| == |chunk| :: ReadText(pending, chunk, stale) == pending + chunk
  {
    if pending != [] {
      var b: W.Byte := if pending[0] == 0 then 1 else 0;
      assert ReadText(pending, [b], [b])[0] == b != (pending + [b])[0];
    } else {
      forall chunk: W.Bytes, stale: W.Bytes | |stale| == |chunk|
        ensures ReadText(pending, chunk, stale) == pending + chunk
      {
        assert ([] + stale)[|chunk|..] == [];
      }
    }
  }

  // ---------- src/io.cpp:344-358: set ----------

  /** set_val as it stands; None where it goes on with an entry that it never set. */
  function SetText(m: C.Plain, key: string, s: string): W.Option<(C.Plain, C.Reply)> {
    if key !in m then W.Some((m[key := C.Str(s)], C.Reply(C.RES_OK, C.SetText(key, s))))
    else if !m[key].Str? then W.Some((m, C.Reply(C.RES_ERR, C.TypeMismatch)))
    else W.None
  }

  lemma SetTextIff(m: C.Plain, key: string, s: string)
    ensures SetText(m, key, s) == W.Some(C.SetTo(m, key, s)) <==> key !in m || !m[key].Str?
  {
  }
}
