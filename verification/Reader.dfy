/** The read loop of an agent, over a connection that hands out the stream in arbitrary pieces. */
module Reader {
  import opened LittleEndian
  import opened Frames

  function Flatten(chunks: seq<seq<byte>>): seq<byte> {
    if chunks == [] then [] else chunks[0] + Flatten(chunks[1..])
  }

  /** The receiving end of a connection: the pieces still to come, after which the stream has ended. */
  class Conn {
    var chunks: seq<seq<byte>>

    constructor (chunks: seq<seq<byte>>)
      ensures this.chunks == chunks
    {
      this.chunks := chunks;
    }

    /** Returns at most max bytes of the next piece, or reports the end of the stream. */
    method Read(max: nat) returns (got: seq<byte>, eof: bool)
      modifies this
      ensures eof <==> old(chunks) == []
      ensures |got| <= max && old(Flatten(chunks)) == got + Flatten(chunks)
      ensures !eof && max > 0 ==> got != [] || |chunks| < |old(chunks)|
      ensures |chunks| <= |old(chunks)|
    {
      if chunks == [] {
        return [], true;
      }
      var first := chunks[0];
      if |first| <= max {
        got := first;
        chunks := chunks[1..];
      } else {
        got := first[..max];
        chunks := [first[max..]] + chunks[1..];
        assert first == got + first[max..];
        assert old(chunks)[0] == first && chunks[1..] == old(chunks)[1..];
        assert Flatten(chunks) == first[max..] + Flatten(chunks[1..]);
      }
      eof := false;
    }

    /** io.ReadFull: exactly n bytes, however they are cut up, or failure if the stream has fewer left. */
    method ReadFull(n: nat) returns (buf: seq<byte>, ok: bool)
      modifies this
      ensures ok <==> |old(Flatten(chunks))| >= n
      ensures ok ==> buf == old(Flatten(chunks))[..n] && Flatten(chunks) == old(Flatten(chunks))[n..]
    {
      buf := [];
      while |buf| < n
        invariant |buf| <= n && old(Flatten(chunks)) == buf + Flatten(chunks)
        decreases n - |buf|, |chunks|
      {
        var got, eof := Read(n - |buf|);
        if eof {
          assert Flatten(chunks) == [];
          return buf, false;
        }
        ghost var before := buf;
        buf := buf + got;
        assert before + (got + Flatten(chunks)) == buf + Flatten(chunks);
      }
      ok := true;
    }
  }

  /** The messages among ms, the first being the k-th since start, that find the agent not disabled. */
  function Forwarded(ms: seq<Msg>, k: nat, disabled: nat -> bool): seq<Msg> {
    if ms == [] then [] else (if disabled(k) then [] else [ms[0]]) + Forwarded(ms[1..], k + 1, disabled)
  }

  lemma {:induction false} ForwardedAppend(ms: seq<Msg>, m: Msg, k: nat, disabled: nat -> bool)
    ensures Forwarded(ms + [m], k, disabled) ==
            Forwarded(ms, k, disabled) + if disabled(k + |ms|) then [] else [m]
  {
    if ms != [] {
      ForwardedAppend(ms[1..], m, k + 1, disabled);
      assert (ms + [m])[1..] == ms[1..] + [m];
    } else {
      assert [m][1..] == [];
    }
  }

  /** If the first d looks find the flag clear and all later ones find it set, the first d messages are handed on. */
  lemma {:induction false} ForwardedUntilDisabled(ms: seq<Msg>, k: nat, disabled: nat -> bool, d: nat)
    requires d <= |ms|
    requires forall j :: k <= j < k + |ms| ==> (disabled(j) <==> j >= k + d)
    ensures Forwarded(ms, k, disabled) == ms[..d]
  {
    if ms != [] {
      assert disabled(k) <==> d == 0;
      ForwardedUntilDisabled(ms[1..], k + 1, disabled, if d > 0 then d - 1 else 0);
    }
  }

  /**
   * loopRead. disabled says what the k-th look at the disable flag finds. What is handed to the plugin chain
   * depends on the bytes of the stream alone, not on how they were cut into pieces.
   */
  method LoopRead(conn: Conn, disabled: nat -> bool) returns (forwarded: seq<Msg>, stop: Stop)
    modifies conn
    ensures forwarded == Forwarded(Parse(old(Flatten(conn.chunks))).msgs, 0, disabled)
    ensures stop == Parse(old(Flatten(conn.chunks))).stop
  {
    ghost var all := Parse(Flatten(conn.chunks));
    ghost var done: seq<Msg> := [];
    forwarded := [];
    var looks := 0;
    while true
      invariant looks == |done| && forwarded == Forwarded(done, 0, disabled)
      invariant all.msgs == done + Parse(Flatten(conn.chunks)).msgs
      invariant all.stop == Parse(Flatten(conn.chunks)).stop
      decreases |Flatten(conn.chunks)|
    {
      ghost var s := Flatten(conn.chunks);
      var header, ok := conn.ReadFull(HEADER_LEN);
      if !ok {
        assert Parse(s) == Parsed([], Ended);
        assert all.msgs == done;
        return forwarded, Ended;
      }
      var verdict := HookHeader(header);
      if verdict.Refused? {
        assert Parse(s) == Parsed([], Rejected(verdict.error));
        assert all.msgs == done;
        return forwarded, Rejected(verdict.error);
      }
      var id, size := IdField(header), SizeOf(header);
      var bodySize: u32 := (size - HEADER_LEN) % 0x1_0000_0000;
      assert bodySize == size - HEADER_LEN;
      var body;
      body, ok := conn.ReadFull(bodySize);
      if !ok {
        assert Parse(s) == Parsed([], Ended);
        assert all.msgs == done;
        return forwarded, Ended;
      }
      assert s == header + body + Flatten(conn.chunks);
      ParseRound(header, body, Flatten(conn.chunks));
      ForwardedAppend(done, Msg(id, body), 0, disabled);
      Regroup(done, [Msg(id, body)], Parse(Flatten(conn.chunks)).msgs);
      done := done + [Msg(id, body)];
      if !disabled(looks) {
        forwarded := forwarded + [Msg(id, body)];
      }
      looks := looks + 1;
    }
  }

  /** A stream of acceptable frames, cut up in any way, is delivered as the framed messages. */
  lemma ChunkingIsInvisible(fs: seq<Frame>, chunks: seq<seq<byte>>)
    requires forall f :: f in fs ==> Acceptable(f)
    requires Flatten(chunks) == Stream(fs)
    ensures Parse(Flatten(chunks)) == Parsed(Messages(fs), Ended)
  {
    ParseStream(fs, []);
    assert Stream(fs) + [] == Stream(fs);
    assert Messages(fs) + [] == Messages(fs);
  }
}
