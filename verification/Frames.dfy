/** Frames on the wire, the header check, and the parse of a byte stream into messages. */
module Frames {
  import opened LittleEndian

  type u16 = x: int | 0 <= x < 0x1_0000
  type u32 = x: int | 0 <= x < 0x1_0000_0000

  const HEADER_LEN := 10
  const MIN_ID: u16 := 1000
  const MAX_ID: u16 := 60000
  const MIN_SIZE: u32 := 10
  const MAX_SIZE: u32 := 1024 * 1024

  datatype Msg = Msg(id: u16, body: seq<byte>)

  datatype Frame = Frame(id: u16, body: seq<byte>, seqId: u32)

  /** The size field is a uint32 and would wrap on a body of 4 GB. */
  function SizeField(body: seq<byte>): u32 {
    (|body| + HEADER_LEN) % 0x1_0000_0000
  }

  function Header(f: Frame): (h: seq<byte>)
    ensures |h| == HEADER_LEN
  {
    Put(f.id, 2) + Put(SizeField(f.body), 4) + Put(f.seqId, 4)
  }

  function FrameBytes(f: Frame): seq<byte> {
    Header(f) + f.body
  }

  function Stream(fs: seq<Frame>): seq<byte> {
    if fs == [] then [] else FrameBytes(fs[0]) + Stream(fs[1..])
  }

  function Messages(fs: seq<Frame>): (ms: seq<Msg>)
    ensures |ms| == |fs|
  {
    seq(|fs|, i requires 0 <= i < |fs| => Msg(fs[i].id, fs[i].body))
  }

  lemma Regroup<T>(a: seq<T>, b: seq<T>, c: seq<T>)
    ensures a + (b + c) == (a + b) + c
  {
  }

  lemma MessagesCons(f: Frame, fs: seq<Frame>)
    ensures Messages([f] + fs) == [Msg(f.id, f.body)] + Messages(fs)
  {
  }

  lemma {:induction false} StreamAppend(fs: seq<Frame>, gs: seq<Frame>)
    ensures Stream(fs + gs) == Stream(fs) + Stream(gs)
  {
    if fs == [] {
      assert fs + gs == gs;
    } else {
      var head, rest := FrameBytes(fs[0]), fs[1..] + gs;
      assert (fs + gs)[1..] == rest;
      StreamAppend(fs[1..], gs);
      Regroup(head, Stream(fs[1..]), Stream(gs));
    }
  }

  // ---- Reading ----

  datatype HeaderError = BadId | BadSize

  datatype Verdict = Accepted | Refused(error: HeaderError)

  function IdField(h: seq<byte>): u16
    requires |h| == HEADER_LEN
  {
    Pow256Values();
    PutGet(h[..2]);
    Get(h[..2])
  }

  function SizeOf(h: seq<byte>): u32
    requires |h| == HEADER_LEN
  {
    Pow256Values();
    PutGet(h[2..6]);
    Get(h[2..6])
  }

  function SeqField(h: seq<byte>): u32
    requires |h| == HEADER_LEN
  {
    Pow256Values();
    PutGet(h[6..10]);
    Get(h[6..10])
  }

  function HookHeader(h: seq<byte>): Verdict
    requires |h| == HEADER_LEN
  {
    if IdField(h) < MIN_ID || IdField(h) > MAX_ID then Refused(BadId)
    else if SizeOf(h) < MIN_SIZE || SizeOf(h) > MAX_SIZE then Refused(BadSize)
    else Accepted
  }

  /** The frames a reader lets through. */
  predicate Acceptable(f: Frame) {
    MIN_ID <= f.id <= MAX_ID && |f.body| + HEADER_LEN <= MAX_SIZE
  }

  /** The three fields of a written header read back as written. */
  lemma HeaderReadsBack(f: Frame)
    ensures IdField(Header(f)) == f.id && SizeOf(Header(f)) == SizeField(f.body) && SeqField(Header(f)) == f.seqId
  {
    var h := Header(f);
    Pow256Values();
    GetPut(f.id, 2);
    GetPut(SizeField(f.body), 4);
    GetPut(f.seqId, 4);
    assert h[..2] == Put(f.id, 2) && h[2..6] == Put(SizeField(f.body), 4) && h[6..10] == Put(f.seqId, 4);
  }

  /** Ten bytes are the header with the fields they hold. */
  lemma HeaderIsItsFields(h: seq<byte>, body: seq<byte>)
    requires |h| == HEADER_LEN && SizeField(body) == SizeOf(h)
    ensures Header(Frame(IdField(h), body, SeqField(h))) == h
  {
    assert Put(IdField(h), 2) == h[..2] by { PutGet(h[..2]); }
    assert Put(SizeOf(h), 4) == h[2..6] by { PutGet(h[2..6]); }
    assert Put(SeqField(h), 4) == h[6..10] by { PutGet(h[6..10]); }
    assert h == h[..2] + h[2..6] + h[6..10];
  }

  /** Why reading stops: the stream ends, perhaps inside a frame, or a header is refused. */
  datatype Stop = Ended | Rejected(error: HeaderError)

  datatype Parsed = Parsed(msgs: seq<Msg>, stop: Stop)

  /** The messages in a byte stream that arrives in one piece. */
  function Parse(s: seq<byte>): Parsed {
    if |s| < HEADER_LEN then Parsed([], Ended) else
    var h := s[..HEADER_LEN];
    match HookHeader(h)
    case Refused(e) => Parsed([], Rejected(e))
    case Accepted =>
      if |s| < SizeOf(h) then Parsed([], Ended)
      else
        var rest := Parse(s[SizeOf(h)..]);
        Parsed([Msg(IdField(h), s[HEADER_LEN..SizeOf(h)])] + rest.msgs, rest.stop)
  }

  /** One round of parsing: a header that is let through, its body, and the rest. */
  lemma ParseRound(h: seq<byte>, body: seq<byte>, rest: seq<byte>)
    requires |h| == HEADER_LEN && HookHeader(h).Accepted? && SizeOf(h) == HEADER_LEN + |body|
    ensures Parse(h + body + rest) == Parsed([Msg(IdField(h), body)] + Parse(rest).msgs, Parse(rest).stop)
  {
    var s := h + body + rest;
    assert s[..HEADER_LEN] == h && s[HEADER_LEN..SizeOf(h)] == body && s[SizeOf(h)..] == rest;
  }

  lemma ParseFrame(f: Frame, s: seq<byte>)
    requires Acceptable(f)
    ensures Parse(FrameBytes(f) + s) == Parsed([Msg(f.id, f.body)] + Parse(s).msgs, Parse(s).stop)
  {
    var h := Header(f);
    assert HookHeader(h).Accepted? && SizeOf(h) == HEADER_LEN + |f.body| && IdField(h) == f.id by {
      HeaderReadsBack(f);
    }
    ParseRound(h, f.body, s);
  }

  /** Acceptable frames are recovered, in order, and what follows them is read as if it came alone. */
  lemma {:induction false} ParseStream(fs: seq<Frame>, s: seq<byte>)
    requires forall f :: f in fs ==> Acceptable(f)
    ensures Parse(Stream(fs) + s) == Parsed(Messages(fs) + Parse(s).msgs, Parse(s).stop)
  {
    if fs == [] {
      assert Stream(fs) + s == s;
    } else {
      ParseStream(fs[1..], s);
      ParseFrame(fs[0], Stream(fs[1..]) + s);
      Regroup(FrameBytes(fs[0]), Stream(fs[1..]), s);
      Regroup([Msg(fs[0].id, fs[0].body)], Messages(fs[1..]), Parse(s).msgs);
      MessagesCons(fs[0], fs[1..]);
      assert fs == [fs[0]] + fs[1..];
    }
  }

  /** Everything delivered came as a complete acceptable frame, and the rest of the stream delivers nothing. */
  lemma {:induction false} ParseSplits(s: seq<byte>) returns (fs: seq<Frame>, rest: seq<byte>)
    ensures s == Stream(fs) + rest && Messages(fs) == Parse(s).msgs
    ensures forall f :: f in fs ==> Acceptable(f)
    ensures Parse(rest) == Parsed([], Parse(s).stop)
    decreases |s|
  {
    fs, rest := [], s;
    if |s| >= HEADER_LEN && HookHeader(s[..HEADER_LEN]).Accepted? && |s| >= SizeOf(s[..HEADER_LEN]) {
      var h, n := s[..HEADER_LEN], SizeOf(s[..HEADER_LEN]);
      var f := Frame(IdField(h), s[HEADER_LEN..n], SeqField(h));
      HeaderIsItsFields(h, f.body);
      assert s == (h + s[HEADER_LEN..n]) + s[n..];
      var gs, tail := ParseSplits(s[n..]);
      fs, rest := [f] + gs, tail;
      MessagesCons(f, gs);
      Regroup(FrameBytes(f), Stream(gs), tail);
    }
  }

  /** A stream cut short delivers a prefix of what the whole stream delivers. */
  lemma {:induction false} ParsePrefix(p: seq<byte>, s: seq<byte>)
    requires p <= s
    ensures Parse(p).msgs <= Parse(s).msgs
    decreases |p|
  {
    if |p| >= HEADER_LEN {
      var h := p[..HEADER_LEN];
      assert s[..HEADER_LEN] == h;
      if HookHeader(h).Accepted? && |p| >= SizeOf(h) {
        ParsePrefix(p[SizeOf(h)..], s[SizeOf(h)..]);
        assert p[HEADER_LEN..SizeOf(h)] == s[HEADER_LEN..SizeOf(h)];
      }
    }
  }

  /** A header that is refused, or one whose body is not all there. */
  lemma ParseStops(h: seq<byte>, s: seq<byte>)
    requires |h| == HEADER_LEN <= |s| && s[..HEADER_LEN] == h
    ensures HookHeader(h).Refused? ==> Parse(s) == Parsed([], Rejected(HookHeader(h).error))
    ensures HookHeader(h).Accepted? && |s| < SizeOf(h) ==> Parse(s) == Parsed([], Ended)
  {
  }

  lemma HeaderSize(f: Frame)
    requires |f.body| + HEADER_LEN < 0x1_0000_0000
    ensures SizeOf(Header(f)) == HEADER_LEN + |f.body|
  {
    HeaderReadsBack(f);
  }

  lemma TailIsDropped(h: seq<byte>, body: seq<byte>, tail: seq<byte>)
    requires |h| == HEADER_LEN && SizeOf(h) == HEADER_LEN + |body|
    requires tail < h + body || (h <= tail && HookHeader(h).Refused?)
    ensures Parse(tail) ==
            Parsed([], if |tail| >= 10 && HookHeader(h).Refused? then Rejected(HookHeader(h).error) else Ended)
  {
    if |tail| >= HEADER_LEN {
      assert tail < h + body ==> tail[..HEADER_LEN] == (h + body)[..HEADER_LEN];
      assert tail[..HEADER_LEN] == h;
      ParseStops(h, tail);
    }
  }

  /** Neither a frame that is cut off nor one whose header is refused is ever delivered. */
  lemma TrailingIsDropped(fs: seq<Frame>, f: Frame, tail: seq<byte>)
    requires forall g :: g in fs ==> Acceptable(g)
    requires |f.body| + HEADER_LEN < 0x1_0000_0000
    requires tail < FrameBytes(f) || (Header(f) <= tail && HookHeader(Header(f)).Refused?)
    ensures var h := Header(f);
            Parse(Stream(fs) + tail) ==
            Parsed(
              Messages(fs), if |tail| >= 10 && HookHeader(h).Refused? then Rejected(HookHeader(h).error) else Ended)
  {
    HeaderSize(f);
    TailIsDropped(Header(f), f.body, tail);
    ParseStream(fs, tail);
    assert Messages(fs) + [] == Messages(fs);
  }
}
