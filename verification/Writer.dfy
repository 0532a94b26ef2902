/** The batching writer of an agent: what is appended, popped and flushed, and what reaches the connection. */
module Writers {
  import opened LittleEndian
  import opened Frames

  const RETAINED_CAPACITY := 262144

  // ---- Runs ----

  function Concat(batches: seq<seq<byte>>): seq<byte> {
    if batches == [] then [] else batches[0] + Concat(batches[1..])
  }

  lemma {:induction false} ConcatAppend(batches: seq<seq<byte>>, b: seq<byte>)
    ensures Concat(batches + [b]) == Concat(batches) + b
  {
    if batches == [] {
      assert [b][1..] == [];
    } else {
      ConcatAppend(batches[1..], b);
      assert (batches + [b])[1..] == batches[1..] + [b];
    }
  }

  /** A writer and its surroundings: the popped batches not yet flushed, oldest first, and what the peer was sent. */
  datatype WState = WState(buf: seq<byte>, pending: seq<seq<byte>>, sent: seq<byte>, log: seq<Frame>, failed: bool)

  /** Flush hands over the oldest batch; the connection takes the first accepted bytes, all of them if it succeeds. */
  datatype Op = Write(f: Frame) | Pop | Flush(accepted: nat, succeeds: bool)

  predicate CanStep(s: WState, op: Op) {
    op.Flush? ==>
      && s.pending != []
      && op.accepted <= |s.pending[0]|
      && (op.succeeds ==> op.accepted == |s.pending[0]|)
  }

  function Step(s: WState, op: Op): WState
    requires CanStep(s, op)
  {
    if s.failed then s else
    match op
    case Write(f) => s.(buf := s.buf + FrameBytes(f), log := s.log + [f])
    case Pop => s.(buf := [], pending := s.pending + [s.buf])
    case Flush(n, ok) => s.(pending := s.pending[1..], sent := s.sent + s.pending[0][..n], failed := !ok)
  }

  const INITIAL := WState([], [], [], [], false)

  /** A run: the operations taken, each from the state the one before it left. */
  ghost predicate IsRun(states: seq<WState>, ops: seq<Op>) {
    && |states| == |ops| + 1
    && states[0] == INITIAL
    && forall i :: 0 <= i < |ops| ==> CanStep(states[i], ops[i]) && states[i + 1] == Step(states[i], ops[i])
  }

  ghost predicate Safe(s: WState) {
    && s.sent <= Stream(s.log)
    && (!s.failed ==> s.sent + Concat(s.pending) + s.buf == Stream(s.log))
  }

  lemma WriteKeepsSafe(s: WState, f: Frame)
    requires Safe(s) && !s.failed
    ensures Safe(Step(s, Op.Write(f)))
  {
    StreamAppend(s.log, [f]);
    assert Stream([f]) == FrameBytes(f);
    Regroup(s.sent + Concat(s.pending), s.buf, FrameBytes(f));
  }

  lemma PopKeepsSafe(s: WState)
    requires Safe(s) && !s.failed
    ensures Safe(Step(s, Op.Pop))
  {
    ConcatAppend(s.pending, s.buf);
    Regroup(s.sent, Concat(s.pending), s.buf);
  }

  lemma FlushKeepsSafe(s: WState, n: nat, ok: bool)
    requires Safe(s) && !s.failed && CanStep(s, Flush(n, ok))
    ensures Safe(Step(s, Flush(n, ok)))
  {
    var b, rest := s.pending[0], Concat(s.pending[1..]);
    assert s.sent + (b + rest) + s.buf == Stream(s.log);
    assert b == b[..n] + b[n..];
    assert s.sent + (b + rest) + s.buf == (s.sent + b[..n]) + (b[n..] + rest + s.buf);
    if ok {
      assert b[..n] == b;
      assert s.sent + (b + rest) + s.buf == (s.sent + b) + rest + s.buf;
    }
  }

  lemma StepKeepsSafe(s: WState, op: Op)
    requires Safe(s) && CanStep(s, op)
    ensures Safe(Step(s, op))
  {
    if !s.failed {
      match op
      case Write(f) => WriteKeepsSafe(s, f);
      case Pop => PopKeepsSafe(s);
      case Flush(n, ok) => FlushKeepsSafe(s, n, ok);
    }
  }

  /** In every run, failed flush or not, the peer has received a prefix of the frames in the order they were written. */
  lemma {:induction false} StreamSafety(states: seq<WState>, ops: seq<Op>, i: nat)
    requires IsRun(states, ops) && i < |states|
    ensures Safe(states[i])
  {
    if i > 0 {
      StreamSafety(states, ops, i - 1);
      StepKeepsSafe(states[i - 1], ops[i - 1]);
    }
  }

  /** What a peer that parses the stream has been given at any moment is a prefix of the messages written, or all. */
  lemma PeerReceivesPrefix(states: seq<WState>, ops: seq<Op>, i: nat)
    requires IsRun(states, ops) && i < |states|
    requires forall f :: f in states[i].log ==> Acceptable(f)
    ensures var s := states[i];
            && Parse(s.sent).msgs <= Messages(s.log)
            && (!s.failed && s.pending == [] && s.buf == [] ==> Parse(s.sent) == Parsed(Messages(s.log), Ended))
  {
    var s := states[i];
    StreamSafety(states, ops, i);
    ParseStream(s.log, []);
    assert Stream(s.log) + [] == Stream(s.log) && Messages(s.log) + [] == Messages(s.log);
    ParsePrefix(s.sent, Stream(s.log));
    if !s.failed && s.pending == [] && s.buf == [] {
      assert s.sent + [] + [] == s.sent;
    }
  }

  // ---- What a run amounts to, operation by operation ----

  ghost predicate FlushFailed(ops: seq<Op>) {
    exists k :: 0 <= k < |ops| && ops[k].Flush? && !ops[k].succeeds
  }

  /** The operations up to and with the first flush that fails; those after it find the writer in error. */
  function Effective(ops: seq<Op>): seq<Op> {
    if ops == [] then []
    else if ops[0].Flush? && !ops[0].succeeds then [ops[0]]
    else [ops[0]] + Effective(ops[1..])
  }

  function FramesOf(ops: seq<Op>): seq<Frame> {
    if ops == [] then []
    else FramesOf(ops[..|ops| - 1]) + if ops[|ops| - 1].Write? then [ops[|ops| - 1].f] else []
  }

  /** The frames written since the last pop. */
  function Unpopped(ops: seq<Op>): seq<Frame> {
    if ops == [] then []
    else
      var before := Unpopped(ops[..|ops| - 1]);
      match ops[|ops| - 1]
      case Write(f) => before + [f]
      case Pop => []
      case Flush(_, _) => before
  }

  /** How many bytes the connection has taken. */
  function Taken(ops: seq<Op>): nat {
    if ops == [] then 0
    else Taken(ops[..|ops| - 1]) + if ops[|ops| - 1].Flush? then ops[|ops| - 1].accepted else 0
  }

  /** How many batches have been popped and not flushed. */
  function Unflushed(ops: seq<Op>): int {
    if ops == [] then 0
    else
      var before := Unflushed(ops[..|ops| - 1]);
      match ops[|ops| - 1]
      case Write(_) => before
      case Pop => before + 1
      case Flush(_, _) => before - 1
  }

  lemma {:induction false} EffectiveAppend(ops: seq<Op>, op: Op)
    ensures Effective(ops + [op]) == if FlushFailed(ops) then Effective(ops) else ops + [op]
    ensures !FlushFailed(ops) ==> Effective(ops) == ops
  {
    if ops == [] {
      assert Effective([op][1..]) == [];
    } else {
      EffectiveAppend(ops[1..], op);
      assert ops == [ops[0]] + ops[1..] && (ops + [op])[1..] == ops[1..] + [op];
      if FlushFailed(ops) && !(ops[0].Flush? && !ops[0].succeeds) {
        var k :| 0 <= k < |ops| && ops[k].Flush? && !ops[k].succeeds;
        assert ops[1..][k - 1] == ops[k];
      }
    }
  }

  /** What the effective operations have made of the writer. */
  ghost predicate MadeBy(s: WState, ops: seq<Op>) {
    && s.log == FramesOf(ops)
    && s.buf == Stream(Unpopped(ops))
    && |s.sent| == Taken(ops)
    && |s.pending| == Unflushed(ops)
  }

  lemma StepMakes(s: WState, ops: seq<Op>, op: Op)
    requires MadeBy(s, ops) && !s.failed && CanStep(s, op)
    ensures MadeBy(Step(s, op), ops + [op])
  {
    var more := ops + [op];
    assert more[..|more| - 1] == ops;
    if op.Write? {
      StreamAppend(Unpopped(ops), [op.f]);
      assert Stream([op.f]) == FrameBytes(op.f);
    }
  }

  /**
   * The writer is in error exactly after a flush that failed. Up to then every frame written is logged, and those
   * since the last pop are in the buffer; every pop hands out a batch, and what was sent is what the flushes took.
   */
  lemma {:induction false} RunIsItsOperations(states: seq<WState>, ops: seq<Op>, i: nat)
    requires IsRun(states, ops) && i < |states|
    ensures states[i].failed <==> FlushFailed(ops[..i])
    ensures MadeBy(states[i], Effective(ops[..i]))
  {
    if i > 0 {
      var before, s, op := ops[..i - 1], states[i - 1], ops[i - 1];
      RunIsItsOperations(states, ops, i - 1);
      assert ops[..i] == before + [op];
      EffectiveAppend(before, op);
      FailureStays(before, op);
      if !s.failed {
        StepMakes(s, before, op);
      }
    }
  }

  lemma FailureStays(ops: seq<Op>, op: Op)
    ensures FlushFailed(ops + [op]) <==> FlushFailed(ops) || (op.Flush? && !op.succeeds)
  {
    var more := ops + [op];
    if FlushFailed(ops) {
      var k :| 0 <= k < |ops| && ops[k].Flush? && !ops[k].succeeds;
      assert more[k] == ops[k];
    }
    assert more[|ops|] == op;
  }

  /** The operations lead from s to t. */
  ghost predicate Leads(s: WState, ops: seq<Op>, t: WState)
    decreases |ops|
  {
    if ops == [] then t == s else CanStep(s, ops[0]) && Leads(Step(s, ops[0]), ops[1..], t)
  }

  /** A writer without error can always be drained, and then everything written has been sent. */
  lemma {:induction false} CanBeDrained(s: WState) returns (ops: seq<Op>)
    requires Safe(s) && !s.failed
    ensures forall op :: op in ops ==> !op.Write?
    ensures Leads(s, ops, WState([], [], Stream(s.log), s.log, false))
    decreases |s.pending| + if s.buf == [] then 0 else 2
  {
    if s.pending == [] && s.buf == [] {
      assert s.sent + [] + [] == s.sent;
      ops := [];
    } else {
      var op := if s.pending != [] then Flush(|s.pending[0]|, true) else Op.Pop;
      StepKeepsSafe(s, op);
      var rest := CanBeDrained(Step(s, op));
      ops := [op] + rest;
    }
  }

  // ---- The writer ----

  ghost function Contents(batches: seq<array<byte>>): (c: seq<seq<byte>>)
    reads batches
    ensures |c| == |batches| && forall i :: 0 <= i < |c| ==> c[i] == batches[i][..]
  {
    seq(|batches|, i requires 0 <= i < |batches| reads batches => batches[i][..])
  }

  class Writer {
    var b: array<byte>   // the backing array; its length is the capacity
    var n: nat           // how much of it is in use
    var err: bool
    ghost var pending: seq<array<byte>>
    ghost var sent: seq<byte>
    ghost var log: seq<Frame>

    ghost predicate Valid()
      reads this, b, pending
    {
      && n <= b.Length
      && b !in pending
    }

    ghost function Abs(): WState
      requires n <= b.Length
      reads this, b, pending
    {
      WState(b[..n], Contents(pending), sent, log, err)
    }

    constructor ()
      ensures Valid() && Abs() == INITIAL && fresh(b)
    {
      b := new byte[0];
      n, err, pending, sent, log := 0, false, [], [], [];
    }

    /** Appends a frame, in place while the capacity lasts. Popped batches are untouched, as they are copies. */
    method Write(msgID: u16, msg: seq<byte>, seqID: u32) returns (ok: bool)
      requires Valid()
      modifies this, b
      ensures Valid() && (b == old(b) || fresh(b))
      ensures ok == !old(err)
      ensures Abs() == Step(old(Abs()), Op.Write(Frame(msgID, msg, seqID)))
      ensures b == old(b) <==> old(err) || old(n) + |msg| + 10 <= old(b.Length)
      ensures pending == old(pending) && forall i :: 0 <= i < |pending| ==> pending[i][..] == old(pending[i][..])
    {
      if err {
        return false;
      }
      var buf := MakeFrame(msgID, msg, seqID);
      AppendBytes(buf[..]);
      log := log + [Frame(msgID, msg, seqID)];
      ok := true;
    }

    static method MakeFrame(msgID: u16, msg: seq<byte>, seqID: u32) returns (buf: array<byte>)
      ensures fresh(buf) && buf[..] == FrameBytes(Frame(msgID, msg, seqID))
    {
      var length := |msg|;
      buf := new byte[length + 10];
      Copy(buf, 10, msg);
      Copy(buf, 0, Put(msgID, 2));
      Copy(buf, 2, Put((length + 10) % 0x1_0000_0000, 4));
      Copy(buf, 6, Put(seqID, 4));
      assert buf[..] == buf[0..2] + buf[2..6] + buf[6..10] + buf[10..length + 10];
    }

    static method Copy(a: array<byte>, at: nat, s: seq<byte>)
      requires at + |s| <= a.Length
      modifies a
      ensures a[at..at + |s|] == s
      ensures a[..at] == old(a[..at]) && a[at + |s|..] == old(a[at + |s|..])
      ensures forall lo, hi :: 0 <= lo <= hi <= a.Length && (hi <= at || at + |s| <= lo) ==> a[lo..hi] == old(a[lo..hi])
    {
      forall i | 0 <= i < |s| {
        a[at + i] := s[i];
      }
    }

    static method Clone(s: seq<byte>) returns (a: array<byte>)
      ensures fresh(a) && a[..] == s
    {
      a := new byte[|s|];
      Copy(a, 0, s);
      assert a[..] == a[0..|s|];
    }

    method AppendBytes(s: seq<byte>)
      requires n <= b.Length && b !in pending
      modifies this`b, this`n, b
      ensures n <= b.Length && b !in pending && (b == old(b) || fresh(b))
      ensures b[..n] == old(b[..n]) + s
      ensures b == old(b) <==> old(n) + |s| <= old(b.Length)
    {
      if n + |s| > b.Length {
        var capacity: nat :| capacity >= n + |s|;
        var bigger := new byte[capacity];
        Copy(bigger, 0, b[..n]);
        assert bigger[..n] == bigger[0..n];
        b := bigger;
      }
      Copy(b, n, s);
      assert b[..n + |s|] == b[..n] + b[n..n + |s|];
      n := n + |s|;
    }

    /** Takes a copy of everything buffered, and drops a backing array that has grown too large. */
    method Pop() returns (batch: array?<byte>)
      requires Valid()
      modifies this
      ensures Valid() && (batch == null <==> old(err))
      ensures Abs() == Step(old(Abs()), Op.Pop)
      ensures batch != null ==>
                && fresh(batch) && batch[..] == old(b[..n]) && pending == old(pending) + [batch] && n == 0
                && if old(b.Length) > 262144 then fresh(b) && b.Length == 0 else b == old(b)
    {
      if err {
        return null;
      }
      var tmp := Clone(b[..n]);
      if b.Length > RETAINED_CAPACITY {
        b := new byte[0];
      }
      n := 0;
      pending := pending + [tmp];
      assert Contents(pending) == old(Contents(pending)) + [tmp[..]];
      return tmp;
    }

    /** Hands the oldest popped batch to the connection; an error is remembered for good. */
    method Flush(batch: array<byte>, accepted: nat, succeeds: bool) returns (ok: bool)
      requires Valid() && pending != [] && batch == pending[0]
      requires accepted <= batch.Length && (succeeds ==> accepted == batch.Length)
      modifies this`err, this`pending, this`sent
      ensures Valid() && ok == !err
      ensures Abs() == Step(old(Abs()), Op.Flush(accepted, succeeds))
    {
      if err {
        return false;
      }
      sent := sent + batch[..accepted];
      pending := pending[1..];
      assert Contents(pending) == old(Contents(pending))[1..];
      if !succeeds {
        err := true;
      }
      ok := !err;
    }
  }
}
