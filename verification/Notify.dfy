/** The protocol between any number of Agent.Write callers and the one loopWrite: append, notify, take, pop, flush. */
module Notify {
  import opened LittleEndian
  import opened Frames
  import opened Reader
  import Writers

  const QUEUE := 5

  /**
   * Where a caller of Write is: not in a call, past the error check, or past the append and before the notification.
   */
  datatype Caller = Idle | Checked(f: Frame) | Appended

  /** Where loopWrite is: in its select, past receiving a token, or holding a popped batch. */
  datatype Loop = Waiting | Took | Popped(batch: seq<Frame>) | Exited

  /** flushed are the frames of the flushes that succeeded, sent the bytes that any flush has put on the connection. */
  datatype State = State(
    buf: seq<Frame>, tokens: nat, callers: seq<Caller>, loop: Loop,
    written: seq<Frame>, flushed: seq<Frame>, sent: seq<byte>, failed: bool)

  datatype Event =
    | Call(t: nat, f: Frame)  // Write is entered and finds no error
    | Append(t: nat)          // the frame goes into the buffer
    | Push(t: nat)            // the token goes into the channel
    | Timeout(t: nat)         // the ticker fires first, and the token is discarded
    | Take | Pop | FlushDone
    | FlushFailed(accepted: nat)  // the connection takes so many bytes of the batch and fails
    | Cancel                  // the context is done while loopWrite selects

  /** A token may be discarded once at least least are queued; what the source means is a full queue. */
  predicate Enabled(s: State, e: Event, least: nat) {
    match e
    case Call(t, _) => t < |s.callers| && s.callers[t].Idle? && !s.failed
    case Append(t) => t < |s.callers| && s.callers[t].Checked?
    case Push(t) => t < |s.callers| && s.callers[t].Appended? && s.tokens < QUEUE
    case Timeout(t) => t < |s.callers| && s.callers[t].Appended? && s.tokens >= least
    case Take => s.loop.Waiting? && s.tokens > 0
    case Pop => s.loop.Took?
    case FlushDone => s.loop.Popped?
    case FlushFailed(n) => s.loop.Popped? && n <= |Stream(s.loop.batch)|
    case Cancel => s.loop.Waiting?
  }

  function Next(s: State, e: Event, least: nat): State
    requires Enabled(s, e, least)
  {
    match e
    case Call(t, f) => s.(callers := s.callers[t := Checked(f)])
    case Append(t) =>
      var f := s.callers[t].f;
      s.(buf := s.buf + [f], written := s.written + [f], callers := s.callers[t := Appended])
    case Push(t) => s.(tokens := s.tokens + 1, callers := s.callers[t := Idle])
    case Timeout(t) => s.(callers := s.callers[t := Idle])
    case Take => s.(tokens := s.tokens - 1, loop := Took)
    case Pop =>
      if s.failed then s.(loop := Exited)
      else if s.buf == [] then s.(loop := Waiting)
      else s.(loop := Popped(s.buf), buf := [])
    case FlushDone =>
      s.(loop := Waiting, flushed := s.flushed + s.loop.batch, sent := s.sent + Stream(s.loop.batch))
    case FlushFailed(n) => s.(loop := Exited, sent := s.sent + Stream(s.loop.batch)[..n], failed := true)
    case Cancel => s.(loop := Exited)
  }

  function Initial(callers: nat): State {
    State([], 0, seq(callers, i => Idle), Waiting, [], [], [], false)
  }

  /** The events of a run, each enabled in the state the one before it led to. */
  ghost predicate IsRun(states: seq<State>, events: seq<Event>, least: nat) {
    && |states| == |events| + 1
    && forall i :: 0 <= i < |events| ==>
         Enabled(states[i], events[i], least) && states[i + 1] == Next(states[i], events[i], least)
  }

  // ---- Safety ----

  function InFlight(l: Loop): seq<Frame> {
    if l.Popped? then l.batch else []
  }

  ghost predicate SomeoneWillNotify(s: State) {
    exists t :: 0 <= t < |s.callers| && s.callers[t].Appended?
  }

  /** A frame in the buffer of a living loop is one that the loop will still be told about. */
  ghost predicate WakeUpPending(s: State) {
    !s.loop.Exited? && s.buf != [] ==> s.tokens > 0 || SomeoneWillNotify(s) || s.loop.Took?
  }

  ghost predicate Inv(s: State) {
    && s.tokens <= QUEUE
    && (s.failed ==> s.loop.Exited?)
    && s.flushed <= s.written
    && (!s.failed ==> s.flushed + InFlight(s.loop) + s.buf == s.written)
    && WakeUpPending(s)
  }

  lemma NextKeepsInv(s: State, e: Event, least: nat)
    requires Inv(s) && Enabled(s, e, least) && least > 0
    ensures Inv(Next(s, e, least))
  {
    var s' := Next(s, e, least);
    match e
    case Call(t, f) => StillNotifies(s, s', t);
    case Append(t) =>
      assert s'.callers[t].Appended?;
      if !s.failed {
        assert s.flushed + InFlight(s.loop) + (s.buf + [s.callers[t].f])
               == s.flushed + InFlight(s.loop) + s.buf + [s.callers[t].f];
      }
    case Pop =>
      if !s.failed && s.buf != [] {
        assert s.flushed + [] + s.buf == s.flushed + s.buf + [];
      }
    case FlushDone =>
      assert s.flushed + s.loop.batch + s.buf == (s.flushed + s.loop.batch) + [] + s.buf;
    case _ =>
  }

  lemma StillNotifies(s: State, s': State, t: nat)
    requires t < |s.callers| && !s.callers[t].Appended? && |s'.callers| == |s.callers|
    requires forall u :: 0 <= u < |s.callers| && u != t ==> s'.callers[u] == s.callers[u]
    ensures SomeoneWillNotify(s) ==> SomeoneWillNotify(s')
  {
    if SomeoneWillNotify(s) {
      var u :| 0 <= u < |s.callers| && s.callers[u].Appended?;
      assert s'.callers[u].Appended?;
    }
  }

  /** No wake-up is lost: the invariant holds throughout every run, however the callers and the loop interleave. */
  lemma {:induction false} NoLostWakeUp(callers: nat, states: seq<State>, events: seq<Event>, least: nat, i: nat)
    requires IsRun(states, events, least) && states[0] == Initial(callers) && least > 0 && i < |states|
    ensures Inv(states[i])
  {
    if i > 0 {
      NoLostWakeUp(callers, states, events, least, i - 1);
      NextKeepsInv(states[i - 1], events[i - 1], least);
    }
  }

  ghost predicate Quiet(s: State) {
    s.loop.Waiting? && s.tokens == 0 && forall t :: 0 <= t < |s.callers| ==> s.callers[t].Idle?
  }

  /** When no call is under way and the loop waits on an empty channel, everything written has been flushed. */
  lemma QuietMeansFlushed(callers: nat, states: seq<State>, events: seq<Event>, least: nat, i: nat)
    requires IsRun(states, events, least) && states[0] == Initial(callers) && least > 0 && i < |states|
    requires Quiet(states[i])
    ensures states[i].flushed == states[i].written
  {
    NoLostWakeUp(callers, states, events, least, i);
    assert states[i].buf == [];
  }

  // ---- Progress ----

  function CallerWork(c: Caller): nat {
    match c
    case Idle => 0
    case Checked(_) => 5
    case Appended => 4
  }

  function CallersWork(cs: seq<Caller>): nat {
    if cs == [] then 0 else CallerWork(cs[0]) + CallersWork(cs[1..])
  }

  function LoopWork(l: Loop): nat {
    match l
    case Took => 2
    case Popped(_) => 1
    case _ => 0
  }

  function Work(s: State): nat {
    CallersWork(s.callers) + 3 * s.tokens + LoopWork(s.loop)
  }

  /** Events of the protocol itself, as opposed to new calls and the end of the connection. */
  predicate Internal(e: Event) {
    !e.Call? && !e.Cancel?
  }

  lemma {:induction false} CallersWorkUpdate(cs: seq<Caller>, t: nat, c: Caller)
    requires t < |cs|
    ensures CallersWork(cs[t := c]) == CallersWork(cs) - CallerWork(cs[t]) + CallerWork(c)
  {
    if t == 0 {
      assert cs[t := c][1..] == cs[1..];
    } else {
      CallersWorkUpdate(cs[1..], t - 1, c);
      assert cs[t := c][1..] == cs[1..][t - 1 := c];
    }
  }

  lemma InternalEventsAreWork(s: State, e: Event, least: nat)
    requires Enabled(s, e, least) && Internal(e)
    ensures Work(Next(s, e, least)) < Work(s)
  {
    match e
    case Append(t) => CallersWorkUpdate(s.callers, t, Appended);
    case Push(t) => CallersWorkUpdate(s.callers, t, Idle);
    case Timeout(t) => CallersWorkUpdate(s.callers, t, Idle);
    case _ =>
  }

  ghost predicate Stuck(s: State, least: nat) {
    forall e :: Internal(e) ==> !Enabled(s, e, least)
  }

  /**
   * Without new calls the protocol runs dry, under any scheduling and in a bounded number of events; and where it
   * does, a living loop has flushed everything ever written.
   */
  lemma {:induction false} RunsDry(
      callers: nat, states: seq<State>, events: seq<Event>, least: nat, from: nat, to: nat)
    requires IsRun(states, events, least) && states[0] == Initial(callers) && 0 < least <= QUEUE
    requires from <= to < |states| && forall i :: from <= i < to ==> Internal(events[i])
    ensures to - from <= Work(states[from])
    ensures Stuck(states[to], least) && !states[to].loop.Exited? ==> states[to].flushed == states[to].written
  {
    InternalRunIsBounded(states, events, least, from, to);
    var s := states[to];
    if Stuck(s, least) && !s.loop.Exited? {
      assert !Enabled(s, Pop, least) && !Enabled(s, FlushDone, least) && !Enabled(s, Take, least);
      forall t | 0 <= t < |s.callers| ensures s.callers[t].Idle? {
        assert !Enabled(s, Append(t), least) && !Enabled(s, Push(t), least);
      }
      QuietMeansFlushed(callers, states, events, least, to);
    }
  }

  lemma {:induction false} InternalRunIsBounded(states: seq<State>, events: seq<Event>, least: nat, from: nat, to: nat)
    requires IsRun(states, events, least)
    requires from <= to < |states| && forall i :: from <= i < to ==> Internal(events[i])
    ensures to - from + Work(states[to]) <= Work(states[from])
  {
    if from < to {
      InternalRunIsBounded(states, events, least, from, to - 1);
      InternalEventsAreWork(states[to - 1], events[to - 1], least);
    }
  }

  // ---- What a run amounts to, event by event ----

  datatype Maybe = Nothing | Just(f: Frame)

  /** The frame that caller t was last given. */
  function LastCall(events: seq<Event>, t: nat): Maybe {
    if events == [] then Nothing
    else
      var e := events[|events| - 1];
      if e.Call? && e.t == t then Just(e.f) else LastCall(events[..|events| - 1], t)
  }

  /** The frames of the calls, in the order of the appends. */
  function FramesOf(events: seq<Event>): seq<Maybe> {
    if events == [] then []
    else
      var before, e := events[..|events| - 1], events[|events| - 1];
      FramesOf(before) + if e.Append? then [LastCall(before, e.t)] else []
  }

  function Wrap(fs: seq<Frame>): (ms: seq<Maybe>)
    ensures |ms| == |fs| && forall i :: 0 <= i < |fs| ==> ms[i] == Just(fs[i])
  {
    seq(|fs|, i requires 0 <= i < |fs| => Just(fs[i]))
  }

  /** Every call that gets as far as its append writes its own frame, once. */
  lemma {:induction false} CallsWriteTheirFrames(
      callers: nat, states: seq<State>, events: seq<Event>, least: nat, i: nat)
    requires IsRun(states, events, least) && states[0] == Initial(callers) && i < |states|
    ensures Wrap(states[i].written) == FramesOf(events[..i])
    ensures |states[i].callers| == callers
    ensures forall t :: 0 <= t < callers && states[i].callers[t].Checked? ==>
              LastCall(events[..i], t) == Just(states[i].callers[t].f)
  {
    if i > 0 {
      CallsWriteTheirFrames(callers, states, events, least, i - 1);
      var before, s, e := events[..i - 1], states[i - 1], events[i - 1];
      assert events[..i][..i - 1] == before;
      if e.Append? {
        assert Wrap(s.written + [s.callers[e.t].f]) == Wrap(s.written) + [Just(s.callers[e.t].f)];
      }
    }
  }

  ghost predicate Happened(events: seq<Event>, i: nat, cancel: bool) {
    exists k :: 0 <= k < i <= |events| && (events[k].FlushFailed? || (cancel && events[k].Cancel?))
  }

  /** The loop runs until it is cancelled or a flush fails, and not any longer; only a failed flush leaves an error. */
  lemma {:induction false} LoopRunsUntilTheEnd(
      callers: nat, states: seq<State>, events: seq<Event>, least: nat, i: nat)
    requires IsRun(states, events, least) && states[0] == Initial(callers) && i < |states|
    ensures states[i].loop.Exited? <==> Happened(events, i, true)
    ensures states[i].failed <==> Happened(events, i, false)
  {
    if i > 0 {
      LoopRunsUntilTheEnd(callers, states, events, least, i - 1);
      assert forall c :: Happened(events, i, c) <==>
          Happened(events, i - 1, c) || events[i - 1].FlushFailed? || (c && events[i - 1].Cancel?);
    }
  }

  /** Nobody waits for nothing: not a caller, with five places in the channel, and not the loop. */
  lemma NobodyIsStuck(s: State, t: nat, f: Frame, least: nat)
    requires t < |s.callers| && least <= 5
    ensures match s.callers[t]
            case Idle => Enabled(s, Call(t, f), least) <==> !s.failed
            case Checked(_) => Enabled(s, Append(t), least)
            case Appended =>
              && (Enabled(s, Push(t), least) <==> s.tokens < 5)
              && (Enabled(s, Timeout(t), least) <==> s.tokens >= least)
    ensures match s.loop
            case Waiting => Enabled(s, Cancel, least) && (Enabled(s, Take, least) <==> s.tokens > 0)
            case Took => Enabled(s, Pop, least)
            case Popped(_) => Enabled(s, FlushDone, least) && Enabled(s, FlushFailed(0), least)
            case Exited => true
  {
  }

  // ---- The protocol drives the writer ----

  /** The writer that a state of the protocol stands for, frames turned into bytes. */
  function WriterOf(s: State): Writers.WState {
    Writers.WState(Stream(s.buf), if s.loop.Popped? then [Stream(s.loop.batch)] else [], s.sent, s.written, s.failed)
  }

  /** The writer operations in an event; a batch found empty is let go, which is to flush nothing. */
  function OpsOf(s: State, e: Event): seq<Writers.Op>
    requires Enabled(s, e, 0)
  {
    if s.failed then [] else
    match e
    case Append(t) => [Writers.Write(s.callers[t].f)]
    case Pop => if s.buf == [] then [Writers.Pop, Writers.Flush(0, true)] else [Writers.Pop]
    case FlushDone => [Writers.Flush(|Stream(s.loop.batch)|, true)]
    case FlushFailed(n) => [Writers.Flush(n, false)]
    case _ => []
  }

  /** As long as no flush has failed, every event is matched by the operations of the byte-level writer. */
  lemma EventDrivesWriter(s: State, e: Event, least: nat)
    requires Enabled(s, e, least) && !s.failed
    ensures Writers.Leads(WriterOf(s), OpsOf(s, e), WriterOf(Next(s, e, least)))
  {
    var w, ops := WriterOf(s), OpsOf(s, e);
    match e
    case Append(t) =>
      StreamAppend(s.buf, [s.callers[t].f]);
      assert Writers.Leads(Writers.Step(w, ops[0]), [], WriterOf(Next(s, e, least)));
    case Pop =>
      assert [] + [Stream(s.buf)] == [Stream(s.buf)];
      if s.buf == [] {
        var w1 := Writers.Step(w, ops[0]);
        assert ops[1..] == [Writers.Flush(0, true)] && ops[1..][1..] == [];
        assert w1.pending == [[]] && w1.sent + [] == w1.sent && [[]][1..] == w.pending;
        assert Writers.Step(w1, ops[1]) == WriterOf(Next(s, e, least));
      }
    case FlushDone =>
      assert Stream(s.loop.batch)[..|Stream(s.loop.batch)|] == Stream(s.loop.batch);
      assert Writers.Leads(Writers.Step(w, ops[0]), [], WriterOf(Next(s, e, least)));
    case FlushFailed(n) =>
      assert Writers.Leads(Writers.Step(w, ops[0]), [], WriterOf(Next(s, e, least)));
    case _ =>
  }

  /** After a failed flush the writer stands still; a caller that had passed the error check may yet append in vain. */
  ghost predicate Follows(w: Writers.WState, s: State) {
    if s.failed then s.loop.Exited? && w.failed && w.sent == s.sent && w.log <= s.written else w == WriterOf(s)
  }

  lemma FollowsOn(w: Writers.WState, s: State, e: Event, least: nat)
    requires Enabled(s, e, least) && s.failed && Follows(w, s)
    ensures Follows(w, Next(s, e, least))
  {
  }

  lemma {:induction false} RunExtends(
      ws: seq<Writers.WState>, ops: seq<Writers.Op>, more: seq<Writers.Op>, w: Writers.WState)
    returns (ws': seq<Writers.WState>)
    requires Writers.IsRun(ws, ops) && Writers.Leads(ws[|ops|], more, w)
    ensures Writers.IsRun(ws', ops + more) && ws'[|ops + more|] == w
    decreases |more|
  {
    if more == [] {
      assert ops + more == ops;
      ws' := ws;
    } else {
      var longer := ws + [Writers.Step(ws[|ops|], more[0])];
      assert Writers.IsRun(longer, ops + [more[0]]);
      ws' := RunExtends(longer, ops + [more[0]], more[1..], w);
      assert ops + [more[0]] + more[1..] == ops + more;
    }
  }

  /**
   * In every interleaving, failed flushes included, the callers and the loop drive the writer through one of its runs.
   */
  lemma {:induction false} ProtocolDrivesWriter(
      callers: nat, states: seq<State>, events: seq<Event>, least: nat, i: nat)
    returns (ws: seq<Writers.WState>, ops: seq<Writers.Op>)
    requires IsRun(states, events, least) && states[0] == Initial(callers) && i < |states|
    ensures Writers.IsRun(ws, ops) && Follows(ws[|ops|], states[i])
  {
    if i == 0 {
      ws, ops := [Writers.INITIAL], [];
    } else {
      var s, e := states[i - 1], events[i - 1];
      ws, ops := ProtocolDrivesWriter(callers, states, events, least, i - 1);
      if s.failed {
        FollowsOn(ws[|ops|], s, e, least);
      } else {
        var more := OpsOf(s, e);
        EventDrivesWriter(s, e, least);
        ws := RunExtends(ws, ops, more, WriterOf(states[i]));
        ops := ops + more;
      }
    }
  }

  /**
   * So at every moment of every interleaving, what the connection has been given is a prefix of the frames in the
   * order in which they were appended, and a peer has been given a prefix of the messages.
   */
  lemma SentIsPrefix(callers: nat, states: seq<State>, events: seq<Event>, least: nat, i: nat)
    requires IsRun(states, events, least) && states[0] == Initial(callers) && i < |states|
    ensures states[i].sent <= Stream(states[i].written)
    ensures (forall f :: f in states[i].written ==> Acceptable(f)) ==>
              Parse(states[i].sent).msgs <= Messages(states[i].written)
  {
    var s := states[i];
    var ws, ops := ProtocolDrivesWriter(callers, states, events, least, i);
    var w := ws[|ops|];
    Writers.StreamSafety(ws, ops, |ops|);
    StreamAppend(w.log, s.written[|w.log|..]);
    assert w.log + s.written[|w.log|..] == s.written;
    if forall f :: f in s.written ==> Acceptable(f) {
      ParseStream(s.written, []);
      assert Stream(s.written) + [] == Stream(s.written) && Messages(s.written) + [] == Messages(s.written);
      ParsePrefix(s.sent, Stream(s.written));
    }
  }

  /**
   * And once things are quiet, a peer that has read what was sent, in pieces of any size, has been given exactly the
   * messages written.
   */
  lemma QuietPeerHasEverything(
      callers: nat, states: seq<State>, events: seq<Event>, least: nat, i: nat, chunks: seq<seq<byte>>)
    requires IsRun(states, events, least) && states[0] == Initial(callers) && least > 0 && i < |states|
    requires Quiet(states[i]) && Flatten(chunks) == states[i].sent
    requires forall f :: f in states[i].written ==> Acceptable(f)
    ensures Parse(Flatten(chunks)) == Parsed(Messages(states[i].written), Ended)
  {
    var s := states[i];
    NoLostWakeUp(callers, states, events, least, i);
    assert s.buf == [];
    var ws, ops := ProtocolDrivesWriter(callers, states, events, least, i);
    Writers.StreamSafety(ws, ops, |ops|);
    assert s.sent + [] + [] == s.sent;
    ChunkingIsInvisible(s.written, chunks);
  }

  // ---- The guard on the discard is needed, and how much of it ----

  ghost predicate AlwaysFlushed(least: nat) {
    forall callers: nat, states: seq<State>, events: seq<Event>, i ::
      IsRun(states, events, least) && states[0] == Initial(callers) && 0 <= i < |states| && Quiet(states[i]) ==>
        states[i].flushed == states[i].written
  }

  /** Frames cannot be stranded exactly when a token is discarded only while another one is queued. */
  lemma GuardIsExact(least: nat)
    ensures AlwaysFlushed(least) <==> least > 0
  {
    if least > 0 {
      forall callers: nat, states: seq<State>, events: seq<Event>, i |
        IsRun(states, events, least) && states[0] == Initial(callers) && 0 <= i < |states| && Quiet(states[i])
        ensures states[i].flushed == states[i].written
      {
        QuietMeansFlushed(callers, states, events, least, i);
      }
    } else {
      var f := Frame(1000, [], 0);
      var events := [Call(0, f), Append(0), Timeout(0)];
      var s0 := Initial(1);
      var s1 := Next(s0, events[0], least);
      var s2 := Next(s1, events[1], least);
      var s3 := Next(s2, events[2], least);
      var states := [s0, s1, s2, s3];
      assert IsRun(states, events, least);
      assert Quiet(states[3]) && states[3].flushed != states[3].written;
    }
  }
}
