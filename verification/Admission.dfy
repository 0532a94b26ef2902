/** The plugin chain of an agent and the counter of its requests in flight. */
module Admission {

  // ---- Composition ----

  /** The first middleware is outermost. */
  function Compose<E>(middlewares: seq<E -> E>, next: E): E {
    if middlewares == [] then next else middlewares[0](Compose(middlewares[1..], next))
  }

  method Use<E>(middlewares: seq<E -> E>, next: E) returns (chain: E)
    ensures chain == Compose(middlewares, next)
  {
    chain := next;
    var i := |middlewares|;
    while i > 0
      invariant 0 <= i <= |middlewares|
      invariant chain == Compose(middlewares[i..], next)
    {
      i := i - 1;
      chain := middlewares[i](chain);
      assert middlewares[i..][1..] == middlewares[i + 1..];
    }
    assert middlewares[0..] == middlewares;
  }

  datatype Middleware = RateLimit | Concurrent | RateLimitEnd | StressTest | LogLatency

  datatype EndPoint = Forward | Wrapped(mw: Middleware, next: EndPoint)

  function Wrap(m: Middleware): EndPoint -> EndPoint {
    next => Wrapped(m, next)
  }

  function PluginsMain(): EndPoint {
    Compose([Wrap(RateLimit), Wrap(Concurrent), Wrap(RateLimitEnd), Wrap(StressTest), Wrap(LogLatency)], Forward)
  }

  // What remains of the chain behind the limiter, and in the goroutine that Concurrent spawns.
  const SPAWNING := Wrapped(Concurrent, ENDING)
  const ENDING := Wrapped(RateLimitEnd, Wrapped(StressTest, Wrapped(LogLatency, Forward)))

  /** The limiter and Concurrent run in the reader, the rest in the goroutine that is spawned. */
  lemma PluginsMainOrder()
    ensures PluginsMain() ==
            Wrapped(RateLimit,
                    Wrapped(Concurrent, Wrapped(RateLimitEnd, Wrapped(StressTest, Wrapped(LogLatency, Forward)))))
  {
    var ms := [Wrap(RateLimit), Wrap(Concurrent), Wrap(RateLimitEnd), Wrap(StressTest), Wrap(LogLatency)];
    assert ms[1..] == [Wrap(Concurrent), Wrap(RateLimitEnd), Wrap(StressTest), Wrap(LogLatency)];
    assert ms[1..][1..] == [Wrap(RateLimitEnd), Wrap(StressTest), Wrap(LogLatency)];
    assert ms[1..][1..][1..] == [Wrap(StressTest), Wrap(LogLatency)];
    assert ms[1..][1..][1..][1..] == [Wrap(LogLatency)];
    assert Compose(ms[1..][1..][1..][1..], Forward) == Wrapped(LogLatency, Forward);
    assert Compose(ms[1..][1..][1..], Forward) == Wrapped(StressTest, Wrapped(LogLatency, Forward));
    assert Compose(ms[1..][1..], Forward) == Wrapped(RateLimitEnd, Wrapped(StressTest, Wrapped(LogLatency, Forward)));
  }

  // ---- One goroutine working its way through a chain ----

  const LIMIT := 10

  /** A goroutine: about to run an endpoint, between load and add of the counter, or on its way out. */
  datatype Task =
    | NotStarted
    | Run(at: EndPoint, defers: nat)      // defers counts the pending deferred decrements
    | Loaded(next: EndPoint, defers: nat)
    | Unwinding(defers: nat)              // returning or panicking
    | Finished

  /** StressTest may answer the message itself, well or with a panic, or go on. */
  datatype Choice = GoOn | Return | Panic

  datatype Effect = Nothing | Load | Increment | Decrement | Spawn(at: EndPoint) | Handle

  predicate Live(t: Task) {
    !t.NotStarted? && !t.Finished?
  }

  function Advance(t: Task, counter: int, c: Choice): (Task, Effect)
    requires Live(t)
  {
    match t
    case Loaded(next, d) => (Run(next, d), Increment)
    case Unwinding(d) => if d > 0 then (Unwinding(d - 1), Decrement) else (Finished, Nothing)
    case Run(Forward, d) => (Unwinding(d), Handle)
    case Run(Wrapped(m, next), d) =>
      match m
      case RateLimit => (if counter > LIMIT then Unwinding(d) else Loaded(next, d), Load)
      case Concurrent => (Unwinding(d), Spawn(next))
      case RateLimitEnd => (Run(next, d + 1), Nothing)
      case StressTest => (if c.GoOn? then Run(next, d) else Unwinding(d), Nothing)
      case LogLatency => (Run(next, d), Nothing)
  }

  // ---- All requests of an agent ----

  /**
   * A message: the reader's part and the part of the goroutine it spawns; what the limiter found in the counter, and
   * what was chosen at each step of the goroutine; how often the message was added to the counter, subtracted from it,
   * and forwarded.
   */
  datatype Request = Request(
    reader: Task, worker: Task, loads: seq<int>, choices: seq<Choice>, added: nat, ended: nat, forwards: nat)

  const ARRIVED := Request(Run(PluginsMain(), 0), NotStarted, [], [], 0, 0, 0)

  datatype State = State(counter: int, requests: seq<Request>)

  datatype Event = Arrive | Reader(k: nat, c: Choice) | Worker(k: nat, c: Choice)

  /** There is one reader, so a message arrives only when the chain has returned for the one before it. */
  predicate Enabled(s: State, e: Event) {
    match e
    case Arrive => s.requests == [] || s.requests[|s.requests| - 1].reader.Finished?
    case Reader(k, _) => k < |s.requests| && Live(s.requests[k].reader)
    case Worker(k, _) => k < |s.requests| && Live(s.requests[k].worker)
  }

  function Delta(eff: Effect): int {
    if eff.Increment? then 1 else if eff.Decrement? then -1 else 0
  }

  function Changed(r: Request, eff: Effect, counter: int): Request {
    match eff
    case Nothing => r
    case Load => r.(loads := r.loads + [counter])
    case Increment => r.(added := r.added + 1)
    case Decrement => r.(ended := r.ended + 1)
    case Spawn(ep) => r.(worker := Run(ep, 0))
    case Handle => r.(forwards := r.forwards + 1)
  }

  function Apply(s: State, k: nat, r: Request, eff: Effect): State
    requires k < |s.requests|
  {
    State(s.counter + Delta(eff), s.requests[k := Changed(r, eff, s.counter)])
  }

  function Next(s: State, e: Event): State
    requires Enabled(s, e)
  {
    match e
    case Arrive => s.(requests := s.requests + [ARRIVED])
    case Reader(k, c) =>
      var (t, eff) := Advance(s.requests[k].reader, s.counter, c);
      Apply(s, k, s.requests[k].(reader := t), eff)
    case Worker(k, c) =>
      var (t, eff) := Advance(s.requests[k].worker, s.counter, c);
      Apply(s, k, s.requests[k].(worker := t, choices := s.requests[k].choices + [c]), eff)
  }

  const INITIAL := State(0, [])

  ghost predicate IsRun(states: seq<State>, events: seq<Event>) {
    && |states| == |events| + 1
    && states[0] == INITIAL
    && forall i :: 0 <= i < |events| ==> Enabled(states[i], events[i]) && states[i + 1] == Next(states[i], events[i])
  }

  /** Admitted, and its RateLimitEnd has not yet run its deferred decrement. */
  predicate InFlight(r: Request) {
    r.added == 1 && r.ended == 0
  }

  function CountInFlight(rs: seq<Request>): nat {
    if rs == [] then 0 else (if InFlight(rs[0]) then 1 else 0) + CountInFlight(rs[1..])
  }

  lemma {:induction false} CountUpdate(rs: seq<Request>, k: nat, r: Request)
    requires k < |rs|
    ensures CountInFlight(rs[k := r]) ==
            CountInFlight(rs) - (if InFlight(rs[k]) then 1 else 0) + (if InFlight(r) then 1 else 0)
  {
    if k == 0 {
      assert rs[k := r][1..] == rs[1..];
    } else {
      CountUpdate(rs[1..], k - 1, r);
      assert rs[k := r][1..] == rs[1..][k - 1 := r];
    }
  }

  lemma {:induction false} CountAppend(rs: seq<Request>, r: Request)
    ensures CountInFlight(rs + [r]) == CountInFlight(rs) + if InFlight(r) then 1 else 0
  {
    if rs == [] {
      assert [r][1..] == [];
    } else {
      CountAppend(rs[1..], r);
      assert (rs + [r])[1..] == rs[1..] + [r];
    }
  }

  /** How far a request has come, and what it has done by then. */
  predicate Consistent(r: Request) {
    match r.reader
    case Run(ep, d) =>
      && d == 0 && Unspawned(r)
      && if r.loads == [] then ep == PluginsMain() && r.added == 0 else ep == SPAWNING && Passed(r)
    case Loaded(next, d) => d == 0 && Unspawned(r) && next == SPAWNING && r.added == 0 && Below(r)
    case NotStarted => false
    case _ =>  // on its way out
      && (r.reader.Unwinding? ==> r.reader.defers == 0)
      && if Below(r) then WorkerConsistent(r) else |r.loads| == 1 && Unspawned(r) && r.added == 0
  }

  predicate Unspawned(r: Request) {
    r.worker.NotStarted? && r.choices == [] && r.ended == r.forwards == 0
  }

  /** The limiter has looked at the counter once, and found it low enough. */
  predicate Below(r: Request) {
    |r.loads| == 1 && r.loads[0] <= LIMIT
  }

  predicate Passed(r: Request) {
    Below(r) && r.added == 1
  }

  predicate WorkerConsistent(r: Request) {
    && Passed(r)
    && match r.worker
       case Run(ep, d) =>
         && r.ended == r.forwards == 0 && d <= 1
         && (if d == 0 then |r.choices| == 0 && ep == ENDING
             else if |r.choices| == 1 then ep == ENDING.next
             else |r.choices| >= 2 && r.choices[1].GoOn? && (ep == ENDING.next.next || ep == Forward))
       case Unwinding(d) => d <= 1 && r.ended == 1 - d && Answered(r)
       case Finished => r.ended == 1 && Answered(r)
       case _ => false
  }

  /** It was forwarded exactly if StressTest, in the second step of the goroutine, went on. */
  predicate Answered(r: Request) {
    |r.choices| >= 2 && r.forwards == if r.choices[1].GoOn? then 1 else 0
  }

  function Weight(r: Request): int {
    if InFlight(r) then 1 else 0
  }

  /** The request after a step of the reader or of the goroutine it spawned. */
  function Stepped(r: Request, counter: int, c: Choice, byReader: bool): Request
    requires Live(if byReader then r.reader else r.worker)
  {
    var (t, eff) := Advance(if byReader then r.reader else r.worker, counter, c);
    Changed(if byReader then r.(reader := t) else r.(worker := t, choices := r.choices + [c]), eff, counter)
  }

  /** The step keeps the request consistent, and moves the counter as the request enters or leaves flight. */
  predicate StepsWell(r: Request, counter: int, c: Choice, byReader: bool)
    requires Live(if byReader then r.reader else r.worker)
  {
    var (t, eff) := Advance(if byReader then r.reader else r.worker, counter, c);
    var r' := Stepped(r, counter, c, byReader);
    && Consistent(r')
    && Weight(r') == Weight(r) + Delta(eff)
    && (eff.Increment? ==> byReader && r.reader.Loaded?)
    && (byReader && t.Loaded? ==> counter <= LIMIT)
    && (!byReader ==> r'.reader == r.reader)
  }

  /**
   * Before the limiter's add, a goroutine of the reader is where the chain begins; after it, where the chain spawns.
   */
  lemma ReaderStepsWell(r: Request, counter: int, c: Choice)
    requires Consistent(r) && Live(r.reader)
    ensures StepsWell(r, counter, c, true)
  {
    PluginsMainOrder();
    match r.reader
    case Run(ep, d) =>
      if ep == PluginsMain() {
        assert Advance(r.reader, counter, c) == (if counter > LIMIT then Unwinding(0) else Loaded(SPAWNING, 0), Load);
      } else {
        assert Advance(r.reader, counter, c) == (Unwinding(0), Spawn(ENDING));
      }
    case _ =>
  }

  lemma WorkerStepsWell(r: Request, counter: int, c: Choice)
    requires Consistent(r) && Live(r.worker)
    ensures StepsWell(r, counter, c, false)
  {
    var r' := Stepped(r, counter, c, false);
    assert r'.choices == r.choices + [c];
    assert WorkerConsistent(r');
  }

  lemma RequestStep(r: Request, counter: int, c: Choice, byReader: bool)
    requires Consistent(r) && Live(if byReader then r.reader else r.worker)
    ensures StepsWell(r, counter, c, byReader)
  {
    if byReader {
      ReaderStepsWell(r, counter, c);
    } else {
      WorkerStepsWell(r, counter, c);
    }
  }

  ghost predicate Inv(s: State) {
    && s.counter == CountInFlight(s.requests)
    && s.counter <= LIMIT + 1
    && (forall k :: 0 <= k < |s.requests| ==> Consistent(s.requests[k]))
    && (forall k :: 0 <= k < |s.requests| - 1 ==> s.requests[k].reader.Finished?)
    && (forall k :: 0 <= k < |s.requests| && s.requests[k].reader.Loaded? ==> s.counter <= LIMIT)
  }

  lemma ApplyKeepsInv(s: State, k: nat, r: Request, eff: Effect)
    requires Inv(s) && k < |s.requests|
    requires var r' := Changed(r, eff, s.counter);
             Consistent(r') && Weight(r') == Weight(s.requests[k]) + Delta(eff)
    requires k < |s.requests| - 1 ==> r.reader.Finished?
    requires r.reader.Loaded? ==> s.counter + Delta(eff) <= LIMIT
    requires eff.Increment? ==> s.requests[k].reader.Loaded?
    ensures Inv(Apply(s, k, r, eff))
  {
    CountUpdate(s.requests, k, Changed(r, eff, s.counter));
  }

  lemma NextKeepsInv(s: State, e: Event)
    requires Inv(s) && Enabled(s, e)
    ensures Inv(Next(s, e))
  {
    match e
    case Arrive =>
      CountAppend(s.requests, ARRIVED);
    case Reader(k, c) =>
      var r := s.requests[k];
      RequestStep(r, s.counter, c, true);
      var (t, eff) := Advance(r.reader, s.counter, c);
      ApplyKeepsInv(s, k, r.(reader := t), eff);
    case Worker(k, c) =>
      var r := s.requests[k];
      RequestStep(r, s.counter, c, false);
      var (t, eff) := Advance(r.worker, s.counter, c);
      ApplyKeepsInv(s, k, r.(worker := t, choices := r.choices + [c]), eff);
  }

  lemma {:induction false} InvAlways(states: seq<State>, events: seq<Event>, i: nat)
    requires IsRun(states, events) && i < |states|
    ensures Inv(states[i])
  {
    if i > 0 {
      InvAlways(states, events, i - 1);
      NextKeepsInv(states[i - 1], events[i - 1]);
    }
  }

  /**
   * In every interleaving, panics included, the counter is the number of admitted requests whose end has not run,
   * it stays within 0 and 11, and a request that is over has given back what it took.
   */
  lemma AdmissionIsCounted(states: seq<State>, events: seq<Event>, i: nat)
    requires IsRun(states, events) && i < |states|
    ensures states[i].counter == CountInFlight(states[i].requests)
    ensures 0 <= states[i].counter <= 11
    ensures forall r :: r in states[i].requests ==>
              && r.ended <= r.added <= 1
              && (r.reader.Finished? && !Live(r.worker) ==> r.ended == r.added)
  {
    InvAlways(states, events, i);
  }

  /**
   * In every interleaving a message that the reader is done with was admitted, counted and given to a goroutine exactly
   * if the limiter found at most 10 in the counter; and once that goroutine is done the message has been forwarded
   * once, or not at all exactly if StressTest answered it.
   */
  lemma AdmittedExactlyBelowLimit(states: seq<State>, events: seq<Event>, i: nat)
    requires IsRun(states, events) && i < |states|
    ensures forall r :: r in states[i].requests && r.reader.Finished? ==>
              && |r.loads| == 1
              && (r.loads[0] <= 10 <==> r.added == 1)
              && (r.loads[0] <= 10 <==> !r.worker.NotStarted?)
    ensures forall r :: r in states[i].requests && r.worker.Finished? ==>
              |r.choices| >= 2 && r.forwards == if r.choices[1].GoOn? then 1 else 0
    ensures forall r :: r in states[i].requests && r.worker.NotStarted? ==> r.forwards == 0
  {
    InvAlways(states, events, i);
  }

  function Arrivals(events: seq<Event>): nat {
    if events == [] then 0
    else Arrivals(events[..|events| - 1]) + if events[|events| - 1].Arrive? then 1 else 0
  }

  /** No message is lost on the way to the chain. */
  lemma {:induction false} EveryArrivalIsARequest(states: seq<State>, events: seq<Event>, i: nat)
    requires IsRun(states, events) && i < |states|
    ensures |states[i].requests| == Arrivals(events[..i])
  {
    if i > 0 {
      EveryArrivalIsARequest(states, events, i - 1);
      assert events[..i][..i - 1] == events[..i - 1];
    }
  }

  /** What the limiter finds is the counter of that moment, and decides at once whether the add comes next. */
  lemma LimiterReadsCounter(states: seq<State>, events: seq<Event>, i: nat)
    requires IsRun(states, events) && i < |events| && events[i].Reader?
    requires states[i].requests[events[i].k].loads == []
    ensures var r := states[i + 1].requests[events[i].k];
            && r.loads == [states[i].counter]
            && (if states[i].counter <= 10 then r.reader == Loaded(SPAWNING, 0) else r.reader == Unwinding(0))
  {
    InvAlways(states, events, i);
    PluginsMainOrder();
    var r := states[i].requests[events[i].k];
    assert r.reader.Run? && r.reader.at == PluginsMain();
  }

  /** The reader is never stuck: it can take the next message, or go on with the last one. Nor is any goroutine. */
  lemma SomeoneCanMove(states: seq<State>, events: seq<Event>, i: nat, c: Choice)
    requires IsRun(states, events) && i < |states|
    ensures var s := states[i];
            && (Enabled(s, Arrive) <==> s.requests == [] || !Enabled(s, Reader(|s.requests| - 1, c)))
            && (forall k :: 0 <= k < |s.requests| && s.requests[k].added == 1 && s.requests[k].reader.Finished? ==>
                  s.requests[k].worker.Finished? || Enabled(s, Worker(k, c)))
  {
    InvAlways(states, events, i);
  }

  /** An upper bound on the steps that a goroutine still takes. */
  function StepsLeft(t: Task): nat {
    match t
    case NotStarted => 0
    case Run(at, d) => 2 * Length(at) + d + 3
    case Loaded(next, d) => 2 * Length(next) + d + 4
    case Unwinding(d) => d + 1
    case Finished => 0
  }

  function Length(ep: EndPoint): nat {
    if ep.Forward? then 0 else 1 + Length(ep.next)
  }

  /** Every step of a goroutine brings it closer to its end, so no message stays in flight for ever. */
  lemma EveryStepCounts(t: Task, counter: int, c: Choice)
    requires Live(t)
    ensures StepsLeft(Advance(t, counter, c).0) < StepsLeft(t)
  {
    if t.Run? && t.at.Wrapped? {
      assert Length(t.at) == 1 + Length(t.at.next);
    }
  }
}
