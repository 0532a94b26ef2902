/** The gateway's registry of agents, and how it keeps step with the connection counter. */
module Registry {

  // ---- Identifiers ----

  /** unicode.IsSpace. */
  predicate IsSpace(c: char) {
    var u := c as int;
    9 <= u <= 13 || u == 0x20 || u == 0x85 || u == 0xA0 || u == 0x1680 || 0x2000 <= u <= 0x200a
    || u == 0x2028 || u == 0x2029 || u == 0x202f || u == 0x205f || u == 0x3000
  }

  lemma SpacesOfAscii(c: char)
    requires c as int < 128
    ensures IsSpace(c) <==> c in [' ', '\t', '\n', '\U{00000B}', '\U{00000C}', '\r']
  {
  }

  function TrimSpace(s: string): string {
    if s == "" then ""
    else if IsSpace(s[0]) then TrimSpace(s[1..])
    else if IsSpace(s[|s| - 1]) then TrimSpace(s[..|s| - 1])
    else s
  }

  ghost predicate AllSpace(s: string) {
    forall c :: c in s ==> IsSpace(c)
  }

  lemma CutFront(s: string, l: string, t: string, r: string)
    requires s != "" && IsSpace(s[0]) && s[1..] == l + t + r && AllSpace(l)
    ensures s == [s[0]] + l + t + r && AllSpace([s[0]] + l)
  {
    assert s == [s[0]] + s[1..];
  }

  lemma CutBack(s: string, l: string, t: string, r: string)
    requires s != "" && IsSpace(s[|s| - 1]) && s[..|s| - 1] == l + t + r && AllSpace(r)
    ensures s == l + t + (r + [s[|s| - 1]]) && AllSpace(r + [s[|s| - 1]])
  {
    assert s == s[..|s| - 1] + [s[|s| - 1]];
  }

  /** Space is cut from both ends and nothing else is, until none is left there. */
  lemma {:induction false} TrimSpaceCutsSpace(s: string) returns (left: string, right: string)
    ensures s == left + TrimSpace(s) + right && AllSpace(left) && AllSpace(right)
    ensures var t := TrimSpace(s); t == "" || (!IsSpace(t[0]) && !IsSpace(t[|t| - 1]))
    decreases |s|
  {
    if s != "" && IsSpace(s[0]) {
      var l, r := TrimSpaceCutsSpace(s[1..]);
      CutFront(s, l, TrimSpace(s[1..]), r);
      left, right := [s[0]] + l, r;
    } else if s != "" && IsSpace(s[|s| - 1]) {
      var l, r := TrimSpaceCutsSpace(s[..|s| - 1]);
      CutBack(s, l, TrimSpace(s[..|s| - 1]), r);
      left, right := l, r + [s[|s| - 1]];
    } else {
      left, right := "", "";
    }
  }

  /** Nothing is left of what is all space, and of that only. */
  lemma TrimmedToNothing(s: string)
    ensures TrimSpace(s) == "" <==> AllSpace(s)
  {
    var left, right := TrimSpaceCutsSpace(s);
    var t := TrimSpace(s);
    if t == "" {
      assert s == left + right;
    } else {
      assert (left + t + right)[|left|] == t[0];
    }
  }

  // ---- The registry operations ----

  type AgentRef = nat

  datatype AddError = BadUID | Duplicated

  datatype AddResult = Added(agents: map<string, AgentRef>) | Failed(error: AddError)

  function Add(agents: map<string, AgentRef>, id: string, a: AgentRef): AddResult {
    var key := TrimSpace(id);
    if key == "" then Failed(BadUID)
    else if key in agents then Failed(Duplicated)
    else Added(agents[key := a])
  }

  datatype RemoveResult = Removed(agents: map<string, AgentRef>, a: AgentRef) | Absent

  function Remove(agents: map<string, AgentRef>, id: string): RemoveResult {
    if TrimSpace(id) == "" || id !in agents then Absent else Removed(agents - {id}, agents[id])
  }

  class Gateway {
    var agents: map<string, AgentRef>

    constructor ()
      ensures agents == map[]
    {
      agents := map[];
    }

    method AddAgent(id: string, a: AgentRef) returns (r: AddResult)
      modifies this
      ensures r == Add(old(agents), id, a)
      ensures r.Added? <==> TrimSpace(id) != "" && TrimSpace(id) !in old(agents)
      ensures r.Added? ==> r.agents == agents == old(agents)[TrimSpace(id) := a]
      ensures r == Failed(BadUID) <==> TrimSpace(id) == ""
      ensures r == Failed(Duplicated) <==> TrimSpace(id) != "" && TrimSpace(id) in old(agents)
      ensures r.Failed? ==> agents == old(agents)
    {
      var key := TrimSpace(id);
      if key == "" {
        return Failed(BadUID);
      }
      if key in agents {
        return Failed(Duplicated);
      }
      agents := agents[key := a];
      r := Added(agents);
    }

    method RemoveAgent(id: string) returns (r: RemoveResult)
      modifies this
      ensures r == Remove(old(agents), id)
      ensures r.Removed? <==> TrimSpace(id) != "" && id in old(agents)
      ensures r.Removed? ==> r == Removed(agents, old(agents)[id]) && agents == old(agents) - {id}
      ensures r.Absent? ==> agents == old(agents)
    {
      if TrimSpace(id) == "" {
        return Absent;
      }
      if id !in agents {
        return Absent;
      }
      var a := agents[id];
      agents := agents - {id};
      r := Removed(agents, a);
    }

    method GetAgent(id: string) returns (found: bool, a: AgentRef)
      ensures found <==> Remove(agents, id).Removed?
      ensures found <==> TrimSpace(id) != "" && id in agents
      ensures found ==> a == agents[id]
    {
      if TrimSpace(id) == "" || id !in agents {
        return false, 0;
      }
      return true, agents[id];
    }
  }

  /**
   * AddAgent trims the identifier and RemoveAgent does not, so removal undoes an addition exactly for identifiers
   * without surrounding space.
   */
  lemma RemoveUndoesAdd(agents: map<string, AgentRef>, id: string, a: AgentRef)
    requires Add(agents, id, a).Added?
    ensures var added := Add(agents, id, a).agents;
            (Remove(added, id).Removed? && Remove(added, id).agents == agents && Remove(added, id).a == a)
            <==> TrimSpace(id) == id
  {
    var key := TrimSpace(id);
    var added := Add(agents, id, a).agents;
    if key == id {
      assert added - {id} == agents;
    } else if Remove(added, id).Removed? {
      assert key in Remove(added, id).agents;
    }
  }

  // ---- The registry and the connection counter over whole runs ----

  /** Registered, then counted and started; on the way out uncounted, then removed. */
  datatype Phase = Entered | Started | Uncounted | Gone

  datatype Connection = Connection(id: string, phase: Phase)

  datatype State = State(agents: map<string, AgentRef>, count: int, conns: seq<Connection>)

  datatype Event =
    | Accept(id: string)  // AddAgent under a generated identifier
    | Count(k: nat)       // CountConnection.Add(1), then Run
    | Uncount(k: nat)     // the finalizer's CountConnection.Add(-1)
    | Drop(k: nat)        // the finalizer's RemoveAgent

  /** The alphabet of generated identifiers. Nothing else about them is assumed, not even that they are unique. */
  predicate Generated(id: string) {
    forall c :: c in id ==> '0' <= c <= '9' || c == '_'
  }

  predicate Enabled(s: State, e: Event) {
    match e
    case Accept(id) => Generated(id)
    case Count(k) => k < |s.conns| && s.conns[k].phase.Entered?
    case Uncount(k) => k < |s.conns| && s.conns[k].phase.Started?
    case Drop(k) => k < |s.conns| && s.conns[k].phase.Uncounted?
  }

  function Next(s: State, e: Event): State
    requires Enabled(s, e)
  {
    match e
    case Accept(id) => (
      match Add(s.agents, id, |s.conns|)
      case Failed(_) => s
      case Added(m) => s.(agents := m, conns := s.conns + [Connection(id, Entered)]))
    case Count(k) => s.(count := s.count + 1, conns := s.conns[k := s.conns[k].(phase := Started)])
    case Uncount(k) => s.(count := s.count - 1, conns := s.conns[k := s.conns[k].(phase := Uncounted)])
    case Drop(k) =>
      var conns := s.conns[k := s.conns[k].(phase := Gone)];
      match Remove(s.agents, s.conns[k].id)
      case Absent => s.(conns := conns)
      case Removed(m, _) => s.(agents := m, conns := conns)
  }

  const INITIAL := State(map[], 0, [])

  ghost predicate IsRun(states: seq<State>, events: seq<Event>) {
    && |states| == |events| + 1
    && states[0] == INITIAL
    && forall i :: 0 <= i < |events| ==> Enabled(states[i], events[i]) && states[i + 1] == Next(states[i], events[i])
  }

  function In(conns: seq<Connection>, p: Phase): nat {
    if conns == [] then 0 else (if conns[0].phase == p then 1 else 0) + In(conns[1..], p)
  }

  lemma {:induction false} InUpdate(conns: seq<Connection>, k: nat, c: Connection, p: Phase)
    requires k < |conns|
    ensures In(conns[k := c], p) ==
            In(conns, p) - (if conns[k].phase == p then 1 else 0) + (if c.phase == p then 1 else 0)
  {
    if k == 0 {
      assert conns[k := c][1..] == conns[1..];
    } else {
      InUpdate(conns[1..], k - 1, c, p);
      assert conns[k := c][1..] == conns[1..][k - 1 := c];
    }
  }

  lemma {:induction false} InAppend(conns: seq<Connection>, c: Connection, p: Phase)
    ensures In(conns + [c], p) == In(conns, p) + if c.phase == p then 1 else 0
  {
    if conns == [] {
      assert [c][1..] == [];
    } else {
      InAppend(conns[1..], c, p);
      assert (conns + [c])[1..] == conns[1..] + [c];
    }
  }

  /** The registry holds exactly the connections that are not gone, each under its own identifier. */
  ghost predicate Tracks(agents: map<string, AgentRef>, conns: seq<Connection>) {
    && (forall id :: id in agents ==>
          agents[id] < |conns| && conns[agents[id]].id == id && !conns[agents[id]].phase.Gone?)
    && (forall k :: 0 <= k < |conns| && !conns[k].phase.Gone? ==>
          conns[k].id in agents && agents[conns[k].id] == k && TrimSpace(conns[k].id) == conns[k].id != "")
  }

  ghost predicate Inv(s: State) {
    && Tracks(s.agents, s.conns)
    && s.count == In(s.conns, Started)
    && |s.agents| == In(s.conns, Entered) + In(s.conns, Started) + In(s.conns, Uncounted)
  }

  lemma GeneratedIsTrimmed(id: string)
    requires Generated(id)
    ensures TrimSpace(id) == id
  {
    if id != "" {
      assert id[0] in id && id[|id| - 1] in id;
    }
  }

  lemma AcceptKeepsInv(s: State, id: string)
    requires Inv(s) && Generated(id)
    ensures Inv(Next(s, Accept(id)))
  {
    GeneratedIsTrimmed(id);
    if Add(s.agents, id, |s.conns|).Added? {
      var c := Connection(id, Entered);
      var agents, conns := s.agents[id := |s.conns|], s.conns + [c];
      AppendCounts(s.conns, c);
      assert |agents| == |s.agents| + 1;
      assert Tracks(agents, conns);
    }
  }

  lemma DropKeepsInv(s: State, k: nat)
    requires Inv(s) && k < |s.conns| && s.conns[k].phase.Uncounted?
    ensures Inv(Next(s, Drop(k)))
  {
    var id, c := s.conns[k].id, s.conns[k].(phase := Gone);
    var agents, conns := s.agents - {id}, s.conns[k := c];
    UpdateCounts(s.conns, k, c);
    assert |agents| == |s.agents| - 1 by { assert s.agents == agents[id := s.agents[id]]; }
    forall j | 0 <= j < |conns| && !conns[j].phase.Gone?
      ensures conns[j].id in agents && agents[conns[j].id] == j
    {
      assert conns[j] == s.conns[j];
    }
    assert Tracks(agents, conns);
  }

  lemma NextKeepsInv(s: State, e: Event)
    requires Inv(s) && Enabled(s, e)
    ensures Inv(Next(s, e))
  {
    match e
    case Accept(id) => AcceptKeepsInv(s, id);
    case Count(k) => UpdateCounts(s.conns, k, s.conns[k].(phase := Started));
    case Uncount(k) => UpdateCounts(s.conns, k, s.conns[k].(phase := Uncounted));
    case Drop(k) => DropKeepsInv(s, k);
  }

  lemma UpdateCounts(conns: seq<Connection>, k: nat, c: Connection)
    requires k < |conns|
    ensures forall p ::
              In(conns[k := c], p) ==
              In(conns, p) - (if conns[k].phase == p then 1 else 0) + (if c.phase == p then 1 else 0)
  {
    forall p: Phase { InUpdate(conns, k, c, p); }
  }

  lemma AppendCounts(conns: seq<Connection>, c: Connection)
    ensures forall p :: In(conns + [c], p) == In(conns, p) + if c.phase == p then 1 else 0
  {
    forall p: Phase { InAppend(conns, c, p); }
  }

  lemma {:induction false} InvAlways(states: seq<State>, events: seq<Event>, i: nat)
    requires IsRun(states, events) && i < |states|
    ensures Inv(states[i])
  {
    if i > 0 {
      InvAlways(states, events, i - 1);
      NextKeepsInv(states[i - 1], events[i - 1]);
    }
  }

  /**
   * In every interleaving the registry has as many entries as are counted, plus the agents between registration and
   * counting, plus those between uncounting and removal; and the counter is never negative.
   */
  lemma RegistryMatchesCounter(states: seq<State>, events: seq<Event>, i: nat)
    requires IsRun(states, events) && i < |states|
    ensures var s := states[i];
            && |s.agents| == s.count + In(s.conns, Entered) + In(s.conns, Uncounted)
            && s.count >= 0
  {
    InvAlways(states, events, i);
  }

  /** A finalizer's removal takes out its own agent and nothing else, and happens once. */
  lemma RemovedOnceAndAlone(states: seq<State>, events: seq<Event>, i: nat, j: nat)
    requires IsRun(states, events) && i <= j < |events| && events[i].Drop? && events[j].Drop?
    ensures var s, k := states[i], events[i].k;
            && s.conns[k].id in s.agents && s.agents[s.conns[k].id] == k
            && states[i + 1].agents == s.agents - {s.conns[k].id}
    ensures i < j ==> events[i].k != events[j].k
  {
    InvAlways(states, events, i);
    if i < j {
      GoneForGood(states, events, events[i].k, i + 1, j);
    }
  }

  lemma {:induction false} GoneForGood(states: seq<State>, events: seq<Event>, k: nat, i: nat, j: nat)
    requires IsRun(states, events) && i <= j < |states|
    requires k < |states[i].conns| && states[i].conns[k].phase.Gone?
    ensures k < |states[j].conns| && states[j].conns[k].phase.Gone?
  {
    if i < j {
      GoneForGood(states, events, k, i, j - 1);
    }
  }

  // ---- What a run amounts to, event by event ----

  /**
   * A generated identifier is registered exactly if it is not empty and no connection that is still there has it; the
   * new connection comes last, and nothing else changes.
   */
  lemma AcceptedExactlyWhenUnused(states: seq<State>, events: seq<Event>, i: nat)
    requires IsRun(states, events) && i < |events| && events[i].Accept?
    ensures var s, s', id := states[i], states[i + 1], events[i].id;
            if id != "" && forall k :: 0 <= k < |s.conns| && s.conns[k].id == id ==> s.conns[k].phase.Gone? then
              s' == State(s.agents[id := |s.conns|], s.count, s.conns + [Connection(id, Entered)])
            else
              s' == s
  {
    InvAlways(states, events, i);
    var s, id := states[i], events[i].id;
    GeneratedIsTrimmed(id);
    if id in s.agents {
      assert s.conns[s.agents[id]].id == id;
    }
  }

  function Counted(events: seq<Event>): int {
    if events == [] then 0
    else
      var before := Counted(events[..|events| - 1]);
      match events[|events| - 1]
      case Count(_) => before + 1
      case Uncount(_) => before - 1
      case _ => before
  }

  /** The connection counter is the ledger of what was added to it and taken from it. */
  lemma {:induction false} CounterIsLedger(states: seq<State>, events: seq<Event>, i: nat)
    requires IsRun(states, events) && i < |states|
    ensures states[i].count == Counted(events[..i])
  {
    if i > 0 {
      CounterIsLedger(states, events, i - 1);
      assert events[..i][..i - 1] == events[..i - 1];
    }
  }

  /** A connection under an unused identifier can always come and go, and leaves registry and counter as they were. */
  lemma ComesAndGoes(s: State, id: string)
    requires Generated(id) && id != "" && id !in s.agents
    ensures var k := |s.conns|;
            && Enabled(s, Accept(id))
            && var s1 := Next(s, Accept(id));
            && Enabled(s1, Count(k)) && s1.agents == s.agents[id := k]
            && var s2 := Next(s1, Count(k));
            && Enabled(s2, Uncount(k)) && s2.count == s.count + 1
            && var s3 := Next(s2, Uncount(k));
            && Enabled(s3, Drop(k))
            && Next(s3, Drop(k)) == State(s.agents, s.count, s.conns + [Connection(id, Gone)])
  {
    GeneratedIsTrimmed(id);
    var k := |s.conns|;
    assert s.agents[id := k] - {id} == s.agents;
    var conns := s.conns + [Connection(id, Entered)];
    assert conns[k := Connection(id, Started)] == s.conns + [Connection(id, Started)];
    assert conns[k := Connection(id, Uncounted)] == s.conns + [Connection(id, Uncounted)];
    assert conns[k := Connection(id, Gone)] == s.conns + [Connection(id, Gone)];
  }
}
