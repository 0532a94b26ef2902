/** The end of an agent: kicks, the disable flag, the finalizer and its disconnect notice, next to the read loop. */
module Lifecycle {

  /** The read loop: reading a message, about to look at the disable flag, past it, or gone. */
  datatype Reader = Reading | AtCheck | Passed | Stopped

  /** The finalizer: waiting for the context, about to look at the flag, past it, about to notify, or done. */
  datatype Finalizer = Waiting | Checking | Claiming | Notifying | Over

  /** entered counts messages handed to the plugin chain, notices the attempts to report the disconnect. */
  datatype State = State(
    disabled: bool, cancelled: bool, reader: Reader, finalizer: Finalizer, entered: nat, notices: nat)

  datatype Event =
    | Arrive | Check | Enter  // the read loop: a message is complete, the flag is read, the chain is entered
    | ReadEnds                // the read loop returns, which cancels
    | Disable | Enable | Close
    | Wake | FinalCheck | Claim | Notify  // the finalizer

  predicate Enabled(s: State, e: Event) {
    match e
    case Arrive => s.reader.Reading?
    case Check => s.reader.AtCheck?
    case Enter => s.reader.Passed?
    case ReadEnds => s.reader.Reading?
    case Disable => true
    case Enable => true
    case Close => true
    case Wake => s.finalizer.Waiting? && s.cancelled
    case FinalCheck => s.finalizer.Checking?
    case Claim => s.finalizer.Claiming?
    case Notify => s.finalizer.Notifying?
  }

  function Next(s: State, e: Event): State
    requires Enabled(s, e)
  {
    match e
    case Arrive => s.(reader := AtCheck)
    case Check => s.(reader := if s.disabled then Reading else Passed)
    case Enter => s.(reader := Reading, entered := s.entered + 1)
    case ReadEnds => s.(reader := Stopped, cancelled := true)
    case Disable => s.(disabled := true)
    case Enable => s.(disabled := false)
    case Close => s.(cancelled := true)
    case Wake => s.(finalizer := Checking)
    case FinalCheck => s.(finalizer := if s.disabled then Over else Claiming)
    case Claim => s.(finalizer := Notifying, disabled := true)
    case Notify => s.(finalizer := Over, notices := s.notices + 1)
  }

  const INITIAL := State(false, false, Reading, Waiting, 0, 0)

  ghost predicate IsRun(states: seq<State>, events: seq<Event>) {
    && |states| == |events| + 1
    && states[0] == INITIAL
    && forall i :: 0 <= i < |events| ==> Enabled(states[i], events[i]) && states[i + 1] == Next(states[i], events[i])
  }

  ghost predicate NoEnable(events: seq<Event>, from: nat, to: nat) {
    forall i :: from <= i < to && i < |events| ==> !events[i].Enable?
  }

  ghost predicate Undecided(f: Finalizer) {
    f.Waiting? || f.Checking?
  }

  /** A notice is only ever attempted by a finalizer that is then over, and nothing is finalized before cancellation. */
  lemma {:induction false} AtMostOneNotice(states: seq<State>, events: seq<Event>, i: nat)
    requires IsRun(states, events) && i < |states|
    ensures states[i].notices <= (if states[i].finalizer.Over? then 1 else 0)
    ensures !states[i].cancelled ==> states[i].finalizer.Waiting?
  {
    if i > 0 {
      AtMostOneNotice(states, events, i - 1);
    }
  }

  /** What a set disable flag means for as long as nobody clears it. */
  lemma {:induction false} WhileDisabled(states: seq<State>, events: seq<Event>, i: nat, j: nat)
    requires IsRun(states, events) && i <= j < |states|
    requires states[i].disabled && NoEnable(events, i, j)
    ensures states[j].disabled
    ensures states[j].entered + (if states[j].reader.Passed? then 1 else 0) <=
            states[i].entered + (if states[i].reader.Passed? then 1 else 0)
    ensures Undecided(states[i].finalizer) ==>
              states[j].notices == states[i].notices && (Undecided(states[j].finalizer) || states[j].finalizer.Over?)
  {
    if i < j {
      WhileDisabled(states, events, i, j - 1);
    }
  }

  /** After a Disable that is not taken back, one message enters the chain at most: the one already past the check. */
  lemma AtMostOneStraggler(states: seq<State>, events: seq<Event>, i: nat, j: nat)
    requires IsRun(states, events) && i < j < |states| && events[i].Disable? && NoEnable(events, i, j)
    ensures states[j].entered <= states[i].entered + (if states[i].reader.Passed? then 1 else 0)
  {
    WhileDisabled(states, events, i + 1, j);
  }

  /** A Disable that comes before the finalizer's check, and is not taken back, suppresses the notice for good. */
  lemma DisableSuppressesNotice(states: seq<State>, events: seq<Event>, i: nat, j: nat)
    requires IsRun(states, events) && i < j < |states| && events[i].Disable? && NoEnable(events, i, j)
    requires Undecided(states[i].finalizer)
    ensures states[j].notices == 0
  {
    AtMostOneNotice(states, events, i);
    WhileDisabled(states, events, i + 1, j);
  }

  /** So a kick of a live agent, which disables before it closes, never reports a disconnect. */
  lemma KickIsSilent(states: seq<State>, events: seq<Event>, i: nat, j: nat)
    requires IsRun(states, events) && i < j < |states| && events[i].Disable? && NoEnable(events, i, j)
    requires !states[i].cancelled
    ensures states[j].notices == 0
  {
    AtMostOneNotice(states, events, i);
    DisableSuppressesNotice(states, events, i, j);
  }

  /** Without any Disable, a finalizer that is over has attempted the notice. */
  lemma {:induction false} UnkickedIsReported(states: seq<State>, events: seq<Event>, i: nat)
    requires IsRun(states, events) && i < |states|
    requires forall k :: 0 <= k < i ==> !events[k].Disable?
    ensures states[i].finalizer.Over? ==> states[i].notices == 1
    ensures Undecided(states[i].finalizer) || states[i].finalizer.Claiming? ==> !states[i].disabled
  {
    if i > 0 {
      UnkickedIsReported(states, events, i - 1);
      AtMostOneNotice(states, events, i - 1);
    }
  }

  // ---- What a run amounts to, event by event ----

  /** The messages that found the flag clear when it was read. */
  ghost function FoundClear(states: seq<State>, events: seq<Event>, i: nat): nat
    requires i <= |events| < |states|
  {
    if i == 0 then 0
    else FoundClear(states, events, i - 1) + if events[i - 1].Check? && !states[i - 1].disabled then 1 else 0
  }

  function Arrivals(events: seq<Event>): nat {
    if events == [] then 0
    else Arrivals(events[..|events| - 1]) + if events[|events| - 1].Arrive? then 1 else 0
  }

  /** The flag is what was last written to it; the finalizer writes it too, when it claims the notice. */
  function Flag(events: seq<Event>): bool {
    if events == [] then false
    else
      match events[|events| - 1]
      case Disable => true
      case Claim => true
      case Enable => false
      case _ => Flag(events[..|events| - 1])
  }

  /** Exactly the messages that found the flag clear have entered the chain, but for one that is about to. */
  lemma {:induction false} EntersExactlyWhenClear(states: seq<State>, events: seq<Event>, i: nat)
    requires IsRun(states, events) && i < |states|
    ensures states[i].entered + (if states[i].reader.Passed? then 1 else 0) == FoundClear(states, events, i)
  {
    if i > 0 {
      EntersExactlyWhenClear(states, events, i - 1);
    }
  }

  lemma {:induction false} FlagIsLastWrite(states: seq<State>, events: seq<Event>, i: nat)
    requires IsRun(states, events) && i < |states|
    ensures states[i].disabled == Flag(events[..i])
  {
    if i > 0 {
      FlagIsLastWrite(states, events, i - 1);
      assert events[..i][..i - 1] == events[..i - 1];
    }
  }

  /** Until somebody sets the flag, every message that has arrived enters the chain. */
  lemma {:induction false} EveryMessageEnters(states: seq<State>, events: seq<Event>, i: nat)
    requires IsRun(states, events) && i < |states|
    requires forall k :: 0 <= k < i ==> !events[k].Disable? && !events[k].Claim?
    ensures !states[i].disabled
    ensures states[i].entered + (if states[i].reader.AtCheck? || states[i].reader.Passed? then 1 else 0) ==
            Arrivals(events[..i])
  {
    if i > 0 {
      EveryMessageEnters(states, events, i - 1);
      assert events[..i][..i - 1] == events[..i - 1];
    }
  }

  lemma {:induction false} CancelledByCloseOrReader(states: seq<State>, events: seq<Event>, i: nat)
    requires IsRun(states, events) && i < |states|
    ensures states[i].cancelled <==> exists k :: 0 <= k < i && (events[k].Close? || events[k].ReadEnds?)
    ensures states[i].reader.Stopped? <==> exists k :: 0 <= k < i && events[k].ReadEnds?
  {
    if i > 0 {
      CancelledByCloseOrReader(states, events, i - 1);
    }
  }

  /** The flag as the finalizer finds it decides between one notice and none, whatever happens to it later. */
  lemma {:induction false} FinalCheckDecides(states: seq<State>, events: seq<Event>, j: nat, i: nat)
    requires IsRun(states, events) && j < i < |states| && events[j].FinalCheck?
    ensures states[i].notices == if states[i].finalizer.Over? && !states[j].disabled then 1 else 0
    ensures var f := states[i].finalizer; f.Over? || (!states[j].disabled && (f.Claiming? || f.Notifying?))
  {
    if i == j + 1 {
      AtMostOneNotice(states, events, j);
    } else {
      FinalCheckDecides(states, events, j, i - 1);
    }
  }

  /** Neither the read loop nor, once there is a cancellation, the finalizer is ever stuck; a kick always can come. */
  lemma NobodyIsStuck(s: State)
    ensures s.reader.Stopped? || Enabled(s, Arrive) || Enabled(s, Check) || Enabled(s, Enter)
    ensures s.reader.Reading? ==> Enabled(s, ReadEnds)
    ensures s.cancelled ==>
              s.finalizer.Over? || Enabled(s, Wake) || Enabled(s, FinalCheck) || Enabled(s, Claim) || Enabled(s, Notify)
    ensures Enabled(s, Disable) && Enabled(s, Enable) && Enabled(s, Close)
  {
  }
}
