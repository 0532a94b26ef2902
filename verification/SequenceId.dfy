/** The per-agent sequence number: a compare-and-swap back to zero and an add, which other requests may come between. */
module SequenceId {
  const WRAP := 0x7fff_ffff - 10000
  const UINT32 := 0x1_0000_0000

  type u32 = x: int | 0 <= x < UINT32

  /** The two atomic operations of a request; requests may interleave them in any way. */
  datatype Event = Swap(request: nat) | Add(request: nat)

  function Apply(x: u32, e: Event): u32 {
    match e
    case Swap(_) => if x == WRAP then 0 else x
    case Add(_) => (x + 1) % UINT32
  }

  function Final(x: u32, events: seq<Event>): u32
    decreases |events|
  {
    if events == [] then x else Final(Apply(x, events[0]), events[1..])
  }

  /** The numbers the adds return, in the order of the adds. */
  function Numbers(x: u32, events: seq<Event>): seq<u32>
    decreases |events|
  {
    if events == [] then []
    else
      var y := Apply(x, events[0]);
      (if events[0].Add? then [y] else []) + Numbers(y, events[1..])
  }

  // ---- The window ----

  /**
   * n adds after a number a was returned the counter is at x: either it has counted up from a, or it has been
   * set back since, which takes WRAP - a adds to begin with.
   */
  ghost predicate Since(a: u32, x: u32, n: nat) {
    (x >= a && n == x - a) || n + a >= WRAP + x
  }

  lemma SinceStep(a: u32, x: u32, n: nat, e: Event)
    requires Since(a, x, n)
    ensures Since(a, Apply(x, e), if e.Add? then n + 1 else n)
  {
  }

  lemma {:induction false} NextOccurrence(a: u32, x: u32, n: nat, events: seq<Event>, j: nat)
    requires Since(a, x, n) && j < |Numbers(x, events)| && Numbers(x, events)[j] == a
    ensures n + j + 1 >= WRAP
    decreases |events|
  {
    var e := events[0];
    var y := Apply(x, e);
    SinceStep(a, x, n, e);
    if e.Add? {
      if j > 0 {
        NextOccurrence(a, y, n + 1, events[1..], j - 1);
      }
    } else {
      NextOccurrence(a, y, n, events[1..], j);
    }
  }

  /** However requests interleave, and from any start, equal numbers are at least WRAP adds apart. */
  lemma {:induction false} EqualNumbersAreFarApart(x: u32, events: seq<Event>, i: nat, j: nat)
    requires i < j < |Numbers(x, events)| && Numbers(x, events)[i] == Numbers(x, events)[j]
    ensures j - i >= WRAP == 2147473647
    decreases |events|
  {
    var e := events[0];
    var y := Apply(x, e);
    if e.Add? {
      if i == 0 {
        NextOccurrence(y, y, 0, events[1..], j - 1);
      } else {
        EqualNumbersAreFarApart(y, events[1..], i - 1, j - 1);
      }
    } else {
      EqualNumbersAreFarApart(y, events[1..], i, j);
    }
  }

  // ---- One request at a time ----

  /** Requests r, r + 1, ... up to r + n, each finishing before the next begins. */
  function Serial(r: nat, n: nat): (events: seq<Event>)
    ensures |events| == 2 * n
    decreases n
  {
    if n == 0 then [] else [Swap(r), Add(r)] + Serial(r + 1, n - 1)
  }

  /** The number after x when nothing comes between the two operations. */
  function Following(x: u32): u32 {
    if x == WRAP then 1 else (x + 1) % UINT32
  }

  lemma SerialRound(x: u32, r: nat, n: nat)
    requires n > 0
    ensures Numbers(x, Serial(r, n)) == [Following(x)] + Numbers(Following(x), Serial(r + 1, n - 1))
    ensures Final(x, Serial(r, n)) == Final(Following(x), Serial(r + 1, n - 1))
  {
    var events, rest := Serial(r, n), Serial(r + 1, n - 1);
    assert events[1..] == [Add(r)] + rest;
    assert events[1..][1..] == rest;
  }

  lemma FollowingCounts(x: u32, k: nat)
    requires x <= WRAP
    ensures 1 <= Following(x) <= WRAP
    ensures k > 0 ==> (Following(x) + (k - 1)) % WRAP == (x + k) % WRAP
  {
    if x == WRAP {
      assert (WRAP + k) % WRAP == k % WRAP;
    }
  }

  /** Of serial requests, the k-th gets 1 + k modulo WRAP, counted from the start. */
  lemma {:induction false} SerialNumber(x: u32, r: nat, n: nat, k: nat)
    requires x <= WRAP && k < n
    ensures |Numbers(x, Serial(r, n))| == n
    ensures Numbers(x, Serial(r, n))[k] == 1 + (x + k) % WRAP
    decreases n
  {
    SerialRound(x, r, n);
    FollowingCounts(x, k);
    if n > 1 {
      SerialNumber(Following(x), r + 1, n - 1, if k > 0 then k - 1 else 0);
    }
  }

  lemma {:induction false} SerialFinal(x: u32, r: nat, n: nat)
    requires x + n <= WRAP
    ensures Final(x, Serial(r, n)) == x + n
    decreases n
  {
    if n > 0 {
      SerialRound(x, r, n);
      SerialFinal(x + 1, r + 1, n - 1);
    }
  }

  // ---- Overlapping requests ----

  /** A request swaps before it adds, and does each once. */
  ghost predicate ValidInterleaving(events: seq<Event>) {
    && (forall j :: 0 <= j < |events| && events[j].Add? ==>
          exists i :: 0 <= i < j && events[i] == Swap(events[j].request))
    && forall i, j :: 0 <= i < j < |events| ==> events[i] != events[j]
  }

  lemma {:induction false} SerialEvent(r: nat, n: nat, i: nat)
    requires i < 2 * n
    ensures Serial(r, n)[i] == if i % 2 == 0 then Swap(r + i / 2) else Add(r + i / 2)
    decreases n
  {
    if i >= 2 {
      SerialEvent(r + 1, n - 1, i - 2);
    }
  }

  lemma NumbersCons(x: u32, events: seq<Event>)
    requires events != []
    ensures var y := Apply(x, events[0]);
            && Numbers(x, events) == (if events[0].Add? then [y] else []) + Numbers(y, events[1..])
            && Final(x, events) == Final(y, events[1..])
  {
  }

  lemma {:induction false} NumbersAppend(x: u32, a: seq<Event>, b: seq<Event>)
    ensures Numbers(x, a + b) == Numbers(x, a) + Numbers(Final(x, a), b)
    decreases |a|
  {
    if a == [] {
      assert a + b == b;
    } else {
      var y := Apply(x, a[0]);
      NumbersAppend(y, a[1..], b);
      NumbersCons(x, a);
      NumbersCons(x, a + b);
      assert (a + b)[1..] == a[1..] + b;
    }
  }

  /** Two requests that both swap before either adds can step over the reset, so the upper bound is a serial one. */
  lemma OverlapLeavesRange()
    ensures exists events :: ValidInterleaving(events) && WRAP + 1 in Numbers(0, events)
  {
    var n := WRAP - 1;
    var before := Serial(0, n);
    var overlap := [Swap(n), Swap(n + 1), Add(n), Add(n + 1)];
    var events := before + overlap;
    forall j | 0 <= j < |events| && events[j].Add?
      ensures exists i :: 0 <= i < j && events[i] == Swap(events[j].request)
    {
      if j < 2 * n {
        SerialEvent(0, n, j);
        SerialEvent(0, n, j - 1);
        assert events[j - 1] == Swap(events[j].request);
      } else {
        assert events[j - 2] == Swap(events[j].request);
      }
    }
    forall i, j | 0 <= i < j < |events| ensures events[i] != events[j] {
      if i < 2 * n {
        SerialEvent(0, n, i);
      }
      if j < 2 * n {
        SerialEvent(0, n, j);
      }
    }
    SerialFinal(0, 0, n);
    NumbersAppend(0, before, overlap);
    NumbersOverlap(n, n + 1);
    assert Numbers(WRAP - 1, overlap)[1] == WRAP + 1;
    assert WRAP + 1 in Numbers(0, events);
  }

  ghost predicate InRange(ns: seq<u32>) {
    forall i :: 0 <= i < |ns| ==> 1 <= ns[i] <= 2147473647
  }

  /**
   * Between any add and the one before it, or the start, there is a swap; swapped says whether there has been one yet.
   */
  predicate SwapBeforeEachAdd(events: seq<Event>, swapped: bool) {
    events == []
    || if events[0].Swap? then SwapBeforeEachAdd(events[1..], true)
       else swapped && SwapBeforeEachAdd(events[1..], false)
  }

  lemma InRangeCons(x: u32, events: seq<Event>)
    requires events != []
    ensures var y := Apply(x, events[0]);
            InRange(Numbers(x, events)) <==>
            InRange(Numbers(y, events[1..])) && (events[0].Add? ==> 1 <= y <= WRAP)
  {
    var y := Apply(x, events[0]);
    var head, rest := if events[0].Add? then [y] else [], Numbers(y, events[1..]);
    assert Numbers(x, events) == head + rest;
    assert forall i :: 0 <= i < |rest| ==> rest[i] == (head + rest)[|head| + i];
    assert head != [] ==> (head + rest)[0] == y;
  }

  lemma {:induction false} SwapsKeepRange(x: u32, events: seq<Event>, swapped: bool)
    requires x <= WRAP && (swapped ==> x < WRAP) && SwapBeforeEachAdd(events, swapped)
    ensures InRange(Numbers(x, events))
    decreases |events|
  {
    if events != [] {
      SwapsKeepRange(Apply(x, events[0]), events[1..], events[0].Swap?);
      InRangeCons(x, events);
    }
  }

  /** Where an add lacks its swap, counting back from there gives a start from which it steps over WRAP. */
  lemma {:induction false} MissingSwapLeavesRange(events: seq<Event>, swapped: bool) returns (x: u32)
    requires !SwapBeforeEachAdd(events, swapped)
    ensures if swapped then x < WRAP else 1 <= x <= WRAP
    ensures !InRange(Numbers(x, events))
    decreases |events|
  {
    if events[0].Swap? {
      x := MissingSwapLeavesRange(events[1..], true);
      if !swapped && x == 0 {
        x := WRAP;
      }
    } else if swapped {
      x := MissingSwapLeavesRange(events[1..], false);
      x := x - 1;
    } else {
      x := WRAP;
    }
    InRangeCons(x, events);
  }

  /** A schedule keeps the numbers within 1 and WRAP, from every start, exactly when each add has a swap of its own. */
  lemma RangeExactlyWhen(events: seq<Event>)
    ensures (forall x: u32 :: x <= WRAP ==> InRange(Numbers(x, events))) <==> SwapBeforeEachAdd(events, false)
  {
    if SwapBeforeEachAdd(events, false) {
      forall x: u32 | x <= WRAP ensures InRange(Numbers(x, events)) {
        SwapsKeepRange(x, events, false);
      }
    } else {
      var x := MissingSwapLeavesRange(events, false);
    }
  }

  /** So they stay there while one request finishes before the next begins. */
  lemma SerialStaysInRange(x: u32, r: nat, n: nat)
    requires x <= WRAP
    ensures InRange(Numbers(x, Serial(r, n)))
  {
    SerialSwaps(r, n);
    RangeExactlyWhen(Serial(r, n));
  }

  lemma {:induction false} SerialSwaps(r: nat, n: nat)
    ensures SwapBeforeEachAdd(Serial(r, n), false)
    decreases n
  {
    if n > 0 {
      SerialSwaps(r + 1, n - 1);
      var events, rest := Serial(r, n), Serial(r + 1, n - 1);
      assert events[1..] == [Add(r)] + rest && events[1..][1..] == rest;
    }
  }

  /** Once over WRAP, no swap sets the counter back: the numbers stay above WRAP until the uint32 itself wraps. */
  lemma {:induction false} OvershootLasts(x: u32, events: seq<Event>)
    requires x > WRAP && x + |events| < UINT32
    ensures forall n :: n in Numbers(x, events) ==> n > WRAP
    decreases |events|
  {
    if events != [] {
      NumbersCons(x, events);
      OvershootLasts(Apply(x, events[0]), events[1..]);
    }
  }

  lemma NumbersOverlap(a: nat, b: nat)
    ensures Numbers(WRAP - 1, [Swap(a), Swap(b), Add(a), Add(b)]) == [WRAP, WRAP + 1]
  {
    var e1, e2, e3, e4 := [Swap(a), Swap(b), Add(a), Add(b)], [Swap(b), Add(a), Add(b)], [Add(a), Add(b)], [Add(b)];
    assert e1[1..] == e2 && e2[1..] == e3 && e3[1..] == e4 && e4[1..] == [];
    assert Numbers(WRAP, e4) == [WRAP + 1] + Numbers(WRAP + 1, []);
    assert Numbers(WRAP - 1, e3) == [WRAP] + Numbers(WRAP, e4);
  }
}
