/** Where the errors of encode come from: each but the cycle error has its cause in a value that the walk can reach. */
module Faults {
  import opened GoMemory
  import opened WireFormat
  import opened Encoder

  /** How many elements of each backing array are in use; what lies behind them is spare capacity. */
  type Usage = map<Ref, nat>

  function Used(used: Usage, a: Ref): nat {
    if a in used then used[a] else 0
  }

  /** Nothing in v itself causes fault f, and its slices stay within the used elements. */
  ghost predicate Free(f: Fault, used: Usage, v: Val) {
    match v
    case Str(s) => 0 in s ==> f != NulInString
    case Bytes(s) => |s| > MAX_ELEMENTS ==> f != TooLong(|s|)
    case Struct(slots) =>
      forall i :: 0 <= i < |slots| && Visited(slots[i].name) ==>
        if Barred(slots[i].name) then f != UnknownKind else Free(f, used, slots[i].val)
    case Slice(a, n) => n <= Used(used, a) && (n > MAX_ELEMENTS ==> f != TooLong(n))
    case NilPtr => f != NilPointer
    case Opaque => f != UnknownKind
    case _ => true
  }

  /** What encode accepts behind a pointer. */
  ghost predicate Followable(v: Val) {
    v.Struct? || v.NilSlice? || v.Slice? || v.Bytes?
  }

  /** Nor does anything that memory holds in objects and used elements. */
  ghost predicate MemoryFree(f: Fault, used: Usage, m: Mem) {
    && (forall r :: r in m.objs ==> Free(f, used, m.objs[r]) && (f.UnknownKind? ==> Followable(m.objs[r])))
    && (forall a, i :: a in m.arrays && 0 <= i < |m.arrays[a]| && i < Used(used, a) ==> Free(f, used, m.arrays[a][i]))
  }

  /** An error other than the cycle error is not reported unless something causes it. */
  lemma {:induction false} FaultNeedsCause(
      f: Fault, used: Usage, m: Mem, rank: map<Ref, nat>, v: Val, level: nat, seen: set<Ref>)
    requires Heap(m, rank) && f != Cycle && MemoryFree(f, used, m) && ValClosed(m, v) && Free(f, used, v)
    ensures Walk(m, rank, v, level, seen).fault != Some(f)
    decreases Budget(m, level, seen), SliceRank(rank, v), v, 1
  {
    match v
    case Struct(slots) => SlotsNeedCause(f, used, m, rank, slots, SliceRank(rank, v), level, seen);
    case NilSlice => ElemsNeedCause(f, used, m, rank, [], 0, level, seen);
    case Slice(a, n) =>
      ElemsNeedCause(f, used, m, rank, m.arrays[a][..n], if a in rank then rank[a] else 0, level, seen);
    case Ptr(r) =>
      BudgetDrops(m, level, seen, r);
      if level < START_DETECTING {
        PointeeNeedsCause(f, used, m, rank, r, level, seen, seen);
      } else if r !in seen {
        PointeeNeedsCause(f, used, m, rank, r, level, seen, seen + {r});
      }
    case _ =>
  }

  lemma {:induction false} PointeeNeedsCause(
      f: Fault, used: Usage, m: Mem, rank: map<Ref, nat>, r: Ref, level: nat, seen: set<Ref>, seen': set<Ref>)
    requires Heap(m, rank) && f != Cycle && MemoryFree(f, used, m) && r in m.objs
    requires Budget(m, level + 1, seen') < Budget(m, level, seen)
    ensures WalkTarget(m, rank, m.objs[r], level + 1, seen').fault != Some(f)
    decreases Budget(m, level, seen), 0, Val.Ptr(r), 0
  {
    TargetNeedsCause(f, used, m, rank, m.objs[r], level + 1, seen');
  }

  lemma {:induction false} TargetNeedsCause(
      f: Fault, used: Usage, m: Mem, rank: map<Ref, nat>, v: Val, level: nat, seen: set<Ref>)
    requires Heap(m, rank) && f != Cycle && MemoryFree(f, used, m) && ValClosed(m, v) && Free(f, used, v)
    requires f.UnknownKind? ==> Followable(v)
    ensures WalkTarget(m, rank, v, level, seen).fault != Some(f)
    decreases Budget(m, level, seen), SliceRank(rank, v), v, 2
  {
    if Followable(v) && !v.Bytes? {
      FaultNeedsCause(f, used, m, rank, v, level, seen);
    }
  }

  lemma {:induction false} SlotsNeedCause(
      f: Fault, used: Usage, m: Mem, rank: map<Ref, nat>, slots: seq<Slot>, bound: nat, level: nat, seen: set<Ref>)
    requires Heap(m, rank) && f != Cycle && MemoryFree(f, used, m)
    requires forall s :: s in slots && Visited(s.name) ==> SliceRank(rank, s.val) <= bound
    requires forall s :: s in slots && Visited(s.name) ==>
               && ValClosed(m, s.val)
               && if Barred(s.name) then f != UnknownKind else Free(f, used, s.val)
    ensures WalkSlots(m, rank, slots, bound, level, seen).fault != Some(f)
    decreases Budget(m, level, seen), bound, slots, 0
  {
    if slots != [] {
      if Visited(slots[0].name) && !Barred(slots[0].name) {
        FaultNeedsCause(f, used, m, rank, slots[0].val, level, seen);
      }
      SlotsNeedCause(f, used, m, rank, slots[1..], bound, level, seen);
    }
  }

  lemma {:induction false} ElemsNeedCause(
      f: Fault, used: Usage, m: Mem, rank: map<Ref, nat>, vals: seq<Val>, bound: nat, level: nat, seen: set<Ref>)
    requires Heap(m, rank) && f != Cycle && MemoryFree(f, used, m)
    requires forall x :: x in vals ==> ValClosed(m, x) && SliceRank(rank, x) <= bound && Free(f, used, x)
    ensures WalkElems(m, rank, vals, bound, level, seen).fault != Some(f)
    decreases Budget(m, level, seen), bound, vals, 0
  {
    if vals != [] {
      FaultNeedsCause(f, used, m, rank, vals[0], level, seen);
      ElemsNeedCause(f, used, m, rank, vals[1..], bound, level, seen);
    }
  }

  /** Where nothing else is wrong, a cycle is reported exactly for values without a finite unfolding. */
  lemma CycleExactlyWhenInfinite(used: Usage, m: Mem, rank: map<Ref, nat>, v: Val)
    requires Heap(m, rank) && ValClosed(m, v)
    requires forall f :: f != Cycle ==> MemoryFree(f, used, m) && Free(f, used, v)
    ensures MarshalSpec(m, rank, v).fault == Some(Cycle) <==> forall t :: !Unfolds(m, v, t)
    ensures MarshalSpec(m, rank, v).fault.Some? ==> MarshalSpec(m, rank, v).fault == Some(Cycle)
  {
    MarshalExact(m, rank, v);
    var fault := MarshalSpec(m, rank, v).fault;
    if fault.Some? && fault.value != Cycle {
      FaultNeedsCause(fault.value, used, m, rank, v, 0, {});
      assert false;
    }
  }
}
