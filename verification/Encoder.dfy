/** The encoder: what encode does to memory graphs, why that is the encoding of the unfolding, and the pooled state. */
module Encoder {
  import opened GoMemory
  import opened WireFormat

  const START_DETECTING := 100

  // ---- The memories encode is called on ----

  ghost predicate ValClosed(m: Mem, v: Val) {
    match v
    case Struct(slots) => forall i :: 0 <= i < |slots| && Visited(slots[i].name) ==> ValClosed(m, slots[i].val)
    case Slice(a, n) => a in m.arrays && n <= |m.arrays[a]|
    case Ptr(r) => r in m.objs
    case _ => true
  }

  /** How deeply slices nest inside v before a pointer is crossed, as certified by rank. */
  ghost function SliceRank(rank: map<Ref, nat>, v: Val): nat {
    match v
    case Struct(slots) => SlotsRank(rank, slots)
    case NilSlice => 1
    case Slice(a, _) => 1 + if a in rank then rank[a] else 0
    case _ => 0
  }

  ghost function SlotsRank(rank: map<Ref, nat>, slots: seq<Slot>): (r: nat)
    ensures forall s :: s in slots && Visited(s.name) ==> SliceRank(rank, s.val) <= r
  {
    if slots == [] then 0
    else
      var r0 := if Visited(slots[0].name) then SliceRank(rank, slots[0].val) else 0;
      var r1 := SlotsRank(rank, slots[1..]);
      assert slots == [slots[0]] + slots[1..];
      if r0 > r1 then r0 else r1
  }

  /** No reference dangles, and every reference cycle passes through a pointer: slices alone form none. */
  ghost predicate Heap(m: Mem, rank: map<Ref, nat>) {
    && (forall r :: r in m.objs ==> ValClosed(m, m.objs[r]))
    && (forall a, i :: a in m.arrays && 0 <= i < |m.arrays[a]| ==>
          a in rank && ValClosed(m, m.arrays[a][i]) && SliceRank(rank, m.arrays[a][i]) <= rank[a])
  }

  // ---- What encode computes, as a function of the memory and the cycle-detection state ----

  ghost function Budget(m: Mem, level: nat, seen: set<Ref>): nat {
    |m.objs.Keys - seen| + if level < START_DETECTING then START_DETECTING - level else 0
  }

  lemma BudgetDrops(m: Mem, level: nat, seen: set<Ref>, r: Ref)
    requires r in m.objs
    ensures level < START_DETECTING ==> Budget(m, level + 1, seen) < Budget(m, level, seen)
    ensures level >= START_DETECTING && r !in seen ==> Budget(m, level + 1, seen + {r}) < Budget(m, level, seen)
  {
    if r !in seen {
      assert m.objs.Keys - (seen + {r}) == (m.objs.Keys - seen) - {r};
    }
  }

  ghost function Walk(m: Mem, rank: map<Ref, nat>, v: Val, level: nat, seen: set<Ref>): Out
    requires Heap(m, rank) && ValClosed(m, v)
    decreases Budget(m, level, seen), SliceRank(rank, v), v, 1
  {
    match v
    case Bool(b) => Out([if b then 1 else 0], None)
    case Num(k, n) => Out(PutNum(k, n), None)
    case Str(s) => if 0 in s then Out([], Some(NulInString)) else Out(s + [0], None)
    case Bytes(s) =>
      if |s| > MAX_ELEMENTS then Out([], Some(TooLong(|s|))) else Out(LengthPrefix(|s|) + s, None)
    case Struct(slots) => WalkSlots(m, rank, slots, SliceRank(rank, v), level, seen)
    case NilSlice => WalkArray(m, rank, [], 0, level, seen)
    case Slice(a, n) => WalkArray(m, rank, m.arrays[a][..n], if a in rank then rank[a] else 0, level, seen)
    case NilPtr => Out([], Some(NilPointer))
    case Ptr(r) =>
      BudgetDrops(m, level, seen, r);
      if level < START_DETECTING then WalkTarget(m, rank, m.objs[r], level + 1, seen)
      else if r in seen then Out([], Some(Cycle))
      else WalkTarget(m, rank, m.objs[r], level + 1, seen + {r})
    case Opaque => Out([], Some(UnknownKind))
  }

  /** What follows once a pointer has been replaced by what it points to. */
  ghost function WalkTarget(m: Mem, rank: map<Ref, nat>, v: Val, level: nat, seen: set<Ref>): Out
    requires Heap(m, rank) && ValClosed(m, v)
    decreases Budget(m, level, seen), SliceRank(rank, v), v, 2
  {
    match v
    case Struct(_) => Walk(m, rank, v, level, seen)
    case NilSlice => Walk(m, rank, v, level, seen)
    case Slice(_, _) => Walk(m, rank, v, level, seen)
    case Bytes(s) => if |s| > MAX_ELEMENTS then Out([], Some(TooLong(|s|))) else Out(LengthPrefix(|s|) + s, None)
    case _ => Out([], Some(UnknownKind))
  }

  ghost function WalkSlots(m: Mem, rank: map<Ref, nat>, slots: seq<Slot>, bound: nat, level: nat, seen: set<Ref>): Out
    requires Heap(m, rank)
    requires forall s :: s in slots && Visited(s.name) ==> SliceRank(rank, s.val) <= bound
    requires forall s :: s in slots && Visited(s.name) ==> ValClosed(m, s.val)
    decreases Budget(m, level, seen), bound, slots, 0
  {
    if slots == [] then Out([], None)
    else if !Visited(slots[0].name) then WalkSlots(m, rank, slots[1..], bound, level, seen)
    else if Barred(slots[0].name) then Out([], Some(UnknownKind))
    else Then(Walk(m, rank, slots[0].val, level, seen), WalkSlots(m, rank, slots[1..], bound, level, seen))
  }

  ghost function WalkArray(m: Mem, rank: map<Ref, nat>, vals: seq<Val>, bound: nat, level: nat, seen: set<Ref>): Out
    requires Heap(m, rank)
    requires forall x :: x in vals ==> ValClosed(m, x) && SliceRank(rank, x) <= bound
    decreases Budget(m, level, seen), bound, vals, 1
  {
    if |vals| > MAX_ELEMENTS then Out([], Some(TooLong(|vals|)))
    else Then(Out(LengthPrefix(|vals|), None), WalkElems(m, rank, vals, bound, level, seen))
  }

  ghost function WalkElems(m: Mem, rank: map<Ref, nat>, vals: seq<Val>, bound: nat, level: nat, seen: set<Ref>): Out
    requires Heap(m, rank)
    requires forall x :: x in vals ==> ValClosed(m, x) && SliceRank(rank, x) <= bound
    decreases Budget(m, level, seen), bound, vals, 0
  {
    if vals == [] then Out([], None)
    else Then(Walk(m, rank, vals[0], level, seen), WalkElems(m, rank, vals[1..], bound, level, seen))
  }

  /** What following pointer r amounts to. */
  ghost function Followed(m: Mem, rank: map<Ref, nat>, r: Ref, level: nat, seen: set<Ref>): (out: Out)
    requires Heap(m, rank) && r in m.objs
    ensures out == Walk(m, rank, Val.Ptr(r), level, seen)
  {
    if level < START_DETECTING then WalkTarget(m, rank, m.objs[r], level + 1, seen)
    else if r in seen then Out([], Some(Cycle))
    else WalkTarget(m, rank, m.objs[r], level + 1, seen + {r})
  }

  /** Above depth 100 pointers are followed unrecorded; from there on one is recorded, and not followed twice. */
  lemma DetectionStartsAtDepth100(m: Mem, rank: map<Ref, nat>, r: Ref, level: nat, seen: set<Ref>)
    requires Heap(m, rank) && r in m.objs
    ensures level < 100 ==>
              Walk(m, rank, Val.Ptr(r), level, seen) == WalkTarget(m, rank, m.objs[r], level + 1, seen)
    ensures level >= 100 && r !in seen ==>
              Walk(m, rank, Val.Ptr(r), level, seen) == WalkTarget(m, rank, m.objs[r], level + 1, seen + {r})
    ensures level >= 100 && r in seen ==> Walk(m, rank, Val.Ptr(r), level, seen) == Out([], Some(Cycle))
  {
  }

  // ---- encode is the tree encoder applied to the unfolding ----

  function Size(t: Tree): (n: nat)
    ensures n > 0
  {
    match t
    case Struct(fs) => 1 + SizeAll(fs)
    case Slice(es) => 1 + SizeAll(es)
    case Ptr(t') => 1 + Size(t')
    case _ => 1
  }

  function SizeAll(ts: seq<Tree>): nat {
    if ts == [] then 0 else Size(ts[0]) + SizeAll(ts[1..])
  }

  /** Whatever a recorded pointer leads to unfolds to a tree of at least n nodes, as an ancestor's does. */
  ghost predicate Ancestors(m: Mem, seen: set<Ref>, n: nat) {
    forall a, t :: a in seen && a in m.objs && Unfolds(m, m.objs[a], t) ==> Size(t) >= n
  }

  /** An object unfolding to t' is no ancestor of a pointer to itself, and may be recorded while t' is walked. */
  lemma AncestorsGrow(m: Mem, seen: set<Ref>, r: Ref, t': Tree)
    requires r in m.objs && Unfolds(m, m.objs[r], t') && Ancestors(m, seen, 1 + Size(t'))
    ensures r !in seen && Ancestors(m, seen, Size(t')) && Ancestors(m, seen + {r}, Size(t'))
  {
    forall u | Unfolds(m, m.objs[r], u) ensures Size(u) == Size(t') {
      UnfoldsUnique(m, m.objs[r], u, t');
    }
  }

  /**
   * On a value with a finite unfolding, encode behaves as on a tree: same bytes, same first error.
   * The detector never fires, at any depth and however much is shared.
   */
  lemma {:induction false} WalkIsTreeWalk(m: Mem, rank: map<Ref, nat>, v: Val, t: Tree, level: nat, seen: set<Ref>)
    requires Heap(m, rank) && ValClosed(m, v) && Unfolds(m, v, t)
    requires Ancestors(m, seen, Size(t))
    ensures Walk(m, rank, v, level, seen) == EncTree(t)
    decreases t, 1
  {
    match t
    case Struct(fs) => WalkSlotsIsTreeWalk(m, rank, v.slots, SliceRank(rank, v), fs, level, seen);
    case Slice(es) =>
      if v.Slice? {
        var bound := if v.arr in rank then rank[v.arr] else 0;
        WalkElemsIsTreeWalk(m, rank, m.arrays[v.arr][..v.len], bound, es, level, seen);
      } else {
        WalkElemsIsTreeWalk(m, rank, [], 0, es, level, seen);
      }
    case Ptr(t') =>
      var r := v.ref;
      AncestorsGrow(m, seen, r, t');
      var seen' := if level < START_DETECTING then seen else seen + {r};
      WalkIsTreeWalk(m, rank, m.objs[r], t', level + 1, seen');
    case _ =>
  }

  lemma {:induction false} WalkSlotsIsTreeWalk(
      m: Mem, rank: map<Ref, nat>, slots: seq<Slot>, bound: nat, fs: seq<Tree>, level: nat, seen: set<Ref>)
    requires Heap(m, rank)
    requires forall s :: s in slots && Visited(s.name) ==> SliceRank(rank, s.val) <= bound
    requires forall s :: s in slots && Visited(s.name) ==> ValClosed(m, s.val)
    requires |fs| == |slots|
    requires forall i :: 0 <= i < |fs| ==>
               if Barred(slots[i].name) then fs[i].Opaque?
               else if Visited(slots[i].name) then Unfolds(m, slots[i].val, fs[i])
               else fs[i].Hidden?
    requires Ancestors(m, seen, SizeAll(fs))
    ensures WalkSlots(m, rank, slots, bound, level, seen) == EncAll(fs)
    decreases fs, 0
  {
    if fs != [] {
      if Visited(slots[0].name) && !Barred(slots[0].name) {
        WalkIsTreeWalk(m, rank, slots[0].val, fs[0], level, seen);
      }
      WalkSlotsIsTreeWalk(m, rank, slots[1..], bound, fs[1..], level, seen);
    }
  }

  lemma {:induction false} WalkElemsIsTreeWalk(
      m: Mem, rank: map<Ref, nat>, vals: seq<Val>, bound: nat, es: seq<Tree>, level: nat, seen: set<Ref>)
    requires Heap(m, rank)
    requires forall x :: x in vals ==> ValClosed(m, x) && SliceRank(rank, x) <= bound
    requires |es| == |vals| && forall i :: 0 <= i < |es| ==> Unfolds(m, vals[i], es[i])
    requires Ancestors(m, seen, SizeAll(es))
    ensures WalkElems(m, rank, vals, bound, level, seen) == EncAll(es)
    decreases es, 0
  {
    if es != [] {
      WalkIsTreeWalk(m, rank, vals[0], es[0], level, seen);
      WalkElemsIsTreeWalk(m, rank, vals[1..], bound, es[1..], level, seen);
    }
  }

  /** A walk that succeeds has seen the whole unfolding, so there is one. */
  lemma {:induction false} SuccessUnfolds(m: Mem, rank: map<Ref, nat>, v: Val, level: nat, seen: set<Ref>)
    returns (t: Tree)
    requires Heap(m, rank) && ValClosed(m, v)
    requires Walk(m, rank, v, level, seen).fault.None?
    ensures Unfolds(m, v, t)
    decreases Budget(m, level, seen), SliceRank(rank, v), v, 1
  {
    match v
    case Bool(b) => t := Tree.Bool(b);
    case Num(k, n) => t := Tree.Num(k, n);
    case Str(s) => t := Tree.Str(s);
    case Bytes(s) => t := Tree.Bytes(s);
    case Struct(slots) =>
      var fs := SlotsUnfold(m, rank, slots, SliceRank(rank, v), level, seen);
      t := Tree.Struct(fs);
    case NilSlice => t := Tree.Slice([]);
    case Slice(a, n) =>
      var es := ElemsUnfold(m, rank, m.arrays[a][..n], if a in rank then rank[a] else 0, level, seen);
      t := Tree.Slice(es);
    case Ptr(r) => t := PointerUnfolds(m, rank, r, level, seen);
  }

  lemma {:induction false} PointerUnfolds(m: Mem, rank: map<Ref, nat>, r: Ref, level: nat, seen: set<Ref>)
    returns (t: Tree)
    requires Heap(m, rank) && r in m.objs
    requires Walk(m, rank, Val.Ptr(r), level, seen).fault.None?
    ensures Unfolds(m, Val.Ptr(r), t)
    decreases Budget(m, level, seen), SliceRank(rank, Val.Ptr(r)), Val.Ptr(r), 0
  {
    BudgetDrops(m, level, seen, r);
    var t' := TargetUnfolds(m, rank, m.objs[r], level + 1, if level < START_DETECTING then seen else seen + {r});
    t := Tree.Ptr(t');
  }

  lemma {:induction false} TargetUnfolds(m: Mem, rank: map<Ref, nat>, v: Val, level: nat, seen: set<Ref>)
    returns (t: Tree)
    requires Heap(m, rank) && ValClosed(m, v)
    requires WalkTarget(m, rank, v, level, seen).fault.None?
    ensures Unfolds(m, v, t)
    decreases Budget(m, level, seen), SliceRank(rank, v), v, 2
  {
    if v.Bytes? {
      t := Tree.Bytes(v.s);
    } else {
      t := SuccessUnfolds(m, rank, v, level, seen);
    }
  }

  lemma {:induction false} SlotsUnfold(
      m: Mem, rank: map<Ref, nat>, slots: seq<Slot>, bound: nat, level: nat, seen: set<Ref>)
    returns (fs: seq<Tree>)
    requires Heap(m, rank)
    requires forall s :: s in slots && Visited(s.name) ==> SliceRank(rank, s.val) <= bound
    requires forall s :: s in slots && Visited(s.name) ==> ValClosed(m, s.val)
    requires WalkSlots(m, rank, slots, bound, level, seen).fault.None?
    ensures |fs| == |slots|
    ensures forall i :: 0 <= i < |fs| ==>
              if Barred(slots[i].name) then fs[i].Opaque?
              else if Visited(slots[i].name) then Unfolds(m, slots[i].val, fs[i])
              else fs[i].Hidden?
    decreases Budget(m, level, seen), bound, slots, 0
  {
    if slots == [] {
      fs := [];
    } else {
      var rest := SlotsUnfold(m, rank, slots[1..], bound, level, seen);
      var f := Hidden;
      if Visited(slots[0].name) {
        f := SuccessUnfolds(m, rank, slots[0].val, level, seen);
      }
      fs := [f] + rest;
    }
  }

  lemma {:induction false} ElemsUnfold(
      m: Mem, rank: map<Ref, nat>, vals: seq<Val>, bound: nat, level: nat, seen: set<Ref>)
    returns (es: seq<Tree>)
    requires Heap(m, rank)
    requires forall x :: x in vals ==> ValClosed(m, x) && SliceRank(rank, x) <= bound
    requires WalkElems(m, rank, vals, bound, level, seen).fault.None?
    ensures |es| == |vals| && forall i :: 0 <= i < |es| ==> Unfolds(m, vals[i], es[i])
    decreases Budget(m, level, seen), bound, vals, 0
  {
    es := [];
    if vals != [] {
      var e := SuccessUnfolds(m, rank, vals[0], level, seen);
      var rest := ElemsUnfold(m, rank, vals[1..], bound, level, seen);
      es := [e] + rest;
    }
  }

  /** The outcome of encode on a fresh or properly emptied state. */
  ghost function MarshalSpec(m: Mem, rank: map<Ref, nat>, v: Val): Out
    requires Heap(m, rank) && ValClosed(m, v)
  {
    Walk(m, rank, v, 0, {})
  }

  /** encode succeeds exactly when the unfolding is finite and encodable, and then writes its wire form. */
  lemma MarshalExact(m: Mem, rank: map<Ref, nat>, v: Val)
    requires Heap(m, rank) && ValClosed(m, v)
    ensures MarshalSpec(m, rank, v).fault.None? <==> exists t :: Unfolds(m, v, t) && Encodable(t)
    ensures forall t :: Unfolds(m, v, t) && Encodable(t) ==> MarshalSpec(m, rank, v).bytes == Wire(t)
    ensures MarshalSpec(m, rank, v).fault == Some(Cycle) ==> forall t :: !Unfolds(m, v, t)
  {
    forall t | Unfolds(m, v, t) ensures MarshalSpec(m, rank, v) == EncTree(t) {
      WalkIsTreeWalk(m, rank, v, t, 0, {});
    }
    forall t { EncTreeExact(t); }
    if MarshalSpec(m, rank, v).fault.None? {
      var t := SuccessUnfolds(m, rank, v, 0, {});
      assert Unfolds(m, v, t) && Encodable(t);
    }
  }

  /** Two encodings of one type, shared or nested however the values are, are prefix-free. */
  lemma MarshalPrefixFree(
      env: Env, ty: Ty, m1: Mem, rank1: map<Ref, nat>, v1: Val, t1: Tree, m2: Mem, rank2: map<Ref, nat>, v2: Val,
      t2: Tree)
    requires ValidEnv(env) && Supported(env, ty)
    requires Heap(m1, rank1) && ValClosed(m1, v1) && Heap(m2, rank2) && ValClosed(m2, v2)
    requires Unfolds(m1, v1, t1) && HasType(env, t1, ty) && Unfolds(m2, v2, t2) && HasType(env, t2, ty)
    requires MarshalSpec(m1, rank1, v1).fault.None? && MarshalSpec(m2, rank2, v2).fault.None?
    requires MarshalSpec(m1, rank1, v1).bytes <= MarshalSpec(m2, rank2, v2).bytes
    ensures t1 == t2
  {
    WalkIsTreeWalk(m1, rank1, v1, t1, 0, {});
    WalkIsTreeWalk(m2, rank2, v2, t2, 0, {});
    EncTreeExact(t1);
    EncTreeExact(t2);
    WirePrefixFree(env, ty, t1, t2);
  }
}
