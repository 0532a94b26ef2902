/** Marshal and Unmarshal together, on the memories they really read and write. */
module Codec {
  import opened LittleEndian
  import opened GoMemory
  import opened WireFormat
  import opened Encoder
  import opened Faults
  import opened Decoder
  import opened Flatness
  import opened InPlace
  import opened TypeSafety
  import DecodeStates

  // ---- Marshal, then Unmarshal ----

  /**
   * Round trip: if a value of a flat type marshals to b, then unmarshalling b, whatever follows it, into a zero
   * variable in any memory stops right behind b, without error, with a value that has the same unfolding.
   */
  lemma MarshalThenUnmarshal(
      env: Env, grow: Grow, ty: Ty, h: Typing, m: Mem, rank: map<Ref, nat>, v: Val, suffix: seq<byte>, mem: Mem,
      next: Ref)
    requires ValidEnv(env) && Supported(env, ty) && Flat(env, ty)
    requires WellTyped(env, h, m) && Typed(env, h, v, ty) && Heap(m, rank) && ValClosed(m, v)
    requires MarshalSpec(m, rank, v).fault.None? && Allocated(State(0, mem, next))
    ensures var b := MarshalSpec(m, rank, v).bytes;
            var r := Into(env, grow, ty, b + suffix, State(0, mem, next), Zero(env, ty));
            && r.status == Done && r.st.off == |b| && Extends(mem, r.st.mem)
            && SameUnfolding(m, v, r.st.mem, r.val)
  {
    var b := MarshalSpec(m, rank, v).bytes;
    var r := Into(env, grow, ty, b + suffix, State(0, mem, next), Zero(env, ty));
    var t := MarshalledTree(env, h, m, rank, v, ty);
    assert Wire(t) <= b + suffix;
    DecodeStates.UnmarshalFlat(env, grow, ty, b + suffix, mem, next);
    SameTree(m, v, r.st.mem, r.val, t);
  }

  /** Both values unfold, and to the same tree. */
  ghost predicate SameUnfolding(m: Mem, v: Val, m': Mem, v': Val) {
    && (exists t :: Unfolds(m, v, t))
    && (forall t :: Unfolds(m, v, t) <==> Unfolds(m', v', t))
  }

  lemma SameTree(m: Mem, v: Val, m': Mem, v': Val, t: Tree)
    requires Unfolds(m, v, t) && Unfolds(m', v', t)
    ensures SameUnfolding(m, v, m', v')
  {
    forall u ensures Unfolds(m, v, u) <==> Unfolds(m', v', u) {
      if Unfolds(m, v, u) {
        UnfoldsUnique(m, v, t, u);
      }
      if Unfolds(m', v', u) {
        UnfoldsUnique(m', v', t, u);
      }
    }
  }

  lemma MarshalledTree(env: Env, h: Typing, m: Mem, rank: map<Ref, nat>, v: Val, ty: Ty) returns (t: Tree)
    requires WellTyped(env, h, m) && Typed(env, h, v, ty) && Heap(m, rank) && ValClosed(m, v)
    requires MarshalSpec(m, rank, v).fault.None?
    ensures Unfolds(m, v, t) && HasType(env, t, ty) && Encodable(t) && MarshalSpec(m, rank, v).bytes == Wire(t)
  {
    MarshalExact(m, rank, v);
    t :| Unfolds(m, v, t) && Encodable(t);
    UnfoldingHasType(env, h, m, v, ty, t);
  }

  lemma MarshalOf(m: Mem, rank: map<Ref, nat>, v: Val, t: Tree)
    requires Heap(m, rank) && ValClosed(m, v) && Unfolds(m, v, t) && Encodable(t)
    ensures MarshalSpec(m, rank, v) == Out(Wire(t), None)
  {
    WalkIsTreeWalk(m, rank, v, t, 0, {});
    EncTreeExact(t);
  }

  // ---- Memory to which flat elements are added stays fit for encoding ----

  lemma {:induction false} TypedIsClosed(env: Env, h: Typing, m: Mem, v: Val, ty: Ty)
    requires WellTyped(env, h, m) && Typed(env, h, v, ty)
    ensures ValClosed(m, v)
    decreases v
  {
    match v
    case Struct(slots) =>
      forall i | 0 <= i < |slots| && Visited(slots[i].name) ensures ValClosed(m, slots[i].val) {
        TypedIsClosed(env, h, m, slots[i].val, env.structs[ty.name][i].ty);
      }
    case _ =>
  }

  /** Blank values hold no slices, and values of a flat element type only such whose elements are blank. */
  lemma {:induction false} FlatElementRank(env: Env, h: Typing, rank: map<Ref, nat>, v: Val, ty: Ty)
    requires ValidEnv(env) && Supported(env, ty) && FlatElement(env, ty) && Typed(env, h, v, ty)
    requires forall a ::
               a in rank && a in h.elems && Supported(env, h.elems[a]) && Blank(env, h.elems[a]) ==> rank[a] == 0
    ensures SliceRank(rank, v) <= if Blank(env, ty) then 0 else 1
    decreases v
  {
    if v.Struct? {
      var bound := if Blank(env, ty) then 0 else 1;
      forall i | 0 <= i < |v.slots| && Visited(v.slots[i].name) ensures SliceRank(rank, v.slots[i].val) <= bound {
        FlatElementRank(env, h, rank, v.slots[i].val, env.structs[ty.name][i].ty);
      }
      SlotsRankBounded(rank, v.slots, bound);
    }
  }

  lemma {:induction false} SlotsRankBounded(rank: map<Ref, nat>, slots: seq<Slot>, bound: nat)
    requires forall i :: 0 <= i < |slots| && Visited(slots[i].name) ==> SliceRank(rank, slots[i].val) <= bound
    ensures SlotsRank(rank, slots) <= bound
  {
    if slots != [] {
      SlotsRankBounded(rank, slots[1..], bound);
    }
  }

  /** Arrays of blank values rank lowest, arrays of memory m as in rank0, and those added since above the blank ones. */
  ghost function ByElement(env: Env, h: Typing, m: Mem, rank0: map<Ref, nat>, m': Mem): map<Ref, nat>
    requires ValidEnv(env)
  {
    map a | a in m'.arrays ::
      if a in h.elems && Supported(env, h.elems[a]) && Blank(env, h.elems[a]) then 0
      else if a in m.arrays then RankAt(rank0, a)
      else 1
  }

  ghost function RankAt(rank: map<Ref, nat>, a: Ref): nat {
    if a in rank then rank[a] else 0
  }

  lemma {:induction false} LowerRank(env: Env, h: Typing, rank: map<Ref, nat>, rank0: map<Ref, nat>, v: Val, ty: Ty)
    requires Typed(env, h, v, ty) && forall a :: a in h.elems ==> RankAt(rank, a) <= RankAt(rank0, a)
    ensures SliceRank(rank, v) <= SliceRank(rank0, v)
    decreases v
  {
    if v.Struct? {
      forall i | 0 <= i < |v.slots| && Visited(v.slots[i].name)
        ensures SliceRank(rank, v.slots[i].val) <= SliceRank(rank0, v)
      {
        assert v.slots[i] in v.slots;
        LowerRank(env, h, rank, rank0, v.slots[i].val, env.structs[ty.name][i].ty);
      }
      SlotsRankBounded(rank, v.slots, SliceRank(rank0, v));
    }
  }

  /** Where neither the old memory nor what was added has slices in a cycle, the whole has none. */
  lemma FlatAddedIsHeap(env: Env, h: Typing, m: Mem, rank0: map<Ref, nat>, h': Typing, m': Mem)
    requires ValidEnv(env) && WellTyped(env, h, m) && Heap(m, rank0)
    requires WellTyped(env, h', m') && More(h, h') && FlatAdded(env, h, h') && Extends(m, m')
    ensures Heap(m', ByElement(env, h', m, rank0, m'))
  {
    var rank := ByElement(env, h', m, rank0, m');
    forall r | r in m'.objs ensures ValClosed(m', m'.objs[r]) {
      TypedIsClosed(env, h', m', m'.objs[r], h'.objs[r]);
    }
    forall a, i | a in m'.arrays && 0 <= i < |m'.arrays[a]|
      ensures ValClosed(m', m'.arrays[a][i]) && SliceRank(rank, m'.arrays[a][i]) <= rank[a]
    {
      TypedIsClosed(env, h', m', m'.arrays[a][i], h'.elems[a]);
      ElementRank(env, h, m, rank0, h', m', a, i);
    }
  }

  lemma ElementRank(env: Env, h: Typing, m: Mem, rank0: map<Ref, nat>, h': Typing, m': Mem, a: Ref, i: nat)
    requires ValidEnv(env) && WellTyped(env, h, m) && Heap(m, rank0)
    requires WellTyped(env, h', m') && More(h, h') && FlatAdded(env, h, h') && Extends(m, m')
    requires a in m'.arrays && i < |m'.arrays[a]|
    ensures var rank := ByElement(env, h', m, rank0, m'); SliceRank(rank, m'.arrays[a][i]) <= rank[a]
  {
    var rank, v, e := ByElement(env, h', m, rank0, m'), m'.arrays[a][i], h'.elems[a];
    if Supported(env, e) && (Blank(env, e) || a !in m.arrays) {
      if Blank(env, e) {
        BlankIsFlatElement(env, e);
      }
      FlatElementRank(env, h', rank, v, e);
    } else {
      LowerRank(env, h, rank, rank0, v, e);
    }
  }

  // ---- Unmarshal, then Marshal ----

  /** w is what marshalling the decoded value yields: the bytes consumed, but for booleans spelled otherwise than 1. */
  ghost predicate Renormalised(p: seq<byte>, n: nat, mask: seq<bool>, w: seq<byte>) {
    && n <= |p| && |w| == |mask| == n
    && Normalises(p[..n], mask, w)
    && (w == p[..n] <==> forall i :: 0 <= i < n && mask[i] ==> p[i] <= 1)
  }

  /**
   * Normalisation: whenever unmarshalling into a zero variable of a flat type succeeds on n bytes, marshalling the
   * result succeeds with n bytes, equal to those consumed except that non-zero booleans become 1; and so reproduces
   * them exactly when every boolean byte was 0 or 1.
   */
  lemma UnmarshalThenMarshal(
      env: Env, grow: Grow, ty: Ty, p: seq<byte>, h: Typing, mem: Mem, rank0: map<Ref, nat>, next: Ref)
    returns (t: Tree, rank: map<Ref, nat>)
    requires ValidEnv(env) && Supported(env, ty) && Flat(env, ty)
    requires Allocated(State(0, mem, next)) && WellTyped(env, h, mem) && Heap(mem, rank0)
    requires Into(env, grow, ty, p, State(0, mem, next), Zero(env, ty)).status == Done
    ensures var r := Into(env, grow, ty, p, State(0, mem, next), Zero(env, ty));
            && Unfolds(r.st.mem, r.val, t)
            && Heap(r.st.mem, rank) && ValClosed(r.st.mem, r.val)
            && var w := MarshalSpec(r.st.mem, rank, r.val);
            w.fault.None? && Renormalised(p, r.st.off, BoolMask(t), w.bytes)
  {
    var st := State(0, mem, next);
    var r := Into(env, grow, ty, p, st, Zero(env, ty));
    ZeroTyped(env, h, ty);
    var h' := IntoTyped(env, grow, ty, p, st, Zero(env, ty), h);
    DecodeStates.UnmarshalFlat(env, grow, ty, p, mem, next);
    rank := ByElement(env, h', mem, rank0, r.st.mem);
    FlatAddedIsHeap(env, h, mem, rank0, h', r.st.mem);
    TypedIsClosed(env, h', r.st.mem, r.val, ty);
    t := DecodedTree(env, grow, ty, p, mem, next);
    MarshalOf(r.st.mem, rank, r.val, t);
  }

  lemma DecodedTree(env: Env, grow: Grow, ty: Ty, p: seq<byte>, mem: Mem, next: Ref) returns (t: Tree)
    requires ValidEnv(env) && Supported(env, ty) && Flat(env, ty) && Allocated(State(0, mem, next))
    requires Into(env, grow, ty, p, State(0, mem, next), Zero(env, ty)).status == Done
    ensures var r := Into(env, grow, ty, p, State(0, mem, next), Zero(env, ty));
            && Unfolds(r.st.mem, r.val, t) && HasType(env, t, ty) && Encodable(t)
            && Renormalised(p, r.st.off, BoolMask(t), Wire(t))
  {
    var st := State(0, mem, next);
    var r, d := Into(env, grow, ty, p, st, Zero(env, ty)), WireFormat.Decode(env, ty, p, 0);
    FlatInto(env, grow, ty, p, st);
    t := d.value;
    UnfoldsExtends(Since(r.st.mem, next), r.st.mem, r.val, t);
    DecodeThenWire(env, ty, p, 0);
    assert p[0..d.off] == p[..d.off];
    ReencodeIsIdentity(env, ty, p);
  }

  // ---- Typed memory never makes encode panic ----

  /** What makes encode panic in the end: whatever surrounds a barred field, Marshal does not get past it. */
  lemma BarredFieldStopsMarshal(m: Mem, rank: map<Ref, nat>, slots: seq<Slot>, i: nat)
    requires Heap(m, rank) && ValClosed(m, Val.Struct(slots)) && i < |slots| && Barred(slots[i].name)
    ensures MarshalSpec(m, rank, Val.Struct(slots)).fault.Some?
    ensures (forall j :: 0 <= j < i ==> !Visited(slots[j].name)) ==>
              MarshalSpec(m, rank, Val.Struct(slots)).fault == Some(UnknownKind)
  {
    BarredFieldStopsWalk(m, rank, slots, i, SliceRank(rank, Val.Struct(slots)));
  }

  lemma {:induction false} BarredFieldStopsWalk(m: Mem, rank: map<Ref, nat>, slots: seq<Slot>, i: nat, bound: nat)
    requires Heap(m, rank) && i < |slots| && Barred(slots[i].name)
    requires forall s :: s in slots && Visited(s.name) ==> SliceRank(rank, s.val) <= bound
    requires forall s :: s in slots && Visited(s.name) ==> ValClosed(m, s.val)
    ensures var fault := WalkSlots(m, rank, slots, bound, 0, {}).fault;
            && fault.Some?
            && ((forall j :: 0 <= j < i ==> !Visited(slots[j].name)) ==> fault == Some(UnknownKind))
    decreases |slots|
  {
    if i > 0 {
      assert forall j :: 0 <= j < i - 1 ==> slots[1..][j] == slots[j + 1];
      BarredFieldStopsWalk(m, rank, slots[1..], i - 1, bound);
    }
  }

  /** All types in use are ones the codec knows. */
  ghost predicate KnownTypes(env: Env, h: Typing) {
    && (forall r :: r in h.objs ==> PointerTarget(h.objs[r]) && Supported(env, h.objs[r]))
    && (forall a :: a in h.elems ==> Supported(env, h.elems[a]))
  }

  function Lengths(m: Mem): Usage {
    map a | a in m.arrays :: |m.arrays[a]|
  }

  lemma {:induction false} TypedIsKnown(env: Env, h: Typing, m: Mem, v: Val, ty: Ty)
    requires SupportedFields(env) && Supported(env, ty) && WellTyped(env, h, m) && Typed(env, h, v, ty)
    ensures Free(UnknownKind, Lengths(m), v)
    decreases v
  {
    if v.Struct? {
      forall i | 0 <= i < |v.slots| && Visited(v.slots[i].name)
        ensures !Barred(v.slots[i].name) && Free(UnknownKind, Lengths(m), v.slots[i].val)
      {
        TypedIsKnown(env, h, m, v.slots[i].val, env.structs[ty.name][i].ty);
      }
    }
  }

  lemma WellTypedIsKnown(env: Env, h: Typing, m: Mem)
    requires SupportedFields(env) && WellTyped(env, h, m) && KnownTypes(env, h)
    ensures MemoryFree(UnknownKind, Lengths(m), m)
  {
    forall r | r in m.objs ensures Free(UnknownKind, Lengths(m), m.objs[r]) && Followable(m.objs[r]) {
      TypedIsKnown(env, h, m, m.objs[r], h.objs[r]);
    }
    forall a, i | a in m.arrays && 0 <= i < |m.arrays[a]| ensures Free(UnknownKind, Lengths(m), m.arrays[a][i]) {
      TypedIsKnown(env, h, m, m.arrays[a][i], h.elems[a]);
    }
  }

  /** A tree in which no pointer is nil, no string holds a NUL, and nothing is longer than a uint16 can say. */
  predicate Clean(t: Tree) {
    match t
    case Str(s) => 0 !in s
    case Bytes(s) => |s| <= 65535
    case Struct(fs) => forall f | f in fs :: Clean(f)
    case Slice(es) => |es| <= 65535 && forall e | e in es :: Clean(e)
    case Ptr(t') => Clean(t')
    case Nil => false
    case _ => true
  }

  lemma {:induction false} CleanIsEncodable(env: Env, ty: Ty, t: Tree)
    requires SupportedFields(env) && Supported(env, ty) && HasType(env, t, ty)
    ensures Encodable(t) <==> Clean(t)
    decreases t
  {
    match t
    case Struct(fs) =>
      forall i | 0 <= i < |fs| ensures Encodable(fs[i]) <==> Clean(fs[i]) {
        if Visited(env.structs[ty.name][i].name) {
          CleanIsEncodable(env, env.structs[ty.name][i].ty, fs[i]);
        }
      }
    case Slice(es) =>
      forall i | 0 <= i < |es| ensures Encodable(es[i]) <==> Clean(es[i]) {
        CleanIsEncodable(env, ty.elem, es[i]);
      }
    case Ptr(t') => CleanIsEncodable(env, ty.elem, t');
    case _ =>
  }

  /**
   * On well-typed values, of types that may reach themselves in any way, Marshal never panics, and succeeds exactly
   * when the unfolding is finite, without nil pointers, NUL bytes in strings, or slices of more than 65535 elements.
   */
  lemma MarshalSucceedsExactlyOnCleanValues(env: Env, h: Typing, m: Mem, rank: map<Ref, nat>, v: Val, ty: Ty)
    requires SupportedFields(env) && WellTyped(env, h, m) && KnownTypes(env, h) && Heap(m, rank)
    requires Supported(env, ty) && Typed(env, h, v, ty) && ValClosed(m, v)
    ensures MarshalSpec(m, rank, v).fault != Some(UnknownKind)
    ensures MarshalSpec(m, rank, v).fault.None? <==> exists t :: Unfolds(m, v, t) && Clean(t)
  {
    WellTypedIsKnown(env, h, m);
    TypedIsKnown(env, h, m, v, ty);
    FaultNeedsCause(UnknownKind, Lengths(m), m, rank, v, 0, {});
    MarshalExact(m, rank, v);
    forall t | Unfolds(m, v, t) ensures Encodable(t) <==> Clean(t) {
      UnfoldingHasType(env, h, m, v, ty, t);
      CleanIsEncodable(env, ty, t);
    }
  }
}
