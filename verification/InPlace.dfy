/**
 * Decoding in place, into a variable of a flat type that shares nothing with itself, refines decoding every part into a
 * variable of its own. A zero variable is one such; what an earlier decode left in it is another.
 */
module InPlace {
  import opened LittleEndian
  import opened GoMemory
  import opened WireFormat
  import opened Decoder
  import opened Flatness
  import opened Reuse

  // ---- What a variable leads to ----

  /** The pointees and backing arrays that decoding into v writes in place. */
  ghost function Reached(env: Env, m: Mem, ty: Ty, v: Val): set<Ref>
    requires ValidEnv(env) && Supported(env, ty)
    decreases TyRank(env, ty), 1, 0
  {
    match ty
    case Struct(n) =>
      if v.Struct? && |v.slots| == |env.structs[n]|
      then SlotsReached(env, m, env.structs[n], v.slots, 0, env.rank[n])
      else {}
    case Ptr(e) => if v.Ptr? && v.ref in m.objs then {v.ref} + Reached(env, m, e, m.objs[v.ref]) else {}
    case Slice(_) => if v.Slice? then {v.arr} else {}
    case _ => {}
  }

  ghost function SlotsReached(
      env: Env, m: Mem, fields: seq<Field>, slots: seq<Slot>, i: nat, rank: nat): set<Ref>
    requires ValidEnv(env) && FieldsBelow(env, fields, rank) && i <= |fields| == |slots|
    decreases rank, 0, |fields| - i
  {
    if i == |fields| then {}
    else
      (if Visited(fields[i].name) then Reached(env, m, fields[i].ty, slots[i].val) else {})
      + SlotsReached(env, m, fields, slots, i + 1, rank)
  }

  /** v has the outline of its type, dangles nowhere, and reaches nothing in two ways. */
  ghost predicate Private(env: Env, m: Mem, ty: Ty, v: Val)
    requires ValidEnv(env) && Supported(env, ty)
    decreases TyRank(env, ty), 1, 0
  {
    match ty
    case Struct(n) =>
      && v.Struct? && |v.slots| == |env.structs[n]|
      && (forall i :: 0 <= i < |v.slots| ==> v.slots[i].name == env.structs[n][i].name)
      && SlotsPrivate(env, m, env.structs[n], v.slots, 0, env.rank[n])
    case Ptr(e) =>
      || v.NilPtr?
      || (&& v.Ptr? && v.ref in m.objs && v.ref !in Reached(env, m, e, m.objs[v.ref])
          && if e.Bytes? then m.objs[v.ref].Bytes? else Private(env, m, e, m.objs[v.ref]))
    case Slice(_) => Usable(m, v)
    case _ => true
  }

  ghost predicate SlotsPrivate(env: Env, m: Mem, fields: seq<Field>, slots: seq<Slot>, i: nat, rank: nat)
    requires ValidEnv(env) && FieldsBelow(env, fields, rank) && i <= |fields| == |slots|
    decreases rank, 0, |fields| - i
  {
    i < |fields| ==>
      && SlotsPrivate(env, m, fields, slots, i + 1, rank)
      && (Visited(fields[i].name) ==>
            && Private(env, m, fields[i].ty, slots[i].val)
            && Reached(env, m, fields[i].ty, slots[i].val) !! SlotsReached(env, m, fields, slots, i + 1, rank))
  }

  /** A zero variable leads nowhere. */
  lemma {:induction false} ZeroPrivate(env: Env, m: Mem, ty: Ty)
    requires ValidEnv(env) && Supported(env, ty)
    ensures Private(env, m, ty, Zero(env, ty)) && Reached(env, m, ty, Zero(env, ty)) == {}
    decreases TyRank(env, ty), 1, 0
  {
    if ty.Struct? {
      ZeroSlotsPrivate(env, m, env.structs[ty.name], env.rank[ty.name], 0);
    }
  }

  lemma {:induction false} ZeroSlotsPrivate(env: Env, m: Mem, fields: seq<Field>, rank: nat, i: nat)
    requires ValidEnv(env) && FieldsBelow(env, fields, rank) && i <= |fields|
    ensures SlotsPrivate(env, m, fields, ZeroSlots(env, fields, rank), i, rank)
    ensures SlotsReached(env, m, fields, ZeroSlots(env, fields, rank), i, rank) == {}
    decreases rank, 0, |fields| - i
  {
    if i < |fields| {
      ZeroSlotsPrivate(env, m, fields, rank, i + 1);
      if Visited(fields[i].name) {
        ZeroPrivate(env, m, fields[i].ty);
      }
    }
  }

  /** m' holds what m holds at the references of s. */
  ghost predicate SameAt(m: Mem, m': Mem, s: set<Ref>) {
    && (forall r :: r in s && r in m.objs ==> r in m'.objs && m'.objs[r] == m.objs[r])
    && (forall a :: a in s && a in m.arrays ==> a in m'.arrays && m'.arrays[a] == m.arrays[a])
  }

  /** What a private value leads to is in memory, and does not depend on any other memory. */
  lemma {:induction false} PrivateSame(env: Env, st: State, m': Mem, ty: Ty, v: Val)
    requires ValidEnv(env) && Supported(env, ty) && Allocated(st)
    requires Private(env, st.mem, ty, v) && SameAt(st.mem, m', Reached(env, st.mem, ty, v))
    ensures Private(env, m', ty, v) && Reached(env, m', ty, v) == Reached(env, st.mem, ty, v)
    ensures forall r :: r in Reached(env, st.mem, ty, v) ==> r < st.next
    decreases TyRank(env, ty), 1, 0
  {
    match ty
    case Struct(n) => SlotsPrivateSame(env, st, m', env.structs[n], v.slots, 0, env.rank[n]);
    case Ptr(e) =>
      if v.Ptr? && !e.Bytes? {
        PrivateSame(env, st, m', e, st.mem.objs[v.ref]);
      }
    case _ =>
  }

  lemma {:induction false} SlotsPrivateSame(
      env: Env, st: State, m': Mem, fields: seq<Field>, slots: seq<Slot>, i: nat, rank: nat)
    requires ValidEnv(env) && FieldsBelow(env, fields, rank) && i <= |fields| == |slots| && Allocated(st)
    requires SlotsPrivate(env, st.mem, fields, slots, i, rank)
    requires SameAt(st.mem, m', SlotsReached(env, st.mem, fields, slots, i, rank))
    ensures SlotsPrivate(env, m', fields, slots, i, rank)
    ensures SlotsReached(env, m', fields, slots, i, rank) == SlotsReached(env, st.mem, fields, slots, i, rank)
    ensures forall r :: r in SlotsReached(env, st.mem, fields, slots, i, rank) ==> r < st.next
    decreases rank, 0, |fields| - i
  {
    if i < |fields| {
      SlotsPrivateSame(env, st, m', fields, slots, i + 1, rank);
      if Visited(fields[i].name) {
        PrivateSame(env, st, m', fields[i].ty, slots[i].val);
      }
    }
  }

  /** Slots before position i do not matter from there on. */
  lemma {:induction false} SlotsPrivateAfter(
      env: Env, m: Mem, fields: seq<Field>, slots: seq<Slot>, slots': seq<Slot>, i: nat, rank: nat)
    requires ValidEnv(env) && FieldsBelow(env, fields, rank) && i <= |fields| == |slots| == |slots'|
    requires forall j :: i <= j < |slots| ==> slots'[j] == slots[j]
    ensures SlotsPrivate(env, m, fields, slots', i, rank) == SlotsPrivate(env, m, fields, slots, i, rank)
    ensures SlotsReached(env, m, fields, slots', i, rank) == SlotsReached(env, m, fields, slots, i, rank)
    decreases |fields| - i
  {
    if i < |fields| {
      SlotsPrivateAfter(env, m, fields, slots, slots', i + 1, rank);
    }
  }

  // ---- What decoding leaves ----

  /** The room there is for changes: what the variable leads to, and what is yet to be handed out. */
  ghost function Room(own: set<Ref>, next: Ref): iset<Ref> {
    iset r: Ref | r in own || r >= next
  }

  ghost function Within(m: Mem, room: iset<Ref>): Mem {
    Mem(map r | r in m.objs && r in room :: m.objs[r], map a | a in m.arrays && a in room :: m.arrays[a])
  }

  /** Decoding agrees with d, changes nothing but its own, and leaves a value made of that. */
  ghost predicate Refilled(st: State, own: set<Ref>, status: Status, st': State, val: Val, d: Dec<Tree>) {
    && Agrees(status, st'.off, d)
    && Allocated(st') && st.next <= st'.next && Keeps(st.mem, st'.mem, Room(own, st.next))
    && (d.Ok? ==> Unfolds(Within(st'.mem, Room(own, st.next)), val, d.value))
  }

  const NOTHING := Commons(map[], map[], map[])

  lemma NothingShared(env: Env, e: Ty, st: State, sl: Val, own: set<Ref>)
    requires ValidEnv(env) && Supported(env, e) && Allocated(st)
    requires Usable(st.mem, sl) && (sl.Slice? ==> sl.arr in own)
    ensures LoopReady(env, e, NOTHING, st, Zero(env, e), sl, Room(own, st.next))
  {
    ZeroHolds(env, NOTHING, e);
  }

  lemma SettledWithin(env: Env, g: Commons, m: Mem, room: iset<Ref>)
    requires ValidEnv(env) && Settled(env, g, m) && From(g, room)
    ensures Settled(env, g, Within(m, room))
  {
  }

  lemma ContentsUnfold(env: Env, g: Commons, e: Ty, m: Mem, room: iset<Ref>, sl: Val, es: seq<Tree>)
    requires ValidEnv(env) && Supported(env, e) && Settled(env, g, m) && From(g, room) && Own(g, room, m, sl)
    requires Appended(env, g, e, [], es, Contents(m, sl))
    ensures Unfolds(Within(m, room), sl, Tree.Slice(es))
  {
    var vals := Contents(m, sl);
    SettledWithin(env, g, m, room);
    forall i | 0 <= i < |es| ensures Unfolds(Within(m, room), vals[i], es[i]) {
      assert Shows(env, g, e, vals[0 + i], es[i]);
      ShowsUnfolds(env, g, Within(m, room), e, vals[i], es[i]);
    }
  }

  lemma LoopRefills(env: Env, e: Ty, st: State, sl: Val, own: set<Ref>, g: Commons, r: Res, d: Dec<seq<Tree>>)
    requires ValidEnv(env) && Supported(env, e) && Usable(st.mem, sl) && Contents(st.mem, sl) == []
    requires LoopResult(env, e, NOTHING, st, sl, Room(own, st.next), g, r, d)
    ensures Refilled(st, own, r.status, r.st, r.val, if d.Ok? then Ok(Tree.Slice(d.value), d.off) else Fail(d.off))
    ensures Usable(r.st.mem, r.val) && (r.val.Slice? ==> r.val.arr in Room(own, st.next))
  {
    if d.Ok? {
      ContentsUnfold(env, g, e, r.st.mem, Room(own, st.next), r.val, d.value);
    }
  }

  /** An array loop that starts over in the backing array of a used slice yields the freshly decoded elements. */
  lemma FlatArrayInto(env: Env, grow: Grow, e: Ty, p: seq<byte>, st: State, cell: Val)
    requires ValidEnv(env) && Supported(env, Ty.Slice(e)) && FlatElement(env, e) && st.off <= |p| && Allocated(st)
    requires Usable(st.mem, cell)
    ensures var r := ArrayInto(env, grow, e, p, st, cell);
            && Refilled(st, Reached(env, st.mem, Ty.Slice(e), cell), r.status, r.st, r.val,
                        Decode(env, Ty.Slice(e), p, st.off))
            && Usable(r.st.mem, r.val)
            && (r.val.Slice? ==> r.val.arr in Room(Reached(env, st.mem, Ty.Slice(e), cell), st.next))
  {
    if st.off + 2 <= |p| {
      var st1, n := st.(off := st.off + 2), Get(p[st.off..st.off + 2]);
      var own := Reached(env, st.mem, Ty.Slice(e), cell);
      var sl := if cell.NilSlice? then NilSlice else Val.Slice(cell.arr, 0);
      NothingShared(env, e, st1, sl, own);
      var g, l := FlatElemsInto(env, grow, e, p, st1, Zero(env, e), sl, n, Room(own, st1.next), NOTHING);
      LoopRefills(env, e, st1, sl, own, g, l.0, l.1);
    }
  }

  /**
   * Into a used variable of a flat type that shares nothing with itself, the in-place decoder with its reused cells,
   * pointees and arrays gives what decoding every part into a variable of its own gives: the same success, the same
   * offset, the same value.
   */
  lemma {:induction false} RefillInto(env: Env, grow: Grow, ty: Ty, p: seq<byte>, st: State, cell: Val)
    requires ValidEnv(env) && Supported(env, ty) && Flat(env, ty) && st.off <= |p| && Allocated(st)
    requires Private(env, st.mem, ty, cell)
    ensures var r := Into(env, grow, ty, p, st, cell);
            Refilled(st, Reached(env, st.mem, ty, cell), r.status, r.st, r.val, Decode(env, ty, p, st.off))
    decreases |p| - st.off, TyRank(env, ty), 1, 1
  {
    match ty
    case Struct(n) => RefillStruct(env, grow, n, p, st, cell);
    case Slice(e) => FlatArrayInto(env, grow, e, p, st, cell);
    case Ptr(e) =>
      if cell.NilPtr? {
        RefillNil(env, grow, e, p, st);
      } else {
        RefillPointee(env, grow, e, p, st, cell.ref);
      }
    case _ => LeafRefilled(env, grow, ty, p, st, cell);
  }

  lemma LeafRefilled(env: Env, grow: Grow, ty: Ty, p: seq<byte>, st: State, cell: Val)
    requires ValidEnv(env) && Supported(env, ty) && !ty.Struct? && !ty.Ptr? && !ty.Slice?
    requires st.off <= |p| && Allocated(st)
    ensures var r := Into(env, grow, ty, p, st, cell);
            Refilled(st, {}, r.status, r.st, r.val, Decode(env, ty, p, st.off))
  {
    LeafAgrees(env, grow, ty, p, st, cell);
    var r, d := Into(env, grow, ty, p, st, cell), Decode(env, ty, p, st.off);
    if d.Ok? {
      UnfoldsExtends(EMPTY_MEM, Within(r.st.mem, Room({}, st.next)), r.val, d.value);
    }
  }

  lemma {:induction false} RefillStruct(env: Env, grow: Grow, n: nat, p: seq<byte>, st: State, cell: Val)
    requires ValidEnv(env) && n in env.structs && Flat(env, Ty.Struct(n)) && st.off <= |p| && Allocated(st)
    requires Private(env, st.mem, Ty.Struct(n), cell)
    ensures var r := Into(env, grow, Ty.Struct(n), p, st, cell);
            Refilled(st, Reached(env, st.mem, Ty.Struct(n), cell), r.status, r.st, r.val,
                     Decode(env, Ty.Struct(n), p, st.off))
    decreases |p| - st.off, env.rank[n], 1, 0
  {
    RefillSlots(env, grow, env.structs[n], p, st, cell.slots, 0, env.rank[n]);
    assert env.structs[n][0..] == env.structs[n];
  }

  lemma {:induction false} RefillNil(env: Env, grow: Grow, e: Ty, p: seq<byte>, st: State)
    requires ValidEnv(env) && Supported(env, Ty.Ptr(e)) && Flat(env, e) && st.off <= |p| && Allocated(st)
    ensures var r := Into(env, grow, Ty.Ptr(e), p, st, NilPtr);
            Refilled(st, {}, r.status, r.st, r.val, Decode(env, Ty.Ptr(e), p, st.off))
    decreases |p| - st.off, TyRank(env, e), 2, 1
  {
    var st1 := Allocate(st, Zero(env, e));
    ZeroPrivate(env, st1.mem, e);
    assert Reached(env, st1.mem, Ty.Ptr(e), Val.Ptr(st.next)) == {st.next};
    RefillPointee(env, grow, e, p, st1, st.next);
    NewPointee(st, Zero(env, e), PointeeInto(env, grow, e, p, st1, st.next), Decode(env, Ty.Ptr(e), p, st.off));
  }

  /** A pointee that has just been handed out belongs to what was yet to be handed out before. */
  lemma NewPointee(st: State, v: Val, r: Res, d: Dec<Tree>)
    requires Allocated(st) && Refilled(Allocate(st, v), {st.next}, r.status, r.st, r.val, d)
    ensures Refilled(st, {}, r.status, r.st, r.val, d)
  {
    assert Room({st.next}, st.next + 1) == Room({}, st.next);
  }

  lemma {:induction false} RefillPointee(env: Env, grow: Grow, e: Ty, p: seq<byte>, st: State, ref: Ref)
    requires ValidEnv(env) && Supported(env, Ty.Ptr(e)) && Flat(env, e) && st.off <= |p| && Allocated(st)
    requires ref in st.mem.objs && Private(env, st.mem, Ty.Ptr(e), Val.Ptr(ref))
    ensures var r := PointeeInto(env, grow, e, p, st, ref);
            Refilled(st, Reached(env, st.mem, Ty.Ptr(e), Val.Ptr(ref)), r.status, r.st, r.val,
                     Decode(env, Ty.Ptr(e), p, st.off))
    decreases |p| - st.off, TyRank(env, e), 2, 0
  {
    var cell := st.mem.objs[ref];
    if e.Bytes? {
      ByteArrayIntoAgrees(env, p, st, cell);
    } else {
      RefillInto(env, grow, e, p, st, cell);
      PointeeStored(st, ref, Reached(env, st.mem, e, cell), Into(env, grow, e, p, st, cell), Decode(env, e, p, st.off));
    }
  }

  /** Storing a decoded value in its pointee disturbs neither other memory nor the value. */
  lemma PointeeStored(st: State, ref: Ref, own: set<Ref>, r: Res, d: Dec<Tree>)
    requires Allocated(st) && ref in st.mem.objs && ref !in own && Refilled(st, own, r.status, r.st, r.val, d)
    ensures var st' := r.st.(mem := r.st.mem.(objs := r.st.mem.objs[ref := r.val]));
            Refilled(st, {ref} + own, r.status, st', Val.Ptr(ref), if d.Ok? then Ok(Tree.Ptr(d.value), d.off) else d)
  {
    var m := r.st.mem.(objs := r.st.mem.objs[ref := r.val]);
    if d.Ok? {
      UnfoldsExtends(Within(r.st.mem, Room(own, st.next)), Within(m, Room({ref} + own, st.next)), r.val, d.value);
    }
  }

  // ---- Structs ----

  /** From position i on, the slots unfold to fs; skipped ones are passed over. */
  ghost predicate UnfoldFrom(m: Mem, fields: seq<Field>, slots: seq<Slot>, i: nat, fs: seq<Tree>) {
    && i <= |fields| == |slots|
    && |fs| == |fields| - i
    && forall j :: i <= j < |fields| ==>
         if Visited(fields[j].name) then Unfolds(m, slots[j].val, fs[j - i]) else fs[j - i].Hidden?
  }

  lemma UnfoldFromExtends(m: Mem, m': Mem, fields: seq<Field>, slots: seq<Slot>, i: nat, fs: seq<Tree>)
    requires Extends(m, m') && UnfoldFrom(m, fields, slots, i, fs)
    ensures UnfoldFrom(m', fields, slots, i, fs)
  {
    forall j | i <= j < |fields| && Visited(fields[j].name) ensures Unfolds(m', slots[j].val, fs[j - i]) {
      UnfoldsExtends(m, m', slots[j].val, fs[j - i]);
    }
  }

  /** What decoding the fields from i on leaves. */
  ghost predicate SlotsRefilled(
      st: State, own: set<Ref>, fields: seq<Field>, slots: seq<Slot>, i: nat, r: SlotsRes, d: Dec<seq<Tree>>)
  {
    && Agrees(r.status, r.st.off, d)
    && Allocated(r.st) && st.next <= r.st.next && Keeps(st.mem, r.st.mem, Room(own, st.next))
    && i <= |fields| == |slots| == |r.slots|
    && (forall j :: 0 <= j < |fields| ==> r.slots[j].name == slots[j].name)
    && (forall j :: 0 <= j < i ==> r.slots[j] == slots[j])
    && (d.Ok? ==> UnfoldFrom(Within(r.st.mem, Room(own, st.next)), fields, r.slots, i, d.value))
  }

  lemma SlotsRoundHidden(
      st: State, own: set<Ref>, fields: seq<Field>, slots: seq<Slot>, i: nat, r: SlotsRes, d: Dec<seq<Tree>>)
    requires i < |fields| && !Visited(fields[i].name) && SlotsRefilled(st, own, fields, slots, i + 1, r, d)
    ensures SlotsRefilled(st, {} + own, fields, slots, i, r, if d.Ok? then Ok([Hidden] + d.value, d.off) else d)
  {
    assert {} + own == own;
  }

  /** Fields that lead to different memory do not get in each other's way. */
  lemma SlotsRound(
      st: State, own: set<Ref>, rest: set<Ref>, fields: seq<Field>, slots: seq<Slot>, i: nat, x: Res, f: Dec<Tree>,
      r: SlotsRes, d: Dec<seq<Tree>>)
    requires i < |fields| == |slots| && Visited(fields[i].name) && Allocated(st)
    requires own !! rest && (forall r :: r in rest ==> r < st.next) && f.Ok?
    requires Refilled(st, own, x.status, x.st, x.val, f)
    requires SlotsRefilled(x.st, rest, fields, slots[i := slots[i].(val := x.val)], i + 1, r, d)
    ensures SlotsRefilled(st, own + rest, fields, slots, i, r, if d.Ok? then Ok([f.value] + d.value, d.off) else d)
  {
    assert r.slots[i].val == x.val;
    if d.Ok? {
      var m := Within(r.st.mem, Room(own + rest, st.next));
      UnfoldsExtends(Within(x.st.mem, Room(own, st.next)), m, x.val, f.value);
      UnfoldFromExtends(Within(r.st.mem, Room(rest, x.st.next)), m, fields, r.slots, i + 1, d.value);
    }
  }

  lemma {:induction false} RefillSlots(
      env: Env, grow: Grow, fields: seq<Field>, p: seq<byte>, st: State, slots: seq<Slot>, i: nat, rank: nat)
    requires ValidEnv(env) && st.off <= |p| && i <= |fields| == |slots| && Allocated(st)
    requires FieldsBelow(env, fields, rank)
    requires forall i :: 0 <= i < |fields| && Visited(fields[i].name) ==> Flat(env, fields[i].ty)
    requires SlotsPrivate(env, st.mem, fields, slots, i, rank)
    ensures SlotsRefilled(st, SlotsReached(env, st.mem, fields, slots, i, rank), fields, slots, i,
                          SlotsInto(env, grow, fields, p, st, slots, i, rank),
                          DecodeFields(env, fields[i..], p, st.off, rank))
    decreases |p| - st.off, rank, 0, |fields| - i
  {
    if i < |fields| {
      assert fields[i..][0] == fields[i] && fields[i..][1..] == fields[i + 1..];
      if !Visited(fields[i].name) {
        RefillSlots(env, grow, fields, p, st, slots, i + 1, rank);
        SlotsRoundHidden(st, SlotsReached(env, st.mem, fields, slots, i + 1, rank), fields, slots, i,
                         SlotsInto(env, grow, fields, p, st, slots, i + 1, rank),
                         DecodeFields(env, fields[i + 1..], p, st.off, rank));
      } else {
        RefillInto(env, grow, fields[i].ty, p, st, slots[i].val);
        var x, f := Into(env, grow, fields[i].ty, p, st, slots[i].val), Decode(env, fields[i].ty, p, st.off);
        if f.Ok? {
          var slots' := slots[i := slots[i].(val := x.val)];
          var own := Reached(env, st.mem, fields[i].ty, slots[i].val);
          var rest := SlotsReached(env, st.mem, fields, slots, i + 1, rank);
          SlotsStayPrivate(env, st, x.st, fields, slots, slots', i + 1, rank, own);
          RefillSlots(env, grow, fields, p, x.st, slots', i + 1, rank);
          SlotsRound(st, own, rest, fields, slots, i, x, f, SlotsInto(env, grow, fields, p, x.st, slots', i + 1, rank),
                     DecodeFields(env, fields[i + 1..], p, f.off, rank));
        }
      }
    }
  }

  /** Decoding one field leaves what the later ones lead to as it was. */
  lemma SlotsStayPrivate(
      env: Env, st: State, st': State, fields: seq<Field>, slots: seq<Slot>, slots': seq<Slot>, i: nat, rank: nat,
      own: set<Ref>)
    requires ValidEnv(env) && FieldsBelow(env, fields, rank) && i <= |fields| == |slots| == |slots'| && Allocated(st)
    requires SlotsPrivate(env, st.mem, fields, slots, i, rank) && forall j :: i <= j < |slots| ==> slots'[j] == slots[j]
    requires Keeps(st.mem, st'.mem, Room(own, st.next)) && own !! SlotsReached(env, st.mem, fields, slots, i, rank)
    ensures SlotsPrivate(env, st'.mem, fields, slots', i, rank)
    ensures SlotsReached(env, st'.mem, fields, slots', i, rank) == SlotsReached(env, st.mem, fields, slots, i, rank)
    ensures forall r :: r in SlotsReached(env, st.mem, fields, slots, i, rank) ==> r < st.next
  {
    SlotsPrivateSame(env, st, st.mem, fields, slots, i, rank);
    SlotsPrivateSame(env, st, st'.mem, fields, slots, i, rank);
    SlotsPrivateAfter(env, st'.mem, fields, slots, slots', i, rank);
  }

  // ---- Zero variables ----

  /** The part of a memory handed out since base. */
  ghost function Since(m: Mem, base: Ref): Mem {
    Mem(map r | r in m.objs && r >= base :: m.objs[r], map a | a in m.arrays && a >= base :: m.arrays[a])
  }

  /** What a decode into a zero variable leaves: old memory unchanged, and a value made of new memory only. */
  ghost predicate FreshResult(st: State, status: Status, st': State, val: Val, d: Dec<Tree>) {
    && Agrees(status, st'.off, d)
    && Allocated(st') && st.next <= st'.next && Extends(st.mem, st'.mem)
    && (d.Ok? ==> Unfolds(Since(st'.mem, st.next), val, d.value))
  }

  lemma RefilledIsFresh(st: State, status: Status, st': State, val: Val, d: Dec<Tree>)
    requires Allocated(st) && Refilled(st, {}, status, st', val, d)
    ensures FreshResult(st, status, st', val, d)
  {
    assert Within(st'.mem, Room({}, st.next)) == Since(st'.mem, st.next);
  }

  /** So into a zero variable of a flat type, without changing anything that existed. */
  lemma FlatInto(env: Env, grow: Grow, ty: Ty, p: seq<byte>, st: State)
    requires ValidEnv(env) && Supported(env, ty) && Flat(env, ty) && st.off <= |p| && Allocated(st)
    ensures var r := Into(env, grow, ty, p, st, Zero(env, ty));
            FreshResult(st, r.status, r.st, r.val, Decode(env, ty, p, st.off))
  {
    ZeroPrivate(env, st.mem, ty);
    RefillInto(env, grow, ty, p, st, Zero(env, ty));
    var r := Into(env, grow, ty, p, st, Zero(env, ty));
    RefilledIsFresh(st, r.status, r.st, r.val, Decode(env, ty, p, st.off));
  }
}
