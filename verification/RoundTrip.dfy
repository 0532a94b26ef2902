/** Marshal followed by Unmarshal is the identity on the values of a type exactly when the type is flat. */
module RoundTrip {
  import opened LittleEndian
  import opened GoMemory
  import opened WireFormat
  import opened Decoder
  import opened Flatness
  import opened InPlace
  import opened Footprint
  import opened Sharing
  import DecodeStates
  import TypeSafety

  /** Unmarshalling the encoding of t into a zero variable gives t back. */
  ghost predicate Recovers(env: Env, grow: Grow, ty: Ty, t: Tree)
    requires ValidEnv(env) && Supported(env, ty)
  {
    var r := Into(env, grow, ty, Wire(t), State(0, EMPTY_MEM, 0), Zero(env, ty));
    r.status == Done && r.st.off == |Wire(t)| && Unfolds(r.st.mem, r.val, t)
  }

  ghost predicate RoundTrips(env: Env, grow: Grow, ty: Ty)
    requires ValidEnv(env) && Supported(env, ty)
  {
    forall t :: HasType(env, t, ty) && Encodable(t) ==> Recovers(env, grow, ty, t)
  }

  // ---- The value that is lost ----

  ghost function UnflatField(env: Env, n: nat): (i: nat)
    requires ValidEnv(env) && n in env.structs && !Flat(env, Ty.Struct(n))
    ensures i < |env.structs[n]| && Visited(env.structs[n][i].name) && !Flat(env, env.structs[n][i].ty)
  {
    var i :| 0 <= i < |env.structs[n]| && Visited(env.structs[n][i].name) && !Flat(env, env.structs[n][i].ty);
    i
  }

  /** A value of a type that is not flat, holding twins in one slice. */
  ghost function Bad(env: Env, ty: Ty): (t: Tree)
    requires ValidEnv(env) && Supported(env, ty) && !Flat(env, ty)
    ensures HasType(env, t, ty) && Encodable(t)
    decreases TyRank(env, ty)
  {
    match ty
    case Slice(e) => Tree.Slice([Twin(env, e, false), Twin(env, e, true)])
    case Ptr(e) =>
      var t := Bad(env, e);
      Tree.Ptr(t)
    case Struct(n) =>
      var i := UnflatField(env, n);
      With(env, n, i, Bad(env, env.structs[n][i].ty))
  }

  lemma {:induction false} ZeroHead(env: Env, e: Ty)
    requires ValidEnv(env) && Supported(env, e) && !FlatElement(env, e)
    ensures HeadOf(env, e, Zero(env, e)) in {NilPtr, NilSlice}
    decreases TyRank(env, e)
  {
    match e
    case Struct(n) => ZeroHead(env, env.structs[n][SharingField(env, n)].ty);
    case _ =>
  }

  /** The first round of the array loop: the slice gets an array of its own, which nothing else mentions. */
  lemma FirstRound(env: Env, grow: Grow, e: Ty, p: seq<byte>, st: State)
    requires ValidEnv(env) && Supported(env, e) && !FlatElement(env, e)
    requires Closed(st) && st.off <= |p| && Into(env, grow, e, p, st, Zero(env, e)).status == Done
    requires var d := Decode(env, e, p, st.off); d.Ok? && d.value == Twin(env, e, false)
    ensures var r := Into(env, grow, e, p, st, Zero(env, e));
            var (sl, st') := Append(grow, e, Zero(env, e), NilSlice, r.val, r.st);
            && sl == Val.Slice(r.st.next, 1) && st.next <= r.st.next < st'.next && Allocated(st')
            && Live(st'.mem, HeadOf(env, e, r.val))
            && Sealed(st'.mem, iset{r.st.next}) && Apart(r.val, iset{r.st.next})
  {
    var r := Into(env, grow, e, p, st, Zero(env, e));
    IntoGrows(env, grow, e, p, st, Zero(env, e));
    ZeroHead(env, e);
    TwinInto(env, grow, e, false, p, st, Zero(env, e));
    ZeroTargetStaysClosed(env, grow, e, p, st);
    FirstAppend(grow, e, Zero(env, e), r.val, r.st, HeadOf(env, e, r.val));
  }

  lemma FirstAppend(grow: Grow, e: Ty, zero: Val, x: Val, st: State, h: Val)
    requires Closed(st) && Apart(x, AllOutside(0, st.next)) && Live(st.mem, h)
    ensures var (sl, st') := Append(grow, e, zero, NilSlice, x, st);
            && sl == Val.Slice(st.next, 1) && st.next < st'.next && Allocated(st')
            && Live(st'.mem, h)
            && Sealed(st'.mem, iset{st.next}) && Apart(x, iset{st.next})
  {
    NextUnmentioned(st, x);
  }

  lemma NextUnmentioned(st: State, v: Val)
    requires Closed(st) && Apart(v, AllOutside(0, st.next))
    ensures Sealed(st.mem, iset{st.next}) && Apart(v, iset{st.next})
  {
    var s, s' := AllOutside(0, st.next), iset{st.next};
    assert Outside(st.next, 0, st.next);
    ApartLess(v, s, s');
    forall r | r in st.mem.objs ensures Apart(st.mem.objs[r], s') {
      ApartLess(st.mem.objs[r], s, s');
    }
    forall a, i | a in st.mem.arrays && 0 <= i < |st.mem.arrays[a]| ensures Apart(st.mem.arrays[a][i], s') {
      ApartLess(st.mem.arrays[a][i], s, s');
    }
  }

  /** The second round: the first element is still the shallow copy, and the second has the same head. */
  lemma SecondRound(env: Env, grow: Grow, e: Ty, p: seq<byte>, st: State, a: Ref, x: Val)
    requires ValidEnv(env) && Supported(env, e) && !FlatElement(env, e)
    requires Allocated(st) && st.off <= |p| && Into(env, grow, e, p, st, x).status == Done
    requires a < st.next && a in st.mem.arrays && |st.mem.arrays[a]| > 0 && st.mem.arrays[a][0] == x
    requires Live(st.mem, HeadOf(env, e, x)) && Sealed(st.mem, iset{a}) && Apart(x, iset{a})
    requires var d := Decode(env, e, p, st.off); d.Ok? && d.value == Twin(env, e, true)
    ensures var r := Into(env, grow, e, p, st, x);
            && Usable(r.st.mem, Val.Slice(a, 1)) && Contents(r.st.mem, Val.Slice(a, 1)) == [x]
            && HeadOf(env, e, r.val) == HeadOf(env, e, x)
            && st.next <= r.st.next
  {
    IntoGrows(env, grow, e, p, st, x);
    IntoClear(env, grow, e, p, st, x, iset{a});
    TwinInto(env, grow, e, true, p, st, x);
    assert a in iset{a};
  }

  /** The two elements of the slice that the loop leaves have one head between them. */
  lemma TwinRounds(env: Env, grow: Grow, e: Ty, p: seq<byte>, st: State) returns (x: Val, y: Val)
    requires ValidEnv(env) && Supported(env, e) && !FlatElement(env, e)
    requires Closed(st) && st.off <= |p| && ElemsInto(env, grow, e, p, st, Zero(env, e), NilSlice, 2).status == Done
    requires var d := DecodeElems(env, e, p, st.off, 2);
             d.Ok? && d.value == [Twin(env, e, false), Twin(env, e, true)]
    ensures var r := ElemsInto(env, grow, e, p, st, Zero(env, e), NilSlice, 2);
            && r.val.Slice? && r.val.arr >= st.next
            && Usable(r.st.mem, r.val) && Contents(r.st.mem, r.val) == [x, y]
            && HeadOf(env, e, x) == HeadOf(env, e, y)
  {
    var zero := Zero(env, e);
    DecodePair(env, e, p, st.off);
    var r := Into(env, grow, e, p, st, zero);
    IntoParses(env, grow, e, p, st, zero);
    assert r.status == Done;
    FirstRound(env, grow, e, p, st);
    var (sl, st1) := Append(grow, e, zero, NilSlice, r.val, r.st);
    var r1 := Into(env, grow, e, p, st1, r.val);
    IntoParses(env, grow, e, p, st1, r.val);
    assert r1.status == Done;
    TwinAppended(env, grow, e, p, st1, r.st.next, r.val);
    TwoRounds(env, grow, e, p, st, zero, NilSlice, r, sl, st1, r1);
    x, y := r.val, r1.val;
  }

  /** The second round, with its append: the slice consists of the shallow copy and the new element, of one head. */
  lemma TwinAppended(env: Env, grow: Grow, e: Ty, p: seq<byte>, st: State, a: Ref, x: Val)
    requires ValidEnv(env) && Supported(env, e) && !FlatElement(env, e)
    requires Allocated(st) && st.off <= |p| && Into(env, grow, e, p, st, x).status == Done
    requires a < st.next && a in st.mem.arrays && |st.mem.arrays[a]| > 0 && st.mem.arrays[a][0] == x
    requires Live(st.mem, HeadOf(env, e, x)) && Sealed(st.mem, iset{a}) && Apart(x, iset{a})
    requires var d := Decode(env, e, p, st.off); d.Ok? && d.value == Twin(env, e, true)
    ensures var r := Into(env, grow, e, p, st, x);
            && Usable(r.st.mem, Val.Slice(a, 1)) && HeadOf(env, e, r.val) == HeadOf(env, e, x)
            && var (sl, st') := Append(grow, e, Zero(env, e), Val.Slice(a, 1), r.val, r.st);
            sl.Slice? && sl.arr >= a && Contents(st'.mem, sl) == [x, r.val]
  {
    SecondRound(env, grow, e, p, st, a, x);
  }

  lemma TwoRounds(
      env: Env, grow: Grow, e: Ty, p: seq<byte>, st: State, cell: Val, sl0: Val, r: Res, sl: Val, st1: State, r1: Res)
    requires ValidEnv(env) && Supported(env, e) && st.off <= |p|
    requires r == Into(env, grow, e, p, st, cell) && r.status == Done && Usable(r.st.mem, sl0)
    requires (sl, st1) == Append(grow, e, Zero(env, e), sl0, r.val, r.st)
    requires r1 == Into(env, grow, e, p, st1, r.val) && r1.status == Done && Usable(r1.st.mem, sl)
    ensures var (sl2, st2) := Append(grow, e, Zero(env, e), sl, r1.val, r1.st);
            ElemsInto(env, grow, e, p, st, cell, sl0, 2) == Res(Done, sl2, st2)
  {
    var (sl2, st2) := Append(grow, e, Zero(env, e), sl, r1.val, r1.st);
    assert ElemsInto(env, grow, e, p, st2, r1.val, sl2, 0) == Res(Done, sl2, st2);
    assert ElemsInto(env, grow, e, p, st1, r.val, sl, 1) == Res(Done, sl2, st2);
  }

  lemma DecodePair(env: Env, e: Ty, p: seq<byte>, off: nat)
    requires ValidEnv(env) && Supported(env, e) && off <= |p| && DecodeElems(env, e, p, off, 2).Ok?
    ensures var ts, d := DecodeElems(env, e, p, off, 2).value, Decode(env, e, p, off);
            && d.Ok? && d.value == ts[0]
            && var d1 := Decode(env, e, p, d.off); d1.Ok? && d1.value == ts[1]
  {
    var d := Decode(env, e, p, off);
    var d1 := Decode(env, e, p, d.off);
    assert DecodeElems(env, e, p, d.off, 1).value == [d1.value] + DecodeElems(env, e, p, d1.off, 0).value;
  }

  /** v unfolds to t in no memory that agrees with m from base on. */
  ghost predicate Lost(m: Mem, base: Ref, v: Val, t: Tree) {
    forall m' :: Extends(Since(m, base), m') ==> !Unfolds(m', v, t)
  }

  lemma TwinsLost(env: Env, grow: Grow, e: Ty, p: seq<byte>, st: State)
    requires ValidEnv(env) && Supported(env, Ty.Slice(e)) && !FlatElement(env, e)
    requires Closed(st) && st.off <= |p| && ArrayInto(env, grow, e, p, st, NilSlice).status == Done
    requires var d := DecodeArray(env, e, p, st.off);
             d.Ok? && d.value == [Twin(env, e, false), Twin(env, e, true)]
    ensures var r := ArrayInto(env, grow, e, p, st, NilSlice);
            Lost(r.st.mem, st.next, r.val, Tree.Slice([Twin(env, e, false), Twin(env, e, true)]))
  {
    var x, y := TwinRounds(env, grow, e, p, st.(off := st.off + 2));
    var r := ArrayInto(env, grow, e, p, st, NilSlice);
    PairLost(env, e, r.st.mem, st.next, r.val, x, y);
  }

  /** A slice of two elements with one head between them holds no twins. */
  lemma PairLost(env: Env, e: Ty, m: Mem, base: Ref, sl: Val, x: Val, y: Val)
    requires ValidEnv(env) && Supported(env, e) && !FlatElement(env, e)
    requires sl.Slice? && sl.arr >= base && Usable(m, sl) && Contents(m, sl) == [x, y]
    requires HeadOf(env, e, x) == HeadOf(env, e, y)
    ensures Lost(m, base, sl, Tree.Slice([Twin(env, e, false), Twin(env, e, true)]))
  {
    var t := Tree.Slice([Twin(env, e, false), Twin(env, e, true)]);
    assert m.arrays[sl.arr][0] == Contents(m, sl)[0] == x;
    assert m.arrays[sl.arr][1] == Contents(m, sl)[1] == y;
    forall m' | Extends(Since(m, base), m') ensures !Unfolds(m', sl, t) {
      assert m'.arrays[sl.arr] == Since(m, base).arrays[sl.arr];
      if Unfolds(m', sl, t) {
        PairUnfolds(m', sl, x, y, Twin(env, e, false), Twin(env, e, true));
        SameHeadConfuses(env, e, m', x, y);
      }
    }
  }

  lemma PairUnfolds(m: Mem, sl: Val, x: Val, y: Val, t: Tree, u: Tree)
    requires Unfolds(m, sl, Tree.Slice([t, u])) && sl.Slice? && sl.arr in m.arrays
    requires |m.arrays[sl.arr]| >= 2 && m.arrays[sl.arr][0] == x && m.arrays[sl.arr][1] == y
    ensures Unfolds(m, x, t) && Unfolds(m, y, u)
  {
    assert [t, u][0] == t && [t, u][1] == u;
  }

  // ---- It stays lost in every type around it ----

  lemma {:induction false} BadLost(env: Env, grow: Grow, ty: Ty, p: seq<byte>, st: State)
    requires ValidEnv(env) && Supported(env, ty) && !Flat(env, ty)
    requires Closed(st) && st.off <= |p| && Into(env, grow, ty, p, st, Zero(env, ty)).status == Done
    requires var d := Decode(env, ty, p, st.off); d.Ok? && d.value == Bad(env, ty)
    ensures var r := Into(env, grow, ty, p, st, Zero(env, ty)); Lost(r.st.mem, st.next, r.val, Bad(env, ty))
    decreases TyRank(env, ty), 1, 0
  {
    match ty
    case Slice(e) => TwinsLost(env, grow, e, p, st);
    case Ptr(e) => BadPointeeLost(env, grow, e, p, st);
    case Struct(n) =>
      var fields, i := env.structs[n], UnflatField(env, n);
      var slots := ZeroSlots(env, fields, env.rank[n]);
      assert fields[0..] == fields && Bad(env, ty).fs[i] == Bad(env, fields[i].ty);
      BadSlotsLost(env, grow, fields, p, st, slots, 0, env.rank[n], i);
      FieldLost(Into(env, grow, ty, p, st, Zero(env, ty)), st.next, i, Bad(env, ty));
  }

  lemma {:induction false} BadPointeeLost(env: Env, grow: Grow, e: Ty, p: seq<byte>, st: State)
    requires ValidEnv(env) && Supported(env, Ty.Ptr(e)) && !Flat(env, e)
    requires Closed(st) && st.off <= |p| && Into(env, grow, Ty.Ptr(e), p, st, NilPtr).status == Done
    requires var d := Decode(env, Ty.Ptr(e), p, st.off); d.Ok? && d.value == Tree.Ptr(Bad(env, e))
    ensures var r := Into(env, grow, Ty.Ptr(e), p, st, NilPtr);
            Lost(r.st.mem, st.next, r.val, Tree.Ptr(Bad(env, e)))
    decreases TyRank(env, e), 2, 0
  {
    var st1 := Allocate(st, Zero(env, e));
    var x := Into(env, grow, e, p, st1, Zero(env, e));
    ClosedAllocate(env, st, e);
    assert Into(env, grow, Ty.Ptr(e), p, st, NilPtr) ==
           Res(x.status, Val.Ptr(st.next), x.st.(mem := x.st.mem.(objs := x.st.mem.objs[st.next := x.val])));
    BadLost(env, grow, e, p, st1);
    PointeeLost(st.next, x, Bad(env, e));
  }

  lemma ClosedAllocate(env: Env, st: State, e: Ty)
    requires ValidEnv(env) && Supported(env, e) && Closed(st)
    ensures Closed(Allocate(st, Zero(env, e)))
  {
    ZeroApart(env, e, AllOutside(0, st.next + 1));
    ClosedSealed(st, st.next + 1);
  }

  lemma PointeeLost(ref: Ref, r: Res, t: Tree)
    requires Lost(r.st.mem, ref + 1, r.val, t)
    ensures Lost(r.st.mem.(objs := r.st.mem.objs[ref := r.val]), ref, Val.Ptr(ref), Tree.Ptr(t))
  {
    var m := r.st.mem.(objs := r.st.mem.objs[ref := r.val]);
    forall m' | Extends(Since(m, ref), m') ensures !Unfolds(m', Val.Ptr(ref), Tree.Ptr(t)) {
      assert ref in Since(m, ref).objs;
      assert Extends(Since(r.st.mem, ref + 1), m');
    }
  }

  lemma FieldLost(r: Res, base: Ref, i: nat, t: Tree)
    requires t.Struct? && i < |t.fs| && !t.fs[i].Hidden? && !t.fs[i].Opaque?
    requires r.val.Struct? && |r.val.slots| == |t.fs| && Lost(r.st.mem, base, r.val.slots[i].val, t.fs[i])
    ensures Lost(r.st.mem, base, r.val, t)
  {
  }

  /** From field j on all slots are zero, all fields decode, and field i, still to come, is given its lost value. */
  ghost predicate BadAhead(
      env: Env, grow: Grow, fields: seq<Field>, p: seq<byte>, st: State, slots: seq<Slot>, j: nat, rank: nat, i: nat)
    requires ValidEnv(env) && FieldsBelow(env, fields, rank) && i < |fields|
    requires Visited(fields[i].name) && !Flat(env, fields[i].ty)
  {
    && Closed(st) && st.off <= |p| && j <= i && ZeroFrom(env, fields, rank, slots, j)
    && SlotsInto(env, grow, fields, p, st, slots, j, rank).status == Done
    && var d := DecodeFields(env, fields[j..], p, st.off, rank);
    d.Ok? && |d.value| == |fields| - j && d.value[i - j] == Bad(env, fields[i].ty)
  }

  /** Having passed field j, field i is still ahead. */
  lemma BadStillAhead(
      env: Env, grow: Grow, fields: seq<Field>, p: seq<byte>, st: State, slots: seq<Slot>, j: nat, rank: nat, i: nat)
    requires ValidEnv(env) && FieldsBelow(env, fields, rank) && j < i < |fields|
    requires Visited(fields[i].name) && !Flat(env, fields[i].ty)
    requires BadAhead(env, grow, fields, p, st, slots, j, rank, i)
    ensures !Visited(fields[j].name) ==> BadAhead(env, grow, fields, p, st, slots, j + 1, rank, i)
    ensures Visited(fields[j].name) ==>
              var r := Into(env, grow, fields[j].ty, p, st, slots[j].val);
              && r.status == Done && st.next <= r.st.next
              && BadAhead(env, grow, fields, p, r.st, slots[j := slots[j].(val := r.val)], j + 1, rank, i)
  {
    FieldsSplit(env, fields, p, st.off, rank, j, i);
    if Visited(fields[j].name) {
      assert slots[j].val == Zero(env, fields[j].ty);
      ZeroFieldInto(env, grow, fields[j].ty, p, st);
    }
  }

  lemma {:induction false} BadSlotsLost(
      env: Env, grow: Grow, fields: seq<Field>, p: seq<byte>, st: State, slots: seq<Slot>, j: nat, rank: nat, i: nat)
    requires ValidEnv(env) && FieldsBelow(env, fields, rank) && i < |fields|
    requires Visited(fields[i].name) && !Flat(env, fields[i].ty)
    requires BadAhead(env, grow, fields, p, st, slots, j, rank, i)
    ensures var r := SlotsInto(env, grow, fields, p, st, slots, j, rank);
            Lost(r.st.mem, st.next, r.slots[i].val, Bad(env, fields[i].ty))
    decreases rank, 0, |fields| - j
  {
    if j == i {
      FieldsSplit(env, fields, p, st.off, rank, j, i);
      ZeroFieldInto(env, grow, fields[i].ty, p, st);
      BadLost(env, grow, fields[i].ty, p, st);
      var r := Into(env, grow, fields[i].ty, p, st, slots[i].val);
      BadSlotKept(env, grow, fields, p, st, r, slots[i := slots[i].(val := r.val)], i, rank);
    } else {
      BadStillAhead(env, grow, fields, p, st, slots, j, rank, i);
      if !Visited(fields[j].name) {
        BadSlotsLost(env, grow, fields, p, st, slots, j + 1, rank, i);
      } else {
        var r := Into(env, grow, fields[j].ty, p, st, slots[j].val);
        var slots' := slots[j := slots[j].(val := r.val)];
        BadSlotsLost(env, grow, fields, p, r.st, slots', j + 1, rank, i);
        var r' := SlotsInto(env, grow, fields, p, r.st, slots', j + 1, rank);
        LostBefore(r'.st.mem, r.st.next, st.next, r'.slots[i].val, Bad(env, fields[i].ty));
      }
    }
  }

  ghost predicate ZeroFrom(env: Env, fields: seq<Field>, rank: nat, slots: seq<Slot>, j: nat)
    requires ValidEnv(env) && FieldsBelow(env, fields, rank)
  {
    |slots| == |fields| && forall k :: j <= k < |fields| ==> slots[k] == ZeroSlots(env, fields, rank)[k]
  }

  /** What decoding into a zero field comes to: the right offset, and memory that is in order. */
  lemma ZeroFieldInto(env: Env, grow: Grow, ty: Ty, p: seq<byte>, st: State)
    requires ValidEnv(env) && Supported(env, ty) && st.off <= |p| && Closed(st)
    ensures var r := Into(env, grow, ty, p, st, Zero(env, ty));
            Parses(r.status, r.st.off, Decode(env, ty, p, st.off)) && Grows(st, r.st) && Closed(r.st)
  {
    IntoParses(env, grow, ty, p, st, Zero(env, ty));
    IntoGrows(env, grow, ty, p, st, Zero(env, ty));
    ZeroTargetStaysClosed(env, grow, ty, p, st);
  }

  /** The fields after a lost one are decoded without bringing it back. */
  lemma BadSlotKept(
      env: Env, grow: Grow, fields: seq<Field>, p: seq<byte>, st: State, r: Res, slots: seq<Slot>, i: nat, rank: nat)
    requires ValidEnv(env) && FieldsBelow(env, fields, rank) && i < |fields| == |slots|
    requires Visited(fields[i].name) && !Flat(env, fields[i].ty)
    requires Allocated(r.st) && r.st.off <= |p| && ZeroFrom(env, fields, rank, slots, i + 1)
    requires slots[i].val == r.val && Lost(r.st.mem, st.next, r.val, Bad(env, fields[i].ty))
    ensures var r' := SlotsInto(env, grow, fields, p, r.st, slots, i + 1, rank);
            Lost(r'.st.mem, st.next, r'.slots[i].val, Bad(env, fields[i].ty))
  {
    var r' := SlotsInto(env, grow, fields, p, r.st, slots, i + 1, rank);
    ZeroSlotsExtend(env, grow, fields, p, r.st, slots, i + 1, rank);
    SlotsIntoKeeps(env, grow, fields, p, r.st, slots, i + 1, rank, i);
    LostLater(r.st.mem, r'.st.mem, st.next, r.val, Bad(env, fields[i].ty));
  }

  lemma LostLater(m: Mem, m': Mem, base: Ref, v: Val, t: Tree)
    requires Lost(m, base, v, t) && Extends(m, m')
    ensures Lost(m', base, v, t)
  {
    forall m'' | Extends(Since(m', base), m'') ensures !Unfolds(m'', v, t) {
      assert Extends(Since(m, base), m'');
    }
  }

  lemma LostBefore(m: Mem, base: Ref, base': Ref, v: Val, t: Tree)
    requires Lost(m, base, v, t) && base' <= base
    ensures Lost(m, base', v, t)
  {
    forall m' | Extends(Since(m, base'), m') ensures !Unfolds(m', v, t) {
      assert Extends(Since(m, base), m');
    }
  }

  /** Zero fields are decoded without touching existing memory. */
  lemma ZeroSlotsExtend(
      env: Env, grow: Grow, fields: seq<Field>, p: seq<byte>, st: State, slots: seq<Slot>, j: nat, rank: nat)
    requires ValidEnv(env) && FieldsBelow(env, fields, rank) && Allocated(st)
    requires st.off <= |p| && j <= |fields| && ZeroFrom(env, fields, rank, slots, j)
    ensures Extends(st.mem, SlotsInto(env, grow, fields, p, st, slots, j, rank).st.mem)
  {
    var r := SlotsInto(env, grow, fields, p, st, slots, j, rank);
    var s := AllOutside(st.next, r.st.next);
    ZeroSlotsApart(env, fields, rank, s);
    SlotsIntoGrows(env, grow, fields, p, st, slots, j, rank);
    assert SlotsApart(slots, j, s);
    OldOutside(st, r.st.next);
    SlotsIntoClear(env, grow, fields, p, st, slots, j, rank, s);
  }

  /**
   * On a flat type, Marshal followed by Unmarshal is the identity on every encodable value. On any other type, which
   * has a slice whose elements hold a pointer or a slice to something that carries information, it is not. How slices
   * grow makes no difference.
   */
  lemma RoundTripsExactlyWhenFlat(env: Env, grow: Grow, ty: Ty)
    requires ValidEnv(env) && Supported(env, ty)
    ensures RoundTrips(env, grow, ty) <==> Flat(env, ty)
  {
    if Flat(env, ty) {
      forall t | HasType(env, t, ty) && Encodable(t) ensures Recovers(env, grow, ty, t) {
        DecodeStates.UnmarshalFlat(env, grow, ty, Wire(t), EMPTY_MEM, 0);
        assert Wire(t) <= Wire(t);
      }
    }
    if !Flat(env, ty) {
      BadNotRecovered(env, grow, ty);
    }
  }

  lemma BadNotRecovered(env: Env, grow: Grow, ty: Ty)
    requires ValidEnv(env) && Supported(env, ty) && !Flat(env, ty)
    ensures !Recovers(env, grow, ty, Bad(env, ty))
  {
    var st, t := State(0, EMPTY_MEM, 0), Bad(env, ty);
    DecodeWire(env, ty, t, Wire(t), 0);
    if Recovers(env, grow, ty, t) {
      BadLost(env, grow, ty, Wire(t), st);
      var r := Into(env, grow, ty, Wire(t), st, Zero(env, ty));
      assert Extends(Since(r.st.mem, 0), r.st.mem);
    }
  }

  /** The loss is silent: Unmarshal reports success, having read all there is, and the value is another one. */
  lemma LossIsSilent(env: Env, grow: Grow, ty: Ty)
    requires ValidEnv(env) && Supported(env, ty) && !Flat(env, ty)
    ensures var t := Bad(env, ty);
            var r := Into(env, grow, ty, Wire(t), State(0, EMPTY_MEM, 0), Zero(env, ty));
            && HasType(env, t, ty) && Encodable(t)
            && r.status == Done && r.st.off == |Wire(t)| && !Unfolds(r.st.mem, r.val, t)
  {
    var st, t, nothing := State(0, EMPTY_MEM, 0), Bad(env, ty), TypeSafety.Typing(map[], map[], map[]);
    DecodeWire(env, ty, t, Wire(t), 0);
    TypeSafety.ZeroTyped(env, nothing, ty);
    TypeSafety.DecodeIsTypeSafe(env, grow, ty, Wire(t), st, Zero(env, ty), nothing);
    BadNotRecovered(env, grow, ty);
  }
}
