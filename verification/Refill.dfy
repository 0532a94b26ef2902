/** Unmarshalling into one variable again and again: whatever was read before, or failed to be, leaves no trace. */
module Refill {
  import opened LittleEndian
  import opened GoMemory
  import opened WireFormat
  import opened Decoder
  import opened Flatness
  import opened Reuse
  import opened InPlace

  // ---- A decode leaves the variable private ----

  /** Every reference of s is among own, or newly handed out. */
  ghost predicate Inside(s: set<Ref>, own: set<Ref>, next: Ref) {
    forall r :: r in s ==> r in own || r >= next
  }

  /** After a decode from state st on, val shares nothing with itself, and leads to its own and to new memory only. */
  ghost predicate Kept(env: Env, st: State, own: set<Ref>, ty: Ty, val: Val, st': State)
    requires ValidEnv(env) && Supported(env, ty)
  {
    Private(env, st'.mem, ty, val) && Inside(Reached(env, st'.mem, ty, val), own, st.next)
  }

  /** Success or failure, a variable of a flat type that shared nothing with itself shares nothing afterwards. */
  lemma {:induction false} StaysPrivate(env: Env, grow: Grow, ty: Ty, p: seq<byte>, st: State, cell: Val)
    requires ValidEnv(env) && Supported(env, ty) && Flat(env, ty) && st.off <= |p| && Allocated(st)
    requires Private(env, st.mem, ty, cell)
    ensures var r := Into(env, grow, ty, p, st, cell); Kept(env, st, Reached(env, st.mem, ty, cell), ty, r.val, r.st)
    decreases |p| - st.off, TyRank(env, ty), 1, 1
  {
    match ty
    case Struct(n) => StructStaysPrivate(env, grow, n, p, st, cell);
    case Slice(e) => FlatArrayInto(env, grow, e, p, st, cell);
    case Ptr(e) =>
      if cell.NilPtr? {
        var st1 := Allocate(st, Zero(env, e));
        ZeroPrivate(env, st1.mem, e);
        assert Reached(env, st1.mem, ty, Val.Ptr(st.next)) == {st.next};
        PointeeStaysPrivate(env, grow, e, p, st1, st.next);
      } else {
        PointeeStaysPrivate(env, grow, e, p, st, cell.ref);
      }
    case _ =>
  }

  lemma {:induction false} PointeeStaysPrivate(env: Env, grow: Grow, e: Ty, p: seq<byte>, st: State, ref: Ref)
    requires ValidEnv(env) && Supported(env, Ty.Ptr(e)) && Flat(env, e) && st.off <= |p| && Allocated(st)
    requires ref in st.mem.objs && Private(env, st.mem, Ty.Ptr(e), Val.Ptr(ref))
    ensures var r := PointeeInto(env, grow, e, p, st, ref);
            Kept(env, st, Reached(env, st.mem, Ty.Ptr(e), Val.Ptr(ref)), Ty.Ptr(e), r.val, r.st)
    decreases |p| - st.off, TyRank(env, e), 2, 0
  {
    var cell := st.mem.objs[ref];
    if !e.Bytes? {
      var x := Into(env, grow, e, p, st, cell);
      StaysPrivate(env, grow, e, p, st, cell);
      RefillInto(env, grow, e, p, st, cell);
      StoredStaysPrivate(env, st, Reached(env, st.mem, e, cell), e, ref, x);
    }
  }

  /** Storing a private value in its pointee keeps it private, as it does not lead there. */
  lemma StoredStaysPrivate(env: Env, st: State, own: set<Ref>, e: Ty, ref: Ref, x: Res)
    requires ValidEnv(env) && Supported(env, Ty.Ptr(e)) && !e.Bytes? && Allocated(x.st)
    requires ref < st.next && ref !in own && Kept(env, st, own, e, x.val, x.st)
    ensures var st' := x.st.(mem := x.st.mem.(objs := x.st.mem.objs[ref := x.val]));
            Kept(env, st, {ref} + own, Ty.Ptr(e), Val.Ptr(ref), st')
  {
    PrivateSame(env, x.st, x.st.mem.(objs := x.st.mem.objs[ref := x.val]), e, x.val);
  }

  // ---- Structs ----

  ghost predicate SlotsKept(
      env: Env, st: State, own: set<Ref>, fields: seq<Field>, slots: seq<Slot>, i: nat, rank: nat, st': State)
    requires ValidEnv(env) && FieldsBelow(env, fields, rank) && i <= |fields| == |slots|
  {
    && SlotsPrivate(env, st'.mem, fields, slots, i, rank)
    && Inside(SlotsReached(env, st'.mem, fields, slots, i, rank), own, st.next)
  }

  lemma {:induction false} StructStaysPrivate(env: Env, grow: Grow, n: nat, p: seq<byte>, st: State, cell: Val)
    requires ValidEnv(env) && n in env.structs && Flat(env, Ty.Struct(n)) && st.off <= |p| && Allocated(st)
    requires Private(env, st.mem, Ty.Struct(n), cell)
    ensures var r := Into(env, grow, Ty.Struct(n), p, st, cell);
            Kept(env, st, Reached(env, st.mem, Ty.Struct(n), cell), Ty.Struct(n), r.val, r.st)
    decreases |p| - st.off, env.rank[n], 1, 0
  {
    RefillSlots(env, grow, env.structs[n], p, st, cell.slots, 0, env.rank[n]);
    SlotsStayPrivateAll(env, grow, env.structs[n], p, st, cell.slots, 0, env.rank[n]);
  }

  lemma {:induction false} SlotsStayPrivateAll(
      env: Env, grow: Grow, fields: seq<Field>, p: seq<byte>, st: State, slots: seq<Slot>, i: nat, rank: nat)
    requires ValidEnv(env) && st.off <= |p| && i <= |fields| == |slots| && Allocated(st)
    requires FieldsBelow(env, fields, rank)
    requires forall i :: 0 <= i < |fields| && Visited(fields[i].name) ==> Flat(env, fields[i].ty)
    requires SlotsPrivate(env, st.mem, fields, slots, i, rank)
    ensures var r := SlotsInto(env, grow, fields, p, st, slots, i, rank);
            SlotsKept(env, st, SlotsReached(env, st.mem, fields, slots, i, rank), fields, r.slots, i, rank, r.st)
    decreases |p| - st.off, rank, 0, |fields| - i
  {
    if i < |fields| {
      if !Visited(fields[i].name) {
        SlotsStayPrivateAll(env, grow, fields, p, st, slots, i + 1, rank);
      } else {
        var x := Into(env, grow, fields[i].ty, p, st, slots[i].val);
        var slots' := slots[i := slots[i].(val := x.val)];
        var own := Reached(env, st.mem, fields[i].ty, slots[i].val);
        var rest := SlotsReached(env, st.mem, fields, slots, i + 1, rank);
        StaysPrivate(env, grow, fields[i].ty, p, st, slots[i].val);
        RefillInto(env, grow, fields[i].ty, p, st, slots[i].val);
        SlotsStayPrivate(env, st, x.st, fields, slots, slots', i + 1, rank, own);
        if x.status == Done {
          var r := SlotsInto(env, grow, fields, p, x.st, slots', i + 1, rank);
          RefillSlots(env, grow, fields, p, x.st, slots', i + 1, rank);
          SlotsStayPrivateAll(env, grow, fields, p, x.st, slots', i + 1, rank);
          SlotsKeptRound(env, st, own, rest, fields, x, r.slots, i, rank, r.st);
        } else {
          SlotsKeptRound(env, st, own, rest, fields, x, slots', i, rank, x.st);
        }
      }
    }
  }

  /** One field is kept, and then those after it. */
  lemma SlotsKeptRound(
      env: Env, st: State, own: set<Ref>, rest: set<Ref>, fields: seq<Field>, x: Res, slots: seq<Slot>, i: nat,
      rank: nat, st': State)
    requires ValidEnv(env) && FieldsBelow(env, fields, rank) && i < |fields| == |slots| && Visited(fields[i].name)
    requires Allocated(x.st) && st.next <= x.st.next && own !! rest && forall r :: r in rest ==> r < st.next
    requires Kept(env, st, own, fields[i].ty, x.val, x.st) && slots[i].val == x.val
    requires Keeps(x.st.mem, st'.mem, Room(rest, x.st.next))
    requires SlotsKept(env, x.st, rest, fields, slots, i + 1, rank, st')
    ensures SlotsKept(env, st, own + rest, fields, slots, i, rank, st')
  {
    PrivateSame(env, x.st, x.st.mem, fields[i].ty, x.val);
    PrivateSame(env, x.st, st'.mem, fields[i].ty, x.val);
  }

  // ---- Any number of decodes into one variable ----

  /** The variable after all inputs have been unmarshalled into it, one after the other, successfully or not. */
  ghost function AfterAll(env: Env, grow: Grow, ty: Ty, inputs: seq<seq<byte>>, st: State, cell: Val): Res
    requires ValidEnv(env) && Supported(env, ty)
    decreases |inputs|
  {
    if inputs == [] then Res(Done, cell, st)
    else
      var r := Into(env, grow, ty, inputs[0], st.(off := 0), cell);
      AfterAll(env, grow, ty, inputs[1..], r.st, r.val)
  }

  lemma {:induction false} AfterAllPrivate(
      env: Env, grow: Grow, ty: Ty, inputs: seq<seq<byte>>, st: State, cell: Val)
    requires ValidEnv(env) && Supported(env, ty) && Flat(env, ty) && Allocated(st) && Private(env, st.mem, ty, cell)
    ensures var r := AfterAll(env, grow, ty, inputs, st, cell); Allocated(r.st) && Private(env, r.st.mem, ty, r.val)
    decreases |inputs|
  {
    if inputs != [] {
      var st0 := st.(off := 0);
      var r := Into(env, grow, ty, inputs[0], st0, cell);
      StaysPrivate(env, grow, ty, inputs[0], st0, cell);
      RefillInto(env, grow, ty, inputs[0], st0, cell);
      AfterAllPrivate(env, grow, ty, inputs[1..], r.st, r.val);
    }
  }

  /**
   * Whatever has been unmarshalled into a variable of a flat type before, an input that starts with the encoding of a
   * value is read into it as that value.
   */
  lemma RefillRecovers(
      env: Env, grow: Grow, ty: Ty, inputs: seq<seq<byte>>, mem: Mem, next: Ref, t: Tree, p: seq<byte>)
    requires ValidEnv(env) && Supported(env, ty) && Flat(env, ty) && Allocated(State(0, mem, next))
    requires HasType(env, t, ty) && Encodable(t) && Wire(t) <= p
    ensures var u := AfterAll(env, grow, ty, inputs, State(0, mem, next), Zero(env, ty));
            var r := Into(env, grow, ty, p, u.st.(off := 0), u.val);
            r.status == Done && r.st.off == |Wire(t)| && Unfolds(r.st.mem, r.val, t)
  {
    ZeroPrivate(env, mem, ty);
    AfterAllPrivate(env, grow, ty, inputs, State(0, mem, next), Zero(env, ty));
    var u := AfterAll(env, grow, ty, inputs, State(0, mem, next), Zero(env, ty));
    var r := Into(env, grow, ty, p, u.st.(off := 0), u.val);
    assert p[0..|Wire(t)|] == Wire(t);
    DecodeWire(env, ty, t, p, 0);
    RefillInto(env, grow, ty, p, u.st.(off := 0), u.val);
    UnfoldsExtends(Within(r.st.mem, Room(Reached(env, u.st.mem, ty, u.val), u.st.next)), r.st.mem, r.val, t);
  }
}
