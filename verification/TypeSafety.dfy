/** Decoding keeps memory well typed, so that the panics of the reflect package on a wrong variable never occur. */
module TypeSafety {
  import opened LittleEndian
  import opened GoMemory
  import opened WireFormat
  import opened Decoder
  import opened Flatness
  import opened Footprint
  import opened Sharing

  /** The types of objects and of array elements, and the capacities of arrays. */
  datatype Typing = Typing(objs: map<Ref, Ty>, elems: map<Ref, Ty>, caps: map<Ref, nat>)

  /** Value v belongs in a variable of type ty. A skipped field may hold anything. */
  ghost predicate Typed(env: Env, h: Typing, v: Val, ty: Ty)
    decreases v
  {
    match ty
    case Bool => v.Bool?
    case Num(k) => v.Num? && v.kind == k && InRange(k, v.n)
    case Str => v.Str?
    case Bytes => v.Bytes?
    case Struct(n) =>
      && v.Struct? && n in env.structs && |v.slots| == |env.structs[n]|
      && forall i :: 0 <= i < |v.slots| ==>
           && v.slots[i].name == env.structs[n][i].name
           && (Visited(v.slots[i].name) ==> Typed(env, h, v.slots[i].val, env.structs[n][i].ty))
    case Slice(e) =>
      || v.NilSlice?
      || (v.Slice? && v.arr in h.elems && h.elems[v.arr] == e && v.arr in h.caps && v.len <= h.caps[v.arr])
    case Ptr(e) => v.NilPtr? || (v.Ptr? && v.ref in h.objs && h.objs[v.ref] == e)
    case _ => v.Opaque?
  }

  ghost predicate SlotsTyped(env: Env, h: Typing, slots: seq<Slot>, fields: seq<Field>) {
    && |slots| == |fields|
    && forall i :: 0 <= i < |slots| ==>
         && slots[i].name == fields[i].name
         && (Visited(slots[i].name) ==> Typed(env, h, slots[i].val, fields[i].ty))
  }

  /** Every object and every array element is of its type, and every array of its capacity. */
  ghost predicate ValuesTyped(env: Env, h: Typing, m: Mem) {
    && (forall r :: r in m.objs ==> r in h.objs && Typed(env, h, m.objs[r], h.objs[r]))
    && (forall a :: a in m.arrays ==> a in h.elems && a in h.caps && |m.arrays[a]| == h.caps[a])
    && (forall a, i :: a in m.arrays && 0 <= i < |m.arrays[a]| ==> Typed(env, h, m.arrays[a][i], h.elems[a]))
  }

  ghost predicate WellTyped(env: Env, h: Typing, m: Mem) {
    && ValuesTyped(env, h, m)
    && h.objs.Keys == m.objs.Keys && h.elems.Keys == h.caps.Keys == m.arrays.Keys
  }

  /** h' types all that h types, in the same way. */
  ghost predicate More(h: Typing, h': Typing) {
    && (forall r :: r in h.objs ==> r in h'.objs && h'.objs[r] == h.objs[r])
    && (forall a :: a in h.elems ==> a in h'.elems && h'.elems[a] == h.elems[a])
    && (forall a :: a in h.caps ==> a in h'.caps && h'.caps[a] == h.caps[a])
  }

  lemma {:induction false} TypedMore(env: Env, h: Typing, h': Typing, v: Val, ty: Ty)
    requires More(h, h') && Typed(env, h, v, ty)
    ensures Typed(env, h', v, ty)
    decreases v
  {
    match ty
    case Struct(n) =>
      forall i | 0 <= i < |v.slots| && Visited(v.slots[i].name)
        ensures Typed(env, h', v.slots[i].val, env.structs[n][i].ty)
      {
        TypedMore(env, h, h', v.slots[i].val, env.structs[n][i].ty);
      }
    case _ =>
  }

  lemma ValuesTypedMore(env: Env, h: Typing, h': Typing, m: Mem)
    requires More(h, h') && ValuesTyped(env, h, m)
    ensures ValuesTyped(env, h', m)
  {
    forall r | r in m.objs ensures Typed(env, h', m.objs[r], h'.objs[r]) {
      TypedMore(env, h, h', m.objs[r], h.objs[r]);
    }
    forall a, i | a in m.arrays && 0 <= i < |m.arrays[a]| ensures Typed(env, h', m.arrays[a][i], h'.elems[a]) {
      TypedMore(env, h, h', m.arrays[a][i], h.elems[a]);
    }
  }

  lemma {:induction false} ZeroTyped(env: Env, h: Typing, ty: Ty)
    requires ValidEnv(env) && Supported(env, ty)
    ensures Typed(env, h, Zero(env, ty), ty)
    decreases TyRank(env, ty), 1, 0
  {
    match ty
    case Num(k) => HalfIsWhole(Width(k));
    case Struct(n) => ZeroSlotsTyped(env, h, env.structs[n], env.rank[n]);
    case _ =>
  }

  lemma {:induction false} ZeroSlotsTyped(env: Env, h: Typing, fields: seq<Field>, rank: nat)
    requires ValidEnv(env) && FieldsBelow(env, fields, rank)
    ensures SlotsTyped(env, h, ZeroSlots(env, fields, rank), fields)
    decreases rank, 0, |fields|
  {
    if fields != [] {
      if Visited(fields[0].name) {
        ZeroTyped(env, h, fields[0].ty);
      }
      ZeroSlotsTyped(env, h, fields[1..], rank);
    }
  }

  // ---- Preservation ----

  /** The arrays that h' has and h has not are of flat elements. */
  ghost predicate FlatAdded(env: Env, h: Typing, h': Typing)
    requires ValidEnv(env)
  {
    forall a :: a in h'.elems && a !in h.elems ==> Supported(env, h'.elems[a]) && FlatElement(env, h'.elems[a])
  }

  /**
   * What a step to memory m' typed by h' from one typed by h guarantees; flat says that it deals in flat types only.
   */
  ghost predicate Preserves(env: Env, flat: bool, h: Typing, h': Typing, m': Mem)
    requires ValidEnv(env)
  {
    More(h, h') && WellTyped(env, h', m') && (flat ==> FlatAdded(env, h, h'))
  }

  /** r did not panic, left memory well typed by h', and holds a value of type ty. */
  ghost predicate TypedResult(env: Env, flat: bool, h: Typing, h': Typing, r: Res, ty: Ty)
    requires ValidEnv(env)
  {
    r.status != Mismatch && Preserves(env, flat, h, h', r.st.mem) && Typed(env, h', r.val, ty)
  }

  lemma ResultThen(env: Env, flat: bool, flat': bool, h: Typing, h1: Typing, m1: Mem, h2: Typing, r: Res, ty: Ty)
    requires ValidEnv(env) && Preserves(env, flat, h, h1, m1) && TypedResult(env, flat', h1, h2, r, ty)
    requires flat' ==> flat
    ensures TypedResult(env, flat', h, h2, r, ty)
  {
  }

  lemma FlatElementIsFlat(env: Env, ty: Ty)
    requires ValidEnv(env) && Supported(env, ty) && FlatElement(env, ty)
    ensures Flat(env, ty)
    decreases TyRank(env, ty)
  {
    match ty
    case Struct(n) =>
      forall i | 0 <= i < |env.structs[n]| && Visited(env.structs[n][i].name) ensures Flat(env, env.structs[n][i].ty) {
        FlatElementIsFlat(env, env.structs[n][i].ty);
      }
    case Slice(e) => BlankIsFlatElement(env, e);
    case Ptr(e) =>
      BlankIsFlatElement(env, e);
      FlatElementIsFlat(env, e);
    case _ =>
  }

  lemma NumTyped(env: Env, h: Typing, k: Kind, s: seq<byte>)
    requires |s| == Width(k)
    ensures Typed(env, h, Val.Num(k, FromBits(k, Get(s))), Ty.Num(k))
  {
    PutGet(s);
    BitsRoundTripBack(k, Get(s));
  }

  /** In well-typed memory, decoding into a variable of the right type never meets a value of the wrong one. */
  lemma {:induction false} IntoTyped(env: Env, grow: Grow, ty: Ty, p: seq<byte>, st: State, cell: Val, h: Typing)
    returns (h': Typing)
    requires ValidEnv(env) && Supported(env, ty) && st.off <= |p|
    requires Allocated(st) && WellTyped(env, h, st.mem) && Typed(env, h, cell, ty)
    ensures var r := Into(env, grow, ty, p, st, cell);
            TypedResult(env, Flat(env, ty), h, h', r, ty)
    decreases |p| - st.off, TyRank(env, ty), 1, 0
  {
    match ty
    case Struct(n) =>
      h' := SlotsIntoTyped(env, grow, env.structs[n], p, st, cell.slots, 0, env.rank[n], h, Flat(env, ty));
    case Slice(e) =>
      h' := ArrayIntoTyped(env, grow, e, p, st, cell, h);
    case Ptr(e) =>
      if cell.NilPtr? {
        var h1 := AllocateTyped(env, e, st, h);
        var st1 := Allocate(st, Zero(env, e));
        h' := PointeeIntoTyped(env, grow, e, p, st1, st.next, h1);
        ResultThen(env, true, Flat(env, e), h, h1, st1.mem, h', PointeeInto(env, grow, e, p, st1, st.next), ty);
      } else {
        h' := PointeeIntoTyped(env, grow, e, p, st, cell.ref, h);
      }
    case _ =>
      LeafIntoTyped(env, grow, ty, p, st, cell, h);
      h' := h;
  }

  lemma LeafIntoTyped(env: Env, grow: Grow, ty: Ty, p: seq<byte>, st: State, cell: Val, h: Typing)
    requires ValidEnv(env) && Supported(env, ty) && st.off <= |p| && Typed(env, h, cell, ty)
    requires ty.Bool? || ty.Num? || ty.Str? || ty.Bytes?
    ensures var r := Into(env, grow, ty, p, st, cell);
            r.status != Mismatch && r.st.mem == st.mem && Typed(env, h, r.val, ty)
  {
    if ty.Num? && st.off + Width(ty.kind) <= |p| {
      NumTyped(env, h, ty.kind, p[st.off..st.off + Width(ty.kind)]);
    }
  }

  lemma AllocateTyped(env: Env, e: Ty, st: State, h: Typing) returns (h': Typing)
    requires ValidEnv(env) && Supported(env, e) && Allocated(st) && WellTyped(env, h, st.mem)
    ensures Preserves(env, true, h, h', Allocate(st, Zero(env, e)).mem)
    ensures st.next in h'.objs && h'.objs[st.next] == e
  {
    h' := h.(objs := h.objs[st.next := e]);
    ValuesTypedMore(env, h, h', st.mem);
    ZeroTyped(env, h', e);
  }

  lemma {:induction false} PointeeIntoTyped(env: Env, grow: Grow, e: Ty, p: seq<byte>, st: State, ref: Ref, h: Typing)
    returns (h': Typing)
    requires ValidEnv(env) && Supported(env, e) && st.off <= |p|
    requires Allocated(st) && WellTyped(env, h, st.mem) && ref in h.objs && h.objs[ref] == e
    ensures var r := PointeeInto(env, grow, e, p, st, ref);
            TypedResult(env, Flat(env, e), h, h', r, Ty.Ptr(e))
    decreases |p| - st.off, TyRank(env, e), 2, 0
  {
    var r := PointeeInto(env, grow, e, p, st, ref);
    if e.Bytes? {
      h' := h;
      ObjectStored(env, h, st.mem, ref, r.st.mem.objs[ref]);
    } else {
      h' := IntoTyped(env, grow, e, p, st, st.mem.objs[ref], h);
      ObjectStored(env, h', Into(env, grow, e, p, st, st.mem.objs[ref]).st.mem, ref, r.st.mem.objs[ref]);
    }
  }

  lemma ObjectStored(env: Env, h: Typing, m: Mem, ref: Ref, x: Val)
    requires WellTyped(env, h, m) && ref in m.objs && Typed(env, h, x, h.objs[ref])
    ensures WellTyped(env, h, m.(objs := m.objs[ref := x]))
  {
  }

  lemma {:induction false} SlotsIntoTyped(
      env: Env, grow: Grow, fields: seq<Field>, p: seq<byte>, st: State, slots: seq<Slot>, i: nat, rank: nat,
      h: Typing, flat: bool)
    returns (h': Typing)
    requires ValidEnv(env) && st.off <= |p| && i <= |fields| == |slots| && FieldsBelow(env, fields, rank)
    requires Allocated(st) && WellTyped(env, h, st.mem) && SlotsTyped(env, h, slots, fields)
    requires flat ==> forall i :: 0 <= i < |fields| && Visited(fields[i].name) ==> Flat(env, fields[i].ty)
    ensures var r := SlotsInto(env, grow, fields, p, st, slots, i, rank);
            && r.status != Mismatch
            && Preserves(env, flat, h, h', r.st.mem) && SlotsTyped(env, h', r.slots, fields)
    decreases |p| - st.off, rank, 0, |fields| - i
  {
    h' := h;
    if i < |fields| {
      if !Visited(fields[i].name) {
        h' := SlotsIntoTyped(env, grow, fields, p, st, slots, i + 1, rank, h, flat);
      } else {
        var x := Into(env, grow, fields[i].ty, p, st, slots[i].val);
        h' := IntoTyped(env, grow, fields[i].ty, p, st, slots[i].val, h);
        IntoGrows(env, grow, fields[i].ty, p, st, slots[i].val);
        var slots' := slots[i := slots[i].(val := x.val)];
        SlotUpdateTyped(env, h, h', slots, fields, i, x.val);
        if x.status == Done {
          var h1 := h';
          h' := SlotsIntoTyped(env, grow, fields, p, x.st, slots', i + 1, rank, h1, flat);
        }
      }
    }
  }

  lemma SlotUpdateTyped(env: Env, h: Typing, h': Typing, slots: seq<Slot>, fields: seq<Field>, i: nat, x: Val)
    requires SlotsTyped(env, h, slots, fields) && More(h, h')
    requires i < |slots| && Visited(fields[i].name) && Typed(env, h', x, fields[i].ty)
    ensures SlotsTyped(env, h', slots[i := slots[i].(val := x)], fields)
  {
    forall j | 0 <= j < |slots| && j != i && Visited(slots[j].name) ensures Typed(env, h', slots[j].val, fields[j].ty) {
      TypedMore(env, h, h', slots[j].val, fields[j].ty);
    }
  }

  lemma {:induction false} ArrayIntoTyped(env: Env, grow: Grow, e: Ty, p: seq<byte>, st: State, cell: Val, h: Typing)
    returns (h': Typing)
    requires ValidEnv(env) && Supported(env, Ty.Slice(e)) && st.off <= |p|
    requires Allocated(st) && WellTyped(env, h, st.mem) && Typed(env, h, cell, Ty.Slice(e))
    ensures var r := ArrayInto(env, grow, e, p, st, cell);
            TypedResult(env, FlatElement(env, e), h, h', r, Ty.Slice(e))
    decreases |p| - st.off, 0, 0, 0
  {
    h' := h;
    if st.off + 2 <= |p| {
      ZeroTyped(env, h, e);
      h' := ElemsIntoTyped(env, grow, e, p, st.(off := st.off + 2), Zero(env, e),
                           if cell.NilSlice? then NilSlice else Val.Slice(cell.arr, 0), Get(p[st.off..st.off + 2]), h);
    }
  }

  lemma {:induction false} ElemsIntoTyped(
      env: Env, grow: Grow, e: Ty, p: seq<byte>, st: State, cell: Val, sl: Val, n: nat, h: Typing)
    returns (h': Typing)
    requires ValidEnv(env) && Supported(env, e) && st.off <= |p|
    requires Allocated(st) && WellTyped(env, h, st.mem) && Typed(env, h, cell, e) && Typed(env, h, sl, Ty.Slice(e))
    ensures var r := ElemsInto(env, grow, e, p, st, cell, sl, n);
            TypedResult(env, FlatElement(env, e), h, h', r, Ty.Slice(e))
    decreases |p| - st.off, TyRank(env, e) + 1, 0, 2 * n
  {
    h' := h;
    if n > 0 {
      var x := Into(env, grow, e, p, st, cell);
      h' := HeadTyped(env, grow, e, p, st, cell, sl, h);
      if x.status == Done {
        var h1 := h';
        h' := RoundTyped(env, grow, e, p, x, sl, n - 1, h1);
        var (sl', st') := Append(grow, e, Zero(env, e), sl, x.val, x.st);
        ResultThen(env, FlatElement(env, e), FlatElement(env, e), h, h1, x.st.mem, h',
                   ElemsInto(env, grow, e, p, st', x.val, sl', n - 1), Ty.Slice(e));
      }
    }
  }

  /** One element decoded in the array loop. */
  lemma {:induction false} HeadTyped(
      env: Env, grow: Grow, e: Ty, p: seq<byte>, st: State, cell: Val, sl: Val, h: Typing)
    returns (h': Typing)
    requires ValidEnv(env) && Supported(env, e) && st.off <= |p|
    requires Allocated(st) && WellTyped(env, h, st.mem) && Typed(env, h, cell, e) && Typed(env, h, sl, Ty.Slice(e))
    ensures var x := Into(env, grow, e, p, st, cell);
            TypedResult(env, FlatElement(env, e), h, h', x, e) && Typed(env, h', sl, Ty.Slice(e)) && Allocated(x.st)
    decreases |p| - st.off, TyRank(env, e) + 1, 0, 0
  {
    h' := IntoTyped(env, grow, e, p, st, cell, h);
    if FlatElement(env, e) {
      FlatElementIsFlat(env, e);
    }
    IntoGrows(env, grow, e, p, st, cell);
    TypedMore(env, h, h', sl, Ty.Slice(e));
  }

  /** The rest of the array loop, once an element has been decoded. */
  lemma {:induction false} RoundTyped(
      env: Env, grow: Grow, e: Ty, p: seq<byte>, x: Res, sl: Val, n: nat, h: Typing)
    returns (h': Typing)
    requires ValidEnv(env) && Supported(env, e) && x.st.off <= |p|
    requires Allocated(x.st) && WellTyped(env, h, x.st.mem) && Typed(env, h, x.val, e) && Typed(env, h, sl, Ty.Slice(e))
    ensures Usable(x.st.mem, sl)
    ensures var (sl', st') := Append(grow, e, Zero(env, e), sl, x.val, x.st);
            var r := ElemsInto(env, grow, e, p, st', x.val, sl', n);
            TypedResult(env, FlatElement(env, e), h, h', r, Ty.Slice(e))
    decreases |p| - x.st.off, TyRank(env, e) + 1, 0, 2 * n + 1
  {
    var h1 := AppendPreserves(env, grow, e, sl, x.val, x.st, h);
    var (sl', st') := Append(grow, e, Zero(env, e), sl, x.val, x.st);
    h' := ElemsIntoTyped(env, grow, e, p, st', x.val, sl', n, h1);
    ResultThen(env, FlatElement(env, e), FlatElement(env, e), h, h1, st'.mem, h',
               ElemsInto(env, grow, e, p, st', x.val, sl', n), Ty.Slice(e));
  }

  lemma AppendPreserves(env: Env, grow: Grow, e: Ty, sl: Val, x: Val, st: State, h: Typing) returns (h': Typing)
    requires ValidEnv(env) && Supported(env, e)
    requires Allocated(st) && WellTyped(env, h, st.mem) && Typed(env, h, sl, Ty.Slice(e)) && Typed(env, h, x, e)
    ensures Usable(st.mem, sl)
    ensures var (sl', st') := Append(grow, e, Zero(env, e), sl, x, st);
            && TypedResult(env, FlatElement(env, e), h, h', Res(Done, sl', st'), Ty.Slice(e)) && Allocated(st')
            && Typed(env, h', x, e)
  {
    h' := AppendTyped(env, grow, e, sl, x, st, h);
    TypedMore(env, h, h', x, e);
  }

  lemma AppendTyped(env: Env, grow: Grow, e: Ty, sl: Val, x: Val, st: State, h: Typing) returns (h': Typing)
    requires ValidEnv(env) && Supported(env, e)
    requires Allocated(st) && WellTyped(env, h, st.mem) && Typed(env, h, sl, Ty.Slice(e)) && Typed(env, h, x, e)
    ensures Usable(st.mem, sl)
    ensures var (sl', st') := Append(grow, e, Zero(env, e), sl, x, st);
            && More(h, h') && WellTyped(env, h', st'.mem) && Typed(env, h', sl', Ty.Slice(e)) && Allocated(st')
            && (h'.elems == h.elems || h'.elems == h.elems[st.next := e])
  {
    if sl.Slice? && sl.len < |st.mem.arrays[sl.arr]| {
      h' := h;
      ElementStored(env, h, st.mem, sl.arr, sl.len, x);
    } else {
      var a := GrownTyped(env, grow, e, sl, x, st, h);
      h' := ArrayAdded(env, h, st, e, a);
    }
  }

  /** The larger copy that Append makes of a full slice. */
  lemma GrownTyped(env: Env, grow: Grow, e: Ty, sl: Val, x: Val, st: State, h: Typing) returns (a: seq<Val>)
    requires ValidEnv(env) && Supported(env, e)
    requires WellTyped(env, h, st.mem) && Typed(env, h, sl, Ty.Slice(e)) && Typed(env, h, x, e)
    requires sl.Slice? ==> sl.len == |st.mem.arrays[sl.arr]|
    ensures Usable(st.mem, sl) && |a| > |Contents(st.mem, sl)|
    ensures Append(grow, e, Zero(env, e), sl, x, st) ==
            (Val.Slice(st.next, |Contents(st.mem, sl)| + 1),
             st.(mem := st.mem.(arrays := st.mem.arrays[st.next := a]), next := st.next + 1))
    ensures forall i :: 0 <= i < |a| ==> Typed(env, h, a[i], e)
  {
    var have, zero := Contents(st.mem, sl), Zero(env, e);
    a := have + [x] + seq(Capacity(grow, e, |have|) - |have| - 1, i => zero);
    ZeroTyped(env, h, e);
    forall i | 0 <= i < |a| ensures Typed(env, h, a[i], e) {
      if i < |have| {
        assert a[i] == st.mem.arrays[sl.arr][i];
      }
    }
  }

  lemma ElementStored(env: Env, h: Typing, m: Mem, arr: Ref, i: nat, x: Val)
    requires WellTyped(env, h, m) && arr in m.arrays && i < |m.arrays[arr]| && Typed(env, h, x, h.elems[arr])
    ensures WellTyped(env, h, m.(arrays := m.arrays[arr := m.arrays[arr][i := x]]))
  {
  }

  lemma ArrayAdded(env: Env, h: Typing, st: State, e: Ty, a: seq<Val>) returns (h': Typing)
    requires Allocated(st) && WellTyped(env, h, st.mem) && forall i :: 0 <= i < |a| ==> Typed(env, h, a[i], e)
    ensures More(h, h') && WellTyped(env, h', st.mem.(arrays := st.mem.arrays[st.next := a]))
    ensures h'.elems == h.elems[st.next := e] && h'.caps == h.caps[st.next := |a|]
  {
    h' := h.(elems := h.elems[st.next := e], caps := h.caps[st.next := |a|]);
    ValuesTypedMore(env, h, h', st.mem);
    forall i | 0 <= i < |a| ensures Typed(env, h', a[i], e) {
      TypedMore(env, h, h', a[i], e);
    }
  }

  // ---- What it means for every supported type ----

  /**
   * Into any well-typed variable of any supported type, on any input, decode does not panic; and it succeeds, and
   * gets as far, as when every part is decoded into a variable of its own.
   */
  lemma DecodeIsTypeSafe(env: Env, grow: Grow, ty: Ty, p: seq<byte>, st: State, cell: Val, h: Typing)
    requires ValidEnv(env) && Supported(env, ty) && st.off <= |p|
    requires Allocated(st) && WellTyped(env, h, st.mem) && Typed(env, h, cell, ty)
    ensures var r := Into(env, grow, ty, p, st, cell); Agrees(r.status, r.st.off, Decode(env, ty, p, st.off))
  {
    var h' := IntoTyped(env, grow, ty, p, st, cell, h);
    IntoParses(env, grow, ty, p, st, cell);
  }

  /**
   * A success that consumes n bytes depends on those alone, in whatever variable of the type: any input that starts
   * with them is consumed as far, and every shorter piece of them ends early.
   */
  lemma SuccessNeedsItsBytes(
      env: Env, grow: Grow, ty: Ty, p: seq<byte>, st: State, cell: Val, h: Typing, q: seq<byte>, st': State, cell': Val,
      h': Typing)
    requires ValidEnv(env) && Supported(env, ty) && st.off == st'.off == 0
    requires Allocated(st) && WellTyped(env, h, st.mem) && Typed(env, h, cell, ty)
    requires Allocated(st') && WellTyped(env, h', st'.mem) && Typed(env, h', cell', ty)
    requires Into(env, grow, ty, p, st, cell).status == Done
    ensures var r, r' := Into(env, grow, ty, p, st, cell), Into(env, grow, ty, q, st', cell');
            && (SamePrefix(p, q, r.st.off) ==> r'.status == Done && r'.st.off == r.st.off)
            && (q <= p && |q| < r.st.off ==> r'.status == Eof)
  {
    DecodeIsTypeSafe(env, grow, ty, p, st, cell, h);
    DecodeIsTypeSafe(env, grow, ty, q, st', cell', h');
    DecodeNeedsItsBytes(env, ty, p, q);
  }

  lemma DecodeNeedsItsBytes(env: Env, ty: Ty, p: seq<byte>, q: seq<byte>)
    requires ValidEnv(env) && Supported(env, ty) && Decode(env, ty, p, 0).Ok?
    ensures var d, d' := Decode(env, ty, p, 0), Decode(env, ty, q, 0);
            && (SamePrefix(p, q, d.off) ==> d' == d)
            && (q <= p && |q| < d.off ==> d'.Fail?)
  {
    if q <= p && |q| < Decode(env, ty, p, 0).off {
      assert q == p[..|q|];
      DecodeNeedsAll(env, ty, p, |q|);
    } else if SamePrefix(p, q, Decode(env, ty, p, 0).off) {
      DecodeLocal(env, ty, p, q, 0);
    }
  }

  /** A well-typed value unfolds, if at all, to a tree of its type. */
  lemma {:induction false} UnfoldingHasType(env: Env, h: Typing, m: Mem, v: Val, ty: Ty, t: Tree)
    requires WellTyped(env, h, m) && Typed(env, h, v, ty) && Unfolds(m, v, t)
    ensures HasType(env, t, ty)
    decreases t
  {
    match t
    case Struct(fs) =>
      forall i | 0 <= i < |fs| && Visited(v.slots[i].name) && !Barred(v.slots[i].name)
        ensures HasType(env, fs[i], env.structs[ty.name][i].ty)
      {
        UnfoldingHasType(env, h, m, v.slots[i].val, env.structs[ty.name][i].ty, fs[i]);
      }
    case Slice(es) =>
      forall i | 0 <= i < |es| ensures HasType(env, es[i], ty.elem) {
        UnfoldingHasType(env, h, m, m.arrays[v.arr][i], ty.elem, es[i]);
      }
    case Ptr(t') => UnfoldingHasType(env, h, m, m.objs[v.ref], ty.elem, t');
    case _ =>
  }
}
