/**
 * Decoding into a reused cell, and the array loop around it, refine decoding every element into a fresh variable: what
 * a cell may hold, what it shares with the elements copied from it, and what those read as for good.
 */
module Reuse {
  import opened LittleEndian
  import opened GoMemory
  import opened WireFormat
  import opened Decoder
  import opened Flatness

  // ---- What reused cells lead to ----

  /**
   * The objects and backing arrays that a cell and the elements copied from it may share, all of blank types. The first
   * filled elements of an array have been appended at some time.
   */
  datatype Commons = Commons(objs: map<Ref, Ty>, elems: map<Ref, Ty>, filled: map<Ref, nat>)

  /** What a cell of a flat element type may hold: pointers are nil or lead into the commons, and so do slices. */
  ghost predicate Holds(env: Env, g: Commons, ty: Ty, v: Val)
    requires ValidEnv(env) && Supported(env, ty)
    decreases TyRank(env, ty), 1
  {
    match ty
    case Struct(n) => v.Struct? && SlotsHold(env, g, env.structs[n], v.slots, env.rank[n])
    case Ptr(e) => v.NilPtr? || (v.Ptr? && v.ref in g.objs && g.objs[v.ref] == e)
    case Slice(e) =>
      || v.NilSlice?
      || (v.Slice? && v.arr in g.elems && v.arr in g.filled && g.elems[v.arr] == e && v.len <= g.filled[v.arr])
    case _ => true
  }

  ghost predicate SlotsHold(env: Env, g: Commons, fields: seq<Field>, slots: seq<Slot>, rank: nat)
    requires ValidEnv(env)
    requires FieldsBelow(env, fields, rank)
    decreases rank, 0
  {
    && |slots| == |fields|
    && forall i :: 0 <= i < |fields| ==>
         && slots[i].name == fields[i].name
         && (Visited(fields[i].name) ==> Holds(env, g, fields[i].ty, slots[i].val))
  }

  /** Value v reads as t for good, whatever happens to the commons. */
  ghost predicate Shows(env: Env, g: Commons, ty: Ty, v: Val, t: Tree)
    requires ValidEnv(env) && Supported(env, ty)
    decreases TyRank(env, ty), 1
  {
    match ty
    case Struct(n) => v.Struct? && t.Struct? && SlotsShow(env, g, env.structs[n], v.slots, 0, t.fs, env.rank[n])
    case Ptr(e) => v.Ptr? && Holds(env, g, ty, v) && t == Tree.Ptr(Default(env, e))
    case Slice(e) => Holds(env, g, ty, v) && t == Tree.Slice(Copies(Default(env, e), Length(v)))
    case _ => Unfolds(EMPTY_MEM, v, t)
  }

  function Length(sl: Val): nat {
    if sl.Slice? then sl.len else 0
  }

  /** From position i on, the slots read as ts; skipped ones are passed over. */
  ghost predicate SlotsShow(
      env: Env, g: Commons, fields: seq<Field>, slots: seq<Slot>, i: nat, ts: seq<Tree>, rank: nat)
    requires ValidEnv(env)
    requires FieldsBelow(env, fields, rank)
    decreases rank, 0
  {
    && i <= |fields| == |slots|
    && |ts| == |fields| - i
    && forall j :: i <= j < |fields| ==>
         && slots[j].name == fields[j].name
         && if Visited(fields[j].name) then Shows(env, g, fields[j].ty, slots[j].val, ts[j - i]) else ts[j - i].Hidden?
  }

  /** Every object of the commons is there, and reads as the one value of its blank type. */
  ghost predicate ObjectsSettled(env: Env, g: Commons, m: Mem)
    requires ValidEnv(env)
  {
    forall r :: r in g.objs ==>
      && Supported(env, g.objs[r]) && Blank(env, g.objs[r])
      && r in m.objs && Ready(env, g, g.objs[r], m.objs[r])
  }

  /** Every array of the commons is there, of a blank type, and long enough. */
  ghost predicate ArraysThere(env: Env, g: Commons, m: Mem)
    requires ValidEnv(env)
  {
    && g.elems.Keys == g.filled.Keys
    && forall a :: a in g.elems ==>
         && Supported(env, g.elems[a]) && Blank(env, g.elems[a])
         && a in m.arrays && g.filled[a] <= |m.arrays[a]|
  }

  /** And the elements appended to it read as the one value of their type. */
  ghost predicate ArraysSettled(env: Env, g: Commons, m: Mem)
    requires ValidEnv(env) && ArraysThere(env, g, m)
  {
    forall a, i :: a in g.elems && 0 <= i < g.filled[a] ==> Ready(env, g, g.elems[a], m.arrays[a][i])
  }

  /** Everything in the commons is of a blank type, and there in full. */
  ghost predicate Settled(env: Env, g: Commons, m: Mem)
    requires ValidEnv(env)
  {
    ObjectsSettled(env, g, m) && ArraysThere(env, g, m) && ArraysSettled(env, g, m)
  }

  ghost predicate Ready(env: Env, g: Commons, ty: Ty, v: Val)
    requires ValidEnv(env) && Supported(env, ty)
  {
    Shows(env, g, ty, v, Default(env, ty))
  }

  /** The commons grows by references from next on only. */
  ghost predicate More(g: Commons, g': Commons, next: Ref) {
    && (forall r :: r in g.objs ==> r in g'.objs && g'.objs[r] == g.objs[r])
    && (forall r :: r in g'.objs ==> r in g.objs || r >= next)
    && (forall a :: a in g.elems ==> a in g'.elems && g'.elems[a] == g.elems[a])
    && (forall a :: a in g.filled ==> a in g'.filled && g'.filled[a] >= g.filled[a])
    && (forall a :: a in g'.elems ==> a in g.elems || a >= next)
  }

  lemma {:induction false} HoldsMore(env: Env, g: Commons, g': Commons, next: Ref, ty: Ty, v: Val)
    requires ValidEnv(env) && Supported(env, ty) && More(g, g', next) && Holds(env, g, ty, v)
    ensures Holds(env, g', ty, v)
    decreases TyRank(env, ty)
  {
    if ty.Struct? {
      var fields := env.structs[ty.name];
      forall i | 0 <= i < |fields| && Visited(fields[i].name) ensures Holds(env, g', fields[i].ty, v.slots[i].val) {
        HoldsMore(env, g, g', next, fields[i].ty, v.slots[i].val);
      }
    }
  }

  lemma {:induction false} ShowsMore(env: Env, g: Commons, g': Commons, next: Ref, ty: Ty, v: Val, t: Tree)
    requires ValidEnv(env) && Supported(env, ty) && More(g, g', next) && Shows(env, g, ty, v, t)
    ensures Shows(env, g', ty, v, t)
    decreases TyRank(env, ty)
  {
    if ty.Struct? {
      var fields := env.structs[ty.name];
      forall i | 0 <= i < |fields| && Visited(fields[i].name)
        ensures Shows(env, g', fields[i].ty, v.slots[i].val, t.fs[i - 0])
      {
        ShowsMore(env, g, g', next, fields[i].ty, v.slots[i].val, t.fs[i - 0]);
      }
    }
  }

  lemma {:induction false} ShowsHolds(env: Env, g: Commons, ty: Ty, v: Val, t: Tree)
    requires ValidEnv(env) && Supported(env, ty) && Shows(env, g, ty, v, t)
    ensures Holds(env, g, ty, v)
    decreases TyRank(env, ty)
  {
    if ty.Struct? {
      var fields := env.structs[ty.name];
      forall i | 0 <= i < |fields| && Visited(fields[i].name) ensures Holds(env, g, fields[i].ty, v.slots[i].val) {
        ShowsHolds(env, g, fields[i].ty, v.slots[i].val, t.fs[i - 0]);
      }
    }
  }

  lemma {:induction false} ZeroHolds(env: Env, g: Commons, ty: Ty)
    requires ValidEnv(env) && Supported(env, ty)
    ensures Holds(env, g, ty, Zero(env, ty))
    decreases TyRank(env, ty)
  {
    if ty.Struct? {
      var fields := env.structs[ty.name];
      forall i | 0 <= i < |fields| && Visited(fields[i].name)
        ensures Holds(env, g, fields[i].ty, Zero(env, fields[i].ty))
      {
        ZeroHolds(env, g, fields[i].ty);
      }
    }
  }

  /** What a value reads as is what it unfolds to. */
  lemma {:induction false} ShowsUnfolds(env: Env, g: Commons, m: Mem, ty: Ty, v: Val, t: Tree)
    requires ValidEnv(env) && Supported(env, ty) && Settled(env, g, m) && Shows(env, g, ty, v, t)
    ensures Unfolds(m, v, t)
    decreases t
  {
    match ty
    case Struct(n) =>
      var fields := env.structs[n];
      forall i | 0 <= i < |fields| && Visited(fields[i].name) ensures Unfolds(m, v.slots[i].val, t.fs[i]) {
        ShowsUnfolds(env, g, m, fields[i].ty, v.slots[i].val, t.fs[i - 0]);
      }
      assert forall i :: 0 <= i < |fields| && !Visited(fields[i].name) ==> t.fs[i - 0].Hidden?;
    case Ptr(e) => ShowsUnfolds(env, g, m, e, m.objs[v.ref], t.t);
    case Slice(e) =>
      if v.Slice? {
        forall i | 0 <= i < v.len ensures Unfolds(m, m.arrays[v.arr][i], t.es[i]) {
          ShowsUnfolds(env, g, m, e, m.arrays[v.arr][i], t.es[i]);
        }
      }
    case _ => UnfoldsExtends(EMPTY_MEM, m, v, t);
  }

  // ---- Steps that change the commons and nothing else ----

  /** Nothing outside the commons changes, and the commons grow by new memory only. */
  ghost predicate Spares(g: Commons, st: State, g': Commons, st': State) {
    && st.next <= st'.next && More(g, g', st.next)
    && (forall r :: r in st.mem.objs && r !in g.objs ==> r in st'.mem.objs && st'.mem.objs[r] == st.mem.objs[r])
    && (forall a :: a in st.mem.arrays && a !in g.elems ==>
          a in st'.mem.arrays && st'.mem.arrays[a] == st.mem.arrays[a])
  }

  lemma SparesThen(g: Commons, st: State, g1: Commons, st1: State, g2: Commons, st2: State)
    requires Allocated(st) && Spares(g, st, g1, st1) && Spares(g1, st1, g2, st2)
    ensures Spares(g, st, g2, st2)
  {
  }

  ghost predicate Advances(env: Env, g: Commons, st: State, g': Commons, st': State)
    requires ValidEnv(env)
  {
    Settled(env, g', st'.mem) && Allocated(st') && Spares(g, st, g', st')
  }

  lemma ObjectsMore(env: Env, g: Commons, g': Commons, m: Mem)
    requires ValidEnv(env) && ObjectsSettled(env, g, m) && More(g, g', 0)
    ensures forall r :: r in g.objs ==> Ready(env, g', g.objs[r], m.objs[r])
  {
    forall r | r in g.objs ensures Ready(env, g', g.objs[r], m.objs[r]) {
      ShowsMore(env, g, g', 0, g.objs[r], m.objs[r], Default(env, g.objs[r]));
    }
  }

  lemma ArraysMore(env: Env, g: Commons, g': Commons, m: Mem)
    requires ValidEnv(env) && ArraysThere(env, g, m) && ArraysSettled(env, g, m) && More(g, g', 0)
    ensures forall a, i :: a in g.elems && 0 <= i < g.filled[a] ==> Ready(env, g', g.elems[a], m.arrays[a][i])
  {
    forall a, i | a in g.elems && 0 <= i < g.filled[a] ensures Ready(env, g', g.elems[a], m.arrays[a][i]) {
      ShowsMore(env, g, g', 0, g.elems[a], m.arrays[a][i], Default(env, g.elems[a]));
    }
  }

  /** A pointee of a blank type is written, and belongs to the commons from then on. */
  lemma ObjectStored(env: Env, g: Commons, m: Mem, ref: Ref, e: Ty, v: Val) returns (g': Commons)
    requires ValidEnv(env) && Supported(env, e) && Blank(env, e) && Settled(env, g, m)
    requires (ref in g.objs ==> g.objs[ref] == e) && Ready(env, g, e, v)
    ensures g' == g.(objs := g.objs[ref := e])
    ensures More(g, g', 0) && Settled(env, g', m.(objs := m.objs[ref := v]))
  {
    g' := g.(objs := g.objs[ref := e]);
    assert More(g, g', 0);
    var m' := m.(objs := m.objs[ref := v]);
    assert ObjectsSettled(env, g', m') by {
      ObjectsMore(env, g, g', m);
      ShowsMore(env, g, g', 0, e, v, Default(env, e));
    }
    assert ArraysThere(env, g', m');
    assert ArraysSettled(env, g', m') by {
      ArraysMore(env, g, g', m);
    }
  }

  /** So does a backing array whose first elements are ready. */
  lemma ArrayStored(env: Env, g: Commons, m: Mem, arr: Ref, e: Ty, a: seq<Val>, filled: nat) returns (g': Commons)
    requires ValidEnv(env) && Supported(env, e) && Blank(env, e) && Settled(env, g, m)
    requires arr in g.elems ==> g.elems[arr] == e && g.filled[arr] <= filled
    requires filled <= |a| && forall i :: 0 <= i < filled ==> Ready(env, g, e, a[i])
    ensures g' == g.(elems := g.elems[arr := e], filled := g.filled[arr := filled])
    ensures More(g, g', 0) && Settled(env, g', m.(arrays := m.arrays[arr := a]))
  {
    g' := g.(elems := g.elems[arr := e], filled := g.filled[arr := filled]);
    assert More(g, g', 0);
    var m' := m.(arrays := m.arrays[arr := a]);
    assert ObjectsSettled(env, g', m') by {
      ObjectsMore(env, g, g', m);
    }
    assert ArraysThere(env, g', m');
    assert ArraysSettled(env, g', m') by {
      ArraysMore(env, g, g', m);
      forall i | 0 <= i < filled ensures Ready(env, g', e, a[i]) {
        ShowsMore(env, g, g', 0, e, a[i], Default(env, e));
      }
    }
  }

  lemma ArrayAdvances(env: Env, g: Commons, st: State, arr: Ref, e: Ty, a: seq<Val>, filled: nat, st': State)
    returns (g': Commons)
    requires ValidEnv(env) && Supported(env, e) && Blank(env, e) && Settled(env, g, st.mem) && Allocated(st)
    requires if arr in g.elems then g.elems[arr] == e && g.filled[arr] <= filled && st'.next == st.next
             else arr == st.next && st'.next == st.next + 1
    requires filled <= |a| && forall i :: 0 <= i < filled ==> Ready(env, g, e, a[i])
    requires st'.mem == st.mem.(arrays := st.mem.arrays[arr := a])
    ensures g' == g.(elems := g.elems[arr := e], filled := g.filled[arr := filled])
    ensures Advances(env, g, st, g', st')
  {
    g' := ArrayStored(env, g, st.mem, arr, e, a, filled);
  }

  function FilledUpTo(g: Commons, arr: Ref, n: nat): nat {
    if arr in g.filled && g.filled[arr] > n then g.filled[arr] else n
  }

  lemma AppendReady(env: Env, grow: Grow, e: Ty, g: Commons, st: State, sl: Val, x: Val)
    requires ValidEnv(env) && Supported(env, e) && Blank(env, e) && Settled(env, g, st.mem) && Allocated(st)
    requires Holds(env, g, Ty.Slice(e), sl) && Ready(env, g, e, x)
    ensures Usable(st.mem, sl)
    ensures var (sl', st') := Append(grow, e, Zero(env, e), sl, x, st);
            var a, filled := st'.mem.arrays[sl'.arr], FilledUpTo(g, sl'.arr, Length(sl) + 1);
            filled <= |a| && forall i :: 0 <= i < filled ==> Ready(env, g, e, a[i])
  {
    var (sl', st') := Append(grow, e, Zero(env, e), sl, x, st);
    var n, a := Length(sl), st'.mem.arrays[sl'.arr];
    assert Contents(st'.mem, sl')[n] == x;
    forall i | 0 <= i < FilledUpTo(g, sl'.arr, n + 1) && i != n ensures a[i] == st.mem.arrays[sl.arr][i] {
      if i < n {
        assert Contents(st'.mem, sl')[i] == Contents(st.mem, sl)[i];
      }
    }
  }

  /** Appending to a slice in the commons, in place or not, leaves a slice in the commons. */
  lemma AppendAdvances(env: Env, grow: Grow, e: Ty, g: Commons, st: State, sl: Val, x: Val) returns (g': Commons)
    requires ValidEnv(env) && Supported(env, e) && Blank(env, e) && Settled(env, g, st.mem) && Allocated(st)
    requires Holds(env, g, Ty.Slice(e), sl) && Ready(env, g, e, x)
    ensures Usable(st.mem, sl)
    ensures var (sl', st') := Append(grow, e, Zero(env, e), sl, x, st);
            && Advances(env, g, st, g', st')
            && Holds(env, g', Ty.Slice(e), sl') && Length(sl') == Length(sl) + 1
  {
    var (sl', st') := Append(grow, e, Zero(env, e), sl, x, st);
    var a, filled := st'.mem.arrays[sl'.arr], FilledUpTo(g, sl'.arr, Length(sl) + 1);
    AppendReady(env, grow, e, g, st, sl, x);
    assert st'.mem == st.mem.(arrays := st.mem.arrays[sl'.arr := a]);
    g' := ArrayAdvances(env, g, st, sl'.arr, e, a, filled, st');
  }

  // ---- Decoding into a reused cell ----

  /** What decoding into a cell of a flat element type leaves, wherever the cell has been. */
  ghost predicate ElementResult(env: Env, g: Commons, ty: Ty, st: State, g': Commons, r: Res, d: Dec<Tree>)
    requires ValidEnv(env) && Supported(env, ty)
  {
    && Agrees(r.status, r.st.off, d)
    && Advances(env, g, st, g', r.st)
    && Holds(env, g', ty, r.val)
    && (d.Ok? ==> Shows(env, g', ty, r.val, d.value))
  }

  /** The reused cell leaves no trace: what is read into it does not depend on what it held beforehand. */
  lemma {:induction false} FlatElementInto(
      env: Env, grow: Grow, ty: Ty, p: seq<byte>, st: State, cell: Val, g: Commons)
    returns (g': Commons)
    requires ValidEnv(env) && Supported(env, ty) && FlatElement(env, ty) && st.off <= |p|
    requires Allocated(st) && Settled(env, g, st.mem) && Holds(env, g, ty, cell)
    ensures ElementResult(env, g, ty, st, g', Into(env, grow, ty, p, st, cell), Decode(env, ty, p, st.off))
    decreases |p| - st.off, TyRank(env, ty), 1, 1
  {
    match ty
    case Struct(n) => g' := FlatElementStructInto(env, grow, n, p, st, cell, g);
    case Ptr(e) => g' := BlankPointerInto(env, grow, e, p, st, cell, g);
    case Slice(e) => g' := BlankArrayInto(env, grow, e, p, st, cell, g);
    case _ => g' := g; LeafInto(env, grow, ty, p, st, cell, g);
  }

  lemma LeafInto(env: Env, grow: Grow, ty: Ty, p: seq<byte>, st: State, cell: Val, g: Commons)
    requires ValidEnv(env) && Supported(env, ty) && !ty.Struct? && !ty.Ptr? && !ty.Slice? && st.off <= |p|
    requires Allocated(st) && Settled(env, g, st.mem)
    ensures ElementResult(env, g, ty, st, g, Into(env, grow, ty, p, st, cell), Decode(env, ty, p, st.off))
  {
    LeafAgrees(env, grow, ty, p, st, cell);
  }

  lemma LeafAgrees(env: Env, grow: Grow, ty: Ty, p: seq<byte>, st: State, cell: Val)
    requires ValidEnv(env) && Supported(env, ty) && !ty.Struct? && !ty.Ptr? && !ty.Slice? && st.off <= |p|
    ensures var r, d := Into(env, grow, ty, p, st, cell), Decode(env, ty, p, st.off);
            && Agrees(r.status, r.st.off, d) && r.st == st.(off := d.off)
            && (d.Ok? ==> Unfolds(EMPTY_MEM, r.val, d.value))
  {
  }

  lemma {:induction false} FlatElementStructInto(
      env: Env, grow: Grow, n: nat, p: seq<byte>, st: State, cell: Val, g: Commons)
    returns (g': Commons)
    requires ValidEnv(env) && n in env.structs && FlatElement(env, Ty.Struct(n)) && st.off <= |p|
    requires Allocated(st) && Settled(env, g, st.mem) && Holds(env, g, Ty.Struct(n), cell)
    ensures ElementResult(env, g, Ty.Struct(n), st, g', Into(env, grow, Ty.Struct(n), p, st, cell),
                          Decode(env, Ty.Struct(n), p, st.off))
    decreases |p| - st.off, env.rank[n], 1, 0
  {
    var r, d;
    g', r, d := FlatElementSlotsInto(env, grow, env.structs[n], p, st, cell.slots, 0, env.rank[n], g);
    assert env.structs[n][0..] == env.structs[n];
  }

  lemma {:induction false} BlankPointerInto(
      env: Env, grow: Grow, e: Ty, p: seq<byte>, st: State, cell: Val, g: Commons)
    returns (g': Commons)
    requires ValidEnv(env) && Supported(env, Ty.Ptr(e)) && Blank(env, e) && st.off <= |p|
    requires Allocated(st) && Settled(env, g, st.mem) && Holds(env, g, Ty.Ptr(e), cell)
    ensures ElementResult(env, g, Ty.Ptr(e), st, g', Into(env, grow, Ty.Ptr(e), p, st, cell),
                          Decode(env, Ty.Ptr(e), p, st.off))
    decreases |p| - st.off, TyRank(env, e), 2, 0
  {
    BlankIsFlatElement(env, e);
    BlankDecode(env, e, p, st.off);
    if cell.NilPtr? {
      var st1 := Allocate(st, Zero(env, e));
      ZeroHolds(env, g, e);
      var g1 := FlatElementInto(env, grow, e, p, st1, Zero(env, e), g);
      var r := Into(env, grow, e, p, st1, Zero(env, e));
      NewSpares(g, st, Zero(env, e), g1, r.st);
      g' := BlankStored(env, g, e, st, st.next, g1, r);
    } else {
      ShowsHolds(env, g, e, st.mem.objs[cell.ref], Default(env, e));
      var g1 := FlatElementInto(env, grow, e, p, st, st.mem.objs[cell.ref], g);
      g' := BlankStored(env, g, e, st, cell.ref, g1, Into(env, grow, e, p, st, st.mem.objs[cell.ref]));
    }
  }

  lemma NewSpares(g: Commons, st: State, v: Val, g1: Commons, st1: State)
    requires Allocated(st) && Spares(g, Allocate(st, v), g1, st1)
    ensures Spares(g, st, g1, st1) && (st.next !in g.objs ==> st.next !in g1.objs)
  {
  }

  /** Storing a blank value in its pointee. */
  lemma BlankStored(env: Env, g: Commons, e: Ty, st: State, ref: Ref, g1: Commons, r: Res) returns (g': Commons)
    requires ValidEnv(env) && Supported(env, Ty.Ptr(e)) && Blank(env, e) && Allocated(st)
    requires Settled(env, g1, r.st.mem) && Allocated(r.st) && Spares(g, st, g1, r.st) && ref < r.st.next
    requires if ref in g.objs then g.objs[ref] == e else ref >= st.next && ref !in g1.objs
    requires Ready(env, g1, e, r.val)
    ensures var st' := r.st.(mem := r.st.mem.(objs := r.st.mem.objs[ref := r.val]));
            ElementResult(env, g, Ty.Ptr(e), st, g', Res(Done, Val.Ptr(ref), st'),
                          Ok(Tree.Ptr(Default(env, e)), r.st.off))
  {
    g' := ObjectStored(env, g1, r.st.mem, ref, e, r.val);
    StoreSpares(g, st, g1, r.st, ref, e, r.val);
  }

  lemma StoreSpares(g: Commons, st: State, g1: Commons, st1: State, ref: Ref, e: Ty, v: Val)
    requires Allocated(st) && Spares(g, st, g1, st1)
    requires if ref in g.objs then g.objs[ref] == e else ref >= st.next && ref !in g1.objs
    ensures Spares(g, st, g1.(objs := g1.objs[ref := e]), st1.(mem := st1.mem.(objs := st1.mem.objs[ref := v])))
  {
  }

  lemma {:induction false} BlankArrayInto(
      env: Env, grow: Grow, e: Ty, p: seq<byte>, st: State, cell: Val, g: Commons)
    returns (g': Commons)
    requires ValidEnv(env) && Supported(env, e) && Blank(env, e) && st.off <= |p|
    requires Allocated(st) && Settled(env, g, st.mem) && Supported(env, Ty.Slice(e)) && Holds(env, g, Ty.Slice(e), cell)
    ensures ElementResult(env, g, Ty.Slice(e), st, g', Into(env, grow, Ty.Slice(e), p, st, cell),
                          Decode(env, Ty.Slice(e), p, st.off))
    decreases |p| - st.off, 0, 0, 0
  {
    if st.off + 2 > |p| {
      g' := g;
    } else {
      var n := Get(p[st.off..st.off + 2]);
      var sl, st1 := if cell.NilSlice? then NilSlice else Val.Slice(cell.arr, 0), st.(off := st.off + 2);
      ZeroHolds(env, g, e);
      var r;
      g', r := BlankElemsInto(env, grow, e, p, st1, Zero(env, e), sl, n, g);
      BlankArrayResult(env, g, e, st, sl, n, g', r);
      BlankElemsDecode(env, e, p, st.off + 2, n);
      assert Usable(st.mem, cell) && Into(env, grow, Ty.Slice(e), p, st, cell) == r;
    }
  }

  lemma BlankArrayResult(env: Env, g: Commons, e: Ty, st: State, sl: Val, n: nat, g': Commons, r: Res)
    requires ValidEnv(env) && Supported(env, Ty.Slice(e)) && Length(sl) == 0
    requires BlankLoopResult(env, g, e, st.(off := st.off + 2), sl, n, g', r)
    ensures ElementResult(env, g, Ty.Slice(e), st, g', r, Ok(Tree.Slice(Copies(Default(env, e), n)), st.off + 2))
  {
  }

  /** What an array loop over blank elements leaves: it appends n of them and reads nothing. */
  ghost predicate BlankLoopResult(env: Env, g: Commons, e: Ty, st: State, sl: Val, n: nat, g': Commons, r: Res)
    requires ValidEnv(env) && Supported(env, Ty.Slice(e))
  {
    && r.status == Done && r.st.off == st.off && Advances(env, g, st, g', r.st)
    && Holds(env, g', Ty.Slice(e), r.val) && Length(r.val) == Length(sl) + n
  }

  lemma BlankRound(env: Env, grow: Grow, e: Ty, g: Commons, st: State, sl: Val, g1: Commons, x: Res, d: Dec<Tree>)
    returns (g2: Commons)
    requires ValidEnv(env) && Supported(env, Ty.Slice(e)) && Blank(env, e) && Allocated(st)
    requires ElementResult(env, g, e, st, g1, x, d) && d == Ok(Default(env, e), st.off)
    requires Holds(env, g, Ty.Slice(e), sl)
    ensures Usable(x.st.mem, sl) && Holds(env, g2, e, x.val)
    ensures var a := Append(grow, e, Zero(env, e), sl, x.val, x.st);
            BlankLoopResult(env, g, e, st, sl, 1, g2, Res(Done, a.0, a.1))
  {
    HoldsMore(env, g, g1, st.next, Ty.Slice(e), sl);
    g2 := AppendAdvances(env, grow, e, g1, x.st, sl, x.val);
    HoldsMore(env, g1, g2, x.st.next, e, x.val);
    SparesThen(g, st, g1, x.st, g2, Append(grow, e, Zero(env, e), sl, x.val, x.st).1);
  }

  lemma BlankLoopStep(
      env: Env, grow: Grow, g: Commons, e: Ty, p: seq<byte>, st: State, cell: Val, sl: Val, n: nat, x: Res,
      a: (Val, State),
      g1: Commons, g2: Commons, r: Res)
    requires ValidEnv(env) && Supported(env, Ty.Slice(e)) && Allocated(st) && n > 0 && st.off <= |p|
    requires x == Into(env, grow, e, p, st, cell) && x.status == Done && Usable(x.st.mem, sl)
    requires a == Append(grow, e, Zero(env, e), sl, x.val, x.st)
    requires BlankLoopResult(env, g, e, st, sl, 1, g1, Res(Done, a.0, a.1))
    requires BlankLoopResult(env, g1, e, a.1, a.0, n - 1, g2, r)
    requires r == ElemsInto(env, grow, e, p, a.1, x.val, a.0, n - 1)
    ensures r == ElemsInto(env, grow, e, p, st, cell, sl, n)
    ensures BlankLoopResult(env, g, e, st, sl, n, g2, r)
  {
    SparesThen(g, st, g1, a.1, g2, r.st);
  }

  lemma {:induction false} BlankElementInto(
      env: Env, grow: Grow, e: Ty, p: seq<byte>, st: State, cell: Val, sl: Val, g: Commons)
    returns (g': Commons, x: Res)
    requires ValidEnv(env) && Supported(env, Ty.Slice(e)) && Blank(env, e) && st.off <= |p|
    requires Allocated(st) && Settled(env, g, st.mem) && Holds(env, g, e, cell) && Holds(env, g, Ty.Slice(e), sl)
    ensures x == Into(env, grow, e, p, st, cell) && x.status == Done && Usable(x.st.mem, sl) && Holds(env, g', e, x.val)
    ensures var a := Append(grow, e, Zero(env, e), sl, x.val, x.st);
            BlankLoopResult(env, g, e, st, sl, 1, g', Res(Done, a.0, a.1))
    decreases |p| - st.off, TyRank(env, e), 1, 2
  {
    BlankIsFlatElement(env, e);
    BlankDecode(env, e, p, st.off);
    x := Into(env, grow, e, p, st, cell);
    var g1 := FlatElementInto(env, grow, e, p, st, cell, g);
    g' := BlankRound(env, grow, e, g, st, sl, g1, x, Decode(env, e, p, st.off));
  }

  lemma {:induction false} BlankElemsInto(
      env: Env, grow: Grow, e: Ty, p: seq<byte>, st: State, cell: Val, sl: Val, n: nat, g: Commons)
    returns (g': Commons, r: Res)
    requires ValidEnv(env) && Supported(env, Ty.Slice(e)) && Blank(env, e) && st.off <= |p|
    requires Allocated(st) && Settled(env, g, st.mem) && Holds(env, g, e, cell) && Holds(env, g, Ty.Slice(e), sl)
    ensures r == ElemsInto(env, grow, e, p, st, cell, sl, n)
    ensures BlankLoopResult(env, g, e, st, sl, n, g', r)
    decreases |p| - st.off, TyRank(env, e) + 1, 0, n
  {
    if n == 0 {
      g', r := g, Res(Done, sl, st);
    } else {
      var g1, x := BlankElementInto(env, grow, e, p, st, cell, sl, g);
      var a := Append(grow, e, Zero(env, e), sl, x.val, x.st);
      g', r := BlankElemsInto(env, grow, e, p, a.1, x.val, a.0, n - 1, g1);
      BlankLoopStep(env, grow, g, e, p, st, cell, sl, n, x, a, g1, g', r);
    }
  }

  /** What decoding the fields from i on, all of flat element types, leaves. */
  ghost predicate SlotsElementResult(
      env: Env, g: Commons, fields: seq<Field>, rank: nat, st: State, slots: seq<Slot>, i: nat, g': Commons,
      r: SlotsRes,
      d: Dec<seq<Tree>>)
    requires ValidEnv(env) && FieldsBelow(env, fields, rank)
  {
    && Agrees(r.status, r.st.off, d)
    && Advances(env, g, st, g', r.st)
    && i <= |slots| == |r.slots|
    && SlotsHold(env, g', fields, r.slots, rank)
    && (forall j :: 0 <= j < i ==> r.slots[j] == slots[j])
    && (d.Ok? ==> SlotsShow(env, g', fields, r.slots, i, d.value, rank))
  }

  lemma SlotsHoldMore(env: Env, g: Commons, g': Commons, next: Ref, fields: seq<Field>, slots: seq<Slot>, rank: nat)
    requires ValidEnv(env) && FieldsBelow(env, fields, rank)
    requires More(g, g', next) && SlotsHold(env, g, fields, slots, rank)
    ensures SlotsHold(env, g', fields, slots, rank)
  {
    forall i | 0 <= i < |fields| && Visited(fields[i].name) ensures Holds(env, g', fields[i].ty, slots[i].val) {
      HoldsMore(env, g, g', next, fields[i].ty, slots[i].val);
    }
  }

  lemma SlotsElementRound(
      env: Env, grow: Grow, g: Commons, fields: seq<Field>, p: seq<byte>, rank: nat, st: State, slots: seq<Slot>,
      i: nat,
      g1: Commons, x: Res, f: Dec<Tree>, g': Commons, r: SlotsRes, d1: Dec<seq<Tree>>)
    returns (d: Dec<seq<Tree>>)
    requires ValidEnv(env) && FieldsBelow(env, fields, rank) && i < |fields| == |slots| && Allocated(st)
    requires st.off <= |p|
    requires Visited(fields[i].name)
    requires x == Into(env, grow, fields[i].ty, p, st, slots[i].val) && f == Decode(env, fields[i].ty, p, st.off)
    requires ElementResult(env, g, fields[i].ty, st, g1, x, f) && f.Ok?
    requires r == SlotsInto(env, grow, fields, p, x.st, slots[i := slots[i].(val := x.val)], i + 1, rank)
    requires d1 == DecodeFields(env, fields[i + 1..], p, f.off, rank)
    requires SlotsElementResult(env, g1, fields, rank, x.st, slots[i := slots[i].(val := x.val)], i + 1, g', r, d1)
    ensures r == SlotsInto(env, grow, fields, p, st, slots, i, rank)
    ensures d == DecodeFields(env, fields[i..], p, st.off, rank)
    ensures SlotsElementResult(env, g, fields, rank, st, slots, i, g', r, d)
  {
    d := SlotsStep(env, grow, fields, p, rank, st, slots, i, x, f);
    SparesThen(g, st, g1, x.st, g', r.st);
    assert r.slots[i] == slots[i].(val := x.val);
    if d1.Ok? {
      ShowsMore(env, g1, g', x.st.next, fields[i].ty, x.val, f.value);
      SlotsShowCons(env, g', fields, r.slots, i, f.value, d1.value, rank);
    }
  }

  lemma SlotsShowCons(
      env: Env, g: Commons, fields: seq<Field>, slots: seq<Slot>, i: nat, t: Tree, ts: seq<Tree>, rank: nat)
    requires ValidEnv(env) && FieldsBelow(env, fields, rank) && i < |fields| == |slots|
    requires Visited(fields[i].name) && slots[i].name == fields[i].name
    requires Shows(env, g, fields[i].ty, slots[i].val, t) && SlotsShow(env, g, fields, slots, i + 1, ts, rank)
    ensures SlotsShow(env, g, fields, slots, i, [t] + ts, rank)
  {
  }

  /** One round of both field loops. */
  lemma SlotsStep(
      env: Env, grow: Grow, fields: seq<Field>, p: seq<byte>, rank: nat, st: State, slots: seq<Slot>, i: nat, x: Res,
      f: Dec<Tree>)
    returns (d: Dec<seq<Tree>>)
    requires ValidEnv(env) && FieldsBelow(env, fields, rank) && i < |fields| == |slots| && st.off <= |p|
    requires Visited(fields[i].name)
    requires x == Into(env, grow, fields[i].ty, p, st, slots[i].val) && f == Decode(env, fields[i].ty, p, st.off)
    requires x.status == Done && f.Ok?
    ensures SlotsInto(env, grow, fields, p, st, slots, i, rank) ==
            SlotsInto(env, grow, fields, p, x.st, slots[i := slots[i].(val := x.val)], i + 1, rank)
    ensures d == DecodeFields(env, fields[i..], p, st.off, rank)
    ensures var d1 := DecodeFields(env, fields[i + 1..], p, f.off, rank);
            d == if d1.Ok? then Ok([f.value] + d1.value, d1.off) else d1
  {
    assert fields[i..][0] == fields[i] && fields[i..][1..] == fields[i + 1..];
    d := DecodeFields(env, fields[i..], p, st.off, rank);
  }

  lemma SlotsElementHidden(
      env: Env, grow: Grow, g: Commons, fields: seq<Field>, p: seq<byte>, rank: nat, st: State, slots: seq<Slot>,
      i: nat,
      g': Commons, r: SlotsRes, d1: Dec<seq<Tree>>)
    returns (d: Dec<seq<Tree>>)
    requires ValidEnv(env) && FieldsBelow(env, fields, rank) && i < |fields| == |slots| && st.off <= |p|
    requires !Visited(fields[i].name) && r == SlotsInto(env, grow, fields, p, st, slots, i + 1, rank)
    requires d1 == DecodeFields(env, fields[i + 1..], p, st.off, rank)
    requires SlotsElementResult(env, g, fields, rank, st, slots, i + 1, g', r, d1)
    ensures r == SlotsInto(env, grow, fields, p, st, slots, i, rank)
    ensures d == DecodeFields(env, fields[i..], p, st.off, rank)
    ensures SlotsElementResult(env, g, fields, rank, st, slots, i, g', r, d)
  {
    assert fields[i..][0] == fields[i] && fields[i..][1..] == fields[i + 1..];
    d := if d1.Ok? then Ok([Hidden] + d1.value, d1.off) else d1;
  }

  lemma SlotsElementFails(
      env: Env, grow: Grow, g: Commons, fields: seq<Field>, p: seq<byte>, rank: nat, st: State, slots: seq<Slot>,
      i: nat,
      g1: Commons, x: Res, f: Dec<Tree>)
    returns (r: SlotsRes, d: Dec<seq<Tree>>)
    requires ValidEnv(env) && FieldsBelow(env, fields, rank) && i < |fields| == |slots| && st.off <= |p|
    requires Visited(fields[i].name)
    requires x == Into(env, grow, fields[i].ty, p, st, slots[i].val) && f == Decode(env, fields[i].ty, p, st.off)
    requires ElementResult(env, g, fields[i].ty, st, g1, x, f) && f.Fail?
    requires SlotsHold(env, g1, fields, slots, rank)
    ensures r == SlotsInto(env, grow, fields, p, st, slots, i, rank)
    ensures d == DecodeFields(env, fields[i..], p, st.off, rank)
    ensures SlotsElementResult(env, g, fields, rank, st, slots, i, g1, r, d)
  {
    assert fields[i..][0] == fields[i];
    r, d := SlotsRes(x.status, slots[i := slots[i].(val := x.val)], x.st), Fail(f.off);
  }

  lemma {:induction false} FlatElementSlotsInto(
      env: Env, grow: Grow, fields: seq<Field>, p: seq<byte>, st: State, slots: seq<Slot>, i: nat, rank: nat,
      g: Commons)
    returns (g': Commons, r: SlotsRes, d: Dec<seq<Tree>>)
    requires ValidEnv(env) && st.off <= |p| && i <= |fields|
    requires FieldsBelow(env, fields, rank)
    requires forall i :: 0 <= i < |fields| && Visited(fields[i].name) ==> FlatElement(env, fields[i].ty)
    requires Allocated(st) && Settled(env, g, st.mem) && SlotsHold(env, g, fields, slots, rank)
    ensures r == SlotsInto(env, grow, fields, p, st, slots, i, rank)
    ensures d == DecodeFields(env, fields[i..], p, st.off, rank)
    ensures SlotsElementResult(env, g, fields, rank, st, slots, i, g', r, d)
    decreases |p| - st.off, rank, 0, 2 * (|fields| - i) + 1
  {
    if i == |fields| {
      g', r, d := g, SlotsRes(Done, slots, st), Ok([], st.off);
    } else if !Visited(fields[i].name) {
      g', r, d := FlatElementSlotsInto(env, grow, fields, p, st, slots, i + 1, rank, g);
      d := SlotsElementHidden(env, grow, g, fields, p, rank, st, slots, i, g', r, d);
    } else {
      g', r, d := FlatElementSlotInto(env, grow, fields, p, st, slots, i, rank, g);
    }
  }

  lemma {:induction false} FlatElementSlotInto(
      env: Env, grow: Grow, fields: seq<Field>, p: seq<byte>, st: State, slots: seq<Slot>, i: nat, rank: nat,
      g: Commons)
    returns (g': Commons, r: SlotsRes, d: Dec<seq<Tree>>)
    requires ValidEnv(env) && st.off <= |p| && i < |fields| && Visited(fields[i].name)
    requires FieldsBelow(env, fields, rank)
    requires forall i :: 0 <= i < |fields| && Visited(fields[i].name) ==> FlatElement(env, fields[i].ty)
    requires Allocated(st) && Settled(env, g, st.mem) && SlotsHold(env, g, fields, slots, rank)
    ensures r == SlotsInto(env, grow, fields, p, st, slots, i, rank)
    ensures d == DecodeFields(env, fields[i..], p, st.off, rank)
    ensures SlotsElementResult(env, g, fields, rank, st, slots, i, g', r, d)
    decreases |p| - st.off, rank, 0, 2 * (|fields| - i)
  {
    var x, f := Into(env, grow, fields[i].ty, p, st, slots[i].val), Decode(env, fields[i].ty, p, st.off);
    g' := FlatElementInto(env, grow, fields[i].ty, p, st, slots[i].val, g);
    SlotsHoldMore(env, g, g', st.next, fields, slots, rank);
    if f.Ok? {
      var g1, slots' := g', slots[i := slots[i].(val := x.val)];
      g', r, d := FlatElementSlotsInto(env, grow, fields, p, x.st, slots', i + 1, rank, g1);
      d := SlotsElementRound(env, grow, g, fields, p, rank, st, slots, i, g1, x, f, g', r, d);
    } else {
      r, d := SlotsElementFails(env, grow, g, fields, p, rank, st, slots, i, g', x, f);
    }
  }

  // ---- The array loop ----

  /** What lies outside the room there is for changes has been left alone. */
  ghost predicate Keeps(m: Mem, m': Mem, room: iset<Ref>) {
    && (forall r :: r in m.objs && r !in room ==> r in m'.objs && m'.objs[r] == m.objs[r])
    && (forall a :: a in m.arrays && a !in room ==> a in m'.arrays && m'.arrays[a] == m.arrays[a])
  }

  /** There is room for whatever is yet to be handed out. */
  ghost predicate Open(room: iset<Ref>, next: Ref) {
    forall r: Ref :: r >= next ==> r in room
  }

  /** Everything in the commons lies within the room. */
  ghost predicate From(g: Commons, room: iset<Ref>) {
    (forall r :: r in g.objs ==> r in room) && forall a :: a in g.elems ==> a in room
  }

  /** vals is before with one value for each of ts appended. */
  ghost predicate Appended(env: Env, g: Commons, e: Ty, before: seq<Val>, ts: seq<Tree>, vals: seq<Val>)
    requires ValidEnv(env) && Supported(env, e)
  {
    && |vals| == |before| + |ts|
    && (forall i :: 0 <= i < |before| ==> vals[i] == before[i])
    && (forall i :: 0 <= i < |ts| ==> Shows(env, g, e, vals[|before| + i], ts[i]))
  }

  lemma AppendedCons(env: Env, g: Commons, e: Ty, before: seq<Val>, x: Val, t: Tree, ts: seq<Tree>, vals: seq<Val>)
    requires ValidEnv(env) && Supported(env, e)
    requires Shows(env, g, e, x, t) && Appended(env, g, e, before + [x], ts, vals)
    ensures Appended(env, g, e, before, [t] + ts, vals)
  {
    forall i | 0 <= i < |ts| + 1 ensures Shows(env, g, e, vals[|before| + i], ([t] + ts)[i]) {
      if i == 0 {
        assert vals[|before|] == (before + [x])[|before|];
      } else {
        assert vals[|before + [x]| + (i - 1)] == vals[|before| + i];
      }
    }
  }

  /** A slice that the loop appends to: one there is room in, and none that the cell shares. */
  ghost predicate Own(g: Commons, room: iset<Ref>, m: Mem, sl: Val) {
    Usable(m, sl) && (sl.Slice? ==> sl.arr in room && sl.arr !in g.elems)
  }

  /** What an array loop does, as seen from outside: it only ever touches memory within the room. */
  ghost predicate LoopFrame(env: Env, g: Commons, st: State, room: iset<Ref>, g': Commons, st': State)
    requires ValidEnv(env)
  {
    && Allocated(st') && st.next <= st'.next && Keeps(st.mem, st'.mem, room)
    && Settled(env, g', st'.mem) && From(g', room) && More(g, g', 0)
  }

  /** And the elements decoded have been appended to what the slice held. */
  ghost predicate LoopResult(
      env: Env, e: Ty, g: Commons, st: State, sl: Val, room: iset<Ref>, g': Commons, r: Res, d: Dec<seq<Tree>>)
    requires ValidEnv(env) && Supported(env, e) && Usable(st.mem, sl)
  {
    && Agrees(r.status, r.st.off, d)
    && LoopFrame(env, g, st, room, g', r.st)
    && Own(g', room, r.st.mem, r.val)
    && (d.Ok? ==> Appended(env, g', e, Contents(st.mem, sl), d.value, Contents(r.st.mem, r.val)))
  }

  /** One round up to the append: an element has been decoded, and the slice is still none that a cell shares. */
  ghost predicate RoundResult(
      env: Env, e: Ty, g: Commons, st: State, sl: Val, room: iset<Ref>, g1: Commons, x: Res, t: Dec<Tree>)
    requires ValidEnv(env) && Supported(env, e)
  {
    && Allocated(st) && Open(room, st.next) && Usable(st.mem, sl)
    && ElementResult(env, g, e, st, g1, x, t) && From(g, room) && From(g1, room)
    && Own(g1, room, x.st.mem, sl) && Contents(x.st.mem, sl) == Contents(st.mem, sl)
  }

  /** What the loop keeps true of its cell, its slice and the memory. */
  ghost predicate LoopReady(env: Env, e: Ty, g: Commons, st: State, cell: Val, sl: Val, room: iset<Ref>)
    requires ValidEnv(env) && Supported(env, e)
  {
    && Allocated(st) && Settled(env, g, st.mem) && From(g, room) && Holds(env, g, e, cell)
    && Open(room, st.next) && Own(g, room, st.mem, sl)
  }

  /** x is what decoding an element does in place, and t what it does into a fresh variable. */
  ghost predicate Element(env: Env, grow: Grow, e: Ty, p: seq<byte>, st: State, cell: Val, x: Res, t: Dec<Tree>)
    requires ValidEnv(env) && Supported(env, e) && st.off <= |p|
  {
    x == Into(env, grow, e, p, st, cell) && t == Decode(env, e, p, st.off)
  }

  type Outcome = (Res, Dec<seq<Tree>>)

  /** What the array loop does in place, and what it does into fresh variables. */
  ghost function Loops(env: Env, grow: Grow, e: Ty, p: seq<byte>, st: State, cell: Val, sl: Val, n: nat): Outcome
    requires ValidEnv(env) && Supported(env, e) && st.off <= |p|
  {
    (ElemsInto(env, grow, e, p, st, cell, sl, n), DecodeElems(env, e, p, st.off, n))
  }

  lemma RoundInto(
      env: Env, grow: Grow, e: Ty, p: seq<byte>, st: State, cell: Val, sl: Val, room: iset<Ref>, g: Commons)
    returns (g1: Commons, x: Res, t: Dec<Tree>)
    requires ValidEnv(env) && Supported(env, e) && FlatElement(env, e) && st.off <= |p|
    requires LoopReady(env, e, g, st, cell, sl, room)
    ensures Element(env, grow, e, p, st, cell, x, t) && RoundResult(env, e, g, st, sl, room, g1, x, t)
  {
    g1 := FlatElementInto(env, grow, e, p, st, cell, g);
    x, t := Into(env, grow, e, p, st, cell), Decode(env, e, p, st.off);
    OwnStays(g, st, g1, x.st, sl, room);
  }

  lemma OwnStays(g: Commons, st: State, g': Commons, st': State, sl: Val, room: iset<Ref>)
    requires Allocated(st) && From(g, room) && Open(room, st.next) && Own(g, room, st.mem, sl) && Spares(g, st, g', st')
    ensures From(g', room) && Own(g', room, st'.mem, sl) && Contents(st'.mem, sl) == Contents(st.mem, sl)
  {
  }

  /** Appending to a slice of its own changes nothing that a cell leads to. */
  lemma AppendSettled(env: Env, grow: Grow, e: Ty, zero: Val, g: Commons, st: State, sl: Val, x: Val)
    requires ValidEnv(env) && Allocated(st) && Settled(env, g, st.mem)
    requires Usable(st.mem, sl) && (sl.Slice? ==> sl.arr !in g.elems)
    ensures var a := Append(grow, e, zero, sl, x, st);
            Allocated(a.1) && Settled(env, g, a.1.mem) && a.0.Slice? && a.0.arr !in g.elems
  {
  }

  lemma AppendOwn(
      env: Env, grow: Grow, e: Ty, g: Commons, st: State, sl: Val, room: iset<Ref>, g1: Commons, x: Res, t: Dec<Tree>)
    returns (sl1: Val, st1: State)
    requires ValidEnv(env) && Supported(env, e) && RoundResult(env, e, g, st, sl, room, g1, x, t)
    ensures (sl1, st1) == Append(grow, e, Zero(env, e), sl, x.val, x.st)
    ensures LoopReady(env, e, g1, st1, x.val, sl1, room) && st1.off == t.off
  {
    var (sl', st') := Append(grow, e, Zero(env, e), sl, x.val, x.st);
    sl1, st1 := sl', st';
    AppendSettled(env, grow, e, Zero(env, e), g1, x.st, sl, x.val);
  }

  /**
   * The loop over the reused cell, with in-place appends of shallow copies, refines decoding every element into a
   * variable of its own.
   */
  lemma {:induction false} FlatElemsInto(
      env: Env, grow: Grow, e: Ty, p: seq<byte>, st: State, cell: Val, sl: Val, n: nat, room: iset<Ref>, g: Commons)
    returns (g': Commons, l: Outcome)
    requires ValidEnv(env) && Supported(env, e) && FlatElement(env, e) && st.off <= |p|
    requires LoopReady(env, e, g, st, cell, sl, room)
    ensures l == Loops(env, grow, e, p, st, cell, sl, n) && LoopResult(env, e, g, st, sl, room, g', l.0, l.1)
    decreases n, 0
  {
    if n == 0 {
      g' := g;
      l := LoopNone(env, grow, e, p, g, st, cell, sl, room);
    } else {
      var g1, x, t := RoundInto(env, grow, e, p, st, cell, sl, room, g);
      if t.Ok? {
        g', l := FlatElemsNext(env, grow, e, p, st, cell, sl, n, room, g, g1, x, t);
      } else {
        g' := g1;
        l := LoopEnds(env, grow, e, p, cell, g, st, sl, n, room, g1, x, t);
      }
    }
  }

  /** The rounds from a successful one on. */
  lemma {:induction false} FlatElemsNext(
      env: Env, grow: Grow, e: Ty, p: seq<byte>, st: State, cell: Val, sl: Val, n: nat, room: iset<Ref>, g: Commons,
      g1: Commons, x: Res, t: Dec<Tree>)
    returns (g': Commons, l: Outcome)
    requires ValidEnv(env) && Supported(env, e) && FlatElement(env, e) && st.off <= |p| && n > 0
    requires Element(env, grow, e, p, st, cell, x, t) && RoundResult(env, e, g, st, sl, room, g1, x, t) && t.Ok?
    ensures l == Loops(env, grow, e, p, st, cell, sl, n) && LoopResult(env, e, g, st, sl, room, g', l.0, l.1)
    decreases n - 1, 1
  {
    var sl1, st1 := AppendOwn(env, grow, e, g, st, sl, room, g1, x, t);
    var k: nat := n - 1;
    var l1;
    g', l1 := FlatElemsInto(env, grow, e, p, st1, x.val, sl1, k, room, g1);
    l := LoopStep(env, grow, e, p, cell, g, st, sl, n, k, room, g1, x, t, sl1, st1, g', l1);
  }

  lemma LoopNone(env: Env, grow: Grow, e: Ty, p: seq<byte>, g: Commons, st: State, cell: Val, sl: Val, room: iset<Ref>)
    returns (l: Outcome)
    requires ValidEnv(env) && Supported(env, e) && st.off <= |p| && LoopReady(env, e, g, st, cell, sl, room)
    ensures l == Loops(env, grow, e, p, st, cell, sl, 0) && LoopResult(env, e, g, st, sl, room, g, l.0, l.1)
  {
    l := (Res(Done, sl, st), Ok([], st.off));
  }

  lemma LoopStep(
      env: Env, grow: Grow, e: Ty, p: seq<byte>, cell: Val, g: Commons, st: State, sl: Val, n: nat, k: nat,
      room: iset<Ref>, g1: Commons, x: Res, t: Dec<Tree>, sl1: Val, st1: State, g': Commons, l1: Outcome)
    returns (l: Outcome)
    requires ValidEnv(env) && Supported(env, e) && st.off <= |p| && n == k + 1
    requires Element(env, grow, e, p, st, cell, x, t)
    requires RoundResult(env, e, g, st, sl, room, g1, x, t) && t.Ok? && st1.off <= |p|
    requires (sl1, st1) == Append(grow, e, Zero(env, e), sl, x.val, x.st)
    requires l1 == Loops(env, grow, e, p, st1, x.val, sl1, k) && LoopResult(env, e, g1, st1, sl1, room, g', l1.0, l1.1)
    ensures l == Loops(env, grow, e, p, st, cell, sl, n) && LoopResult(env, e, g, st, sl, room, g', l.0, l.1)
  {
    l := ElemsStep(env, grow, e, p, st, cell, sl, n, k, x, t, sl1, st1, l1);
    RoundFrame(env, grow, e, g, st, sl, room, g1, x, t, g', l.0.st);
    if l.1.Ok? {
      ShowsMore(env, g1, g', 0, e, x.val, t.value);
      AppendedCons(env, g', e, Contents(st.mem, sl), x.val, t.value, l1.1.value, Contents(l.0.st.mem, l.0.val));
    }
  }

  /** One round of both loops. */
  lemma ElemsStep(
      env: Env, grow: Grow, e: Ty, p: seq<byte>, st: State, cell: Val, sl: Val, n: nat, k: nat, x: Res, t: Dec<Tree>,
      sl1: Val, st1: State, l1: Outcome)
    returns (l: Outcome)
    requires ValidEnv(env) && Supported(env, e) && st.off <= |p| && n == k + 1
    requires Element(env, grow, e, p, st, cell, x, t)
    requires x.status == Done && Usable(x.st.mem, sl) && t.Ok? && t.off == x.st.off && st1.off <= |p|
    requires (sl1, st1) == Append(grow, e, Zero(env, e), sl, x.val, x.st)
    requires l1 == Loops(env, grow, e, p, st1, x.val, sl1, k)
    ensures l == Loops(env, grow, e, p, st, cell, sl, n)
    ensures l.0 == l1.0 && l.1 == if l1.1.Ok? then Ok([t.value] + l1.1.value, l1.1.off) else l1.1
  {
    l := Loops(env, grow, e, p, st, cell, sl, n);
  }

  lemma SparesKeeps(g: Commons, st: State, g': Commons, st': State, room: iset<Ref>)
    requires From(g, room) && Spares(g, st, g', st')
    ensures Keeps(st.mem, st'.mem, room)
  {
  }

  lemma AppendKeeps(grow: Grow, e: Ty, zero: Val, sl: Val, x: Val, st: State, room: iset<Ref>)
    requires Usable(st.mem, sl) && Open(room, st.next) && (sl.Slice? ==> sl.arr in room)
    ensures var st' := Append(grow, e, zero, sl, x, st).1; Keeps(st.mem, st'.mem, room) && st.next <= st'.next
  {
  }

  lemma RoundFrame(
      env: Env, grow: Grow, e: Ty, g: Commons, st: State, sl: Val, room: iset<Ref>, g1: Commons, x: Res, t: Dec<Tree>,
      g': Commons, st': State)
    requires ValidEnv(env) && Supported(env, e) && RoundResult(env, e, g, st, sl, room, g1, x, t)
    requires LoopFrame(env, g1, Append(grow, e, Zero(env, e), sl, x.val, x.st).1, room, g', st')
    ensures LoopFrame(env, g, st, room, g', st')
  {
    SparesKeeps(g, st, g1, x.st, room);
    AppendKeeps(grow, e, Zero(env, e), sl, x.val, x.st, room);
  }

  lemma LoopEnds(
      env: Env, grow: Grow, e: Ty, p: seq<byte>, cell: Val, g: Commons, st: State, sl: Val, n: nat,
      room: iset<Ref>, g1: Commons, x: Res, t: Dec<Tree>)
    returns (l: Outcome)
    requires ValidEnv(env) && Supported(env, e) && n > 0 && st.off <= |p|
    requires Element(env, grow, e, p, st, cell, x, t)
    requires RoundResult(env, e, g, st, sl, room, g1, x, t) && t.Fail?
    ensures l == Loops(env, grow, e, p, st, cell, sl, n) && LoopResult(env, e, g, st, sl, room, g1, l.0, l.1)
  {
    l := (Res(x.status, sl, x.st), Fail(t.off));
    SparesKeeps(g, st, g1, x.st, room);
  }
}
