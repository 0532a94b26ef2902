/** Which memory a decode touches: what it was handed, what that leads to, and what it allocates. */
module Footprint {
  import opened LittleEndian
  import opened GoMemory
  import opened Decoder

  // ---- Memory only grows ----

  /** Nothing is freed, no backing array shrinks, and references are handed out in order. */
  ghost predicate Grows(st: State, st': State) {
    && st.next <= st'.next
    && (forall r :: r in st.mem.objs ==> r in st'.mem.objs)
    && (forall a :: a in st.mem.arrays ==> a in st'.mem.arrays && |st.mem.arrays[a]| <= |st'.mem.arrays[a]|)
    && Allocated(st')
  }

  lemma {:induction false} IntoGrows(env: Env, grow: Grow, ty: Ty, p: seq<byte>, st: State, cell: Val)
    requires ValidEnv(env) && Supported(env, ty) && st.off <= |p|
    requires Allocated(st)
    ensures Grows(st, Into(env, grow, ty, p, st, cell).st)
    decreases |p| - st.off, TyRank(env, ty), 1, 0
  {
    match ty
    case Struct(n) =>
      if cell.Struct? && |cell.slots| == |env.structs[n]| {
        SlotsIntoGrows(env, grow, env.structs[n], p, st, cell.slots, 0, env.rank[n]);
      }
    case Slice(e) =>
      if st.off + 2 <= |p| && Usable(st.mem, cell) {
        ElemsIntoGrows(env, grow, e, p, st.(off := st.off + 2), Zero(env, e),
                       if cell.NilSlice? then NilSlice else Val.Slice(cell.arr, 0), Get(p[st.off..st.off + 2]));
      }
    case Ptr(e) =>
      if cell.NilPtr? {
        PointeeIntoGrows(env, grow, e, p, Allocate(st, Zero(env, e)), st.next);
      } else if cell.Ptr? && cell.ref in st.mem.objs {
        PointeeIntoGrows(env, grow, e, p, st, cell.ref);
      }
    case _ =>
  }

  lemma {:induction false} PointeeIntoGrows(env: Env, grow: Grow, e: Ty, p: seq<byte>, st: State, ref: Ref)
    requires ValidEnv(env) && Supported(env, e) && st.off <= |p| && ref in st.mem.objs
    requires Allocated(st)
    ensures Grows(st, PointeeInto(env, grow, e, p, st, ref).st)
    decreases |p| - st.off, TyRank(env, e), 2, 0
  {
    if !e.Bytes? {
      IntoGrows(env, grow, e, p, st, st.mem.objs[ref]);
    }
  }

  lemma {:induction false} SlotsIntoGrows(
      env: Env, grow: Grow, fields: seq<Field>, p: seq<byte>, st: State, slots: seq<Slot>, i: nat, rank: nat)
    requires ValidEnv(env) && st.off <= |p| && i <= |fields| == |slots|
    requires FieldsBelow(env, fields, rank)
    requires Allocated(st)
    ensures Grows(st, SlotsInto(env, grow, fields, p, st, slots, i, rank).st)
    decreases |p| - st.off, rank, 0, |fields| - i
  {
    if i < |fields| {
      if !Visited(fields[i].name) {
        SlotsIntoGrows(env, grow, fields, p, st, slots, i + 1, rank);
      } else {
        IntoGrows(env, grow, fields[i].ty, p, st, slots[i].val);
        var r := Into(env, grow, fields[i].ty, p, st, slots[i].val);
        if r.status == Done {
          SlotsIntoGrows(env, grow, fields, p, r.st, slots[i := slots[i].(val := r.val)], i + 1, rank);
        }
      }
    }
  }

  lemma {:induction false} ElemsIntoGrows(
      env: Env, grow: Grow, e: Ty, p: seq<byte>, st: State, cell: Val, sl: Val, n: nat)
    requires ValidEnv(env) && Supported(env, e) && st.off <= |p|
    requires Allocated(st)
    ensures Grows(st, ElemsInto(env, grow, e, p, st, cell, sl, n).st)
    decreases |p| - st.off, TyRank(env, e) + 1, 0, n
  {
    if n > 0 {
      IntoGrows(env, grow, e, p, st, cell);
      var r := Into(env, grow, e, p, st, cell);
      if r.status == Done && Usable(r.st.mem, sl) {
        var (sl', st') := Append(grow, e, Zero(env, e), sl, r.val, r.st);
        AppendGrows(grow, e, Zero(env, e), sl, r.val, r.st);
        ElemsIntoGrows(env, grow, e, p, st', r.val, sl', n - 1);
      }
    }
  }

  lemma AppendGrows(grow: Grow, e: Ty, zero: Val, sl: Val, x: Val, st: State)
    requires Usable(st.mem, sl)
    requires Allocated(st)
    ensures Grows(st, Append(grow, e, zero, sl, x, st).1)
  {
  }

  lemma {:induction false} SlotsIntoKeeps(
      env: Env, grow: Grow, fields: seq<Field>, p: seq<byte>, st: State, slots: seq<Slot>, j: nat, rank: nat, i: nat)
    requires ValidEnv(env) && st.off <= |p| && i < j <= |fields| == |slots| && FieldsBelow(env, fields, rank)
    ensures SlotsInto(env, grow, fields, p, st, slots, j, rank).slots[i] == slots[i]
    decreases |fields| - j
  {
    if j < |fields| {
      if !Visited(fields[j].name) {
        SlotsIntoKeeps(env, grow, fields, p, st, slots, j + 1, rank, i);
      } else {
        var r := Into(env, grow, fields[j].ty, p, st, slots[j].val);
        if r.status == Done {
          SlotsIntoKeeps(env, grow, fields, p, r.st, slots[j := slots[j].(val := r.val)], j + 1, rank, i);
        }
      }
    }
  }

  // ---- What cannot be reached is not touched ----

  /** v mentions no reference in s. */
  ghost predicate Apart(v: Val, s: iset<Ref>) {
    match v
    case Struct(slots) => forall i :: 0 <= i < |slots| ==> Apart(slots[i].val, s)
    case Slice(arr, _) => arr !in s
    case Ptr(ref) => ref !in s
    case _ => true
  }

  ghost predicate AllApart(vals: seq<Val>, s: iset<Ref>) {
    forall i :: 0 <= i < |vals| ==> Apart(vals[i], s)
  }

  /** No path leads into s: memory outside s mentions nothing of s. */
  ghost predicate Sealed(m: Mem, s: iset<Ref>) {
    && (forall r :: r in m.objs && r !in s ==> Apart(m.objs[r], s))
    && (forall a :: a in m.arrays && a !in s ==> AllApart(m.arrays[a], s))
  }

  /** The objects and arrays of s are the same in m and m'. */
  ghost predicate SameOn(m: Mem, m': Mem, s: iset<Ref>) {
    && (forall r :: r in s ==> (r in m.objs <==> r in m'.objs) && (r in m.objs ==> m.objs[r] == m'.objs[r]))
    && (forall a :: a in s ==> (a in m.arrays <==> a in m'.arrays) && (a in m.arrays ==> m.arrays[a] == m'.arrays[a]))
  }

  /** None of s is handed out while next moves from lo to hi. */
  ghost predicate Skips(s: iset<Ref>, lo: Ref, hi: Ref) {
    forall b :: b in s ==> b < lo || b >= hi
  }

  /** A step from st to st' that leaves value v stayed clear of s. */
  ghost predicate Clear(st: State, st': State, v: Val, s: iset<Ref>) {
    Sealed(st'.mem, s) && Apart(v, s) && SameOn(st.mem, st'.mem, s)
  }

  lemma {:induction false} ZeroApart(env: Env, ty: Ty, s: iset<Ref>)
    requires ValidEnv(env) && Supported(env, ty)
    ensures Apart(Zero(env, ty), s)
    decreases TyRank(env, ty), 1, 0
  {
    match ty
    case Struct(n) => ZeroSlotsApart(env, env.structs[n], env.rank[n], s);
    case _ =>
  }

  lemma {:induction false} ZeroSlotsApart(env: Env, fields: seq<Field>, rank: nat, s: iset<Ref>)
    requires ValidEnv(env) && FieldsBelow(env, fields, rank)
    ensures forall i :: 0 <= i < |fields| ==> Apart(ZeroSlots(env, fields, rank)[i].val, s)
    decreases rank, 0, |fields|
  {
    if fields != [] {
      if Visited(fields[0].name) {
        ZeroApart(env, fields[0].ty, s);
      }
      ZeroSlotsApart(env, fields[1..], rank, s);
    }
  }

  /** A decode touches nothing it cannot reach from its variable. */
  lemma {:induction false} IntoClear(
      env: Env, grow: Grow, ty: Ty, p: seq<byte>, st: State, cell: Val, s: iset<Ref>)
    requires ValidEnv(env) && Supported(env, ty) && st.off <= |p|
    requires Allocated(st) && Sealed(st.mem, s) && Apart(cell, s)
    requires Skips(s, st.next, Into(env, grow, ty, p, st, cell).st.next)
    ensures var r := Into(env, grow, ty, p, st, cell); Clear(st, r.st, r.val, s)
    decreases |p| - st.off, TyRank(env, ty), 1, 0
  {
    match ty
    case Struct(n) =>
      if cell.Struct? && |cell.slots| == |env.structs[n]| {
        SlotsIntoClear(env, grow, env.structs[n], p, st, cell.slots, 0, env.rank[n], s);
      }
    case Slice(e) =>
      if st.off + 2 <= |p| && Usable(st.mem, cell) {
        ZeroApart(env, e, s);
        ElemsIntoClear(env, grow, e, p, st.(off := st.off + 2), Zero(env, e),
                       if cell.NilSlice? then NilSlice else Val.Slice(cell.arr, 0), Get(p[st.off..st.off + 2]), s);
      }
    case Ptr(e) =>
      if cell.NilPtr? {
        ZeroApart(env, e, s);
        PointeeIntoGrows(env, grow, e, p, Allocate(st, Zero(env, e)), st.next);
        PointeeIntoClear(env, grow, e, p, Allocate(st, Zero(env, e)), st.next, s);
      } else if cell.Ptr? && cell.ref in st.mem.objs {
        PointeeIntoClear(env, grow, e, p, st, cell.ref, s);
      }
    case _ =>
  }

  lemma {:induction false} PointeeIntoClear(
      env: Env, grow: Grow, e: Ty, p: seq<byte>, st: State, ref: Ref, s: iset<Ref>)
    requires ValidEnv(env) && Supported(env, e) && st.off <= |p| && ref in st.mem.objs
    requires Allocated(st) && Sealed(st.mem, s) && ref !in s
    requires Skips(s, st.next, PointeeInto(env, grow, e, p, st, ref).st.next)
    ensures var r := PointeeInto(env, grow, e, p, st, ref); Clear(st, r.st, r.val, s)
    decreases |p| - st.off, TyRank(env, e), 2, 0
  {
    if !e.Bytes? {
      IntoClear(env, grow, e, p, st, st.mem.objs[ref], s);
    }
  }

  ghost predicate SlotsApart(slots: seq<Slot>, i: nat, s: iset<Ref>) {
    forall k :: i <= k < |slots| ==> Apart(slots[k].val, s)
  }

  lemma {:induction false} SlotsIntoClear(
      env: Env, grow: Grow, fields: seq<Field>, p: seq<byte>, st: State, slots: seq<Slot>, i: nat, rank: nat,
      s: iset<Ref>)
    requires ValidEnv(env) && st.off <= |p| && i <= |fields| == |slots|
    requires FieldsBelow(env, fields, rank)
    requires Allocated(st) && Sealed(st.mem, s) && SlotsApart(slots, i, s)
    requires Skips(s, st.next, SlotsInto(env, grow, fields, p, st, slots, i, rank).st.next)
    ensures var r := SlotsInto(env, grow, fields, p, st, slots, i, rank);
            Sealed(r.st.mem, s) && SlotsApart(r.slots, i, s) && SameOn(st.mem, r.st.mem, s)
    decreases |p| - st.off, rank, 0, |fields| - i
  {
    if i < |fields| {
      if !Visited(fields[i].name) {
        SlotsIntoKeeps(env, grow, fields, p, st, slots, i + 1, rank, i);
        SlotsIntoClear(env, grow, fields, p, st, slots, i + 1, rank, s);
      } else {
        var r := Into(env, grow, fields[i].ty, p, st, slots[i].val);
        var slots' := slots[i := slots[i].(val := r.val)];
        IntoGrows(env, grow, fields[i].ty, p, st, slots[i].val);
        if r.status == Done {
          SlotsIntoGrows(env, grow, fields, p, r.st, slots', i + 1, rank);
        }
        IntoClear(env, grow, fields[i].ty, p, st, slots[i].val, s);
        assert SlotsApart(slots', i, s);
        if r.status == Done {
          SlotsIntoKeeps(env, grow, fields, p, r.st, slots', i + 1, rank, i);
          SlotsIntoClear(env, grow, fields, p, r.st, slots', i + 1, rank, s);
        }
      }
    }
  }

  lemma {:induction false} ElemsIntoClear(
      env: Env, grow: Grow, e: Ty, p: seq<byte>, st: State, cell: Val, sl: Val, n: nat, s: iset<Ref>)
    requires ValidEnv(env) && Supported(env, e) && st.off <= |p|
    requires Allocated(st) && Sealed(st.mem, s) && Apart(cell, s) && Apart(sl, s)
    requires Skips(s, st.next, ElemsInto(env, grow, e, p, st, cell, sl, n).st.next)
    ensures var r := ElemsInto(env, grow, e, p, st, cell, sl, n); Clear(st, r.st, r.val, s)
    decreases |p| - st.off, TyRank(env, e) + 1, 0, n
  {
    if n > 0 {
      RoundSkips(env, grow, e, p, st, cell, sl, n, s);
      IntoClear(env, grow, e, p, st, cell, s);
      var r := Into(env, grow, e, p, st, cell);
      if r.status == Done && Usable(r.st.mem, sl) {
        RoundClear(grow, e, Zero(env, e), sl, st, r, s) by { ZeroApart(env, e, s); }
        var (sl', st') := Append(grow, e, Zero(env, e), sl, r.val, r.st);
        ElemsIntoClear(env, grow, e, p, st', r.val, sl', n - 1, s);
        ClearThen(st, st', sl', ElemsInto(env, grow, e, p, st', r.val, sl', n - 1), s);
      }
    }
  }

  /** What a round of the loop and the rounds after it hand out. */
  lemma RoundSkips(
      env: Env, grow: Grow, e: Ty, p: seq<byte>, st: State, cell: Val, sl: Val, n: nat, s: iset<Ref>)
    requires ValidEnv(env) && Supported(env, e) && st.off <= |p| && n > 0 && Allocated(st)
    requires Skips(s, st.next, ElemsInto(env, grow, e, p, st, cell, sl, n).st.next)
    ensures var r := Into(env, grow, e, p, st, cell);
            && Skips(s, st.next, r.st.next)
            && (r.status == Done && Usable(r.st.mem, sl) ==>
                  var (sl', st') := Append(grow, e, Zero(env, e), sl, r.val, r.st);
                  && Skips(s, r.st.next, st'.next) && Allocated(st')
                  && Skips(s, st'.next, ElemsInto(env, grow, e, p, st', r.val, sl', n - 1).st.next))
  {
    var r := Into(env, grow, e, p, st, cell);
    IntoGrows(env, grow, e, p, st, cell);
    if r.status == Done && Usable(r.st.mem, sl) {
      var (sl', st') := Append(grow, e, Zero(env, e), sl, r.val, r.st);
      AppendGrows(grow, e, Zero(env, e), sl, r.val, r.st);
      ElemsIntoGrows(env, grow, e, p, st', r.val, sl', n - 1);
    }
  }

  lemma RoundClear(grow: Grow, e: Ty, zero: Val, sl: Val, st: State, r: Res, s: iset<Ref>)
    requires Usable(r.st.mem, sl) && Clear(st, r.st, r.val, s) && Apart(zero, s) && Apart(sl, s)
    requires Skips(s, r.st.next, Append(grow, e, zero, sl, r.val, r.st).1.next)
    ensures var (sl', st') := Append(grow, e, zero, sl, r.val, r.st); Clear(st, st', sl', s)
  {
    var (sl', st') := Append(grow, e, zero, sl, r.val, r.st);
    AppendClear(grow, e, zero, sl, r.val, r.st, s);
    ClearThen(st, r.st, r.val, Res(Done, sl', st'), s);
  }

  lemma ClearThen(st: State, st': State, v: Val, r: Res, s: iset<Ref>)
    requires Clear(st, st', v, s) && Clear(st', r.st, r.val, s)
    ensures Clear(st, r.st, r.val, s)
  {
  }

  lemma AppendClear(grow: Grow, e: Ty, zero: Val, sl: Val, x: Val, st: State, s: iset<Ref>)
    requires Usable(st.mem, sl) && Sealed(st.mem, s) && Apart(zero, s) && Apart(sl, s) && Apart(x, s)
    requires Skips(s, st.next, Append(grow, e, zero, sl, x, st).1.next)
    ensures var (sl', st') := Append(grow, e, zero, sl, x, st); Clear(st, st', sl', s)
  {
  }

  // ---- Consequences ----

  ghost predicate Outside(b: Ref, lo: Ref, hi: Ref) {
    b < lo || b >= hi
  }

  ghost function AllOutside(lo: Ref, hi: Ref): iset<Ref> {
    iset b: Ref | Outside(b, lo, hi)
  }

  /** All memory in use, and all references in it, have been handed out. */
  ghost predicate Closed(st: State) {
    Allocated(st) && Sealed(st.mem, AllOutside(0, st.next))
  }

  lemma {:induction false} ApartLess(v: Val, s: iset<Ref>, s': iset<Ref>)
    requires Apart(v, s) && s' <= s
    ensures Apart(v, s')
  {
    match v
    case Struct(slots) =>
      forall i | 0 <= i < |slots| ensures Apart(slots[i].val, s') {
        ApartLess(slots[i].val, s, s');
      }
    case _ =>
  }

  lemma ClosedSealed(st: State, next: Ref)
    requires Closed(st) && st.next <= next
    ensures Sealed(st.mem, AllOutside(0, next))
  {
    var s, s' := AllOutside(0, st.next), AllOutside(0, next);
    forall r | r in st.mem.objs ensures Apart(st.mem.objs[r], s') {
      ApartLess(st.mem.objs[r], s, s');
    }
    forall a, i | a in st.mem.arrays && 0 <= i < |st.mem.arrays[a]| ensures Apart(st.mem.arrays[a][i], s') {
      ApartLess(st.mem.arrays[a][i], s, s');
    }
  }

  lemma OldOutside(st: State, next: Ref)
    requires Allocated(st)
    ensures forall k :: k in st.mem.objs || k in st.mem.arrays ==> k in AllOutside(st.next, next)
  {
    forall k | k in st.mem.objs || k in st.mem.arrays ensures k in AllOutside(st.next, next) {
      assert Outside(k, st.next, next);
    }
  }

  /** Decoding into a zero variable leaves existing memory alone. */
  lemma ZeroTargetExtends(env: Env, grow: Grow, ty: Ty, p: seq<byte>, st: State)
    requires ValidEnv(env) && Supported(env, ty) && st.off <= |p| && Allocated(st)
    ensures var r := Into(env, grow, ty, p, st, Zero(env, ty));
            Extends(st.mem, r.st.mem) && Apart(r.val, AllOutside(st.next, r.st.next))
  {
    var r := Into(env, grow, ty, p, st, Zero(env, ty));
    var s := AllOutside(st.next, r.st.next);
    ZeroApart(env, ty, s);
    IntoGrows(env, grow, ty, p, st, Zero(env, ty));
    OldOutside(st, r.st.next);
    IntoClear(env, grow, ty, p, st, Zero(env, ty), s);
  }

  /** Decoding into a zero variable invents no references. */
  lemma ZeroTargetStaysClosed(env: Env, grow: Grow, ty: Ty, p: seq<byte>, st: State)
    requires ValidEnv(env) && Supported(env, ty) && st.off <= |p| && Closed(st)
    ensures var r := Into(env, grow, ty, p, st, Zero(env, ty)); Closed(r.st) && Apart(r.val, AllOutside(0, r.st.next))
  {
    var r := Into(env, grow, ty, p, st, Zero(env, ty));
    var s := AllOutside(0, r.st.next);
    ZeroApart(env, ty, s);
    IntoGrows(env, grow, ty, p, st, Zero(env, ty));
    ClosedSealed(st, r.st.next);
    IntoClear(env, grow, ty, p, st, Zero(env, ty), s);
  }
}
