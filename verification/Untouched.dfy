/** What a decode leaves alone: skipped fields, pointers that are there, and on failure all that comes later. */
module Untouched {
  import opened LittleEndian
  import opened GoMemory
  import opened WireFormat
  import opened Decoder
  import opened Flatness
  import opened Footprint
  import opened TypeSafety

  /** What is skipped are the fields whose name starts with one of the 26 lower-case letters of ASCII. */
  lemma SkippedNames(name: Name)
    ensures !Visited(name) <==> name != [] && name[0].c in "abcdefghijklmnopqrstuvwxyz"
  {
    if name != [] && 'a' <= name[0].c <= 'z' {
      var i := name[0].c as int - 'a' as int;
      assert "abcdefghijklmnopqrstuvwxyz"[i] == name[0].c;
    }
  }

  /** Going from v to v' in place keeps every skipped field, at any depth, and every pointer that is not nil. */
  ghost predicate Keeps(v: Val, v': Val)
    decreases v
  {
    && (v.Ptr? ==> v' == v)
    && (v.Struct? ==>
          && v'.Struct? && |v'.slots| == |v.slots|
          && forall i :: 0 <= i < |v.slots| ==>
               && v'.slots[i].name == v.slots[i].name
               && if Visited(v.slots[i].name) then Keeps(v.slots[i].val, v'.slots[i].val)
                  else v'.slots[i].val == v.slots[i].val)
  }

  /** The same for all the objects that pointers lead to. */
  ghost predicate KeepsObjects(m: Mem, m': Mem) {
    forall r :: r in m.objs ==> r in m'.objs && Keeps(m.objs[r], m'.objs[r])
  }

  lemma {:induction false} KeepsSame(v: Val)
    ensures Keeps(v, v)
    decreases v
  {
    if v.Struct? {
      forall i | 0 <= i < |v.slots| ensures Keeps(v.slots[i].val, v.slots[i].val) {
        KeepsSame(v.slots[i].val);
      }
    }
  }

  lemma {:induction false} KeepsThen(v: Val, v1: Val, v2: Val)
    requires Keeps(v, v1) && Keeps(v1, v2)
    ensures Keeps(v, v2)
    decreases v
  {
    if v.Struct? {
      forall i | 0 <= i < |v.slots| && Visited(v.slots[i].name) ensures Keeps(v.slots[i].val, v2.slots[i].val) {
        KeepsThen(v.slots[i].val, v1.slots[i].val, v2.slots[i].val);
      }
    }
  }

  lemma ObjectsSame(m: Mem, m': Mem)
    requires forall r :: r in m.objs ==> r in m'.objs && m'.objs[r] == m.objs[r]
    ensures KeepsObjects(m, m')
  {
    forall r | r in m.objs ensures Keeps(m.objs[r], m'.objs[r]) {
      KeepsSame(m.objs[r]);
    }
  }

  lemma ObjectsThen(m: Mem, m1: Mem, m2: Mem)
    requires KeepsObjects(m, m1) && KeepsObjects(m1, m2)
    ensures KeepsObjects(m, m2)
  {
    forall r | r in m.objs ensures Keeps(m.objs[r], m2.objs[r]) {
      KeepsThen(m.objs[r], m1.objs[r], m2.objs[r]);
    }
  }

  /**
   * Whatever the input, and whether it succeeds or not, a decode into a well-typed variable keeps the skipped fields of
   * the variable and of every object in memory, and decodes through the pointers that are there.
   */
  lemma {:induction false} IntoKeeps(env: Env, grow: Grow, ty: Ty, p: seq<byte>, st: State, cell: Val, h: Typing)
    requires ValidEnv(env) && Supported(env, ty) && st.off <= |p|
    requires Allocated(st) && WellTyped(env, h, st.mem) && Typed(env, h, cell, ty)
    ensures var r := Into(env, grow, ty, p, st, cell); Keeps(cell, r.val) && KeepsObjects(st.mem, r.st.mem)
    decreases |p| - st.off, TyRank(env, ty), 1, 0
  {
    match ty
    case Struct(n) =>
      SlotsIntoKeeps(env, grow, env.structs[n], p, st, cell.slots, 0, env.rank[n], h);
    case Slice(e) =>
      ArrayIntoKeeps(env, grow, e, p, st, cell, h);
    case Ptr(e) =>
      if cell.NilPtr? {
        var st1 := Allocate(st, Zero(env, e));
        var h1 := AllocateTyped(env, e, st, h);
        ObjectsSame(st.mem, st1.mem);
        PointeeIntoKeeps(env, grow, e, p, st1, st.next, h1);
        ObjectsThen(st.mem, st1.mem, PointeeInto(env, grow, e, p, st1, st.next).st.mem);
      } else {
        PointeeIntoKeeps(env, grow, e, p, st, cell.ref, h);
      }
    case _ =>
      LeafIntoTyped(env, grow, ty, p, st, cell, h);
      ObjectsSame(st.mem, st.mem);
  }

  lemma {:induction false} PointeeIntoKeeps(env: Env, grow: Grow, e: Ty, p: seq<byte>, st: State, ref: Ref, h: Typing)
    requires ValidEnv(env) && Supported(env, e) && st.off <= |p|
    requires Allocated(st) && WellTyped(env, h, st.mem) && ref in h.objs && h.objs[ref] == e
    ensures KeepsObjects(st.mem, PointeeInto(env, grow, e, p, st, ref).st.mem)
    decreases |p| - st.off, TyRank(env, e), 2, 0
  {
    if e.Bytes? {
      var r := ByteArrayInto(p, st, st.mem.objs[ref]);
      ObjectsSame(st.mem, st.mem);
      ObjectStoredKeeps(st.mem, st.mem, ref, r.val);
    } else {
      var r := Into(env, grow, e, p, st, st.mem.objs[ref]);
      IntoKeeps(env, grow, e, p, st, st.mem.objs[ref], h);
      ObjectStoredKeeps(st.mem, r.st.mem, ref, r.val);
    }
  }

  lemma ObjectStoredKeeps(m: Mem, m': Mem, ref: Ref, x: Val)
    requires KeepsObjects(m, m') && (ref in m.objs ==> Keeps(m.objs[ref], x))
    ensures KeepsObjects(m, m'.(objs := m'.objs[ref := x]))
  {
  }

  /** What slots i onwards become: as in Keeps. */
  ghost predicate KeepsFrom(slots: seq<Slot>, slots': seq<Slot>, i: nat) {
    && |slots'| == |slots|
    && forall j :: 0 <= j < |slots| ==>
         && slots'[j].name == slots[j].name
         && if j >= i && Visited(slots[j].name) then Keeps(slots[j].val, slots'[j].val)
            else slots'[j].val == slots[j].val
  }

  lemma SlotThenRest(slots: seq<Slot>, i: nat, x: Val, slots': seq<Slot>)
    requires i < |slots| && Visited(slots[i].name) && Keeps(slots[i].val, x)
    requires KeepsFrom(slots[i := slots[i].(val := x)], slots', i + 1)
    ensures KeepsFrom(slots, slots', i)
  {
  }

  lemma SlotsSame(slots: seq<Slot>, i: nat)
    ensures KeepsFrom(slots, slots, i)
  {
    forall j | 0 <= j < |slots| ensures Keeps(slots[j].val, slots[j].val) {
      KeepsSame(slots[j].val);
    }
  }

  lemma {:induction false} SlotsIntoKeeps(
      env: Env, grow: Grow, fields: seq<Field>, p: seq<byte>, st: State, slots: seq<Slot>, i: nat, rank: nat, h: Typing)
    requires ValidEnv(env) && st.off <= |p| && i <= |fields| == |slots| && FieldsBelow(env, fields, rank)
    requires Allocated(st) && WellTyped(env, h, st.mem) && SlotsTyped(env, h, slots, fields)
    ensures var r := SlotsInto(env, grow, fields, p, st, slots, i, rank);
            KeepsFrom(slots, r.slots, i) && KeepsObjects(st.mem, r.st.mem)
    decreases |p| - st.off, rank, 0, |fields| - i
  {
    if i == |fields| {
      SlotsSame(slots, i);
      ObjectsSame(st.mem, st.mem);
    } else if !Visited(fields[i].name) {
      SlotsIntoKeeps(env, grow, fields, p, st, slots, i + 1, rank, h);
    } else {
      var x := Into(env, grow, fields[i].ty, p, st, slots[i].val);
      var slots' := slots[i := slots[i].(val := x.val)];
      IntoKeeps(env, grow, fields[i].ty, p, st, slots[i].val, h);
      if x.status == Done {
        var h' := IntoTyped(env, grow, fields[i].ty, p, st, slots[i].val, h);
        IntoGrows(env, grow, fields[i].ty, p, st, slots[i].val);
        SlotUpdateTyped(env, h, h', slots, fields, i, x.val);
        SlotsIntoKeeps(env, grow, fields, p, x.st, slots', i + 1, rank, h');
        var r := SlotsInto(env, grow, fields, p, x.st, slots', i + 1, rank);
        SlotThenRest(slots, i, x.val, r.slots);
        ObjectsThen(st.mem, x.st.mem, r.st.mem);
      } else {
        SlotsSame(slots', i + 1);
        SlotThenRest(slots, i, x.val, slots');
      }
    }
  }

  lemma {:induction false} ArrayIntoKeeps(env: Env, grow: Grow, e: Ty, p: seq<byte>, st: State, cell: Val, h: Typing)
    requires ValidEnv(env) && Supported(env, Ty.Slice(e)) && st.off <= |p|
    requires Allocated(st) && WellTyped(env, h, st.mem) && Typed(env, h, cell, Ty.Slice(e))
    ensures var r := ArrayInto(env, grow, e, p, st, cell); Keeps(cell, r.val) && KeepsObjects(st.mem, r.st.mem)
    decreases |p| - st.off, 0, 0, 0
  {
    if st.off + 2 <= |p| {
      ZeroTyped(env, h, e);
      ElemsIntoKeeps(env, grow, e, p, st.(off := st.off + 2), Zero(env, e),
                     if cell.NilSlice? then NilSlice else Val.Slice(cell.arr, 0), Get(p[st.off..st.off + 2]), h);
    } else {
      ObjectsSame(st.mem, st.mem);
    }
  }

  lemma {:induction false} ElemsIntoKeeps(
      env: Env, grow: Grow, e: Ty, p: seq<byte>, st: State, cell: Val, sl: Val, n: nat, h: Typing)
    requires ValidEnv(env) && Supported(env, e) && st.off <= |p|
    requires Allocated(st) && WellTyped(env, h, st.mem) && Typed(env, h, cell, e) && Typed(env, h, sl, Ty.Slice(e))
    ensures KeepsObjects(st.mem, ElemsInto(env, grow, e, p, st, cell, sl, n).st.mem)
    decreases |p| - st.off, TyRank(env, e) + 1, 0, 2 * n, 1
  {
    if n == 0 {
      ObjectsSame(st.mem, st.mem);
    } else {
      var h1 := HeadKeeps(env, grow, e, p, st, cell, sl, h);
      if Into(env, grow, e, p, st, cell).status == Done {
        RoundsKeep(env, grow, e, p, st, cell, sl, n - 1, h1);
      }
    }
  }

  /** The array loop, once its first element has been decoded. */
  lemma {:induction false} RoundsKeep(
      env: Env, grow: Grow, e: Ty, p: seq<byte>, st: State, cell: Val, sl: Val, k: nat, h: Typing)
    requires ValidEnv(env) && Supported(env, e) && st.off <= |p|
    requires var x := Into(env, grow, e, p, st, cell);
             && x.status == Done && KeepsObjects(st.mem, x.st.mem)
             && Allocated(x.st) && WellTyped(env, h, x.st.mem) && Typed(env, h, x.val, e)
             && Typed(env, h, sl, Ty.Slice(e))
    ensures KeepsObjects(st.mem, ElemsInto(env, grow, e, p, st, cell, sl, k + 1).st.mem)
    decreases |p| - st.off, TyRank(env, e) + 1, 0, 2 * k + 2, 0
  {
    var x := Into(env, grow, e, p, st, cell);
    RoundKeeps(env, grow, e, p, x, sl, k, h);
    var r := LoopGoesOn(env, grow, e, p, st, cell, sl, k);
    ObjectsThen(st.mem, x.st.mem, r.st.mem);
  }

  /** The array loop after an element: it goes on from there. */
  lemma LoopGoesOn(env: Env, grow: Grow, e: Ty, p: seq<byte>, st: State, cell: Val, sl: Val, k: nat) returns (r: Res)
    requires ValidEnv(env) && Supported(env, e) && st.off <= |p|
    requires var x := Into(env, grow, e, p, st, cell); x.status == Done && Usable(x.st.mem, sl)
    ensures r == ElemsInto(env, grow, e, p, st, cell, sl, k + 1)
    ensures var x := Into(env, grow, e, p, st, cell);
            var (sl', st') := Append(grow, e, Zero(env, e), sl, x.val, x.st);
            r == ElemsInto(env, grow, e, p, st', x.val, sl', k)
  {
    r := ElemsInto(env, grow, e, p, st, cell, sl, k + 1);
  }

  /** One element decoded in the array loop. */
  lemma {:induction false} HeadKeeps(
      env: Env, grow: Grow, e: Ty, p: seq<byte>, st: State, cell: Val, sl: Val, h: Typing)
    returns (h': Typing)
    requires ValidEnv(env) && Supported(env, e) && st.off <= |p|
    requires Allocated(st) && WellTyped(env, h, st.mem) && Typed(env, h, cell, e) && Typed(env, h, sl, Ty.Slice(e))
    ensures var x := Into(env, grow, e, p, st, cell);
            && KeepsObjects(st.mem, x.st.mem)
            && Allocated(x.st) && WellTyped(env, h', x.st.mem) && Typed(env, h', x.val, e)
            && Typed(env, h', sl, Ty.Slice(e))
    decreases |p| - st.off, TyRank(env, e) + 1, 0, 0
  {
    h' := HeadTyped(env, grow, e, p, st, cell, sl, h);
    IntoKeeps(env, grow, e, p, st, cell, h);
  }

  /** The rest of the array loop, once an element has been decoded. */
  lemma {:induction false} RoundKeeps(env: Env, grow: Grow, e: Ty, p: seq<byte>, x: Res, sl: Val, n: nat, h: Typing)
    requires ValidEnv(env) && Supported(env, e) && x.st.off <= |p|
    requires Allocated(x.st) && WellTyped(env, h, x.st.mem) && Typed(env, h, x.val, e) && Typed(env, h, sl, Ty.Slice(e))
    ensures Usable(x.st.mem, sl)
    ensures var (sl', st') := Append(grow, e, Zero(env, e), sl, x.val, x.st);
            KeepsObjects(x.st.mem, ElemsInto(env, grow, e, p, st', x.val, sl', n).st.mem)
    decreases |p| - x.st.off, TyRank(env, e) + 1, 0, 2 * n + 1
  {
    var h1 := AppendPreserves(env, grow, e, sl, x.val, x.st, h);
    var (sl', st') := Append(grow, e, Zero(env, e), sl, x.val, x.st);
    ElemsIntoKeeps(env, grow, e, p, st', x.val, sl', n, h1);
    AppendKeeps(grow, e, Zero(env, e), sl, x.val, x.st);
    ObjectsThen(x.st.mem, st'.mem, ElemsInto(env, grow, e, p, st', x.val, sl', n).st.mem);
  }

  lemma AppendKeeps(grow: Grow, e: Ty, zero: Val, sl: Val, x: Val, st: State)
    requires Usable(st.mem, sl)
    ensures KeepsObjects(st.mem, Append(grow, e, zero, sl, x, st).1.mem)
  {
    ObjectsSame(st.mem, Append(grow, e, zero, sl, x, st).1.mem);
  }

  // ---- Failure ----

  /** A basic value is decoded whole or stays what it was; only the length of a byte slice is gone. */
  lemma BasicIsAllOrNothing(env: Env, grow: Grow, ty: Ty, p: seq<byte>, st: State, cell: Val)
    requires ValidEnv(env) && st.off <= |p| && (ty.Bool? || ty.Num? || ty.Str? || ty.Bytes?)
    ensures var r := Into(env, grow, ty, p, st, cell);
            r.status != Done ==>
              && r.status == Eof && r.val == cell
              && r.st == st.(off := if ty.Bytes? && st.off + 2 <= |p| then st.off + 2 else st.off)
  {
  }

  /** A pointer is set before anything is decoded through it, and stays set if that fails. */
  lemma PointerIsSetFirst(env: Env, grow: Grow, e: Ty, p: seq<byte>, st: State, cell: Val)
    requires ValidEnv(env) && Supported(env, Ty.Ptr(e)) && st.off <= |p|
    requires cell.NilPtr? || (cell.Ptr? && cell.ref in st.mem.objs)
    ensures var r := Into(env, grow, Ty.Ptr(e), p, st, cell);
            r.val == (if cell.NilPtr? then Val.Ptr(st.next) else cell) && r.val.ref in r.st.mem.objs
  {
  }

  /** Without its length an array is left alone; a byte slice behind a pointer then keeps as many bytes as are there. */
  lemma LengthComesFirst(env: Env, grow: Grow, e: Ty, p: seq<byte>, st: State, cell: Val)
    requires ValidEnv(env) && Supported(env, e) && st.off <= |p|
    ensures st.off + 2 > |p| ==>
              ArrayInto(env, grow, e, p, st, cell) == ByteArrayInto(p, st, cell) == Res(Eof, cell, st)
    ensures st.off + 2 <= |p| && cell.Bytes? ==>
              var r, rest := ByteArrayInto(p, st, cell), p[st.off + 2..];
              && r.val.Bytes? && r.val.s <= rest && r.st == st.(off := st.off + 2 + |r.val.s|)
              && (r.status == Eof ==> r.val.s == rest)
  {
  }

  /**
   * A struct that fails does so in a visited field k: the fields before it are as if they were the whole struct, field
   * k is what its own failure leaves, and the fields after it are as they were.
   */
  lemma {:induction false} StructStopsAtField(
      env: Env, grow: Grow, fields: seq<Field>, p: seq<byte>, st: State, slots: seq<Slot>, i: nat, rank: nat)
    returns (k: nat, at: State)
    requires ValidEnv(env) && st.off <= |p| && i <= |fields| == |slots| && FieldsBelow(env, fields, rank)
    requires SlotsInto(env, grow, fields, p, st, slots, i, rank).status != Done
    ensures i <= k < |fields| && Visited(fields[k].name) && at.off <= |p|
    ensures var r := SlotsInto(env, grow, fields, p, st, slots, i, rank);
            && SlotsInto(env, grow, fields[..k], p, st, slots[..k], i, rank) == SlotsRes(Done, r.slots[..k], at)
            && Into(env, grow, fields[k].ty, p, at, slots[k].val) == Res(r.status, r.slots[k].val, r.st)
            && forall j :: k < j < |slots| ==> r.slots[j] == slots[j]
    decreases |fields| - i
  {
    if !Visited(fields[i].name) {
      k, at := StructStopsAtField(env, grow, fields, p, st, slots, i + 1, rank);
    } else {
      var x := Into(env, grow, fields[i].ty, p, st, slots[i].val);
      var slots' := slots[i := slots[i].(val := x.val)];
      if x.status != Done {
        k, at := i, st;
      } else {
        k, at := StructStopsAtField(env, grow, fields, p, x.st, slots', i + 1, rank);
        assert slots'[..k] == slots[..k][i := slots[i].(val := x.val)];
      }
    }
  }

  /** The array loop fails in element k, which starts at state at, and keeps the slice of the first k elements. */
  ghost predicate StopsAt(
      env: Env, grow: Grow, e: Ty, p: seq<byte>, st: State, cell: Val, sl: Val, n: nat, k: nat, at: State, last: Val)
    requires ValidEnv(env) && Supported(env, e) && st.off <= |p|
  {
    var r := ElemsInto(env, grow, e, p, st, cell, sl, n);
    && k < n && at.off <= |p|
    && ElemsInto(env, grow, e, p, st, cell, sl, k) == Res(Done, r.val, at)
    && var x := Into(env, grow, e, p, at, last); x.status == Eof && x.st == r.st
  }

  /** An array that fails does so in an element, and keeps the elements before it, as if they were the whole array. */
  lemma {:induction false} ArrayStopsAtElement(
      env: Env, grow: Grow, e: Ty, p: seq<byte>, st: State, cell: Val, sl: Val, n: nat)
    returns (k: nat, at: State, last: Val)
    requires ValidEnv(env) && Supported(env, e) && st.off <= |p|
    requires ElemsInto(env, grow, e, p, st, cell, sl, n).status == Eof
    ensures StopsAt(env, grow, e, p, st, cell, sl, n, k, at, last)
    decreases n
  {
    var x := Into(env, grow, e, p, st, cell);
    if x.status != Done {
      StopsAtOnce(env, grow, e, p, st, cell, sl, n);
      k, at, last := 0, st, cell;
    } else {
      var a, m: nat := Append(grow, e, Zero(env, e), sl, x.val, x.st), n - 1;
      var l;
      l, at, last := ArrayStopsAtElement(env, grow, e, p, a.1, x.val, a.0, m);
      k := l + 1;
      StopsOneLater(env, grow, e, p, st, cell, sl, m, l, n, k, at, last);
    }
  }

  lemma StopsAtOnce(env: Env, grow: Grow, e: Ty, p: seq<byte>, st: State, cell: Val, sl: Val, n: nat)
    requires ValidEnv(env) && Supported(env, e) && st.off <= |p| && n > 0
    requires Into(env, grow, e, p, st, cell).status == Eof
    ensures StopsAt(env, grow, e, p, st, cell, sl, n, 0, st, cell)
  {
  }

  lemma StopsOneLater(
      env: Env, grow: Grow, e: Ty, p: seq<byte>, st: State, cell: Val, sl: Val, m: nat, l: nat, n: nat, k: nat,
      at: State, last: Val)
    requires ValidEnv(env) && Supported(env, e) && st.off <= |p| && n == m + 1 && k == l + 1
    requires var x := Into(env, grow, e, p, st, cell); x.status == Done && Usable(x.st.mem, sl)
    requires var x := Into(env, grow, e, p, st, cell);
             var a := Append(grow, e, Zero(env, e), sl, x.val, x.st);
             StopsAt(env, grow, e, p, a.1, x.val, a.0, m, l, at, last)
    ensures StopsAt(env, grow, e, p, st, cell, sl, n, k, at, last)
  {
    var _ := LoopGoesOn(env, grow, e, p, st, cell, sl, m);
    var _ := LoopGoesOn(env, grow, e, p, st, cell, sl, l);
  }
}
