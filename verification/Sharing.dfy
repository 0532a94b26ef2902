/**
 * Which types survive the reuse of cells. Marshal followed by Unmarshal is the identity on every value of a type
 * exactly when the type is flat: here, the direction that exhibits a failing value for any other type.
 */
module Sharing {
  import opened LittleEndian
  import opened GoMemory
  import opened WireFormat
  import opened Decoder
  import opened Flatness
  import opened Footprint

  // ---- Values to tell apart ----

  /** The struct value that is t in field i and default elsewhere. */
  ghost function With(env: Env, n: nat, i: nat, t: Tree): (r: Tree)
    requires ValidEnv(env) && n in env.structs && i < |env.structs[n]| && Visited(env.structs[n][i].name)
    requires HasType(env, t, env.structs[n][i].ty) && Encodable(t)
    ensures HasType(env, r, Ty.Struct(n)) && Encodable(r)
    ensures r.Struct? && |r.fs| == |env.structs[n]| && r.fs[i] == t
  {
    var ts := Defaults(env, env.structs[n], env.rank[n]);
    assert forall f :: f in ts[i := t] ==> f == t || f in ts;
    Tree.Struct(ts[i := t])
  }

  ghost function InformativeField(env: Env, n: nat): (i: nat)
    requires ValidEnv(env) && n in env.structs && !Blank(env, Ty.Struct(n))
    ensures i < |env.structs[n]| && Visited(env.structs[n][i].name) && !Blank(env, env.structs[n][i].ty)
  {
    var i :| 0 <= i < |env.structs[n]| && Visited(env.structs[n][i].name) && !Blank(env, env.structs[n][i].ty);
    i
  }

  /** A value other than the default of every type that is not blank. */
  ghost function Variant(env: Env, ty: Ty): (t: Tree)
    requires ValidEnv(env) && Supported(env, ty) && !Blank(env, ty)
    ensures HasType(env, t, ty) && Encodable(t) && t != Default(env, ty)
    decreases TyRank(env, ty)
  {
    match ty
    case Bool => Tree.Bool(true)
    case Num(k) => HalfIsWhole(Width(k)); OneFits(k); Tree.Num(k, 1)
    case Str => Tree.Str([1])
    case Bytes => Tree.Bytes([1])
    case Slice(e) => Tree.Slice([Default(env, e)])
    case Ptr(e) => Tree.Ptr(Variant(env, e))
    case Struct(n) =>
      var i := InformativeField(env, n);
      DefaultsAt(env, env.structs[n], env.rank[n], i);
      With(env, n, i, Variant(env, env.structs[n][i].ty))
  }

  lemma OneFits(k: Kind)
    ensures InRange(k, 1)
  {
    assert Pow256(Width(k)) >= 256 by { assert Pow256(Width(k)) == 256 * Pow256(Width(k) - 1); }
  }

  lemma {:induction false} DefaultsAt(env: Env, fields: seq<Field>, rank: nat, i: nat)
    requires ValidEnv(env) && i < |fields| && Visited(fields[i].name)
    requires FieldsBelow(env, fields, rank)
    ensures |Defaults(env, fields, rank)| == |fields| && Defaults(env, fields, rank)[i] == Default(env, fields[i].ty)
    decreases |fields|
  {
    if i > 0 {
      DefaultsAt(env, fields[1..], rank, i - 1);
    }
  }

  // ---- Reuse does not change what is read ----

  /** Whatever the variable holds, the in-place decoder consumes and accepts what the fresh-variable decoder does. */
  ghost predicate Parses<T>(status: Status, off: nat, d: Dec<T>) {
    status == Mismatch || Agrees(status, off, d)
  }

  lemma {:induction false} IntoParses(env: Env, grow: Grow, ty: Ty, p: seq<byte>, st: State, cell: Val)
    requires ValidEnv(env) && Supported(env, ty) && st.off <= |p|
    ensures var r := Into(env, grow, ty, p, st, cell); Parses(r.status, r.st.off, Decode(env, ty, p, st.off))
    decreases |p| - st.off, TyRank(env, ty), 1, 0
  {
    match ty
    case Struct(n) =>
      if cell.Struct? && |cell.slots| == |env.structs[n]| {
        SlotsIntoParses(env, grow, env.structs[n], p, st, cell.slots, 0, env.rank[n]);
        assert env.structs[n][0..] == env.structs[n];
      }
    case Slice(e) =>
      if st.off + 2 <= |p| && Usable(st.mem, cell) {
        ElemsIntoParses(env, grow, e, p, st.(off := st.off + 2), Zero(env, e),
                        if cell.NilSlice? then NilSlice else Val.Slice(cell.arr, 0), Get(p[st.off..st.off + 2]));
      }
    case Ptr(e) =>
      if cell.NilPtr? {
        PointeeIntoParses(env, grow, e, p, Allocate(st, Zero(env, e)), st.next);
      } else if cell.Ptr? && cell.ref in st.mem.objs {
        PointeeIntoParses(env, grow, e, p, st, cell.ref);
      }
    case _ =>
  }

  lemma {:induction false} PointeeIntoParses(env: Env, grow: Grow, e: Ty, p: seq<byte>, st: State, ref: Ref)
    requires ValidEnv(env) && Supported(env, Ty.Ptr(e)) && st.off <= |p| && ref in st.mem.objs
    ensures var r := PointeeInto(env, grow, e, p, st, ref);
            Parses(r.status, r.st.off, Decode(env, Ty.Ptr(e), p, st.off))
    decreases |p| - st.off, TyRank(env, e), 2, 0
  {
    if e.Bytes? {
      if st.mem.objs[ref].Bytes? {
        ByteArrayIntoAgrees(env, p, st, st.mem.objs[ref]);
      } else {
        ByteArrayIntoAgrees(env, p, st, Val.Bytes([]));
      }
    } else {
      IntoParses(env, grow, e, p, st, st.mem.objs[ref]);
    }
  }

  lemma {:induction false} SlotsIntoParses(
      env: Env, grow: Grow, fields: seq<Field>, p: seq<byte>, st: State, slots: seq<Slot>, i: nat, rank: nat)
    requires ValidEnv(env) && st.off <= |p| && i <= |fields| == |slots|
    requires FieldsBelow(env, fields, rank)
    ensures var r := SlotsInto(env, grow, fields, p, st, slots, i, rank);
            Parses(r.status, r.st.off, DecodeFields(env, fields[i..], p, st.off, rank))
    decreases |p| - st.off, rank, 0, |fields| - i
  {
    if i < |fields| {
      assert fields[i..][0] == fields[i] && fields[i..][1..] == fields[i + 1..];
      if !Visited(fields[i].name) {
        SlotsIntoParses(env, grow, fields, p, st, slots, i + 1, rank);
      } else {
        IntoParses(env, grow, fields[i].ty, p, st, slots[i].val);
        var r := Into(env, grow, fields[i].ty, p, st, slots[i].val);
        if r.status == Done {
          SlotsIntoParses(env, grow, fields, p, r.st, slots[i := slots[i].(val := r.val)], i + 1, rank);
        }
      }
    }
  }

  /** One round of the in-place array loop agrees with one round into fresh cells if what follows does. */
  lemma ElemsRoundParses(
      env: Env, grow: Grow, e: Ty, p: seq<byte>, st: State, cell: Val, sl: Val, n: nat, r: Res, rest: Res)
    requires ValidEnv(env) && Supported(env, e) && st.off <= |p| && n > 0 && rest.st.off <= |p|
    requires r == Into(env, grow, e, p, st, cell) && Parses(r.status, r.st.off, Decode(env, e, p, st.off))
    requires r.status == Done && rest == ElemsInto(env, grow, e, p, st, cell, sl, n)
    requires Parses(rest.status, rest.st.off, DecodeElems(env, e, p, r.st.off, n - 1))
    ensures Parses(rest.status, rest.st.off, DecodeElems(env, e, p, st.off, n))
  {
  }

  lemma {:induction false} ElemsIntoParses(
      env: Env, grow: Grow, e: Ty, p: seq<byte>, st: State, cell: Val, sl: Val, n: nat)
    requires ValidEnv(env) && Supported(env, e) && st.off <= |p|
    ensures var r := ElemsInto(env, grow, e, p, st, cell, sl, n);
            Parses(r.status, r.st.off, DecodeElems(env, e, p, st.off, n))
    decreases |p| - st.off, TyRank(env, e) + 1, 0, n
  {
    if n > 0 {
      IntoParses(env, grow, e, p, st, cell);
      var r := Into(env, grow, e, p, st, cell);
      if r.status == Done && Usable(r.st.mem, sl) {
        var (sl', st') := Append(grow, e, Zero(env, e), sl, r.val, r.st);
        ElemsIntoParses(env, grow, e, p, st', r.val, sl', n - 1);
        ElemsRoundParses(env, grow, e, p, st, cell, sl, n, r, ElemsInto(env, grow, e, p, st', r.val, sl', n - 1));
      }
    }
  }

  // ---- Two values that a shared cell confuses ----

  /** A field that holds a pointer or a non-byte slice, directly or in a nested struct. */
  ghost function SharingField(env: Env, n: nat): (i: nat)
    requires ValidEnv(env) && n in env.structs && !FlatElement(env, Ty.Struct(n))
    ensures i < |env.structs[n]| && Visited(env.structs[n][i].name) && !FlatElement(env, env.structs[n][i].ty)
  {
    var i :| 0 <= i < |env.structs[n]| && Visited(env.structs[n][i].name) && !FlatElement(env, env.structs[n][i].ty);
    i
  }

  ghost function DefaultOrVariant(env: Env, ty: Ty, second: bool): (t: Tree)
    requires ValidEnv(env) && Supported(env, ty) && !Blank(env, ty)
    ensures HasType(env, t, ty) && Encodable(t)
  {
    if second then Variant(env, ty) else Default(env, ty)
  }

  /** What the confusing values hold at their first pointer or slice. */
  ghost function Head(env: Env, e: Ty, second: bool): (t: Tree)
    requires ValidEnv(env) && Supported(env, e) && !FlatElement(env, e)
    decreases TyRank(env, e)
  {
    match e
    case Ptr(x) => Tree.Ptr(DefaultOrVariant(env, x, second))
    case Slice(x) => Tree.Slice([DefaultOrVariant(env, x, second)])
    case Struct(n) => Head(env, env.structs[n][SharingField(env, n)].ty, second)
  }

  /** One of two values of type e, alike but for what lies behind their first pointer or slice. */
  ghost function Twin(env: Env, e: Ty, second: bool): (t: Tree)
    requires ValidEnv(env) && Supported(env, e) && !FlatElement(env, e)
    ensures HasType(env, t, e) && Encodable(t)
    decreases TyRank(env, e)
  {
    match e
    case Ptr(x) =>
      var t := DefaultOrVariant(env, x, second);
      Tree.Ptr(t)
    case Slice(x) => Tree.Slice([DefaultOrVariant(env, x, second)])
    case Struct(n) =>
      var i := SharingField(env, n);
      With(env, n, i, Twin(env, env.structs[n][i].ty, second))
  }

  lemma {:induction false} HeadsDiffer(env: Env, e: Ty)
    requires ValidEnv(env) && Supported(env, e) && !FlatElement(env, e)
    ensures Head(env, e, false) != Head(env, e, true)
    decreases TyRank(env, e)
  {
    match e
    case Struct(n) => HeadsDiffer(env, env.structs[n][SharingField(env, n)].ty);
    case Slice(x) => assert Head(env, e, false).es[0] != Head(env, e, true).es[0];
    case Ptr(_) =>
  }

  /** The value at the first pointer or slice. */
  ghost function HeadOf(env: Env, e: Ty, v: Val): Val
    requires ValidEnv(env) && Supported(env, e) && !FlatElement(env, e)
    decreases TyRank(env, e)
  {
    match e
    case Struct(n) =>
      var i := SharingField(env, n);
      if v.Struct? && i < |v.slots| then HeadOf(env, env.structs[n][i].ty, v.slots[i].val) else v
    case _ => v
  }

  lemma {:induction false} TwinUnfolds(env: Env, e: Ty, second: bool, m: Mem, v: Val)
    requires ValidEnv(env) && Supported(env, e) && !FlatElement(env, e)
    requires Unfolds(m, v, Twin(env, e, second))
    ensures Unfolds(m, HeadOf(env, e, v), Head(env, e, second))
    decreases TyRank(env, e)
  {
    match e
    case Struct(n) =>
      var i := SharingField(env, n);
      var x := env.structs[n][i].ty;
      assert Twin(env, e, second).fs[i] == Twin(env, x, second);
      assert HasType(env, Twin(env, x, second), x);
      TwinUnfolds(env, x, second, m, v.slots[i].val);
    case _ =>
  }

  /** Values with the same pointer, or the same one-element slice, cannot unfold to different twins. */
  lemma SameHeadConfuses(env: Env, e: Ty, m: Mem, v: Val, v': Val)
    requires ValidEnv(env) && Supported(env, e) && !FlatElement(env, e)
    requires HeadOf(env, e, v) == HeadOf(env, e, v')
    ensures !(Unfolds(m, v, Twin(env, e, false)) && Unfolds(m, v', Twin(env, e, true)))
  {
    if Unfolds(m, v, Twin(env, e, false)) && Unfolds(m, v', Twin(env, e, true)) {
      TwinUnfolds(env, e, false, m, v);
      TwinUnfolds(env, e, true, m, v');
      UnfoldsUnique(m, HeadOf(env, e, v), Head(env, e, false), Head(env, e, true));
      HeadsDiffer(env, e);
    }
  }

  // ---- The second decode reuses the pointee or array of the first ----

  /** A pointer to an object, or a slice of one element in an array. */
  ghost predicate Live(m: Mem, h: Val) {
    || (h.Ptr? && h.ref in m.objs)
    || (h.Slice? && h.len == 1 && h.arr in m.arrays && |m.arrays[h.arr]| > 0)
  }

  /** From a nil or live h, the decoder moved to a live h', which is h itself unless that was nil. */
  ghost predicate Reuses(m: Mem, h: Val, m': Mem, h': Val) {
    h.NilPtr? || h.NilSlice? || Live(m, h) ==> Live(m', h') && (Live(m, h) ==> h' == h)
  }

  lemma {:induction false} TwinInto(env: Env, grow: Grow, e: Ty, second: bool, p: seq<byte>, st: State, cell: Val)
    requires ValidEnv(env) && Supported(env, e) && !FlatElement(env, e)
    requires st.off <= |p| && Allocated(st)
    requires Into(env, grow, e, p, st, cell).status == Done
    requires var d := Decode(env, e, p, st.off); d.Ok? && d.value == Twin(env, e, second)
    ensures var r := Into(env, grow, e, p, st, cell);
            Reuses(st.mem, HeadOf(env, e, cell), r.st.mem, HeadOf(env, e, r.val))
    decreases TyRank(env, e), 1, 0
  {
    match e
    case Ptr(x) =>
      IntoGrows(env, grow, e, p, st, cell);
      if cell.NilPtr? {
        PointeeIntoGrows(env, grow, x, p, Allocate(st, Zero(env, x)), st.next);
      }
    case Slice(x) => TwinArrayInto(env, grow, x, p, st, cell);
    case Struct(n) =>
      var fields, i := env.structs[n], SharingField(env, n);
      assert fields[0..] == fields;
      assert Twin(env, e, second).fs[i] == Twin(env, fields[i].ty, second);
      TwinSlotsInto(env, grow, fields, p, st, cell.slots, 0, env.rank[n], i, second);
  }

  lemma ReusesThen(st: State, h: Val, st': State, h': Val, st'': State)
    requires Reuses(st.mem, h, st'.mem, h') && Grows(st', st'')
    ensures Reuses(st.mem, h, st''.mem, h')
  {
  }

  lemma ReusesAfter(st: State, h: Val, st': State, st'': State, h'': Val)
    requires Grows(st, st') && Reuses(st'.mem, h, st''.mem, h'')
    ensures Reuses(st.mem, h, st''.mem, h'')
  {
  }

  /** Decoding the fields from j on, when it succeeds, decodes field j and then those after it. */
  lemma FieldsSplit(env: Env, fields: seq<Field>, p: seq<byte>, off: nat, rank: nat, j: nat, i: nat)
    requires ValidEnv(env) && FieldsBelow(env, fields, rank) && off <= |p| && j <= i < |fields|
    requires DecodeFields(env, fields[j..], p, off, rank).Ok?
    ensures var d := DecodeFields(env, fields[j..], p, off, rank);
            && |d.value| == |fields| - j
            && if Visited(fields[j].name) then
                 var f := Decode(env, fields[j].ty, p, off);
                 && f.Ok? && d.value[0] == f.value
                 && var rest := DecodeFields(env, fields[j + 1..], p, f.off, rank);
                 rest.Ok? && |rest.value| == |fields| - j - 1 && (i > j ==> rest.value[i - j - 1] == d.value[i - j])
               else
                 var rest := DecodeFields(env, fields[j + 1..], p, off, rank);
                 rest.Ok? && |rest.value| == |fields| - j - 1 && (i > j ==> rest.value[i - j - 1] == d.value[i - j])
  {
    assert fields[j..][0] == fields[j] && fields[j..][1..] == fields[j + 1..];
    DecodeFieldsThenWire(env, fields[j..], p, off, rank);
  }

  lemma {:induction false} TwinSlotsInto(
      env: Env, grow: Grow, fields: seq<Field>, p: seq<byte>, st: State, slots: seq<Slot>, j: nat, rank: nat,
      i: nat, second: bool)
    requires ValidEnv(env) && FieldsBelow(env, fields, rank) && Allocated(st)
    requires st.off <= |p| && j <= i < |fields| == |slots|
    requires Visited(fields[i].name) && !FlatElement(env, fields[i].ty)
    requires SlotsInto(env, grow, fields, p, st, slots, j, rank).status == Done
    requires var d := DecodeFields(env, fields[j..], p, st.off, rank);
             d.Ok? && |d.value| == |fields| - j && d.value[i - j] == Twin(env, fields[i].ty, second)
    ensures var r := SlotsInto(env, grow, fields, p, st, slots, j, rank);
            Reuses(st.mem, HeadOf(env, fields[i].ty, slots[i].val), r.st.mem, HeadOf(env, fields[i].ty, r.slots[i].val))
    decreases rank, 0, |fields| - j
  {
    if !Visited(fields[j].name) {
      assert fields[j..][0] == fields[j] && fields[j..][1..] == fields[j + 1..];
      FieldsSplit(env, fields, p, st.off, rank, j, i);
      TwinSlotsInto(env, grow, fields, p, st, slots, j + 1, rank, i, second);
    } else {
      var r := Into(env, grow, fields[j].ty, p, st, slots[j].val);
      TwinRound(env, grow, fields, p, st, slots, j, rank, i, Twin(env, fields[i].ty, second));
      if j == i {
        TwinInto(env, grow, fields[i].ty, second, p, st, slots[i].val);
        TwinSlotKept(env, grow, fields, p, st, slots, i, rank, r);
      } else {
        var slots' := slots[j := slots[j].(val := r.val)];
        TwinSlotsInto(env, grow, fields, p, r.st, slots', j + 1, rank, i, second);
        var r' := SlotsInto(env, grow, fields, p, r.st, slots', j + 1, rank);
        ReusesAfter(st, HeadOf(env, fields[i].ty, slots[i].val), r.st, r'.st,
                    HeadOf(env, fields[i].ty, r'.slots[i].val));
      }
    }
  }

  /**
   * Where decoding the fields from j on succeeds and finds t in field i, so does decoding field j and those after it.
   */
  lemma TwinRound(
      env: Env, grow: Grow, fields: seq<Field>, p: seq<byte>, st: State, slots: seq<Slot>, j: nat, rank: nat, i: nat,
      t: Tree)
    requires ValidEnv(env) && FieldsBelow(env, fields, rank) && Allocated(st)
    requires st.off <= |p| && j <= i < |fields| == |slots| && Visited(fields[j].name)
    requires SlotsInto(env, grow, fields, p, st, slots, j, rank).status == Done
    requires var d := DecodeFields(env, fields[j..], p, st.off, rank);
             d.Ok? && |d.value| == |fields| - j && d.value[i - j] == t
    ensures var r, f := Into(env, grow, fields[j].ty, p, st, slots[j].val), Decode(env, fields[j].ty, p, st.off);
            && r.status == Done && f.Ok? && Grows(st, r.st) && (i == j ==> f.value == t)
            && SlotsInto(env, grow, fields, p, st, slots, j, rank) ==
               SlotsInto(env, grow, fields, p, r.st, slots[j := slots[j].(val := r.val)], j + 1, rank)
            && (i > j ==>
                  var d := DecodeFields(env, fields[j + 1..], p, r.st.off, rank);
                  d.Ok? && |d.value| == |fields| - j - 1 && d.value[i - j - 1] == t)
  {
    assert fields[j..][0] == fields[j] && fields[j..][1..] == fields[j + 1..];
    FieldsSplit(env, fields, p, st.off, rank, j, i);
    IntoParses(env, grow, fields[j].ty, p, st, slots[j].val);
    IntoGrows(env, grow, fields[j].ty, p, st, slots[j].val);
  }

  /** Once field i has been decoded, the fields after it change neither its value nor what that leads to. */
  lemma TwinSlotKept(
      env: Env, grow: Grow, fields: seq<Field>, p: seq<byte>, st: State, slots: seq<Slot>, i: nat, rank: nat, r: Res)
    requires ValidEnv(env) && FieldsBelow(env, fields, rank) && i < |fields| == |slots|
    requires Visited(fields[i].name) && !FlatElement(env, fields[i].ty) && st.off <= |p| && r.st.off <= |p|
    requires Allocated(r.st)
    requires Reuses(st.mem, HeadOf(env, fields[i].ty, slots[i].val), r.st.mem, HeadOf(env, fields[i].ty, r.val))
    ensures var r' := SlotsInto(env, grow, fields, p, r.st, slots[i := slots[i].(val := r.val)], i + 1, rank);
            Reuses(st.mem, HeadOf(env, fields[i].ty, slots[i].val),
                   r'.st.mem, HeadOf(env, fields[i].ty, r'.slots[i].val))
  {
    var slots' := slots[i := slots[i].(val := r.val)];
    var r' := SlotsInto(env, grow, fields, p, r.st, slots', i + 1, rank);
    SlotsIntoKeeps(env, grow, fields, p, r.st, slots', i + 1, rank, i);
    SlotsIntoGrows(env, grow, fields, p, r.st, slots', i + 1, rank);
    ReusesThen(st, HeadOf(env, fields[i].ty, slots[i].val), r.st, HeadOf(env, fields[i].ty, r.val), r'.st);
  }

  lemma TwinArrayInto(env: Env, grow: Grow, e: Ty, p: seq<byte>, st: State, cell: Val)
    requires ValidEnv(env) && Supported(env, Ty.Slice(e)) && st.off <= |p| && Allocated(st)
    requires Into(env, grow, Ty.Slice(e), p, st, cell).status == Done
    requires var d := Decode(env, Ty.Slice(e), p, st.off); d.Ok? && |d.value.es| == 1
    ensures var r := Into(env, grow, Ty.Slice(e), p, st, cell); Reuses(st.mem, cell, r.st.mem, r.val)
  {
    var st1, x, sl := st.(off := st.off + 2), Zero(env, e), if cell.NilSlice? then NilSlice else Val.Slice(cell.arr, 0);
    var r := Into(env, grow, e, p, st1, x);
    IntoGrows(env, grow, e, p, st1, x);
    assert Get(p[st.off..st.off + 2]) == 1;
    assert ElemsInto(env, grow, e, p, st1, x, sl, 1).status == Done;
    assert r.status == Done && Usable(r.st.mem, sl);
    var (sl', st') := Append(grow, e, x, sl, r.val, r.st);
    assert ElemsInto(env, grow, e, p, st', r.val, sl', 0) == Res(Done, sl', st');
    assert Into(env, grow, Ty.Slice(e), p, st, cell) == Res(Done, sl', st');
  }
}
