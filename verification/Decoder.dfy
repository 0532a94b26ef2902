/** The decoder as it acts on memory: one cell per array loop, reused pointees, slices appended to in place. */
module Decoder {
  import opened LittleEndian
  import opened GoMemory
  import opened WireFormat

  /** The offset reached, the memory, and the next unused reference. */
  datatype State = State(off: nat, mem: Mem, next: Ref)

  /** Mismatch is the reflect panic on a variable that does not have the type it is decoded as. */
  datatype Status = Done | Eof | Mismatch

  datatype Res = Res(status: Status, val: Val, st: State)

  datatype SlotsRes = SlotsRes(status: Status, slots: seq<Slot>, st: State)

  /** The runtime's choice of a new capacity for a full slice of the given element type and length. */
  type Grow = (Ty, nat) -> nat

  // ---- Zero values ----

  function Zero(env: Env, ty: Ty): Val
    requires ValidEnv(env) && Supported(env, ty)
    decreases TyRank(env, ty), 1, 0
  {
    match ty
    case Bool => Val.Bool(false)
    case Num(k) => Val.Num(k, 0)
    case Str => Val.Str([])
    case Bytes => Val.Bytes([])
    case Struct(n) => Val.Struct(ZeroSlots(env, env.structs[n], env.rank[n]))
    case Slice(_) => NilSlice
    case Ptr(_) => NilPtr
  }

  function ZeroSlots(env: Env, fields: seq<Field>, ghost rank: nat): (slots: seq<Slot>)
    requires ValidEnv(env)
    requires FieldsBelow(env, fields, rank)
    ensures |slots| == |fields|
    ensures forall i :: 0 <= i < |fields| ==>
              && slots[i].name == fields[i].name
              && (Visited(fields[i].name) ==> slots[i].val == Zero(env, fields[i].ty))
    decreases rank, 0, |fields|
  {
    if fields == [] then []
    else
      [Slot(fields[0].name, if Visited(fields[0].name) then Zero(env, fields[0].ty) else Val.Opaque)]
      + ZeroSlots(env, fields[1..], rank)
  }

  /** False, 0, empty or nil, in every visited field and nested struct. */
  predicate IsZero(v: Val) {
    match v
    case Bool(b) => !b
    case Num(_, n) => n == 0
    case Str(s) => s == []
    case Bytes(s) => s == []
    case Struct(slots) => forall s | s in slots :: Visited(s.name) ==> IsZero(s.val)
    case NilSlice => true
    case NilPtr => true
    case _ => false
  }

  lemma {:induction false} ZeroIsZero(env: Env, ty: Ty)
    requires ValidEnv(env) && Supported(env, ty)
    ensures IsZero(Zero(env, ty))
    decreases TyRank(env, ty)
  {
    if ty.Struct? {
      var fields, slots := env.structs[ty.name], ZeroSlots(env, env.structs[ty.name], env.rank[ty.name]);
      forall i | 0 <= i < |slots| && Visited(slots[i].name) ensures IsZero(slots[i].val) {
        ZeroIsZero(env, fields[i].ty);
      }
    }
  }

  // ---- What decode does ----

  function Capacity(grow: Grow, e: Ty, len: nat): (c: nat)
    ensures c > len
  {
    if grow(e, len) > len then grow(e, len) else len + 1
  }

  /** The slice variable may be decoded into: it is nil or lies within its backing array. */
  predicate Usable(m: Mem, sl: Val) {
    sl.NilSlice? || (sl.Slice? && sl.arr in m.arrays && sl.len <= |m.arrays[sl.arr]|)
  }

  function Contents(m: Mem, sl: Val): seq<Val>
    requires Usable(m, sl)
  {
    if sl.NilSlice? then [] else m.arrays[sl.arr][..sl.len]
  }

  /** reflect.Append: in place while the capacity lasts, otherwise into a larger copy; zero fills what is spare. */
  function Append(grow: Grow, e: Ty, zero: Val, sl: Val, x: Val, st: State): (r: (Val, State))
    requires Usable(st.mem, sl)
    ensures Usable(r.1.mem, r.0) && r.1.off == st.off
    ensures Contents(r.1.mem, r.0) == Contents(st.mem, sl) + [x]
  {
    var have := Contents(st.mem, sl);
    if sl.Slice? && sl.len < |st.mem.arrays[sl.arr]| then
      var a := st.mem.arrays[sl.arr][sl.len := x];
      assert a[..sl.len + 1] == have + [x];
      (Val.Slice(sl.arr, sl.len + 1), st.(mem := st.mem.(arrays := st.mem.arrays[sl.arr := a])))
    else
      var spare := seq(Capacity(grow, e, |have|) - |have| - 1, i => zero);
      var a := have + [x] + spare;
      assert a[..|have| + 1] == have + [x];
      (Val.Slice(st.next, |have| + 1), st.(mem := st.mem.(arrays := st.mem.arrays[st.next := a]), next := st.next + 1))
  }

  /** reflect.New. */
  function Allocate(st: State, v: Val): State {
    st.(mem := st.mem.(objs := st.mem.objs[st.next := v]), next := st.next + 1)
  }

  /** decode, given what the target variable holds: what it returns, and what the variable then holds. */
  ghost function Into(env: Env, grow: Grow, ty: Ty, p: seq<byte>, st: State, cell: Val): (r: Res)
    requires ValidEnv(env) && Supported(env, ty) && st.off <= |p|
    ensures st.off <= r.st.off <= |p|
    decreases |p| - st.off, TyRank(env, ty), 1, 0
  {
    var off := st.off;
    match ty
    case Bool =>
      if off >= |p| then Res(Eof, cell, st) else Res(Done, Val.Bool(p[off] != 0), st.(off := off + 1))
    case Num(k) =>
      if off + Width(k) > |p| then Res(Eof, cell, st)
      else Res(Done, Val.Num(k, FromBits(k, Get(p[off..off + Width(k)]))), st.(off := off + Width(k)))
    case Str =>
      var i := FindNul(p, off);
      if i == |p| then Res(Eof, cell, st) else Res(Done, Val.Str(p[off..i]), st.(off := i + 1))
    case Bytes =>
      if off + 2 > |p| then Res(Eof, cell, st) else
      var n := Get(p[off..off + 2]);
      if off + 2 + n > |p| then Res(Eof, cell, st.(off := off + 2))
      else Res(Done, Val.Bytes(p[off + 2..off + 2 + n]), st.(off := off + 2 + n))
    case Struct(n) =>
      if !cell.Struct? || |cell.slots| != |env.structs[n]| then Res(Mismatch, cell, st) else
      var r := SlotsInto(env, grow, env.structs[n], p, st, cell.slots, 0, env.rank[n]);
      Res(r.status, Val.Struct(r.slots), r.st)
    case Slice(e) => ArrayInto(env, grow, e, p, st, cell)
    case Ptr(e) =>
      if cell.NilPtr? then
        PointeeInto(env, grow, e, p, Allocate(st, Zero(env, e)), st.next)
      else if cell.Ptr? && cell.ref in st.mem.objs then PointeeInto(env, grow, e, p, st, cell.ref)
      else Res(Mismatch, cell, st)
  }

  ghost function PointeeInto(env: Env, grow: Grow, e: Ty, p: seq<byte>, st: State, ref: Ref): (r: Res)
    requires ValidEnv(env) && Supported(env, e) && st.off <= |p| && ref in st.mem.objs
    ensures st.off <= r.st.off <= |p|
    decreases |p| - st.off, TyRank(env, e), 2, 0
  {
    var r := if e.Bytes? then ByteArrayInto(p, st, st.mem.objs[ref]) else Into(env, grow, e, p, st, st.mem.objs[ref]);
    Res(r.status, Val.Ptr(ref), r.st.(mem := r.st.mem.(objs := r.st.mem.objs[ref := r.val])))
  }

  ghost function SlotsInto(
      env: Env, grow: Grow, fields: seq<Field>, p: seq<byte>, st: State, slots: seq<Slot>, i: nat,
      rank: nat): (r: SlotsRes)
    requires ValidEnv(env) && st.off <= |p| && i <= |fields| == |slots|
    requires FieldsBelow(env, fields, rank)
    ensures st.off <= r.st.off <= |p| && |r.slots| == |slots|
    decreases |p| - st.off, rank, 0, |fields| - i
  {
    if i == |fields| then SlotsRes(Done, slots, st)
    else if !Visited(fields[i].name) then SlotsInto(env, grow, fields, p, st, slots, i + 1, rank)
    else
      var r := Into(env, grow, fields[i].ty, p, st, slots[i].val);
      var slots' := slots[i := slots[i].(val := r.val)];
      if r.status != Done then SlotsRes(r.status, slots', r.st)
      else SlotsInto(env, grow, fields, p, r.st, slots', i + 1, rank)
  }

  /** decodeArray: the slice keeps its backing array, and one new cell serves every element. */
  ghost function ArrayInto(env: Env, grow: Grow, e: Ty, p: seq<byte>, st: State, cell: Val): (r: Res)
    requires ValidEnv(env) && Supported(env, e) && st.off <= |p|
    ensures st.off <= r.st.off <= |p|
    decreases |p| - st.off, 0, 0, 0
  {
    if st.off + 2 > |p| then Res(Eof, cell, st)
    else if !Usable(st.mem, cell) then Res(Mismatch, cell, st)
    else
      var n := Get(p[st.off..st.off + 2]);
      var sl := if cell.NilSlice? then NilSlice else Val.Slice(cell.arr, 0);
      ElemsInto(env, grow, e, p, st.(off := st.off + 2), Zero(env, e), sl, n)
  }

  ghost function ElemsInto(
      env: Env, grow: Grow, e: Ty, p: seq<byte>, st: State, cell: Val, sl: Val, n: nat): (r: Res)
    requires ValidEnv(env) && Supported(env, e) && st.off <= |p|
    ensures st.off <= r.st.off <= |p|
    decreases |p| - st.off, TyRank(env, e) + 1, 0, n
  {
    if n == 0 then Res(Done, sl, st)
    else
      var r := Into(env, grow, e, p, st, cell);
      if r.status != Done then Res(r.status, sl, r.st)
      else if !Usable(r.st.mem, sl) then Res(Mismatch, sl, r.st)
      else
        var (sl', st') := Append(grow, e, Zero(env, e), sl, r.val, r.st);
        ElemsInto(env, grow, e, p, st', r.val, sl', n - 1)
  }

  /** The array loop into a byte slice that was reached through a pointer. */
  ghost function ByteArrayInto(p: seq<byte>, st: State, cell: Val): (r: Res)
    requires st.off <= |p|
    ensures st.off <= r.st.off <= |p|
  {
    var off := st.off;
    if off + 2 > |p| then Res(Eof, cell, st)
    else if !cell.Bytes? then Res(Mismatch, cell, st)
    else
      var n := Get(p[off..off + 2]);
      if off + 2 + n > |p| then Res(Eof, Val.Bytes(p[off + 2..]), st.(off := |p|))
      else Res(Done, Val.Bytes(p[off + 2..off + 2 + n]), st.(off := off + 2 + n))
  }

  // ---- Comparing with the decoder into fresh variables ----

  const EMPTY_MEM := Mem(map[], map[])

  /** The decoder's r agrees with the fresh-variable decoder's d on success and on the offset. */
  ghost predicate Agrees<T>(status: Status, off: nat, d: Dec<T>) {
    && status != Mismatch
    && (status == Done <==> d.Ok?)
    && off == d.off
  }

  /** Every reference in use was handed out. */
  ghost predicate Allocated(st: State) {
    && (forall r :: r in st.mem.objs ==> r < st.next)
    && (forall a :: a in st.mem.arrays ==> a < st.next)
  }

  // ---- Byte slices behind pointers ----

  lemma {:induction false} RawElemsFail(env: Env, p: seq<byte>, off: nat, n: nat)
    requires ValidEnv(env) && off <= |p| < off + n
    ensures DecodeElems(env, Ty.Num(Byte), p, off, n) == Fail(|p|)
    decreases n
  {
    if off < |p| {
      RawElemsFail(env, p, off + 1, n - 1);
    }
  }

  lemma ByteArrayIntoAgrees(env: Env, p: seq<byte>, st: State, cell: Val)
    requires ValidEnv(env) && st.off <= |p| && cell.Bytes?
    ensures var r, d := ByteArrayInto(p, st, cell), DecodeArray(env, Ty.Num(Byte), p, st.off);
            && Agrees(r.status, r.st.off, d)
            && r.st == st.(off := d.off)
            && (d.Ok? ==> r.val == Val.Bytes(RawBytes(d.value)))
  {
    var off := st.off;
    if off + 2 <= |p| {
      var n := Get(p[off..off + 2]);
      if off + 2 + n > |p| {
        RawElemsFail(env, p, off + 2, n);
      } else {
        DecodeRaw(env, p[off + 2..off + 2 + n], p, off + 2);
      }
    }
  }
}
