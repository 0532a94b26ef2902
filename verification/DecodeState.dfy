/** The decoder as it runs: a moving offset over the input, and loops that write into memory. */
module DecodeStates {
  import opened LittleEndian
  import opened GoMemory
  import opened WireFormat
  import opened Decoder
  import opened Flatness
  import opened InPlace

  lemma FindNulSkips(p: seq<byte>, off: nat)
    requires off < |p| && p[off] != 0
    ensures FindNul(p, off) == FindNul(p, off + 1)
  {
  }

  class DecodeState {
    const data: seq<byte>
    const env: Env
    const grow: Grow
    var off: nat
    var mem: Mem
    var next: Ref

    ghost predicate Valid()
      reads this
    {
      ValidEnv(env) && off <= |data|
    }

    ghost function St(): State
      reads this
    {
      State(off, mem, next)
    }

    constructor (data: seq<byte>, env: Env, grow: Grow, mem: Mem, next: Ref)
      requires ValidEnv(env)
      ensures Valid() && St() == State(0, mem, next)
      ensures this.data == data && this.env == env && this.grow == grow
    {
      this.data, this.env, this.grow := data, env, grow;
      this.off, this.mem, this.next := 0, mem, next;
    }

    /** Decodes into a variable that holds cell; val is what it holds afterwards, also on failure. */
    method Decode(ty: Ty, cell: Val) returns (status: Status, val: Val)
      requires Valid() && Supported(env, ty)
      modifies this
      ensures Valid()
      ensures Res(status, val, St()) == Into(env, grow, ty, data, old(St()), cell)
      decreases |data| - off, TyRank(env, ty), 1, 0
    {
      status, val := Eof, cell;
      match ty
      case Bool =>
        if off >= |data| {
          return;
        }
        val := Val.Bool(data[off] != 0);
        off := off + 1;
        status := Done;
      case Num(k) =>
        if off + Width(k) > |data| {
          return;
        }
        val := Val.Num(k, FromBits(k, Get(data[off..off + Width(k)])));
        off := off + Width(k);
        status := Done;
      case Str =>
        var i := IndexByte();
        if i == |data| {
          return;
        }
        val := Val.Str(data[off..i]);
        off := i + 1;
        status := Done;
      case Bytes =>
        if off + 2 > |data| {
          return;
        }
        var n := Get(data[off..off + 2]);
        off := off + 2;
        if off + n > |data| {
          return;
        }
        val := Val.Bytes(data[off..off + n]);
        off := off + n;
        status := Done;
      case Ptr(e) =>
        status, val := DecodePointer(e, cell);
      case Struct(n) =>
        if !cell.Struct? || |cell.slots| != |env.structs[n]| {
          status := Mismatch;
          return;
        }
        status, val := DecodeStruct(n, cell.slots);
      case Slice(e) =>
        status, val := DecodeArray(e, cell);
    }

    /** The position of the next zero byte, or the end of the input. */
    method IndexByte() returns (i: nat)
      requires Valid()
      ensures i == FindNul(data, off)
    {
      i := off;
      while i < |data| && data[i] != 0
        invariant off <= i <= |data|
        invariant FindNul(data, off) == FindNul(data, i)
      {
        FindNulSkips(data, i);
        i := i + 1;
      }
    }

    method DecodePointer(e: Ty, cell: Val) returns (status: Status, val: Val)
      requires Valid() && Supported(env, Ty.Ptr(e))
      modifies this
      ensures Valid()
      ensures Res(status, val, St()) == Into(env, grow, Ty.Ptr(e), data, old(St()), cell)
      decreases |data| - off, TyRank(env, Ty.Ptr(e)), 0, 0
    {
      val := cell;
      if val.NilPtr? {
        mem := mem.(objs := mem.objs[next := Zero(env, e)]);
        val := Val.Ptr(next);
        next := next + 1;
      }
      if !val.Ptr? || val.ref !in mem.objs {
        status := Mismatch;
        return;
      }
      var pointee;
      if e.Bytes? {
        status, pointee := DecodeByteArray(mem.objs[val.ref]);
      } else {
        status, pointee := Decode(e, mem.objs[val.ref]);
      }
      mem := mem.(objs := mem.objs[val.ref := pointee]);
    }

    method DecodeStruct(n: nat, cell: seq<Slot>) returns (status: Status, val: Val)
      requires Valid() && n in env.structs && |cell| == |env.structs[n]|
      modifies this
      ensures Valid()
      ensures var r := SlotsInto(env, grow, env.structs[n], data, old(St()), cell, 0, env.rank[n]);
              status == r.status && val == Val.Struct(r.slots) && St() == r.st
      decreases |data| - off, env.rank[n], 0, 0
    {
      var fields, slots := env.structs[n], cell;
      ghost var all := SlotsInto(env, grow, fields, data, St(), slots, 0, env.rank[n]);
      for i := 0 to |fields|
        invariant Valid() && old(off) <= off && |slots| == |fields|
        invariant all == SlotsInto(env, grow, fields, data, St(), slots, i, env.rank[n])
      {
        if !Visited(fields[i].name) {
          continue;
        }
        var x;
        status, x := Decode(fields[i].ty, slots[i].val);
        slots := slots[i := slots[i].(val := x)];
        if status != Done {
          return status, Val.Struct(slots);
        }
      }
      status, val := Done, Val.Struct(slots);
    }

    method DecodeArray(e: Ty, cell: Val) returns (status: Status, sl: Val)
      requires Valid() && Supported(env, e)
      modifies this
      ensures Valid()
      ensures Res(status, sl, St()) == ArrayInto(env, grow, e, data, old(St()), cell)
      decreases |data| - off, 0, 0, 0
    {
      sl := cell;
      if off + 2 > |data| {
        return Eof, sl;
      }
      if !Usable(mem, sl) {
        return Mismatch, sl;
      }
      var n := Get(data[off..off + 2]);
      off := off + 2;
      var x := Zero(env, e);
      sl := if sl.NilSlice? then NilSlice else Val.Slice(sl.arr, 0);
      ghost var all := ElemsInto(env, grow, e, data, St(), x, sl, n);
      assert all == ArrayInto(env, grow, e, data, old(St()), cell);
      for i := 0 to n
        invariant old(off) < off <= |data|
        invariant all == ElemsInto(env, grow, e, data, St(), x, sl, n - i)
      {
        status, x := Decode(e, x);
        if status != Done {
          return;
        }
        if !Usable(mem, sl) {
          return Mismatch, sl;
        }
        sl := AppendTo(e, sl, x);
      }
      status := Done;
    }

    method AppendTo(e: Ty, sl: Val, x: Val) returns (sl': Val)
      requires Valid() && Supported(env, e) && Usable(mem, sl)
      modifies this
      ensures Valid()
      ensures (sl', St()) == Append(grow, e, Zero(env, e), sl, x, old(St()))
    {
      var have := Contents(mem, sl);
      if sl.Slice? && sl.len < |mem.arrays[sl.arr]| {
        mem := mem.(arrays := mem.arrays[sl.arr := mem.arrays[sl.arr][sl.len := x]]);
        return Val.Slice(sl.arr, sl.len + 1);
      }
      var zero := Zero(env, e);
      var spare := seq(Capacity(grow, e, |have|) - |have| - 1, i => zero);
      mem := mem.(arrays := mem.arrays[next := have + [x] + spare]);
      sl' := Val.Slice(next, |have| + 1);
      next := next + 1;
    }

    method DecodeByteArray(cell: Val) returns (status: Status, val: Val)
      requires Valid()
      modifies this`off
      ensures Valid()
      ensures Res(status, val, St()) == ByteArrayInto(data, old(St()), cell)
    {
      val := cell;
      if off + 2 > |data| {
        return Eof, val;
      }
      if !cell.Bytes? {
        return Mismatch, val;
      }
      var n := Get(data[off..off + 2]);
      off := off + 2;
      var s: seq<byte> := [];
      for i := 0 to n
        invariant off == old(off) + 2 + i <= |data|
        invariant s == data[old(off) + 2..off]
      {
        if off >= |data| {
          assert s == data[old(off) + 2..];
          return Eof, Val.Bytes(s);
        }
        s := s + [data[off]];
        off := off + 1;
      }
      return Done, Val.Bytes(s);
    }
  }

  /** The tree t is what the first n bytes of p encode, up to the spelling of booleans. */
  ghost predicate EncodedBy(env: Env, ty: Ty, t: Tree, p: seq<byte>, n: nat) {
    && HasType(env, t, ty) && Encodable(t)
    && |Wire(t)| == n <= |p|
    && Normalises(p[..n], BoolMask(t), Wire(t))
  }

  /**
   * Unmarshal into a zero variable. For a flat type: whatever encodable value the input starts with is recovered,
   * however much follows it; and whatever is recovered is what the consumed bytes encode.
   */
  method Unmarshal(env: Env, grow: Grow, ty: Ty, p: seq<byte>, mem: Mem, next: Ref)
    returns (n: nat, status: Status, val: Val, mem': Mem)
    requires ValidEnv(env) && Supported(env, ty) && Allocated(State(0, mem, next))
    ensures var r := Into(env, grow, ty, p, State(0, mem, next), Zero(env, ty));
            n == r.st.off && status == r.status && val == r.val && mem' == r.st.mem
    ensures Flat(env, ty) ==>
              && status != Mismatch && Extends(mem, mem')
              && (forall t :: HasType(env, t, ty) && Encodable(t) && Wire(t) <= p ==>
                    n == |Wire(t)| && status == Done && Unfolds(mem', val, t))
              && (status == Done ==> exists t :: Unfolds(mem', val, t) && EncodedBy(env, ty, t, p, n))
  {
    var d := new DecodeState(p, env, grow, mem, next);
    status, val := d.Decode(ty, Zero(env, ty));
    n, mem' := d.off, d.mem;
    if Flat(env, ty) {
      UnmarshalFlat(env, grow, ty, p, mem, next);
    }
  }

  lemma UnmarshalFlat(env: Env, grow: Grow, ty: Ty, p: seq<byte>, mem: Mem, next: Ref)
    requires ValidEnv(env) && Supported(env, ty) && Flat(env, ty) && Allocated(State(0, mem, next))
    ensures var r := Into(env, grow, ty, p, State(0, mem, next), Zero(env, ty));
            && r.status != Mismatch && Extends(mem, r.st.mem)
            && (forall t :: HasType(env, t, ty) && Encodable(t) && Wire(t) <= p ==>
                  r.st.off == |Wire(t)| && r.status == Done && Unfolds(r.st.mem, r.val, t))
            && (r.status == Done ==> exists t :: Unfolds(r.st.mem, r.val, t) && EncodedBy(env, ty, t, p, r.st.off))
  {
    var st := State(0, mem, next);
    FlatInto(env, grow, ty, p, st);
    var r, d := Into(env, grow, ty, p, st, Zero(env, ty)), WireFormat.Decode(env, ty, p, 0);
    if d.Ok? {
      UnfoldsExtends(Since(r.st.mem, next), r.st.mem, r.val, d.value);
      DecodeThenWire(env, ty, p, 0);
      assert p[0..d.off] == p[..d.off];
      assert EncodedBy(env, ty, d.value, p, r.st.off);
    }
    forall t | HasType(env, t, ty) && Encodable(t) && Wire(t) <= p
      ensures r.st.off == |Wire(t)| && r.status == Done && Unfolds(r.st.mem, r.val, t)
    {
      assert At(p, 0, Wire(t));
      DecodeWire(env, ty, t, p, 0);
    }
  }
}
