/** The Go types the codec walks, the memory their values live in, and the finite trees those values unfold to. */
module GoMemory {
  import opened LittleEndian

  /** The fixed-width numeric types; a float is its bit pattern. */
  datatype Kind = Byte | Int16 | Uint16 | Int32 | Uint32 | Float32 | Float64

  function Width(k: Kind): nat {
    match k
    case Byte => 1
    case Int16 => 2
    case Uint16 => 2
    case Int32 => 4
    case Uint32 => 4
    case Float32 => 4
    case Float64 => 8
  }

  predicate Signed(k: Kind) {
    k.Int16? || k.Int32?
  }

  predicate InRange(k: Kind, n: int) {
    if Signed(k) then -(Pow256(Width(k)) / 2) <= n < Pow256(Width(k)) / 2 else 0 <= n < Pow256(Width(k))
  }

  /** The Go conversion to the unsigned type of the same width. */
  function ToBits(k: Kind, n: int): nat {
    n % Pow256(Width(k))
  }

  /** The Go conversion back from the unsigned type of the same width. */
  function FromBits(k: Kind, u: nat): int {
    if Signed(k) && u >= Pow256(Width(k)) / 2 then u - Pow256(Width(k)) else u
  }

  lemma ModuloOnce(n: int, p: int)
    requires 0 < p && -p <= n < p
    ensures n % p == if n < 0 then n + p else n
  {
  }

  lemma HalfIsWhole(w: nat)
    requires w > 0
    ensures Pow256(w) == 2 * (Pow256(w) / 2)
  {
    assert Pow256(w) == 2 * (128 * Pow256(w - 1));
  }

  lemma BitsRoundTrip(k: Kind, n: int)
    requires InRange(k, n)
    ensures ToBits(k, n) < Pow256(Width(k)) && FromBits(k, ToBits(k, n)) == n
  {
    HalfIsWhole(Width(k));
    ModuloOnce(n, Pow256(Width(k)));
  }

  lemma BitsRoundTripBack(k: Kind, u: nat)
    requires u < Pow256(Width(k))
    ensures InRange(k, FromBits(k, u)) && ToBits(k, FromBits(k, u)) == u
  {
    HalfIsWhole(Width(k));
    ModuloOnce(FromBits(k, u), Pow256(Width(k)));
  }

  /**
   * Types. A struct type is named, so that it may contain itself. Unlisted are the basic types of a kind that a
   * message may have but that the codec's switches do not list: int8, and every named basic type, such as a type Level
   * int32. Other are the kinds that a message may not have.
   */
  datatype Ty =
    | Bool | Num(kind: Kind) | Str | Bytes
    | Struct(name: nat) | Slice(elem: Ty) | Ptr(elem: Ty)
    | Unlisted | Other

  /** A letter of a name, and whether Unicode counts it among the upper-case letters. */
  datatype Letter = Letter(c: char, upper: bool)

  type Name = seq<Letter>

  datatype Field = Field(name: Name, ty: Ty)

  /** The struct declarations, with a rank that orders them by inline and pointer containment. */
  datatype Env = Env(structs: map<nat, seq<Field>>, rank: map<nat, nat>)

  /** The codec skips a field whose name starts with a lower-case ASCII letter. */
  predicate Visited(name: Name) {
    !(|name| > 0 && 'a' <= name[0].c <= 'z')
  }

  /** Go exports a field whose name starts with an upper-case letter. */
  predicate Exported(name: Name) {
    |name| > 0 && name[0].upper
  }

  /**
   * A field that the codec does not skip although Go does not export it, such as _x: the reflect package panics on it.
   */
  predicate Barred(name: Name) {
    Visited(name) && !Exported(name)
  }

  function TyRank(env: Env, ty: Ty): nat {
    match ty
    case Struct(n) => if n in env.rank then env.rank[n] else 0
    case Ptr(e) => 1 + TyRank(env, e)
    case _ => 0
  }

  /** A pointer may lead only to a struct or to a slice. */
  predicate PointerTarget(ty: Ty) {
    ty.Struct? || ty.Slice? || ty.Bytes?
  }

  predicate Supported(env: Env, ty: Ty) {
    match ty
    case Bool => true
    case Num(_) => true
    case Str => true
    case Bytes => true
    case Struct(n) => n in env.structs
    case Slice(e) => e != Ty.Num(Byte) && Supported(env, e)  // a slice of bytes is the type Bytes
    case Ptr(e) => PointerTarget(e) && Supported(env, e)
    case Unlisted => false
    case Other => false
  }

  /** Every visited field is exported and of a supported type. A struct may reach itself in any way. */
  ghost predicate SupportedFields(env: Env) {
    forall n, i :: n in env.structs && 0 <= i < |env.structs[n]| && Visited(env.structs[n][i].name) ==>
      !Barred(env.structs[n][i].name) && Supported(env, env.structs[n][i].ty)
  }

  /** Every visited field is exported and of a supported type, and a struct reaches itself only through a slice. */
  ghost predicate ValidEnv(env: Env) {
    && env.structs.Keys == env.rank.Keys
    && forall n, i :: n in env.structs && 0 <= i < |env.structs[n]| && Visited(env.structs[n][i].name) ==>
         && !Barred(env.structs[n][i].name)
         && Supported(env, env.structs[n][i].ty) && TyRank(env, env.structs[n][i].ty) < env.rank[n]
  }

  /** The visited fields are exported, and have supported types of lower rank. */
  ghost predicate FieldsBelow(env: Env, fields: seq<Field>, rank: nat) {
    forall i :: 0 <= i < |fields| && Visited(fields[i].name) ==>
      !Barred(fields[i].name) && Supported(env, fields[i].ty) && TyRank(env, fields[i].ty) < rank
  }

  type Ref = nat

  /** A Go value as it lies in a variable. A byte slice is a value of its own, as nothing ever writes into one. */
  datatype Val =
    | Bool(b: bool) | Num(kind: Kind, n: int) | Str(s: seq<byte>) | Bytes(s: seq<byte>)
    | Struct(slots: seq<Slot>)
    | NilSlice | Slice(arr: Ref, len: nat)
    | NilPtr | Ptr(ref: Ref)
    | Opaque

  datatype Slot = Slot(name: Name, val: Val)

  /** The objects pointers lead to, and the backing arrays of slices at their full capacity. */
  datatype Mem = Mem(objs: map<Ref, Val>, arrays: map<Ref, seq<Val>>)

  /** The tree unfolding of a value: what is left of it once addresses and sharing are forgotten. */
  datatype Tree =
    | Bool(b: bool) | Num(kind: Kind, n: int) | Str(s: seq<byte>) | Bytes(s: seq<byte>)
    | Struct(fs: seq<Tree>) | Slice(es: seq<Tree>) | Ptr(t: Tree) | Nil
    | Hidden  // a field that is skipped
    | Opaque  // a value of an unknown kind, or a barred field

  /** Value v of memory m unfolds to the finite tree t. Nil and empty slices are identified. */
  ghost predicate Unfolds(m: Mem, v: Val, t: Tree)
    decreases t
  {
    match t
    case Bool(b) => v == Val.Bool(b)
    case Num(k, n) => v == Val.Num(k, n)
    case Str(s) => v == Val.Str(s)
    case Bytes(s) => v == Val.Bytes(s)
    case Struct(fs) =>
      && v.Struct?
      && |v.slots| == |fs|
      && forall i :: 0 <= i < |fs| ==>
           if Barred(v.slots[i].name) then fs[i].Opaque?
           else if Visited(v.slots[i].name) then Unfolds(m, v.slots[i].val, fs[i])
           else fs[i].Hidden?
    case Slice(es) =>
      || (v.NilSlice? && es == [])
      || (&& v.Slice? && v.arr in m.arrays && v.len <= |m.arrays[v.arr]| && |es| == v.len
          && forall i :: 0 <= i < |es| ==> Unfolds(m, m.arrays[v.arr][i], es[i]))
    case Ptr(t') => v.Ptr? && v.ref in m.objs && Unfolds(m, m.objs[v.ref], t')
    case Nil => v.NilPtr?
    case Hidden => false
    case Opaque => v.Opaque?
  }

  lemma {:induction false} UnfoldsUnique(m: Mem, v: Val, t1: Tree, t2: Tree)
    requires Unfolds(m, v, t1) && Unfolds(m, v, t2)
    ensures t1 == t2
    decreases t1
  {
    match t1
    case Struct(fs) =>
      forall i | 0 <= i < |fs| ensures fs[i] == t2.fs[i] {
        if Visited(v.slots[i].name) && !Barred(v.slots[i].name) {
          UnfoldsUnique(m, v.slots[i].val, fs[i], t2.fs[i]);
        }
      }
    case Slice(es) =>
      forall i | 0 <= i < |es| ensures es[i] == t2.es[i] {
        UnfoldsUnique(m, m.arrays[v.arr][i], es[i], t2.es[i]);
      }
    case Ptr(t') => UnfoldsUnique(m, m.objs[v.ref], t', t2.t);
    case _ =>
  }

  /** m' holds everything m holds, unchanged. */
  ghost predicate Extends(m: Mem, m': Mem) {
    && (forall r :: r in m.objs ==> r in m'.objs && m'.objs[r] == m.objs[r])
    && (forall r :: r in m.arrays ==> r in m'.arrays && m'.arrays[r] == m.arrays[r])
  }

  lemma {:induction false} UnfoldsExtends(m: Mem, m': Mem, v: Val, t: Tree)
    requires Extends(m, m') && Unfolds(m, v, t)
    ensures Unfolds(m', v, t)
    decreases t
  {
    match t
    case Struct(fs) =>
      forall i | 0 <= i < |fs| && Visited(v.slots[i].name) && !Barred(v.slots[i].name)
        ensures Unfolds(m', v.slots[i].val, fs[i])
      {
        UnfoldsExtends(m, m', v.slots[i].val, fs[i]);
      }
    case Slice(es) =>
      if v.Slice? {
        forall i | 0 <= i < |es| ensures Unfolds(m', m'.arrays[v.arr][i], es[i]) {
          UnfoldsExtends(m, m', m.arrays[v.arr][i], es[i]);
        }
      }
    case Ptr(t') => UnfoldsExtends(m, m', m.objs[v.ref], t');
    case _ =>
  }

  /** Tree t is a value of type ty. */
  ghost predicate HasType(env: Env, t: Tree, ty: Ty)
    decreases t, 1
  {
    match t
    case Bool(_) => ty.Bool?
    case Num(k, n) => ty == Ty.Num(k) && InRange(k, n)
    case Str(_) => ty.Str?
    case Bytes(_) => ty.Bytes?
    case Struct(fs) => ty.Struct? && ty.name in env.structs && FieldsHaveTypes(env, fs, env.structs[ty.name])
    case Slice(es) => ty.Slice? && forall i :: 0 <= i < |es| ==> HasType(env, es[i], ty.elem)
    case Ptr(t') => ty.Ptr? && HasType(env, t', ty.elem)
    case Nil => ty.Ptr?
    case Hidden => false
    case Opaque => ty.Unlisted? || ty.Other?
  }

  ghost predicate FieldsHaveTypes(env: Env, fs: seq<Tree>, fields: seq<Field>)
    decreases fs, 0
  {
    && |fs| == |fields|
    && forall i :: 0 <= i < |fs| ==>
         if Barred(fields[i].name) then fs[i].Opaque?
         else if Visited(fields[i].name) then HasType(env, fs[i], fields[i].ty)
         else fs[i].Hidden?
  }
}
