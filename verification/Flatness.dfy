/**
 * Which types survive the reuse of one cell for all elements of a slice. Elements appended earlier share with the cell
 * whatever its pointers and slices lead to, and later rounds write there. This cannot be seen exactly where only values
 * that carry no information are written.
 */
module Flatness {
  import opened LittleEndian
  import opened GoMemory
  import opened WireFormat

  // ---- Element types for which reuse cannot be seen ----

  /** A type whose values carry no information, as all of them encode to nothing. */
  ghost predicate Blank(env: Env, ty: Ty)
    requires ValidEnv(env) && Supported(env, ty)
    decreases TyRank(env, ty)
  {
    match ty
    case Struct(n) =>
      forall i :: 0 <= i < |env.structs[n]| && Visited(env.structs[n][i].name) ==> Blank(env, env.structs[n][i].ty)
    case Ptr(e) => Blank(env, e)
    case _ => false
  }

  /** Pointers and non-byte slices in values of this type lead to blank values only. */
  ghost predicate FlatElement(env: Env, ty: Ty)
    requires ValidEnv(env) && Supported(env, ty)
    decreases TyRank(env, ty)
  {
    match ty
    case Slice(e) => Blank(env, e)
    case Ptr(e) => Blank(env, e)
    case Struct(n) =>
      forall i :: 0 <= i < |env.structs[n]| && Visited(env.structs[n][i].name) ==>
        FlatElement(env, env.structs[n][i].ty)
    case _ => true
  }

  /** Every slice in the type has flat elements. */
  ghost predicate Flat(env: Env, ty: Ty)
    requires ValidEnv(env) && Supported(env, ty)
    decreases TyRank(env, ty)
  {
    match ty
    case Slice(e) => FlatElement(env, e)
    case Ptr(e) => Flat(env, e)
    case Struct(n) =>
      forall i :: 0 <= i < |env.structs[n]| && Visited(env.structs[n][i].name) ==> Flat(env, env.structs[n][i].ty)
    case _ => true
  }

  lemma {:induction false} BlankIsFlatElement(env: Env, ty: Ty)
    requires ValidEnv(env) && Supported(env, ty) && Blank(env, ty)
    ensures FlatElement(env, ty)
    decreases TyRank(env, ty)
  {
    if ty.Struct? {
      var fields := env.structs[ty.name];
      forall i | 0 <= i < |fields| && Visited(fields[i].name) ensures FlatElement(env, fields[i].ty) {
        BlankIsFlatElement(env, fields[i].ty);
      }
    }
  }

  // ---- The only value of a blank type ----

  /** A value of every type; of a blank type, the only one that can be encoded. */
  ghost function Default(env: Env, ty: Ty): (t: Tree)
    requires ValidEnv(env) && Supported(env, ty)
    ensures HasType(env, t, ty) && Encodable(t)
    decreases TyRank(env, ty), 1, 0
  {
    match ty
    case Bool => Tree.Bool(false)
    case Num(k) => HalfIsWhole(Width(k)); Tree.Num(k, 0)
    case Str => Tree.Str([])
    case Bytes => Tree.Bytes([])
    case Struct(n) => Tree.Struct(Defaults(env, env.structs[n], env.rank[n]))
    case Slice(_) => Tree.Slice([])
    case Ptr(e) => Tree.Ptr(Default(env, e))
  }

  ghost function Defaults(env: Env, fields: seq<Field>, rank: nat): (ts: seq<Tree>)
    requires ValidEnv(env)
    requires FieldsBelow(env, fields, rank)
    ensures FieldsHaveTypes(env, ts, fields) && forall t :: t in ts ==> Encodable(t)
    decreases rank, 0, |fields|
  {
    if fields == [] then []
    else [if Visited(fields[0].name) then Default(env, fields[0].ty) else Hidden] + Defaults(env, fields[1..], rank)
  }

  lemma {:induction false} BlankDecode(env: Env, ty: Ty, p: seq<byte>, off: nat)
    requires ValidEnv(env) && Supported(env, ty) && Blank(env, ty) && off <= |p|
    ensures Decode(env, ty, p, off) == Ok(Default(env, ty), off)
    decreases TyRank(env, ty), 1, 0
  {
    match ty
    case Struct(n) => BlankFieldsDecode(env, env.structs[n], p, off, env.rank[n]);
    case Ptr(e) => BlankDecode(env, e, p, off);
  }

  lemma {:induction false} BlankFieldsDecode(env: Env, fields: seq<Field>, p: seq<byte>, off: nat, rank: nat)
    requires ValidEnv(env) && FieldsBelow(env, fields, rank) && off <= |p|
    requires forall i :: 0 <= i < |fields| && Visited(fields[i].name) ==> Blank(env, fields[i].ty)
    ensures DecodeFields(env, fields, p, off, rank) == Ok(Defaults(env, fields, rank), off)
    decreases rank, 0, |fields|
  {
    if fields != [] {
      BlankFieldsDecode(env, fields[1..], p, off, rank);
      if Visited(fields[0].name) {
        BlankDecode(env, fields[0].ty, p, off);
      }
    }
  }

  ghost function Copies(t: Tree, n: nat): (ts: seq<Tree>)
    ensures |ts| == n && forall i :: 0 <= i < n ==> ts[i] == t
  {
    seq(n, i => t)
  }

  lemma {:induction false} BlankElemsDecode(env: Env, e: Ty, p: seq<byte>, off: nat, n: nat)
    requires ValidEnv(env) && Supported(env, e) && Blank(env, e) && off <= |p|
    ensures DecodeElems(env, e, p, off, n) == Ok(Copies(Default(env, e), n), off)
  {
    if n > 0 {
      BlankDecode(env, e, p, off);
      BlankElemsDecode(env, e, p, off, n - 1);
      assert [Default(env, e)] + Copies(Default(env, e), n - 1) == Copies(Default(env, e), n);
    }
  }
}
