/** The check that message types pass when they are registered, and what it promises about encoding them. */
module TypeCheck {
  import opened GoMemory
  import opened WireFormat
  import opened Decoder
  import opened Flatness
  import opened RoundTrip

  datatype CheckError = NotAPointer | NotAStructPointer | PointerToOther | CannotUse

  function Depth(depth: map<nat, nat>, ty: Ty): nat {
    match ty
    case Struct(n) => if n in depth then depth[n] else 0
    case Slice(e) => 1 + Depth(depth, e)
    case Ptr(e) => 1 + Depth(depth, e)
    case _ => 0
  }

  /** The structs that a type names are declared. */
  predicate Declared(env: Env, ty: Ty) {
    match ty
    case Struct(n) => n in env.structs
    case Slice(e) => Declared(env, e)
    case Ptr(e) => Declared(env, e)
    case _ => true
  }

  /** No struct contains itself, not even through slices or pointers; on one that does, the check would not return. */
  ghost predicate Finite(env: Env, depth: map<nat, nat>) {
    && env.structs.Keys == depth.Keys
    && forall n, i :: n in env.structs && 0 <= i < |env.structs[n]| && Visited(env.structs[n][i].name) ==>
         Declared(env, env.structs[n][i].ty) && Depth(depth, env.structs[n][i].ty) < depth[n]
  }

  ghost predicate FieldsFinite(env: Env, depth: map<nat, nat>, fields: seq<Field>, bound: nat) {
    forall i :: 0 <= i < |fields| && Visited(fields[i].name) ==>
      Declared(env, fields[i].ty) && Depth(depth, fields[i].ty) < bound
  }

  // ---- The check ----

  function Check(env: Env, ghost depth: map<nat, nat>, ty: Ty): (r: Option<CheckError>)
    requires Finite(env, depth) && Declared(env, ty)
    decreases Depth(depth, ty), 1, 0
  {
    match ty
    case Struct(n) => CheckFields(env, depth, env.structs[n], depth[n])
    case Slice(e) => Check(env, depth, e)
    case Ptr(e) => if !e.Struct? then Some(PointerToOther) else Check(env, depth, e)
    case Other => Some(CannotUse)
    case _ => None
  }

  function CheckFields(
      env: Env, ghost depth: map<nat, nat>, fields: seq<Field>, ghost bound: nat): (r: Option<CheckError>)
    requires Finite(env, depth) && FieldsFinite(env, depth, fields, bound)
    decreases bound, 0, |fields|
  {
    if fields == [] then None
    else if !Visited(fields[0].name) then CheckFields(env, depth, fields[1..], bound)
    else
      match Check(env, depth, fields[0].ty)
      case Some(e) => Some(e)
      case None => CheckFields(env, depth, fields[1..], bound)
  }

  function CheckRegisterType(env: Env, ghost depth: map<nat, nat>, ty: Ty): (r: Option<CheckError>)
    requires Finite(env, depth) && Declared(env, ty)
  {
    if !ty.Ptr? then Some(NotAPointer)
    else if !ty.elem.Struct? then Some(NotAStructPointer)
    else Check(env, depth, ty)
  }

  // ---- What it accepts ----

  /** The types that occur in a type: itself, its elements, pointees and visited fields, and what occurs in those. */
  function Parts(env: Env, ghost depth: map<nat, nat>, ty: Ty): set<Ty>
    requires Finite(env, depth) && Declared(env, ty)
    decreases Depth(depth, ty), 1, 0
  {
    {ty} +
    match ty
    case Struct(n) => PartsOfFields(env, depth, env.structs[n], depth[n])
    case Slice(e) => Parts(env, depth, e)
    case Ptr(e) => Parts(env, depth, e)
    case _ => {}
  }

  function PartsOfFields(env: Env, ghost depth: map<nat, nat>, fields: seq<Field>, ghost bound: nat): set<Ty>
    requires Finite(env, depth) && FieldsFinite(env, depth, fields, bound)
    decreases bound, 0, |fields|
  {
    if fields == [] then {}
    else
      (if Visited(fields[0].name) then Parts(env, depth, fields[0].ty) else {})
      + PartsOfFields(env, depth, fields[1..], bound)
  }

  /** A type the check has nothing against by itself. */
  predicate Unobjectionable(ty: Ty) {
    !ty.Other? && (ty.Ptr? ==> ty.elem.Struct?)
  }

  /** Exactly the types all of whose parts are unobjectionable are accepted. */
  lemma {:induction false} CheckIsExact(env: Env, depth: map<nat, nat>, ty: Ty)
    requires Finite(env, depth) && Declared(env, ty)
    ensures Check(env, depth, ty).None? <==> forall u :: u in Parts(env, depth, ty) ==> Unobjectionable(u)
    decreases Depth(depth, ty), 1, 0
  {
    assert ty in Parts(env, depth, ty);
    match ty
    case Struct(n) => CheckFieldsIsExact(env, depth, env.structs[n], depth[n]);
    case Slice(e) => CheckIsExact(env, depth, e);
    case Ptr(e) =>
      CheckIsExact(env, depth, e);
      assert !e.Struct? ==> !Unobjectionable(ty);
    case _ => assert Unobjectionable(ty) <==> !ty.Other?;
  }

  lemma {:induction false} CheckFieldsIsExact(env: Env, depth: map<nat, nat>, fields: seq<Field>, bound: nat)
    requires Finite(env, depth) && FieldsFinite(env, depth, fields, bound)
    ensures CheckFields(env, depth, fields, bound).None? <==>
            forall u :: u in PartsOfFields(env, depth, fields, bound) ==> Unobjectionable(u)
    decreases bound, 0, |fields|
  {
    if fields != [] {
      if Visited(fields[0].name) {
        CheckIsExact(env, depth, fields[0].ty);
      }
      CheckFieldsIsExact(env, depth, fields[1..], bound);
    }
  }

  /** A part that gives a reason for the error. */
  predicate Causes(u: Ty, e: CheckError) {
    match e
    case PointerToOther => u.Ptr? && !u.elem.Struct?
    case CannotUse => u.Other?
    case _ => false
  }

  lemma {:induction false} CheckHasCause(env: Env, depth: map<nat, nat>, ty: Ty)
    requires Finite(env, depth) && Declared(env, ty)
    ensures var r := Check(env, depth, ty); r.Some? ==> exists u :: u in Parts(env, depth, ty) && Causes(u, r.value)
    decreases Depth(depth, ty), 1, 0
  {
    assert ty in Parts(env, depth, ty);
    match ty
    case Struct(n) => CheckFieldsHasCause(env, depth, env.structs[n], depth[n]);
    case Slice(e) => CheckHasCause(env, depth, e);
    case Ptr(e) =>
      if e.Struct? {
        CheckHasCause(env, depth, e);
      } else {
        assert Causes(ty, PointerToOther);
      }
    case Other => assert Causes(ty, CannotUse);
    case _ =>
  }

  lemma {:induction false} CheckFieldsHasCause(env: Env, depth: map<nat, nat>, fields: seq<Field>, bound: nat)
    requires Finite(env, depth) && FieldsFinite(env, depth, fields, bound)
    ensures var r := CheckFields(env, depth, fields, bound);
            r.Some? ==> exists u :: u in PartsOfFields(env, depth, fields, bound) && Causes(u, r.value)
    decreases bound, 0, |fields|
  {
    if fields != [] {
      if Visited(fields[0].name) {
        CheckHasCause(env, depth, fields[0].ty);
      }
      CheckFieldsHasCause(env, depth, fields[1..], bound);
    }
  }

  /** Registration takes pointers to structs, of unobjectionable parts, and each of its errors has its cause. */
  lemma RegistrationIsExact(env: Env, depth: map<nat, nat>, ty: Ty)
    requires Finite(env, depth) && Declared(env, ty)
    ensures var r := CheckRegisterType(env, depth, ty);
            && (r == Some(NotAPointer) <==> !ty.Ptr?)
            && (r == Some(NotAStructPointer) <==> ty.Ptr? && !ty.elem.Struct?)
            && (r.None? <==>
                ty.Ptr? && ty.elem.Struct? && forall u :: u in Parts(env, depth, ty) ==> Unobjectionable(u))
            && (r.Some? && ty.Ptr? && ty.elem.Struct? ==>
                exists u :: u in Parts(env, depth, ty) && Causes(u, r.value))
  {
    CheckIsExact(env, depth, ty);
    CheckHasCause(env, depth, ty);
  }

  // ---- What it promises about the encoder ----

  /** A part on which encode panics, though the check accepts it: an unlisted type, or a struct with a barred field. */
  predicate Panics(env: Env, u: Ty) {
    u.Unlisted? || (u.Struct? && u.name in env.structs && BarsField(env.structs[u.name]))
  }

  predicate BarsField(fields: seq<Field>) {
    exists f :: f in fields && Barred(f.name)
  }

  predicate Sound(env: Env, parts: set<Ty>) {
    forall u :: u in parts ==> !Panics(env, u)
  }

  /** A value of the type in which nothing is nil or empty, and which therefore visits every part. */
  ghost function Sample(env: Env, depth: map<nat, nat>, ty: Ty): (t: Tree)
    requires Finite(env, depth) && Declared(env, ty)
    ensures HasType(env, t, ty)
    decreases Depth(depth, ty), 1, 0
  {
    match ty
    case Bool => Tree.Bool(false)
    case Num(k) => HalfIsWhole(Width(k)); Tree.Num(k, 0)
    case Str => Tree.Str([])
    case Bytes => Tree.Bytes([])
    case Struct(n) => Tree.Struct(Samples(env, depth, env.structs[n], depth[n]))
    case Slice(e) => Tree.Slice([Sample(env, depth, e)])
    case Ptr(e) => Tree.Ptr(Sample(env, depth, e))
    case Unlisted => Tree.Opaque
    case Other => Tree.Opaque
  }

  ghost function Samples(env: Env, depth: map<nat, nat>, fields: seq<Field>, bound: nat): (ts: seq<Tree>)
    requires Finite(env, depth) && FieldsFinite(env, depth, fields, bound)
    ensures FieldsHaveTypes(env, ts, fields)
    decreases bound, 0, |fields|
  {
    if fields == [] then []
    else
      [if Barred(fields[0].name) then Tree.Opaque
       else if Visited(fields[0].name) then Sample(env, depth, fields[0].ty)
       else Hidden]
      + Samples(env, depth, fields[1..], bound)
  }

  /** Of an accepted type, the sample encodes without fault unless encode panics on one of the parts. */
  lemma {:induction false} SampleFault(env: Env, depth: map<nat, nat>, ty: Ty)
    requires Finite(env, depth) && Declared(env, ty) && Check(env, depth, ty).None?
    ensures EncTree(Sample(env, depth, ty)).fault ==
            if Sound(env, Parts(env, depth, ty)) then None else Some(UnknownKind)
    decreases Depth(depth, ty), 1, 0
  {
    match ty
    case Struct(n) => SamplesFault(env, depth, env.structs[n], depth[n]);
    case Slice(e) =>
      SampleFault(env, depth, e);
      var t := Sample(env, depth, e);
      assert EncAll([t]) == Then(EncTree(t), EncAll([t][1..]));
    case Ptr(e) => SampleFault(env, depth, e);
    case _ =>
  }

  lemma {:induction false} SamplesFault(env: Env, depth: map<nat, nat>, fields: seq<Field>, bound: nat)
    requires Finite(env, depth) && FieldsFinite(env, depth, fields, bound)
    requires CheckFields(env, depth, fields, bound).None?
    ensures EncAll(Samples(env, depth, fields, bound)).fault ==
            if Sound(env, PartsOfFields(env, depth, fields, bound)) && !BarsField(fields) then None
            else Some(UnknownKind)
    decreases bound, 0, |fields|
  {
    if fields != [] {
      var ts := Samples(env, depth, fields, bound);
      assert ts[1..] == Samples(env, depth, fields[1..], bound);
      if Visited(fields[0].name) && !Barred(fields[0].name) {
        SampleFault(env, depth, fields[0].ty);
      }
      SamplesFault(env, depth, fields[1..], bound);
    }
  }

  /** On values of an accepted type encode does not panic unless it does on a part. */
  lemma {:induction false} AcceptedIsKnown(env: Env, depth: map<nat, nat>, ty: Ty, t: Tree)
    requires Finite(env, depth) && Declared(env, ty) && Check(env, depth, ty).None? && Sound(env, Parts(env, depth, ty))
    requires HasType(env, t, ty)
    ensures EncTree(t).fault != Some(UnknownKind)
    decreases t, 1
  {
    assert ty in Parts(env, depth, ty);
    match t
    case Struct(fs) => AcceptedFieldsAreKnown(env, depth, env.structs[ty.name], depth[ty.name], fs);
    case Slice(es) => AcceptedElemsAreKnown(env, depth, ty.elem, es);
    case Ptr(t') => AcceptedIsKnown(env, depth, ty.elem, t');
    case _ =>
  }

  lemma {:induction false} AcceptedFieldsAreKnown(
      env: Env, depth: map<nat, nat>, fields: seq<Field>, bound: nat, fs: seq<Tree>)
    requires Finite(env, depth) && FieldsFinite(env, depth, fields, bound)
    requires CheckFields(env, depth, fields, bound).None?
    requires Sound(env, PartsOfFields(env, depth, fields, bound)) && !BarsField(fields)
    requires FieldsHaveTypes(env, fs, fields)
    ensures EncAll(fs).fault != Some(UnknownKind)
    decreases fs, 0
  {
    if fs != [] {
      if Visited(fields[0].name) {
        AcceptedIsKnown(env, depth, fields[0].ty, fs[0]);
      }
      AcceptedFieldsAreKnown(env, depth, fields[1..], bound, fs[1..]);
    }
  }

  lemma {:induction false} AcceptedElemsAreKnown(env: Env, depth: map<nat, nat>, e: Ty, es: seq<Tree>)
    requires Finite(env, depth) && Declared(env, e) && Check(env, depth, e).None? && Sound(env, Parts(env, depth, e))
    requires forall i :: 0 <= i < |es| ==> HasType(env, es[i], e)
    ensures EncAll(es).fault != Some(UnknownKind)
    decreases es, 0
  {
    if es != [] {
      AcceptedIsKnown(env, depth, e, es[0]);
      AcceptedElemsAreKnown(env, depth, e, es[1..]);
    }
  }

  /**
   * Registration rules out the panic of encode for all values of the type exactly when no int8 and no named basic type
   * occurs in it, and no struct with a field whose name starts neither with an upper-case letter nor with a to z.
   */
  lemma RegistrationPreventsPanicsExactlyWhenSound(env: Env, depth: map<nat, nat>, ty: Ty)
    requires Finite(env, depth) && Declared(env, ty) && CheckRegisterType(env, depth, ty).None?
    ensures (forall t :: HasType(env, t, ty) ==> EncTree(t).fault != Some(UnknownKind))
            <==> Sound(env, Parts(env, depth, ty))
  {
    SampleFault(env, depth, ty);
    if Sound(env, Parts(env, depth, ty)) {
      forall t | HasType(env, t, ty) ensures EncTree(t).fault != Some(UnknownKind) {
        AcceptedIsKnown(env, depth, ty, t);
      }
    }
  }

  /** A struct with the one field _x, an int32. */
  const BARRED_FIELD := Env(map[0 := [Field([Letter('_', false), Letter('x', false)], Ty.Num(Int32))]], map[0 := 1])

  /** Such a struct is registered, and encode panics on every pointer to one that is not nil. */
  lemma BarredFieldIsRegisteredAndPanics(t: Tree)
    requires HasType(BARRED_FIELD, t, Ty.Struct(0))
    ensures Finite(BARRED_FIELD, BARRED_FIELD.rank)
    ensures CheckRegisterType(BARRED_FIELD, BARRED_FIELD.rank, Ty.Ptr(Ty.Struct(0))).None?
    ensures EncTree(Tree.Ptr(t)).fault == Some(UnknownKind)
  {
    var env := BARRED_FIELD;
    var fields := env.structs[0];
    assert |fields| == 1 && Barred(fields[0].name);
    assert CheckFields(env, env.rank, fields[1..], 1).None?;
    assert CheckFields(env, env.rank, env.structs[0], 1).None?;
    assert t.fs[0].Opaque?;
    assert EncAll(t.fs) == Then(EncTree(t.fs[0]), EncAll(t.fs[1..]));
    assert EncTree(t) == EncAll(t.fs);
  }

  /** Accepted, and nothing in it makes encode panic. A slice of bytes is written as the type Bytes. */
  ghost predicate Codable(env: Env, depth: map<nat, nat>, ty: Ty)
    requires Finite(env, depth) && Declared(env, ty)
  {
    && Check(env, depth, ty).None?
    && Sound(env, Parts(env, depth, ty)) && Ty.Slice(Ty.Num(Byte)) !in Parts(env, depth, ty)
  }

  lemma {:induction false} CodableIsSupported(env: Env, ty: Ty)
    requires Finite(env, env.rank) && Declared(env, ty) && Codable(env, env.rank, ty)
    ensures Supported(env, ty) && TyRank(env, ty) <= Depth(env.rank, ty)
    decreases ty
  {
    assert ty in Parts(env, env.rank, ty);
    match ty
    case Slice(e) => CodableIsSupported(env, e);
    case Ptr(e) => CodableIsSupported(env, e);
    case _ =>
  }

  lemma {:induction false} CodableFields(env: Env, fields: seq<Field>, bound: nat, i: nat)
    requires Finite(env, env.rank) && FieldsFinite(env, env.rank, fields, bound)
    requires CheckFields(env, env.rank, fields, bound).None?
    requires Sound(env, PartsOfFields(env, env.rank, fields, bound))
    requires Ty.Slice(Ty.Num(Byte)) !in PartsOfFields(env, env.rank, fields, bound)
    requires i < |fields| && Visited(fields[i].name)
    ensures Codable(env, env.rank, fields[i].ty)
    decreases |fields|
  {
    if i > 0 {
      CodableFields(env, fields[1..], bound, i - 1);
    }
  }

  /** What registration accepts is, panics aside, what the theorems about the codec are stated for. */
  lemma RegisteredTypesAreSupported(env: Env)
    requires Finite(env, env.rank) && forall n :: n in env.structs ==> Codable(env, env.rank, Ty.Struct(n))
    ensures ValidEnv(env)
    ensures forall ty :: Declared(env, ty) && Codable(env, env.rank, ty) ==> Supported(env, ty)
  {
    forall ty | Declared(env, ty) && Codable(env, env.rank, ty) ensures Supported(env, ty) {
      CodableIsSupported(env, ty);
    }
    forall n, i | n in env.structs && 0 <= i < |env.structs[n]| && Visited(env.structs[n][i].name)
      ensures Supported(env, env.structs[n][i].ty) && TyRank(env, env.structs[n][i].ty) < env.rank[n]
    {
      assert Codable(env, env.rank, Ty.Struct(n));
      CodableFields(env, env.structs[n], env.rank[n], i);
      CodableIsSupported(env, env.structs[n][i].ty);
    }
  }

  // ---- What it refuses without need ----

  /** A pointer to a slice is refused, although the codec handles it like one to a struct. */
  lemma PointerToSliceIsRefusedNeedlessly(env: Env, depth: map<nat, nat>, grow: Grow, e: Ty)
    requires Finite(env, depth) && Declared(env, e)
    ensures Check(env, depth, Ty.Ptr(Ty.Slice(e))) == Some(PointerToOther)
    ensures ValidEnv(env) && Supported(env, Ty.Slice(e)) ==>
              && Supported(env, Ty.Ptr(Ty.Slice(e)))
              && (RoundTrips(env, grow, Ty.Ptr(Ty.Slice(e))) <==> FlatElement(env, e))
  {
    if ValidEnv(env) && Supported(env, Ty.Slice(e)) {
      RoundTripsExactlyWhenFlat(env, grow, Ty.Ptr(Ty.Slice(e)));
    }
  }

  // ---- What it does not promise ----

  /** A list of pointers to a struct of one byte, in a struct. */
  const LIST_OF_POINTERS := Env(
    map[0 := [Field([Letter('A', true)], Ty.Num(Byte))],
        1 := [Field([Letter('B', true)], Ty.Slice(Ty.Ptr(Ty.Struct(0))))]],
    map[0 := 1, 1 := 4])

  lemma ListOfPointersIsValid()
    ensures Finite(LIST_OF_POINTERS, LIST_OF_POINTERS.rank) && ValidEnv(LIST_OF_POINTERS)
  {
    assert Visited([Letter('A', true)]) && Visited([Letter('B', true)]);
  }

  lemma ListOfPointersIsAccepted()
    requires Finite(LIST_OF_POINTERS, LIST_OF_POINTERS.rank)
    ensures CheckRegisterType(LIST_OF_POINTERS, LIST_OF_POINTERS.rank, Ty.Ptr(Ty.Struct(1))).None?
  {
    var env, e := LIST_OF_POINTERS, Ty.Ptr(Ty.Struct(0));
    assert CheckFields(env, env.rank, env.structs[0], 1).None?;
    assert Check(env, env.rank, Ty.Slice(e)).None?;
    assert CheckFields(env, env.rank, env.structs[1], 4).None?;
  }

  lemma ListOfPointersIsNotFlat()
    requires ValidEnv(LIST_OF_POINTERS)
    ensures !Flat(LIST_OF_POINTERS, Ty.Ptr(Ty.Struct(1)))
  {
    var env, e := LIST_OF_POINTERS, Ty.Ptr(Ty.Struct(0));
    assert Visited([Letter('A', true)]) && Visited([Letter('B', true)]);
    assert !Blank(env, Ty.Struct(0)) by { assert !Blank(env, env.structs[0][0].ty); }
    assert !Flat(env, Ty.Struct(1)) by { assert !Flat(env, env.structs[1][0].ty); }
  }

  /** A registered type need not survive a round trip. */
  lemma RegisteredTypeLosesValues(grow: Grow)
    ensures var env, ty := LIST_OF_POINTERS, Ty.Ptr(Ty.Struct(1));
            && Finite(env, env.rank) && Declared(env, ty) && CheckRegisterType(env, env.rank, ty).None?
            && ValidEnv(env) && Supported(env, ty) && !RoundTrips(env, grow, ty)
  {
    ListOfPointersIsValid();
    ListOfPointersIsAccepted();
    ListOfPointersIsNotFlat();
    RoundTripsExactlyWhenFlat(LIST_OF_POINTERS, grow, Ty.Ptr(Ty.Struct(1)));
  }
}
