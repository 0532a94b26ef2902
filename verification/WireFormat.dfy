/** The wire format as a relation between trees and bytes: an encoder and a decoder without memory, and their laws. */
module WireFormat {
  import opened LittleEndian
  import opened GoMemory

  datatype Option<+T> = None | Some(value: T)

  /** Why a walk stops: four error returns of encode, and the panic on a kind it does not know. */
  datatype Fault = NilPointer | NulInString | TooLong(n: nat) | Cycle | UnknownKind

  /** What a walk leaves in the buffer, and whether it stopped early. */
  datatype Out = Out(bytes: seq<byte>, fault: Option<Fault>)

  function Then(a: Out, b: Out): Out {
    if a.fault.Some? then a else Out(a.bytes + b.bytes, b.fault)
  }

  const MAX_ELEMENTS := 65535

  function PutNum(k: Kind, n: int): (s: seq<byte>) {
    Put(ToBits(k, n), Width(k))
  }

  function LengthPrefix(n: nat): (s: seq<byte>) {
    Put(n, 2)
  }

  // ---- Which trees have an encoding, and what it is ----

  predicate Encodable(t: Tree) {
    match t
    case Bool(_) => true
    case Num(_, _) => true
    case Str(s) => 0 !in s
    case Bytes(s) => |s| <= MAX_ELEMENTS
    case Struct(fs) => forall f | f in fs :: Encodable(f)
    case Slice(es) => |es| <= MAX_ELEMENTS && forall e | e in es :: Encodable(e)
    case Ptr(t') => (t'.Struct? || t'.Slice? || t'.Bytes?) && Encodable(t')
    case Nil => false
    case Hidden => true
    case Opaque => false
  }

  function Wire(t: Tree): seq<byte> {
    match t
    case Bool(b) => [if b then 1 else 0]
    case Num(k, n) => PutNum(k, n)
    case Str(s) => s + [0]
    case Bytes(s) => LengthPrefix(|s|) + s
    case Struct(fs) => WireAll(fs)
    case Slice(es) => LengthPrefix(|es|) + WireAll(es)
    case Ptr(t') => Wire(t')
    case _ => []
  }

  function WireAll(ts: seq<Tree>): seq<byte> {
    if ts == [] then [] else Wire(ts[0]) + WireAll(ts[1..])
  }

  // ---- The encoder on trees: the same order of checks and writes, with nothing shared ----

  function EncTree(t: Tree): Out {
    match t
    case Bool(b) => Out([if b then 1 else 0], None)
    case Num(k, n) => Out(PutNum(k, n), None)
    case Str(s) => if 0 in s then Out([], Some(NulInString)) else Out(s + [0], None)
    case Bytes(s) =>
      if |s| > MAX_ELEMENTS then Out([], Some(TooLong(|s|))) else Out(LengthPrefix(|s|) + s, None)
    case Struct(fs) => EncAll(fs)
    case Slice(es) =>
      if |es| > MAX_ELEMENTS then Out([], Some(TooLong(|es|)))
      else Then(Out(LengthPrefix(|es|), None), EncAll(es))
    case Ptr(t') => if t'.Struct? || t'.Slice? || t'.Bytes? then EncTree(t') else Out([], Some(UnknownKind))
    case Nil => Out([], Some(NilPointer))
    case Hidden => Out([], None)
    case Opaque => Out([], Some(UnknownKind))
  }

  function EncAll(ts: seq<Tree>): Out {
    if ts == [] then Out([], None) else Then(EncTree(ts[0]), EncAll(ts[1..]))
  }

  /** The tree encoder succeeds exactly on encodable trees, writes their wire form, and never reports a cycle. */
  lemma {:induction false} EncTreeExact(t: Tree)
    ensures EncTree(t).fault.None? <==> Encodable(t)
    ensures Encodable(t) ==> EncTree(t).bytes == Wire(t)
    ensures EncTree(t).fault != Some(Cycle)
    decreases t, 1
  {
    match t
    case Struct(fs) => EncAllExact(fs);
    case Slice(es) => EncAllExact(es);
    case Ptr(t') => EncTreeExact(t');
    case _ =>
  }

  lemma {:induction false} EncAllExact(ts: seq<Tree>)
    ensures EncAll(ts).fault.None? <==> forall t | t in ts :: Encodable(t)
    ensures EncAll(ts).fault.None? ==> EncAll(ts).bytes == WireAll(ts)
    ensures EncAll(ts).fault != Some(Cycle)
    decreases ts, 0
  {
    if ts != [] {
      EncTreeExact(ts[0]);
      EncAllExact(ts[1..]);
      assert forall t :: t in ts <==> t == ts[0] || t in ts[1..];
    }
  }

  // ---- The decoder into fresh variables ----

  /** Fail carries the offset at which decoding gave up. */
  datatype Dec<+T> = Ok(value: T, off: nat) | Fail(off: nat)

  /** The position of the first zero byte at or after off, or the end of p. */
  function FindNul(p: seq<byte>, off: nat): (i: nat)
    requires off <= |p|
    ensures off <= i <= |p|
    ensures forall j :: off <= j < i ==> p[j] != 0
    ensures i < |p| ==> p[i] == 0
    decreases |p| - off
  {
    if off == |p| || p[off] == 0 then off else FindNul(p, off + 1)
  }

  /** Decodes a value of type ty found at offset off into a variable of its own. */
  ghost function Decode(env: Env, ty: Ty, p: seq<byte>, off: nat): (r: Dec<Tree>)
    requires ValidEnv(env) && Supported(env, ty) && off <= |p|
    ensures off <= r.off <= |p|
    decreases |p| - off, TyRank(env, ty), 1, 0
  {
    match ty
    case Bool => if off >= |p| then Fail(off) else Ok(Tree.Bool(p[off] != 0), off + 1)
    case Num(k) =>
      if off + Width(k) > |p| then Fail(off)
      else Ok(Tree.Num(k, FromBits(k, Get(p[off..off + Width(k)]))), off + Width(k))
    case Str =>
      var i := FindNul(p, off);
      if i == |p| then Fail(off) else Ok(Tree.Str(p[off..i]), i + 1)
    case Bytes =>
      if off + 2 > |p| then Fail(off) else
      var n := Get(p[off..off + 2]);
      if off + 2 + n > |p| then Fail(off + 2) else Ok(Tree.Bytes(p[off + 2..off + 2 + n]), off + 2 + n)
    case Struct(n) => (
      match DecodeFields(env, env.structs[n], p, off, env.rank[n])
      case Ok(fs, off') => Ok(Tree.Struct(fs), off')
      case Fail(off') => Fail(off'))
    case Slice(e) => (
      match DecodeArray(env, e, p, off)
      case Ok(es, off') => Ok(Tree.Slice(es), off')
      case Fail(off') => Fail(off'))
    case Ptr(e) =>
      if e.Bytes? then (
        // encountered behind a pointer, a byte slice is read one element at a time
        match DecodeArray(env, Ty.Num(Byte), p, off)
        case Ok(es, off') => Ok(Tree.Ptr(Tree.Bytes(RawBytes(es))), off')
        case Fail(off') => Fail(off')
      ) else (
        match Decode(env, e, p, off)
        case Ok(t, off') => Ok(Tree.Ptr(t), off')
        case Fail(off') => Fail(off'))
  }

  ghost function DecodeFields(env: Env, fields: seq<Field>, p: seq<byte>, off: nat, rank: nat): (r: Dec<seq<Tree>>)
    requires ValidEnv(env) && off <= |p|
    requires FieldsBelow(env, fields, rank)
    ensures off <= r.off <= |p|
    decreases |p| - off, rank, 0, |fields|
  {
    if fields == [] then Ok([], off)
    else if !Visited(fields[0].name) then
      match DecodeFields(env, fields[1..], p, off, rank)
      case Ok(fs, off') => Ok([Hidden] + fs, off')
      case Fail(off') => Fail(off')
    else
      match Decode(env, fields[0].ty, p, off)
      case Fail(off') => Fail(off')
      case Ok(f, off') =>
        match DecodeFields(env, fields[1..], p, off', rank)
        case Ok(fs, off'') => Ok([f] + fs, off'')
        case Fail(off'') => Fail(off'')
  }

  ghost function DecodeArray(env: Env, e: Ty, p: seq<byte>, off: nat): (r: Dec<seq<Tree>>)
    requires ValidEnv(env) && Supported(env, e) && off <= |p|
    ensures off <= r.off <= |p|
    decreases |p| - off, 0, 0, 0
  {
    if off + 2 > |p| then Fail(off) else DecodeElems(env, e, p, off + 2, Get(p[off..off + 2]))
  }

  ghost function DecodeElems(env: Env, e: Ty, p: seq<byte>, off: nat, n: nat): (r: Dec<seq<Tree>>)
    requires ValidEnv(env) && Supported(env, e) && off <= |p|
    ensures off <= r.off <= |p|
    ensures r.Ok? ==> |r.value| == n
    decreases |p| - off, TyRank(env, e) + 1, 0, n
  {
    if n == 0 then Ok([], off)
    else
      match Decode(env, e, p, off)
      case Fail(off') => Fail(off')
      case Ok(t, off') =>
        match DecodeElems(env, e, p, off', n - 1)
        case Ok(ts, off'') => Ok([t] + ts, off'')
        case Fail(off'') => Fail(off'')
  }

  /** The bytes of a list of byte trees. */
  function RawBytes(ts: seq<Tree>): (s: seq<byte>)
    ensures |s| == |ts|
  {
    if ts == [] then [] else [if ts[0].Num? && 0 <= ts[0].n < 256 then ts[0].n else 0] + RawBytes(ts[1..])
  }

  // ---- Round trip ----

  /** The bytes of w lie in p at offset off. */
  ghost predicate At(p: seq<byte>, off: nat, w: seq<byte>) {
    off + |w| <= |p| && p[off..off + |w|] == w
  }

  lemma AtSplit(p: seq<byte>, off: nat, w1: seq<byte>, w2: seq<byte>)
    requires At(p, off, w1 + w2)
    ensures At(p, off, w1) && At(p, off + |w1|, w2)
  {
    assert (w1 + w2)[..|w1|] == w1 && (w1 + w2)[|w1|..] == w2;
    assert p[off..off + |w1|] == p[off..off + |w1 + w2|][..|w1|];
    assert p[off + |w1|..off + |w1| + |w2|] == p[off..off + |w1 + w2|][|w1|..];
  }

  lemma WireAllSplit(p: seq<byte>, off: nat, ts: seq<Tree>)
    requires ts != [] && At(p, off, WireAll(ts))
    ensures At(p, off, Wire(ts[0])) && At(p, off + |Wire(ts[0])|, WireAll(ts[1..]))
    ensures |WireAll(ts)| == |Wire(ts[0])| + |WireAll(ts[1..])|
  {
    AtSplit(p, off, Wire(ts[0]), WireAll(ts[1..]));
  }

  lemma AtLength(p: seq<byte>, off: nat, n: nat)
    requires n <= MAX_ELEMENTS && At(p, off, LengthPrefix(n))
    ensures Get(p[off..off + 2]) == n
  {
    Pow256Values();
    GetPut(n, 2);
  }

  lemma NumWire(env: Env, k: Kind, n: int, p: seq<byte>, off: nat)
    requires ValidEnv(env) && off <= |p| && InRange(k, n) && At(p, off, PutNum(k, n))
    ensures Decode(env, Ty.Num(k), p, off) == Ok(Tree.Num(k, n), off + Width(k))
  {
    BitsRoundTrip(k, n);
    GetPut(ToBits(k, n), Width(k));
  }

  lemma StrWire(env: Env, s: seq<byte>, p: seq<byte>, off: nat)
    requires ValidEnv(env) && off <= |p| && 0 !in s && At(p, off, s + [0])
    ensures Decode(env, Ty.Str, p, off) == Ok(Tree.Str(s), off + |s| + 1)
  {
    assert forall j :: off <= j < off + |s| ==> p[j] == (s + [0])[j - off] && p[j] in s;
    assert p[off + |s|] == (s + [0])[|s|] == 0;
    assert FindNul(p, off) == off + |s|;
    assert p[off..off + |s|] == (s + [0])[..|s|] == s;
  }

  lemma BytesWire(env: Env, s: seq<byte>, p: seq<byte>, off: nat)
    requires ValidEnv(env) && off <= |p| && |s| <= MAX_ELEMENTS && At(p, off, LengthPrefix(|s|) + s)
    ensures Decode(env, Ty.Bytes, p, off) == Ok(Tree.Bytes(s), off + 2 + |s|)
    ensures Decode(env, Ty.Ptr(Ty.Bytes), p, off) == Ok(Tree.Ptr(Tree.Bytes(s)), off + 2 + |s|)
  {
    AtSplit(p, off, LengthPrefix(|s|), s);
    AtLength(p, off, |s|);
    DecodeRaw(env, s, p, off + 2);
  }

  lemma ElemsCons(env: Env, e: Ty, p: seq<byte>, off: nat, es: seq<Tree>, mid: nat, end: nat)
    requires ValidEnv(env) && Supported(env, e) && off <= mid <= |p| && es != []
    requires Decode(env, e, p, off) == Ok(es[0], mid) && DecodeElems(env, e, p, mid, |es| - 1) == Ok(es[1..], end)
    ensures DecodeElems(env, e, p, off, |es|) == Ok(es, end)
  {
    assert es == [es[0]] + es[1..];
  }

  lemma FieldsCons(
      env: Env, fields: seq<Field>, p: seq<byte>, off: nat, rank: nat, fs: seq<Tree>, mid: nat, end: nat)
    requires ValidEnv(env) && FieldsBelow(env, fields, rank) && fields != [] && fs != [] && off <= mid <= |p|
    requires if Visited(fields[0].name) then Decode(env, fields[0].ty, p, off) == Ok(fs[0], mid)
             else fs[0] == Hidden && mid == off
    requires DecodeFields(env, fields[1..], p, mid, rank) == Ok(fs[1..], end)
    ensures DecodeFields(env, fields, p, off, rank) == Ok(fs, end)
  {
    assert fs == [fs[0]] + fs[1..];
  }

  /** Decoding undoes encoding, whatever surrounds the encoded value. */
  lemma {:induction false} DecodeWire(env: Env, ty: Ty, t: Tree, p: seq<byte>, off: nat)
    requires ValidEnv(env) && Supported(env, ty) && off <= |p|
    requires HasType(env, t, ty) && Encodable(t) && At(p, off, Wire(t))
    ensures Decode(env, ty, p, off) == Ok(t, off + |Wire(t)|)
    decreases t, 1
  {
    match t
    case Bool(_) => assert p[off] == p[off..off + 1][0];
    case Num(k, n) => NumWire(env, k, n, p, off);
    case Str(s) => StrWire(env, s, p, off);
    case Bytes(s) => BytesWire(env, s, p, off);
    case Struct(fs) => DecodeFieldsWire(env, env.structs[ty.name], fs, p, off, env.rank[ty.name]);
    case Slice(es) =>
      AtSplit(p, off, LengthPrefix(|es|), WireAll(es));
      AtLength(p, off, |es|);
      DecodeElemsWire(env, ty.elem, es, p, off + 2);
    case Ptr(t') =>
      if t'.Bytes? {
        BytesWire(env, t'.s, p, off);
      } else {
        DecodeWire(env, ty.elem, t', p, off);
      }
  }

  lemma {:induction false} DecodeFieldsWire(
      env: Env, fields: seq<Field>, fs: seq<Tree>, p: seq<byte>, off: nat, rank: nat)
    requires ValidEnv(env) && off <= |p|
    requires FieldsBelow(env, fields, rank)
    requires FieldsHaveTypes(env, fs, fields)
    requires (forall f | f in fs :: Encodable(f)) && At(p, off, WireAll(fs))
    ensures DecodeFields(env, fields, p, off, rank) == Ok(fs, off + |WireAll(fs)|)
    decreases fs, 0
  {
    if fs != [] {
      var mid := off + |Wire(fs[0])|;
      WireAllSplit(p, off, fs);
      DecodeFieldsWire(env, fields[1..], fs[1..], p, mid, rank);
      if Visited(fields[0].name) {
        DecodeWire(env, fields[0].ty, fs[0], p, off);
      }
      FieldsCons(env, fields, p, off, rank, fs, mid, off + |WireAll(fs)|);
    }
  }

  lemma {:induction false} DecodeElemsWire(env: Env, e: Ty, es: seq<Tree>, p: seq<byte>, off: nat)
    requires ValidEnv(env) && Supported(env, e) && off <= |p|
    requires forall t :: t in es ==> HasType(env, t, e) && Encodable(t)
    requires At(p, off, WireAll(es))
    ensures DecodeElems(env, e, p, off, |es|) == Ok(es, off + |WireAll(es)|)
    decreases es, 0
  {
    if es != [] {
      var mid := off + |Wire(es[0])|;
      WireAllSplit(p, off, es);
      DecodeWire(env, e, es[0], p, off);
      DecodeElemsWire(env, e, es[1..], p, mid);
      ElemsCons(env, e, p, off, es, mid, off + |WireAll(es)|);
    }
  }

  /** Reading bytes one element at a time gives the same bytes as reading them at once. */
  lemma {:induction false} DecodeRaw(env: Env, s: seq<byte>, p: seq<byte>, off: nat)
    requires ValidEnv(env) && off <= |p| && At(p, off, s)
    ensures var r := DecodeElems(env, Ty.Num(Byte), p, off, |s|);
            r.Ok? && RawBytes(r.value) == s && r.off == off + |s|
  {
    if s != [] {
      var s0, s1 := s[..1], s[1..];
      assert s == s0 + s1;
      AtSplit(p, off, s0, s1);
      assert p[off..off + 1] == s0;
      assert Get(s0) == s0[0] + 256 * Get(s0[1..]) == s0[0];
      DecodeRaw(env, s1, p, off + 1);
      var r := DecodeElems(env, Ty.Num(Byte), p, off, |s|);
      var r1 := DecodeElems(env, Ty.Num(Byte), p, off + 1, |s1|);
      assert Decode(env, Ty.Num(Byte), p, off) == Ok(Tree.Num(Byte, s0[0]), off + 1);
      assert r.value[1..] == r1.value;
    }
  }

  // ---- A success depends only on the bytes it consumed ----

  ghost predicate SamePrefix(p: seq<byte>, q: seq<byte>, n: nat) {
    n <= |p| && n <= |q| && p[..n] == q[..n]
  }

  lemma SameSlice(p: seq<byte>, q: seq<byte>, n: nat, lo: nat, hi: nat)
    requires SamePrefix(p, q, n) && lo <= hi <= n
    ensures p[lo..hi] == q[lo..hi]
  {
    assert p[lo..hi] == p[..n][lo..hi] && q[lo..hi] == q[..n][lo..hi];
  }

  lemma {:induction false} FindNulLocal(p: seq<byte>, q: seq<byte>, off: nat)
    requires off <= |p| && FindNul(p, off) < |p| && SamePrefix(p, q, FindNul(p, off) + 1)
    ensures FindNul(q, off) == FindNul(p, off)
  {
    var i := FindNul(p, off);
    assert forall j :: 0 <= j <= i ==> p[j] == p[..i + 1][j] == q[..i + 1][j] == q[j];
  }

  lemma NumLocal(env: Env, k: Kind, p: seq<byte>, q: seq<byte>, off: nat)
    requires ValidEnv(env) && off + Width(k) <= |p| && SamePrefix(p, q, off + Width(k))
    ensures Decode(env, Ty.Num(k), q, off) == Decode(env, Ty.Num(k), p, off)
  {
    SameSlice(p, q, off + Width(k), off, off + Width(k));
  }

  lemma StrLocal(env: Env, p: seq<byte>, q: seq<byte>, off: nat)
    requires ValidEnv(env) && off <= |p| && FindNul(p, off) < |p| && SamePrefix(p, q, FindNul(p, off) + 1)
    ensures Decode(env, Ty.Str, q, off) == Decode(env, Ty.Str, p, off)
  {
    FindNulLocal(p, q, off);
    SameSlice(p, q, FindNul(p, off) + 1, off, FindNul(p, off));
  }

  lemma BytesLocal(env: Env, p: seq<byte>, q: seq<byte>, off: nat, n: nat)
    requires ValidEnv(env) && off + 2 + n <= |p| && n == Get(p[off..off + 2]) && SamePrefix(p, q, off + 2 + n)
    ensures Decode(env, Ty.Bytes, q, off) == Decode(env, Ty.Bytes, p, off)
  {
    SameSlice(p, q, off + 2 + n, off, off + 2);
    SameSlice(p, q, off + 2 + n, off + 2, off + 2 + n);
  }

  lemma LeafLocal(env: Env, ty: Ty, p: seq<byte>, q: seq<byte>, off: nat)
    requires ValidEnv(env) && off <= |p| && (ty.Bool? || ty.Num? || ty.Str? || ty.Bytes?)
    requires Decode(env, ty, p, off).Ok? && SamePrefix(p, q, Decode(env, ty, p, off).off)
    ensures Decode(env, ty, q, off) == Decode(env, ty, p, off)
  {
    match ty
    case Bool => assert p[off] == p[..off + 1][off] == q[..off + 1][off] == q[off];
    case Num(k) => NumLocal(env, k, p, q, off);
    case Str => StrLocal(env, p, q, off);
    case Bytes => BytesLocal(env, p, q, off, Get(p[off..off + 2]));
  }

  lemma {:induction false} DecodeLocal(env: Env, ty: Ty, p: seq<byte>, q: seq<byte>, off: nat)
    requires ValidEnv(env) && Supported(env, ty) && off <= |p|
    requires Decode(env, ty, p, off).Ok? && SamePrefix(p, q, Decode(env, ty, p, off).off)
    ensures Decode(env, ty, q, off) == Decode(env, ty, p, off)
    decreases |p| - off, TyRank(env, ty), 1, 0
  {
    match ty
    case Struct(n) => DecodeFieldsLocal(env, env.structs[n], p, q, off, env.rank[n]);
    case Slice(e) => DecodeArrayLocal(env, e, p, q, off);
    case Ptr(e) =>
      if e.Bytes? {
        DecodeArrayLocal(env, Ty.Num(Byte), p, q, off);
      } else {
        DecodeLocal(env, e, p, q, off);
      }
    case _ => LeafLocal(env, ty, p, q, off);
  }

  lemma {:induction false} DecodeArrayLocal(env: Env, e: Ty, p: seq<byte>, q: seq<byte>, off: nat)
    requires ValidEnv(env) && Supported(env, e) && off <= |p|
    requires DecodeArray(env, e, p, off).Ok? && SamePrefix(p, q, DecodeArray(env, e, p, off).off)
    ensures DecodeArray(env, e, q, off) == DecodeArray(env, e, p, off)
    decreases |p| - off, 0, 0, 0
  {
    SameSlice(p, q, DecodeArray(env, e, p, off).off, off, off + 2);
    DecodeElemsLocal(env, e, p, q, off + 2, Get(p[off..off + 2]));
  }

  lemma {:induction false} DecodeFieldsLocal(
      env: Env, fields: seq<Field>, p: seq<byte>, q: seq<byte>, off: nat, rank: nat)
    requires ValidEnv(env) && off <= |p|
    requires FieldsBelow(env, fields, rank)
    requires DecodeFields(env, fields, p, off, rank).Ok?
    requires SamePrefix(p, q, DecodeFields(env, fields, p, off, rank).off)
    ensures DecodeFields(env, fields, q, off, rank) == DecodeFields(env, fields, p, off, rank)
    decreases |p| - off, rank, 0, |fields|
  {
    if fields == [] {
    } else if !Visited(fields[0].name) {
      DecodeFieldsLocal(env, fields[1..], p, q, off, rank);
    } else {
      var d := Decode(env, fields[0].ty, p, off);
      var end := DecodeFields(env, fields[1..], p, d.off, rank).off;
      SameSlice(p, q, end, 0, d.off);
      assert p[0..d.off] == p[..d.off] && q[0..d.off] == q[..d.off];
      DecodeLocal(env, fields[0].ty, p, q, off);
      DecodeFieldsLocal(env, fields[1..], p, q, d.off, rank);
    }
  }

  lemma {:induction false} DecodeElemsLocal(env: Env, e: Ty, p: seq<byte>, q: seq<byte>, off: nat, n: nat)
    requires ValidEnv(env) && Supported(env, e) && off <= |p|
    requires DecodeElems(env, e, p, off, n).Ok? && SamePrefix(p, q, DecodeElems(env, e, p, off, n).off)
    ensures DecodeElems(env, e, q, off, n) == DecodeElems(env, e, p, off, n)
    decreases |p| - off, TyRank(env, e) + 1, 0, n
  {
    if n > 0 {
      var d := Decode(env, e, p, off);
      var end := DecodeElems(env, e, p, d.off, n - 1).off;
      SameSlice(p, q, end, 0, d.off);
      assert p[0..d.off] == p[..d.off] && q[0..d.off] == q[..d.off];
      DecodeLocal(env, e, p, q, off);
      DecodeElemsLocal(env, e, p, q, d.off, n - 1);
    }
  }

  /** A success consuming n bytes is decided by those n bytes: with any of them missing, decoding fails. */
  lemma DecodeNeedsAll(env: Env, ty: Ty, p: seq<byte>, cut: nat)
    requires ValidEnv(env) && Supported(env, ty)
    requires Decode(env, ty, p, 0).Ok? && cut < Decode(env, ty, p, 0).off
    ensures Decode(env, ty, p[..cut], 0).Fail?
    ensures forall q :: SamePrefix(p, q, Decode(env, ty, p, 0).off) ==> Decode(env, ty, q, 0) == Decode(env, ty, p, 0)
  {
    forall q | SamePrefix(p, q, Decode(env, ty, p, 0).off) ensures Decode(env, ty, q, 0) == Decode(env, ty, p, 0) {
      DecodeLocal(env, ty, p, q, 0);
    }
    var short := Decode(env, ty, p[..cut], 0);
    if short.Ok? {
      assert p[..cut][..short.off] == p[..short.off];
      DecodeLocal(env, ty, p[..cut], p, 0);
    }
  }

  // ---- Prefix-freeness ----

  /** Of two values of one type, one encoding is a prefix of the other only if the values are equal. */
  lemma WirePrefixFree(env: Env, ty: Ty, t1: Tree, t2: Tree)
    requires ValidEnv(env) && Supported(env, ty)
    requires HasType(env, t1, ty) && Encodable(t1) && HasType(env, t2, ty) && Encodable(t2)
    requires Wire(t1) <= Wire(t2)
    ensures t1 == t2
  {
    assert Wire(t2)[0..|Wire(t1)|] == Wire(t1);
    DecodeWire(env, ty, t1, Wire(t2), 0);
    DecodeWire(env, ty, t2, Wire(t2), 0);
  }

  // ---- Normalisation ----

  /** Which bytes of the wire form of t are booleans. */
  function BoolMask(t: Tree): (mask: seq<bool>)
    ensures |mask| == |Wire(t)|
  {
    match t
    case Bool(_) => [true]
    case Struct(fs) => BoolMaskAll(fs)
    case Slice(es) => NoBools(2) + BoolMaskAll(es)
    case Ptr(t') => BoolMask(t')
    case _ => NoBools(|Wire(t)|)
  }

  function BoolMaskAll(ts: seq<Tree>): (mask: seq<bool>)
    ensures |mask| == |WireAll(ts)|
  {
    if ts == [] then [] else BoolMask(ts[0]) + BoolMaskAll(ts[1..])
  }

  function NoBools(n: nat): seq<bool> {
    seq(n, i => false)
  }

  /** w is raw with each non-zero boolean byte replaced by 1. */
  ghost predicate Normalises(raw: seq<byte>, mask: seq<bool>, w: seq<byte>) {
    && |raw| == |mask| == |w|
    && forall i :: 0 <= i < |w| ==> w[i] == if mask[i] && raw[i] != 0 then 1 else raw[i]
  }

  /** Bytes off..end of p are an encoding of t, up to normalisation. */
  ghost predicate Reads(p: seq<byte>, off: nat, end: nat, t: Tree) {
    off <= end <= |p| && Normalises(p[off..end], BoolMask(t), Wire(t))
  }

  ghost predicate ReadsAll(p: seq<byte>, off: nat, end: nat, ts: seq<Tree>) {
    off <= end <= |p| && Normalises(p[off..end], BoolMaskAll(ts), WireAll(ts))
  }

  lemma NormalisesConcat(r1: seq<byte>, m1: seq<bool>, w1: seq<byte>, r2: seq<byte>, m2: seq<bool>, w2: seq<byte>)
    requires Normalises(r1, m1, w1) && Normalises(r2, m2, w2)
    ensures Normalises(r1 + r2, m1 + m2, w1 + w2)
  {
  }

  lemma ReadsCons(p: seq<byte>, off: nat, mid: nat, end: nat, t: Tree, ts: seq<Tree>)
    requires Reads(p, off, mid, t) && ReadsAll(p, mid, end, ts)
    ensures ReadsAll(p, off, end, [t] + ts)
  {
    NormalisesConcat(p[off..mid], BoolMask(t), Wire(t), p[mid..end], BoolMaskAll(ts), WireAll(ts));
    assert p[off..end] == p[off..mid] + p[mid..end];
    assert ([t] + ts)[0] == t && ([t] + ts)[1..] == ts;
  }

  lemma ReadsSlice(p: seq<byte>, off: nat, end: nat, es: seq<Tree>)
    requires off + 2 <= |p| && LengthPrefix(|es|) == p[off..off + 2] && ReadsAll(p, off + 2, end, es)
    ensures Reads(p, off, end, Tree.Slice(es))
  {
    var n := LengthPrefix(|es|);
    assert Normalises(p[off..off + 2], NoBools(2), n);
    NormalisesConcat(p[off..off + 2], NoBools(2), n, p[off + 2..end], BoolMaskAll(es), WireAll(es));
    assert p[off..end] == p[off..off + 2] + p[off + 2..end];
  }

  /** Whatever was decoded can be encoded again, to as many bytes, which differ only in boolean bytes above 1. */
  lemma {:induction false} DecodeThenWire(env: Env, ty: Ty, p: seq<byte>, off: nat)
    requires ValidEnv(env) && Supported(env, ty) && off <= |p|
    requires Decode(env, ty, p, off).Ok?
    ensures var Ok(t, end) := Decode(env, ty, p, off);
            HasType(env, t, ty) && Encodable(t) && Reads(p, off, end, t)
    decreases |p| - off, TyRank(env, ty), 1, 0
  {
    match ty
    case Struct(n) => DecodeFieldsThenWire(env, env.structs[n], p, off, env.rank[n]);
    case Slice(e) =>
      LengthFits(p, off);
      DecodeElemsThenWire(env, e, p, off + 2, Get(p[off..off + 2]));
      var Ok(t, end) := Decode(env, ty, p, off);
      ReadsSlice(p, off, end, t.es);
    case Ptr(e) =>
      if e.Bytes? {
        BytesThenWire(env, p, off);
      } else {
        DecodeThenWire(env, e, p, off);
      }
    case _ => LeafThenWire(env, ty, p, off);
  }

  lemma LeafThenWire(env: Env, ty: Ty, p: seq<byte>, off: nat)
    requires ValidEnv(env) && off <= |p| && (ty.Bool? || ty.Num? || ty.Str? || ty.Bytes?)
    requires Decode(env, ty, p, off).Ok?
    ensures var Ok(t, end) := Decode(env, ty, p, off);
            HasType(env, t, ty) && Encodable(t) && Reads(p, off, end, t)
  {
    var Ok(t, end) := Decode(env, ty, p, off);
    match ty
    case Bool =>
    case Num(k) =>
      PutGet(p[off..end]);
      BitsRoundTripBack(k, Get(p[off..end]));
    case Str => assert p[off..end] == Wire(t);
    case Bytes =>
      LengthFits(p, off);
      assert p[off..end] == p[off..off + 2] + p[off + 2..end];
  }

  lemma BytesThenWire(env: Env, p: seq<byte>, off: nat)
    requires ValidEnv(env) && off <= |p|
    requires Decode(env, Ty.Ptr(Ty.Bytes), p, off).Ok?
    ensures var Ok(t, end) := Decode(env, Ty.Ptr(Ty.Bytes), p, off);
            HasType(env, t, Ty.Ptr(Ty.Bytes)) && Encodable(t) && Reads(p, off, end, t)
  {
    var Ok(t, end) := Decode(env, Ty.Ptr(Ty.Bytes), p, off);
    LengthFits(p, off);
    DecodeRawThenWire(env, p, off + 2, Get(p[off..off + 2]));
    assert p[off..end] == p[off..off + 2] + p[off + 2..end] == Wire(t);
  }

  lemma LengthFits(p: seq<byte>, off: nat)
    requires off + 2 <= |p|
    ensures Get(p[off..off + 2]) <= MAX_ELEMENTS
    ensures LengthPrefix(Get(p[off..off + 2])) == p[off..off + 2]
  {
    Pow256Values();
    PutGet(p[off..off + 2]);
  }

  lemma {:induction false} DecodeFieldsThenWire(env: Env, fields: seq<Field>, p: seq<byte>, off: nat, rank: nat)
    requires ValidEnv(env) && off <= |p|
    requires FieldsBelow(env, fields, rank)
    requires DecodeFields(env, fields, p, off, rank).Ok?
    ensures var Ok(fs, end) := DecodeFields(env, fields, p, off, rank);
            FieldsHaveTypes(env, fs, fields) && (forall f | f in fs :: Encodable(f)) && ReadsAll(p, off, end, fs)
    decreases |p| - off, rank, 0, |fields|
  {
    if fields == [] {
    } else if !Visited(fields[0].name) {
      DecodeFieldsThenWire(env, fields[1..], p, off, rank);
      var Ok(fs, end) := DecodeFields(env, fields[1..], p, off, rank);
      ReadsCons(p, off, off, end, Hidden, fs);
    } else {
      DecodeThenWire(env, fields[0].ty, p, off);
      var Ok(f, mid) := Decode(env, fields[0].ty, p, off);
      DecodeFieldsThenWire(env, fields[1..], p, mid, rank);
      var Ok(fs, end) := DecodeFields(env, fields[1..], p, mid, rank);
      ReadsCons(p, off, mid, end, f, fs);
    }
  }

  lemma {:induction false} DecodeElemsThenWire(env: Env, e: Ty, p: seq<byte>, off: nat, n: nat)
    requires ValidEnv(env) && Supported(env, e) && off <= |p|
    requires DecodeElems(env, e, p, off, n).Ok?
    ensures var Ok(es, end) := DecodeElems(env, e, p, off, n);
            && (forall t | t in es :: HasType(env, t, e) && Encodable(t))
            && ReadsAll(p, off, end, es)
    decreases |p| - off, TyRank(env, e) + 1, 0, n
  {
    if n > 0 {
      DecodeThenWire(env, e, p, off);
      var Ok(t, mid) := Decode(env, e, p, off);
      DecodeElemsThenWire(env, e, p, mid, n - 1);
      var Ok(es, end) := DecodeElems(env, e, p, mid, n - 1);
      ReadsCons(p, off, mid, end, t, es);
    }
  }

  lemma {:induction false} DecodeRawThenWire(env: Env, p: seq<byte>, off: nat, n: nat)
    requires ValidEnv(env) && off <= |p|
    requires DecodeElems(env, Ty.Num(Byte), p, off, n).Ok?
    ensures var Ok(es, end) := DecodeElems(env, Ty.Num(Byte), p, off, n);
            end == off + n && RawBytes(es) == p[off..end]
    decreases n
  {
    if n > 0 {
      PutGet(p[off..off + 1]);
      var b := p[off];
      assert Get(p[off..off + 1]) == b + 256 * Get(p[off..off + 1][1..]) == b;
      DecodeRawThenWire(env, p, off + 1, n - 1);
      var Ok(es, end) := DecodeElems(env, Ty.Num(Byte), p, off + 1, n - 1);
      assert ([Tree.Num(Byte, b)] + es)[1..] == es;
      assert p[off..end] == [b] + p[off + 1..end];
    }
  }

  /** Encoding what was decoded reproduces the input exactly when every boolean byte in it is 0 or 1. */
  lemma ReencodeIsIdentity(env: Env, ty: Ty, p: seq<byte>)
    requires ValidEnv(env) && Supported(env, ty)
    requires Decode(env, ty, p, 0).Ok?
    ensures var Ok(t, n) := Decode(env, ty, p, 0);
            && |BoolMask(t)| == n
            && (Wire(t) == p[..n] <==> forall i :: 0 <= i < n && BoolMask(t)[i] ==> p[i] <= 1)
  {
    DecodeThenWire(env, ty, p, 0);
    var Ok(t, n) := Decode(env, ty, p, 0);
    assert p[0..n] == p[..n];
    if forall i :: 0 <= i < n && BoolMask(t)[i] ==> p[i] <= 1 {
      assert forall i :: 0 <= i < n ==> Wire(t)[i] == p[..n][i];
    } else {
      var i :| 0 <= i < n && BoolMask(t)[i] && p[i] > 1;
      assert Wire(t)[i] != p[..n][i];
    }
  }
}
