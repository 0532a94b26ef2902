/** The encoder as it runs: one mutable state per Marshal, its cycle bookkeeping, and the pool states come from. */
module EncodeStates {
  import opened LittleEndian
  import opened GoMemory
  import opened WireFormat
  import opened Encoder

  /** The pointers that have been followed below the level at which detection starts. */
  ghost function Recorded(path: seq<Ref>): set<Ref> {
    set i | START_DETECTING <= i < |path| :: path[i]
  }

  /** The recorded pointers are exactly those of the path beyond the detection level, each once. */
  ghost predicate Balanced(path: seq<Ref>, level: nat, seen: set<Ref>) {
    && level == |path|
    && seen == Recorded(path)
    && forall i, j :: START_DETECTING <= i < j < |path| ==> path[i] != path[j]
  }

  lemma BalancedPush(path: seq<Ref>, level: nat, seen: set<Ref>, r: Ref)
    requires Balanced(path, level, seen) && (level < START_DETECTING || r !in seen)
    ensures Balanced(path + [r], level + 1, if level < START_DETECTING then seen else seen + {r})
    ensures level >= START_DETECTING ==> (seen + {r}) - {r} == seen
  {
    RecordedPush(path, r);
    assert forall i :: START_DETECTING <= i < |path| ==> path[i] in Recorded(path);
    if level < START_DETECTING {
      assert Recorded(path) == {};
    }
  }

  lemma RecordedPush(path: seq<Ref>, r: Ref)
    ensures Recorded(path + [r]) == if |path| < START_DETECTING then {} else Recorded(path) + {r}
  {
    var longer := path + [r];
    forall x | x in Recorded(path) ensures x in Recorded(longer) {
      var i :| START_DETECTING <= i < |path| && path[i] == x;
      assert longer[i] == x;
    }
    if |path| >= START_DETECTING {
      assert longer[|path|] == r;
    }
  }

  /** What a call leaves behind: the bytes it appended and the error it returned. */
  ghost predicate Emitted(before: seq<byte>, out: Out, after: seq<byte>, fault: Option<Fault>) {
    after == before + out.bytes && fault == out.fault
  }

  /** One round of a loop that has written done, calls a walk for here, and will go on with rest. */
  lemma LoopStep(b0: seq<byte>, done: Out, b1: seq<byte>, here: Out, b2: seq<byte>, fault: Option<Fault>, rest: Out)
    requires Emitted(b0, done, b1, None) && Emitted(b1, here, b2, fault)
    ensures fault.None? ==>
              && Emitted(b0, Then(done, here), b2, None)
              && Then(done, Then(here, rest)) == Then(Then(done, here), rest)
    ensures fault.Some? ==> Emitted(b0, Then(done, Then(here, rest)), b2, fault)
  {
    assert b0 + done.bytes + here.bytes == b0 + (done.bytes + here.bytes);
    assert done.bytes + (here.bytes + rest.bytes) == (done.bytes + here.bytes) + rest.bytes;
  }

  lemma SlotsStep(m: Mem, rank: map<Ref, nat>, slots: seq<Slot>, i: nat, bound: nat, level: nat, seen: set<Ref>)
    requires Heap(m, rank) && i < |slots|
    requires forall s :: s in slots && Visited(s.name) ==> SliceRank(rank, s.val) <= bound
    requires forall s :: s in slots && Visited(s.name) ==> ValClosed(m, s.val)
    ensures WalkSlots(m, rank, slots[i..], bound, level, seen) ==
            if !Visited(slots[i].name) then WalkSlots(m, rank, slots[i + 1..], bound, level, seen)
            else if Barred(slots[i].name) then Out([], Some(UnknownKind))
            else Then(Walk(m, rank, slots[i].val, level, seen),
                      WalkSlots(m, rank, slots[i + 1..], bound, level, seen))
  {
    assert slots[i..][1..] == slots[i + 1..];
  }

  lemma ElemsStep(m: Mem, rank: map<Ref, nat>, vals: seq<Val>, i: nat, bound: nat, level: nat, seen: set<Ref>)
    requires Heap(m, rank) && i < |vals|
    requires forall x :: x in vals ==> ValClosed(m, x) && SliceRank(rank, x) <= bound
    ensures WalkElems(m, rank, vals[i..], bound, level, seen) ==
            Then(Walk(m, rank, vals[i], level, seen), WalkElems(m, rank, vals[i + 1..], bound, level, seen))
  {
    assert vals[i..][1..] == vals[i + 1..];
  }

  class EncodeState {
    var buf: seq<byte>           // the embedded bytes.Buffer
    const scratch: array<byte>
    var ptrLevel: nat
    var ptrSeen: set<Ref>
    ghost var path: seq<Ref>     // the pointers the walk is inside of, outermost first

    ghost predicate Valid()
      reads this
    {
      scratch.Length == 8 && Balanced(path, ptrLevel, ptrSeen)
    }

    constructor ()
      ensures Valid() && path == [] && buf == [] && fresh(scratch)
    {
      scratch := new byte[8](_ => 0);
      buf, ptrLevel, ptrSeen, path := [], 0, {}, [];
    }

    /** Appends the w low-order bytes of n, by way of the scratch space. */
    method WriteUint(n: nat, w: nat)
      requires scratch.Length == 8 && w <= 8
      modifies this`buf, scratch
      ensures buf == old(buf) + Put(n, w)
    {
      var x := n;
      for i := 0 to w
        invariant Put(n, w) == scratch[..i] + Put(x, w - i)
        invariant buf == old(buf)
      {
        scratch[i] := x % 256;
        x := x / 256;
      }
      buf := buf + scratch[..w];
    }

    method Encode(m: Mem, ghost rank: map<Ref, nat>, v: Val) returns (fault: Option<Fault>)
      requires Valid() && Heap(m, rank) && ValClosed(m, v)
      modifies this, scratch
      ensures Valid() && path == old(path) && ptrLevel == old(ptrLevel) && ptrSeen == old(ptrSeen)
      ensures Emitted(old(buf), Walk(m, rank, v, ptrLevel, ptrSeen), buf, fault)
      decreases Budget(m, ptrLevel, ptrSeen), SliceRank(rank, v), v, 2
    {
      fault := None;
      match v
      case Bool(b) => buf := buf + [if b then 1 else 0];
      case Num(k, n) => WriteUint(ToBits(k, n), Width(k));
      case Str(s) =>
        if 0 in s {
          return Some(NulInString);
        }
        buf := buf + s;
        buf := buf + [0];
      case Bytes(s) =>
        if |s| > MAX_ELEMENTS {
          return Some(TooLong(|s|));
        }
        WriteUint(|s|, 2);
        buf := buf + s;
      case NilPtr => fault := Some(NilPointer);
      case Ptr(r) => fault := EncodePointer(m, rank, r);
      case Struct(slots) => fault := EncodeStruct(m, rank, slots, SliceRank(rank, v));
      case NilSlice => fault := EncodeArray(m, rank, [], 0);
      case Slice(a, n) => fault := EncodeArray(m, rank, m.arrays[a][..n], if a in rank then rank[a] else 0);
      case Opaque => fault := Some(UnknownKind);
    }

    method EncodePointer(m: Mem, ghost rank: map<Ref, nat>, r: Ref) returns (fault: Option<Fault>)
      requires Valid() && Heap(m, rank) && r in m.objs
      modifies this, scratch
      ensures Valid() && path == old(path) && ptrLevel == old(ptrLevel) && ptrSeen == old(ptrSeen)
      ensures Emitted(old(buf), Followed(m, rank, r, ptrLevel, ptrSeen), buf, fault)
      decreases Budget(m, ptrLevel, ptrSeen), SliceRank(rank, Val.Ptr(r)), Val.Ptr(r), 1
    {
      ghost var path0, level0, seen0 := path, ptrLevel, ptrSeen;
      ghost var out := Followed(m, rank, r, level0, seen0);
      BudgetDrops(m, level0, seen0, r);
      if r !in ptrSeen || ptrLevel < START_DETECTING {
        BalancedPush(path, ptrLevel, ptrSeen, r);
      }
      ptrLevel := ptrLevel + 1;
      if ptrLevel > START_DETECTING {
        if r in ptrSeen {
          ptrLevel := ptrLevel - 1;
          return Some(Cycle);
        }
        ptrSeen := ptrSeen + {r};
        path := path + [r];
        fault := EncodeTarget(m, rank, m.objs[r]);
        assert Emitted(old(buf), out, buf, fault);
        ptrSeen := ptrSeen - {r};
      } else {
        path := path + [r];
        fault := EncodeTarget(m, rank, m.objs[r]);
        assert Emitted(old(buf), out, buf, fault);
      }
      path := path0;
      ptrLevel := ptrLevel - 1;
      assert ptrLevel == level0 && ptrSeen == seen0;
    }

    method EncodeTarget(m: Mem, ghost rank: map<Ref, nat>, v: Val) returns (fault: Option<Fault>)
      requires Valid() && Heap(m, rank) && ValClosed(m, v)
      modifies this, scratch
      ensures Valid() && path == old(path) && ptrLevel == old(ptrLevel) && ptrSeen == old(ptrSeen)
      ensures Emitted(old(buf), WalkTarget(m, rank, v, ptrLevel, ptrSeen), buf, fault)
      decreases Budget(m, ptrLevel, ptrSeen), SliceRank(rank, v), v, 3
    {
      match v
      case Struct(slots) => fault := EncodeStruct(m, rank, slots, SliceRank(rank, v));
      case NilSlice => fault := EncodeArray(m, rank, [], 0);
      case Slice(a, n) => fault := EncodeArray(m, rank, m.arrays[a][..n], if a in rank then rank[a] else 0);
      case Bytes(s) => fault := EncodeByteArray(s);
      case _ => fault := Some(UnknownKind);
    }

    method EncodeStruct(m: Mem, ghost rank: map<Ref, nat>, slots: seq<Slot>, ghost bound: nat)
      returns (fault: Option<Fault>)
      requires Valid() && Heap(m, rank)
      requires forall s :: s in slots && Visited(s.name) ==> SliceRank(rank, s.val) <= bound
      requires forall s :: s in slots && Visited(s.name) ==> ValClosed(m, s.val)
      modifies this, scratch
      ensures Valid() && path == old(path) && ptrLevel == old(ptrLevel) && ptrSeen == old(ptrSeen)
      ensures Emitted(old(buf), WalkSlots(m, rank, slots, bound, ptrLevel, ptrSeen), buf, fault)
      decreases Budget(m, ptrLevel, ptrSeen), bound, slots, 0
    {
      ghost var all := WalkSlots(m, rank, slots, bound, ptrLevel, ptrSeen);
      ghost var done := Out([], None);
      for i := 0 to |slots|
        invariant Valid() && path == old(path) && ptrLevel == old(ptrLevel) && ptrSeen == old(ptrSeen)
        invariant Emitted(old(buf), done, buf, None)
        invariant all == Then(done, WalkSlots(m, rank, slots[i..], bound, ptrLevel, ptrSeen))
      {
        SlotsStep(m, rank, slots, i, bound, ptrLevel, ptrSeen);
        if !Visited(slots[i].name) {
          continue;
        }
        if Barred(slots[i].name) {
          return Some(UnknownKind);
        }
        ghost var here, before := Walk(m, rank, slots[i].val, ptrLevel, ptrSeen), buf;
        fault := Encode(m, rank, slots[i].val);
        LoopStep(old(buf), done, before, here, buf, fault,
                 WalkSlots(m, rank, slots[i + 1..], bound, ptrLevel, ptrSeen));
        if fault.Some? {
          return;
        }
        done := Then(done, here);
      }
      fault := None;
    }

    method EncodeArray(m: Mem, ghost rank: map<Ref, nat>, vals: seq<Val>, ghost bound: nat)
      returns (fault: Option<Fault>)
      requires Valid() && Heap(m, rank)
      requires forall x :: x in vals ==> ValClosed(m, x) && SliceRank(rank, x) <= bound
      modifies this, scratch
      ensures Valid() && path == old(path) && ptrLevel == old(ptrLevel) && ptrSeen == old(ptrSeen)
      ensures Emitted(old(buf), WalkArray(m, rank, vals, bound, ptrLevel, ptrSeen), buf, fault)
      decreases Budget(m, ptrLevel, ptrSeen), bound, vals, 1
    {
      if |vals| > MAX_ELEMENTS {
        return Some(TooLong(|vals|));
      }
      WriteUint(|vals|, 2);
      ghost var all := WalkArray(m, rank, vals, bound, ptrLevel, ptrSeen);
      ghost var done := Out(LengthPrefix(|vals|), None);
      assert vals[0..] == vals;
      for i := 0 to |vals|
        invariant Valid() && path == old(path) && ptrLevel == old(ptrLevel) && ptrSeen == old(ptrSeen)
        invariant Emitted(old(buf), done, buf, None)
        invariant all == Then(done, WalkElems(m, rank, vals[i..], bound, ptrLevel, ptrSeen))
      {
        ElemsStep(m, rank, vals, i, bound, ptrLevel, ptrSeen);
        ghost var here, before := Walk(m, rank, vals[i], ptrLevel, ptrSeen), buf;
        fault := Encode(m, rank, vals[i]);
        LoopStep(old(buf), done, before, here, buf, fault, WalkElems(m, rank, vals[i + 1..], bound, ptrLevel, ptrSeen));
        if fault.Some? {
          return;
        }
        done := Then(done, here);
      }
      fault := None;
    }

    /** The array loop over a byte slice that was reached through a pointer. */
    method EncodeByteArray(s: seq<byte>) returns (fault: Option<Fault>)
      requires Valid()
      modifies this`buf, scratch
      ensures Valid()
      ensures Emitted(old(buf),
                      if |s| > MAX_ELEMENTS then Out([], Some(TooLong(|s|))) else Out(LengthPrefix(|s|) + s, None),
                      buf, fault)
    {
      if |s| > MAX_ELEMENTS {
        return Some(TooLong(|s|));
      }
      WriteUint(|s|, 2);
      for i := 0 to |s|
        invariant buf == old(buf) + LengthPrefix(|s|) + s[..i]
      {
        buf := buf + [s[i]];
        assert s[..i + 1] == s[..i] + [s[i]];
      }
      assert s[..|s|] == s;
      fault := None;
    }
  }

  /** The package-level pool of encoder states, with Marshal. */
  class Marshaller {
    var pool: set<EncodeState>

    /** Pooled states are at rest: no pointer is recorded. What is in their buffers does not matter. */
    ghost predicate Valid()
      reads this, pool
    {
      && (forall e :: e in pool ==> e.Valid() && e.path == [])
      && forall e, f :: e in pool && f in pool && e != f ==> e.scratch != f.scratch
    }

    constructor ()
      ensures Valid() && pool == {}
    {
      pool := {};
    }

    /** Takes a state from the pool, or makes one; the pool may also have dropped its states. */
    method NewEncodeState() returns (e: EncodeState, panicked: bool)
      requires Valid()
      modifies this, pool
      ensures Valid() && pool <= old(pool) && e !in pool && (e in old(pool) || fresh(e))
      ensures e.Valid() && e.path == [] && e.buf == []
      ensures e in old(pool) || fresh(e.scratch)
      ensures forall f :: f in pool ==> f.scratch != e.scratch
      ensures !panicked
    {
      panicked := false;
      if * {
        if pool != {} {
          e :| e in pool;
          pool := pool - {e};
          e.buf := [];
          if |e.ptrSeen| > 0 {
            panicked := true;
            return;
          }
          e.ptrLevel := 0;
          return;
        }
      }
      e := new EncodeState();
    }

    /** Whatever was marshalled before, the result is that of a fresh state; a state is pooled only after success. */
    method Marshal(m: Mem, ghost rank: map<Ref, nat>, v: Val) returns (bytes: seq<byte>, fault: Option<Fault>)
      requires Valid() && Heap(m, rank) && ValClosed(m, v)
      modifies this, pool, set e | e in pool :: e.scratch
      ensures Valid() && forall e :: e in pool ==> e in old(pool) || fresh(e)
      ensures fault == MarshalSpec(m, rank, v).fault
      ensures bytes == if fault.None? then MarshalSpec(m, rank, v).bytes else []
      ensures fault.None? <==> exists t :: Unfolds(m, v, t) && Encodable(t)
      ensures forall t :: Unfolds(m, v, t) && Encodable(t) ==> bytes == Wire(t)
    {
      MarshalExact(m, rank, v);
      var e, panicked := NewEncodeState();
      assert e.ptrSeen == {} && e.ptrLevel == 0;
      fault := e.Encode(m, rank, v);
      if fault.Some? {
        return [], fault;
      }
      bytes := e.buf;
      pool := pool + {e};
    }
  }
}
