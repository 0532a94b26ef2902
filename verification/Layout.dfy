/** The bytes of the codec spelled out, number by number and byte by byte, for readers of the wire. */
module Layout {
  import opened LittleEndian
  import opened GoMemory
  import opened WireFormat
  import opened Frames

  // ---- Numbers ----

  /** Byte i of n, in two's complement. */
  function Digit(n: int, i: nat): byte {
    n / Pow256(i) % 256
  }

  lemma Multiples(a: int, q: int, q': int)
    requires a > 0 && q < q'
    ensures a * q + a <= a * q'
  {
    assert a * (q' - q - 1) >= 0;
  }

  /** Division with remainder has one answer. */
  lemma Quotient(n: int, a: int, q: int, r: int)
    requires a > 0 && n == a * q + r && 0 <= r < a
    ensures n / a == q && n % a == r
  {
    var q' := n / a;
    assert n == a * q' + n % a;
    if q < q' {
      Multiples(a, q, q');
    } else if q' < q {
      Multiples(a, q', q);
    }
  }

  lemma DivideTwice(n: int, b: int)
    requires b > 0
    ensures n / 256 / b == n / (256 * b)
  {
    var m := n / 256;
    var q, r := m / b, 256 * (m % b) + n % 256;
    assert n == 256 * b * q + r by {
      assert m == b * q + m % b;
      assert 256 * (b * q) == 256 * b * q;
    }
    Quotient(n, 256 * b, q, r);
  }

  lemma ModuloShift(n: int, p: int)
    requires p > 0
    ensures n % (256 * p) % 256 == n % 256 && n % (256 * p) / 256 == n / 256 % p
  {
    var m := n / 256;
    var q, r := m / p, m % p;
    assert n == 256 * p * q + (256 * r + n % 256) by {
      assert m == p * q + r;
      assert 256 * (p * q) == 256 * p * q;
    }
    Quotient(n, 256 * p, q, 256 * r + n % 256);
  }

  /** Reducing to the width first makes no difference to the bytes that are put. */
  lemma {:induction false} PutAt(n: int, w: nat, i: nat)
    requires i < w
    ensures Put(n % Pow256(w), w)[i] == Digit(n, i)
    decreases w
  {
    ModuloShift(n, Pow256(w - 1));
    if i > 0 {
      PutAt(n / 256, w - 1, i - 1);
      DivideTwice(n, Pow256(i - 1));
    }
  }

  lemma Powers()
    ensures Pow256(0) == 1 && Pow256(1) == 0x100 && Pow256(2) == 0x1_0000 && Pow256(3) == 0x100_0000
    ensures Pow256(4) == 0x1_0000_0000 && Pow256(5) == 0x100_0000_0000 && Pow256(6) == 0x1_0000_0000_0000
    ensures Pow256(7) == 0x100_0000_0000_0000 && Pow256(8) == 0x1_0000_0000_0000_0000
  {
    assert Pow256(1) == 256 * Pow256(0) && Pow256(2) == 256 * Pow256(1) && Pow256(3) == 256 * Pow256(2);
    assert Pow256(4) == 256 * Pow256(3) && Pow256(5) == 256 * Pow256(4) && Pow256(6) == 256 * Pow256(5);
    assert Pow256(7) == 256 * Pow256(6) && Pow256(8) == 256 * Pow256(7);
  }

  lemma PutDigits(n: int, w: nat)
    ensures Put(n % Pow256(w), w) == seq(w, i requires 0 <= i => Digit(n, i))
  {
    forall i: nat | i < w ensures Put(n % Pow256(w), w)[i] == Digit(n, i) {
      PutAt(n, w, i);
    }
  }

  /** Numbers take one, two, four or eight bytes by kind, least significant first, in two's complement. */
  lemma NumberBytes(k: Kind, n: int)
    ensures k.Byte? ==> Wire(Tree.Num(k, n)) == [n % 0x100]
    ensures k.Int16? || k.Uint16? ==> Wire(Tree.Num(k, n)) == [n % 0x100, n / 0x100 % 0x100]
    ensures k.Int32? || k.Uint32? || k.Float32? ==>
              Wire(Tree.Num(k, n)) == [n % 0x100, n / 0x100 % 0x100, n / 0x1_0000 % 0x100, n / 0x100_0000 % 0x100]
    ensures k.Float64? ==>
              Wire(Tree.Num(k, n)) ==
              [n % 0x100, n / 0x100 % 0x100, n / 0x1_0000 % 0x100, n / 0x100_0000 % 0x100,
               n / 0x1_0000_0000 % 0x100, n / 0x100_0000_0000 % 0x100, n / 0x1_0000_0000_0000 % 0x100,
               n / 0x100_0000_0000_0000 % 0x100]
  {
    PutDigits(n, Width(k));
    Powers();
  }

  /** What a variable of each kind can hold; a float is its bit pattern. */
  lemma NumberRanges(k: Kind, n: int)
    ensures InRange(k, n) <==>
            match k
            case Byte => 0 <= n <= 255
            case Int16 => -32768 <= n <= 32767
            case Uint16 => 0 <= n <= 65535
            case Int32 => -2147483648 <= n <= 2147483647
            case Uint32 => 0 <= n <= 4294967295
            case Float32 => 0 <= n <= 4294967295
            case Float64 => 0 <= n <= 18446744073709551615
  {
    Powers();
  }

  // ---- Everything else ----

  /** A length takes two bytes, least significant first. */
  lemma PrefixBytes(n: nat)
    requires n <= 65535
    ensures LengthPrefix(n) == [n % 0x100, n / 0x100 % 0x100]
  {
    PutDigits(n, 2);
    Powers();
  }

  /**
   * The wire form, constructor by constructor: a boolean is 0 or 1, a string ends with a zero byte, byte slices and
   * slices start with their length, and structs and pointers add nothing.
   */
  lemma WireBytes(t: Tree)
    ensures t == Tree.Bool(false) ==> Wire(t) == [0]
    ensures t == Tree.Bool(true) ==> Wire(t) == [1]
    ensures t.Str? ==> Wire(t) == t.s + [0]
    ensures t.Bytes? && |t.s| <= 65535 ==> Wire(t) == [|t.s| % 0x100, |t.s| / 0x100 % 0x100] + t.s
    ensures t.Slice? && |t.es| <= 65535 ==> Wire(t) == [|t.es| % 0x100, |t.es| / 0x100 % 0x100] + WireAll(t.es)
    ensures t.Struct? ==> Wire(t) == WireAll(t.fs)
    ensures t.Ptr? ==> Wire(t) == Wire(t.t)
    ensures t.Hidden? ==> Wire(t) == []
  {
    if t.Bytes? && |t.s| <= 65535 {
      PrefixBytes(|t.s|);
    } else if t.Slice? && |t.es| <= 65535 {
      PrefixBytes(|t.es|);
    }
  }

  lemma {:induction false} WireAllAppend(ts: seq<Tree>, us: seq<Tree>)
    ensures WireAll(ts + us) == WireAll(ts) + WireAll(us)
  {
    if ts == [] {
      assert ts + us == us;
    } else {
      assert (ts + us)[1..] == ts[1..] + us;
      WireAllAppend(ts[1..], us);
      Regroup(Wire(ts[0]), WireAll(ts[1..]), WireAll(us));
    }
  }

  /** Fields and elements follow each other in order. */
  lemma PartsInOrder(ts: seq<Tree>, i: nat)
    requires i < |ts|
    ensures WireAll(ts) == WireAll(ts[..i]) + Wire(ts[i]) + WireAll(ts[i + 1..])
  {
    assert ts == ts[..i] + ts[i..] && ts[i..][1..] == ts[i + 1..];
    WireAllAppend(ts[..i], ts[i..]);
    Regroup(WireAll(ts[..i]), Wire(ts[i]), WireAll(ts[i + 1..]));
  }

  lemma WordBytes(n: nat)
    requires n < 0x1_0000_0000
    ensures Put(n, 4) == [n % 0x100, n / 0x100 % 0x100, n / 0x1_0000 % 0x100, n / 0x100_0000 % 0x100]
  {
    Powers();
    assert n % 0x1_0000_0000 == n;
    PutDigits(n, 4);
  }

  /** Two bytes of identifier, four of size and four of number, each least significant first. */
  ghost predicate TenBytes(h: seq<byte>, id: nat, n: nat, q: nat) {
    && |h| == 10
    && h[..2] == [id % 0x100, id / 0x100 % 0x100]
    && h[2..6] == [n % 0x100, n / 0x100 % 0x100, n / 0x1_0000 % 0x100, n / 0x100_0000 % 0x100]
    && h[6..] == [q % 0x100, q / 0x100 % 0x100, q / 0x1_0000 % 0x100, q / 0x100_0000 % 0x100]
  }

  lemma ThreeParts(h: seq<byte>, id: u16, n: u32, q: u32)
    requires h == Put(id, 2) + Put(n, 4) + Put(q, 4)
    ensures TenBytes(h, id, n, q)
  {
    var a, b, c := Put(id, 2), Put(n, 4), Put(q, 4);
    assert h[..2] == a && h[2..6] == b && h[6..] == c;
    PrefixBytes(id);
    WordBytes(n);
    WordBytes(q);
  }

  /** The size that a frame gives counts its ten header bytes. */
  lemma HeaderBytes(f: Frame)
    requires |f.body| + 10 < 0x1_0000_0000
    ensures TenBytes(Header(f), f.id, |f.body| + 10, f.seqId)
  {
    ThreeParts(Header(f), f.id, SizeField(f.body), f.seqId);
  }

  /** The header check: the identifier is tested first, then the size, which counts the header. */
  lemma HeaderCheck(h: seq<byte>)
    requires |h| == 10
    ensures var id: int := h[0] as int + 0x100 * h[1] as int;
            var size: int := h[2] as int + 0x100 * h[3] as int + 0x1_0000 * h[4] as int + 0x100_0000 * h[5] as int;
            && (HookHeader(h) == Accepted <==> 1000 <= id <= 60000 && 10 <= size <= 1048576)
            && (HookHeader(h) == Refused(BadId) <==> id < 1000 || id > 60000)
  {
    GetTwo(h[..2]);
    var s := h[2..6];
    assert Get(s) == s[0] + 256 * Get(s[1..]);
    assert Get(s[1..]) == s[1] + 256 * Get(s[2..]) by { assert s[1..][1..] == s[2..]; }
    GetTwo(s[2..]);
  }

  lemma GetTwo(s: seq<byte>)
    requires |s| == 2
    ensures Get(s) == s[0] as int + 0x100 * s[1] as int
  {
    assert Get(s[1..]) == s[1] + 256 * Get(s[1..][1..]);
  }
}
