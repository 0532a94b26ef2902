/** Bytes and the little-endian integers that both the codec and the frame header are made of. */
module LittleEndian {
  type byte = x: int | 0 <= x < 256

  /** The number of values that fit in w bytes. */
  function Pow256(w: nat): (p: nat)
    ensures p > 0
  {
    if w == 0 then 1 else 256 * Pow256(w - 1)
  }

  /** The w low-order bytes of n, least significant first. */
  function Put(n: nat, w: nat): (s: seq<byte>)
    ensures |s| == w
  {
    if w == 0 then [] else [n % 256] + Put(n / 256, w - 1)
  }

  function Get(s: seq<byte>): nat {
    if s == [] then 0 else s[0] + 256 * Get(s[1..])
  }

  lemma {:induction false} GetPut(n: nat, w: nat)
    requires n < Pow256(w)
    ensures Get(Put(n, w)) == n
  {
    if w > 0 {
      assert n / 256 < Pow256(w - 1);
      GetPut(n / 256, w - 1);
      assert Put(n, w)[1..] == Put(n / 256, w - 1);
    }
  }

  lemma {:induction false} PutGet(s: seq<byte>)
    ensures Get(s) < Pow256(|s|)
    ensures Put(Get(s), |s|) == s
  {
    if s != [] {
      PutGet(s[1..]);
      assert Get(s) % 256 == s[0] && Get(s) / 256 == Get(s[1..]);
      assert s == [s[0]] + s[1..];
    }
  }

  lemma Pow256Values()
    ensures Pow256(1) == 0x100 && Pow256(2) == 0x1_0000
    ensures Pow256(4) == 0x1_0000_0000
  {
    assert Pow256(1) == 256 * Pow256(0);
    assert Pow256(2) == 256 * Pow256(1);
    assert Pow256(3) == 256 * Pow256(2);
    assert Pow256(4) == 256 * Pow256(3);
  }
}
