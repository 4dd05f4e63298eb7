/** Bytes and little-endian fields, as the packed protocol headers use them. */
module Bytes {
  type byte = x: int | 0 <= x < 256

  /** The value of a little-endian field. */
  function Le(b: seq<byte>): (v: nat) {
    if b == [] then 0 else b[0] + 256 * Le(b[1..])
  }

  /** The low `n` bytes of `v`, least significant first. */
  function ToLe(v: nat, n: nat): (b: seq<byte>)
    ensures |b| == n
    decreases n
  {
    if n == 0 then [] else [v % 256] + ToLe(v / 256, n - 1)
  }

  function Pow256(n: nat): (p: nat)
    ensures p > 0
  {
    if n == 0 then 1 else 256 * Pow256(n - 1)
  }

  lemma Widths()
    ensures Pow256(2) == 0x1_0000 && Pow256(4) == 0x1_0000_0000 && Pow256(8) == 0x1_0000_0000_0000_0000
  {
    assert Pow256(6) == 0x1_0000_0000_0000;
  }

  lemma {:induction false} LeToLe(v: nat, n: nat)
    requires v < Pow256(n)
    ensures Le(ToLe(v, n)) == v
    decreases n
  {
    if n > 0 {
      LeToLe(v / 256, n - 1);
      assert ToLe(v, n)[1..] == ToLe(v / 256, n - 1);
    }
  }

  lemma {:induction false} ToLeLe(b: seq<byte>)
    ensures Le(b) < Pow256(|b|)
    ensures ToLe(Le(b), |b|) == b
  {
    if b != [] {
      ToLeLe(b[1..]);
      assert Le(b) % 256 == b[0] && Le(b) / 256 == Le(b[1..]);
      assert ToLe(Le(b), |b|) == [b[0]] + b[1..];
    }
  }

  /** Fields of the same width hold the same bytes when they hold the same value. */
  lemma LeInjective(a: seq<byte>, b: seq<byte>)
    requires |a| == |b| && Le(a) == Le(b)
    ensures a == b
  {
    ToLeLe(a);
    ToLeLe(b);
  }
}
