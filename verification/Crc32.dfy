/**
 * CRC-32/ISO-HDLC (section 8 of RFC 1952): reflected polynomial 0xEDB88320, initial value and
 * final exclusive-or 0xFFFFFFFF.  The register is a natural number below 2^32 and exclusive-or is
 * defined on the binary digits, so that error detection is a theorem about the arithmetic.
 */
module Crc32 {
  import opened Bytes

  const POLY: nat := 0xEDB8_8320
  const ONES: nat := 0xFFFF_FFFF

  function Digit(a: nat, b: nat): (d: nat)
    ensures d < 2
  {
    if a % 2 == b % 2 then 0 else 1
  }

  function Xor(a: nat, b: nat): nat
    decreases a + b
  {
    if a == 0 && b == 0 then 0 else Digit(a, b) + 2 * Xor(a / 2, b / 2)
  }

  function Round(s: nat): nat {
    if s % 2 == 1 then Xor(s / 2, POLY) else s / 2
  }

  function Rounds(s: nat, n: nat): nat
    decreases n
  {
    if n == 0 then s else Rounds(Round(s), n - 1)
  }

  function Absorb(s: nat, b: byte): nat {
    Rounds(Xor(s, b), 8)
  }

  function Run(s: nat, data: seq<byte>): nat
    decreases |data|
  {
    if data == [] then s else Run(Absorb(s, data[0]), data[1..])
  }

  function Crc(data: seq<byte>): nat {
    Xor(Run(ONES, data), ONES)
  }

  // ---- Exclusive-or ----

  lemma {:induction false} XorZero(a: nat)
    ensures Xor(a, 0) == a == Xor(0, a)
  {
    if a != 0 { XorZero(a / 2); }
  }

  lemma {:induction false} XorComm(a: nat, b: nat)
    ensures Xor(a, b) == Xor(b, a)
    decreases a + b
  {
    if a != 0 || b != 0 { XorComm(a / 2, b / 2); }
  }

  lemma Digits(d: nat, h: nat)
    requires d < 2
    ensures (d + 2 * h) % 2 == d && (d + 2 * h) / 2 == h
  {}

  /** One binary digit of an exclusive-or. */
  lemma XorDigit(a: nat, b: nat)
    ensures Xor(a, b) % 2 == Digit(a, b)
    ensures Xor(a, b) / 2 == Xor(a / 2, b / 2)
  {
    Digits(Digit(a, b), Xor(a / 2, b / 2));
  }

  lemma SameDigits(x: nat, y: nat)
    requires x % 2 == y % 2 && x / 2 == y / 2
    ensures x == y
  {}

  lemma {:induction false} XorAssoc(a: nat, b: nat, c: nat)
    ensures Xor(Xor(a, b), c) == Xor(a, Xor(b, c))
    decreases a + b + c
  {
    if a != 0 || b != 0 || c != 0 {
      var l, r := Xor(a, b), Xor(b, c);
      XorAssoc(a / 2, b / 2, c / 2);
      XorDigit(a, b);
      XorDigit(b, c);
      XorDigit(l, c);
      XorDigit(a, r);
      SameDigits(Xor(l, c), Xor(a, r));
    }
  }

  lemma {:induction false} XorSelf(a: nat)
    ensures Xor(a, a) == 0
  {
    if a != 0 { XorSelf(a / 2); }
  }

  lemma XorCancel(a: nat, b: nat)
    ensures Xor(Xor(a, b), b) == a
  {
    XorAssoc(a, b, b);
    XorSelf(b);
    XorZero(a);
  }

  lemma XorSwap(a: nat, b: nat, c: nat)
    ensures Xor(Xor(a, b), c) == Xor(Xor(a, c), b)
  {
    XorAssoc(a, b, c);
    XorComm(b, c);
    XorAssoc(a, c, b);
  }

  function Pow2(k: nat): (p: nat)
    ensures p > 0
  {
    if k == 0 then 1 else 2 * Pow2(k - 1)
  }

  lemma {:induction false} XorBound(a: nat, b: nat, k: nat)
    requires a < Pow2(k) && b < Pow2(k)
    ensures Xor(a, b) < Pow2(k)
    decreases k
  {
    if k > 0 && (a != 0 || b != 0) { XorBound(a / 2, b / 2, k - 1); }
  }

  /** Exclusive-or with a number that has one more digit keeps that digit. */
  lemma {:induction false} XorTop(a: nat, p: nat, k: nat)
    requires a < Pow2(k) <= p < 2 * Pow2(k)
    ensures Pow2(k) <= Xor(a, p) < 2 * Pow2(k)
    decreases k
  {
    if k == 0 { XorZero(p); } else { XorTop(a / 2, p / 2, k - 1); }
  }

  function Shl(y: nat, k: nat): nat
    decreases k
  {
    if k == 0 then y else 2 * Shl(y, k - 1)
  }

  /** Digits that do not overlap add. */
  lemma {:induction false} XorDisjoint(lo: nat, hi: nat, k: nat)
    requires lo < Pow2(k)
    ensures Xor(lo, Shl(hi, k)) == lo + Shl(hi, k)
    decreases k
  {
    if k == 0 { XorZero(hi); } else {
      var h := Shl(hi, k - 1);
      XorDisjoint(lo / 2, hi, k - 1);
      XorDigit(lo, 2 * h);
      SameDigits(Xor(lo, 2 * h), lo + 2 * h);
    }
  }

  // ---- The register is never folded: equal results come from equal registers ----

  lemma {:induction false} Pow2Add(m: nat, n: nat)
    ensures Pow2(m + n) == Pow2(m) * Pow2(n)
  {
    if m > 0 { Pow2Add(m - 1, n); }
  }

  lemma Pow2Register()
    ensures Pow2(31) == 0x8000_0000 && Pow2(32) == 0x1_0000_0000
  {
    assert Pow2(8) == 0x100;
    assert Pow2(16) == 0x1_0000 by { Pow2Add(8, 8); }
    assert Pow2(31) == Pow2(16) * Pow2(15) by { Pow2Add(16, 15); }
  }

  lemma RoundBound(s: nat)
    requires s < Pow2(32)
    ensures Round(s) < Pow2(32)
  {
    Pow2Register();
    if s % 2 == 1 { XorBound(s / 2, POLY, 32); }
  }

  lemma RoundInjective(s: nat, t: nat)
    requires s < Pow2(32) && t < Pow2(32) && Round(s) == Round(t)
    ensures s == t
  {
    Pow2Register();
    XorCancel(s / 2, POLY);
    XorCancel(t / 2, POLY);
    if s % 2 == 1 { XorTop(s / 2, POLY, 31); }
    if t % 2 == 1 { XorTop(t / 2, POLY, 31); }
    SameDigits(s, t);
  }

  lemma {:induction false} RoundsInjective(s: nat, t: nat, n: nat)
    requires s < Pow2(32) && t < Pow2(32)
    ensures Rounds(s, n) < Pow2(32)
    ensures Rounds(s, n) == Rounds(t, n) ==> s == t
    decreases n
  {
    if n > 0 {
      RoundBound(s);
      RoundBound(t);
      RoundsInjective(Round(s), Round(t), n - 1);
      if Round(s) == Round(t) { RoundInjective(s, t); }
    }
  }

  lemma AbsorbInjective(s: nat, t: nat, b: byte)
    requires s < Pow2(32) && t < Pow2(32)
    ensures Absorb(s, b) < Pow2(32)
    ensures Absorb(s, b) == Absorb(t, b) ==> s == t
  {
    XorBound(s, b, 32);
    XorBound(t, b, 32);
    RoundsInjective(Xor(s, b), Xor(t, b), 8);
    XorCancel(s, b);
    XorCancel(t, b);
  }

  lemma {:induction false} RunInjective(s: nat, t: nat, data: seq<byte>)
    requires s < Pow2(32) && t < Pow2(32)
    ensures Run(s, data) < Pow2(32)
    ensures Run(s, data) == Run(t, data) ==> s == t
    decreases |data|
  {
    if data != [] {
      AbsorbInjective(s, t, data[0]);
      AbsorbInjective(t, s, data[0]);
      RunInjective(Absorb(s, data[0]), Absorb(t, data[0]), data[1..]);
    }
  }

  lemma {:induction false} RunConcat(s: nat, a: seq<byte>, b: seq<byte>)
    ensures Run(s, a + b) == Run(Run(s, a), b)
    decreases |a|
  {
    if a == [] { assert a + b == b; } else {
      assert (a + b)[1..] == a[1..] + b;
      RunConcat(Absorb(s, a[0]), a[1..], b);
    }
  }

  // ---- Up to four bytes enter the register as one word ----

  lemma RoundLinear(s: nat, y: nat)
    ensures Round(Xor(s, 2 * y)) == Xor(Round(s), y)
  {
    hide Xor;
    XorDigit(s, 2 * y);
    Digits(0, y);
    XorSwap(s / 2, y, POLY);
  }

  lemma {:induction false} RoundsLinear(s: nat, y: nat, k: nat)
    ensures Rounds(Xor(s, Shl(y, k)), k) == Xor(Rounds(s, k), y)
    decreases k
  {
    if k > 0 {
      RoundLinear(s, Shl(y, k - 1));
      RoundsLinear(Round(s), y, k - 1);
    }
  }

  lemma {:induction false} RoundsAdd(s: nat, m: nat, n: nat)
    ensures Rounds(Rounds(s, m), n) == Rounds(s, m + n)
    decreases m
  {
    if m > 0 { RoundsAdd(Round(s), m - 1, n); }
  }

  lemma {:induction false} RunWord(s: nat, w: seq<byte>)
    ensures Run(s, w) == Rounds(Xor(s, Le(w)), 8 * |w|)
    decreases |w|
  {
    hide Xor, Rounds;
    if w == [] {
      XorZero(s);
      NoRounds(s);
    } else {
      RunWord(Absorb(s, w[0]), w[1..]);
      AbsorbWord(s, w[0], Le(w[1..]), 8 * |w[1..]|, 8);
    }
  }

  lemma NoRounds(s: nat)
    ensures Rounds(s, 0) == s
  {}

  lemma ShiftByte(hi: nat)
    ensures Shl(hi, 8) == 256 * hi && Pow2(8) == 256
  {}

  lemma AbsorbWord(s: nat, b: byte, hi: nat, n: nat, bits: nat)
    requires bits == 8
    ensures Rounds(Xor(Rounds(Xor(s, b), bits), hi), n) == Rounds(Xor(s, b + 256 * hi), bits + n)
  {
    hide *;
    ShiftByte(hi);
    RoundsLinear(Xor(s, b), hi, bits);
    XorAssoc(s, b, Shl(hi, bits));
    XorDisjoint(b, hi, bits);
    RoundsAdd(Xor(s, b + 256 * hi), bits, n);
  }

  lemma WordInjective(s: nat, a: seq<byte>, b: seq<byte>)
    requires s < Pow2(32) && |a| == |b| <= 4 && Run(s, a) == Run(s, b)
    ensures a == b
  {
    WordBound(a);
    WordBound(b);
    RunWord(s, a);
    RunWord(s, b);
    XorBound(s, Le(a), 32);
    XorBound(s, Le(b), 32);
    RoundsInjective(Xor(s, Le(a)), Xor(s, Le(b)), 8 * |a|);
    XorComm(s, Le(a));
    XorComm(s, Le(b));
    XorCancel(Le(a), s);
    XorCancel(Le(b), s);
    LeInjective(a, b);
  }

  lemma WordBound(w: seq<byte>)
    requires |w| <= 4
    ensures Le(w) < Pow2(32)
  {
    Pow2Register();
    ToLeLe(w);
    assert Pow256(0) == 1 && Pow256(1) == 256 && Pow256(2) == 0x1_0000 && Pow256(3) == 0x100_0000;
  }

  // ---- Error detection ----

  /** `a` and `b` have the same length and agree outside some four adjacent positions from `k`. */
  predicate Burst(a: seq<byte>, b: seq<byte>, k: nat) {
    && |a| == |b|
    && a != b
    && forall i :: 0 <= i < |a| && !(k <= i < k + 4) ==> a[i] == b[i]
  }

  /** Damage confined to four adjacent bytes always changes the register. */
  lemma BurstDetected(s: nat, a: seq<byte>, b: seq<byte>, k: nat)
    requires s < Pow2(32) && Burst(a, b, k)
    ensures Run(s, a) != Run(s, b)
  {
    hide Run, Pow2;
    var lo := if k < |a| then k else |a|;
    var hi := if k + 4 < |a| then k + 4 else |a|;
    assert a == a[..lo] + a[lo..hi] + a[hi..] && b == b[..lo] + b[lo..hi] + b[hi..];
    assert a[..lo] == b[..lo] && a[hi..] == b[hi..];
    RunConcat(s, a[..lo] + a[lo..hi], a[hi..]);
    RunConcat(s, b[..lo] + b[lo..hi], b[hi..]);
    RunConcat(s, a[..lo], a[lo..hi]);
    RunConcat(s, b[..lo], b[lo..hi]);
    RunInjective(s, s, a[..lo]);
    var t := Run(s, a[..lo]);
    RunInjective(t, t, a[lo..hi]);
    RunInjective(t, t, b[lo..hi]);
    RunInjective(Run(t, a[lo..hi]), Run(t, b[lo..hi]), a[hi..]);
    if Run(t, a[lo..hi]) == Run(t, b[lo..hi]) { WordInjective(t, a[lo..hi], b[lo..hi]); }
  }

  /** `data` ends with the little-endian CRC of what comes before. */
  predicate Sealed(data: seq<byte>) {
    |data| >= 4 && Le(data[|data| - 4..]) == Crc(data[..|data| - 4])
  }

  function Seal(body: seq<byte>): (data: seq<byte>)
    ensures |data| == |body| + 4
  {
    body + ToLe(Crc(body), 4)
  }

  lemma CrcBound(data: seq<byte>)
    ensures Crc(data) < 0x1_0000_0000
  {
    Pow2Register();
    RunInjective(ONES, ONES, data);
    XorBound(Run(ONES, data), ONES, 32);
  }

  lemma SealedIffSeal(data: seq<byte>)
    requires |data| >= 4
    ensures Sealed(data) <==> data == Seal(data[..|data| - 4])
  {
    var body, tail := data[..|data| - 4], data[|data| - 4..];
    assert data == body + tail;
    CrcBound(body);
    assert Pow256(4) == 0x1_0000_0000;
    LeToLe(Crc(body), 4);
    ToLeLe(tail);
    if data == Seal(body) { assert tail == Seal(body)[|data| - 4..] == ToLe(Crc(body), 4); }
  }

  /** A message is sealed exactly when running the register over all of it leaves one constant. */
  lemma SealedIffResidue(data: seq<byte>)
    requires |data| >= 4
    ensures Sealed(data) <==> Run(ONES, data) == Rounds(ONES, 32)
  {
    Pow2Register();
    var body, tail := data[..|data| - 4], data[|data| - 4..];
    assert data == body + tail;
    var s := Run(ONES, body);
    RunInjective(ONES, ONES, body);
    RunConcat(ONES, body, tail);
    RunWord(s, tail);
    WordBound(tail);
    XorBound(s, Le(tail), 32);
    RoundsInjective(Xor(s, Le(tail)), ONES, 32);
    XorCancel(Le(tail), s);
    XorComm(s, Le(tail));
    XorComm(s, ONES);
    XorCancel(ONES, s);
  }

  /** No sealed message turns into another one by damage to four adjacent bytes, seal included. */
  lemma SealDetectsBurst(a: seq<byte>, b: seq<byte>, k: nat)
    requires Sealed(a) && Burst(a, b, k)
    ensures !Sealed(b)
  {
    Pow2Register();
    SealedIffResidue(a);
    SealedIffResidue(b);
    BurstDetected(ONES, a, b, k);
  }
}
