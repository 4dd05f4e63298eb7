/**
 * The published check value of CRC-32/ISO-HDLC.  The register is followed on 32-bit vectors, where
 * it can be computed, and each vector stands for the natural number with its binary digits.
 */
module CrcCheckValue {
  import opened Bytes
  import opened Crc32

  function Half(x: bv32): bv32 {
    x >> 1
  }

  function Low(x: bv32): nat {
    if x & 1 == 1 then 1 else 0
  }

  function Mix(x: bv32, y: bv32): bv32 {
    x ^ y
  }

  function Value(x: bv32): nat
    decreases x
  {
    if x == 0 then 0 else Low(x) + 2 * Value(Half(x))
  }

  lemma ValueHalf(x: bv32)
    ensures Value(x) == Low(x) + 2 * Value(Half(x)) && Low(x) < 2
    ensures Value(0) == 0
  {
    assert x == 0 ==> Low(x) == 0 && Half(x) == 0;
  }

  lemma MixShifts(x: bv32, y: bv32)
    ensures Half(Mix(x, y)) == Mix(Half(x), Half(y))
    ensures Low(Mix(x, y)) == if Low(x) == Low(y) then 0 else 1
    ensures Mix(0, 0) == 0
  {}

  lemma HalfSmaller(x: bv32)
    ensures if x == 0 then Half(x) == x else Half(x) < x
  {}

  lemma {:induction false} ValueMix(x: bv32, y: bv32)
    ensures Xor(Value(x), Value(y)) == Value(Mix(x, y))
    decreases x, y
  {
    hide *;
    MixShifts(x, y);
    ValueHalf(x);
    ValueHalf(y);
    ValueHalf(Mix(x, y));
    if x == 0 && y == 0 {
      XorZero(0);
    } else {
      HalfSmaller(x);
      HalfSmaller(y);
      ValueMix(Half(x), Half(y));
      XorHalves(Low(x), Low(y), Value(Half(x)), Value(Half(y)));
    }
  }

  lemma XorHalves(a: nat, b: nat, x: nat, y: nat)
    requires a < 2 && b < 2
    ensures Xor(a + 2 * x, b + 2 * y) == (if a == b then 0 else 1) + 2 * Xor(x, y)
  {
    Digits(a, x);
    Digits(b, y);
    XorDigit(a + 2 * x, b + 2 * y);
    hide Xor;
  }

  function Shifted(x: bv32): bv32 {
    if Low(x) == 1 then Mix(Half(x), 0xEDB8_8320) else Half(x)
  }

  lemma ValueShifted(x: bv32)
    ensures Round(Value(x)) == Value(Shifted(x))
  {
    ValueHalf(x);
    ValueMix(Half(x), 0xEDB8_8320);
    ValuePoly();
    hide Value, Xor, Half, Mix, Low;
  }

  function Nibble(x: bv32): nat {
    (if x & 1 == 1 then 1 else 0) + (if x & 2 == 2 then 2 else 0) + (if x & 4 == 4 then 4 else 0)
    + (if x & 8 == 8 then 8 else 0)
  }

  function Above(x: bv32): bv32 {
    x >> 4
  }

  lemma NibbleShifts(x: bv32)
    ensures Half(Half(Half(Half(x)))) == Above(x)
    ensures Nibble(x) == Low(x) + 2 * Low(Half(x)) + 4 * Low(Half(Half(x))) + 8 * Low(Half(Half(Half(x))))
  {
    assert (x >> 1) & 1 == 1 <==> x & 2 == 2;
    assert (x >> 1) >> 1 == x >> 2 && (x >> 2) >> 1 == x >> 3 && (x >> 3) >> 1 == x >> 4;
    assert (x >> 2) & 1 == 1 <==> x & 4 == 4;
    assert (x >> 3) & 1 == 1 <==> x & 8 == 8;
  }

  /** Four digits at a time. */
  lemma ValueNibble(x: bv32)
    ensures Value(x) == Nibble(x) + 16 * Value(Above(x))
  {
    hide *;
    NibbleShifts(x);
    ValueHalf(x);
    ValueHalf(Half(x));
    ValueHalf(Half(Half(x)));
    ValueHalf(Half(Half(Half(x))));
  }

  lemma ValuePoly()
    ensures Value(0xEDB8_8320) == POLY
  {
    hide Value;
    ValueHalf(0);
    ValueNibble(0xE);
    ValueNibble(0xED);
    ValueNibble(0xEDB);
    ValueNibble(0xEDB8);
    ValueNibble(0xEDB88);
    ValueNibble(0xEDB883);
    ValueNibble(0xEDB8832);
    ValueNibble(0xEDB88320);
  }

  lemma ValueOnes()
    ensures Value(0xFFFF_FFFF) == ONES
  {
    hide Value;
    ValueHalf(0);
    ValueNibble(0xF);
    ValueNibble(0xFF);
    ValueNibble(0xFFF);
    ValueNibble(0xFFFF);
    ValueNibble(0xFFFFF);
    ValueNibble(0xFFFFFF);
    ValueNibble(0xFFFFFFF);
    ValueNibble(0xFFFFFFFF);
  }

  lemma ValueCheck()
    ensures Value(0xCBF4_3926) == 0xCBF4_3926
  {
    hide Value;
    ValueHalf(0);
    ValueNibble(0xC);
    ValueNibble(0xCB);
    ValueNibble(0xCBF);
    ValueNibble(0xCBF4);
    ValueNibble(0xCBF43);
    ValueNibble(0xCBF439);
    ValueNibble(0xCBF4392);
    ValueNibble(0xCBF43926);
  }

  lemma ValueDigits()
    ensures Value(0x31) == 0x31
    ensures Value(0x32) == 0x32
    ensures Value(0x33) == 0x33
    ensures Value(0x34) == 0x34
    ensures Value(0x35) == 0x35
    ensures Value(0x36) == 0x36
    ensures Value(0x37) == 0x37
    ensures Value(0x38) == 0x38
    ensures Value(0x39) == 0x39
  {
    hide Value;
    ValueHalf(0);
    ValueNibble(3);
    ValueNibble(0x31);
    ValueNibble(0x32);
    ValueNibble(0x33);
    ValueNibble(0x34);
    ValueNibble(0x35);
    ValueNibble(0x36);
    ValueNibble(0x37);
    ValueNibble(0x38);
    ValueNibble(0x39);
  }

  function Absorbed(x: bv32, b: bv32): bv32 {
    Shifted(Shifted(Shifted(Shifted(Shifted(Shifted(Shifted(Shifted(Mix(x, b)))))))))
  }

  lemma ValueAbsorbed(x: bv32, b: bv32, v: byte)
    requires Value(b) == v
    ensures Absorb(Value(x), v) == Value(Absorbed(x, b))
  {
    hide Value, Round, Shifted, Xor, Mix;
    ValueMix(x, b);
    var y0 := Mix(x, b);
    RoundsEight(Value(y0));
    var y1 := Shifted(y0);
    var y2 := Shifted(y1);
    var y3 := Shifted(y2);
    var y4 := Shifted(y3);
    var y5 := Shifted(y4);
    var y6 := Shifted(y5);
    var y7 := Shifted(y6);
    ValueShifted(y0);
    ValueShifted(y1);
    ValueShifted(y2);
    ValueShifted(y3);
    ValueShifted(y4);
    ValueShifted(y5);
    ValueShifted(y6);
    ValueShifted(y7);
  }

  lemma RoundsEight(s: nat)
    ensures Rounds(s, 8) == Round(Round(Round(Round(Round(Round(Round(Round(s))))))))
  {
    hide Round;
    var t := Round(Round(Round(Round(s))));
    assert Rounds(s, 8) == Rounds(t, 4);
  }

  lemma AbsorbSteps()
    ensures Absorbed(0xFFFF_FFFF, 0x31) == 0x7C23_1048
    ensures Absorbed(0x7C23_1048, 0x32) == 0xB0AC_BB32
    ensures Absorbed(0xB0AC_BB32, 0x33) == 0x77B7_9C2D
    ensures Absorbed(0x77B7_9C2D, 0x34) == 0x641C_1F5C
    ensures Absorbed(0x641C_1F5C, 0x35) == 0x340A_C5E3
    ensures Absorbed(0x340A_C5E3, 0x36) == 0xF68D_2C9E
    ensures Absorbed(0xF68D_2C9E, 0x37) == 0xAFFC_9660
    ensures Absorbed(0xAFFC_9660, 0x38) == 0x651F_2550
    ensures Absorbed(0x651F_2550, 0x39) == 0x340B_C6D9
  {}

  const CHECK: seq<byte> := [0x31, 0x32, 0x33, 0x34, 0x35, 0x36, 0x37, 0x38, 0x39]

  lemma {:induction false} RunLast(s: nat, data: seq<byte>, b: byte)
    ensures Run(s, data + [b]) == Absorb(Run(s, data), b)
  {
    RunConcat(s, data, [b]);
    assert [b][1..] == [];
    hide Absorb;
  }

  /** The register after each of the nine bytes. */
  lemma CheckRegister(n: nat, x: bv32, y: bv32, b: bv32)
    requires n < 9 && Run(ONES, CHECK[..n]) == Value(x) && Value(b) == CHECK[n] && Absorbed(x, b) == y
    ensures Run(ONES, CHECK[..n + 1]) == Value(y)
  {
    hide Value, Absorbed, Absorb, Run;
    RunLast(ONES, CHECK[..n], CHECK[n]);
    assert CHECK[..n + 1] == CHECK[..n] + [CHECK[n]];
    ValueAbsorbed(x, b, CHECK[n]);
  }

  lemma RunNothing(s: nat)
    ensures Run(s, []) == s
  {}

  lemma CheckRun()
    ensures Run(ONES, CHECK) == Value(0x340B_C6D9)
  {
    hide Value, Absorbed, Absorb, Run, ONES;
    ValueOnes();
    ValueDigits();
    AbsorbSteps();
    RunNothing(ONES);
    assert CHECK[..0] == [] && CHECK[..9] == CHECK;
    CheckRegister(0, 0xFFFF_FFFF, 0x7C23_1048, 0x31);
    CheckRegister(1, 0x7C23_1048, 0xB0AC_BB32, 0x32);
    CheckRegister(2, 0xB0AC_BB32, 0x77B7_9C2D, 0x33);
    CheckRegister(3, 0x77B7_9C2D, 0x641C_1F5C, 0x34);
    CheckRegister(4, 0x641C_1F5C, 0x340A_C5E3, 0x35);
    CheckRegister(5, 0x340A_C5E3, 0xF68D_2C9E, 0x36);
    CheckRegister(6, 0xF68D_2C9E, 0xAFFC_9660, 0x37);
    CheckRegister(7, 0xAFFC_9660, 0x651F_2550, 0x38);
    CheckRegister(8, 0x651F_2550, 0x340B_C6D9, 0x39);
  }

  /** The CRC of the nine bytes `123456789` is the published check value. */
  lemma CheckValue()
    ensures Crc([0x31, 0x32, 0x33, 0x34, 0x35, 0x36, 0x37, 0x38, 0x39]) == 0xCBF4_3926
  {
    hide Value, Xor, Run;
    CheckRun();
    ValueOnes();
    ValueCheck();
    ValueMix(0x340B_C6D9, 0xFFFF_FFFF);
    assert Mix(0x340B_C6D9, 0xFFFF_FFFF) == 0xCBF4_3926;
  }
}
