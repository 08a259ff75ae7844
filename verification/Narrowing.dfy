/** Narrowing to a double: where the conversion rounds to the nearest double, and exactly where it does not. */
module Narrowing {
  import opened Powers
  import opened Rounding
  import opened Float80
  import opened RoundingPath
  import opened Codec
  import Sums = AddSub

  const MIN_EXP: int := -1074

  // ---- Doubles, with no bound on the exponent above ----

  ghost predicate IsDouble(x: real) {
    exists k: int, e: int :: -P53 < k < P53 && MIN_EXP <= e && x == Scaled(k, e)
  }

  /** A double whose significand, in its canonical form, is even. */
  ghost predicate IsEvenDouble(x: real) {
    exists k: nat, e: int ::
      k < P53 && k % 2 == 0 && MIN_EXP <= e && (P52 <= k || e == MIN_EXP) && (x == Scaled(k, e) || -x == Scaled(k, e))
  }

  ghost function Doubles(): iset<real> { iset x: real | IsDouble(x) }

  ghost function EvenDoubles(): iset<real> { iset x: real | IsEvenDouble(x) }

  ghost predicate NearestDouble(x: real, y: real) {
    Selected(Nearest, Doubles(), EvenDoubles(), x, y)
  }

  lemma DoublesNegate()
    ensures Symmetric(Doubles()) && Symmetric(EvenDoubles())
  {
    forall x: real | x in Doubles()
      ensures -x in Doubles()
    {
      var k: int, e: int :| -P53 < k < P53 && MIN_EXP <= e && x == Scaled(k, e);
      ScaledNegates(k, e);
    }
    forall x: real | x in EvenDoubles()
      ensures -x in EvenDoubles()
    {
      assert - -x == x;
    }
  }

  /** `k` units of 2^u are a canonical double, or the unit above the last one. */
  predicate Canonical(k: nat, u: int) {
    MIN_EXP <= u && k < P53 && (P52 <= k || u == MIN_EXP)
  }

  lemma UnitsAreDoubles(k: nat, u: int)
    requires Canonical(k, u)
    ensures Scaled(k, u) in Doubles() && Scaled(k + 1, u) in Doubles()
    ensures Scaled(if k % 2 == 1 then k + 1 else k, u) in EvenDoubles()
  {
    if k + 1 == P53 {
      HalveSignificand(P52, u);
    }
  }

  lemma CoarseGap(k: nat, u: int, j: int, e: int)
    requires u <= e
    ensures Scaled(j, e) <= Scaled(k, u) || Scaled(k + 1, u) <= Scaled(j, e)
  {
    CoarserIsMultiple(j, e, u);
    var n := j * Pow2(e - u);
    if n <= k {
      ScaledOrder(n, k, u);
    } else {
      ScaledOrder(k + 1, n, u);
    }
  }

  lemma FineGap(k: nat, u: int, j: int, e: int)
    requires e < u && -P53 < j < P53 && P52 <= k
    ensures Scaled(j, e) <= Scaled(k, u)
  {
    assert Pow2(1) == 2 by { Pow2Add(0, 1); }
    Pow2Mono(1, u - e);
    CoarserIsMultiple(k, u, e);
    var p := Pow2(u - e);
    assert P53 <= k * p by { MulOrder(2, p, k); }
    ScaledOrder(j, k * p, e);
  }

  lemma UnitsAreConsecutiveDoubles(k: nat, u: int)
    requires Canonical(k, u)
    ensures Consecutive(Doubles(), Scaled(k, u), Scaled(k + 1, u))
  {
    UnitsAreDoubles(k, u);
    ScaledValue(0, u);
    ScaledOrder(0, k, u);
    ScaledOrder(k, k + 1, u);
    forall z: real | z in Doubles()
      ensures z <= Scaled(k, u) || Scaled(k + 1, u) <= z
    {
      var j: int, e: int :| -P53 < j < P53 && MIN_EXP <= e && z == Scaled(j, e);
      if u <= e {
        CoarseGap(k, u, j, e);
      } else {
        FineGap(k, u, j, e);
      }
    }
  }

  // ---- Rounding off the low bits ----

  /** The integer nearest to `sig` over 2^n, ties to even. */
  function RoundOff(sig: nat, n: nat): nat
    requires 0 < n
  {
    var k, cmp := Shr(sig, n), Compare(Low(sig, n), Pow2(n - 1));
    if RoundsUp(Nearest, false, k % 2 == 1, cmp, Low(sig, n) != 0) then k + 1 else k
  }

  lemma LowBitsBetween(sig: nat, n: nat, u: int)
    requires 0 < n
    ensures var k, low := Shr(sig, n), Low(sig, n);
            Between(Scaled(sig, u - n), Scaled(k, u), Scaled(k + 1, u), Compare(low, Pow2(n - 1)), low != 0)
  {
    hide Pow2;
    hide Shr;
    hide Shl;
    var k, e := Shr(sig, n), u - n;
    var base, half := Shl(k, n), Pow2(n - 1);
    assert Pow2(n) == 2 * half by { HalfOfPow2(n); }
    Sums.TruncationBrackets(sig, n, u);
    ScaledShl(k, n, e);
    ScaledShl(k + 1, n, e);
    ShlNext(k, n);
    Midpoint(base, half, e);
    ScaledOrder(sig, base + half, e);
    ScaledOrder(base + half, sig, e);
  }

  lemma HalfOfPow2(n: nat)
    requires 0 < n
    ensures Pow2(n) == 2 * Pow2(n - 1)
  {
  }

  /** Rounding off to a canonical double is rounding to the nearest one. */
  lemma RoundOffIsNearest(sig: nat, n: nat, u: int)
    requires 0 < n && Canonical(Shr(sig, n), u)
    ensures NearestDouble(Scaled(sig, u - n), Scaled(RoundOff(sig, n), u))
  {
    hide Pow2;
    hide Shr;
    hide Low;
    var k, low := Shr(sig, n), Low(sig, n);
    DoublesNegate();
    UnitsAreDoubles(k, u);
    UnitsAreConsecutiveDoubles(k, u);
    LowBitsBetween(sig, n, u);
    ChooseNeighbour(Nearest, Doubles(), EvenDoubles(), Scaled(sig, u - n), Scaled(k, u), Scaled(k + 1, u),
                    k % 2 == 1, Compare(low, Pow2(n - 1)), low != 0);
  }

  // ---- What the correct double is ----

  /** The exponent of the unit in the last place of the double around a number with exponent `exp`. */
  function UnitOf(exp: int): int { if exp < -1022 then MIN_EXP else exp - 52 }

  /** How many bits below that unit a 64-bit significand has. */
  function DropOf(exp: int): (n: nat)
    ensures 11 <= n && UnitOf(exp) - n == exp - 63
  {
    UnitOf(exp) - (exp - 63)
  }

  lemma DropIsCanonical(sig: nat, exp: int)
    requires P63 <= sig < P64
    ensures Canonical(Shr(sig, DropOf(exp)), UnitOf(exp))
    ensures -1022 <= exp ==> P52 <= Shr(sig, 11) < P53
    ensures exp < -1022 ==> Shr(sig, DropOf(exp)) < P52
  {
    hide Pow2;
    hide Shr;
    var n := DropOf(exp);
    assert Pow2(64) == P64 && Pow2(63) == P63 && Pow2(52) == P52 && Pow2(53) == P53 by { Pow2Values(); }
    if exp < -1022 {
      Pow2Mono(64, 52 + n);
      Sums.ShrBelow(sig, 52, n);
    } else {
      ShrRange(sig, 52, 53, 11);
    }
  }

  /** The magnitude of the nearest double. */
  ghost function NearestMagnitude(a: F80): real {
    Scaled(RoundOff(a.sig, DropOf(a.exp)), UnitOf(a.exp))
  }

  lemma NearestOf(a: F80)
    requires IsNormal(a)
    ensures NearestDouble(Val(a), Signed(a.sign, NearestMagnitude(a)))
  {
    hide Selected;
    hide RoundOff;
    hide Shr;
    DropIsCanonical(a.sig, a.exp);
    RoundOffIsNearest(a.sig, DropOf(a.exp), UnitOf(a.exp));
    DoublesNegate();
    if a.sign {
      SelectionMirrors(Nearest, Doubles(), EvenDoubles(), Scaled(a.sig, a.exp - 63), NearestMagnitude(a));
    }
  }

  /** The pattern stands for `y`: an infinity from 2^1024 on, otherwise the double it decodes to. */
  ghost predicate Encodes(bits: nat, sign: bool, y: real) {
    if TwoTo(1024) <= Abs(y) then bits == (if sign then P63 else 0) + F64_MAX_EXP * P52
    else bits < P64 && FromF64(bits).sign == sign && Val(FromF64(bits)) == y
  }

  /** The conversion delivers the nearest double. */
  ghost predicate NarrowsCorrectly(a: F80) {
    exists y: real :: NearestDouble(Val(a), y) && Encodes(ToF64(a), a.sign, y)
  }

  lemma DecodeSubnormal(sign: bool, r: nat)
    requires r <= P52
    ensures var bits := (if sign then P63 else 0) + r;
            bits < P64 && FromF64(bits).sign == sign && Val(FromF64(bits)) == Signed(sign, Scaled(r, MIN_EXP))
  {
    hide Pow2;
    hide Shl;
    var bits := (if sign then P63 else 0) + r;
    if r == 0 {
      ScaledValue(0, MIN_EXP);
    } else if r == P52 {
      ShlEleven(0);
      ScaledShl(P52, 11, MIN_EXP - 11);
    } else {
      SubnormalBits(sign, r);
      var shift := LeadingZeros(r);
      ScaledShl(r, shift, MIN_EXP - shift);
    }
  }

  lemma SubnormalBits(sign: bool, r: nat)
    requires 0 < r < P52
    ensures FromF64((if sign then P63 else 0) + r)
         == F80(sign, Normal, -1011 - LeadingZeros(r), Shl(r, LeadingZeros(r)))
  {
    hide LeadingZeros;
    hide Shl;
    var bits := (if sign then P63 else 0) + r;
    assert bits % P63 == r && bits % P52 == r && r / P52 == 0;
  }

  lemma DecodeNormal(sign: bool, m: nat, e: int)
    requires P52 <= m < P53 && -1022 <= e <= 1023
    ensures var bits := (if sign then P63 else 0) + (e + 1023) * P52 + (m - P52);
            bits < P64 && FromF64(bits).sign == sign && Val(FromF64(bits)) == Signed(sign, Scaled(m, e - 52))
  {
    hide Pow2;
    hide Shl;
    NormalBits(sign, m, e);
    ShlEleven(m - P52);
    ScaledShl(m, 11, e - 63);
  }

  lemma NormalBits(sign: bool, m: nat, e: int)
    requires P52 <= m < P53 && -1022 <= e <= 1023
    ensures var bits := (if sign then P63 else 0) + (e + 1023) * P52 + (m - P52);
            bits < P64 && FromF64(bits) == F80(sign, Normal, e, P63 + 2048 * (m - P52))
  {
  }

  lemma RoundShiftIsRoundOff(sig: nat, n: nat)
    requires 0 < n
    ensures RoundShift(sig, n) == if n < 64 then RoundOff(sig, n) else 0
  {
    hide Pow2;
    hide Shr;
    hide Low;
  }

  // ---- Where the conversion goes wrong ----

  /** Rounding the significand to 53 bits carries out of them. */
  predicate Carries(sig: nat) { P64 - 1024 <= sig }

  /**
   Below the normal range the conversion shifts by an exponent that a carry has already moved, and it
   takes any shift of 64 for zero.
   */
  predicate Misrounds(a: F80) {
    (Carries(a.sig) && -1075 <= a.exp <= -1024) || (a.exp == -1075 && P63 < a.sig)
  }

  lemma LowEleven(sig: nat)
    ensures Shr(sig, 11) == sig / 2048 && Low(sig, 11) == sig % 2048 && Pow2(10) == 1024
  {
    hide Pow2;
    hide Shr;
    assert Pow2(11) == 2048 by { Pow2Eleven(); }
    assert Pow2(10) == 1024 by { HalfOfPow2(11); }
    ShrValue(sig, 11);
  }

  lemma CarryIff(sig: nat)
    requires P63 <= sig < P64
    ensures P52 <= RoundShift(sig, 11) <= P53
    ensures RoundShift(sig, 11) == P53 <==> Carries(sig)
  {
    hide Pow2;
    hide Shr;
    hide Low;
    LowEleven(sig);
    RoundShiftIsRoundOff(sig, 11);
  }

  lemma NarrowNormal(a: F80)
    requires IsNormal(a) && -1022 <= a.exp
    ensures NarrowsCorrectly(a)
  {
    hide NearestDouble;
    hide FromF64;
    hide RoundShift;
    hide RoundOff;
    hide Shl;
    CarryIff(a.sig);
    RoundShiftIsRoundOff(a.sig, 11);
    var r := RoundShift(a.sig, 11);
    var m, e := if r == P53 then P52 else r, if r == P53 then a.exp + 1 else a.exp;
    HalveSignificand(P52, a.exp - 52);
    assert NearestMagnitude(a) == Scaled(m, e - 52);
    NearestOf(a);
    NormalRange(m, e);
    if e <= 1023 {
      DecodeNormal(a.sign, m, e);
    }
    assert Encodes(ToF64(a), a.sign, Signed(a.sign, Scaled(m, e - 52)));
  }

  lemma NormalRange(m: nat, e: int)
    requires P52 <= m < P53
    ensures 0.0 < Scaled(m, e - 52) && (TwoTo(1024) <= Scaled(m, e - 52) <==> 1024 <= e)
  {
    hide Shl;
    ShlEleven(m - P52);
    ScaledShl(m, 11, e - 63);
    RangeByExponent(Shl(m, 11), e, 1024);
    Sums.Positive(m, e - 52);
  }

  // ---- Below the normal range ----

  lemma ShiftsPastTheTop(sig: nat, n: nat)
    requires P63 <= sig < P64 && 64 <= n
    ensures RoundOff(sig, n) == if n == 64 && P63 < sig then 1 else 0
  {
    hide Pow2;
    hide Shr;
    assert Pow2(64) == P64 && Pow2(63) == P63 by { Pow2Values(); }
    Pow2Mono(64, n);
    ShrIsZero(sig, n);
    LowOfSmall(sig, n);
    if 64 < n {
      Pow2Mono(64, n - 1);
    }
  }

  lemma LowOfSmall(sig: nat, n: nat)
    requires sig < Pow2(n)
    ensures Low(sig, n) == sig
  {
    ShrIsZero(sig, n);
    ShlValue(0, n);
  }

  lemma RoundOffCarries(sig: nat, n: nat)
    requires Carries(sig) && sig < P64 && 12 <= n <= 64
    ensures RoundOff(sig, n) == Pow2(64 - n)
  {
    hide Pow2;
    hide Shr;
    hide Shl;
    var t, q: nat := Pow2(64 - n), Pow2(64 - n) - 1;
    assert Pow2(64) == P64 && Pow2(11) == 2048 by { Pow2Values(); Pow2Eleven(); }
    Pow2Mono(11, n - 1);
    assert Pow2(n) == 2 * Pow2(n - 1) by { HalfOfPow2(n); }
    ShlOfPow2(64 - n, n);
    ShlNext(q, n);
    assert Shl(q, n) == P64 - Pow2(n);
    ShiftedIs(sig, n, q);
  }

  lemma ShiftedIs(sig: nat, n: nat, q: nat)
    requires Shl(q, n) <= sig < Shl(q, n) + Pow2(n)
    ensures Shr(sig, n) == q && Low(sig, n) == sig - Shl(q, n)
  {
    ShrBounds(sig, n);
    var k := Shr(sig, n);
    if k < q {
      ShlMono(k, q, n);
    } else if q < k {
      ShlMono(q, k, n);
    }
  }

  lemma TinyIsSmall(r: nat)
    requires r <= P52
    ensures Scaled(r, MIN_EXP) < TwoTo(1024) && 0.0 <= Scaled(r, MIN_EXP)
  {
    NormalRange(P52, -1022);
    ScaledOrder(r, P52, MIN_EXP);
    ScaledOrder(0, r, MIN_EXP);
    ScaledValue(0, MIN_EXP);
  }

  lemma RoundedTiny(a: F80)
    requires IsNormal(a) && a.exp < -1022
    ensures RoundOff(a.sig, DropOf(a.exp)) <= P52
  {
    hide Shr;
    DropIsCanonical(a.sig, a.exp);
  }

  /** The units of 2^-1074 the conversion encodes for a number below the normal range. */
  lemma TinyPattern(a: F80) returns (w: nat)
    requires IsNormal(a) && a.exp < -1022
    ensures w <= P52 && ToF64(a) == (if a.sign then P63 else 0) + w
    ensures var n := DropOf(a.exp);
            w == if Carries(a.sig) then if n == 12 then P52 else if n <= 64 then Pow2(65 - n) else 0
                 else if n < 64 then RoundOff(a.sig, n) else 0
  {
    hide RoundShift;
    hide RoundOff;
    hide Pow2;
    var n := DropOf(a.exp);
    CarryIff(a.sig);
    RoundShiftIsRoundOff(a.sig, n);
    RoundShiftIsRoundOff(a.sig, n - 1);
    RoundedTiny(a);
    if Carries(a.sig) {
      if 13 <= n <= 64 {
        RoundOffCarries(a.sig, n - 1);
        Pow2Mono(65 - n, 52);
        assert Pow2(52) == P52 by { Pow2Values(); }
        w := Pow2(65 - n);
      } else {
        w := if n == 12 then P52 else 0;
      }
    } else {
      w := if n < 64 then RoundOff(a.sig, n) else 0;
    }
  }

  lemma TinyAgreesIff(a: F80, w: nat)
    requires IsNormal(a) && a.exp < -1022
    requires var n := DropOf(a.exp);
             w == if Carries(a.sig) then if n == 12 then P52 else if n <= 64 then Pow2(65 - n) else 0
                  else if n < 64 then RoundOff(a.sig, n) else 0
    ensures w == RoundOff(a.sig, DropOf(a.exp)) <==> !Misrounds(a)
  {
    hide RoundOff;
    hide Pow2;
    var n := DropOf(a.exp);
    if 64 <= n {
      ShiftsPastTheTop(a.sig, n);
    }
    if Carries(a.sig) && n <= 64 {
      RoundOffCarries(a.sig, n);
      assert Pow2(52) == P52 by { Pow2Values(); }
      assert Pow2(65 - n) == 2 * Pow2(64 - n) by { HalfOfPow2(65 - n); }
    }
  }

  lemma TinyEncodes(a: F80, w: nat)
    requires w <= P52 && ToF64(a) == (if a.sign then P63 else 0) + w
    ensures forall y: real :: Encodes(ToF64(a), a.sign, y) <==> y == Signed(a.sign, Scaled(w, MIN_EXP))
  {
    hide FromF64;
    hide ToF64;
    DecodeSubnormal(a.sign, w);
    TinyIsSmall(w);
  }

  /** A double that is strictly farther than another is not the nearest. */
  lemma FartherIsNotNearest(x: real, y: real, z: real)
    requires z in Doubles() && Abs(x - z) < Abs(x - y)
    ensures !NearestDouble(x, y)
  {
  }

  /** Where the encoded units differ from the nearest ones, they are strictly farther away. */
  lemma MisroundedIsFarther(a: F80, w: nat)
    requires IsNormal(a) && Misrounds(a)
    requires var n := DropOf(a.exp); w == if Carries(a.sig) && n <= 64 then Pow2(65 - n) else 0
    ensures var t, r := Scaled(a.sig, a.exp - 63), RoundOff(a.sig, DropOf(a.exp));
            Abs(t - Scaled(r, MIN_EXP)) < Abs(t - Scaled(w, MIN_EXP))
  {
    hide RoundOff;
    hide Pow2;
    var n := DropOf(a.exp);
    Sums.Positive(a.sig, a.exp - 63);
    if Carries(a.sig) {
      TwiceTooFar(a.sig, n);
    } else {
      ShiftsPastTheTop(a.sig, n);
      HalfwayToOne(a.sig);
    }
  }

  lemma TwiceTooFar(sig: nat, n: nat)
    requires P63 <= sig && Carries(sig) && sig < P64 && 12 <= n <= 64
    ensures var t, r := Scaled(sig, MIN_EXP - n), RoundOff(sig, n);
            t < Scaled(r, MIN_EXP) && 0.0 < t && Scaled(Pow2(65 - n), MIN_EXP) == 2.0 * Scaled(r, MIN_EXP)
  {
    hide RoundOff;
    hide Pow2;
    hide Shl;
    RoundOffCarries(sig, n);
    var r := Pow2(64 - n);
    assert Pow2(65 - n) == 2 * r by { HalfOfPow2(65 - n); }
    ScaledValue(r, MIN_EXP);
    ScaledValue(2 * r, MIN_EXP);
    assert Pow2(64) == P64 by { Pow2Values(); }
    ShlOfPow2(64 - n, n);
    ScaledShl(r, n, MIN_EXP - n);
    ScaledOrder(sig, P64, MIN_EXP - n);
    Sums.Positive(sig, MIN_EXP - n);
  }

  lemma HalfwayToOne(sig: nat)
    requires P63 < sig < P64
    ensures var t := Scaled(sig, MIN_EXP - 64);
            && Scaled(0, MIN_EXP) == 0.0 && 0.0 < t < Scaled(1, MIN_EXP)
            && Scaled(1, MIN_EXP) - t < t
  {
    hide Pow2;
    hide Shr;
    LowBitsBetween(sig, 64, MIN_EXP);
    assert Pow2(64) == P64 && Pow2(63) == P63 by { Pow2Values(); }
    ShrIsZero(sig, 64);
    LowOfSmall(sig, 64);
    ScaledValue(0, MIN_EXP);
    Sums.Positive(sig, MIN_EXP - 64);
  }

  lemma NarrowTiny(a: F80)
    requires IsNormal(a) && a.exp < -1022
    ensures NarrowsCorrectly(a) <==> !Misrounds(a)
  {
    hide NearestDouble;
    hide ToF64;
    hide RoundOff;
    hide Encodes;
    hide Pow2;
    var w := TinyPattern(a);
    var r := RoundOff(a.sig, DropOf(a.exp));
    TinyAgreesIff(a, w);
    TinyEncodes(a, w);
    NearestOf(a);
    if Misrounds(a) {
      MisroundedIsFarther(a, w);
      NearestInDoubles(a);
      FartherIsNotNearest(Val(a), Signed(a.sign, Scaled(w, MIN_EXP)), Signed(a.sign, Scaled(r, MIN_EXP)));
    }
  }

  lemma NearestInDoubles(a: F80)
    requires IsNormal(a)
    ensures Signed(a.sign, NearestMagnitude(a)) in Doubles()
  {
    NearestOf(a);
  }

  /** Theorem: narrowing delivers the nearest double, ties to even, exactly outside the family `Misrounds`. */
  lemma NarrowsCorrectlyIff(a: F80)
    requires IsNormal(a)
    ensures NarrowsCorrectly(a) <==> !Misrounds(a)
  {
    hide NarrowsCorrectly;
    if a.exp < -1022 {
      NarrowTiny(a);
    } else {
      NarrowNormal(a);
    }
  }

  /** A carry below the normal range doubles the result; three quarters of the least double is lost. */
  lemma NarrowingGoesWrong()
    ensures !NarrowsCorrectly(F80(false, Normal, -1030, P64 - 1))
    ensures !NarrowsCorrectly(F80(false, Normal, -1075, P63 + P62))
  {
    NarrowsCorrectlyIff(F80(false, Normal, -1030, P64 - 1));
    NarrowsCorrectlyIff(F80(false, Normal, -1075, P63 + P62));
  }
}
