/** Conversion between 80-bit numbers and 64-bit integers, in every rounding direction. */
module IntegerConversion {
  import opened Powers
  import opened Rounding
  import opened Float80
  import opened AddSub
  import RoundingPath

  const I64_MIN: int := -0x8000_0000_0000_0000

  predicate FitsI64(n: int) { I64_MIN <= n < P63 }

  // ---- The operations ----

  /** `m as i64`, negated with wrap-around when `sign` is set. */
  function ApplySign(mag: nat, sign: bool): int
    requires mag < P64
  {
    var n := if mag < P63 then mag else mag - P64;
    if !sign || n == I64_MIN then n else -n
  }

  function DecideRound(whole: nat, frac: nat, half: nat, sign: bool, rc: Mode): bool {
    match rc
    case Down => sign && frac != 0
    case Up => !sign && frac != 0
    case TowardZero => false
    case Nearest => frac > half || (frac == half && whole % 2 != 0)
  }

  function ToI64(a: F80, rc: Mode): int
    requires a.cls.Normal? ==> IsNormal(a)
  {
    match a.cls
    case Zero => 0
    case Normal =>
      var e := a.exp;
      if e >= 63 then I64_MIN
      else if e < -1 then
        var up := match rc case Down => a.sign case Up => !a.sign case _ => false;
        if up then ApplySign(1, a.sign) else 0
      else if e == -1 then
        ApplySign(if DecideRound(0, a.sig, P63, a.sign, rc) then 1 else 0, a.sign)
      else
        var shift := 63 - e;
        var whole := Shr(a.sig, shift);
        IntegerPartIsSmall(a.sig, shift);
        var up := DecideRound(whole, Low(a.sig, shift), Pow2(shift - 1), a.sign, rc);
        ApplySign(if up then whole + 1 else whole, a.sign)
    case _ => I64_MIN
  }

  function FromI64(v: int): F80
    requires FitsI64(v)
  {
    if v == 0 then ZeroOf(false)
    else
      var mag: nat := if v < 0 then -v else v;
      var shift := LeadingZeros(mag);
      F80(v < 0, Normal, 63 - shift, Shl(mag, shift))
  }

  lemma IntegerPartIsSmall(sig: nat, shift: nat)
    requires sig < P64 && 1 <= shift
    ensures Shr(sig, shift) < P63
  {
    hide Shr;
    hide Pow2;
    assert Pow2(64) == P64 && Pow2(63) == P63 by { Pow2Values(); }
    Pow2Mono(64, 63 + shift);
    ShrBelow(sig, 63, shift);
  }

  // ---- The mathematically rounded integer ----

  ghost predicate IsInteger(x: real, n: int) { x == n as real }

  ghost predicate Whole(x: real) { exists n: int :: IsInteger(x, n) }

  ghost predicate WholeEven(x: real) { exists n: int :: IsInteger(x, n) && n % 2 == 0 }

  ghost function Integers(): iset<real> { iset x: real | Whole(x) }

  ghost function EvenIntegers(): iset<real> { iset x: real | WholeEven(x) }

  lemma InIntegers(n: int)
    ensures n as real in Integers()
    ensures n as real in EvenIntegers() <==> n % 2 == 0
  {
    assert IsInteger(n as real, n);
  }

  /** `n` is the integer the rounding direction selects for `x`, ties going to the even one. */
  ghost predicate RoundsToInteger(rc: Mode, x: real, n: int) {
    Selected(rc, Integers(), EvenIntegers(), x, n as real)
  }

  lemma IntegersNegate()
    ensures Symmetric(Integers()) && Symmetric(EvenIntegers())
  {
    forall x: real | x in Integers()
      ensures -x in Integers()
    {
      var n: int :| IsInteger(x, n);
      assert IsInteger(-x, -n);
    }
    forall x: real | x in EvenIntegers()
      ensures -x in EvenIntegers()
    {
      var n: int :| IsInteger(x, n) && n % 2 == 0;
      assert IsInteger(-x, -n);
    }
  }

  lemma IntegerGap(n: int, k: int)
    ensures n as real <= k as real || (k + 1) as real <= n as real
  {
    if n <= k {
      CastOrder(n, k);
    } else {
      CastOrder(k + 1, n);
    }
  }

  lemma CastOrder(a: int, b: int)
    requires a <= b
    ensures a as real <= b as real
  {
  }

  lemma ConsecutiveIntegers(k: nat)
    ensures Consecutive(Integers(), k as real, (k + 1) as real)
  {
    InIntegers(k);
    InIntegers(k + 1);
    forall z: real | z in Integers()
      ensures z <= k as real || (k + 1) as real <= z
    {
      var n: int :| IsInteger(z, n);
      IntegerGap(n, k);
    }
  }

  /** Theorem: rounding to an integer has at most one outcome. */
  lemma RoundsToIntegerUnique(rc: Mode, x: real, m: int, n: int)
    requires RoundsToInteger(rc, x, m) && RoundsToInteger(rc, x, n)
    ensures m == n
  {
    var y, z := m as real, n as real;
    if rc.Nearest? && y != z {
      assert y in EvenIntegers() && z in EvenIntegers();
      InIntegers(m);
      InIntegers(n);
      InIntegers((m + n) / 2);
    }
  }

  // ---- The operations are correct ----

  /** Every normal below 2^63 goes through one rounding of its integer part. */
  lemma ToI64Rounds(a: F80, rc: Mode)
    requires IsNormal(a) && a.exp < 63
    ensures var shift := 63 - a.exp; var whole := Shr(a.sig, shift);
            && whole < P63
            && ToI64(a, rc) == ApplySign(if DecideRound(whole, Low(a.sig, shift), Pow2(shift - 1), a.sign, rc)
                                         then whole + 1 else whole, a.sign)
  {
    hide Shr;
    hide Pow2;
    var shift := 63 - a.exp;
    IntegerPartIsSmall(a.sig, shift);
    if a.exp < 0 {
      assert Pow2(64) == P64 && Pow2(63) == P63 by { Pow2Values(); }
      Pow2Mono(64, shift);
      ShrIsZero(a.sig, shift);
      ShlOfZero(shift);
      if a.exp < -1 {
        Pow2Mono(64, shift - 1);
      }
    }
  }

  lemma {:induction false} ShlOfZero(n: nat)
    ensures Shl(0, n) == 0
  {
    if n != 0 {
      ShlOfZero(n - 1);
    }
  }

  lemma IntegerPartBrackets(sig: nat, shift: nat)
    requires 1 <= shift
    ensures var k, frac, half := Shr(sig, shift), Low(sig, shift), Pow2(shift - 1);
            Between(Scaled(sig, -(shift as int)), k as real, (k + 1) as real, Compare(frac, half), frac != 0)
  {
    hide Pow2;
    hide Shr;
    hide Shl;
    var k, u := Shr(sig, shift), -(shift as int);
    TruncationBrackets(sig, shift, 0);
    ScaledValue(k, 0);
    ScaledValue(k + 1, 0);
    TwoToZero();
    HalfwayPoint(k, shift);
    var mid := Shl(k, shift) + Pow2(shift - 1);
    ScaledOrder(sig, mid, u);
    ScaledOrder(mid, sig, u);
  }

  lemma HalfwayPoint(k: nat, shift: nat)
    requires 1 <= shift
    ensures 2.0 * Scaled(Shl(k, shift) + Pow2(shift - 1), -(shift as int)) == k as real + (k + 1) as real
  {
    hide Shl;
    var h := shift - 1;
    ShlUnfold(k, h);
    ShlNext(2 * k, h);
    assert Shl(2 * k, h) == Shl(k, shift) by { ShlValue(2 * k, h); ShlValue(k, shift); }
    ScaledShl(2 * k + 1, h, -(shift as int));
    ScaledValue(2 * k + 1, -1);
    TwoToZero();
    TwoToStep(-1);
  }

  lemma RoundIntegerPart(rc: Mode, sign: bool, x: real, k: nat, cmp: Ordering, inexact: bool)
    requires Between(x, k as real, (k + 1) as real, cmp, inexact)
    ensures var n: int := if RoundsUp(rc, sign, k % 2 == 1, cmp, inexact) then k + 1 else k;
            RoundsToInteger(rc, Signed(sign, x), if sign then -n else n)
  {
    hide Selected;
    var mode := if sign then Flip(rc) else rc;
    var up := RoundsUp(rc, sign, k % 2 == 1, cmp, inexact);
    var n: int := if up then k + 1 else k;
    IntegersNegate();
    ConsecutiveIntegers(k);
    InIntegers(k);
    InIntegers(k + 1);
    ChooseNeighbour(mode, Integers(), EvenIntegers(), x, k as real, (k + 1) as real, k % 2 == 1, cmp, inexact);
    if sign {
      SelectionMirrors(rc, Integers(), EvenIntegers(), x, n as real);
      assert (-n) as real == -(n as real);
    }
  }

  lemma TooLargeToFit(rc: Mode, a: F80, n: int)
    requires IsNormal(a) && 63 <= a.exp && RoundsToInteger(rc, Val(a), n)
    ensures FitsI64(n) ==> n == I64_MIN
  {
    hide Pow2;
    RoundingPath.ExponentOfValue(a.sig, a.exp);
    TwoToMono(63, a.exp);
    TwoToNat(63);
    assert Pow2(63) == P63 by { Pow2Values(); }
    IsFarOut(rc, Val(a), n);
  }

  lemma IsFarOut(rc: Mode, x: real, n: int)
    requires RoundsToInteger(rc, x, n) && (x <= I64_MIN as real || P63 as real <= x)
    ensures n <= I64_MIN || P63 <= n
  {
    InIntegers(P63);
    InIntegers(I64_MIN);
  }

  lemma ZeroRounds(rc: Mode)
    ensures RoundsToInteger(rc, 0.0, 0)
  {
    InIntegers(0);
  }

  /**
   Theorem: the conversion of a finite number is the rounded integer when a signed 64-bit word holds it; every
   other conversion is the indefinite.
   */
  lemma ToI64Correct(a: F80, rc: Mode, n: int)
    requires a.cls.Normal? ==> IsNormal(a)
    requires a.cls.Normal? || a.cls.Zero? ==> RoundsToInteger(rc, Val(a), n)
    ensures ToI64(a, rc) == if (a.cls.Normal? || a.cls.Zero?) && FitsI64(n) then n else I64_MIN
  {
    hide RoundsToInteger;
    if a.cls.Normal? {
      NormalConverts(a, rc, n);
    } else if a.cls.Zero? {
      ZeroRounds(rc);
      RoundsToIntegerUnique(rc, 0.0, n, 0);
    }
  }

  lemma NormalConverts(a: F80, rc: Mode, n: int)
    requires IsNormal(a) && RoundsToInteger(rc, Val(a), n)
    ensures ToI64(a, rc) == if FitsI64(n) then n else I64_MIN
  {
    hide RoundsToInteger;
    hide ToI64;
    hide Shr;
    hide Pow2;
    if 63 <= a.exp {
      TooLargeToFit(rc, a, n);
      LargeIsIndefinite(a, rc);
    } else {
      ToI64Rounds(a, rc);
      var shift: nat := 63 - a.exp;
      var k, frac, half := Shr(a.sig, shift), Low(a.sig, shift), Pow2(shift - 1);
      IntegerPartBrackets(a.sig, shift);
      RoundIntegerPart(rc, a.sign, Scaled(a.sig, a.exp - 63), k, Compare(frac, half), frac != 0);
      var r: int := if DecideRound(k, frac, half, a.sign, rc) then k + 1 else k;
      RoundsToIntegerUnique(rc, Val(a), n, if a.sign then -r else r);
    }
  }

  lemma LargeIsIndefinite(a: F80, rc: Mode)
    requires IsNormal(a) && 63 <= a.exp
    ensures ToI64(a, rc) == I64_MIN
  {
  }

  /** Every normal has a rounded integer, so the theorem above speaks of every normal. */
  lemma RoundedIntegerExists(a: F80, rc: Mode) returns (n: int)
    requires IsNormal(a)
    ensures RoundsToInteger(rc, Val(a), n)
  {
    hide RoundsToInteger;
    hide Shr;
    hide Pow2;
    if a.exp < 63 {
      var shift: nat := 63 - a.exp;
      var k, frac, half := Shr(a.sig, shift), Low(a.sig, shift), Pow2(shift - 1);
      IntegerPartBrackets(a.sig, shift);
      RoundIntegerPart(rc, a.sign, Scaled(a.sig, a.exp - 63), k, Compare(frac, half), frac != 0);
      var r: int := if RoundsUp(rc, a.sign, k % 2 == 1, Compare(frac, half), frac != 0) then k + 1 else k;
      n := if a.sign then -r else r;
    } else {
      var m: nat := Shl(a.sig, a.exp - 63);
      ScaledShl(a.sig, a.exp - 63, 0);
      ScaledValue(m, 0);
      TwoToZero();
      n := if a.sign then -(m as int) else m;
      IntegerRoundsToItself(rc, n);
    }
  }

  lemma IntegerRoundsToItself(rc: Mode, n: int)
    ensures RoundsToInteger(rc, n as real, n)
  {
    InIntegers(n);
  }

  /** Theorem: converting an integer and back gives it back, in every rounding direction. */
  lemma FromI64RoundTrip(v: int, rc: Mode)
    requires FitsI64(v)
    ensures Val(FromI64(v)) == v as real
    ensures ToI64(FromI64(v), rc) == v
  {
    hide RoundsToInteger;
    hide ToI64;
    if v == 0 {
      ZeroConverts(rc);
    } else {
      var mag: nat := if v < 0 then -v else v;
      var a := FromI64(v);
      ScaledShl(mag, LeadingZeros(mag), a.exp - 63);
      ScaledValue(mag, 0);
      TwoToZero();
      IntegerRoundsToItself(rc, v);
      ToI64Correct(a, rc, v);
    }
  }

  lemma ZeroConverts(rc: Mode)
    ensures ToI64(ZeroOf(false), rc) == 0
  {
  }
}
