/**
 Correct rounding in the sense of IEEE 754 section 4.3, stated over the reals and independent of
 any algorithm: the result is the value with a `p`-bit significand that the rounding direction
 selects for the exact value, with no bound on the exponent.
 */
module Rounding {
  import opened Powers

  /** Rounding control, bits 11:10 of the x87 control word. */
  datatype Mode = Nearest | Down | Up | TowardZero

  datatype Ordering = Less | Equal | Greater

  ghost predicate IsScaled(k: int, e: int, r: real) {
    r == k as real * TwoTo(e)
  }

  lemma ScaledExists(k: int, e: int)
    ensures exists r: real :: IsScaled(k, e, r)
  {
    assert IsScaled(k, e, k as real * TwoTo(e));
  }

  /** `k` units of 2^e. Like `TwoTo`, it is an unknown to proofs until `ScaledValue` opens it. */
  ghost function Scaled(k: int, e: int): real {
    ScaledExists(k, e);
    var r: real :| IsScaled(k, e, r);
    r
  }

  lemma ScaledValue(k: int, e: int)
    ensures Scaled(k, e) == k as real * TwoTo(e)
  {
    ScaledExists(k, e);
    assert IsScaled(k, e, Scaled(k, e));
  }

  /** `x` has a significand of at most `p` bits. */
  ghost predicate Representable(p: nat, x: real) {
    exists k: int, e: int :: k < Pow2(p) && -k < Pow2(p) && x == Scaled(k, e)
  }

  /** `x` has a full `p`-bit significand whose last bit is zero. */
  ghost predicate EvenSignificand(p: nat, x: real)
    requires 0 < p
  {
    exists k: nat, e: int ::
      Pow2(p - 1) <= k < Pow2(p) && k % 2 == 0 && (x == Scaled(k, e) || -x == Scaled(k, e))
  }

  ghost function Floats(p: nat): iset<real> {
    iset x: real | Representable(p, x)
  }

  ghost function EvenFloats(p: nat): iset<real>
    requires 0 < p
  {
    iset x: real | EvenSignificand(p, x)
  }

  function Abs(x: real): real {
    if x < 0.0 then -x else x
  }

  /** `y` is the member of `F` that the rounding direction selects for `x`; ties go to a member of `E`. */
  ghost predicate Selected(mode: Mode, F: iset<real>, E: iset<real>, x: real, y: real) {
    y in F &&
    match mode
    case Down => y <= x && forall z: real | z in F && z <= x :: z <= y
    case Up => x <= y && forall z: real | z in F && x <= z :: y <= z
    case TowardZero =>
      && Abs(y) <= Abs(x) && (0.0 <= x ==> 0.0 <= y) && (x <= 0.0 ==> y <= 0.0)
      && forall z: real | z in F && Abs(z) <= Abs(x) :: Abs(z) <= Abs(y)
    case Nearest =>
      forall z: real | z in F && z != y ::
        Abs(x - y) < Abs(x - z) || (Abs(x - y) == Abs(x - z) && y in E)
  }

  ghost predicate CorrectlyRounded(mode: Mode, p: nat, x: real, y: real)
    requires 0 < p
  {
    Selected(mode, Floats(p), EvenFloats(p), x, y)
  }

  /** Whether the kept significand is incremented, from what rounding discarded. */
  function RoundsUp(mode: Mode, sign: bool, odd: bool, cmpHalf: Ordering, inexact: bool): bool {
    match mode
    case Nearest => cmpHalf.Greater? || (cmpHalf.Equal? && odd)
    case Down => inexact && sign
    case Up => inexact && !sign
    case TowardZero => false
  }

  // ---- Arithmetic of scaled integers ----

  lemma MulCast(a: int, b: int)
    ensures (a * b) as real == a as real * b as real
  {
  }

  lemma ScaledOrder(j: int, k: int, u: int)
    ensures j <= k ==> Scaled(j, u) <= Scaled(k, u)
    ensures j < k ==> Scaled(j, u) < Scaled(k, u)
  {
    ScaledValue(j, u);
    ScaledValue(k, u);
    if j < k {
      MulLt(j as real, k as real, TwoTo(u));
    }
  }

  lemma ScaledNegates(k: int, u: int)
    ensures Scaled(-k, u) == -Scaled(k, u)
  {
    ScaledValue(k, u);
    ScaledValue(-k, u);
  }

  lemma ScaledGrows(k: nat, d: int, e: int)
    requires d <= e
    ensures Scaled(k, d) <= Scaled(k, e)
  {
    ScaledValue(k, d);
    ScaledValue(k, e);
    TwoToMono(d, e);
    MulLe(TwoTo(d), TwoTo(e), k as real);
  }

  lemma CoarserIsMultiple(j: int, e: int, u: int)
    requires u <= e
    ensures Scaled(j, e) == Scaled(j * Pow2(e - u), u)
  {
    ScaledValue(j, e);
    ScaledValue(j * Pow2(e - u), u);
    TwoToAddNat(u, e - u);
    Reassociate(j as real, TwoTo(u), Pow2(e - u) as real);
    MulCast(j, Pow2(e - u));
  }

  lemma HalveSignificand(k: int, e: int)
    ensures Scaled(2 * k, e) == Scaled(k, e + 1)
  {
    ScaledValue(2 * k, e);
    ScaledValue(k, e + 1);
    TwoToStep(e);
    MulCast(2, k);
    Reassociate(2.0, k as real, TwoTo(e));
  }

  lemma {:induction false} ScaledShl(k: nat, n: nat, u: int)
    ensures Scaled(Shl(k, n), u) == Scaled(k, u + n)
  {
    if n != 0 {
      ScaledShl(k, n - 1, u + 1);
      ShlUnfold(k, n - 1);
      HalveSignificand(Shl(k, n - 1), u);
    }
  }

  lemma ShlUnfold(k: nat, n: nat)
    ensures Shl(k, n + 1) == 2 * Shl(k, n)
  {
  }

  // ---- Neighbours ----

  /** No `p`-bit value lies strictly between `k` and `k + 1` units, when `k` has `p` bits. */
  lemma Gap(p: nat, k: nat, u: int, z: real)
    requires 0 < p && Pow2(p - 1) <= k && Representable(p, z)
    ensures z <= Scaled(k, u) || Scaled(k + 1, u) <= z
  {
    var j: int, e: int :| j < Pow2(p) && -j < Pow2(p) && z == Scaled(j, e);
    if u <= e {
      CoarserIsMultiple(j, e, u);
      ScaledOrder(j * Pow2(e - u), k, u);
      ScaledOrder(k + 1, j * Pow2(e - u), u);
    } else {
      ScaledOrder(j, Pow2(p), e);
      ScaledGrows(Pow2(p), e, u - 1);
      HalveSignificand(Pow2(p - 1), u - 1);
      ScaledOrder(Pow2(p - 1), k, u);
    }
  }

  lemma NeighbourForms(p: nat, k: nat, u: int)
    requires 1 < p && Pow2(p - 1) <= k < Pow2(p)
    ensures Representable(p, Scaled(k, u)) && Representable(p, Scaled(k + 1, u))
    ensures EvenSignificand(p, Scaled(if k % 2 == 0 then k else k + 1, u))
  {
    if k + 1 == Pow2(p) {
      HalveSignificand(Pow2(p - 1), u);
      assert Scaled(k + 1, u) == Scaled(Pow2(p - 1), u + 1);
    }
  }

  /** `lo` and `hi` are consecutive members, neither negative, of `F`. */
  ghost predicate Consecutive(F: iset<real>, lo: real, hi: real) {
    && 0.0 <= lo < hi && lo in F && hi in F
    && forall z: real | z in F :: z <= lo || hi <= z
  }

  lemma UnitsAreConsecutive(p: nat, k: nat, u: int)
    requires 1 < p && Pow2(p - 1) <= k < Pow2(p)
    ensures Consecutive(Floats(p), Scaled(k, u), Scaled(k + 1, u))
  {
    NeighbourForms(p, k, u);
    ScaledValue(0, u);
    ScaledOrder(0, k, u);
    ScaledOrder(k, k + 1, u);
    forall z: real | z in Floats(p)
      ensures z <= Scaled(k, u) || Scaled(k + 1, u) <= z
    {
      Gap(p, k, u, z);
    }
  }

  // ---- The rounding decision is correct ----

  /** What an algorithm must know of the exact magnitude `x`: its `p`-bit truncation and the rest. */
  ghost predicate Bracketed(p: nat, x: real, k: nat, u: int, cmpHalf: Ordering, inexact: bool)
    requires 0 < p
  {
    Pow2(p - 1) <= k < Pow2(p) && Between(x, Scaled(k, u), Scaled(k + 1, u), cmpHalf, inexact)
  }

  ghost predicate Between(x: real, lo: real, hi: real, cmpHalf: Ordering, inexact: bool) {
    && lo <= x < hi
    && (inexact <==> x != lo)
    && (cmpHalf.Less? <==> x - lo < hi - x)
    && (cmpHalf.Greater? <==> hi - x < x - lo)
  }

  lemma ChooseNeighbour(mode: Mode, F: iset<real>, E: iset<real>, x: real, lo: real, hi: real,
                        odd: bool, cmpHalf: Ordering, inexact: bool)
    requires Symmetric(F) && Consecutive(F, lo, hi) && (if odd then hi else lo) in E
    requires Between(x, lo, hi, cmpHalf, inexact)
    ensures Selected(mode, F, E, x, if RoundsUp(mode, false, odd, cmpHalf, inexact) then hi else lo)
    ensures inexact <==> x !in F
  {
    if mode.TowardZero? {
      forall z: real | z in F && Abs(z) <= Abs(x)
        ensures Abs(z) <= lo
      {
        assert HasNegation(F, z);
      }
    }
  }

  lemma RoundMagnitude(mode: Mode, p: nat, x: real, k: nat, u: int, cmpHalf: Ordering, inexact: bool)
    requires 1 < p && Bracketed(p, x, k, u, cmpHalf, inexact)
    ensures var up := RoundsUp(mode, false, k % 2 == 1, cmpHalf, inexact);
            CorrectlyRounded(mode, p, x, Scaled(if up then k + 1 else k, u))
    ensures inexact <==> !Representable(p, x)
  {
    NeighbourForms(p, k, u);
    UnitsAreConsecutive(p, k, u);
    FloatsNegate(p);
    ChooseNeighbour(mode, Floats(p), EvenFloats(p), x, Scaled(k, u), Scaled(k + 1, u),
                    k % 2 == 1, cmpHalf, inexact);
  }

  ghost predicate HasNegation(F: iset<real>, x: real) {
    -x in F
  }

  ghost predicate Symmetric(F: iset<real>) {
    forall x: real {:trigger HasNegation(F, x)} | x in F :: HasNegation(F, x)
  }

  lemma MembershipMirrors(F: iset<real>, x: real)
    requires Symmetric(F)
    ensures x in F <==> -x in F
  {
    assert x in F ==> HasNegation(F, x);
    assert -x in F ==> HasNegation(F, -x);
    assert - -x == x;
  }

  function Flip(mode: Mode): Mode {
    match mode
    case Down => Up
    case Up => Down
    case _ => mode
  }

  function Signed(sign: bool, x: real): real {
    if sign then -x else x
  }

  lemma FloatsNegate(p: nat)
    requires 0 < p
    ensures Symmetric(Floats(p)) && Symmetric(EvenFloats(p))
  {
    forall x: real | x in Floats(p)
      ensures -x in Floats(p)
    {
      var k: int, e: int :| k < Pow2(p) && -k < Pow2(p) && x == Scaled(k, e);
      ScaledNegates(k, e);
    }
    forall x: real | x in EvenFloats(p)
      ensures -x in EvenFloats(p)
    {
      assert - -x == x;
    }
  }

  lemma SelectionMirrors(mode: Mode, F: iset<real>, E: iset<real>, x: real, y: real)
    requires Symmetric(F) && Symmetric(E) && Selected(Flip(mode), F, E, x, y)
    ensures Selected(mode, F, E, -x, -y)
  {
    assert HasNegation(F, y);
    assert y in E ==> HasNegation(E, y);
    assert Abs(-x - (-y)) == Abs(x - y);
    match mode
    case Down =>
      forall z: real | z in F && z <= -x ensures z <= -y { assert HasNegation(F, z); }
    case Up =>
      forall z: real | z in F && -x <= z ensures -y <= z { assert HasNegation(F, z); }
    case TowardZero =>
      forall z: real | z in F && Abs(z) <= Abs(-x) ensures Abs(z) <= Abs(-y) { assert HasNegation(F, z); }
    case Nearest =>
      forall z: real | z in F && z != -y
        ensures Abs(-x - (-y)) < Abs(-x - z) || (Abs(-x - (-y)) == Abs(-x - z) && -y in E)
      {
        assert HasNegation(F, z);
        assert Abs(-x - z) == Abs(x - (-z));
      }
  }

  /** Theorem: incrementing the truncated significand exactly when `RoundsUp` says so is correct rounding. */
  lemma RoundSigned(mode: Mode, sign: bool, p: nat, x: real, k: nat, u: int, cmpHalf: Ordering, inexact: bool)
    requires 1 < p && Bracketed(p, x, k, u, cmpHalf, inexact)
    ensures var up := RoundsUp(mode, sign, k % 2 == 1, cmpHalf, inexact);
            CorrectlyRounded(mode, p, Signed(sign, x), Signed(sign, Scaled(if up then k + 1 else k, u)))
    ensures inexact <==> !Representable(p, Signed(sign, x))
  {
    if sign {
      RoundMagnitude(Flip(mode), p, x, k, u, cmpHalf, inexact);
      FloatsNegate(p);
      var up := RoundsUp(mode, sign, k % 2 == 1, cmpHalf, inexact);
      SelectionMirrors(mode, Floats(p), EvenFloats(p), x, Scaled(if up then k + 1 else k, u));
      MembershipMirrors(Floats(p), x);
    } else {
      RoundMagnitude(mode, p, x, k, u, cmpHalf, inexact);
    }
  }

  // ---- Correct rounding has one outcome ----

  /** A full significand and its exponent are determined by the value. */
  lemma CanonicalUnique(p: nat, j: nat, d: int, k: nat, e: int)
    requires 0 < p && Pow2(p - 1) <= j < Pow2(p) && Pow2(p - 1) <= k < Pow2(p) && Scaled(j, d) == Scaled(k, e)
    ensures j == k && d == e
  {
    if d < e {
      CoarserIsLarger(p, j, d, k, e);
    } else if e < d {
      CoarserIsLarger(p, k, e, j, d);
    } else if j < k {
      ScaledOrder(j, k, d);
    } else if k < j {
      ScaledOrder(k, j, d);
    }
  }

  lemma CoarserIsLarger(p: nat, j: nat, d: int, k: nat, e: int)
    requires 0 < p && d < e && j < Pow2(p) && Pow2(p - 1) <= k
    ensures Scaled(j, d) < Scaled(k, e)
  {
    hide Pow2;
    assert Pow2(p) == 2 * Pow2(p - 1) && Pow2(1) == 2 by { Pow2Add(1, p - 1); Pow2Add(0, 1); TwoIsPow2(); }
    CoarserIsMultiple(k, e, d);
    var t := Pow2(e - d);
    Pow2Mono(1, e - d);
    MulOrder(2, t, k);
    ScaledOrder(j, k * t, d);
  }

  lemma TwoIsPow2()
    ensures Pow2(1) == 2
  {
  }

  /** Between two distinct members with even significands lies another member. */
  lemma EvensAreApart(p: nat, y: real, y': real) returns (z: real)
    requires 1 < p && 0.0 <= y < y' && y in EvenFloats(p) && y' in EvenFloats(p)
    ensures z in Floats(p) && y < z < y'
  {
    hide Floats;
    hide EvenFloats;
    var k, e := PositiveForm(p, y);
    var k', e' := PositiveForm(p, y');
    assert Pow2(p) == 2 * Pow2(p - 1);
    UnitsAreConsecutive(p, k, e);
    z := Scaled(k + 1, e);
    EvenIsInFloats(p, y', k', e');
    if y' == z {
      CanonicalUnique(p, k + 1, e, k', e');
    }
  }

  lemma PositiveForm(p: nat, y: real) returns (k: nat, e: int)
    requires 0 < p && 0.0 <= y && y in EvenFloats(p)
    ensures Pow2(p - 1) <= k < Pow2(p) && k % 2 == 0 && y == Scaled(k, e)
  {
    k, e :| Pow2(p - 1) <= k < Pow2(p) && k % 2 == 0 && (y == Scaled(k, e) || -y == Scaled(k, e));
    ScaledOrder(0, k, e);
    ScaledValue(0, e);
  }

  lemma EvenIsInFloats(p: nat, y: real, k: nat, e: int)
    requires k < Pow2(p) && y == Scaled(k, e)
    ensures y in Floats(p)
  {
  }

  lemma ZeroIsFloat(p: nat)
    ensures 0.0 in Floats(p)
  {
    ScaledValue(0, 0);
  }

  lemma MemberBetween(p: nat, y: real, y': real) returns (z: real)
    requires 1 < p && y < y' && y in EvenFloats(p) && y' in EvenFloats(p)
    ensures z in Floats(p) && y < z < y'
  {
    hide Floats;
    hide EvenFloats;
    FloatsNegate(p);
    ZeroIsFloat(p);
    z := 0.0;
    if 0.0 <= y {
      z := EvensAreApart(p, y, y');
    } else if y' <= 0.0 {
      assert HasNegation(EvenFloats(p), y) && HasNegation(EvenFloats(p), y');
      var w := EvensAreApart(p, -y', -y);
      assert HasNegation(Floats(p), w);
      z := -w;
    }
  }

  /** Theorem: correct rounding determines its result. In a tie a member lies between two even ends, and nearer. */
  lemma CorrectRoundingUnique(mode: Mode, p: nat, x: real, y: real, y': real)
    requires 1 < p && CorrectlyRounded(mode, p, x, y) && CorrectlyRounded(mode, p, x, y')
    ensures y == y'
  {
    hide Floats;
    hide EvenFloats;
    if mode.Nearest? && y != y' {
      var z := MemberBetween(p, if y < y' then y else y', if y < y' then y' else y);
    }
  }
}
