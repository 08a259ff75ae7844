/** The integer Newton square root, and the correctly rounded square root built on its remainder. */
module Sqrt {
  import opened Options
  import opened Powers
  import opened Rounding
  import opened Float80
  import opened RoundingPath
  import opened AddSub
  import MulDiv

  // ---- Integer square root ----

  function Square(r: int): int { r * r }

  lemma SquareOf(r: int)
    ensures Square(r) == r * r && Square(r + 1) == Square(r) + 2 * r + 1
  {
  }

  lemma SquareMono(a: nat, b: nat)
    ensures a <= b <==> Square(a) <= Square(b)
  {
    if a <= b {
      MulOrder(a, b, a);
      MulOrder(a, b, b);
    } else {
      MulOrder(b, a, a);
      MulOrder(b, a, b);
    }
  }

  /** Twice the next Newton estimate. */
  function NewtonSum(x: nat, r: nat): nat
    requires 0 < r
  {
    r + x / r
  }

  /** One Newton step from `r` keeps the estimate from falling below the root. */
  lemma NewtonStep(x: nat, r: nat, nr: nat)
    requires 0 < r && nr == NewtonSum(x, r) / 2
    ensures x < Square(nr + 1)
  {
    var q := x / r;
    var b := q + 1;
    assert x < r * b by {
      MulDistributes(q, 1, r);
    }
    MeansOrder(r, b, 2 * (nr + 1));
    assert Square(2 * (nr + 1)) == 4 * Square(nr + 1);
  }

  /** The square of half the sum is at least the product. */
  lemma MeansOrder(a: nat, b: nat, d: nat)
    requires a + b <= d
    ensures 4 * (a * b) <= Square(d)
  {
    SquareMono(a + b, d);
    DifferenceOfSquares(a, b);
  }

  lemma DifferenceOfSquares(a: nat, b: nat)
    ensures 4 * (a * b) <= Square(a + b)
  {
    assert 0 <= Square(a - b);
    assert Square(a + b) == Square(a - b) + 4 * (a * b);
  }

  /** No Newton sum overflows: an estimate at or above the root has a quotient at most 3 above it. */
  lemma QuotientIsClose(x: nat, r: nat)
    requires 0 < r && x < Square(r + 1)
    ensures NewtonSum(x, r) <= 2 * r + 3
  {
    var q := x / r;
    SquareOf(r);
    MulDistributes(q, 1, r);
    if r + 3 < q {
      MulOrder(r + 4, q, r);
      MulDistributes(r, 4, r);
    }
  }

  /** The loop exits only at or below the root. */
  lemma NewtonExit(x: nat, r: nat)
    requires 0 < r && r <= NewtonSum(x, r) / 2
    ensures Square(r) <= x
  {
    MulOrder(r, x / r, r);
  }

  lemma FirstEstimate(x: nat, bits: nat, r: nat)
    requires x < Pow2(bits) && r == Pow2(bits / 2 + 1) && bits <= 128
    ensures x < Square(r + 1) && 0 < r <= 2 * P64
  {
    hide Pow2;
    var h := bits / 2 + 1;
    Pow2Add(h, h);
    Pow2Mono(bits, h + h);
    SquareMono(r, r + 1);
    Pow2Mono(h, 65);
    assert Pow2(65) == 2 * P64 by { Pow2Add(1, 64); Pow2Values(); assert Pow2(1) == 2 by { Pow2Add(0, 1); } }
  }

  /** Every 128-bit operation of the loop stays in range; the correction loop never has work to do. */
  method Isqrt128(x: nat) returns (root: nat, rem: nat)
    requires x < P128
    ensures Square(root) <= x < Square(root + 1)
    ensures rem == x - Square(root)
  {
    hide Pow2;
    hide Square;
    hide NewtonSum;
    if x == 0 {
      SquareOf(0);
      return 0, 0;
    }
    var bits := TopBit(x) + 1;
    TopBitBelow(x);
    var r: nat := Pow2(bits / 2 + 1);
    FirstEstimate(x, bits, r);
    while true
      invariant 0 < r <= 2 * P64 && x < Square(r + 1)
      decreases r
    {
      QuotientIsClose(x, r);
      assert NewtonSum(x, r) < P128;
      var nr := NewtonSum(x, r) / 2;
      if nr >= r {
        NewtonExit(x, r);
        break;
      }
      NewtonStep(x, r, nr);
      NewtonStaysPositive(x, nr);
      r := nr;
    }
    assert Square(r) <= x;
    SquareOf(r);
    var s: int := r;
    while Square(s) > x
      invariant 0 <= s && x < Square(s + 1)
      decreases s
    {
      SquareOf(0);
      s := s - 1;
    }
    root, rem := s, x - Square(s);
  }

  lemma TopBitBelow(x: nat)
    requires 0 < x < P128
    ensures TopBit(x) < 128
  {
    hide Pow2;
    assert Pow2(128) == P128 by { Pow2Values(); }
    if 128 <= TopBit(x) {
      Pow2Mono(128, TopBit(x));
    }
  }

  lemma NewtonStaysPositive(x: nat, nr: nat)
    requires 0 < x < Square(nr + 1)
    ensures 0 < nr
  {
  }

  // ---- Where the real square root lies ----

  lemma RealSquareOrder(x: real, y: real)
    requires 0.0 <= x && 0.0 <= y
    ensures x < y <==> x * x < y * y
  {
    assert y * y - x * x == (y - x) * (y + x);
    if x < y {
      MulLt(0.0, y - x, y + x);
    } else {
      MulLe(y - x, 0.0, y + x);
    }
  }

  /** `x` is the square root of `w` units of 2^(2h). */
  ghost predicate RootOf(x: real, w: nat, h: int) {
    0.0 <= x && x * x == Scaled(w, 2 * h)
  }

  lemma SquareOfScaled(c: nat, h: int)
    ensures Scaled(c, h) * Scaled(c, h) == Scaled(Square(c), 2 * h)
  {
    MulDiv.ScaledProduct(c, c, h, h);
  }

  /** Comparing a root with `c` units of 2^h is comparing the integer under it with the square of `c`. */
  lemma RootOrder(x: real, w: nat, h: int, c: nat)
    requires RootOf(x, w, h)
    ensures x < Scaled(c, h) <==> w < Square(c)
    ensures x == Scaled(c, h) <==> w == Square(c)
  {
    var y := Scaled(c, h);
    SquareOfScaled(c, h);
    ScaledOrder(0, c, h);
    ScaledOrder(c, 0, h);
    ScaledValue(0, h);
    RealSquareOrder(x, y);
    RealSquareOrder(y, x);
    ScaledOrder(w, Square(c), 2 * h);
    ScaledOrder(Square(c), w, 2 * h);
  }

  lemma DoubleRoot(x: real, w: nat, h: int)
    requires RootOf(x, w, h)
    ensures RootOf(2.0 * x, 4 * w, h)
  {
    ScaledValue(w, 2 * h);
    ScaledValue(4 * w, 2 * h);
    assert (2.0 * x) * (2.0 * x) == 4.0 * (x * x);
  }

  /** What the remainder says of the root: nothing lost, or above the midpoint exactly when it exceeds the root. */
  function RootFraction(root: nat, rem: nat): Option<Ordering> {
    if rem == 0 then None else Some(if rem > root then Greater else Less)
  }

  lemma RootPosition(x: real, w: nat, h: int, root: nat, rem: nat)
    requires RootOf(x, w, h) && Square(root) <= w < Square(root + 1) && rem == w - Square(root)
    ensures Position(x, root, h, RootFraction(root, rem))
  {
    hide Square;
    RootOrder(x, w, h, root);
    RootOrder(x, w, h, root + 1);
    DoubleRoot(x, w, h);
    RootOrder(2.0 * x, 4 * w, h, 2 * root + 1);
    HalfwaySquare(root);
    ScaledSum(root, root + 1, h);
  }

  lemma HalfwaySquare(root: nat)
    ensures Square(2 * root + 1) == 4 * Square(root) + 4 * root + 1
  {
  }

  // ---- The correctly rounded root, by squares ----

  function Sq(x: real): real { x * x }

  /**
   `y` is the member of `F` that the rounding direction selects for the square root of `v`. No root is named: a
   candidate is placed against it by comparing squares, and two candidates by the square of their midpoint.
   */
  ghost predicate RootSelected(mode: Mode, F: iset<real>, E: iset<real>, v: real, y: real) {
    && y in F && 0.0 <= y
    && match mode
       case Up => v <= Sq(y) && forall z: real | z in F && 0.0 <= z && v <= Sq(z) :: y <= z
       case Nearest => forall z: real | z in F && z != y :: NearerRoot(v, y, z) || (y in E && EquallyNear(v, y, z))
       case _ => Sq(y) <= v && forall z: real | z in F && 0.0 <= z && Sq(z) <= v :: z <= y
  }

  /** The root of `v` lies on the side of the midpoint of `y` and `z` where `y` is. */
  ghost predicate NearerRoot(v: real, y: real, z: real) {
    if z < y then y + z < 0.0 || Sq(y + z) < 4.0 * v else 0.0 <= y + z && 4.0 * v < Sq(y + z)
  }

  ghost predicate EquallyNear(v: real, y: real, z: real) {
    0.0 <= y + z && 4.0 * v == Sq(y + z)
  }

  /** Where the root of `v` lies between two members of `F`. */
  ghost predicate RootBetween(v: real, lo: real, hi: real, cmpHalf: Ordering, inexact: bool) {
    && Sq(lo) <= v < Sq(hi)
    && (inexact <==> v != Sq(lo))
    && (cmpHalf.Less? <==> 4.0 * v < Sq(lo + hi))
    && (cmpHalf.Greater? <==> Sq(lo + hi) < 4.0 * v)
  }

  lemma SquaresOrder(x: real, y: real)
    requires 0.0 <= x <= y
    ensures x * x <= y * y
  {
    RealSquareOrder(y, x);
  }

  lemma SumBelow(sum: real, bound: real)
    requires sum <= bound && 0.0 <= bound
    ensures sum < 0.0 || sum * sum <= bound * bound
  {
    if 0.0 <= sum {
      SquaresOrder(sum, bound);
    }
  }

  lemma LowIsNearest(F: iset<real>, E: iset<real>, v: real, lo: real, hi: real)
    requires Consecutive(F, lo, hi) && 0.0 < lo && lo * lo <= v
    requires 4.0 * v < Sq(lo + hi) || (4.0 * v == Sq(lo + hi) && lo in E)
    ensures RootSelected(Nearest, F, E, v, lo)
  {
    forall z: real | z in F && z != lo
      ensures NearerRoot(v, lo, z) || (lo in E && EquallyNear(v, lo, z))
    {
      if z < lo {
        BelowTwice(v, lo, z);
      } else {
        SquaresOrder(lo + hi, lo + z);
        if lo + hi < lo + z {
          RealSquareOrder(lo + hi, lo + z);
        }
      }
    }
  }

  lemma BelowTwice(v: real, y: real, z: real)
    requires 0.0 < y && z < y && y * y <= v
    ensures y + z < 0.0 || (y + z) * (y + z) < 4.0 * v
  {
    if 0.0 <= y + z {
      RealSquareOrder(y + z, 2.0 * y);
      assert (2.0 * y) * (2.0 * y) == 4.0 * (y * y);
    }
  }

  lemma AboveTwice(v: real, y: real, z: real)
    requires 0.0 < y < z && v < y * y
    ensures 4.0 * v < (y + z) * (y + z)
  {
    RealSquareOrder(2.0 * y, y + z);
    assert (2.0 * y) * (2.0 * y) == 4.0 * (y * y);
  }

  lemma HighIsNearest(F: iset<real>, E: iset<real>, v: real, lo: real, hi: real)
    requires Consecutive(F, lo, hi) && 0.0 < lo && v < hi * hi
    requires Sq(lo + hi) < 4.0 * v || (4.0 * v == Sq(lo + hi) && hi in E)
    ensures RootSelected(Nearest, F, E, v, hi)
  {
    forall z: real | z in F && z != hi
      ensures NearerRoot(v, hi, z) || (hi in E && EquallyNear(v, hi, z))
    {
      if hi < z {
        AboveTwice(v, hi, z);
      } else {
        SumBelow(hi + z, lo + hi);
        if 0.0 <= hi + z < lo + hi {
          RealSquareOrder(hi + z, lo + hi);
        }
      }
    }
  }

  lemma LowIsBelow(F: iset<real>, v: real, lo: real, hi: real)
    requires Consecutive(F, lo, hi) && lo * lo <= v < hi * hi
    ensures forall z: real | z in F && 0.0 <= z && Sq(z) <= v :: z <= lo
  {
    forall z: real | z in F && 0.0 <= z && Sq(z) <= v
      ensures z <= lo
    {
      if hi <= z {
        SquaresOrder(hi, z);
      }
    }
  }

  lemma HighIsAbove(F: iset<real>, v: real, lo: real, hi: real)
    requires Consecutive(F, lo, hi) && lo * lo <= v < hi * hi
    ensures forall z: real | z in F && 0.0 <= z && v <= Sq(z) && v != Sq(lo) :: hi <= z
    ensures v == Sq(lo) ==> forall z: real | z in F && 0.0 <= z && v <= Sq(z) :: lo <= z
  {
    forall z: real | z in F && 0.0 <= z && v <= Sq(z)
      ensures if v == Sq(lo) then lo <= z else hi <= z
    {
      if z <= lo {
        SquaresOrder(z, lo);
        RealSquareOrder(z, lo);
      }
    }
  }

  lemma ChooseRoot(mode: Mode, F: iset<real>, E: iset<real>, v: real, lo: real, hi: real,
                   odd: bool, cmpHalf: Ordering, inexact: bool)
    requires Consecutive(F, lo, hi) && 0.0 < lo && (if odd then hi else lo) in E
    requires RootBetween(v, lo, hi, cmpHalf, inexact)
    ensures RootSelected(mode, F, E, v, if RoundsUp(mode, false, odd, cmpHalf, inexact) then hi else lo)
  {
    var up := RoundsUp(mode, false, odd, cmpHalf, inexact);
    if mode.Nearest? {
      if up {
        HighIsNearest(F, E, v, lo, hi);
      } else {
        LowIsNearest(F, E, v, lo, hi);
      }
    } else {
      LowIsBelow(F, v, lo, hi);
      HighIsAbove(F, v, lo, hi);
    }
  }

  /** A root that is a member of `F` is `lo`, and is then what every direction selects. */
  lemma ExactRoot(mode: Mode, v: real, lo: real, hi: real, odd: bool, cmpHalf: Ordering, inexact: bool)
    requires 0.0 < lo < hi && RootBetween(v, lo, hi, cmpHalf, inexact)
    ensures var y := if RoundsUp(mode, false, odd, cmpHalf, inexact) then hi else lo;
            inexact <==> v != Sq(y)
  {
    RealSquareOrder(2.0 * lo, lo + hi);
    assert (2.0 * lo) * (2.0 * lo) == 4.0 * (lo * lo);
  }

  // ---- What the integer root knows ----

  /** Comparing `w` with the square of `c` gives what comparing the integer root and its remainder with `c` gives. */
  ghost predicate RootSees(w: nat, root: nat, frac: Option<Ordering>, c: nat) {
    if c < root || (c == root && frac.Some?) then Square(c) < w
    else if c == root then Square(c) == w
    else w < Square(c)
  }

  lemma RootSeesAll(w: nat, root: nat, rem: nat, c: nat)
    requires Square(root) <= w < Square(root + 1) && rem == w - Square(root)
    ensures RootSees(w, root, RootFraction(root, rem), c)
  {
    hide Square;
    if c < root {
      SquareMono(root, c);
    } else if root < c {
      SquareMono(root + 1, c);
    }
  }

  /** The order of squares of `c` units and of `w` units squared. */
  lemma UnitSquares(w: nat, h: int, c: nat)
    ensures var y, v := Scaled(c, h), Scaled(w, 2 * h);
            (Sq(y) < v <==> Square(c) < w) && (v < Sq(y) <==> w < Square(c))
  {
    SquareOfScaled(c, h);
    ScaledOrder(w, Square(c), 2 * h);
    ScaledOrder(Square(c), w, 2 * h);
  }

  lemma UnitMidpoint(w: nat, h: int, lo: real, hi: real, c: nat)
    requires lo + hi == 2.0 * Scaled(c, h)
    ensures var sum, v := lo + hi, Scaled(w, 2 * h);
            (Sq(sum) < 4.0 * v <==> Square(c) < w) && (4.0 * v < Sq(sum) <==> w < Square(c))
  {
    UnitSquares(w, h, c);
    var y := Scaled(c, h);
    assert (2.0 * y) * (2.0 * y) == 4.0 * (y * y);
  }

  /** Discarding `drop` low bits of the integer root keeps all that rounding needs. */
  lemma DiscardRoot(w: nat, h: int, root: nat, rem: nat, drop: nat)
    requires 0 < drop && Square(root) <= w < Square(root + 1) && rem == w - Square(root)
    ensures var d := Discard(root, drop, RootFraction(root, rem));
            RootBetween(Scaled(w, 2 * h), Scaled(d.sig, h + drop), Scaled(d.sig + 1, h + drop), d.cmpHalf, d.inexact)
  {
    hide Sq;
    hide Square;
    hide Pow2;
    var k := Shr(root, drop);
    var base, half := Shl(k, drop), Pow2(drop - 1);
    assert Pow2(drop) == 2 * half by { Pow2Add(1, drop - 1); TwoIsPow2(); }
    ShrBounds(root, drop);
    ShlNext(k, drop);
    ScaledShl(k, drop, h);
    ScaledShl(k + 1, drop, h);
    Midpoint(base, half, h);
    RootSeesAll(w, root, rem, base);
    RootSeesAll(w, root, rem, base + half);
    RootSeesAll(w, root, rem, base + Pow2(drop));
    UnitSquares(w, h, base);
    UnitSquares(w, h, base + Pow2(drop));
    UnitMidpoint(w, h, Scaled(base, h), Scaled(base + 2 * half, h), base + half);
  }

  lemma KeepRoot(w: nat, h: int, root: nat, rem: nat)
    requires Square(root) <= w < Square(root + 1) && rem == w - Square(root)
    ensures var d := Discard(root, 0, RootFraction(root, rem));
            RootBetween(Scaled(w, 2 * h), Scaled(d.sig, h), Scaled(d.sig + 1, h), d.cmpHalf, d.inexact)
  {
    hide Sq;
    hide Square;
    RootSeesAll(w, root, rem, root);
    RootSeesAll(w, root, rem, root + 1);
    UnitSquares(w, h, root);
    UnitSquares(w, h, root + 1);
    SquareOf(root);
    HalfwaySquare(root);
    HalfUnits(w, h, root);
  }

  /** The midpoint of a unit, in half units. */
  lemma HalfUnits(w: nat, h: int, c: nat)
    ensures var sum, v := Scaled(c, h) + Scaled(c + 1, h), Scaled(w, 2 * h);
            && (Sq(sum) < 4.0 * v <==> Square(2 * c + 1) < 4 * w)
            && (4.0 * v < Sq(sum) <==> 4 * w < Square(2 * c + 1))
  {
    hide Square;
    ScaledSum(c, c + 1, h);
    UnitSquares(4 * w, h, 2 * c + 1);
    ScaledValue(w, 2 * h);
    ScaledValue(4 * w, 2 * h);
  }

  // ---- The operation ----

  /** `r` is what the correctly rounded square root of `v` owes under the control word. */
  ghost predicate RootRoundsCorrectly(ctl: Ctl, v: real, r: (F80, Exc)) {
    exists y: real ::
      && RootSelected(ctl.rc, Floats(ctl.width), EvenFloats(ctl.width), v, y)
      && DeliversValue(ctl, v == Sq(y), y, false, r)
  }

  lemma RootBracketDelivers(exp: int, d: Kept, ctl: Ctl, v: real)
    requires var u := exp - (ctl.width - 1);
      && Pow2(ctl.width - 1) <= d.sig < Pow2(ctl.width)
      && RootBetween(v, Scaled(d.sig, u), Scaled(d.sig + 1, u), d.cmpHalf, d.inexact)
    ensures RootRoundsCorrectly(ctl, v, RoundKept(false, exp, d, ctl))
  {
    hide Sq;
    hide Pow2;
    hide RootSelected;
    hide RoundField;
    hide Finish;
    hide DeliversValue;
    hide RootBetween;
    hide Floats;
    hide EvenFloats;
    var p: nat, u := ctl.width, exp - (ctl.width - 1);
    var lo, hi, odd := Scaled(d.sig, u), Scaled(d.sig + 1, u), d.sig % 2 == 1;
    NeighbourForms(p, d.sig, u);
    UnitsAreConsecutive(p, d.sig, u);
    Positive(d.sig, u);
    EvenOneOf(p, d.sig, u);
    ChooseRoot(ctl.rc, Floats(p), EvenFloats(p), v, lo, hi, odd, d.cmpHalf, d.inexact);
    ExactRoot(ctl.rc, v, lo, hi, odd, d.cmpHalf, d.inexact);
    RoundFieldValue(false, exp, d, ctl);
    var (sig, exp') := RoundField(false, exp, d, ctl);
    FinishDelivers(false, exp', sig, ctl, d.inexact);
  }

  lemma EvenOneOf(p: nat, k: nat, u: int)
    requires 1 < p && Pow2(p - 1) <= k < Pow2(p)
    ensures (if k % 2 == 1 then Scaled(k + 1, u) else Scaled(k, u)) in EvenFloats(p)
  {
    NeighbourForms(p, k, u);
  }

  /** The bits kept of the integer root place the real one between neighbours of the selected width. */
  lemma KeptRootBrackets(w: nat, h: int, root: nat, rem: nat, p: Width, d: Kept)
    requires P63 <= root < P64 && Square(root) <= w < Square(root + 1) && rem == w - Square(root)
    requires d == Discard(root, 64 - p, RootFraction(root, rem))
    ensures Pow2(p - 1) <= d.sig < Pow2(p)
    ensures RootBetween(Scaled(w, 2 * h), Scaled(d.sig, h + 64 - p), Scaled(d.sig + 1, h + 64 - p), d.cmpHalf, d.inexact)
  {
    hide Square;
    hide Pow2;
    hide Discard;
    hide RootBetween;
    hide RootFraction;
    var drop: nat := 64 - p;
    KeptWidth(root, drop, RootFraction(root, rem));
    if 0 < drop {
      DiscardRoot(w, h, root, rem, drop);
    } else {
      KeepRoot(w, h, root, rem);
    }
  }

  lemma RootRoundsKept(refExp: int, root: nat, frac: Option<Ordering>, ctl: Ctl)
    requires P63 <= root < P64
    ensures NormalizeRound(false, refExp, root, frac, ctl)
         == RoundKept(false, refExp - 64, Discard(root, 64 - ctl.width, frac), ctl)
  {
    hide Pow2;
    hide Discard;
    hide RoundKept;
    TopBitOfRoot(root);
  }

  /** The result of `fsqrt` on a positive number, judged by squares alone. */
  lemma SqrtSelects(a: F80, s: nat, root: nat, rem: nat, ctl: Ctl, r: (F80, Exc))
    requires IsNormal(a) && !a.sign && s == (if (a.exp - 63) % 2 == 0 then 64 else 63)
    requires var w := Shl(a.sig, s); Square(root) <= w < Square(root + 1) && rem == w - Square(root)
    requires r == NormalizeRound(false, (a.exp - 63 - s) / 2 + 127, root, RootFraction(root, rem), ctl)
    ensures RootRoundsCorrectly(ctl, Val(a), r)
  {
    hide RootRoundsCorrectly;
    hide Square;
    hide Shl;
    hide Pow2;
    hide RoundKept;
    hide NormalizeRound;
    hide Discard;
    hide RootBetween;
    hide RootFraction;
    var w, h: int := Shl(a.sig, s), (a.exp - 63 - s) / 2;
    SqrtRange(a.sig, a.exp - 63, s);
    RootIsWide(w, root);
    RootIsNarrow(w, root);
    var d := Discard(root, 64 - ctl.width, RootFraction(root, rem));
    KeptRootBrackets(w, h, root, rem, ctl.width, d);
    RootRoundsKept(h + 127, root, RootFraction(root, rem), ctl);
    RootBracketDelivers(h + 63, d, ctl, Val(a));
  }

  /** The even power of two is taken out of the operand, leaving a 128-bit integer to take the root of. */
  lemma SqrtRange(sig: nat, e2: int, s: nat)
    requires P63 <= sig < P64 && s == (if e2 % 2 == 0 then 64 else 63)
    ensures P126 <= Shl(sig, s) < P128
    ensures Scaled(sig, e2) == Scaled(Shl(sig, s), 2 * ((e2 - s) / 2))
  {
    hide Pow2;
    hide Shl;
    assert Pow2(64) == P64 && Pow2(63) == P63 by { Pow2Values(); }
    ShlValue(sig, s);
    ScaledShl(sig, s, e2 - s);
  }

  lemma RootIsNarrow(w: nat, root: nat)
    requires Square(root) <= w < P128
    ensures root < P64
  {
    if P64 <= root {
      SquareMono(P64, root);
    }
  }

  lemma TopBitOfRoot(root: nat)
    requires P63 <= root < P64
    ensures TopBit(root) == 63
  {
    hide Pow2;
    assert Pow2(64) == P64 && Pow2(63) == P63 by { Pow2Values(); }
    TopBitAtLeast(root, 63);
    if 64 <= TopBit(root) {
      Pow2Mono(64, TopBit(root));
    }
  }

  lemma KeptWidth(root: nat, drop: nat, frac: Option<Ordering>)
    requires P63 <= root < P64 && drop < 64
    ensures Pow2(63 - drop) <= Discard(root, drop, frac).sig < Pow2(64 - drop)
  {
    assert Pow2(64) == P64 && Pow2(63) == P63 by { Pow2Values(); }
    if 0 < drop {
      ShrRange(root, 63 - drop, 64 - drop, drop);
    }
  }


  lemma SqrtOperand(sig: nat, e2: int, s: nat, x: real)
    requires P63 <= sig < P64 && s == (if e2 % 2 == 0 then 64 else 63)
    requires 0.0 <= x && x * x == Scaled(sig, e2)
    ensures P126 <= Shl(sig, s) < P128
    ensures RootOf(x, Shl(sig, s), (e2 - s) / 2)
  {
    hide Shl;
    SqrtRange(sig, e2, s);
  }

  const P126: nat := 0x4000_0000_0000_0000_0000_0000_0000_0000

  lemma RootIsWide(w: nat, root: nat)
    requires P126 <= w < Square(root + 1)
    ensures P63 <= root
  {
    if root + 1 <= P63 {
      SquareMono(root + 1, P63);
    }
  }

  lemma SqrtDelivers(a: F80, s: nat, root: nat, rem: nat, ctl: Ctl, x: real, r: (F80, Exc))
    requires IsNormal(a) && !a.sign && s == (if (a.exp - 63) % 2 == 0 then 64 else 63)
    requires var w := Shl(a.sig, s); Square(root) <= w < Square(root + 1) && rem == w - Square(root)
    requires 0.0 <= x && x * x == Val(a)
    requires r == NormalizeRound(false, (a.exp - 63 - s) / 2 + 127, root, RootFraction(root, rem), ctl)
    ensures RoundsCorrectly(ctl, x, false, r)
  {
    hide NormalizeRound;
    hide RoundsCorrectly;
    hide Square;
    hide Shl;
    hide Pow2;
    SqrtOperand(a.sig, a.exp - 63, s, x);
    var w, h := Shl(a.sig, s), (a.exp - 63 - s) / 2;
    RootPosition(x, w, h, root, rem);
    RootIsWide(w, root);
    WidthBounds(ctl.width);
    YieldsCorrectly(false, h + 127, root, RootFraction(root, rem), ctl, x, x, r);
  }

  ghost predicate IsRootOf(x: real, v: real) {
    0.0 <= x && x * x == v
  }

  /** Theorem: `fsqrt` delivers the correctly rounded square root; a negative operand is invalid. */
  method SqrtCtl(a: F80, ctl: Ctl) returns (v: F80, exc: Exc)
    requires a.cls.Normal? ==> IsNormal(a)
    ensures UnaryNan(a).Some? ==> v == UnaryNan(a).value && exc == (if OperandRaisesInvalid(a) then IE else NONE)
    ensures a.cls.Zero? ==> v == ZeroOf(a.sign) && exc == NONE
    ensures (a.cls.Normal? || a.cls.Inf?) && a.sign ==> v == Indefinite() && exc == IE
    ensures a.cls.Inf? && !a.sign ==> v == InfOf(false) && exc == NONE
    ensures a.cls.Normal? && !a.sign ==> RootRoundsCorrectly(ctl, Val(a), (v, exc))
    ensures a.cls.Normal? && !a.sign ==>
              forall x: real | IsRootOf(x, Val(a)) :: RoundsCorrectly(ctl, x, false, (v, exc))
  {
    hide NormalizeRound;
    hide RoundsCorrectly;
    hide RootRoundsCorrectly;
    hide Square;
    hide Shl;
    var base := if OperandRaisesInvalid(a) then IE else NONE;
    var nan := UnaryNan(a);
    if nan.Some? {
      return nan.value, base;
    }
    match a.cls {
      case Zero => return ZeroOf(a.sign), base;
      case Inf => return if a.sign then Indefinite() else InfOf(false), if a.sign then base.With(IE) else base;
      case Normal =>
        if a.sign {
          return Indefinite(), base.With(IE);
        }
        var e2 := a.exp - 63;
        var s := if e2 % 2 == 0 then 64 else 63;
        var w := Shl(a.sig, s);
        ShiftFits(a.sig, s);
        var root, rem := Isqrt128(w);
        var (v', e) := NormalizeRound(false, (e2 - s) / 2 + 127, root, RootFraction(root, rem), ctl);
        v, exc := v', base.With(e);
        SqrtSelects(a, s, root, rem, ctl, (v', e));
        forall x: real | IsRootOf(x, Val(a))
          ensures RoundsCorrectly(ctl, x, false, (v, exc))
        {
          SqrtDelivers(a, s, root, rem, ctl, x, (v', e));
        }
    }
  }

  lemma ShiftFits(sig: nat, s: nat)
    requires sig < P64 && 63 <= s <= 64
    ensures Shl(sig, s) < P128
  {
    hide Pow2;
    hide Shl;
    assert Pow2(64) == P64 && Pow2(63) == P63 by { Pow2Values(); }
    ShlValue(sig, s);
  }
}
