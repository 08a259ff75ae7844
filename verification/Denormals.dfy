/**
 Results below the normal range. IEEE 754 rounds the exact value to the denormal grid in the direction asked for;
 the code rounds it to 64 bits first and the register truncates that. This says when the two agree.
 */
module Denormals {
  import opened Powers
  import opened Rounding
  import opened Float80
  import opened RoundingPath
  import opened Codec
  import opened Operations
  import Sums = AddSub

  ghost function Grid(): iset<real> {
    iset x: real | OnDenormalGrid(x)
  }

  ghost predicate OnEvenGrid(x: real) {
    exists j: int :: j % 2 == 0 && x == GridPoint(j)
  }

  ghost function EvenGrid(): iset<real> {
    iset x: real | OnEvenGrid(x)
  }

  /** `g` is the denormal, or zero, that section 7.5 of IEEE 754 asks for when the exact result is `v`. */
  ghost predicate GridRounded(mode: Mode, v: real, g: real) {
    Selected(mode, Grid(), EvenGrid(), v, g)
  }

  lemma InGrid(j: int)
    ensures GridPoint(j) in Grid() && GridPoint(-j) == -GridPoint(j)
    ensures GridPoint(j) in EvenGrid() <==> j % 2 == 0
  {
    ScaledNegates(j, EMIN - 63);
    assert OnDenormalGrid(GridPoint(j));
    if OnEvenGrid(GridPoint(j)) {
      var k: int :| k % 2 == 0 && GridPoint(j) == GridPoint(k);
      ScaledInjective(j, k, EMIN - 63);
    }
  }

  lemma GridNegates()
    ensures Symmetric(Grid()) && Symmetric(EvenGrid())
  {
    forall x: real | x in Grid()
      ensures HasNegation(Grid(), x)
    {
      var j: int :| x == GridPoint(j);
      InGrid(j);
      InGrid(-j);
    }
    forall x: real | x in EvenGrid()
      ensures HasNegation(EvenGrid(), x)
    {
      var j: int :| j % 2 == 0 && x == GridPoint(j);
      InGrid(j);
      InGrid(-j);
    }
  }

  // ---- Where the exact magnitude lies on the grid ----

  ghost predicate Cell(t: nat, x: real) {
    GridPoint(t) <= x < GridPoint(t + 1)
  }

  lemma CellExists(x: real) returns (t: nat)
    requires 0.0 <= x
    ensures Cell(t, x)
  {
    var g := TwoTo(EMIN - 63);
    var q := x / g;
    QuotientTimes(x, g, q);
    if q < 0.0 {
      MulLt(q, 0.0, g);
    }
    t := q.Floor;
    ScaledBelow(t, q, EMIN - 63);
    ScaledAbove(t + 1, q, EMIN - 63);
  }

  lemma ScaledBelow(k: int, q: real, e: int)
    requires k as real <= q
    ensures Scaled(k, e) <= q * TwoTo(e)
  {
    ScaledValue(k, e);
    MulLe(k as real, q, TwoTo(e));
  }

  lemma ScaledAbove(k: int, q: real, e: int)
    requires q < k as real
    ensures q * TwoTo(e) < Scaled(k, e)
  {
    ScaledValue(k, e);
    MulLt(q, k as real, TwoTo(e));
  }

  lemma QuotientTimes(x: real, g: real, q: real)
    requires 0.0 < g && q == x / g
    ensures q * g == x
  {
  }

  lemma CellUnique(t: nat, u: nat, x: real)
    requires Cell(t, x) && Cell(u, x)
    ensures t == u
  {
    ScaledOrder(t + 1, u, EMIN - 63);
    ScaledOrder(u + 1, t, EMIN - 63);
  }

  lemma CellIsConsecutive(t: nat)
    ensures Consecutive(Grid(), GridPoint(t), GridPoint(t + 1))
  {
    InGrid(t);
    InGrid(t + 1);
    ScaledOrder(0, t, EMIN - 63);
    ScaledValue(0, EMIN - 63);
    ScaledOrder(t, t + 1, EMIN - 63);
    forall z: real | z in Grid()
      ensures z <= GridPoint(t) || GridPoint(t + 1) <= z
    {
      var j: int :| z == GridPoint(j);
      ScaledOrder(j, t, EMIN - 63);
      ScaledOrder(t + 1, j, EMIN - 63);
    }
  }

  /** Twice the midpoint of a cell. */
  ghost function Ends(t: nat): real { GridPoint(t) + GridPoint(t + 1) }

  /** Truncation is the nearer choice: below the middle of the cell, or on it above an even point. */
  ghost predicate LowerHalf(x: real) {
    exists t: nat :: Cell(t, x) && (2.0 * x < Ends(t) || (2.0 * x == Ends(t) && t % 2 == 0))
  }

  lemma LowerHalfIff(t: nat, x: real)
    requires Cell(t, x)
    ensures LowerHalf(x) <==> 2.0 * x < Ends(t) || (2.0 * x == Ends(t) && t % 2 == 0)
  {
    if LowerHalf(x) {
      var u: nat :| Cell(u, x) && (2.0 * x < Ends(u) || (2.0 * x == Ends(u) && u % 2 == 0));
      CellUnique(t, u, x);
    }
  }

  // ---- The end points and midpoint of a cell have at most 64 bits ----

  lemma TopOfGrid()
    ensures GridPoint(P63) == TwoTo(EMIN)
  {
    hide Pow2;
    assert Pow2(63) == P63 by { Pow2Values(); }
    ScaledValue(P63, EMIN - 63);
    TwoToAddNat(EMIN - 63, 63);
  }

  lemma CellIsLow(t: nat, x: real)
    requires Cell(t, x) && x < TwoTo(EMIN)
    ensures t < P63
  {
    TopOfGrid();
    ScaledOrder(P63, t, EMIN - 63);
  }

  lemma CellFloats(t: nat)
    requires t < P63
    ensures GridPoint(t) in Floats(64) && GridPoint(t + 1) in Floats(64) && Ends(t) / 2.0 in Floats(64)
  {
    hide Pow2;
    assert Pow2(64) == P64 by { Pow2Values(); }
    HalveSignificand(t, EMIN - 64);
    HalveSignificand(t + 1, EMIN - 64);
    Midpoint(2 * t, 1, EMIN - 64);
    assert Ends(t) / 2.0 == Scaled(2 * t + 1, EMIN - 64);
    assert Representable(64, GridPoint(t)) && Representable(64, GridPoint(t + 1));
    assert Representable(64, Scaled(2 * t + 1, EMIN - 64));
  }

  /** The 64-bit rounding stays in the cell, and reaches an end only from that end's half. */
  lemma RoundedInCell(mode: Mode, t: nat, x: real, y: real)
    requires t < P63 && Cell(t, x) && 0.0 <= GridPoint(t) && CorrectlyRounded(mode, 64, x, y)
    ensures GridPoint(t) <= y <= GridPoint(t + 1)
    ensures mode.Down? || mode.TowardZero? ==> y <= x
    ensures mode.Up? ==> x <= y && (x == GridPoint(t) ==> y == x)
    ensures mode.Nearest? && y == GridPoint(t) ==> 2.0 * x < Ends(t)
    ensures mode.Nearest? && y == GridPoint(t + 1) ==> Ends(t) < 2.0 * x
  {
    CellFloats(t);
    hide Floats;
    hide EvenFloats;
  }

  // ---- The truncated register against the grid ----

  /** Truncating the 64-bit rounding `y` of the magnitude `x` gives the denormal owed. */
  ghost predicate Owed(mode: Mode, x: real, y: real) {
    || OnDenormalGrid(y)
    || mode.Down? || mode.TowardZero?
    || (mode.Nearest? && LowerHalf(x))
  }

  lemma EndsOfCell(t: nat, y: real)
    requires GridPoint(t) <= y <= GridPoint(t + 1)
    ensures OnDenormalGrid(y) <==> y == GridPoint(t) || y == GridPoint(t + 1)
  {
    CellIsConsecutive(t);
    if OnDenormalGrid(y) {
      assert y in Grid();
    }
    InGrid(t);
    InGrid(t + 1);
  }

  /** Selection on the grid, by where `x` lies in its cell. */
  lemma CellSelects(mode: Mode, t: nat, x: real)
    requires Cell(t, x)
    ensures var lo, hi := GridPoint(t), GridPoint(t + 1);
            var up := match mode
              case Up => lo < x
              case Nearest => Ends(t) < 2.0 * x || (2.0 * x == Ends(t) && t % 2 == 1)
              case _ => false;
            GridRounded(mode, x, if up then hi else lo) && !GridRounded(mode, x, if up then lo else hi)
  {
    var lo, hi := GridPoint(t), GridPoint(t + 1);
    CellIsConsecutive(t);
    GridNegates();
    InGrid(t);
    InGrid(t + 1);
    hide Grid;
    hide EvenGrid;
    var cmp := if 2.0 * x < Ends(t) then Less else if 2.0 * x == Ends(t) then Equal else Greater;
    ChooseNeighbour(mode, Grid(), EvenGrid(), x, lo, hi, t % 2 == 1, cmp, x != lo);
  }

  /** The register's magnitude `d` is `y` cut down to the grid. */
  lemma MagnitudeOwedIff(mode: Mode, x: real, y: real, d: real, units: nat)
    requires 0.0 <= x < TwoTo(EMIN) && CorrectlyRounded(mode, 64, x, y)
    requires d == GridPoint(units) && Cell(units, y)
    ensures GridRounded(mode, x, d) <==> Owed(mode, x, y)
  {
    hide CorrectlyRounded;
    hide GridRounded;
    hide OnDenormalGrid;
    hide LowerHalf;
    var t := CellExists(x);
    CellIsLow(t, x);
    CellIsConsecutive(t);
    RoundedInCell(mode, t, x, y);
    EndsOfCell(t, y);
    CellSelects(mode, t, x);
    LowerHalfIff(t, x);
    if y < GridPoint(t + 1) {
      CellUnique(units, t, y);
    } else {
      CellIsConsecutive(t + 1);
      CellUnique(units, t + 1, y);
    }
  }

  // ---- Signs ----

  lemma SignedSelection(mode: Mode, F: iset<real>, E: iset<real>, sign: bool, x: real, y: real)
    requires Symmetric(F) && Symmetric(E)
    ensures Selected(mode, F, E, Signed(sign, x), Signed(sign, y)) <==>
            Selected(if sign then Flip(mode) else mode, F, E, x, y)
  {
    hide Selected;
    if sign {
      if Selected(Flip(mode), F, E, x, y) {
        SelectionMirrors(mode, F, E, x, y);
      }
      if Selected(mode, F, E, -x, -y) {
        assert Flip(Flip(mode)) == mode && - -x == x && - -y == y;
        SelectionMirrors(Flip(mode), F, E, -x, -y);
      }
    }
  }

  lemma GridSigned(sign: bool, y: real)
    ensures OnDenormalGrid(Signed(sign, y)) <==> OnDenormalGrid(y)
  {
    GridNegates();
    MembershipMirrors(Grid(), y);
  }

  /** The register holds the 64-bit rounding cut down to the grid. */
  lemma RegisterTruncates(ctl: Ctl, x: real, y: real, sign: bool, r: (F80, Exc)) returns (units: nat)
    requires Delivers(ctl, x, y, sign, r) && WellFormed(r.0) && Abs(y) <= TwoTo(EMIN)
    ensures Val(FromBytes(ToBytes(r.0))) == Signed(sign, GridPoint(units)) && Cell(units, Abs(y))
  {
    hide FromBytes;
    hide ToBytes;
    hide Encode;
    hide Decode;
    hide OnDenormalGrid;
    TwoToMono(EMIN - 64, EMIN);
    TwoToMono(EMIN + 1, EMAX + 1);
    TwoToStep(EMIN);
    ScaledValue(0, EMIN - 63);
    if Abs(y) < TwoTo(EMIN - 64) {
      StoredZero(sign);
      ScaledValue(1, EMIN - 63);
      TwoToStep(EMIN - 64);
      units := 0;
    } else {
      var a := r.0;
      ThroughBytes(a);
      StoreThenLoad(a);
      Sums.Positive(a.sig, a.exp - 63);
      RangeByExponent(a.sig, a.exp, EMIN);
      if a.exp < EMIN {
        units :| Val(Decode(Encode(a))) == Signed(a.sign, GridPoint(units)) && Cell(units, Abs(Val(a)));
      } else {
        TopOfGrid();
        ScaledOrder(P63, P63 + 1, EMIN - 63);
        units := P63;
      }
    }
  }

  /**
   Theorem: at full width, an arithmetic result of magnitude below the normal range is left in the register as IEEE
   754 asks exactly when the direction truncates it, when its 64-bit rounding is on the grid, or when it rounds to
   nearest from the lower half of its cell.
   */
  lemma TinyResultOwedIff(op: Op, d: F80, s: F80, ctl: Ctl, y: real)
    requires IsNormal(d) && IsNormal(s) && Val(d) != 0.0 && Val(s) != 0.0 && ctl.width == 64
    requires Abs(Exact(op, Val(d), Val(s))) < TwoTo(EMIN)
    requires CorrectlyRounded(ctl.rc, 64, Exact(op, Val(d), Val(s)), y)
    ensures WellFormed(Apply(op, d, s, ctl).0)
    ensures var v := Exact(op, Val(d), Val(s));
            GridRounded(ctl.rc, v, Val(FromBytes(ToBytes(Apply(op, d, s, ctl).0)))) <==>
            Owed(if v < 0.0 then Flip(ctl.rc) else ctl.rc, Abs(v), y)
  {
    hide Val;
    hide Apply;
    hide CorrectlyRounded;
    hide Delivers;
    hide Owed;
    hide GridRounded;
    hide FromBytes;
    hide ToBytes;
    ApplyWellFormed(op, d, s, ctl);
    ApplyCorrect(op, d, s, ctl);
    var v, r := Exact(op, Val(d), Val(s)), Apply(op, d, s, ctl);
    if v == 0.0 {
      ZeroRoundsToZero(ctl.rc, 64, y);
      StoredZero(false);
      ZeroIsZero();
      ZeroOwed(ctl.rc);
    } else {
      var y': real :| CorrectlyRounded(ctl.rc, ctl.width, v, y') && Delivers(ctl, v, y', v < 0.0, r);
      CorrectRoundingUnique(ctl.rc, 64, v, y, y');
      SignedOwedIff(ctl, v, y, r);
    }
  }

  lemma ZeroOwed(mode: Mode)
    ensures GridRounded(mode, 0.0, 0.0) && Owed(mode, 0.0, 0.0)
  {
    ZeroOnGrid();
    ScaledValue(0, EMIN - 63);
    InGrid(0);
  }

  lemma SignedOwedIff(ctl: Ctl, v: real, y: real, r: (F80, Exc))
    requires ctl.width == 64 && v != 0.0 && Abs(v) < TwoTo(EMIN) && WellFormed(r.0)
    requires CorrectlyRounded(ctl.rc, 64, v, y) && Delivers(ctl, v, y, v < 0.0, r)
    ensures GridRounded(ctl.rc, v, Val(FromBytes(ToBytes(r.0)))) <==>
            Owed(if v < 0.0 then Flip(ctl.rc) else ctl.rc, Abs(v), y)
  {
    hide Val;
    hide Delivers;
    hide FromBytes;
    hide ToBytes;
    hide Selected;
    hide LowerHalf;
    hide OnDenormalGrid;
    hide Floats;
    hide EvenFloats;
    var sign, x := v < 0.0, Abs(v);
    var m, ym := if sign then Flip(ctl.rc) else ctl.rc, Signed(sign, y);
    FloatsNegate(64);
    GridNegates();
    SignedSelection(ctl.rc, Floats(64), EvenFloats(64), sign, x, ym);
    MagnitudeBelow(m, x, ym);
    var units := RegisterTruncates(ctl, v, y, sign, r);
    SignedSelection(ctl.rc, Grid(), EvenGrid(), sign, x, GridPoint(units));
    MagnitudeOwedIff(m, x, ym, GridPoint(units), units);
    GridSigned(sign, y);
  }

  lemma MagnitudeBelow(mode: Mode, x: real, y: real)
    requires 0.0 <= x < TwoTo(EMIN) && CorrectlyRounded(mode, 64, x, y)
    ensures 0.0 <= y <= TwoTo(EMIN)
  {
    hide CorrectlyRounded;
    var t := CellExists(x);
    CellIsLow(t, x);
    CellIsConsecutive(t);
    RoundedInCell(mode, t, x, y);
    TopOfGrid();
    ScaledOrder(t + 1, P63, EMIN - 63);
  }

  /** One unit above the least normal, halved and rounded up, is left below the denormal owed. */
  lemma HalvedIsNotRoundedUp()
    ensures var d, s := F80(false, Normal, EMIN, P63 + 1), F80(false, Normal, -1, P63);
            var r := Apply(Mul, d, s, Ctl(Up, 64, true)).0;
            WellFormed(r) && !GridRounded(Up, Val(d) * Val(s), Val(FromBytes(ToBytes(r))))
  {
    hide CorrectlyRounded;
    hide OnDenormalGrid;
    hide GridRounded;
    hide FromBytes;
    hide ToBytes;
    hide Apply;
    var d, s := F80(false, Normal, EMIN, P63 + 1), F80(false, Normal, -1, P63);
    var y := d.(exp := EMIN - 1);
    HalfOf(d, s, y);
    SignOfVal(d);
    SignOfVal(s);
    SignOfVal(y);
    UnroundedCorrectIff(y, Ctl(Up, 64, true));
    RangeByExponent(P63 + 1, EMIN - 1, EMIN);
    GridByLowBits(false, P63 + 1, EMIN - 1);
    LowOne();
    assert Exact(Mul, Val(d), Val(s)) == Val(y);
    TinyResultOwedIff(Mul, d, s, Ctl(Up, 64, true), Val(y));
  }
}
