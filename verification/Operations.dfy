/** The arithmetic the stack machine dispatches to: every result can be encoded again. */
module Operations {
  import opened Options
  import opened Powers
  import opened Rounding
  import opened Float80
  import opened RoundingPath
  import opened Codec
  import MulDiv
  import Sums = AddSub

  datatype Op = Add | Sub | Subr | Mul | Div | Divr

  /** `dest op source`; the reversed forms exchange the operands. */
  function Apply(op: Op, dest: F80, source: F80, ctl: Ctl): (F80, Exc)
    requires WellFormed(dest) && WellFormed(source)
  {
    match op
    case Add => Float80.AddSub(dest, source, false, ctl)
    case Sub => Float80.AddSub(dest, source, true, ctl)
    case Subr => Float80.AddSub(source, dest, true, ctl)
    case Mul => MulCtl(dest, source, ctl)
    case Div => DivCtl(dest, source, ctl)
    case Divr => DivCtl(source, dest, ctl)
  }

  /** Whatever correct rounding delivers can be encoded. */
  lemma DeliveredIsWellFormed(ctl: Ctl, x: real, sign: bool, r: (F80, Exc))
    requires RoundsCorrectly(ctl, x, sign, r)
    ensures WellFormed(r.0)
  {
    var y: real :| CorrectlyRounded(ctl.rc, ctl.width, x, y) && Delivers(ctl, x, y, sign, r);
  }

  lemma NanIsWellFormed(a: F80, b: F80)
    requires WellFormed(a) && WellFormed(b)
    ensures BinaryNan(a, b).Some? ==> WellFormed(BinaryNan(a, b).value)
  {
  }

  predicate Ordinary(a: F80) { !a.cls.Nan? && !a.cls.Unsupported? }

  /**
   An operand that is a NaN or unsupported decides the result of every operation: a quiet NaN, from an operand
   or the indefinite, with invalid reported exactly for a signalling or unsupported operand.
   */
  lemma NanPropagates(op: Op, d: F80, s: F80, ctl: Ctl)
    requires WellFormed(d) && WellFormed(s) && (!Ordinary(d) || !Ordinary(s))
    ensures var r := Apply(op, d, s, ctl);
            && r.0.cls.Nan? && !IsSnan(r.0)
            && r.1 == (if OperandRaisesInvalid(d) || OperandRaisesInvalid(s) then IE else NONE)
            && (r.0 == Indefinite() || r.0 == Quieted(d) || r.0 == Quieted(s))
  {
    hide NormalizeRound;
    hide AddAligned;
    hide DivNormals;
    QuietBit(d);
    QuietBit(s);
  }

  /** `x` is chosen before `y`: a quiet NaN before a signalling one, then by significand. */
  predicate Outranks(x: F80, y: F80) {
    if IsSnan(x) == IsSnan(y) then y.sig <= x.sig else IsSnan(y)
  }

  /** Theorem: the NaN delivered is the operand of the highest rank, made quiet; the left one of equals. */
  lemma NanSelected(op: Op, d: F80, s: F80, ctl: Ctl)
    requires WellFormed(d) && WellFormed(s) && (d.cls.Nan? || s.cls.Nan?)
    requires !d.cls.Unsupported? && !s.cls.Unsupported?
    ensures var r := Apply(op, d, s, ctl).0;
            var x, y := if op.Subr? || op.Divr? then s else d, if op.Subr? || op.Divr? then d else s;
            && (x.cls.Nan? && (!y.cls.Nan? || Outranks(x, y)) ==> r == Quieted(x))
            && (y.cls.Nan? && (!x.cls.Nan? || !Outranks(x, y)) ==> r == Quieted(y))
  {
    hide NormalizeRound;
    hide AddAligned;
    hide DivNormals;
    hide Quieted;
    hide IsSnan;
  }

  lemma QuietBit(a: F80)
    ensures (Quieted(a).sig / P62) % 2 == 1
  {
  }

  lemma MulWellFormed(a: F80, b: F80, ctl: Ctl)
    requires WellFormed(a) && WellFormed(b)
    ensures WellFormed(MulCtl(a, b, ctl).0)
  {
    hide NormalizeRound;
    hide RoundsCorrectly;
    hide Times;
    NanIsWellFormed(a, b);
    if a.cls.Normal? && b.cls.Normal? {
      MulDiv.MulCorrect(a, b, ctl);
      DeliveredIsWellFormed(ctl, Val(a) * Val(b), a.sign != b.sign, MulCtl(a, b, ctl));
    }
  }

  lemma DivWellFormed(a: F80, b: F80, ctl: Ctl)
    requires WellFormed(a) && WellFormed(b)
    ensures WellFormed(DivCtl(a, b, ctl).0)
  {
    hide DivNormals;
    hide RoundsCorrectly;
    NanIsWellFormed(a, b);
    if a.cls.Normal? && b.cls.Normal? {
      MulDiv.DivCorrect(a, b, ctl);
      DeliveredIsWellFormed(ctl, Val(a) / Val(b), a.sign != b.sign, DivCtl(a, b, ctl));
    }
  }

  lemma SumWellFormed(a: F80, b: F80, subtract: bool, ctl: Ctl)
    requires WellFormed(a) && WellFormed(b)
    ensures WellFormed(Float80.AddSub(a, b, subtract, ctl).0)
  {
    hide AddAligned;
    hide RoundsCorrectly;
    NanIsWellFormed(a, b);
    if a.cls.Normal? && b.cls.Normal? {
      Sums.AddSubCorrect(a, b, subtract, ctl);
      var v := if subtract then Val(a) - Val(b) else Val(a) + Val(b);
      if v != 0.0 {
        DeliveredIsWellFormed(ctl, v, v < 0.0, Float80.AddSub(a, b, subtract, ctl));
      }
    }
  }

  lemma ApplyWellFormed(op: Op, dest: F80, source: F80, ctl: Ctl)
    requires WellFormed(dest) && WellFormed(source)
    ensures WellFormed(Apply(op, dest, source, ctl).0)
  {
    hide Float80.AddSub;
    hide MulCtl;
    hide DivCtl;
    hide WellFormed;
    match op
    case Add => SumWellFormed(dest, source, false, ctl);
    case Sub => SumWellFormed(dest, source, true, ctl);
    case Subr => SumWellFormed(source, dest, true, ctl);
    case Mul => MulWellFormed(dest, source, ctl);
    case Div => DivWellFormed(dest, source, ctl);
    case Divr => DivWellFormed(source, dest, ctl);
  }

  // ---- What the operations deliver ----

  ghost function Exact(op: Op, d: real, s: real): real
    requires d != 0.0 && s != 0.0
  {
    match op
    case Add => d + s
    case Sub => d - s
    case Subr => s - d
    case Mul => d * s
    case Div => d / s
    case Divr => s / d
  }

  lemma SignOfVal(a: F80)
    requires IsNormal(a)
    ensures Val(a) != 0.0 && (Val(a) < 0.0 <==> a.sign)
  {
    Sums.Positive(a.sig, a.exp - 63);
  }

  lemma ProductSign(x: real, y: real)
    requires x != 0.0 && y != 0.0
    ensures x * y != 0.0 && (x * y < 0.0 <==> (x < 0.0) != (y < 0.0))
  {
    if 0.0 < x {
      if 0.0 < y { MulLt(0.0, x, y); } else { MulLt(y, 0.0, x); }
    } else {
      if 0.0 < y { MulLt(x, 0.0, y); } else { MulLt(0.0, -x, -y); assert (-x) * (-y) == x * y; }
    }
  }

  lemma QuotientSign(x: real, y: real)
    requires x != 0.0 && y != 0.0
    ensures x / y != 0.0 && (x / y < 0.0 <==> (x < 0.0) != (y < 0.0))
  {
    var q := x / y;
    assert q * y == x;
    if q != 0.0 {
      ProductSign(q, y);
    }
  }

  lemma MulDelivers(a: F80, b: F80, ctl: Ctl, v: real)
    requires IsNormal(a) && IsNormal(b) && v == Val(a) * Val(b)
    ensures v != 0.0 && RoundsCorrectly(ctl, v, v < 0.0, MulCtl(a, b, ctl))
  {
    hide RoundsCorrectly;
    hide MulCtl;
    hide Val;
    MulDiv.MulCorrect(a, b, ctl);
    SignOfVal(a);
    SignOfVal(b);
    ProductSign(Val(a), Val(b));
  }

  lemma DivDelivers(a: F80, b: F80, ctl: Ctl, v: real)
    requires IsNormal(a) && IsNormal(b) && Val(b) != 0.0 && v == Val(a) / Val(b)
    ensures v != 0.0 && RoundsCorrectly(ctl, v, v < 0.0, DivCtl(a, b, ctl))
  {
    hide RoundsCorrectly;
    hide DivCtl;
    hide Val;
    MulDiv.DivCorrect(a, b, ctl);
    SignOfVal(a);
    SignOfVal(b);
    QuotientSign(Val(a), Val(b));
  }

  lemma SumDelivers(a: F80, b: F80, subtract: bool, ctl: Ctl, v: real)
    requires IsNormal(a) && IsNormal(b) && v == (if subtract then Val(a) - Val(b) else Val(a) + Val(b))
    ensures if v == 0.0 then Float80.AddSub(a, b, subtract, ctl) == (ZeroOf(false), NONE)
            else RoundsCorrectly(ctl, v, v < 0.0, Float80.AddSub(a, b, subtract, ctl))
  {
    hide RoundsCorrectly;
    hide Float80.AddSub;
    Sums.AddSubCorrect(a, b, subtract, ctl);
  }

  /** Theorem: every arithmetic instruction on normals delivers the correct rounding of the exact result. */
  lemma ApplyCorrect(op: Op, d: F80, s: F80, ctl: Ctl)
    requires IsNormal(d) && IsNormal(s)
    ensures WellFormed(d) && WellFormed(s) && Val(d) != 0.0 && Val(s) != 0.0
    ensures var v := Exact(op, Val(d), Val(s));
            if v == 0.0 then Apply(op, d, s, ctl) == (ZeroOf(false), NONE)
            else RoundsCorrectly(ctl, v, v < 0.0, Apply(op, d, s, ctl))
  {
    hide RoundsCorrectly;
    hide Float80.AddSub;
    hide MulCtl;
    hide DivCtl;
    hide Val;
    SignOfVal(d);
    SignOfVal(s);
    var v := Exact(op, Val(d), Val(s));
    match op
    case Add => SumDelivers(d, s, false, ctl, v);
    case Sub => SumDelivers(d, s, true, ctl, v);
    case Subr => SumDelivers(s, d, true, ctl, v);
    case Mul => MulDelivers(d, s, ctl, v);
    case Div => DivDelivers(d, s, ctl, v);
    case Divr => DivDelivers(s, d, ctl, v);
  }

  // ---- Infinities and zeros ----

  /** The order of magnitude of an ordinary operand: a zero, a number or an infinity. */
  function Grade(a: F80): int {
    match a.cls
    case Zero => -1
    case Inf => 1
    case _ => 0
  }

  /** Beyond every number, below every number, or undetermined. */
  function OfGrade(grade: int, sign: bool, exc: Exc): (F80, Exc) {
    if grade == 0 then (Indefinite(), IE) else if 0 < grade then (InfOf(sign), exc) else (ZeroOf(sign), NONE)
  }

  /** Theorem: grades add in a product, and one of an infinity and a zero is undetermined. */
  lemma ProductOfGrades(a: F80, b: F80, ctl: Ctl)
    requires Ordinary(a) && Ordinary(b) && (Grade(a) != 0 || Grade(b) != 0)
    ensures MulCtl(a, b, ctl) == OfGrade(Grade(a) + Grade(b), a.sign != b.sign, NONE)
  {
    hide NormalizeRound;
  }

  /** Theorem: grades subtract in a quotient; a number by a zero is an infinity and reports it. */
  lemma QuotientOfGrades(a: F80, b: F80, ctl: Ctl)
    requires WellFormed(b) && Ordinary(a) && Ordinary(b) && (Grade(a) != 0 || Grade(b) != 0)
    ensures DivCtl(a, b, ctl) ==
            OfGrade(Grade(a) - Grade(b), a.sign != b.sign, if Grade(a) == 0 && Grade(b) == -1 then ZE else NONE)
  {
    hide DivNormals;
  }

  /** Theorem: an infinity decides a sum, unless it meets the opposite one. */
  lemma SumWithInfinity(a: F80, b: F80, subtract: bool, ctl: Ctl)
    requires Ordinary(a) && Ordinary(b) && (a.cls.Inf? || b.cls.Inf?)
    ensures var t := b.sign != subtract;
            Float80.AddSub(a, b, subtract, ctl) ==
            if a.cls.Inf? && b.cls.Inf? && a.sign != t then (Indefinite(), IE)
            else (InfOf(if a.cls.Inf? then a.sign else t), NONE)
  {
    hide AddAligned;
  }

  // ---- What the register then holds ----

  lemma TinyOffGrid(y: real)
    requires y != 0.0 && Abs(y) < TwoTo(EMIN - 64)
    ensures !OnDenormalGrid(y)
  {
    if OnDenormalGrid(y) {
      var j: int :| y == GridPoint(j);
      ScaledValue(1, EMIN - 63);
      ScaledValue(0, EMIN - 63);
      ScaledNegates(1, EMIN - 63);
      TwoToMono(EMIN - 64, EMIN - 63);
      ScaledOrder(1, j, EMIN - 63);
      ScaledOrder(j, -1, EMIN - 63);
    }
  }

  lemma StoredZero(sign: bool)
    ensures FromBytes(ToBytes(ZeroOf(sign))) == ZeroOf(sign)
  {
    ThroughBytes(ZeroOf(sign));
  }

  lemma ZeroOnGrid()
    ensures OnDenormalGrid(0.0)
  {
    ScaledValue(0, EMIN - 63);
    assert GridPoint(0) == 0.0;
  }

  lemma StoredMaxFinite(sign: bool)
    ensures FromBytes(ToBytes(MaxFinite(sign))) == MaxFinite(sign)
    ensures Abs(Val(MaxFinite(sign))) < TwoTo(EMAX + 1)
  {
    StoredReadsBack(MaxFinite(sign));
    ExponentOfValue(P64 - 1, EMAX);
    Sums.Positive(P64 - 1, EMAX - 63);
  }

  lemma StoredInfinity(sign: bool)
    ensures FromBytes(ToBytes(InfOf(sign))) == InfOf(sign)
  {
    hide Encode;
    hide Decode;
    StoreInfinity(InfOf(sign));
    ThroughBytes(InfOf(sign));
  }

  lemma DeliveredStored(ctl: Ctl, x: real, y: real, sign: bool, r: (F80, Exc))
    requires Delivers(ctl, x, y, sign, r) && WellFormed(r.0)
    ensures Val(FromBytes(ToBytes(r.0))) == y <==>
            Abs(y) < TwoTo(EMAX + 1) && (TwoTo(EMIN) <= Abs(y) || OnDenormalGrid(y))
  {
    hide OnDenormalGrid;
    hide FromBytes;
    hide ToBytes;
    hide Encode;
    hide Decode;
    TwoToMono(EMIN - 64, EMIN);
    TwoToMono(EMIN, EMAX + 1);
    if TwoTo(EMAX + 1) <= Abs(y) {
      StoredInfinity(sign);
      StoredMaxFinite(sign);
    } else if Abs(y) < TwoTo(EMIN - 64) {
      StoredZero(sign);
      ZeroOnGrid();
      if y != 0.0 {
        TinyOffGrid(y);
      }
    } else {
      ThroughBytes(r.0);
      StoreIsExact(r.0);
      Sums.Positive(r.0.sig, r.0.exp - 63);
      RangeByExponent(r.0.sig, r.0.exp, EMIN);
    }
  }

  lemma ZeroRoundsToZero(mode: Mode, p: Width, y: real)
    requires CorrectlyRounded(mode, p, 0.0, y)
    ensures y == 0.0
  {
    ZeroIsFloat(p);
    SelfRounded(mode, p, 0.0);
    hide CorrectlyRounded;
    CorrectRoundingUnique(mode, p, 0.0, y, 0.0);
  }

  /**
   Theorem: the register holds the correctly rounded result exactly when that does not overflow and lies in the
   normal range or on the denormal grid. Below the normal range a result is rounded to full width first and
   truncated when it is encoded.
   */
  lemma StoredResultCorrectIff(op: Op, d: F80, s: F80, ctl: Ctl, y: real)
    requires IsNormal(d) && IsNormal(s) && Val(d) != 0.0 && Val(s) != 0.0
    requires CorrectlyRounded(ctl.rc, ctl.width, Exact(op, Val(d), Val(s)), y)
    ensures WellFormed(Apply(op, d, s, ctl).0)
    ensures Val(FromBytes(ToBytes(Apply(op, d, s, ctl).0))) == y <==>
            Abs(y) < TwoTo(EMAX + 1) && (TwoTo(EMIN) <= Abs(y) || OnDenormalGrid(y))
  {
    hide Val;
    hide Apply;
    hide CorrectlyRounded;
    hide Delivers;
    hide OnDenormalGrid;
    hide FromBytes;
    hide ToBytes;
    ApplyWellFormed(op, d, s, ctl);
    ApplyCorrect(op, d, s, ctl);
    var v, r := Exact(op, Val(d), Val(s)), Apply(op, d, s, ctl);
    if v == 0.0 {
      ZeroRoundsToZero(ctl.rc, ctl.width, y);
      StoredZero(false);
      ZeroOnGrid();
      ZeroIsZero();
    } else {
      var y': real :| CorrectlyRounded(ctl.rc, ctl.width, v, y') && Delivers(ctl, v, y', v < 0.0, r);
      CorrectRoundingUnique(ctl.rc, ctl.width, v, y, y');
      DeliveredStored(ctl, v, y, v < 0.0, r);
    }
  }

  lemma ZeroIsZero()
    ensures Val(ZeroOf(false)) == 0.0
  {
  }

  /** One unit above the least normal, halved: exact in 64 bits, and half a denormal unit is lost in the register. */
  lemma HalvedLosesAUnit(rc: Mode)
    ensures var d, s := F80(false, Normal, EMIN, P63 + 1), F80(false, Normal, -1, P63);
            var r := Apply(Mul, d, s, Ctl(rc, 64, true)).0;
            WellFormed(r) && Val(FromBytes(ToBytes(r))) != Val(d) * Val(s)
  {
    hide CorrectlyRounded;
    hide OnDenormalGrid;
    hide FromBytes;
    hide ToBytes;
    hide Apply;
    var d, s := F80(false, Normal, EMIN, P63 + 1), F80(false, Normal, -1, P63);
    var y := F80(false, Normal, EMIN - 1, P63 + 1);
    HalfOf(d, s, y);
    SignOfVal(y);
    SignOfVal(d);
    SignOfVal(s);
    UnroundedCorrectIff(y, Ctl(rc, 64, true));
    RangeByExponent(P63 + 1, EMIN - 1, EMIN);
    RangeByExponent(P63 + 1, EMIN - 1, EMAX + 1);
    GridByLowBits(false, P63 + 1, EMIN - 1);
    LowOne();
    assert Abs(Val(y)) < TwoTo(EMAX + 1);
    assert CorrectlyRounded(rc, 64, Val(y), Val(y));
    assert Exact(Mul, Val(d), Val(s)) == Val(y);
    StoredResultCorrectIff(Mul, d, s, Ctl(rc, 64, true), Val(y));
  }

  lemma HalfOf(d: F80, s: F80, y: F80)
    requires d == F80(false, Normal, EMIN, P63 + 1) && s == F80(false, Normal, -1, P63) && y == d.(exp := EMIN - 1)
    ensures Val(d) * Val(s) == Val(y)
  {
    hide Pow2;
    assert Val(s) == 0.5 by {
      assert Pow2(63) == P63 by { Pow2Values(); }
      ScaledValue(P63, -64);
      TwoToAddNat(-64, 63);
      TwoToStep(-1);
      TwoToZero();
    }
    ScaledValue(P63 + 1, EMIN - 63);
    ScaledValue(P63 + 1, EMIN - 64);
    TwoToStep(EMIN - 64);
  }

  lemma LowOne()
    ensures Low(P63 + 1, 1) != 0
  {
    ShrValue(P63 + 1, 1);
  }

  // ---- Adding a zero ----

  /** The significand has no bit below the width precision control selects. */
  predicate Fits(a: F80, p: Width) { p == 64 || Low(a.sig, 64 - p) == 0 }

  lemma RepresentableIff(a: F80, p: Width)
    requires IsNormal(a)
    ensures Representable(p, Val(a)) <==> Fits(a, p)
  {
    hide Pow2;
    hide Representable;
    var x := Scaled(a.sig, a.exp - 63);
    assert Pow2(64) == P64 && Pow2(63) == P63 by { Pow2Values(); }
    if p < 64 {
      PositionBrackets(p, x, a.sig, a.exp - 63, None, 64 - p);
      BracketRepresents(p, x, Discard(a.sig, 64 - p, None), a.exp - 63 + (64 - p), a.sign);
      DiscardedBits(a.sig, 64 - p);
    } else {
      KeepAllBrackets(64, x, a.sig, a.exp - 63, None, 0);
      BracketRepresents(64, x, Discard(a.sig, 0, None), a.exp - 63, a.sign);
    }
  }

  lemma DiscardedBits(m: nat, drop: nat)
    requires 0 < drop
    ensures Discard(m, drop, None).inexact <==> Low(m, drop) != 0
  {
  }

  lemma BracketRepresents(p: nat, x: real, d: Kept, u: int, sign: bool)
    requires 1 < p && BracketedBy(p, x, d, u)
    ensures d.inexact <==> !Representable(p, Signed(sign, x))
  {
    RoundSigned(Nearest, sign, p, x, d.sig, u, d.cmpHalf, d.inexact);
  }

  lemma SelfRounded(mode: Mode, p: nat, x: real)
    requires 0 < p
    ensures CorrectlyRounded(mode, p, x, x) <==> Representable(p, x)
  {
  }

  lemma UnroundedCorrectIff(a: F80, ctl: Ctl)
    requires IsNormal(a)
    ensures CorrectlyRounded(ctl.rc, ctl.width, Val(a), Val(a)) <==> Fits(a, ctl.width)
  {
    RepresentableIff(a, ctl.width);
    SelfRounded(ctl.rc, ctl.width, Val(a));
  }

  /**
   Theorem: adding a zero, on either side, returns the other operand as it is, negated when it is subtracted; that
   is correct rounding of the sum exactly when the operand fits.
   */
  lemma AddZeroCorrectIff(a: F80, zeroSign: bool, subtract: bool, ctl: Ctl)
    requires IsNormal(a)
    ensures var r := Float80.AddSub(a, ZeroOf(zeroSign), subtract, ctl);
            r == (a, NONE) && (CorrectlyRounded(ctl.rc, ctl.width, Val(a), Val(r.0)) <==> Fits(a, ctl.width))
    ensures var r := Float80.AddSub(ZeroOf(zeroSign), a, subtract, ctl);
            && r == (a.(sign := a.sign != subtract), NONE)
            && var v := if subtract then -Val(a) else Val(a);
               CorrectlyRounded(ctl.rc, ctl.width, v, Val(r.0)) <==> Fits(a, ctl.width)
  {
    hide CorrectlyRounded;
    hide Low;
    UnroundedCorrectIff(a, ctl);
    UnroundedCorrectIff(a.(sign := !a.sign), ctl);
  }

  /** With 24-bit precision, a 64-bit significand survives the addition of zero unrounded. */
  lemma AddZeroUnrounded(rc: Mode)
    ensures var a := F80(false, Normal, 0, P63 + 1);
            !CorrectlyRounded(rc, 24, Val(a), Val(Float80.AddSub(a, ZeroOf(false), false, Ctl(rc, 24, true)).0))
  {
    hide CorrectlyRounded;
    var a := F80(false, Normal, 0, P63 + 1);
    AddZeroCorrectIff(a, false, false, Ctl(rc, 24, true));
    LowBitOfOdd();
  }

  lemma LowBitOfOdd()
    ensures Low(P63 + 1, 40) != 0
  {
    ShrValue(P63 + 1, 40);
  }
}
