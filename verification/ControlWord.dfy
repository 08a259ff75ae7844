/**
 What the control word asks of an instruction, said of the number the word is: bits 11:10 select the rounding
 direction, bits 9:8 the width of the significand and bit 4 masks underflow.
 */
module ControlWord {
  import opened Options
  import opened Powers
  import opened Rounding
  import opened Float80
  import opened RoundingPath
  import opened Codec
  import opened IntegerConversion
  import opened Images
  import opened Operations

  // ---- The digits of a word ----

  lemma HalfDigit(b: nat, v: nat, d: nat)
    requires b < 2 && 0 < d
    ensures (b + 2 * v) / (2 * d) == v / d
  {
    var q, r := v / d, v % d;
    assert v == q * d + r;
    DivModUnique(b + 2 * v, 2 * d, q, b + 2 * r);
  }

  lemma LowDigit(b: nat, v: nat)
    requires b < 2
    ensures (b + 2 * v) / 1 % 2 == b
  {
  }

  /** Bit `i` of a word is digit `i` of its number. */
  lemma {:induction false} DigitOf(bits: seq<bool>, i: nat)
    requires i < |bits|
    ensures BitsValue(bits) / Pow2(i) % 2 == if bits[i] then 1 else 0
    decreases i
  {
    var b, v, n := if bits[0] then 1 else 0, BitsValue(bits[1..]), BitsValue(bits);
    assert n == b + 2 * v;
    hide BitsValue;
    if i == 0 {
      LowDigit(b, v);
    } else {
      DigitOf(bits[1..], i - 1);
      NextDigit(b, v, n, i);
    }
  }

  lemma NextDigit(b: nat, v: nat, n: nat, i: nat)
    requires b < 2 && n == b + 2 * v && 0 < i
    ensures n / Pow2(i) == v / Pow2(i - 1)
  {
    HalfDigit(b, v, Pow2(i - 1));
  }

  lemma DivTwice(n: nat, d: nat)
    requires 0 < d
    ensures n / (2 * d) == n / d / 2
  {
    var q: nat, r: nat := n / d, n % d;
    assert n == q * d + r;
    SplitQuotient(n, d, q / 2, q % 2, r, q);
  }

  lemma SplitQuotient(n: nat, d: nat, h: nat, b: nat, r: nat, q: nat)
    requires n == q * d + r && q == 2 * h + b && r < d && b < 2
    ensures n / (2 * d) == h
  {
    MulDistributes(2 * h, b, d);
    assert b * d <= d;
    DivModUnique(n, 2 * d, h, b * d + r);
  }

  lemma TwoDigits(m: nat)
    ensures m % 4 == m % 2 + 2 * (m / 2 % 2)
  {
  }

  lemma ControlFields(cw: Word16)
    ensures var n, one := BitsValue(cw), (b: bool) => if b then 1 else 0;
            && n / 1024 % 4 == one(cw[10]) + 2 * one(cw[11])
            && n / 256 % 4 == one(cw[8]) + 2 * one(cw[9])
            && n / 16 % 2 == one(cw[4])
  {
    hide BitsValue;
    var n := BitsValue(cw);
    SmallPowers();
    DigitOf(cw, 4);
    DigitOf(cw, 8);
    DigitOf(cw, 9);
    DigitOf(cw, 10);
    DigitOf(cw, 11);
    DivTwice(n, 256);
    DivTwice(n, 1024);
    TwoDigits(n / 256);
    TwoDigits(n / 1024);
  }

  lemma SmallPowers()
    ensures Pow2(4) == 16 && Pow2(8) == 256 && Pow2(9) == 512 && Pow2(10) == 1024 && Pow2(11) == 2048
  {
    Pow2Add(4, 4);
    Pow2Add(8, 1);
    Pow2Add(9, 1);
    Pow2Add(10, 1);
  }

  // ---- Rounding as the number asks ----

  /** The bits of significand that bits 9:8 select; 01 is reserved and taken as 11. */
  function WidthAsked(n: nat): nat {
    if n / 256 % 4 == 0 then 24 else if n / 256 % 4 == 2 then 53 else 64
  }

  /**
   `y` is `v` rounded as the control word of number `n` asks: of the values that fit the width, the largest not
   above `v`, the least not below it, the largest in magnitude on the side of zero, or the nearest, ties to even.
   */
  ghost predicate RoundsAs(n: nat, v: real, y: real) {
    var p := WidthAsked(n);
    && Representable(p, y)
    && (n / 1024 % 4 == 1 ==> y <= v && forall z: real | z in Floats(p) && z <= v :: z <= y)
    && (n / 1024 % 4 == 2 ==> v <= y && forall z: real | z in Floats(p) && v <= z :: y <= z)
    && (n / 1024 % 4 == 3 ==>
          && (0.0 <= v ==> 0.0 <= y <= v) && (v <= 0.0 ==> v <= y <= 0.0)
          && forall z: real | z in Floats(p) && Abs(z) <= Abs(v) :: Abs(z) <= Abs(y))
    && (n / 1024 % 4 == 0 ==> forall z: real | z in Floats(p) && z != y ::
          Abs(v - y) < Abs(v - z) || (Abs(v - y) == Abs(v - z) && EvenSignificand(p, y)))
  }

  /** Theorem: the decoded control word rounds as its number asks. */
  lemma ControlMeaning(cw: Word16, v: real, y: real)
    ensures CorrectlyRounded(CtlOf(cw).rc, CtlOf(cw).width, v, y) <==> RoundsAs(BitsValue(cw), v, y)
    ensures CtlOf(cw).masksUnderflow <==> BitsValue(cw) / 16 % 2 == 1
  {
    hide BitsValue;
    hide Representable;
    hide EvenSignificand;
    ControlFields(cw);
  }

  /** Theorem: every exact result has a rounding the control word asks for, and only one. */
  lemma RoundedResult(op: Op, d: F80, s: F80, cw: Word16) returns (y: real)
    requires IsNormal(d) && IsNormal(s) && Val(d) != 0.0 && Val(s) != 0.0
    ensures var v := Exact(op, Val(d), Val(s));
            RoundsAs(BitsValue(cw), v, y) && forall z: real | RoundsAs(BitsValue(cw), v, z) :: z == y
  {
    hide Val;
    hide Apply;
    hide CtlOf;
    hide CorrectlyRounded;
    hide Delivers;
    hide RoundsAs;
    var ctl, v := CtlOf(cw), Exact(op, Val(d), Val(s));
    ApplyCorrect(op, d, s, ctl);
    if v == 0.0 {
      ZeroIsFloat(ctl.width);
      SelfRounded(ctl.rc, ctl.width, 0.0);
      y := 0.0;
    } else {
      y :| CorrectlyRounded(ctl.rc, ctl.width, v, y) && Delivers(ctl, v, y, v < 0.0, Apply(op, d, s, ctl));
    }
    ControlMeaning(cw, v, y);
    forall z: real | RoundsAs(BitsValue(cw), v, z)
      ensures z == y
    {
      ControlMeaning(cw, v, z);
      CorrectRoundingUnique(ctl.rc, ctl.width, v, y, z);
    }
  }

  /**
   Theorem: with `y` the exact result rounded as the control word asks, the register an arithmetic instruction on
   normals leaves holds `y` exactly when `y` does not overflow and lies in the normal range or on the denormal grid.
   */
  lemma RegisterRoundsAs(op: Op, d: F80, s: F80, cw: Word16, y: real)
    requires IsNormal(d) && IsNormal(s) && Val(d) != 0.0 && Val(s) != 0.0
    requires RoundsAs(BitsValue(cw), Exact(op, Val(d), Val(s)), y)
    ensures WellFormed(Apply(op, d, s, CtlOf(cw)).0)
    ensures Val(FromBytes(ToBytes(Apply(op, d, s, CtlOf(cw)).0))) == y <==> CanHold(y)
  {
    hide Val;
    hide Apply;
    hide CtlOf;
    hide CorrectlyRounded;
    hide RoundsAs;
    hide FromBytes;
    hide ToBytes;
    hide OnDenormalGrid;
    ControlMeaning(cw, Exact(op, Val(d), Val(s)), y);
    StoredResultCorrectIff(op, d, s, CtlOf(cw), y);
  }

  /** A register can hold `y`, which has at most 64 bits. */
  ghost predicate CanHold(y: real) {
    Abs(y) < TwoTo(EMAX + 1) && (TwoTo(EMIN) <= Abs(y) || OnDenormalGrid(y))
  }

  /**
   Theorem: with `y` the result rounded as asked, underflow is reported exactly when that is below the normal range
   and, if bit 4 masks it, inexact as well.
   */
  lemma UnderflowReported(op: Op, d: F80, s: F80, cw: Word16, y: real)
    requires IsNormal(d) && IsNormal(s) && Val(d) != 0.0 && Val(s) != 0.0
    requires Exact(op, Val(d), Val(s)) != 0.0 && RoundsAs(BitsValue(cw), Exact(op, Val(d), Val(s)), y)
    ensures WellFormed(d) && WellFormed(s)
    ensures var e := Apply(op, d, s, CtlOf(cw)).1;
            e.ue <==> Abs(y) < TwoTo(EMIN) && (BitsValue(cw) / 16 % 2 == 0 || e.pe)
  {
    hide Val;
    hide Apply;
    hide CtlOf;
    hide CorrectlyRounded;
    hide RoundsAs;
    var ctl, v := CtlOf(cw), Exact(op, Val(d), Val(s));
    ApplyCorrect(op, d, s, ctl);
    ControlMeaning(cw, v, y);
    var y': real :| CorrectlyRounded(ctl.rc, ctl.width, v, y') && Delivers(ctl, v, y', v < 0.0, Apply(op, d, s, ctl));
    CorrectRoundingUnique(ctl.rc, ctl.width, v, y, y');
    UnderflowOf(ctl, v, y, v < 0.0, Apply(op, d, s, ctl));
  }

  lemma UnderflowOf(ctl: Ctl, x: real, y: real, sign: bool, r: (F80, Exc))
    requires Delivers(ctl, x, y, sign, r)
    ensures r.1.ue <==> Abs(y) < TwoTo(EMIN) && (!ctl.masksUnderflow || r.1.pe)
  {
    hide OnDenormalGrid;
    TwoToMono(EMIN - 64, EMIN);
    TwoToMono(EMIN, EMAX + 1);
  }

  // ---- Rounding to an integer ----

  /** `k` is `v` rounded to an integer in the direction bits 11:10 ask for. */
  ghost predicate RoundsToAs(direction: nat, v: real, k: int) {
    var r := k as real;
    && (direction == 1 ==> r <= v < r + 1.0)
    && (direction == 2 ==> r - 1.0 < v <= r)
    && (direction == 3 ==> (0.0 <= v ==> r <= v < r + 1.0) && (v <= 0.0 ==> r - 1.0 < v <= r))
    && (direction == 0 ==> r - 0.5 <= v <= r + 0.5 && (k % 2 == 1 ==> r - 0.5 < v < r + 0.5))
  }

  lemma DirectedInteger(mode: Mode, v: real, k: int)
    requires RoundsToInteger(mode, v, k)
    ensures RoundsToAs(match mode case Nearest => 0 case Down => 1 case Up => 2 case TowardZero => 3, v, k)
  {
    InIntegers(k);
    InIntegers(k + 1);
    InIntegers(k - 1);
    assert (k + 1) as real == k as real + 1.0 && (k - 1) as real == k as real - 1.0;
  }

  /** The direction of `fist`: as the control word asks, or toward zero for the truncating forms. */
  function DirectionAsked(n: nat, truncate: bool): nat {
    if truncate then 3 else n / 1024 % 4
  }

  lemma DirectionMeaning(cw: Word16)
    ensures BitsValue(cw) / 1024 % 4 ==
            match RoundingControl(cw) case Nearest => 0 case Down => 1 case Up => 2 case TowardZero => 3
  {
    hide BitsValue;
    ControlFields(cw);
  }

  /** Theorem: converting a finite number gives the integer the control word asks for, or the indefinite. */
  lemma IntegerRoundsAs(a: F80, cw: Word16, truncate: bool)
    requires a.cls.Zero? || IsNormal(a)
    ensures exists k: int ::
              && RoundsToAs(DirectionAsked(BitsValue(cw), truncate), Val(a), k)
              && ToI64(a, if truncate then TowardZero else RoundingControl(cw)) == if FitsI64(k) then k else I64_MIN
  {
    hide RoundsToInteger;
    hide ToI64;
    hide Val;
    hide BitsValue;
    hide RoundsToAs;
    var rc := if truncate then TowardZero else RoundingControl(cw);
    var k: int := 0;
    if a.cls.Zero? {
      ZeroRounds(rc);
      ZeroHasNoValue(a);
    } else {
      k := RoundedIntegerExists(a, rc);
    }
    ToI64Correct(a, rc, k);
    DirectedInteger(rc, Val(a), k);
    DirectionMeaning(cw);
  }

  lemma ZeroHasNoValue(a: F80)
    requires a.cls.Zero?
    ensures Val(a) == 0.0
  {
  }
}
