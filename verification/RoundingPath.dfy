/**
 The rounding path delivers the correctly rounded value. `Delivers` says, for every range the
 rounded value can fall in, what comes back and which exceptions are reported; each operation's
 theorem instantiates it.
 */
module RoundingPath {
  import opened Options
  import opened Powers
  import opened Rounding
  import opened Float80

  ghost function GridPoint(j: int): real {
    Scaled(j, EMIN - 63)
  }

  /** `y` can be encoded as a denormal without losing bits. */
  ghost predicate OnDenormalGrid(y: real) {
    exists j: int :: y == GridPoint(j)
  }

  /** The outcome owed to `y`, the correct rounding with unbounded exponent; `exact` if it rounded nothing away. */
  ghost predicate DeliversValue(ctl: Ctl, exact: bool, y: real, sign: bool, r: (F80, Exc)) {
    var mag := Abs(y);
    if TwoTo(EMAX + 1) <= mag then
      r == (if OverflowsToInf(ctl.rc, sign) then InfOf(sign) else MaxFinite(sign), OE.With(PE))
    else if mag < TwoTo(EMIN - 64) then
      r == (ZeroOf(sign), UE.With(PE))
    else
      && IsNormal(r.0) && r.0.sign == sign && Val(r.0) == y
      && EMIN - 64 <= r.0.exp <= EMAX
      && (r.1.pe <==> !exact || (mag < TwoTo(EMIN) && !OnDenormalGrid(y)))
      && (r.1.ue <==> mag < TwoTo(EMIN) && (!ctl.masksUnderflow || r.1.pe))
      && r.1.(pe := false, ue := false) == NONE
  }

  ghost predicate Delivers(ctl: Ctl, x: real, y: real, sign: bool, r: (F80, Exc)) {
    DeliversValue(ctl, x == y, y, sign, r)
  }

  /** `r` is what correct rounding of the exact value `x` owes under the control word. */
  ghost predicate RoundsCorrectly(ctl: Ctl, x: real, sign: bool, r: (F80, Exc)) {
    exists y: real :: CorrectlyRounded(ctl.rc, ctl.width, x, y) && Delivers(ctl, x, y, sign, r)
  }

  // ---- Finish: range checks on the exponent are range checks on the value ----

  lemma ExponentOfValue(sig: nat, exp: int)
    requires P63 <= sig < P64
    ensures TwoTo(exp) <= Scaled(sig, exp - 63) < TwoTo(exp + 1)
  {
    hide Pow2;
    Pow2Values();
    ScaledOrder(P63, sig, exp - 63);
    ScaledOrder(sig, P64, exp - 63);
    ScaledValue(P63, exp - 63);
    ScaledValue(P64, exp - 63);
    TwoToAddNat(exp - 63, 63);
    TwoToAddNat(exp - 63, 64);
  }

  lemma RangeByExponent(sig: nat, exp: int, bound: int)
    requires P63 <= sig < P64
    ensures TwoTo(bound) <= Scaled(sig, exp - 63) <==> bound <= exp
  {
    ExponentOfValue(sig, exp);
    if bound <= exp {
      TwoToMono(bound, exp);
    } else {
      TwoToMono(exp + 1, bound);
    }
  }

  lemma ScaledInjective(j: int, k: int, u: int)
    requires Scaled(j, u) == Scaled(k, u)
    ensures j == k
  {
    ScaledOrder(j, k, u);
    ScaledOrder(k, j, u);
  }

  lemma GridByLowBits(sign: bool, sig: nat, exp: int)
    requires 0 < sig < P64 && exp < EMIN
    ensures OnDenormalGrid(Signed(sign, Scaled(sig, exp - 63))) <==>
            EMIN - exp < 64 && Low(sig, EMIN - exp) == 0
  {
    var shift := EMIN - exp;
    ScaledNegates(sig, exp - 63);
    var n: int := if sign then -(sig as int) else sig;
    assert OnDenormalGrid(Scaled(n, exp - 63)) <==> n % Pow2(shift) == 0 by { GridMultiples(n, shift, exp - 63); }
    DivisibleEitherSign(sig, Pow2(shift));
    ShrValue(sig, shift);
    if 64 <= shift {
      Pow2Values();
      Pow2Mono(64, shift);
      DivModUnique(sig, Pow2(shift), 0, sig);
    }
  }

  lemma GridMultiples(n: int, shift: nat, u: int)
    requires u + shift == EMIN - 63
    ensures OnDenormalGrid(Scaled(n, u)) <==> n % Pow2(shift) == 0
  {
    if OnDenormalGrid(Scaled(n, u)) {
      var j: int :| Scaled(n, u) == GridPoint(j);
      CoarserIsMultiple(j, EMIN - 63, u);
      ScaledInjective(n, j * Pow2(shift), u);
      DivModUnique(n, Pow2(shift), j, 0);
    }
    if n % Pow2(shift) == 0 {
      var j := n / Pow2(shift);
      CoarserIsMultiple(j, EMIN - 63, u);
      assert n == j * Pow2(shift);
      assert Scaled(n, u) == GridPoint(j);
    }
  }

  lemma DivisibleEitherSign(n: int, d: nat)
    requires 0 < d
    ensures n % d == 0 <==> -n % d == 0
  {
    if n % d == 0 {
      DivModUnique(-n, d, -(n / d), 0);
    }
    if -n % d == 0 {
      DivModUnique(n, d, -(-n / d), 0);
    }
  }

  lemma FinishDelivers(sign: bool, exp: int, sig: nat, ctl: Ctl, inexact: bool)
    requires P63 <= sig < P64
    ensures DeliversValue(ctl, !inexact, Signed(sign, Scaled(sig, exp - 63)), sign, Finish(sign, exp, sig, ctl, inexact))
  {
    ExponentOfValue(sig, exp);
    RangeByExponent(sig, exp, EMAX + 1);
    RangeByExponent(sig, exp, EMIN);
    RangeByExponent(sig, exp, EMIN - 64);
    if exp < EMIN {
      GridByLowBits(sign, sig, exp);
    }
  }

  // ---- Where the exact magnitude lies, as the integer `m` and `frac` describe it ----

  /** Comparing `x` with `c` units of 2^e gives what comparing `m` and its fraction with `c` gives. */
  ghost predicate Sees(x: real, m: nat, e: int, frac: Option<Ordering>, c: int) {
    if c < m || (c == m && frac.Some?) then Scaled(c, e) < x
    else if c == m then Scaled(c, e) == x
    else x < Scaled(c, e)
  }

  /** `x` is `m` units of 2^e, plus the fraction of a unit that `frac` places against one half. */
  ghost predicate Position(x: real, m: nat, e: int, frac: Option<Ordering>) {
    match frac
    case None => x == Scaled(m, e)
    case Some(o) => Between(x, Scaled(m, e), Scaled(m + 1, e), o, true)
  }

  /** `x` is strictly within a unit of the odd `m`: what or-ing lost bits into the lowest bit leaves. */
  ghost predicate Jammed(x: real, m: nat, e: int) {
    m % 2 == 1 && Scaled(m - 1, e) < x < Scaled(m + 1, e)
  }

  lemma PositionSees(x: real, m: nat, e: int, frac: Option<Ordering>, c: int)
    requires Position(x, m, e, frac)
    ensures Sees(x, m, e, frac, c)
  {
    ScaledOrder(c, m, e);
    ScaledOrder(m, c, e);
    ScaledOrder(m + 1, c, e);
  }

  lemma JammedSees(x: real, m: nat, e: int, c: int)
    requires Jammed(x, m, e) && c % 2 == 0
    ensures Sees(x, m, e, None, c)
  {
    ScaledOrder(c, m - 1, e);
    ScaledOrder(m + 1, c, e);
  }

  ghost predicate BracketedBy(p: nat, x: real, d: Kept, u: int)
    requires 0 < p
  {
    Bracketed(p, x, d.sig, u, d.cmpHalf, d.inexact)
  }

  /** Discarding `drop` low bits of `m` keeps all that rounding needs. */
  lemma DiscardBrackets(p: nat, x: real, m: nat, e: int, frac: Option<Ordering>, drop: nat)
    requires 0 < p && 0 < drop && Pow2(p - 1 + drop) <= m < Pow2(p + drop)
    requires var base := Shl(Shr(m, drop), drop);
             && Sees(x, m, e, frac, base) && Sees(x, m, e, frac, base + Pow2(drop - 1))
             && Sees(x, m, e, frac, base + Pow2(drop))
    ensures BracketedBy(p, x, Discard(m, drop, frac), e + drop)
  {
    var k := Shr(m, drop);
    ShrRange(m, p - 1, p, drop);
    ShrBounds(m, drop);
    ShlNext(k, drop);
    ScaledShl(k, drop, e);
    ScaledShl(k + 1, drop, e);
    Midpoint(Shl(k, drop), Pow2(drop - 1), e);
  }

  lemma Midpoint(c: int, h: int, e: int)
    ensures Scaled(c, e) + Scaled(c + 2 * h, e) == 2.0 * Scaled(c + h, e)
  {
    var t := TwoTo(e);
    ScaledValue(c, e);
    ScaledValue(c + h, e);
    ScaledValue(c + 2 * h, e);
    assert Scaled(c + h, e) == c as real * t + h as real * t;
    assert Scaled(c + 2 * h, e) == c as real * t + 2.0 * (h as real * t);
  }

  lemma PositionBrackets(p: nat, x: real, m: nat, e: int, frac: Option<Ordering>, drop: nat)
    requires 0 < p && 0 < drop && Pow2(p - 1 + drop) <= m < Pow2(p + drop) && Position(x, m, e, frac)
    ensures BracketedBy(p, x, Discard(m, drop, frac), e + drop)
  {
    var base := Shl(Shr(m, drop), drop);
    PositionSees(x, m, e, frac, base);
    PositionSees(x, m, e, frac, base + Pow2(drop - 1));
    PositionSees(x, m, e, frac, base + Pow2(drop));
    DiscardBrackets(p, x, m, e, frac, drop);
  }

  lemma JammedBrackets(p: nat, x: real, m: nat, e: int, drop: nat)
    requires 0 < p && 1 < drop && Pow2(p - 1 + drop) <= m < Pow2(p + drop) && Jammed(x, m, e)
    ensures BracketedBy(p, x, Discard(m, drop, None), e + drop)
  {
    hide Discard;
    hide Shr;
    hide Shl;
    hide BracketedBy;
    hide Scaled;
    var base := Shl(Shr(m, drop), drop);
    assert Pow2(drop) == 2 * Pow2(drop - 1) && Pow2(drop - 1) == 2 * Pow2(drop - 2);
    ShlUnfold(Shr(m, drop), drop - 1);
    JammedSees(x, m, e, base);
    JammedSees(x, m, e, base + Pow2(drop - 1));
    JammedSees(x, m, e, base + Pow2(drop));
    DiscardBrackets(p, x, m, e, None, drop);
  }

  // ---- From the bracket to the delivered result ----

  /** The carry and the final shift to bit 63 leave the rounded value unchanged. */
  lemma IncrementValue(k: nat, exp: int, p: nat, up: bool)
    requires 1 < p <= 64 && Pow2(p - 1) <= k < Pow2(p)
    ensures var (kept, exp') := Increment(k, exp, p, up);
            && Pow2(p - 1) <= kept < Pow2(p)
            && Scaled(kept, exp' - (p - 1)) == Scaled(if up then k + 1 else k, exp - (p - 1))
  {
    assert P63 == Pow2(63) && P64 == Pow2(64) by { Pow2Values(); }
    assert Pow2(p) == 2 * Pow2(p - 1);
    if up {
      ShrIsZero(k + 1, p);
      HalveSignificand(Pow2(p - 1), exp - (p - 1));
    }
  }

  lemma TopAligned(kept: nat, exp: int, p: nat)
    requires 1 < p <= 64 && Pow2(p - 1) <= kept < Pow2(p)
    ensures P63 <= Shl(kept, 64 - p) < P64
    ensures Scaled(Shl(kept, 64 - p), exp - 63) == Scaled(kept, exp - (p - 1))
  {
    hide Pow2;
    hide Shl;
    hide Scaled;
    assert P63 == Pow2(63) && P64 == Pow2(64) by { Pow2Values(); }
    ScaledShl(kept, 64 - p, exp - 63);
    ShlOfPow2(p - 1, 64 - p);
    ShlOfPow2(p, 64 - p);
    ShlMono(Pow2(p - 1), kept, 64 - p);
    ShlMono(kept, Pow2(p), 64 - p);
  }

  /** The value `RoundKept` rounds to. */
  ghost function Rounded(sign: bool, d: Kept, u: int, mode: Mode): real {
    var up := RoundsUp(mode, sign, d.sig % 2 == 1, d.cmpHalf, d.inexact);
    Signed(sign, Scaled(if up then d.sig + 1 else d.sig, u))
  }

  lemma RoundFieldValue(sign: bool, exp: int, d: Kept, ctl: Ctl)
    requires Pow2(ctl.width - 1) <= d.sig < Pow2(ctl.width)
    ensures var (sig, exp') := RoundField(sign, exp, d, ctl);
            P63 <= sig < P64 && Rounded(sign, d, exp - (ctl.width - 1), ctl.rc) == Signed(sign, Scaled(sig, exp' - 63))
  {
    var p: nat := ctl.width;
    var up := RoundsUp(ctl.rc, sign, d.sig % 2 == 1, d.cmpHalf, d.inexact);
    var (kept, exp') := Increment(d.sig, exp, p, up);
    IncrementValue(d.sig, exp, p, up);
    TopAligned(kept, exp', p);
  }

  lemma BracketDelivers(sign: bool, exp: int, d: Kept, ctl: Ctl, x: real)
    requires BracketedBy(ctl.width, x, d, exp - (ctl.width - 1))
    ensures RoundsCorrectly(ctl, Signed(sign, x), sign, RoundKept(sign, exp, d, ctl))
  {
    hide Pow2;
    hide CorrectlyRounded;
    hide RoundField;
    hide Finish;
    var u := exp - (ctl.width - 1);
    var y := Rounded(sign, d, u, ctl.rc);
    RoundSigned(ctl.rc, sign, ctl.width, x, d.sig, u, d.cmpHalf, d.inexact);
    RoundFieldValue(sign, exp, d, ctl);
    var (sig, exp') := RoundField(sign, exp, d, ctl);
    FinishDelivers(sign, exp', sig, ctl, d.inexact);
    assert Delivers(ctl, Signed(sign, x), y, sign, RoundKept(sign, exp, d, ctl));
  }

  /** Theorem: the rounding path is correct for an integer value, or one with a known fraction above it. */
  lemma NormalizeRoundCorrect(sign: bool, refExp: int, m: nat, frac: Option<Ordering>, ctl: Ctl, x: real)
    requires 0 < m && Position(x, m, refExp - 127, frac)
    requires frac.None? || Pow2(ctl.width - 1) <= m
    ensures RoundsCorrectly(ctl, Signed(sign, x), sign, NormalizeRound(sign, refExp, m, frac, ctl))
  {
    hide Pow2;
    hide RoundsCorrectly;
    hide Discard;
    hide RoundKept;
    var p: nat, e := ctl.width, refExp - 127;
    var hb: int := TopBit(m);
    var drop: int := hb - (p - 1);
    if 0 < drop {
      PositionBrackets(p, x, m, e, frac, drop);
    } else {
      KeepAllBrackets(p, x, m, e, frac, -drop);
    }
    BracketDelivers(sign, refExp - (127 - hb), Discard(m, drop, frac), ctl, x);
  }

  lemma KeepAllBrackets(p: nat, x: real, m: nat, e: int, frac: Option<Ordering>, sh: nat)
    requires sh < p && Pow2(p - 1 - sh) <= m < Pow2(p - sh)
    requires Position(x, m, e, frac) && (frac.None? || Pow2(p - 1) <= m)
    ensures BracketedBy(p, x, Discard(m, -(sh as int), frac), e - sh)
  {
    hide Scaled;
    if 0 < sh {
      if frac.Some? {
        Pow2Mono(p - sh, p - 1);
      }
      var k := Shl(m, sh);
      ShlOfPow2(p - 1 - sh, sh);
      ShlOfPow2(p - sh, sh);
      ShlMono(Pow2(p - 1 - sh), m, sh);
      ShlMono(m, Pow2(p - sh), sh);
      ScaledShl(m, sh, e - sh);
      ScaledOrder(k, k + 1, e - sh);
    } else {
      ScaledOrder(m, m + 1, e);
    }
  }

  /** Theorem: a jammed low bit never changes the decision, two or more places below the kept field. */
  lemma JammedRoundCorrect(sign: bool, refExp: int, m: nat, ctl: Ctl, x: real)
    requires Pow2(ctl.width + 1) <= m && Jammed(x, m, refExp - 127)
    ensures RoundsCorrectly(ctl, Signed(sign, x), sign, NormalizeRound(sign, refExp, m, None, ctl))
  {
    hide Pow2;
    hide RoundsCorrectly;
    hide Discard;
    hide RoundKept;
    var p: nat, e := ctl.width, refExp - 127;
    var hb: int := TopBit(m);
    TopBitAtLeast(m, p + 1);
    var drop: int := hb - (p - 1);
    JammedBrackets(p, x, m, e, drop);
    BracketDelivers(sign, refExp - (127 - hb), Discard(m, drop, None), ctl, x);
  }

  /** `NormalizeRoundCorrect` for a caller that knows the exact value and the result under other names. */
  lemma YieldsCorrectly(sign: bool, refExp: int, m: nat, frac: Option<Ordering>, ctl: Ctl, x: real,
                        v: real, r: (F80, Exc))
    requires 0 < m && Position(x, m, refExp - 127, frac)
    requires frac.None? || Pow2(ctl.width - 1) <= m
    requires v == Signed(sign, x) && r == NormalizeRound(sign, refExp, m, frac, ctl)
    ensures RoundsCorrectly(ctl, v, sign, r)
  {
    hide NormalizeRound;
    hide RoundsCorrectly;
    NormalizeRoundCorrect(sign, refExp, m, frac, ctl, x);
  }

  lemma JammedYieldsCorrectly(sign: bool, refExp: int, m: nat, ctl: Ctl, x: real, v: real, r: (F80, Exc))
    requires Pow2(ctl.width + 1) <= m && Jammed(x, m, refExp - 127)
    requires v == Signed(sign, x) && r == NormalizeRound(sign, refExp, m, None, ctl)
    ensures RoundsCorrectly(ctl, v, sign, r)
  {
    hide NormalizeRound;
    hide RoundsCorrectly;
    JammedRoundCorrect(sign, refExp, m, ctl, x);
  }

  lemma WidthBounds(p: Width)
    ensures Pow2(p - 1) <= P63 && Pow2(p + 1) <= 2 * P64
  {
    assert Pow2(63) == P63 && Pow2(64) == P64 by { Pow2Values(); }
    Pow2Mono(p - 1, 63);
    Pow2Mono(p, 64);
  }
}
