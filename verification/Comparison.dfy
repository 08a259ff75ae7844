/** Comparison of 80-bit numbers by an ordered integer key, and exactly where that key orders them. */
module Comparison {
  import opened Powers
  import opened Rounding
  import opened Float80
  import opened RoundingPath
  import Sums = AddSub

  const KEY_INF: int := 0x3fff_ffff_ffff_ffff_ffff_ffff_ffff_ffff

  function Magnitude(a: F80): int {
    match a.cls
    case Zero => 0
    case Inf => KEY_INF
    case Normal => a.exp * P64 + a.sig
    case _ => 0
  }

  function OrderedKey(a: F80): int {
    if a.sign then -Magnitude(a) else Magnitude(a)
  }

  /** Zero, parity and carry flags; unordered sets all three. */
  function CompareFlags(a: F80, b: F80): (bool, bool, bool) {
    if a.cls.Nan? || b.cls.Nan? then (true, true, true)
    else
      var ka, kb := OrderedKey(a), OrderedKey(b);
      (ka == kb, false, ka < kb)
  }

  // ---- Order of the numbers themselves ----

  ghost predicate Finite(a: F80) { a.cls.Zero? || IsNormal(a) }

  /** The flags say what the order of the two numbers is. */
  ghost predicate Truthful(a: F80, b: F80) {
    CompareFlags(a, b) == (Val(a) == Val(b), false, Val(a) < Val(b))
  }

  lemma HigherExponentIsLarger(sa: nat, ea: int, sb: nat, eb: int)
    requires P63 <= sa < P64 && P63 <= sb < P64 && ea < eb
    ensures Scaled(sa, ea - 63) < Scaled(sb, eb - 63)
  {
    ExponentOfValue(sa, ea);
    ExponentOfValue(sb, eb);
    TwoToMono(ea + 1, eb);
  }

  /** Magnitudes of normals are ordered by exponent, then by significand. */
  lemma MagnitudeOrder(sa: nat, ea: int, sb: nat, eb: int)
    requires P63 <= sa < P64 && P63 <= sb < P64
    ensures Scaled(sa, ea - 63) < Scaled(sb, eb - 63) <==> ea * P64 + sa < eb * P64 + sb
    ensures Scaled(sa, ea - 63) == Scaled(sb, eb - 63) <==> ea * P64 + sa == eb * P64 + sb
  {
    if ea < eb {
      HigherExponentIsLarger(sa, ea, sb, eb);
    } else if eb < ea {
      HigherExponentIsLarger(sb, eb, sa, ea);
    } else {
      ScaledOrder(sa, sb, ea - 63);
      ScaledOrder(sb, sa, ea - 63);
    }
  }

  /** Where the key orders two finite numbers as their values are ordered. */
  predicate KeyOrders(a: F80, b: F80) {
    if a.cls.Zero? && b.cls.Zero? then true
    else if a.cls.Zero? then b.exp >= 0
    else if b.cls.Zero? then a.exp >= 0
    else a.sign == b.sign || a.exp + b.exp >= 0 || (a.exp + b.exp == -1 && a.sig + b.sig > P64)
  }

  lemma SameSign(a: F80, b: F80)
    requires IsNormal(a) && IsNormal(b) && a.sign == b.sign
    ensures Truthful(a, b)
  {
    MagnitudeOrder(a.sig, a.exp, b.sig, b.exp);
    MagnitudeOrder(b.sig, b.exp, a.sig, a.exp);
  }

  lemma OppositeSigns(a: F80, b: F80)
    requires IsNormal(a) && IsNormal(b) && a.sign != b.sign
    ensures Truthful(a, b) <==> KeyOrders(a, b)
  {
    Sums.Positive(a.sig, a.exp - 63);
    Sums.Positive(b.sig, b.exp - 63);
    var e := a.exp + b.exp;
    assert Magnitude(a) + Magnitude(b) == e * P64 + a.sig + b.sig;
  }

  lemma AgainstZero(a: F80, b: F80)
    requires Finite(a) && Finite(b) && (a.cls.Zero? || b.cls.Zero?)
    ensures Truthful(a, b) <==> KeyOrders(a, b)
  {
    if a.cls.Normal? {
      Sums.Positive(a.sig, a.exp - 63);
    }
    if b.cls.Normal? {
      Sums.Positive(b.sig, b.exp - 63);
    }
  }

  /** Theorem: a comparison of finite numbers reports their order exactly when the key orders them. */
  lemma CompareTruthfulIff(a: F80, b: F80)
    requires Finite(a) && Finite(b)
    ensures Truthful(a, b) <==> KeyOrders(a, b)
  {
    hide Truthful;
    if a.cls.Zero? || b.cls.Zero? {
      AgainstZero(a, b);
    } else if a.sign == b.sign {
      SameSign(a, b);
    } else {
      OppositeSigns(a, b);
    }
  }

  /** One half compares below zero, and minus one half equal to one. */
  lemma HalfComparesBelowZero()
    ensures var half, one := F80(false, Normal, -1, P63), F80(false, Normal, 0, P63);
            && CompareFlags(half, ZeroOf(false)) == (false, false, true)
            && CompareFlags(half.(sign := true), one) == (true, false, false)
            && !Truthful(half, ZeroOf(false)) && !Truthful(half.(sign := true), one)
  {
    var half, one := F80(false, Normal, -1, P63), F80(false, Normal, 0, P63);
    CompareTruthfulIff(half, ZeroOf(false));
    CompareTruthfulIff(half.(sign := true), one);
  }

  /** Infinities are ordered against every finite number in range; a pair is unordered exactly when one is a NaN. */
  lemma SpecialsOrdered(a: F80, sign: bool)
    requires Finite(a) && EMIN - 64 <= a.exp <= EMAX
    ensures CompareFlags(InfOf(sign), a) == (false, false, sign)
    ensures CompareFlags(a, InfOf(sign)) == (false, false, !sign)
    ensures CompareFlags(InfOf(sign), InfOf(sign)) == (true, false, false)
    ensures forall x, y: F80 :: CompareFlags(x, y) == (true, true, true) <==> x.cls.Nan? || y.cls.Nan?
  {
  }
}
