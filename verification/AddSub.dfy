/**
 Addition and subtraction of normals are correctly rounded at every exponent distance: neither the
 jammed sticky bit, nor the halving on a carry, nor cancellation changes the rounding decision.
 */
module AddSub {
  import opened Options
  import opened Powers
  import opened Rounding
  import opened Float80
  import opened RoundingPath

  lemma ScaledSum(j: int, k: int, u: int)
    ensures Scaled(j, u) + Scaled(k, u) == Scaled(j + k, u)
    ensures Scaled(j, u) - Scaled(k, u) == Scaled(j - k, u)
  {
    ScaledValue(j, u);
    ScaledValue(k, u);
    ScaledValue(j + k, u);
    ScaledValue(j - k, u);
  }

  // ---- Alignment ----

  /** The aligned word stands for the magnitude `z`: exactly, or jammed and far below bit 127. */
  ghost predicate Aligned(z: real, lm: nat, e: int) {
    z == Scaled(lm, e) || (Jammed(z, lm, e) && lm < P63)
  }

  lemma WordForm(sig: nat, exp: int)
    ensures Scaled(sig, exp - 63) == Scaled(sig * P64, exp - 127)
  {
    hide Pow2;
    hide Shl;
    hide Shr;
    CoarserIsMultiple(sig, exp - 63, exp - 127);
    assert Pow2(64) == P64 by { Pow2Values(); }
  }

  lemma TruncationBrackets(b: nat, s: nat, e: int)
    ensures Scaled(Shr(b, s), e) <= Scaled(b, e - s) < Scaled(Shr(b, s) + 1, e)
    ensures Low(b, s) == 0 <==> Scaled(Shr(b, s), e) == Scaled(b, e - s)
  {
    var t := Shr(b, s);
    ShrBounds(b, s);
    ShlNext(t, s);
    ScaledShl(t, s, e - s);
    ScaledShl(t + 1, s, e - s);
    ScaledOrder(Shl(t, s), b, e - s);
    ScaledOrder(b, Shl(t + 1, s), e - s);
  }

  lemma JamBrackets(z: real, t: nat, e: int)
    requires Scaled(t, e) < z < Scaled(t + 1, e)
    ensures Jammed(z, Jam(t), e)
  {
    ScaledOrder(Jam(t) - 1, t, e);
    ScaledOrder(t + 1, Jam(t) + 1, e);
  }

  lemma AlignStands(sig: nat, s: nat, e: int)
    requires 0 < sig < P64
    ensures Aligned(Scaled(sig * P64, e - s), Align(sig, s), e)
  {
    hide Pow2;
    var b := sig * P64;
    if s >= 128 {
      FarBelow(b, s, e);
    } else if 0 < s && Low(b, s) != 0 {
      TruncationBrackets(b, s, e);
      JamBrackets(Scaled(b, e - s), Shr(b, s), e);
      LostBitsAreLow(sig, s);
    } else {
      TruncationBrackets(b, s, e);
    }
  }

  lemma FarBelow(b: nat, s: nat, e: int)
    requires 0 < b < P128 && 128 <= s
    ensures Jammed(Scaled(b, e - s), 1, e)
  {
    hide Pow2;
    hide Shl;
    hide Shr;
    assert Pow2(128) == P128 by { Pow2Values(); }
    Pow2Mono(128, s);
    ShrIsZero(b, s);
    TruncationBrackets(b, s, e);
    ScaledValue(0, e);
    ScaledValue(0, e - s);
    ScaledOrder(0, b, e - s);
    ScaledOrder(1, 2, e);
  }

  /** Bits are lost only past a shift of 64, so the truncated word is below 2^63. */
  lemma LostBitsAreLow(sig: nat, s: nat)
    requires sig < P64 && Low(sig * P64, s) != 0
    ensures Jam(Shr(sig * P64, s)) < P63
  {
    hide Pow2;
    hide Shl;
    hide Shr;
    assert Pow2(64) == P64 && Pow2(63) == P63 && Pow2(128) == P128 by { Pow2Values(); }
    ShlValue(sig, 64);
    if s <= 64 {
      ShlThenShr(sig, 64, s);
    } else {
      assert Pow2(63) % 2 == 0;
      Pow2Mono(128, 63 + s);
      ShrBelow(sig * P64, 63, s);
    }
  }

  lemma ShrBelow(b: nat, n: nat, s: nat)
    requires b < Pow2(n + s)
    ensures Shr(b, s) < Pow2(n)
  {
    ShrBounds(b, s);
    ShlOfPow2(n, s);
    if Pow2(n) <= Shr(b, s) {
      ShlMono(Pow2(n), Shr(b, s), s);
    }
  }

  lemma {:induction false} ShlSplit(x: nat, a: nat, b: nat)
    ensures Shl(x, a + b) == Shl(Shl(x, a), b)
  {
    if b != 0 {
      ShlSplit(x, a, b - 1);
    }
  }

  lemma ShlThenShr(x: nat, n: nat, s: nat)
    requires s <= n
    ensures Shr(Shl(x, n), s) == Shl(x, n - s) && Low(Shl(x, n), s) == 0
  {
    ShlSplit(x, n - s, s);
    var y: nat, b := Shl(x, n - s), Shl(x, n);
    var q: nat := Shr(b, s);
    ShrBounds(b, s);
    if y < q {
      ShlMono(y, q, s);
    } else if q < y {
      ShlMono(q, y, s);
    }
  }

  // ---- Sum and difference of the aligned words ----

  /** A carry out of 128 bits only happens when the aligned word is even, so halving is exact. */
  lemma CarryIsEven(sig: nat, s: nat, hm: nat)
    requires 0 < sig < P64 && hm <= P128 - P64 && P128 <= hm + Align(sig, s)
    ensures Align(sig, s) % 2 == 0
  {
    hide Shl;
    hide Pow2;
    hide Shr;
    assert Pow2(64) == P64 && Pow2(63) == P63 && Pow2(128) == P128 by { Pow2Values(); }
    ShlValue(sig, 64);
    if s <= 63 {
      ShlThenShr(sig, 64, s);
      ShlUnfold(sig, 63 - s);
    } else if s < 128 {
      Pow2Mono(128, 64 + s);
      ShrBelow(sig * P64, 64, s);
    }
  }

  lemma SumOfWords(sign: bool, exp: int, hm: nat, lm: nat, h: real, z: real, ctl: Ctl, v: real, r: (F80, Exc))
    requires P127 <= hm <= P128 - P64 && hm % 2 == 0
    requires h == Scaled(hm, exp - 127) && Aligned(z, lm, exp - 127) && v == Signed(sign, h + z)
    requires P128 <= hm + lm ==> lm % 2 == 0
    requires r == if P128 <= hm + lm then NormalizeRound(sign, exp + 1, (hm + lm - P128) / 2 + P127, None, ctl)
                  else NormalizeRound(sign, exp, hm + lm, None, ctl)
    ensures RoundsCorrectly(ctl, v, sign, r)
  {
    hide Scaled;
    hide Pow2;
    hide NormalizeRound;
    hide RoundsCorrectly;
    var e := exp - 127;
    ScaledSum(hm, lm, e);
    if z == Scaled(lm, e) {
      if P128 <= hm + lm {
        var m := (hm + lm) / 2;
        HalveSignificand(m, e);
        YieldsCorrectly(sign, exp + 1, m, None, ctl, h + z, v, r);
      } else {
        YieldsCorrectly(sign, exp, hm + lm, None, ctl, h + z, v, r);
      }
    } else {
      ScaledSum(hm, lm - 1, e);
      ScaledSum(hm, lm + 1, e);
      WidthBounds(ctl.width);
      assert hm + lm < P128;
      JammedYieldsCorrectly(sign, exp, hm + lm, ctl, h + z, v, r);
    }
  }

  lemma DifferenceOfWords(sign: bool, exp: int, hm: nat, lm: nat, h: real, z: real, ctl: Ctl, v: real, r: (F80, Exc))
    requires P127 <= hm && hm % 2 == 0 && hm != lm
    requires h == Scaled(hm, exp - 127) && Aligned(z, lm, exp - 127)
    requires v == if lm < hm then Signed(sign, h - z) else Signed(!sign, z - h)
    requires r == if lm < hm then NormalizeRound(sign, exp, hm - lm, None, ctl)
                  else NormalizeRound(!sign, exp, lm - hm, None, ctl)
    ensures RoundsCorrectly(ctl, v, if lm < hm then sign else !sign, r)
  {
    hide Scaled;
    hide Pow2;
    hide NormalizeRound;
    hide RoundsCorrectly;
    var e := exp - 127;
    ScaledSum(hm, lm, e);
    ScaledSum(lm, hm, e);
    if z == Scaled(lm, e) {
      if lm < hm {
        YieldsCorrectly(sign, exp, hm - lm, None, ctl, h - z, v, r);
      } else {
        YieldsCorrectly(!sign, exp, lm - hm, None, ctl, z - h, v, r);
      }
    } else {
      ScaledSum(hm, lm - 1, e);
      ScaledSum(hm, lm + 1, e);
      WidthBounds(ctl.width);
      JammedYieldsCorrectly(sign, exp, hm - lm, ctl, h - z, v, r);
    }
  }

  /** The two magnitudes and the words that stand for them. */
  lemma WordsOf(hi: F80, lo: F80)
    requires IsNormal(hi) && IsNormal(lo) && lo.exp <= hi.exp
    ensures var hm, lm := hi.sig * P64, Align(lo.sig, hi.exp - lo.exp);
            && P127 <= hm <= P128 - P64 && hm % 2 == 0
            && Scaled(hi.sig, hi.exp - 63) == Scaled(hm, hi.exp - 127)
            && Aligned(Scaled(lo.sig, lo.exp - 63), lm, hi.exp - 127)
            && (P128 <= hm + lm ==> lm % 2 == 0)
  {
    hide Pow2;
    hide Align;
    WordForm(hi.sig, hi.exp);
    WordForm(lo.sig, lo.exp);
    var s := hi.exp - lo.exp;
    AlignStands(lo.sig, s, hi.exp - 127);
    if P128 <= hi.sig * P64 + Align(lo.sig, s) {
      CarryIsEven(lo.sig, s, hi.sig * P64);
    }
  }

  lemma AddAlignedCorrect(hi: F80, lo: F80, ctl: Ctl, v: real, r: (F80, Exc))
    requires IsNormal(hi) && IsNormal(lo) && lo.exp <= hi.exp
    requires v == Val(hi) + Val(lo) && v != 0.0 && r == AddAligned(hi, lo, ctl)
    ensures RoundsCorrectly(ctl, v, v < 0.0, r)
  {
    hide NormalizeRound;
    hide RoundsCorrectly;
    hide Align;
    WordsOf(hi, lo);
    var h, z := Scaled(hi.sig, hi.exp - 63), Scaled(lo.sig, lo.exp - 63);
    var hm: nat, lm := hi.sig * P64, Align(lo.sig, hi.exp - lo.exp);
    Positive(hi.sig, hi.exp - 63);
    Positive(lo.sig, lo.exp - 63);
    if hi.sign == lo.sign {
      SumOfWords(hi.sign, hi.exp, hm, lm, h, z, ctl, v, r);
    } else {
      WordOrder(hm, lm, hi.exp - 127, h, z);
      DifferenceOfWords(hi.sign, hi.exp, hm, lm, h, z, ctl, v, r);
    }
  }

  lemma Positive(k: nat, u: int)
    requires 0 < k
    ensures 0.0 < Scaled(k, u)
  {
    ScaledOrder(0, k, u);
    ScaledValue(0, u);
  }

  lemma WordOrder(hm: nat, lm: nat, e: int, h: real, z: real)
    requires P127 <= hm && h == Scaled(hm, e) && Aligned(z, lm, e)
    ensures lm < hm <==> z < h
    ensures lm == hm <==> z == h
  {
    ScaledOrder(lm, hm, e);
    ScaledOrder(hm, lm, e);
    ScaledOrder(lm + 1, hm, e);
  }

  /** Theorem: `fadd` and `fsub` deliver the correctly rounded sum, whenever it is not zero. */
  lemma AddSubCorrect(a: F80, b: F80, subtract: bool, ctl: Ctl)
    requires IsNormal(a) && IsNormal(b)
    ensures var v := if subtract then Val(a) - Val(b) else Val(a) + Val(b);
            if v == 0.0 then AddSub(a, b, subtract, ctl) == (ZeroOf(false), NONE)
            else RoundsCorrectly(ctl, v, v < 0.0, AddSub(a, b, subtract, ctl))
  {
    hide NormalizeRound;
    hide RoundsCorrectly;
    hide AddAligned;
    hide AddSub;
    var b' := if subtract then b.(sign := !b.sign) else b;
    var v := Val(a) + Val(b');
    var hi, lo := if a.exp >= b'.exp then a else b', if a.exp >= b'.exp then b' else a;
    AddSubOfNormals(a, b, subtract, ctl);
    if v == 0.0 {
      ExactCancellation(hi, lo, ctl);
    } else {
      AddAlignedCorrect(hi, lo, ctl, v, AddSub(a, b, subtract, ctl));
    }
  }

  lemma AddSubOfNormals(a: F80, b: F80, subtract: bool, ctl: Ctl)
    requires IsNormal(a) && IsNormal(b)
    ensures var b' := if subtract then b.(sign := !b.sign) else b;
            AddSub(a, b, subtract, ctl) ==
            if a.exp >= b'.exp then AddAligned(a, b', ctl) else AddAligned(b', a, ctl)
  {
    hide AddAligned;
  }

  lemma ExactCancellation(hi: F80, lo: F80, ctl: Ctl)
    requires IsNormal(hi) && IsNormal(lo) && lo.exp <= hi.exp && Val(hi) + Val(lo) == 0.0
    ensures AddAligned(hi, lo, ctl) == (ZeroOf(false), NONE)
  {
    hide NormalizeRound;
    hide Align;
    WordsOf(hi, lo);
    Positive(hi.sig, hi.exp - 63);
    Positive(lo.sig, lo.exp - 63);
    WordOrder(hi.sig * P64, Align(lo.sig, hi.exp - lo.exp), hi.exp - 127,
              Scaled(hi.sig, hi.exp - 63), Scaled(lo.sig, lo.exp - 63));
  }

  // ---- The sign of an exact zero ----

  /** The sign section 6.3 of IEEE 754 gives a zero sum of operands with these signs. */
  function OwedZeroSign(s: bool, t: bool, rc: Mode): bool { if s == t then s else rc.Down? }

  /** Two zeros, or two normals that cancel exactly. */
  ghost predicate SumsToZero(a: F80, b: F80, subtract: bool) {
    || (a.cls.Zero? && b.cls.Zero?)
    || (IsNormal(a) && IsNormal(b) && (if subtract then Val(a) - Val(b) else Val(a) + Val(b)) == 0.0)
  }

  /** Theorem: a zero sum is exact and has the sign owed, unless its operands have opposite signs and it rounds down. */
  lemma ZeroSumSignIff(a: F80, b: F80, subtract: bool, ctl: Ctl)
    requires SumsToZero(a, b, subtract)
    ensures var r, t := AddSub(a, b, subtract, ctl), b.sign != subtract;
            && r.0.cls.Zero? && r.1 == NONE
            && (r.0.sign == OwedZeroSign(a.sign, t, ctl.rc) <==> a.sign == t || !ctl.rc.Down?)
  {
    hide AddSub;
    if a.cls.Normal? {
      AddSubCorrect(a, b, subtract, ctl);
      Positive(a.sig, a.exp - 63);
      Positive(b.sig, b.exp - 63);
    } else {
      ZerosAdd(a, b, subtract, ctl);
    }
  }

  lemma ZerosAdd(a: F80, b: F80, subtract: bool, ctl: Ctl)
    requires a.cls.Zero? && b.cls.Zero?
    ensures AddSub(a, b, subtract, ctl) == (ZeroOf(a.sign && b.sign != subtract), NONE)
  {
    hide AddAligned;
  }

  /** Rounding down, one less one and zero plus minus zero are both plus zero. */
  lemma ZeroSumsRoundingDown(width: Width)
    ensures var one, ctl := F80(false, Normal, 0, P63), Ctl(Down, width, true);
            && AddSub(one, one, true, ctl) == (ZeroOf(false), NONE)
            && AddSub(ZeroOf(false), ZeroOf(true), false, ctl) == (ZeroOf(false), NONE)
            && OwedZeroSign(false, true, Down)
  {
    var one := F80(false, Normal, 0, P63);
    AddSubCorrect(one, one, true, Ctl(Down, width, true));
  }
}
