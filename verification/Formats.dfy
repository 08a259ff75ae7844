/** What the bits of the two encodings stand for: the ten bytes of a register and a 64-bit double. */
module Formats {
  import opened Powers
  import opened Rounding
  import opened Float80
  import opened RoundingPath
  import opened Codec

  // ---- The extended format ----

  /** The significand of ten bytes, their biased exponent and their sign. */
  function Mantissa(b: seq<Byte>): nat
    requires |b| == 10
  {
    LeValue(b[..8])
  }

  function BiasedExponent(b: seq<Byte>): nat
    requires |b| == 10
  {
    LeValue(b[8..]) % 0x8000
  }

  predicate SignBit(b: seq<Byte>)
    requires |b| == 10
  {
    0x8000 <= LeValue(b[8..])
  }

  /** Theorem: which of the ten-byte encodings is which, and the value of those that are numbers. */
  lemma ExtendedMeans(b: seq<Byte>)
    requires |b| == 10
    ensures var m, e, a := Mantissa(b), BiasedExponent(b), FromBytes(b);
            && a.sign == SignBit(b)
            && (a.cls.Zero? <==> e == 0 && m == 0)
            && (a.cls.Inf? <==> e == 0x7fff && m == 0x8000_0000_0000_0000)
            && (a.cls.Nan? <==> e == 0x7fff && 0x8000_0000_0000_0000 < m)
            && (a.cls.Normal? <==> (e == 0 && m != 0) || (0 < e < 0x7fff && 0x8000_0000_0000_0000 <= m))
            && (a.cls.Normal? ==> Val(a) == Signed(a.sign, Scaled(m, (if e == 0 then 1 else e) - 16383 - 63)))
            && (a.cls.Nan? ==> a.sig == m)
  {
    hide LeValue;
    hide Shl;
    hide LeadingZeros;
    WordsRoundTrip(b);
    var m, e := Mantissa(b), BiasedExponent(b);
    if e == 0 && m != 0 {
      var shift := LeadingZeros(m);
      ScaledShl(m, shift, EMIN - shift - 63);
    }
  }

  /** Theorem: the least and the greatest normal encoding are of the range the rounding path keeps to. */
  lemma RangeOfFormat(sig: nat, e: nat)
    requires P63 <= sig < P64 && 0 < e < 0x7fff
    ensures var a := Decode(Words(sig, e)); IsNormal(a) && EMIN <= a.exp <= EMAX
    ensures e == 1 <==> Decode(Words(sig, e)).exp == EMIN
    ensures e == 0x7ffe <==> Decode(Words(sig, e)).exp == EMAX
  {
    hide Shl;
    hide LeadingZeros;
  }

  // ---- Doubles ----

  function DoubleExponent(bits: nat): nat { bits % 0x8000_0000_0000_0000 / 0x10_0000_0000_0000 }

  function DoubleFraction(bits: nat): nat { bits % 0x10_0000_0000_0000 }

  /** The magnitude of a finite double, in units of 2^-1074 below 2^-1022 and with a hidden bit above. */
  ghost function DoubleMagnitude(bits: nat): real {
    var e, f := DoubleExponent(bits), DoubleFraction(bits);
    if e == 0 then Scaled(f, -1074) else Scaled(0x10_0000_0000_0000 + f, e - 1075)
  }

  lemma SubnormalDouble(frac: nat, sign: bool, a: F80)
    requires 0 < frac < P52
    requires var shift := LeadingZeros(frac); a == F80(sign, Normal, -1022 - (shift - 11), Shl(frac, shift))
    ensures Val(a) == Signed(sign, Scaled(frac, -1074))
  {
    hide Shl;
    hide LeadingZeros;
    var shift := LeadingZeros(frac);
    var u: int := -1074;
    ScaledShl(frac, shift, u - shift);
  }

  lemma NormalDouble(frac: nat, e: nat, sign: bool, a: F80)
    requires frac < P52 && a == F80(sign, Normal, e - 1023, P63 + 2048 * frac)
    ensures Val(a) == Signed(sign, Scaled(P52 + frac, e - 1075))
  {
    hide Shl;
    ShlEleven(frac);
    ScaledShl(P52 + frac, 11, e - 1075 - 11);
  }

  /** Theorem: what a double widens to. */
  lemma DoubleMeans(bits: nat)
    requires bits < P64
    ensures var e, f, a := DoubleExponent(bits), DoubleFraction(bits), FromF64(bits);
            && a.sign == (0x8000_0000_0000_0000 <= bits)
            && (a.cls.Inf? <==> e == 2047 && f == 0) && (a.cls.Nan? <==> e == 2047 && f != 0)
            && (e != 2047 ==> (a.cls.Zero? || IsNormal(a)) && Val(a) == Signed(a.sign, DoubleMagnitude(bits)))
  {
    hide Shl;
    hide LeadingZeros;
    var e, f, a := DoubleExponent(bits), DoubleFraction(bits), FromF64(bits);
    ScaledValue(0, -1074);
    if e == 0 && f != 0 {
      SubnormalDouble(f, a.sign, a);
    } else if 0 < e < 2047 {
      NormalDouble(f, e, a.sign, a);
    }
  }

  /**
   Theorem: narrowing and widening again keeps zeros and infinities, clears the low eleven bits of a quiet NaN, and
   makes an unsupported operand the indefinite.
   */
  lemma SpecialsNarrow(a: F80)
    requires WellFormed(a) && !a.cls.Normal?
    ensures ToF64(a) < P64
    ensures var w := FromF64(ToF64(a));
            && (a.cls.Zero? ==> w == ZeroOf(a.sign)) && (a.cls.Inf? ==> w == InfOf(a.sign))
            && (a.cls.Unsupported? ==> w == Indefinite())
            && (a.cls.Nan? ==> w.cls.Nan? && w.sign == a.sign)
            && (a.cls.Nan? && P63 + P62 <= a.sig ==> w.sig == a.sig - a.sig % 2048)
  {
    hide Shl;
    hide LeadingZeros;
    if a.cls.Nan? {
      NanNarrows(a);
    }
  }

  lemma NanNarrows(a: F80)
    requires a.cls.Nan? && a.sig < P64
    ensures ToF64(a) < P64
    ensures var w := FromF64(ToF64(a));
            w.cls.Nan? && w.sign == a.sign && (P63 + P62 <= a.sig ==> w.sig == a.sig - a.sig % 2048)
  {
    hide Shl;
    hide LeadingZeros;
    NanPayload(a.sig);
  }

  lemma NanPayload(sig: nat)
    requires sig < P64
    ensures P63 + P62 <= sig ==> P51 <= sig / 2048 % P52 && P63 + 2048 * (sig / 2048 % P52) == sig - sig % 2048
  {
    var q, r := sig / 2048, sig % 2048;
    if P63 + P62 <= sig {
      DivModUnique(q, P52, 1, q - P52);
    }
  }
}
