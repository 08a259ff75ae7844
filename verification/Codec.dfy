/** The 80-bit memory encoding and the 64-bit double format: decoding, encoding and what survives both. */
module Codec {
  import opened Powers
  import opened Rounding
  import opened Float80
  import opened AddSub
  import opened RoundingPath

  type Byte = n: int | 0 <= n < 256

  // ---- Little-endian words ----

  function LeValue(b: seq<Byte>): nat {
    if b == [] then 0 else b[0] + 256 * LeValue(b[1..])
  }

  function LeBytes(n: nat, len: nat): (b: seq<Byte>)
    ensures |b| == len
  {
    if len == 0 then [] else [n % 256] + LeBytes(n / 256, len - 1)
  }

  lemma Digits(d: Byte, n: nat)
    ensures (d + 256 * n) % 256 == d && (d + 256 * n) / 256 == n
  {
  }

  lemma ByteStep(k: nat)
    ensures Pow2(8 * (k + 1)) == 256 * Pow2(8 * k)
  {
    Pow2Add(8, 8 * k);
  }

  lemma LeBytesStep(d: Byte, n: nat, len: nat)
    ensures LeBytes(d + 256 * n, len + 1) == [d] + LeBytes(n, len)
  {
    Digits(d, n);
  }

  lemma {:induction false} LeBytesOfValue(b: seq<Byte>)
    ensures LeBytes(LeValue(b), |b|) == b
  {
    if b == [] {
    } else {
      hide LeBytes;
      LeBytesOfValue(b[1..]);
      LeBytesStep(b[0], LeValue(b[1..]), |b| - 1);
    }
  }

  lemma {:induction false} LeValueBound(b: seq<Byte>)
    ensures LeValue(b) < Pow2(8 * |b|)
  {
    hide Pow2;
    assert Pow2(0) == 1 by { Pow2Add(0, 0); }
    if b != [] {
      LeValueBound(b[1..]);
      ByteStep(|b| - 1);
    }
  }

  lemma {:induction false} LeValueOfBytes(n: nat, len: nat)
    requires n < Pow2(8 * len)
    ensures LeValue(LeBytes(n, len)) == n
  {
    hide Pow2;
    assert Pow2(0) == 1 by { Pow2Add(0, 0); }
    if len != 0 {
      ByteStep(len - 1);
      LeValueOfBytes(n / 256, len - 1);
      assert LeBytes(n, len)[1..] == LeBytes(n / 256, len - 1);
    }
  }

  // ---- The 80-bit format ----

  const SIGN_BIT := 0x8000

  /** The significand word and the word holding sign and biased exponent. */
  datatype Words = Words(sig: nat, se: nat)

  predicate ValidWords(w: Words) { w.sig < P64 && w.se < 0x1_0000 }

  function WordsOfBytes(b: seq<Byte>): Words
    requires |b| == 10
  {
    Words(LeValue(b[..8]), LeValue(b[8..]))
  }

  function BytesOfWords(w: Words): (b: seq<Byte>)
    ensures |b| == 10
  {
    LeBytes(w.sig, 8) + LeBytes(w.se, 2)
  }

  lemma WordsRoundTrip(b: seq<Byte>)
    requires |b| == 10
    ensures ValidWords(WordsOfBytes(b)) && BytesOfWords(WordsOfBytes(b)) == b
  {
    hide Pow2;
    LeBytesOfValue(b[..8]);
    LeBytesOfValue(b[8..]);
    LeValueBound(b[..8]);
    LeValueBound(b[8..]);
    assert Pow2(64) == P64 by { Pow2Values(); }
    Pow2Sixteen();
    assert b == b[..8] + b[8..];
  }

  lemma BytesRoundTrip(w: Words)
    requires ValidWords(w)
    ensures WordsOfBytes(BytesOfWords(w)) == w
  {
    hide Pow2;
    assert Pow2(64) == P64 by { Pow2Values(); }
    Pow2Sixteen();
    LeValueOfBytes(w.sig, 8);
    LeValueOfBytes(w.se, 2);
    assert BytesOfWords(w)[..8] == LeBytes(w.sig, 8) && BytesOfWords(w)[8..] == LeBytes(w.se, 2);
  }

  lemma Pow2Sixteen()
    ensures Pow2(16) == 0x1_0000
  {
    Pow2Add(8, 8);
  }

  function Decode(w: Words): F80
    requires ValidWords(w)
  {
    var sign, biased := w.se >= SIGN_BIT, w.se % SIGN_BIT;
    var integerBit := w.sig >= P63;
    if biased == EXP_MAX then
      if !integerBit then F80(sign, Unsupported, biased, w.sig)
      else if w.sig == P63 then InfOf(sign)
      else F80(sign, Nan, 0, w.sig)
    else if biased == 0 then
      if w.sig == 0 then ZeroOf(sign)
      else
        var shift := LeadingZeros(w.sig);
        F80(sign, Normal, EMIN - shift, Shl(w.sig, shift))
    else if !integerBit then F80(sign, Unsupported, biased, w.sig)
    else F80(sign, Normal, biased - BIAS, w.sig)
  }

  /** What the encoder is handed: a normal is normalised, the rest as the decoder builds them. */
  predicate WellFormed(a: F80) {
    match a.cls
    case Normal => P63 <= a.sig < P64
    case Nan => a.sig < P64
    case Unsupported => a.sig < P64 && 0 < a.exp <= EXP_MAX
    case _ => true
  }

  function Encode(a: F80): (w: Words)
    requires WellFormed(a)
    ensures ValidWords(w)
  {
    var (sig, biased) :=
      match a.cls
      case Zero => (0, 0)
      case Inf => (P63, EXP_MAX)
      case Nan => (if a.sig < P63 then a.sig + P63 else a.sig, EXP_MAX)
      case Unsupported => (a.sig, a.exp)
      case Normal =>
        var e := a.exp + BIAS;
        if e >= EXP_MAX then (P63, EXP_MAX)
        else if e <= 0 then
          var shift := 1 - e;
          if shift >= 64 then (0, 0) else (ShiftedDown(a.sig, shift), 0)
        else (a.sig, e);
    Words(sig, (if a.sign then SIGN_BIT else 0) + biased)
  }

  function ShiftedDown(sig: nat, n: nat): (r: nat)
    requires sig < P64
    ensures r <= sig && r == Shr(sig, n)
  {
    ShrShrinks(sig, n);
    Shr(sig, n)
  }

  lemma {:induction false} ShrShrinks(x: nat, n: nat)
    ensures Shr(x, n) <= x
  {
    if n != 0 {
      ShrShrinks(x, n - 1);
    }
  }

  function FromBytes(b: seq<Byte>): F80
    requires |b| == 10
  {
    WordsRoundTrip(b);
    Decode(WordsOfBytes(b))
  }

  function ToBytes(a: F80): (b: seq<Byte>)
    requires WellFormed(a)
    ensures |b| == 10
  {
    BytesOfWords(Encode(a))
  }

  /** A zero biased exponent with the integer bit set: supported, and read with biased exponent 1. */
  predicate PseudoDenormal(w: Words) {
    w.se % SIGN_BIT == 0 && w.sig >= P63
  }

  lemma ReencodeWords(w: Words)
    requires ValidWords(w)
    ensures WellFormed(Decode(w))
    ensures Encode(Decode(w)) == if PseudoDenormal(w) then w.(se := w.se + 1) else w
  {
    hide Shl;
    hide Shr;
    if w.se % SIGN_BIT == 0 && w.sig != 0 {
      var shift := LeadingZeros(w.sig);
      ShiftUpThenDown(w.sig, shift);
      NoShiftWhenTopBitSet(w.sig);
    }
  }

  lemma NoShiftWhenTopBitSet(sig: nat)
    requires 0 < sig < P64
    ensures LeadingZeros(sig) == 0 <==> P63 <= sig
    ensures Shl(sig, 0) == sig
  {
    hide Pow2;
    assert Pow2(63) == P63 && Pow2(64) == P64 by { Pow2Values(); }
    if P63 <= sig {
      TopBitUnique(sig, 63);
    }
  }

  lemma ShiftUpThenDown(sig: nat, n: nat)
    ensures Shr(Shl(sig, n), n) == sig
  {
    ShlThenShr(sig, n, n);
  }

  /** Theorem: storing what was loaded gives the same ten bytes; a pseudo-denormal comes back with biased exponent 1. */
  lemma LoadThenStore(b: seq<Byte>)
    requires |b| == 10
    ensures WellFormed(FromBytes(b))
    ensures var w := WordsOfBytes(b);
            ToBytes(FromBytes(b)) == if PseudoDenormal(w) then BytesOfWords(w.(se := w.se + 1)) else b
  {
    hide Encode;
    hide Decode;
    WordsRoundTrip(b);
    ReencodeWords(WordsOfBytes(b));
  }

  /** A pseudo-denormal and the normal encoding it becomes decode to the same number. */
  lemma PseudoDenormalSameValue(w: Words)
    requires ValidWords(w) && PseudoDenormal(w)
    ensures ValidWords(w.(se := w.se + 1)) && Decode(w) == Decode(w.(se := w.se + 1))
  {
    NoShiftWhenTopBitSet(w.sig);
  }

  // ---- Storing a number, then loading it ----

  /** Number of denormal units an encoder that truncates keeps of a number below the normal range. */
  lemma StoreTiny(a: F80)
    requires IsNormal(a) && a.exp < EMIN
    ensures Encode(a) == Words(Shr(a.sig, EMIN - a.exp), if a.sign then SIGN_BIT else 0)
    ensures Shr(a.sig, EMIN - a.exp) < P63
  {
    hide Pow2;
    hide Shr;
    var shift := EMIN - a.exp;
    assert Pow2(64) == P64 && Pow2(63) == P63 by { Pow2Values(); }
    Pow2Mono(64, 63 + shift);
    ShrBelow(a.sig, 63, shift);
    if 64 <= shift {
      Pow2Mono(64, shift);
      ShrIsZero(a.sig, shift);
    }
  }

  lemma DecodeTiny(sig: nat, sign: bool)
    requires sig < P63
    ensures Decode(Words(sig, if sign then SIGN_BIT else 0)) ==
            if sig == 0 then ZeroOf(sign) else F80(sign, Normal, EMIN - LeadingZeros(sig), Shl(sig, LeadingZeros(sig)))
  {
    hide Pow2;
    hide Shl;
    hide LeadingZeros;
  }

  lemma LoadTiny(sig: nat, sign: bool)
    requires sig < P63
    ensures var d := Decode(Words(sig, if sign then SIGN_BIT else 0));
            d.sign == sign && Val(d) == Signed(sign, GridPoint(sig))
  {
    hide Pow2;
    hide Shl;
    hide Decode;
    DecodeTiny(sig, sign);
    if sig == 0 {
      ScaledValue(0, EMIN - 63);
    } else {
      var shift := LeadingZeros(sig);
      ScaledShl(sig, shift, EMIN - shift - 63);
    }
  }

  lemma StoreInRange(a: F80)
    requires IsNormal(a) && EMIN <= a.exp <= EMAX
    ensures Decode(Encode(a)) == a
  {
    hide Shr;
    hide Shl;
    hide LeadingZeros;
  }

  lemma StoreNan(a: F80)
    requires a.cls.Nan? && a.exp == 0 && P63 < a.sig < P64
    ensures WellFormed(a) && Decode(Encode(a)) == a
  {
    hide Shr;
    hide Shl;
    hide LeadingZeros;
  }

  lemma StoreInfinity(a: F80)
    requires a == InfOf(a.sign) || (IsNormal(a) && EMAX < a.exp)
    ensures WellFormed(a) && Decode(Encode(a)) == InfOf(a.sign)
  {
    hide Shr;
    hide Shl;
    hide LeadingZeros;
  }

  /**
   Theorem: in range a store and load give the number back; above it they give an infinity, and below it the
   magnitude is truncated to a denormal unit.
   */
  lemma StoreThenLoad(a: F80)
    requires IsNormal(a)
    ensures var d := Decode(Encode(a));
            d.sign == a.sign &&
            if EMAX < a.exp then d == InfOf(a.sign)
            else if EMIN <= a.exp then d == a
            else exists units: nat ::
                   && Val(d) == Signed(a.sign, GridPoint(units))
                   && GridPoint(units) <= Abs(Val(a)) < GridPoint(units + 1)
  {
    hide Encode;
    hide Decode;
    if EMAX < a.exp {
      StoreInfinity(a);
    } else if EMIN <= a.exp {
      StoreInRange(a);
    } else {
      StoreTiny(a);
      var shift := EMIN - a.exp;
      var units := Shr(a.sig, shift);
      LoadTiny(units, a.sign);
      TruncationBrackets(a.sig, shift, EMIN - 63);
      Positive(a.sig, a.exp - 63);
      StoredUnits(a, units, Decode(Encode(a)));
    }
  }

  lemma StoredUnits(a: F80, units: nat, d: F80)
    requires IsNormal(a) && 0.0 < Scaled(a.sig, a.exp - 63)
    requires Val(d) == Signed(a.sign, GridPoint(units))
    requires GridPoint(units) <= Scaled(a.sig, a.exp - 63) < GridPoint(units + 1)
    ensures exists units: nat ::
              && Val(d) == Signed(a.sign, GridPoint(units))
              && GridPoint(units) <= Abs(Val(a)) < GridPoint(units + 1)
  {
    assert Abs(Val(a)) == Scaled(a.sig, a.exp - 63);
  }

  lemma ThroughBytes(a: F80)
    requires WellFormed(a)
    ensures FromBytes(ToBytes(a)) == Decode(Encode(a))
  {
    hide Encode;
    hide Decode;
    hide BytesOfWords;
    hide WordsOfBytes;
    BytesRoundTrip(Encode(a));
  }

  lemma StoredReadsBack(a: F80)
    requires IsNormal(a) && EMIN <= a.exp <= EMAX
    ensures FromBytes(ToBytes(a)) == a
  {
    hide Encode;
    hide Decode;
    ThroughBytes(a);
    StoreThenLoad(a);
  }

  /** Theorem: a number survives a store exactly when it lies in the normal range or on the denormal grid. */
  lemma StoreIsExact(a: F80)
    requires IsNormal(a)
    ensures Val(Decode(Encode(a))) == Val(a) <==> a.exp <= EMAX && (EMIN <= a.exp || OnDenormalGrid(Val(a)))
  {
    hide Encode;
    hide Decode;
    if EMAX < a.exp {
      StoreInfinity(a);
      Positive(a.sig, a.exp - 63);
    } else if EMIN <= a.exp {
      StoreInRange(a);
    } else {
      StoreTiny(a);
      var shift := EMIN - a.exp;
      var units := Shr(a.sig, shift);
      LoadTiny(units, a.sign);
      TruncationBrackets(a.sig, shift, EMIN - 63);
      GridByLowBits(a.sign, a.sig, a.exp);
      if 64 <= shift {
        Positive(a.sig, a.exp - 63);
        NothingKept(a.sig, shift);
        ScaledValue(0, EMIN - 63);
      }
    }
  }

  lemma NothingKept(sig: nat, shift: nat)
    requires sig < P64 && 64 <= shift
    ensures Shr(sig, shift) == 0
  {
    hide Shr;
    hide Pow2;
    assert Pow2(64) == P64 by { Pow2Values(); }
    Pow2Mono(64, shift);
    ShrIsZero(sig, shift);
  }

  // ---- The double format ----

  const P51: nat := 0x8_0000_0000_0000
  const F64_MAX_EXP := 0x7ff

  function FromF64(bits: nat): F80
    requires bits < P64
  {
    var sign := bits >= P63;
    var exp, frac := (bits % P63) / P52, bits % P52;
    if exp == F64_MAX_EXP then
      if frac == 0 then InfOf(sign)
      else F80(sign, Nan, 0, P63 + (if frac < P51 then P62 else 0) + 2048 * frac)
    else if exp == 0 then
      if frac == 0 then ZeroOf(sign)
      else
        var shift := LeadingZeros(frac);
        F80(sign, Normal, -1022 - (shift - 11), Shl(frac, shift))
    else F80(sign, Normal, exp - 1023, P63 + 2048 * frac)
  }

  /** Shift right, rounding to nearest even. */
  function RoundShift(v: nat, n: nat): nat {
    if n == 0 then v
    else if n >= 64 then 0
    else
      var dropped, half, r := Low(v, n), Pow2(n - 1), Shr(v, n);
      if dropped > half || (dropped == half && r % 2 == 1) then r + 1 else r
  }

  function ToF64(a: F80): nat {
    var sign: nat := if a.sign then P63 else 0;
    match a.cls
    case Zero => sign
    case Inf => sign + F64_MAX_EXP * P52
    case Nan =>
      var payload := (a.sig / 2048) % P52;
      sign + F64_MAX_EXP * P52 + (if payload == 0 then 1 else payload)
    case Unsupported => 0xFFF8_0000_0000_0000
    case Normal =>
      var m := RoundShift(a.sig, 11);
      var (m', e) := if m >= P53 then (m / 2, a.exp + 1) else (m, a.exp);
      var biased := e + 1023;
      if biased >= F64_MAX_EXP then sign + F64_MAX_EXP * P52
      else if biased <= 0 then sign + RoundShift(a.sig, 12 - biased)
      else sign + biased * P52 + m' % P52
  }

  /** Low bits that a left shift cleared are lost without rounding. */
  lemma RoundShiftExact(k: nat, n: nat)
    requires n < 64
    ensures RoundShift(Shl(k, n), n) == k
  {
    hide Pow2;
    hide Shr;
    hide Shl;
    ShlThenShr(k, n, n);
    assert Shl(k, 0) == k by { ShlValue(k, 0); assert Pow2(0) == 1 by { Pow2Add(0, 0); } }
  }

  lemma ShlEleven(frac: nat)
    ensures Shl(frac, 11) == 2048 * frac
    ensures Shl(P52 + frac, 11) == P63 + 2048 * frac
  {
    hide Pow2;
    hide Shl;
    assert Pow2(11) == 2048 by { Pow2Eleven(); }
    ShlValue(frac, 11);
    ShlValue(P52 + frac, 11);
  }

  lemma Pow2Eleven()
    ensures Pow2(11) == 2048
  {
    Pow2Add(3, 8);
  }

  /** A signalling NaN pattern: the quiet bit of the fraction is clear. */
  predicate IsSignalling(bits: nat) {
    (bits % P63) / P52 == F64_MAX_EXP && 0 < bits % P52 < P51
  }

  lemma NarrowNormalDouble(sign: bool, exp: nat, frac: nat)
    requires 0 < exp < F64_MAX_EXP && frac < P52
    ensures ToF64(F80(sign, Normal, exp - 1023, P63 + 2048 * frac)) == (if sign then P63 else 0) + exp * P52 + frac
  {
    hide RoundShift;
    ShlEleven(frac);
    RoundShiftExact(P52 + frac, 11);
  }

  lemma NarrowSubnormalDouble(sign: bool, frac: nat)
    requires 0 < frac < P52
    ensures var shift := LeadingZeros(frac);
            ToF64(F80(sign, Normal, -1022 - (shift - 11), Shl(frac, shift))) == (if sign then P63 else 0) + frac
  {
    hide RoundShift;
    hide Pow2;
    hide Shl;
    var shift := LeadingZeros(frac);
    SubnormalShift(frac);
    RoundShiftExact(frac, shift);
    assert Shl(frac, shift) == Shl(Shl(frac, shift - 11), 11) by { ShlSplit(frac, shift - 11, 11); }
    RoundShiftExact(Shl(frac, shift - 11), 11);
  }

  lemma SubnormalShift(frac: nat)
    requires 0 < frac < P52
    ensures var shift := LeadingZeros(frac); 12 <= shift < 64 && Shl(frac, shift - 11) < P53
  {
    hide Pow2;
    hide Shl;
    hide LeadingZeros;
    var shift := LeadingZeros(frac);
    assert Pow2(64) == P64 && Pow2(63) == P63 && Pow2(52) == P52 && Pow2(11) == 2048 by { Pow2Values(); Pow2Eleven(); }
    if shift < 12 {
      ShlMono(frac, P52, shift);
      ShlOfPow2(52, shift);
      Pow2Mono(52 + shift, 63);
    }
    ShlSplit(frac, shift - 11, 11);
    ShlValue(Shl(frac, shift - 11), 11);
  }

  /** Theorem: widening a double and narrowing it again gives it back; a signalling NaN comes back quiet. */
  lemma WidenThenNarrow(bits: nat)
    requires bits < P64
    ensures ToF64(FromF64(bits)) == if IsSignalling(bits) then bits + P51 else bits
  {
    hide ToF64;
    hide Shl;
    hide Pow2;
    var sign := bits >= P63;
    var exp, frac := (bits % P63) / P52, bits % P52;
    FieldsOf(bits);
    if exp == F64_MAX_EXP || (frac == 0 && exp == 0) {
      NarrowSpecial(sign, frac);
    } else if exp == 0 {
      NarrowSubnormalDouble(sign, frac);
    } else {
      NarrowNormalDouble(sign, exp, frac);
    }
  }

  lemma FieldsOf(bits: nat)
    requires bits < P64
    ensures var exp, frac := (bits % P63) / P52, bits % P52;
            exp <= F64_MAX_EXP && bits == (if bits >= P63 then P63 else 0) + exp * P52 + frac
  {
  }

  lemma NarrowSpecial(sign: bool, frac: nat)
    requires frac < P52
    ensures var s := if sign then P63 else 0;
            && ToF64(InfOf(sign)) == s + F64_MAX_EXP * P52
            && ToF64(ZeroOf(sign)) == s
            && ToF64(F80(sign, Nan, 0, P63 + (if frac < P51 then P62 else 0) + 2048 * frac))
               == s + F64_MAX_EXP * P52 + (if frac < P51 then frac + P51 else frac)
  {
  }
}
