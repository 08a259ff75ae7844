/**
 Software 80-bit extended-precision floating point: the decoded number, the control and exception
 words, and the rounding path every arithmetic operation ends in.
 */
module Float80 {
  import opened Options
  import opened Powers
  import opened Rounding

  datatype Class = Zero | Normal | Inf | Nan | Unsupported

  /** A `Normal` has the value (-1)^sign * sig * 2^(exp - 63) with `sig` in [2^63, 2^64). */
  datatype F80 = F80(sign: bool, cls: Class, exp: int, sig: nat)

  function ZeroOf(sign: bool): F80 { F80(sign, Zero, 0, 0) }

  function InfOf(sign: bool): F80 { F80(sign, Inf, 0, 0) }

  /** The QNaN floating-point indefinite: what a masked invalid operation delivers. */
  function Indefinite(): F80 { F80(true, Nan, 0, 0xC000_0000_0000_0000) }

  function MaxFinite(sign: bool): F80 { F80(sign, Normal, EMAX, P64 - 1) }

  const BIAS := 16383
  const EXP_MAX := 0x7fff
  const EMAX: int := 16383
  const EMIN: int := -16382

  ghost predicate IsNormal(a: F80) {
    a.cls.Normal? && P63 <= a.sig < P64
  }

  /** The number a zero or normal stands for. */
  ghost function Val(a: F80): real {
    if a.cls.Normal? then Signed(a.sign, Scaled(a.sig, a.exp - 63)) else 0.0
  }

  // ---- Control word and exception flags ----

  /** Significand width. Precision control selects 24, 53 or 64; the rounding path serves any other too. */
  type Width = p: nat | 2 <= p <= 64 witness 64

  /** What the rounding path reads of the control word: rounding control, precision control, underflow mask. */
  datatype Ctl = Ctl(rc: Mode, width: Width, masksUnderflow: bool)

  /** A 16-bit control or status word, low bit first. */
  type Word16 = w: seq<bool> | |w| == 16 witness seq(16, i => false)

  function RoundingControl(cw: Word16): Mode {
    match (cw[11], cw[10])
    case (false, false) => Nearest
    case (false, true) => Down
    case (true, false) => Up
    case (true, true) => TowardZero
  }

  /** Bits 11:10 select the direction, bits 9:8 the width, bit 4 masks underflow. */
  function CtlOf(cw: Word16): Ctl {
    Ctl(RoundingControl(cw), if !cw[9] && !cw[8] then 24 else if cw[9] && !cw[8] then 53 else 64, cw[4])
  }

  datatype Exc = Exc(ie: bool, de: bool, ze: bool, oe: bool, ue: bool, pe: bool, sf: bool) {
    function With(o: Exc): Exc {
      Exc(ie || o.ie, de || o.de, ze || o.ze, oe || o.oe, ue || o.ue, pe || o.pe, sf || o.sf)
    }
  }

  const NONE := Exc(false, false, false, false, false, false, false)
  const IE := NONE.(ie := true)
  const DE := NONE.(de := true)
  const ZE := NONE.(ze := true)
  const OE := NONE.(oe := true)
  const UE := NONE.(ue := true)
  const PE := NONE.(pe := true)
  const SF := NONE.(sf := true)

  // ---- Rounding path ----

  /** The kept significand, how the discarded part compares with half a unit, and whether it is nonzero. */
  datatype Kept = Kept(sig: nat, cmpHalf: Ordering, inexact: bool)

  function Discard(m: nat, drop: int, frac: Option<Ordering>): Kept {
    if 0 < drop then
      var dropped, half := Low(m, drop), Pow2(drop - 1);
      var cmp := if dropped < half then Less else if dropped == half then Equal else Greater;
      var cmp' := if cmp.Equal? && frac.Some? then Greater else cmp;
      Kept(Shr(m, drop), cmp', dropped != 0 || frac.Some?)
    else
      var cmp := if frac.None? || drop < 0 then Less else frac.value;
      Kept(Shl(m, -drop), cmp, frac.Some?)
  }

  /** Normalise and round the value `m * 2^(refExp - 127)`, or a value `frac` above it. */
  function NormalizeRound(sign: bool, refExp: int, m: nat, frac: Option<Ordering>, ctl: Ctl): (F80, Exc) {
    if m == 0 then (ZeroOf(sign), NONE) else
      var p := ctl.width;
      var hb := TopBit(m);
      var exp := refExp - (127 - hb);
      RoundKept(sign, exp, Discard(m, hb - (p - 1), frac), ctl)
  }

  function RoundKept(sign: bool, exp: int, k: Kept, ctl: Ctl): (F80, Exc) {
    var (sig, exp') := RoundField(sign, exp, k, ctl);
    PackNormal(sign, exp', sig, ctl, k.inexact)
  }

  /** Round the kept field, then place its top bit at bit 63. */
  function RoundField(sign: bool, exp: int, k: Kept, ctl: Ctl): (nat, int) {
    var up := RoundsUp(ctl.rc, sign, k.sig % 2 == 1, k.cmpHalf, k.inexact);
    var (kept, exp') := Increment(k.sig, exp, ctl.width, up);
    (Shl(kept, 64 - ctl.width), exp')
  }

  /** A carry out of the kept field renormalises it. */
  function Increment(kept: nat, exp: int, p: nat, up: bool): (nat, int) {
    if !up then (kept, exp)
    else if p >= 64 then if kept + 1 == P64 then (P63, exp + 1) else (kept + 1, exp)
    else if Shr(kept + 1, p) != 0 then ((kept + 1) / 2, exp + 1) else (kept + 1, exp)
  }

  /** `leading_zeros` of a nonzero 64-bit word: the shift that brings its top bit to bit 63. */
  function LeadingZeros(sig: nat): (sh: nat)
    requires 0 < sig < P64
    ensures P63 <= Shl(sig, sh) < P64 && sh < 64
  {
    LeadingZerosFits(sig);
    63 - TopBit(sig)
  }

  lemma LeadingZerosFits(sig: nat)
    requires 0 < sig < P64
    ensures var t := TopBit(sig); t <= 63 && P63 <= Shl(sig, 63 - t) < P64
  {
    Pow2Values();
    var t := TopBit(sig);
    if 63 < t {
      Pow2Mono(64, t);
    }
    ShlOfPow2(t, 63 - t);
    ShlOfPow2(t + 1, 63 - t);
    ShlMono(Pow2(t), sig, 63 - t);
    ShlMono(sig, Pow2(t + 1), 63 - t);
  }

  function PackNormal(sign: bool, exp: int, sig: nat, ctl: Ctl, inexact: bool): (F80, Exc) {
    if sig == 0 then (ZeroOf(sign), if inexact then PE else NONE)
    else if sig < P63 then
      var sh := LeadingZeros(sig);
      Finish(sign, exp - sh, Shl(sig, sh), ctl, inexact)
    else Finish(sign, exp, sig, ctl, inexact)
  }

  /** The masked overflow response depends on the direction and the sign. */
  predicate OverflowsToInf(mode: Mode, sign: bool) {
    match mode
    case Nearest => true
    case Down => sign
    case Up => !sign
    case TowardZero => false
  }

  function Finish(sign: bool, exp: int, sig: nat, ctl: Ctl, inexact: bool): (F80, Exc) {
    var exc := if inexact then PE else NONE;
    if exp > EMAX then
      (if OverflowsToInf(ctl.rc, sign) then InfOf(sign) else MaxFinite(sign), exc.With(OE).With(PE))
    else if exp < EMIN then
      var shift := EMIN - exp;
      var tinyInexact := inexact || shift >= 64 || Low(sig, shift) != 0;
      var exc' := if tinyInexact then exc.With(PE) else exc;
      var exc'' := if !ctl.masksUnderflow || tinyInexact then exc'.With(UE) else exc';
      if exp < EMIN - 64 then (ZeroOf(sign), exc'') else (F80(sign, Normal, exp, sig), exc'')
    else
      (F80(sign, Normal, exp, sig), exc)
  }

  // ---- NaN and unsupported operands ----

  predicate IsSnan(a: F80) {
    a.cls.Nan? && (a.sig / P62) % 2 == 0
  }

  predicate OperandRaisesInvalid(a: F80) {
    IsSnan(a) || a.cls.Unsupported?
  }

  function BinaryOperandExc(a: F80, b: F80): Exc {
    if OperandRaisesInvalid(a) || OperandRaisesInvalid(b) then IE else NONE
  }

  /** Set the quiet bit, bit 62. */
  function Quieted(a: F80): F80 {
    if (a.sig / P62) % 2 == 1 then a else a.(sig := a.sig + P62)
  }

  /** The result when an operand is a NaN or unsupported; `None` when ordinary arithmetic applies. */
  function BinaryNan(a: F80, b: F80): (r: Option<F80>) {
    if a.cls.Unsupported? || b.cls.Unsupported? then Some(Indefinite())
    else if !a.cls.Nan? && !b.cls.Nan? then None
    else if !b.cls.Nan? then Some(Quieted(a))
    else if !a.cls.Nan? then Some(Quieted(b))
    else
      var pick :=
        if IsSnan(a) && !IsSnan(b) then b
        else if !IsSnan(a) && IsSnan(b) then a
        else if b.sig > a.sig then b else a;
      Some(Quieted(pick))
  }

  function UnaryNan(a: F80): Option<F80> {
    match a.cls
    case Unsupported => Some(Indefinite())
    case Nan => Some(Quieted(a))
    case _ => None
  }

  // ---- Multiplication, division, addition ----

  /** The 128-bit product of two 64-bit significands. */
  function Times(x: nat, y: nat): nat { x * y }

  function MulCtl(a: F80, b: F80, ctl: Ctl): (F80, Exc) {
    var sign := a.sign != b.sign;
    var base := BinaryOperandExc(a, b);
    var nan := BinaryNan(a, b);
    if nan.Some? then (nan.value, base)
    else if (a.cls.Inf? && b.cls.Zero?) || (a.cls.Zero? && b.cls.Inf?) then (Indefinite(), base.With(IE))
    else if a.cls.Inf? || b.cls.Inf? then (InfOf(sign), base)
    else if a.cls.Zero? || b.cls.Zero? then (ZeroOf(sign), base)
    else
      var (v, e) := NormalizeRound(sign, a.exp + b.exp + 1, Times(a.sig, b.sig), None, ctl);
      (v, base.With(e))
  }

  function DivCtl(a: F80, b: F80, ctl: Ctl): (F80, Exc)
    requires b.cls.Normal? ==> 0 < b.sig
  {
    var sign := a.sign != b.sign;
    var base := BinaryOperandExc(a, b);
    var nan := BinaryNan(a, b);
    if nan.Some? then (nan.value, base)
    else if (a.cls.Inf? && b.cls.Inf?) || (a.cls.Zero? && b.cls.Zero?) then (Indefinite(), base.With(IE))
    else if a.cls.Inf? then (InfOf(sign), base)
    else if b.cls.Inf? then (ZeroOf(sign), base)
    else if b.cls.Zero? then (InfOf(sign), base.With(ZE))
    else if a.cls.Zero? then (ZeroOf(sign), base)
    else
      var (v, e) := DivNormals(sign, a, b, ctl);
      (v, base.With(e))
  }

  /** The exact remainder places the true quotient against half a unit of the integer quotient. */
  function DivNormals(sign: bool, a: F80, b: F80, ctl: Ctl): (F80, Exc)
    requires 0 < b.sig
  {
    var num := a.sig * P64;
    NormalizeRound(sign, a.exp - b.exp + 63, num / b.sig, Fraction(num % b.sig, b.sig), ctl)
  }

  function Fraction(rem: nat, b: nat): Option<Ordering> {
    if rem == 0 then None else Some(Compare(2 * rem, b))
  }

  function Compare(x: int, y: int): Ordering {
    if x < y then Less else if x == y then Equal else Greater
  }

  function AddSub(a: F80, b: F80, subtract: bool, ctl: Ctl): (F80, Exc) {
    var base := BinaryOperandExc(a, b);
    var nan := BinaryNan(a, b);
    if nan.Some? then (nan.value, base)
    else
      var b' := if subtract then b.(sign := !b.sign) else b;
      if a.cls.Inf? && b'.cls.Inf? then
        if a.sign == b'.sign then (InfOf(a.sign), base) else (Indefinite(), base.With(IE))
      else if a.cls.Inf? then (InfOf(a.sign), base)
      else if b'.cls.Inf? then (InfOf(b'.sign), base)
      else if a.cls.Zero? && b'.cls.Zero? then (ZeroOf(a.sign && b'.sign), base)
      else if a.cls.Zero? then (b', base)
      else if b'.cls.Zero? then (a, base)
      else
        var (v, e) := if a.exp >= b'.exp then AddAligned(a, b', ctl) else AddAligned(b', a, ctl);
        (v, base.With(e))
  }

  /** The smaller operand, aligned under the larger one, with lost bits or-ed into the lowest bit. */
  function Align(sig: nat, shift: nat): nat {
    if shift >= 128 then if sig != 0 then 1 else 0
    else
      var shifted := Shr(sig * P64, shift);
      if 0 < shift && Low(sig * P64, shift) != 0 then Jam(shifted) else shifted
  }

  /** `x | 1` */
  function Jam(x: nat): nat {
    if x % 2 == 0 then x + 1 else x
  }

  /** Add two normals, `hi` having the larger exponent, in 128-bit words. */
  function AddAligned(hi: F80, lo: F80, ctl: Ctl): (F80, Exc)
    requires lo.exp <= hi.exp
  {
    var hm, lm := hi.sig * P64, Align(lo.sig, hi.exp - lo.exp);
    if hi.sign == lo.sign then
      if P128 <= hm + lm then
        var sum := hm + lm - P128;
        NormalizeRound(hi.sign, hi.exp + 1, sum / 2 + P127, None, ctl)
      else NormalizeRound(hi.sign, hi.exp, hm + lm, None, ctl)
    else if hm >= lm then
      if hm == lm then (ZeroOf(false), NONE)
      else NormalizeRound(hi.sign, hi.exp, hm - lm, None, ctl)
    else NormalizeRound(lo.sign, hi.exp, lm - hm, None, ctl)
  }
}
