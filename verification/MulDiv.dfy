/** Multiplication and division of normals are correctly rounded, in every range and direction. */
module MulDiv {
  import opened Options
  import opened Powers
  import opened Rounding
  import opened Float80
  import opened RoundingPath

  lemma ScaledProduct(j: int, k: int, d: int, e: int)
    ensures Scaled(j, d) * Scaled(k, e) == Scaled(j * k, d + e)
  {
    ScaledValue(j, d);
    ScaledValue(k, e);
    ScaledValue(j * k, d + e);
    TwoToAdd(d, e);
    MulCast(j, k);
    Interchange(j as real, TwoTo(d), k as real, TwoTo(e));
  }

  lemma Interchange(a: real, b: real, c: real, d: real)
    ensures (a * b) * (c * d) == (a * c) * (b * d)
  {
    assert (a * b) * (c * d) == a * (b * c) * d;
  }

  lemma SignedProduct(s: bool, t: bool, x: real, y: real)
    ensures Signed(s, x) * Signed(t, y) == Signed(s != t, x * y)
  {
    assert (-x) * y == -(x * y) && x * (-y) == -(x * y) && (-x) * (-y) == x * y;
  }

  lemma MulOfNormals(a: F80, b: F80, ctl: Ctl)
    requires IsNormal(a) && IsNormal(b)
    ensures MulCtl(a, b, ctl) == NormalizeRound(a.sign != b.sign, a.exp + b.exp + 1, Times(a.sig, b.sig), None, ctl)
  {
    hide Times;
    hide NormalizeRound;
  }

  lemma SignedScaledProduct(s: bool, t: bool, j: nat, k: nat, d: int, e: int)
    ensures Signed(s, Scaled(j, d)) * Signed(t, Scaled(k, e)) == Signed(s != t, Scaled(j * k, d + e))
  {
    hide Signed;
    hide Scaled;
    ScaledProduct(j, k, d, e);
    SignedProduct(s, t, Scaled(j, d), Scaled(k, e));
  }

  lemma ProductDelivers(s: bool, t: bool, j: nat, k: nat, d: int, e: int, ctl: Ctl, v: real, w: real,
                        x: real, r: (F80, Exc))
    requires x == v * w && 0 < j && 0 < k && v == Signed(s, Scaled(j, d - 63)) && w == Signed(t, Scaled(k, e - 63))
    requires r == NormalizeRound(s != t, d + e + 1, Times(j, k), None, ctl)
    ensures RoundsCorrectly(ctl, x, s != t, r)
  {
    hide Signed;
    hide Scaled;
    hide RoundsCorrectly;
    hide NormalizeRound;
    var m := j * k;
    MulAtLeast(j, k);
    SignedScaledProduct(s, t, j, k, d - 63, e - 63);
    YieldsCorrectly(s != t, d + e + 1, m, None, ctl, Scaled(m, d + e - 126), x, r);
  }

  /** Theorem: `fmul` delivers the correctly rounded product. */
  lemma MulCorrect(a: F80, b: F80, ctl: Ctl)
    requires IsNormal(a) && IsNormal(b)
    ensures RoundsCorrectly(ctl, Val(a) * Val(b), a.sign != b.sign, MulCtl(a, b, ctl))
  {
    hide Times;
    hide Signed;
    hide Scaled;
    hide RoundsCorrectly;
    hide NormalizeRound;
    hide MulCtl;
    MulOfNormals(a, b, ctl);
    ProductDelivers(a.sign, b.sign, a.sig, b.sig, a.exp, b.exp, ctl, Val(a), Val(b),
                    Val(a) * Val(b), MulCtl(a, b, ctl));
  }

  // ---- Division ----

  /** A quotient `w` of `r` by `s`, in units of `t`: its order against 0, half a unit and a unit. */
  lemma QuotientOrder(w: real, s: real, r: real, t: real)
    requires 0.0 < s && 0.0 < t && w * s == r * t
    ensures w < 0.0 <==> r < 0.0
    ensures w == 0.0 <==> r == 0.0
    ensures w < t <==> r < s
    ensures 2.0 * w < t <==> 2.0 * r < s
    ensures 2.0 * w == t <==> 2.0 * r == s
  {
    ProductOrder(w, 0.0, s, t, r, 0.0);
    ProductOrder(w, t, s, t, r, s);
    ProductOrder(2.0 * w, t, s, t, 2.0 * r, s);
  }

  lemma ProductOrder(w: real, w': real, s: real, t: real, r: real, r': real)
    requires 0.0 < s && 0.0 < t && w * s == r * t && w' * s == r' * t
    ensures w < w' <==> r < r'
    ensures w == w' <==> r == r'
  {
    if w < w' { MulLt(w, w', s); }
    if w' < w { MulLt(w', w, s); }
    if r < r' { MulLt(r, r', t); }
    if r' < r { MulLt(r', r, t); }
  }

  /** The magnitude of the quotient lies where the integer quotient and its remainder say. */
  lemma QuotientPosition(x: real, sa: nat, sb: nat, d: int, e: int)
    requires 0 < sb && x * Scaled(sb, e) == Scaled(sa, d)
    ensures var num := sa * P64; Position(x, num / sb, d - e - 64, Fraction(num % sb, sb))
  {
    var num := sa * P64;
    var q, rem, u := num / sb, num % sb, d - e - 64;
    var t := TwoTo(u);
    ScaledValue(q, u);
    ScaledValue(q + 1, u);
    assert Scaled(q + 1, u) == Scaled(q, u) + t;
    QuotientEquation(x, sa, sb, d, e, q, rem);
    QuotientOrder(x - Scaled(q, u), sb as real, rem as real, t);
  }

  lemma QuotientEquation(x: real, sa: nat, sb: nat, d: int, e: int, q: nat, rem: nat)
    requires x * Scaled(sb, e) == Scaled(sa, d) && sa * P64 == q * sb + rem
    ensures (x - Scaled(q, d - e - 64)) * sb as real == rem as real * TwoTo(d - e - 64)
  {
    var u := d - e - 64;
    var t, te := TwoTo(u), TwoTo(e);
    ScaledValue(sb, e);
    CoarserIsMultiple(sa, d, u + e);
    assert Pow2(64) == P64 by { Pow2Values(); }
    ScaledValue(sa * P64, u + e);
    TwoToAdd(u, e);
    ScaledValue(q, u);
    MulCast(q, sb);
    CancelScale(x, sb as real, te, (q * sb + rem) as real, t);
    Regroup(x, q as real, t, sb as real, rem as real);
  }

  lemma CancelScale(x: real, s: real, te: real, n: real, t: real)
    requires 0.0 < te && x * (s * te) == n * (t * te)
    ensures x * s == n * t
  {
    assert (x * s - n * t) * te == 0.0;
  }

  lemma Regroup(x: real, q: real, t: real, s: real, r: real)
    requires x * s == (q * s + r) * t
    ensures (x - q * t) * s == r * t
  {
    assert (q * s + r) * t == q * t * s + r * t;
  }

  /** The integer quotient keeps at least 64 bits, so its fraction is below every kept bit. */
  lemma QuotientIsWide(sa: nat, sb: nat)
    requires P63 <= sa < P64 && P63 <= sb < P64
    ensures P63 <= sa * P64 / sb
  {
    var q := sa * P64 / sb;
    MulDistributes(q, 1, sb);
    if q < P63 {
      MulOrder(q + 1, P63, sb);
    }
  }

  lemma DivOfNormals(a: F80, b: F80, ctl: Ctl, x: real) returns (q: nat, frac: Option<Ordering>)
    requires IsNormal(a) && IsNormal(b)
    requires x * Scaled(b.sig, b.exp - 63) == Scaled(a.sig, a.exp - 63)
    ensures P63 <= q && Position(x, q, a.exp - b.exp - 64, frac)
    ensures DivCtl(a, b, ctl) == NormalizeRound(a.sign != b.sign, a.exp - b.exp + 63, q, frac, ctl)
  {
    hide NormalizeRound;
    hide Scaled;
    q, frac := a.sig * P64 / b.sig, Fraction(a.sig * P64 % b.sig, b.sig);
    QuotientPosition(x, a.sig, b.sig, a.exp - 63, b.exp - 63);
    QuotientIsWide(a.sig, b.sig);
    DivByNormal(a, b, ctl);
  }

  lemma DivByNormal(a: F80, b: F80, ctl: Ctl)
    requires IsNormal(a) && IsNormal(b)
    ensures DivCtl(a, b, ctl) == DivNormals(a.sign != b.sign, a, b, ctl)
  {
    hide NormalizeRound;
  }

  lemma ValNonZero(a: F80)
    requires IsNormal(a)
    ensures 0.0 < Scaled(a.sig, a.exp - 63) && Val(a) != 0.0
  {
    ScaledOrder(0, a.sig, a.exp - 63);
    ScaledValue(0, a.exp - 63);
  }

  lemma ExactQuotient(a: F80, b: F80) returns (x: real)
    requires IsNormal(a) && IsNormal(b) && Val(b) != 0.0
    ensures x * Scaled(b.sig, b.exp - 63) == Scaled(a.sig, a.exp - 63)
    ensures Val(a) / Val(b) == Signed(a.sign != b.sign, x)
  {
    hide Scaled;
    ValNonZero(b);
    var m, n := Scaled(a.sig, a.exp - 63), Scaled(b.sig, b.exp - 63);
    x := m / n;
    QuotientSigns(m, n);
  }

  lemma QuotientSigns(m: real, n: real)
    requires n != 0.0
    ensures (m / n) * n == m && (-m) / n == -(m / n) && m / (-n) == -(m / n) && (-m) / (-n) == m / n
  {
    var q := m / n;
    assert q * n == m;
    QuotientUnique(-m, n, -q);
    QuotientUnique(m, -n, -q);
    QuotientUnique(-m, -n, q);
  }

  lemma QuotientUnique(m: real, n: real, q: real)
    requires n != 0.0 && q * n == m
    ensures m / n == q
  {
    assert (m / n - q) * n == 0.0;
  }

  lemma DivDelivers(a: F80, b: F80, ctl: Ctl, x: real, v: real, r: (F80, Exc))
    requires IsNormal(a) && IsNormal(b) && x * Scaled(b.sig, b.exp - 63) == Scaled(a.sig, a.exp - 63)
    requires v == Signed(a.sign != b.sign, x) && r == DivCtl(a, b, ctl)
    ensures RoundsCorrectly(ctl, v, a.sign != b.sign, r)
  {
    hide NormalizeRound;
    hide RoundsCorrectly;
    hide DivCtl;
    hide Pow2;
    var q, frac := DivOfNormals(a, b, ctl, x);
    WidthBounds(ctl.width);
    YieldsCorrectly(a.sign != b.sign, a.exp - b.exp + 63, q, frac, ctl, x, v, r);
  }

  /** Theorem: `fdiv` delivers the correctly rounded quotient. */
  lemma DivCorrect(a: F80, b: F80, ctl: Ctl)
    requires IsNormal(a) && IsNormal(b)
    ensures Val(b) != 0.0 && RoundsCorrectly(ctl, Val(a) / Val(b), a.sign != b.sign, DivCtl(a, b, ctl))
  {
    hide RoundsCorrectly;
    hide DivCtl;
    ValNonZero(b);
    var x := ExactQuotient(a, b);
    DivDelivers(a, b, ctl, x, Val(a) / Val(b), DivCtl(a, b, ctl));
  }
}
