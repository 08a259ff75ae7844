/**
 Powers of two, over the naturals and over the reals, and the position of the top set bit.
 Shifts of an unsigned machine word are multiplication and division by `Pow2`.
 */
module Powers {

  function Pow2(n: nat): (r: nat)
    ensures 1 <= r
  {
    if n == 0 then 1 else 2 * Pow2(n - 1)
  }

  const P23 := 0x80_0000
  const P52 := 0x10_0000_0000_0000
  const P53 := 0x20_0000_0000_0000
  const P62 := 0x4000_0000_0000_0000
  const P63 := 0x8000_0000_0000_0000
  const P64 := 0x1_0000_0000_0000_0000
  const P127 := 0x8000_0000_0000_0000_0000_0000_0000_0000
  const P128 := 0x1_0000_0000_0000_0000_0000_0000_0000_0000

  lemma {:induction false} Pow2Add(a: nat, b: nat)
    ensures Pow2(a + b) == Pow2(a) * Pow2(b)
  {
    if a != 0 {
      Pow2Add(a - 1, b);
      assert Pow2(a + b) == 2 * Pow2(a - 1 + b);
    }
  }

  lemma {:induction false} Pow2Mono(a: nat, b: nat)
    requires a <= b
    ensures Pow2(a) <= Pow2(b)
    ensures a < b ==> 2 * Pow2(a) <= Pow2(b)
  {
    if a < b {
      Pow2Mono(a, b - 1);
    }
  }

  lemma Pow2Values()
    ensures Pow2(0) == 1 && Pow2(1) == 2 && Pow2(10) == 1024 && Pow2(11) == 2048 && Pow2(12) == 4096
    ensures Pow2(23) == P23 && Pow2(24) == 2 * P23 && Pow2(52) == P52 && Pow2(53) == P53
    ensures Pow2(62) == P62 && Pow2(63) == P63 && Pow2(64) == P64
    ensures Pow2(127) == P127 && Pow2(128) == P128
  {
    assert Pow2(5) == 32;
    assert Pow2(10) == 1024 by { Pow2Add(5, 5); }
    assert Pow2(23) == P23 by { Pow2Add(10, 10); Pow2Add(20, 3); }
    assert Pow2(52) == P52 by { Pow2Add(23, 23); Pow2Add(46, 5); }
    assert Pow2(62) == P62 by { Pow2Add(52, 10); }
    assert Pow2(127) == P127 by { Pow2Add(63, 64); }
  }

  // ---- Shifts of unsigned words ----

  function Shl(x: nat, n: nat): nat {
    if n == 0 then x else 2 * Shl(x, n - 1)
  }

  function Shr(x: nat, n: nat): nat {
    if n == 0 then x else Shr(x, n - 1) / 2
  }

  lemma {:induction false} ShrBounds(x: nat, n: nat)
    ensures Shl(Shr(x, n), n) <= x < Shl(Shr(x, n), n) + Pow2(n)
  {
    if n != 0 {
      ShrBounds(x, n - 1);
      ShlOfHalf(Shr(x, n - 1), n - 1);
    }
  }

  lemma {:induction false} ShlOfHalf(y: nat, n: nat)
    ensures Shl(y, n) == 2 * Shl(y / 2, n) + (if y % 2 == 1 then Pow2(n) else 0)
  {
    if n != 0 {
      ShlOfHalf(y, n - 1);
    }
  }

  /** The low `n` bits: `x & ((1 << n) - 1)`. */
  function Low(x: nat, n: nat): (r: nat)
    ensures r < Pow2(n)
  {
    ShrBounds(x, n);
    x - Shl(Shr(x, n), n)
  }

  lemma {:induction false} ShlMono(x: nat, y: nat, n: nat)
    requires x <= y
    ensures Shl(x, n) <= Shl(y, n)
    ensures x < y ==> Shl(x, n) + Pow2(n) <= Shl(y, n)
  {
    if n != 0 {
      ShlMono(x, y, n - 1);
    }
  }

  lemma {:induction false} ShlNext(x: nat, n: nat)
    ensures Shl(x + 1, n) == Shl(x, n) + Pow2(n)
  {
    if n != 0 {
      ShlNext(x, n - 1);
    }
  }

  lemma {:induction false} ShlOfPow2(a: nat, n: nat)
    ensures Shl(Pow2(a), n) == Pow2(a + n)
  {
    if n != 0 {
      ShlOfPow2(a, n - 1);
    }
  }

  lemma {:induction false} ShlValue(x: nat, n: nat)
    ensures Shl(x, n) == x * Pow2(n)
  {
    if n != 0 {
      ShlValue(x, n - 1);
      assert x * Pow2(n) == 2 * (x * Pow2(n - 1));
    }
  }

  /** A quotient by 2^n is bracketed by shifted bounds. */
  lemma ShrRange(m: nat, a: nat, b: nat, n: nat)
    requires Pow2(a + n) <= m < Pow2(b + n)
    ensures Pow2(a) <= Shr(m, n) < Pow2(b)
  {
    ShrBounds(m, n);
    ShlOfPow2(a, n);
    ShlOfPow2(b, n);
    if Shr(m, n) < Pow2(a) {
      ShlMono(Shr(m, n), Pow2(a), n);
    }
    if Pow2(b) <= Shr(m, n) {
      ShlMono(Pow2(b), Shr(m, n), n);
    }
  }

  lemma ShrIsZero(x: nat, n: nat)
    ensures Shr(x, n) == 0 <==> x < Pow2(n)
  {
    ShrBounds(x, n);
    ShlOfPow2(0, n);
    if 0 < Shr(x, n) {
      ShlMono(1, Shr(x, n), n);
    } else {
      ShlOfPow2(0, n);
      ShlNext(0, n);
    }
  }

  lemma ShrValue(x: nat, n: nat)
    ensures Shr(x, n) == x / Pow2(n) && Low(x, n) == x % Pow2(n)
  {
    ShrBounds(x, n);
    ShlValue(Shr(x, n), n);
    DivModUnique(x, Pow2(n), Shr(x, n), Low(x, n));
  }

  /** Index of the most significant set bit; `leading_zeros` of a `w`-bit word is `w - 1` less this. */
  function TopBit(m: nat): (r: nat)
    requires 0 < m
    ensures Pow2(r) <= m < Pow2(r + 1)
  {
    if m == 1 then 0 else 1 + TopBit(m / 2)
  }

  lemma TopBitAtLeast(m: nat, n: nat)
    requires Pow2(n) <= m
    ensures n <= TopBit(m)
  {
    var t := TopBit(m);
    if t < n {
      Pow2Mono(t + 1, n);
    }
  }

  lemma TopBitUnique(m: nat, r: nat)
    requires 0 < m && Pow2(r) <= m < Pow2(r + 1)
    ensures TopBit(m) == r
  {
    if TopBit(m) < r {
      Pow2Mono(TopBit(m) + 1, r);
    } else if r < TopBit(m) {
      Pow2Mono(r + 1, TopBit(m));
    }
  }

  // Two to an integer power, as a real number. The value is picked by the predicate `IsPower`
  // rather than computed, so that proofs see it as one unknown and use the laws below.

  ghost predicate IsPower(e: int, r: real)
    decreases if e < 0 then -e else e
  {
    if e == 0 then r == 1.0 else if 0 < e then IsPower(e - 1, r / 2.0) else IsPower(e + 1, 2.0 * r)
  }

  lemma {:induction false} PowerUnique(e: int, r: real, s: real)
    requires IsPower(e, r) && IsPower(e, s)
    ensures r == s && 0.0 < r
    decreases if e < 0 then -e else e
  {
    if 0 < e { PowerUnique(e - 1, r / 2.0, s / 2.0); }
    else if e < 0 { PowerUnique(e + 1, 2.0 * r, 2.0 * s); }
  }

  lemma {:induction false} PowerExists(e: int) returns (r: real)
    ensures IsPower(e, r)
    decreases if e < 0 then -e else e
  {
    if e == 0 { r := 1.0; }
    else if 0 < e { r := PowerExists(e - 1); r := 2.0 * r; }
    else { r := PowerExists(e + 1); r := r / 2.0; }
  }

  lemma PowerExistsSomewhere(e: int)
    ensures exists r :: IsPower(e, r)
  {
    var r := PowerExists(e);
  }

  ghost function TwoTo(e: int): (r: real)
    ensures 0.0 < r
  {
    PowerExistsSomewhere(e);
    var r :| IsPower(e, r);
    PowerUnique(e, r, r);
    r
  }

  lemma TwoToStep(e: int)
    ensures TwoTo(e + 1) == 2.0 * TwoTo(e)
  {
    PowerExistsSomewhere(e);
    PowerExistsSomewhere(e + 1);
    var r, s := TwoTo(e), TwoTo(e + 1);
    assert IsPower(e, r) && IsPower(e + 1, s);
    if 0 <= e { PowerUnique(e, r, s / 2.0); }
    else { PowerUnique(e + 1, 2.0 * r, s); }
  }

  lemma TwoToZero()
    ensures TwoTo(0) == 1.0
  {
    PowerExistsSomewhere(0);
    assert IsPower(0, TwoTo(0));
  }

  lemma DoubleFactor(s: real, s': real, a: real, b: real, b': real)
    requires s' == 2.0 * s && b' == 2.0 * b
    ensures s' == a * b' <==> s == a * b
  {
    assert a * b' == 2.0 * (a * b);
  }

  lemma {:induction false} TwoToAdd(a: int, b: int)
    ensures TwoTo(a + b) == TwoTo(a) * TwoTo(b)
    decreases if b < 0 then -b else b
  {
    if b == 0 {
      TwoToZero();
    } else if 0 < b {
      TwoToAdd(a, b - 1);
      TwoToStep(a + b - 1);
      TwoToStep(b - 1);
      DoubleFactor(TwoTo(a + b - 1), TwoTo(a + b), TwoTo(a), TwoTo(b - 1), TwoTo(b));
    } else  {
      TwoToAdd(a, b + 1);
      TwoToStep(a + b);
      TwoToStep(b);
      DoubleFactor(TwoTo(a + b), TwoTo(a + b + 1), TwoTo(a), TwoTo(b), TwoTo(b + 1));
    }
  }

  lemma {:induction false} TwoToNat(n: nat)
    ensures TwoTo(n) == Pow2(n) as real
  {
    if n == 0 {
      TwoToZero();
    } else {
      TwoToNat(n - 1);
      TwoToStep(n - 1);
    }
  }

  lemma TwoToAddNat(a: int, n: nat)
    ensures TwoTo(a + n) == TwoTo(a) * Pow2(n) as real
  {
    TwoToAdd(a, n);
    TwoToNat(n);
  }

  lemma {:induction false} TwoToMono(a: int, b: int)
    requires a <= b
    ensures TwoTo(a) <= TwoTo(b)
    ensures a < b ==> 2.0 * TwoTo(a) <= TwoTo(b)
    decreases b - a
  {
    if a < b {
      TwoToMono(a, b - 1);
      TwoToStep(b - 1);
    }
  }

  lemma Reassociate(x: real, y: real, z: real)
    ensures x * (y * z) == y * (x * z) == (x * y) * z
  {
  }

  lemma MulLe(x: real, y: real, c: real)
    requires x <= y && 0.0 <= c
    ensures x * c <= y * c && c * x <= c * y
  {
    assert 0.0 <= (y - x) * c;
  }

  lemma MulLt(x: real, y: real, c: real)
    requires x < y && 0.0 < c
    ensures x * c < y * c && c * x < c * y
  {
    assert 0.0 < (y - x) * c;
  }

  // ---- Integer division, for variable divisors ----

  lemma MulAtLeast(a: int, d: nat)
    requires 1 <= a
    ensures d <= a * d
  {
  }

  lemma MulDistributes(a: int, b: int, d: int)
    ensures (a - b) * d == a * d - b * d
    ensures (a + b) * d == a * d + b * d
  {
  }

  lemma MulOrder(a: int, b: int, d: nat)
    requires a <= b
    ensures a * d <= b * d && d * a <= d * b
    ensures a < b && 0 < d ==> a * d < b * d && d * a < d * b
  {
    assert 0 <= (b - a) * d;
  }

  lemma DivModUnique(x: int, d: nat, q: int, r: int)
    requires 0 < d && x == q * d + r && 0 <= r < d
    ensures x / d == q && x % d == r
  {
    var q', r' := x / d, x % d;
    assert x == q' * d + r';
    MulDistributes(q', q, d);
    MulDistributes(q, q', d);
    if q' > q {
      MulAtLeast(q' - q, d);
    } else if q' < q {
      MulAtLeast(q - q', d);
    }
  }
}
