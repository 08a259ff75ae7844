/**
 What completed x87 instructions mean: the numbers left in registers and memory, said of the real values of the
 operands, of the numbers the control and status words are, and of two's complement integers.
 */
module Meaning {
  import opened Options
  import opened Powers
  import opened Rounding
  import opened Float80
  import opened RoundingPath
  import opened Codec
  import opened IntegerConversion
  import opened Images
  import opened Operations
  import opened Denormals
  import opened ControlWord
  import opened Instructions
  import opened Formats

  // ---- Reading a register back ----

  lemma ReadBack(b: Reg)
    ensures WellFormed(FromBytes(b)) && FromBytes(ToBytes(FromBytes(b))) == FromBytes(b)
  {
    hide Encode;
    hide Decode;
    hide BytesOfWords;
    hide WordsOfBytes;
    var w := WordsOfBytes(b);
    WordsRoundTrip(b);
    LoadThenStore(b);
    if PseudoDenormal(w) {
      PseudoDenormalSameValue(w);
      BytesRoundTrip(w.(se := w.se + 1));
    }
  }

  lemma IndefiniteReadsBack()
    ensures FromBytes(ToBytes(Indefinite())) == Indefinite()
  {
    hide Encode;
    hide Decode;
    StoreNan(Indefinite());
    ThroughBytes(Indefinite());
  }

  /** What a register reads as survives being stored in another. */
  lemma ReadsSurvive(a: Stack, i: nat)
    ensures FromBytes(ToBytes(Reads(a, i))) == Reads(a, i)
  {
    hide FromBytes;
    hide ToBytes;
    ReadBack(a.regs[Slot(a, i)]);
    IndefiniteReadsBack();
  }

  /** A normal number that came out of a register goes back into one with either sign. */
  lemma SignSurvives(v: Number, sign: bool)
    requires IsNormal(v) && FromBytes(ToBytes(v)) == v
    ensures Val(FromBytes(ToBytes(v.(sign := sign)))) == Val(v.(sign := sign))
  {
    hide FromBytes;
    hide ToBytes;
    hide Encode;
    hide Decode;
    hide OnDenormalGrid;
    var w := v.(sign := sign);
    ThroughBytes(v);
    ThroughBytes(w);
    StoreIsExact(v);
    StoreIsExact(w);
    GridSigned(v.sign, Scaled(v.sig, v.exp - 63));
    GridSigned(sign, Scaled(v.sig, v.exp - 63));
  }

  // ---- Arithmetic ----

  /** Where a register form leaves its result. */
  function Destination(dest: Dest, sti: nat): nat { if dest.ToTop? then 0 else sti }

  function Source(dest: Dest, sti: nat): nat { if dest.ToTop? then sti else 0 }

  /**
   Theorem: `fadd` to `fdivr` between registers leave `dest op source`, of the values of the operands, rounded as
   the control word asks, exactly when a register can hold that.
   */
  lemma RegArithMeans(op: Op, dest: Dest, sti: nat, lib: Library, s: Snapshot, t: Snapshot)
    requires StackDoes(RegArith(op, dest), sti, lib, s, t)
    requires IsNormal(Reads(s.stack, 0)) && IsNormal(Reads(s.stack, sti))
    ensures ResultHeld(op, Reads(s.stack, Destination(dest, sti)), Reads(s.stack, Source(dest, sti)), s.cw,
                       t.stack.regs[Slot(s.stack, Destination(dest, sti))])
  {
    hide FromBytes;
    hide ToBytes;
    hide CtlOf;
    hide Apply;
    hide Reads;
    hide ResultHeld;
    ResultIsHeld(op, Reads(s.stack, Destination(dest, sti)), Reads(s.stack, Source(dest, sti)), s.cw);
  }

  /** Theorem: and with an operand in memory. */
  lemma MemArithMeans(op: Op, f: ArithFormat, addr: nat, lib: Library, s: Snapshot, t: Snapshot)
    requires LoadDoes(MemArith(op, f), addr, lib, s, t) && IsNormal(Reads(s.stack, 0))
    ensures exists b: seq<Byte> | |b| == SizeOf(f) ::
              && Holds(s.mem, addr, b)
              && (IsNormal(Decoded(f, b, lib)) ==>
                    ResultHeld(op, Reads(s.stack, 0), Decoded(f, b, lib), s.cw, t.stack.regs[s.stack.top]))
  {
    hide FromBytes;
    hide ToBytes;
    hide CtlOf;
    hide Apply;
    hide Reads;
    hide Decoded;
    hide Holds;
    hide ResultHeld;
    var b: seq<Byte> :| |b| == SizeOf(f) && Holds(s.mem, addr, b) &&
      ReplacedIn(s.stack, t.stack, 0, Result(op, Reads(s.stack, 0), Decoded(f, b, lib), CtlOf(s.cw)), false);
    var d, u := Reads(s.stack, 0), Decoded(f, b, lib);
    if IsNormal(u) {
      ResultIsHeld(op, d, u, s.cw);
    }
  }

  /** `reg` holds the rounding of `d op u` that the control word asks for, exactly when a register can. */
  ghost predicate ResultHeld(op: Op, d: Number, u: Number, cw: Word16, reg: Reg) {
    && Val(d) != 0.0 && Val(u) != 0.0
    && forall y: real | RoundsAs(BitsValue(cw), Exact(op, Val(d), Val(u)), y) :: Val(FromBytes(reg)) == y <==> CanHold(y)
  }

  lemma ResultIsHeld(op: Op, d: Number, u: Number, cw: Word16)
    requires IsNormal(d) && IsNormal(u)
    ensures ResultHeld(op, d, u, cw, ToBytes(Result(op, d, u, CtlOf(cw))))
  {
    hide FromBytes;
    hide ToBytes;
    hide Val;
    hide CtlOf;
    hide Apply;
    hide RoundsAs;
    hide CanHold;
    SignOfVal(d);
    SignOfVal(u);
    forall y: real | RoundsAs(BitsValue(cw), Exact(op, Val(d), Val(u)), y)
      ensures Val(FromBytes(ToBytes(Result(op, d, u, CtlOf(cw))))) == y <==> CanHold(y)
    {
      RegisterRoundsAs(op, d, u, cw, y);
    }
  }

  // ---- Moves and signs ----

  lemma OneMeans()
    ensures IsNormal(One()) && One().exp == 0 && Val(One()) == 1.0
  {
    FromI64RoundTrip(1, Nearest);
  }

  /** There is room for a push. */
  predicate HasRoom(a: Stack) { a.empty[(a.top + 7) % 8] }

  lemma PushReads(a: Stack, b: Stack, bytes: Reg)
    requires PushedOn(a, b, bytes) && HasRoom(a)
    ensures Reads(b, 0) == FromBytes(bytes) && forall i: nat | i < 7 :: Reads(b, i + 1) == Reads(a, i)
  {
    hide FromBytes;
    hide ToBytes;
    forall i: nat | i < 7
      ensures Reads(b, i + 1) == Reads(a, i)
    {
      NextSlot(a.top, i);
    }
  }

  /** One further down from one above is the same register, and not the one above. */
  lemma NextSlot(top: Top, i: nat)
    requires i < 7
    ensures ((top + 7) % 8 + (i + 1)) % 8 == (top + i) % 8 != (top + 7) % 8
  {
  }

  /** Theorem: `fld1` leaves one, `fldz` plus zero and `fld ST(i)` what `ST(i)` was; the others move down. */
  lemma PushesMean(k: Kind, sti: nat, lib: Library, s: Snapshot, t: Snapshot)
    requires k.Fld1? || k.Fldz? || k.FldSti?
    requires StackDoes(k, sti, lib, s, t) && HasRoom(s.stack)
    ensures k.Fld1? ==> IsNormal(Reads(t.stack, 0)) && Val(Reads(t.stack, 0)) == 1.0
    ensures k.Fldz? ==> Reads(t.stack, 0) == ZeroOf(false)
    ensures k.FldSti? ==> Reads(t.stack, 0) == Reads(s.stack, sti)
    ensures forall i: nat | i < 7 :: Reads(t.stack, i + 1) == Reads(s.stack, i)
  {
    hide FromBytes;
    hide ToBytes;
    hide Reads;
    hide PushedOn;
    hide One;
    OneMeans();
    StoredReadsBack(One());
    StoredZero(false);
    ReadsSurvive(s.stack, sti);
    var bytes := ToBytes(if k.Fld1? then One() else if k.Fldz? then ZeroOf(false) else Reads(s.stack, sti));
    PushReads(s.stack, t.stack, bytes);
  }

  lemma ReplaceReads(a: Stack, b: Stack, v: Number)
    requires ReplacedIn(a, b, 0, v, false)
    ensures Reads(b, 0) == FromBytes(ToBytes(v))
  {
    hide FromBytes;
    hide ToBytes;
  }

  /** Theorem: `fchs` leaves the negation of a number and `fabs` its magnitude. */
  lemma SignsMean(k: Kind, sti: nat, lib: Library, s: Snapshot, t: Snapshot)
    requires k.Fchs? || k.Fabs?
    requires StackDoes(k, sti, lib, s, t) && (IsNormal(Reads(s.stack, 0)) || Reads(s.stack, 0).cls.Zero?)
    ensures k.Fchs? ==> Val(Reads(t.stack, 0)) == -Val(Reads(s.stack, 0))
    ensures k.Fabs? ==> Val(Reads(t.stack, 0)) == Abs(Val(Reads(s.stack, 0)))
  {
    hide FromBytes;
    hide ToBytes;
    hide Reads;
    hide ReplacedIn;
    var v := Reads(s.stack, 0);
    var w: Number := v.(sign := if k.Fchs? then !v.sign else false);
    ReadsSurvive(s.stack, 0);
    ReplaceReads(s.stack, t.stack, w);
    if v.cls.Zero? {
      StoredZeroLike(w);
    } else {
      SignSurvives(v, w.sign);
      PositiveMagnitude(v);
    }
  }

  lemma StoredZeroLike(w: Number)
    requires w.cls.Zero?
    ensures Val(FromBytes(ToBytes(w))) == 0.0 && Val(w) == 0.0
  {
    ThroughBytes(w);
  }

  lemma PositiveMagnitude(v: Number)
    requires IsNormal(v)
    ensures Val(v.(sign := false)) == Abs(Val(v)) && Val(v.(sign := !v.sign)) == -Val(v)
  {
    Positive(v.sig, v.exp - 63);
  }

  lemma Positive(k: nat, u: int)
    requires 0 < k
    ensures 0.0 < Scaled(k, u)
  {
    ScaledOrder(0, k, u);
    ScaledValue(0, u);
  }

  lemma SameSlot(a: Stack, i: nat, j: nat)
    ensures Slot(a, i) == Slot(a, j) ==> Reads(a, i) == Reads(a, j)
  {
    hide FromBytes;
  }

  lemma SlotsHold(b: Stack, i: nat, j: nat, v: Number, w: Number)
    requires !b.empty[Slot(b, i)] && !b.empty[Slot(b, j)] && FromBytes(ToBytes(v)) == v && FromBytes(ToBytes(w)) == w
    requires b.regs[Slot(b, j)] == ToBytes(w) && (Slot(b, i) != Slot(b, j) ==> b.regs[Slot(b, i)] == ToBytes(v))
    requires Slot(b, i) == Slot(b, j) ==> v == w
    ensures Reads(b, i) == v && Reads(b, j) == w
  {
    hide FromBytes;
    hide ToBytes;
  }

  /** Theorem: `fxch` exchanges what `ST(0)` and `ST(i)` read as, and `fst ST(i)` copies `ST(0)` there. */
  lemma MovesMean(k: Kind, sti: nat, lib: Library, s: Snapshot, t: Snapshot)
    requires k == Fxch || k == FstSti(false)
    requires StackDoes(k, sti, lib, s, t)
    ensures Reads(t.stack, sti) == Reads(s.stack, 0)
    ensures k.Fxch? ==> Reads(t.stack, 0) == Reads(s.stack, sti)
  {
    hide Reads;
    hide FromBytes;
    hide ToBytes;
    ReadsSurvive(s.stack, 0);
    ReadsSurvive(s.stack, sti);
    var v, w := Reads(s.stack, 0), Reads(s.stack, sti);
    SameSlot(s.stack, 0, sti);
    if k.Fxch? {
      SlotsHold(t.stack, 0, sti, w, v);
    } else {
      SlotsHold(t.stack, sti, sti, v, v);
    }
  }

  // ---- Integers in memory ----

  /** Bytes of an integer operand: a word, a doubleword or a quadword. */
  function IntegerWidth(f: IntFormat): nat { if f.I16? then 2 else if f.I32? then 4 else 8 }

  /** The bytes are the two's complement of `v`. */
  ghost predicate Denotes(b: seq<Byte>, v: int) {
    var m: int := Pow2(8 * |b|);
    -m <= 2 * v < m && (v - LeValue(b)) % m == 0
  }

  lemma SignedDenotes(b: seq<Byte>)
    requires b != []
    ensures Denotes(b, SignedOf(LeValue(b), |b|))
  {
    hide Pow2;
    hide LeValue;
    var n: int, m: int := LeValue(b), Pow2(8 * |b|);
    LeValueBound(b);
    DivModUnique(n, m, 0, n);
    DivModUnique(0, m, 0, 0);
    DivModUnique(-m, m, -1, 0);
  }

  /** The low bytes of an integer differ from it by a multiple of what they can hold. */
  lemma LowBytesDenote(n: int, width: nat)
    ensures |LowBytes(n, width)| == width && (n - LeValue(LowBytes(n, width))) % Pow2(8 * width) == 0
  {
    hide Pow2;
    hide LeValue;
    hide LeBytes;
    var m := Pow2(8 * width);
    LeValueOfBytes(n % m, width);
    var q := n / m;
    assert n - n % m == q * m;
    DivModUnique(q * m, m, q, 0);
  }

  /** Theorem: `fild` pushes exactly the integer in memory. */
  lemma IntegerLoadMeans(f: IntFormat, addr: nat, lib: Library, s: Snapshot, t: Snapshot)
    requires LoadDoes(Fld(f), addr, lib, s, t) && HasRoom(s.stack)
    ensures exists b: seq<Byte>, v: int | |b| == IntegerWidth(f) ::
              Holds(s.mem, addr, b) && Denotes(b, v) && Val(Reads(t.stack, 0)) == v as real
  {
    hide FromBytes;
    hide ToBytes;
    hide Reads;
    hide PushedOn;
    hide Holds;
    hide Denotes;
    hide FromI64;
    var b: seq<Byte> :| |b| == SizeOf(f) && Holds(s.mem, addr, b) &&
      PushedOn(s.stack, t.stack, ToBytes(Decoded(f, b, lib)));
    var v := SignedOf(LeValue(b), |b|);
    SignedDenotes(b);
    SignedFits(LeValue(b), |b|);
    FromI64RoundTrip(v, Nearest);
    PushReads(s.stack, t.stack, ToBytes(Decoded(f, b, lib)));
    IntegerSurvives(v);
    assert Denotes(b, v);
  }

  lemma IntegerSurvives(v: int)
    requires FitsI64(v)
    ensures WellFormed(FromI64(v)) && FromBytes(ToBytes(FromI64(v))) == FromI64(v)
  {
    hide FromBytes;
    hide ToBytes;
    IntegerIsWellFormed(v);
    if v == 0 {
      StoredZero(false);
    } else {
      IntegerInRange(v);
      StoredReadsBack(FromI64(v));
    }
  }

  lemma IntegerInRange(v: int)
    requires FitsI64(v) && v != 0
    ensures IsNormal(FromI64(v)) && EMIN <= FromI64(v).exp <= EMAX
  {
    IntegerIsWellFormed(v);
    hide Shl;
    hide Pow2;
  }

  /**
   Theorem: `fistp` stores the finite number rounded to an integer in the direction asked, or toward zero in the
   truncating form; one that the operand size cannot hold leaves the low bytes of its 64-bit conversion.
   */
  lemma IntegerStoreMeans(f: IntFormat, truncate: bool, addr: nat, lib: Library, s: Snapshot, t: Snapshot)
    requires StoreDoes(Fistp(f, truncate), addr, lib, s, t)
    requires Reads(s.stack, 0).cls.Zero? || IsNormal(Reads(s.stack, 0))
    ensures exists b: seq<Byte>, k: int | |b| == IntegerWidth(f) ::
              && Holds(t.mem, addr, b)
              && RoundsToAs(DirectionAsked(BitsValue(s.cw), truncate), Val(Reads(s.stack, 0)), k)
              && ((if FitsI64(k) then k else I64_MIN) - LeValue(b)) % Pow2(8 * |b|) == 0
  {
    hide ToI64;
    hide Reads;
    hide Val;
    hide LowBytes;
    hide Holds;
    hide RoundsToAs;
    hide LeValue;
    hide Pow2;
    hide BitsValue;
    hide RoundingControl;
    var x := Reads(s.stack, 0);
    IntegerRoundsAs(x, s.cw, truncate);
    var n := ToI64(x, if truncate then TowardZero else RoundingControl(s.cw));
    var k: int :| RoundsToAs(DirectionAsked(BitsValue(s.cw), truncate), Val(x), k) &&
      n == if FitsI64(k) then k else I64_MIN;
    LowBytesDenote(n, SizeOf(f));
    var b := LowBytes(n, SizeOf(f));
    assert Holds(t.mem, addr, b);
  }

  // ---- Doubles in memory ----

  /** Theorem: `fld` of a double pushes its value, and a denormal operand is one below the normal range. */
  lemma DoubleLoadMeans(addr: nat, lib: Library, s: Snapshot, t: Snapshot)
    requires LoadDoes(Fld(F64), addr, lib, s, t) && HasRoom(s.stack)
    ensures exists b: seq<Byte> | |b| == 8 ::
              && Holds(s.mem, addr, b)
              && (DoubleExponent(LeValue(b)) != 2047 ==>
                    Val(Reads(t.stack, 0)) == Signed(P63 <= LeValue(b), DoubleMagnitude(LeValue(b))))
  {
    hide FromBytes;
    hide ToBytes;
    hide Reads;
    hide PushedOn;
    hide Holds;
    hide FromF64;
    hide DoubleMagnitude;
    hide LeValue;
    var b: seq<Byte> :| |b| == SizeOf(F64) && Holds(s.mem, addr, b) &&
      PushedOn(s.stack, t.stack, ToBytes(Decoded(F64, b, lib)));
    LeValueBound(b);
    assert Pow2(64) == P64 by { Pow2Values(); }
    DoubleMeans(LeValue(b));
    PushReads(s.stack, t.stack, ToBytes(Decoded(F64, b, lib)));
    if DoubleExponent(LeValue(b)) != 2047 {
      DoubleSurvives(LeValue(b));
    }
  }

  lemma DoubleSurvives(bits: nat)
    requires bits < P64 && DoubleExponent(bits) != 2047
    ensures WellFormed(FromF64(bits)) && FromBytes(ToBytes(FromF64(bits))) == FromF64(bits)
  {
    hide FromBytes;
    hide ToBytes;
    WidenedIsWellFormed(bits);
    if FromF64(bits).cls.Zero? {
      StoredZero(FromF64(bits).sign);
      DoubleZero(bits);
    } else {
      DoubleInRange(bits);
      StoredReadsBack(FromF64(bits));
    }
  }

  lemma DoubleZero(bits: nat)
    requires bits < P64 && FromF64(bits).cls.Zero?
    ensures FromF64(bits) == ZeroOf(FromF64(bits).sign)
  {
    hide Shl;
    hide LeadingZeros;
  }

  lemma DoubleInRange(bits: nat)
    requires bits < P64 && DoubleExponent(bits) != 2047 && !FromF64(bits).cls.Zero?
    ensures IsNormal(FromF64(bits)) && EMIN <= FromF64(bits).exp <= EMAX
  {
    hide Shl;
    hide LeadingZeros;
  }

  /** Theorem: a double is a denormal operand exactly when it is not zero and below the least normal double. */
  lemma DenormalDouble(b: seq<Byte>)
    requires |b| == 8
    ensures LeValue(b) < P64
    ensures DenormalOperand(F64, b) <==>
            DoubleExponent(LeValue(b)) != 2047 && 0.0 < Abs(Val(FromF64(LeValue(b)))) < TwoTo(-1022)
  {
    hide LeValue;
    hide FromF64;
    LeValueBound(b);
    assert Pow2(64) == P64 by { Pow2Values(); }
    var bits := LeValue(b);
    DoubleMeans(bits);
    if DoubleExponent(bits) != 2047 {
      MagnitudeRange(bits);
      SubnormalPattern(bits);
    } else {
      SubnormalPattern(bits);
    }
  }

  /** And a single, by its fields: a zero exponent and a fraction. */
  lemma DenormalSingle(b: seq<Byte>)
    ensures DenormalOperand(F32, b) <==> LeValue(b) / 0x80_0000 % 256 == 0 && LeValue(b) % 0x80_0000 != 0
  {
    var v := LeValue(b);
    SingleFields(v);
  }

  lemma SingleFields(v: nat)
    ensures v % 0x8000_0000 < 0x80_0000 <==> v / 0x80_0000 % 256 == 0
  {
    var q, r := v / 0x80_0000, v % 0x80_0000;
    assert q == 256 * (q / 256) + q % 256;
    DivModUnique(v, 0x8000_0000, q / 256, 0x80_0000 * (q % 256) + r);
  }

  lemma SubnormalPattern(bits: nat)
    ensures bits % P63 < P52 && bits % P52 != 0 <==> DoubleExponent(bits) == 0 && DoubleFraction(bits) != 0
  {
  }

  lemma MagnitudeRange(bits: nat)
    ensures 0.0 < DoubleMagnitude(bits) < TwoTo(-1022) <==> DoubleExponent(bits) == 0 && DoubleFraction(bits) != 0
    ensures 0.0 <= DoubleMagnitude(bits)
  {
    hide Pow2;
    var e, f := DoubleExponent(bits), DoubleFraction(bits);
    assert Pow2(52) == P52 by { Pow2Values(); }
    ScaledValue(P52, -1074);
    TwoToAddNat(-1074, 52);
    ScaledValue(0, -1074);
    ScaledOrder(f, P52, -1074);
    ScaledOrder(0, f, -1074);
    var u: int := e;
    ScaledOrder(P52, P52 + f, u - 1075);
    ScaledOrder(0, P52 + f, u - 1075);
    ScaledValue(0, u - 1075);
    if e != 0 {
      ScaledGrows(P52, -1074, u - 1075);
    }
  }

  // ---- Exceptions, footprints and pairs ----

  /** Theorem: arithmetic raises what its operation raises, and the denormal exception for such an operand. */
  lemma RaisedMeans(op: Op, d: Number, u: Number, ctl: Ctl, denormal: bool)
    ensures var e, r := Apply(op, d, u, ctl).1, Raised(op, d, u, ctl, denormal);
            r.(de := e.de) == e && (r.de <==> denormal || e.de)
  {
    hide Apply;
  }

  /** Theorem: a completed store wrote exactly the bytes of its footprint. */
  lemma FootprintMeans(k: Kind, addr: nat, lib: Library, s: Snapshot, t: Snapshot)
    requires MemWriteBytes(k).Some? && StoreDoes(k, addr, lib, s, t)
    ensures exists data: seq<Byte> | |data| == Written(k) :: Holds(t.mem, addr, data)
  {
    hide Holds;
    hide ToF64;
    hide ToI64;
    hide Reads;
    hide LeBytes;
    hide Env28;
  }

  /** Theorem: argument reduction takes a number exactly when it is below 2^63. */
  lemma DomainMeans(v: Number)
    requires v.cls.Normal?
    ensures InDomain(v) <==> Abs(Val(v)) < TwoTo(63)
  {
    Positive(v.sig, v.exp - 63);
    RangeByExponent(v.sig, v.exp, 63);
  }

  lemma PairReads(a: Stack, b: Stack, v: Number, w: Number)
    requires ReplacedThenPushedIn(a, b, v, w) && HasRoom(a)
    ensures Reads(b, 1) == FromBytes(ToBytes(v)) && Reads(b, 0) == FromBytes(ToBytes(w))
  {
    hide FromBytes;
    hide ToBytes;
    NextSlot(a.top, 0);
  }

  /** Theorem: with room, `fptan` leaves the tangent under a one, and `fsincos` the sine under the cosine. */
  lemma PairsMean(k: Kind, addr: nat, sti: nat, lib: Library, s: Snapshot, t: Snapshot)
    requires (k.Fptan? || k.Fsincos?) && Does(k, addr, sti, lib, s, t) && HasRoom(s.stack) && InDomain(Reads(s.stack, 0))
    ensures var x := Reads(s.stack, 0);
            && Reads(t.stack, 1) == FromBytes(ToBytes(if k.Fptan? then lib.tan(x) else lib.unary(Sin, x)))
            && Reads(t.stack, 0) == FromBytes(ToBytes(if k.Fptan? then One() else lib.unary(Cos, x)))
  {
    hide FromBytes;
    hide ToBytes;
    hide InDomain;
    hide Reads;
    hide ReplacedThenPushedIn;
    hide FromI64;
    var x := Reads(s.stack, 0);
    PairReads(s.stack, t.stack, FirstResult(k.Fptan?, lib, x), SecondResult(k.Fptan?, lib, x));
  }

  // ---- Words ----

  lemma {:induction false} BitsJoin(a: seq<bool>, b: seq<bool>)
    ensures BitsValue(a + b) == BitsValue(a) + Pow2(|a|) * BitsValue(b)
    decreases |a|
  {
    if a == [] {
      assert a + b == b;
    } else {
      BitsJoin(a[1..], b);
      assert (a + b)[1..] == a[1..] + b;
      MulTwice(Pow2(|a| - 1), BitsValue(b));
    }
  }

  lemma MulTwice(p: nat, v: nat)
    ensures 2 * (p * v) == 2 * p * v
  {
  }

  lemma TwoByteValue(x: Byte, y: Byte)
    ensures LeValue([x, y]) == x + 256 * y
  {
    var one: seq<Byte> := [y];
    var two: seq<Byte> := [x, y];
    assert two[1..] == one && one[1..] == [];
    assert LeValue(one) == y + 256 * LeValue(one[1..]);
  }

  /** The two bytes of a word are its number, low byte first. */
  lemma WordNumber(w: Word16)
    ensures LeValue(WordBytes(w)) == BitsValue(w)
  {
    hide BitsValue;
    hide LeValue;
    BitsJoin(w[..8], w[8..]);
    assert w == w[..8] + w[8..];
    assert Pow2(8) == 256 by { SmallPowers(); }
    TwoByteValue(ByteOf(w[..8]), ByteOf(w[8..]));
  }

  /** The number of a word whose bits 13:11 are `a`, `b` and `c`. */
  lemma MiddleBits(low: seq<bool>, a: bool, b: bool, c: bool, high: seq<bool>)
    requires |low| == 11
    ensures BitsValue(low + ([a, b, c] + high)) ==
            BitsValue(low) +
            2048 * ((if a then 1 else 0) + (if b then 2 else 0) + (if c then 4 else 0) + 8 * BitsValue(high))
  {
    hide BitsValue;
    hide Pow2;
    assert Pow2(11) == 2048 && Pow2(3) == 8 by { SmallPowers(); EightIsPow2(); }
    BitsJoin(low, [a, b, c] + high);
    BitsJoin([a, b, c], high);
    ThreeBits(a, b, c);
  }

  lemma EightIsPow2()
    ensures Pow2(3) == 8
  {
    Pow2Add(1, 1);
    Pow2Add(2, 1);
    TwoIsPow2();
  }

  lemma ThreeBits(a: bool, b: bool, c: bool)
    ensures BitsValue([a, b, c]) == (if a then 1 else 0) + (if b then 2 else 0) + (if c then 4 else 0)
  {
    var three, two, one := [a, b, c], [b, c], [c];
    assert three[1..] == two && two[1..] == one && one[1..] == [];
    assert BitsValue(one) == if c then 1 else 0;
    assert BitsValue(two) == (if b then 1 else 0) + 2 * BitsValue(one);
  }

  lemma TopField(sw: Word16, top: Top)
    requires NoTop(sw)
    ensures BitsValue(StatusWord(sw, top)) == BitsValue(sw) + 2048 * top
  {
    hide BitsValue;
    var low, high := sw[..11], sw[14..];
    MiddleBits(low, false, false, false, high);
    MiddleBits(low, top % 2 == 1, top / 2 % 2 == 1, top / 4 == 1, high);
    assert sw == low + ([false, false, false] + high);
    assert StatusWord(sw, top) == low + ([top % 2 == 1, top / 2 % 2 == 1, top / 4 == 1] + high);
  }

  /** Theorem: `fnstcw` stores the number of the control word, `fnstsw` that of the status word with TOP in bits 13:11. */
  lemma WordStoresMean(k: Kind, addr: nat, lib: Library, s: Snapshot, t: Snapshot)
    requires (k.Fnstcw? || k.FnstswMem?) && StoreDoes(k, addr, lib, s, t) && NoTop(s.sw)
    ensures exists b: seq<Byte> | |b| == 2 ::
              && Holds(t.mem, addr, b)
              && LeValue(b) == if k.Fnstcw? then BitsValue(s.cw) else BitsValue(s.sw) + 2048 * s.stack.top
  {
    hide BitsValue;
    hide LeValue;
    hide WordBytes;
    hide StatusWord;
    WordNumber(s.cw);
    WordNumber(StatusWord(s.sw, s.stack.top));
    TopField(s.sw, s.stack.top);
    var b := WordBytes(if k.Fnstcw? then s.cw else StatusWord(s.sw, s.stack.top));
    assert Holds(t.mem, addr, b);
  }

  // ---- Words loaded, and the images ----

  lemma {:induction false} ValueOfBits(n: nat, len: nat)
    requires n < Pow2(len)
    ensures BitsValue(ValueBits(n, len)) == n
  {
    if len != 0 {
      ValueOfBits(n / 2, len - 1);
      var bits := ValueBits(n, len);
      assert bits[1..] == ValueBits(n / 2, len - 1);
    }
  }

  /** The number of the word two bytes are loaded as. */
  lemma NumberOfBytes(b: seq<Byte>)
    requires |b| == 2
    ensures BitsValue(BytesWord(b)) == LeValue(b)
  {
    hide BitsValue;
    hide LeValue;
    assert Pow2(8) == 256 by { SmallPowers(); }
    var low, high := ValueBits(b[0], 8), ValueBits(b[1], 8);
    ValueOfBits(b[0], 8);
    ValueOfBits(b[1], 8);
    BitsJoin(low, high);
    TwoByteValue(b[0], b[1]);
    assert b == [b[0], b[1]];
  }

  /** Digit `i` of what two bytes hold. */
  predicate Digit(b: seq<Byte>, i: nat) {
    LeValue(b) / Pow2(i) % 2 == 1
  }

  lemma DigitOfWord(b: seq<Byte>, i: nat)
    requires |b| == 2 && i < 16
    ensures BytesWord(b)[i] <==> Digit(b, i)
  {
    hide BitsValue;
    hide LeValue;
    hide Pow2;
    hide BytesWord;
    NumberOfBytes(b);
    DigitOf(BytesWord(b), i);
  }

  lemma DigitOfStored(w: Word16, i: nat)
    requires i < 16
    ensures w[i] <==> Digit(WordBytes(w), i)
  {
    hide BytesWord;
    hide WordBytes;
    DigitOfWord(WordBytes(w), i);
    WordRoundTrip(w);
  }

  /** The control word loaded from two bytes: their digits, with bit 6 set and bits 7 and 15:13 clear. */
  ghost predicate ControlFrom(b: seq<Byte>, cw: Word16) {
    forall i | 0 <= i < 16 :: cw[i] <==> i == 6 || (i != 7 && i < 13 && Digit(b, i))
  }

  lemma NormalizedDigits(b: seq<Byte>)
    requires |b| == 2
    ensures ControlFrom(b, NormalizeCw(BytesWord(b)))
  {
    hide BytesWord;
    hide Digit;
    forall i | 0 <= i < 16
      ensures BytesWord(b)[i] <==> Digit(b, i)
    {
      DigitOfWord(b, i);
    }
  }

  /** Theorem: `fldcw` loads the word in memory. */
  lemma ControlLoadMeans(addr: nat, lib: Library, s: Snapshot, t: Snapshot)
    requires LoadDoes(Fldcw, addr, lib, s, t)
    ensures exists b: seq<Byte> | |b| == 2 :: Holds(s.mem, addr, b) && ControlFrom(b, t.cw)
  {
    hide BytesWord;
    hide NormalizeCw;
    hide ControlFrom;
    var b: seq<Byte> :| |b| == 2 && Holds(s.mem, addr, b) && t.cw == NormalizeCw(BytesWord(b));
    NormalizedDigits(b);
  }

  /** TOP is bits 13:11 of the number. */
  lemma TopOfNumber(b: seq<Byte>)
    requires |b| == 2
    ensures TopOf(BytesWord(b)) == LeValue(b) / 2048 % 8
  {
    hide BitsValue;
    hide LeValue;
    hide BytesWord;
    var w := BytesWord(b);
    NumberOfBytes(b);
    var low, high := w[..11], w[14..];
    assert w == low + ([w[11], w[12], w[13]] + high);
    MiddleBits(low, w[11], w[12], w[13], high);
    BitsBound(low);
    assert Pow2(11) == 2048 by { SmallPowers(); }
    DivModUnique(LeValue(b), 2048, TopOf(w) + 8 * BitsValue(high), BitsValue(low));
    DivModUnique(LeValue(b) / 2048, 8, BitsValue(high), TopOf(w));
  }

  /** The two-bit tag of physical register `i` in a tag word. */
  function TagField(b: seq<Byte>, i: nat): nat {
    (if Digit(b, 2 * i) then 1 else 0) + (if Digit(b, 2 * i + 1) then 2 else 0)
  }

  lemma TagsStored(regs: Regs, empty: Tags, i: nat)
    requires i < 8
    ensures TagField(WordBytes(TagWord(regs, empty)), i) == Tag(regs[i], empty[i])
  {
    hide WordBytes;
    hide Tag;
    hide Digit;
    DigitOfStored(TagWord(regs, empty), 2 * i);
    DigitOfStored(TagWord(regs, empty), 2 * i + 1);
    assert (2 * i) / 2 == i && (2 * i + 1) / 2 == i;
  }

  /** Theorem: where `fnstenv` puts each field, the upper half of every dword of a word being filled with ones. */
  lemma EnvironmentLayout(e: Environment, regs: Regs)
    requires NoTop(e.sw)
    ensures var b := Env28(e, regs);
            && LeValue(b[0..2]) == BitsValue(e.cw) && LeValue(b[4..6]) == BitsValue(e.sw) + 2048 * e.top
            && (forall i: nat | i < 8 :: TagField(b[8..10], i) == Tag(regs[i], e.empty[i]))
            && b[12..26] == e.tail[..14] && b[2..4] == b[6..8] == b[10..12] == b[26..28] == [255, 255]
  {
    hide WordBytes;
    hide StatusWord;
    hide TagWord;
    hide TagField;
    hide LeValue;
    hide BitsValue;
    hide Tag;
    var b := Env28(e, regs);
    assert b[0..2] == WordBytes(e.cw) && b[4..6] == WordBytes(StatusWord(e.sw, e.top));
    assert b[8..10] == WordBytes(TagWord(regs, e.empty));
    WordNumber(e.cw);
    WordNumber(StatusWord(e.sw, e.top));
    TopField(e.sw, e.top);
    forall i: nat | i < 8
      ensures TagField(b[8..10], i) == Tag(regs[i], e.empty[i])
    {
      TagsStored(regs, e.empty, i);
    }
  }

  /** Theorem: and what `fldenv` reads from each place. */
  lemma EnvironmentFields(b: seq<Byte>)
    requires |b| == 28
    ensures var e := LoadEnv28(b);
            && ControlFrom(b[0..2], e.cw) && e.top == LeValue(b[4..6]) / 2048 % 8
            && (forall i | 0 <= i < 16 :: e.sw[i] <==> Digit(b[4..6], i) && !(11 <= i < 14))
            && (forall i: nat | i < 8 :: e.empty[i] <==> TagField(b[8..10], i) == 3)
            && e.tail == b[12..]
  {
    hide BytesWord;
    hide NormalizeCw;
    hide TopOf;
    hide ControlFrom;
    hide Digit;
    hide LeValue;
    NormalizedDigits(b[0..2]);
    TopOfNumber(b[4..6]);
    forall i | 0 <= i < 16
      ensures BytesWord(b[4..6])[i] <==> Digit(b[4..6], i)
      ensures BytesWord(b[8..10])[i] <==> Digit(b[8..10], i)
    {
      DigitOfWord(b[4..6], i);
      DigitOfWord(b[8..10], i);
    }
  }

  /** The vector control register's reset value and mask, and nothing between the words and them. */
  lemma RestOfHeader(st: Saved)
    ensures var h := Header(st);
            && LeValue(Slice(h, 24, 8)[..4]) == 0x1f80 && LeValue(Slice(h, 24, 8)[4..]) == 0xffff
            && forall i | 0 <= i < 19 :: Slice(h, 5, 19)[i] == 0
  {
    hide WordBytes;
    hide StatusWord;
    hide ByteOf;
    var zero: seq<Byte> := seq(512, i => 0);
    var words := WordBytes(st.cw) + WordBytes(StatusWord(st.sw, st.top)) + [ByteOf(Inverted(st.empty))];
    PatchReads(Patch(zero, 0, words), 24, MXCSR, 24, 8);
    PatchReads(Patch(zero, 0, words), 24, MXCSR, 5, 19);
    PatchReads(zero, 0, words, 5, 19);
    FourByteValue(MXCSR[..4]);
    FourByteValue(MXCSR[4..]);
  }

  lemma FourByteValue(b: seq<Byte>)
    requires |b| == 4
    ensures var x0: int, x1: int, x2: int, x3: int := b[0], b[1], b[2], b[3];
            LeValue(b) == x0 + 256 * x1 + 65536 * (x2 + 256 * x3)
  {
    hide LeValue;
    LeJoin(b);
    TwoByteValue(b[0], b[1]);
    TwoByteValue(b[2], b[3]);
    assert b[..2] == [b[0], b[1]] && b[2..] == [b[2], b[3]];
  }

  lemma LeJoin(b: seq<Byte>)
    requires |b| == 4
    ensures LeValue(b) == LeValue(b[..2]) + 65536 * LeValue(b[2..])
  {
    TwoByteValue(b[0], b[1]);
    assert b[..2] == [b[0], b[1]] && b[1..][1..] == b[2..];
    assert LeValue(b) == b[0] + 256 * LeValue(b[1..]);
    assert LeValue(b[1..]) == b[1] + 256 * LeValue(b[2..]);
  }

  /** Theorem: where `fxsave` puts each field: the stack from ST(0) on, a tag bit for each physical register in use. */
  lemma SaveAreaLayout(st: Saved)
    requires NoTop(st.sw)
    ensures var b := FxImage(st);
            && LeValue(b[0..2]) == BitsValue(st.cw) && LeValue(b[2..4]) == BitsValue(st.sw) + 2048 * st.top
            && (forall i: nat | i < 8 :: b[4] / Pow2(i) % 2 == 1 <==> !st.empty[i])
            && (forall j: nat | j < 8 :: b[32 + 16 * j..42 + 16 * j] == st.regs[(st.top + j) % 8])
            && (forall i: nat | i < 16 :: b[160 + 16 * i..176 + 16 * i] == st.xmm[i])
            && LeValue(b[24..28]) == 0x1f80 && LeValue(b[28..32]) == 0xffff
            && (forall i | 5 <= i < 24 :: b[i] == 0)
  {
    hide FxImage;
    hide Header;
    hide WordBytes;
    hide StatusWord;
    hide LeValue;
    hide BitsValue;
    hide Pow2;
    var b := FxImage(st);
    HeaderReads(st);
    ImageHeader(st, 0, 2);
    ImageHeader(st, 2, 2);
    ImageHeader(st, 4, 1);
    SliceOne(b, 4);
    WordNumber(st.cw);
    WordNumber(StatusWord(st.sw, st.top));
    TopField(st.sw, st.top);
    ImageHeader(st, 5, 19);
    ImageHeader(st, 24, 8);
    RestOfHeader(st);
    assert b[24..28] == Slice(b, 24, 8)[..4] && b[28..32] == Slice(b, 24, 8)[4..];
    assert forall i | 5 <= i < 24 :: b[i] == Slice(b, 5, 19)[i - 5];
    forall i: nat | i < 8
      ensures b[4] / Pow2(i) % 2 == 1 <==> !st.empty[i]
    {
      DigitOf(Inverted(st.empty), i);
    }
    ImageSlots(st);
    forall j: nat | j < 8
      ensures b[32 + 16 * j..42 + 16 * j] == st.regs[(st.top + j) % 8]
    {
      StackedAt(st.regs, st.top, j);
    }
  }
}
