/** The x87 instructions: their operands, what the stack reads as, and what each does to the state when it completes. */
module Instructions {
  import opened Options
  import opened Powers
  import opened Rounding
  import opened Float80
  import opened Codec
  import opened IntegerConversion
  import opened Comparison
  import opened Images
  import opened Operations

  type Number = a: F80 | WellFormed(a) witness F80(false, Zero, 0, 0)

  /** A 64-bit pattern. */
  type Bits64 = n: nat | n < P64

  datatype Flags = Flags(zf: bool, pf: bool, cf: bool, of: bool, sf: bool, af: bool)

  /** `[addr, addr + |data|)` holds `data`. */
  ghost predicate Holds(bytes: map<nat, Byte>, addr: nat, data: seq<Byte>) {
    forall i | 0 <= i < |data| :: addr + i in bytes && bytes[addr + i] == data[i]
  }

  // ---- Status word ----

  /** The seven flags an exception sets, as bits 6:0 of the status word. */
  function FlagBits(e: Exc): seq<bool> { [e.ie, e.de, e.ze, e.oe, e.ue, e.pe, e.sf] }

  /** The six flags are sticky: raising only adds to them. */
  function WithFlags(sw: Word16, e: Exc): Word16 {
    seq(16, i requires 0 <= i < 16 => sw[i] || (i < 7 && FlagBits(e)[i]))
  }

  /** The exception that bit `i` of the status word reports. */
  predicate FlagAt(e: Exc, i: nat) {
    match i
    case 0 => e.ie
    case 1 => e.de
    case 2 => e.ze
    case 3 => e.oe
    case 4 => e.ue
    case 5 => e.pe
    case 6 => e.sf
    case _ => false
  }

  lemma FlagsAgree(e: Exc)
    ensures forall i | 0 <= i < 7 :: FlagBits(e)[i] == FlagAt(e, i)
    ensures e == NONE ==> forall i | 0 <= i < 7 :: !FlagAt(e, i)
  {
  }

  /** Some exception flag is set whose mask bit in the control word is clear. */
  predicate Unmasked(sw: Word16, cw: Word16) {
    exists i | 0 <= i < 6 :: sw[i] && !cw[i]
  }

  lemma InvalidUnmasks(sw: Word16, sw': Word16, cw: Word16)
    requires forall i | 0 <= i < 6 :: sw'[i] == (sw[i] || i == 0)
    ensures Unmasked(sw', cw) <==> !cw[0] || Unmasked(sw, cw)
  {
    assert sw'[0];
  }

  predicate AllMasked(cw: Word16) { forall i | 0 <= i < 6 :: cw[i] }

  lemma MaskedAbandonsNothing(sw: Word16, cw: Word16)
    ensures AllMasked(cw) ==> !Unmasked(sw, cw)
  {
  }

  /** Flags of `sw` that `sw'` still has. */
  predicate Keeps(sw: Word16, sw': Word16) {
    forall i | 0 <= i < 7 :: sw[i] ==> sw'[i]
  }

  const C1 := 9
  const ES := 7
  const BUSY := 15

  // ---- Instructions ----

  /** Formats of a memory operand. */
  datatype Format = F64 | F32 | I16 | I32 | I64

  function SizeOf(f: Format): nat {
    match f
    case F64 => 8
    case F32 => 4
    case I16 => 2
    case I32 => 4
    case I64 => 8
  }

  type FloatFormat = f: Format | f.F64? || f.F32? witness F64

  type IntFormat = f: Format | f.I16? || f.I32? || f.I64? witness I16

  type NarrowFormat = f: Format | f.I16? || f.I32? witness I16

  type ArithFormat = f: Format | !f.I64? witness F64

  /** Where a register-form result goes. */
  datatype Dest = ToTop | ToSti | ToStiPop

  datatype Unary = Sin | Cos | Exp2m1

  datatype Binary = Atan2 | Ylog2x | Ylog2xp1

  datatype Kind =
    | Fld(f: Format) | FldF80 | FldSti | Fld1 | Fldz
    | Fst(ff: FloatFormat, pops: bool) | FstpF80 | Fistp(i: IntFormat, truncate: bool) | FstSti(pops: bool)
    | MemArith(op: Op, af: ArithFormat) | RegArith(op: Op, dest: Dest)
    | Fxch | Fcomi(pops: bool) | Ficom(nf: NarrowFormat, pops: bool) | Fabs | Fchs
    | Fldcw | Fnstcw | Fnstsw | FnstswMem | Fnstenv | Fldenv | Fninit | Fnclex
    | Fprem | Transcend(u: Unary) | Combine(b: Binary) | Fptan | Fsincos

  /** Operations this model does not define: series and host arithmetic, as arbitrary functions. */
  datatype Library = Library(unary: (Unary, Number) -> Number, binary: (Binary, Number, Number) -> Number,
                             tan: Number -> Number, rem: (Number, Number) -> Number,
                             widen: nat -> Bits64, narrow: nat -> nat)

  /**
   How an instruction ends. The operation itself reports a fault or nothing; an instruction stopped by an
   unmasked exception is told apart from a completed one by what it left undone.
   */
  datatype Outcome = Completed | Abandoned | Fault(addr: nat, isWrite: bool)

  /** Bytes an instruction writes at its address. */
  function MemWriteBytes(k: Kind): Option<nat> {
    match k
    case Fst(f, _) => Some(SizeOf(f))
    case FstpF80 => Some(10)
    case Fistp(f, _) => Some(SizeOf(f))
    case Fnstcw => Some(2)
    case FnstswMem => Some(2)
    case Fnstenv => Some(28)
    case _ => None
  }

  function Written(k: Kind): nat { if MemWriteBytes(k).Some? then MemWriteBytes(k).value else 0 }

  predicate UsesMemory(k: Kind) {
    k.Fld? || k.FldF80? || k.Fst? || k.FstpF80? || k.Fistp? || k.MemArith? || k.Ficom? || k.Fldcw? || k.Fnstcw? ||
    k.FnstswMem? || k.Fnstenv? || k.Fldenv?
  }

  predicate UsesStack(k: Kind) {
    k.FldSti? || k.Fld1? || k.Fldz? || k.FstSti? || k.RegArith? || k.Fxch? || k.Fcomi? || k.Fabs? || k.Fchs? ||
    k.Fprem? || k.Transcend? || k.Combine?
  }

  /** Instructions that may clear exception flags. */
  predicate ClearsFlags(k: Kind) { k.Fnclex? || k.Fninit? || k.Fldenv? }

  /** Instructions that write a result before a push that can fault. */
  predicate WritesThenPushes(k: Kind) { k.Fptan? || k.Fsincos? }

  // ---- Operands ----

  /** Two's complement of the low `8 * width` bits. */
  function SignedOf(n: nat, width: nat): int {
    var m := Pow2(8 * width);
    if 2 * (n % m) < m then n % m else n % m - m
  }

  function LowBytes(n: int, width: nat): seq<Byte> { LeBytes(n % Pow2(8 * width), width) }

  lemma SignedFits(n: nat, width: nat)
    requires 1 <= width <= 8
    ensures FitsI64(SignedOf(n, width))
  {
    hide Pow2;
    assert Pow2(64) == P64 by { Pow2Values(); }
    Pow2Mono(8 * width, 64);
  }

  lemma WidenedIsWellFormed(bits: Bits64)
    ensures WellFormed(FromF64(bits))
  {
    hide Shl;
    hide Pow2;
  }

  lemma IntegerIsWellFormed(v: int)
    requires FitsI64(v)
    ensures WellFormed(FromI64(v))
  {
    hide Shl;
    hide Pow2;
  }

  /** The number a memory operand stands for. */
  function Decoded(f: Format, b: seq<Byte>, lib: Library): Number
    requires |b| == SizeOf(f)
  {
    match f
    case F64 =>
      LeValueBound(b);
      assert Pow2(64) == P64 by { Pow2Values(); }
      WidenedIsWellFormed(LeValue(b));
      FromF64(LeValue(b))
    case F32 =>
      WidenedIsWellFormed(lib.widen(LeValue(b)));
      FromF64(lib.widen(LeValue(b)))
    case _ =>
      SignedFits(LeValue(b), SizeOf(f));
      IntegerIsWellFormed(SignedOf(LeValue(b), SizeOf(f)));
      FromI64(SignedOf(LeValue(b), SizeOf(f)))
  }

  /** A floating memory operand with a zero exponent field and a fraction. */
  predicate DenormalOperand(f: Format, b: seq<Byte>) {
    var v := LeValue(b);
    match f
    case F64 => v % P63 < P52 && v % P52 != 0
    case F32 => v % 0x8000_0000 < P23 && v % P23 != 0
    case _ => false
  }

  /** The value an arithmetic instruction delivers. */
  function Result(op: Op, dest: Number, source: Number, ctl: Ctl): Number {
    ApplyWellFormed(op, dest, source, ctl);
    Apply(op, dest, source, ctl).0
  }

  /** The exceptions it raises, a denormal operand among them. */
  function Raised(op: Op, dest: Number, source: Number, ctl: Ctl, denormal: bool): Exc {
    var e := Apply(op, dest, source, ctl).1;
    if denormal then e.With(DE) else e
  }

  /** A comparison sets all three codes. */
  predicate Unordered(a: Number, b: Number) { CompareFlags(a, b) == (true, true, true) }

  predicate DenormalReg(r: Reg) {
    LeValue(r[8..]) % SIGN_BIT == 0 && LeValue(r[..8]) != 0
  }

  /** The tag of a register in use says what its bytes decode to. */
  lemma TagClassifies(r: Reg)
    ensures var t, a := Tag(r, false), FromBytes(r);
            && (t == 1 <==> a.cls.Zero?)
            && (t == 0 <==> a.cls.Normal? && !DenormalReg(r))
            && (t == 2 <==> DenormalReg(r) || a.cls.Inf? || a.cls.Nan? || a.cls.Unsupported?)
  {
    hide LeValue;
    hide LeadingZeros;
    hide Shl;
    WordsRoundTrip(r);
  }

  /** Argument reduction takes place below 2^63; beyond it the operand is left alone. */
  predicate InDomain(v: Number) { v.cls.Normal? ==> v.exp < 63 }

  function FirstResult(tangent: bool, lib: Library, x: Number): Number {
    if tangent then lib.tan(x) else lib.unary(Sin, x)
  }

  function SecondResult(tangent: bool, lib: Library, x: Number): Number {
    IntegerIsWellFormed(1);
    if tangent then FromI64(1) else lib.unary(Cos, x)
  }

  function One(): Number {
    IntegerIsWellFormed(1);
    FromI64(1)
  }

  // ---- The register stack and what instructions do to it ----

  /** The eight registers, which of them is `ST(0)` and which are empty. */
  datatype Stack = Stack(regs: Regs, top: Top, empty: Tags)

  function Slot(a: Stack, i: nat): Top { (a.top + i) % 8 }

  /** The number `ST(i)` reads as when the instruction goes on: an empty register reads as the indefinite. */
  ghost function Reads(a: Stack, i: nat): Number {
    if a.empty[Slot(a, i)] then Indefinite()
    else
      LoadThenStore(a.regs[Slot(a, i)]);
      FromBytes(a.regs[Slot(a, i)])
  }

  /** `bytes` were pushed; a push onto a register in use leaves the indefinite there instead. */
  ghost predicate PushedOn(a: Stack, b: Stack, bytes: Reg) {
    var dst: nat := (a.top + 7) % 8;
    b == Stack(a.regs[dst := if a.empty[dst] then bytes else ToBytes(Indefinite())], dst, a.empty[dst := false])
  }

  /** `ST(i)` was replaced by `v`, and the stack popped if `pops`. */
  ghost predicate ReplacedIn(a: Stack, b: Stack, i: nat, v: Number, pops: bool) {
    var d := Slot(a, i);
    b == if pops then Stack(a.regs[d := ToBytes(v)], (a.top + 1) % 8, a.empty[d := false][a.top := true])
         else Stack(a.regs[d := ToBytes(v)], a.top, a.empty[d := false])
  }

  /** `ST(0)` was replaced by `v`, then `w` was pushed, or the indefinite onto a register in use. */
  ghost predicate ReplacedThenPushedIn(a: Stack, b: Stack, v: Number, w: Number) {
    var dst: nat := (a.top + 7) % 8;
    b == Stack(a.regs[a.top := ToBytes(v)][dst := ToBytes(if a.empty[dst] then w else Indefinite())], dst,
               a.empty[a.top := false][dst := false])
  }

  ghost predicate PoppedFrom(a: Stack, b: Stack, pops: bool) {
    b == if pops then Stack(a.regs, (a.top + 1) % 8, a.empty[a.top := true]) else a
  }

  /** `ST(0)` and `ST(i)` changed places, and both are in use. */
  ghost predicate ExchangedIn(a: Stack, b: Stack, i: nat) {
    var p, q := Slot(a, 0), Slot(a, i);
    b == Stack(a.regs[p := ToBytes(Reads(a, i))][q := ToBytes(Reads(a, 0))], a.top, a.empty[p := false][q := false])
  }

  /** Everything an instruction can change. */
  datatype Snapshot = Snapshot(stack: Stack, sw: Word16, cw: Word16, tail: Tail, flags: Flags, ax: Word16,
                               xmm: Lanes, mem: map<nat, Byte>)

  /** Only the register stack and the status word changed. */
  ghost predicate OnlyStack(s: Snapshot, t: Snapshot) {
    t == s.(stack := t.stack, sw := t.sw)
  }

  /** `data` was written, and the stack popped if `pops`. */
  ghost predicate Wrote(s: Snapshot, t: Snapshot, addr: nat, data: seq<Byte>, pops: bool) {
    && t == s.(stack := t.stack, sw := t.sw, mem := t.mem)
    && PoppedFrom(s.stack, t.stack, pops) && Holds(t.mem, addr, data)
  }

  /** What a completed instruction that reads memory did. */
  ghost predicate LoadDoes(k: Kind, addr: nat, lib: Library, s: Snapshot, t: Snapshot)
    requires UsesMemory(k) && !k.Fldenv? && MemWriteBytes(k).None?
  {
    match k
    case Fld(f) => OnlyStack(s, t) && exists b: seq<Byte> | |b| == SizeOf(f) ::
      Holds(s.mem, addr, b) && PushedOn(s.stack, t.stack, ToBytes(Decoded(f, b, lib)))
    case FldF80 => OnlyStack(s, t) && exists b: Reg :: Holds(s.mem, addr, b) && PushedOn(s.stack, t.stack, b)
    case MemArith(op, f) => OnlyStack(s, t) && exists b: seq<Byte> | |b| == SizeOf(f) ::
      && Holds(s.mem, addr, b)
      && ReplacedIn(s.stack, t.stack, 0, Result(op, Reads(s.stack, 0), Decoded(f, b, lib), CtlOf(s.cw)), false)
    case Ficom(f, pops) =>
      && OnlyStack(s, t) && PoppedFrom(s.stack, t.stack, pops) && !t.sw[9]
      && exists b: seq<Byte> | |b| == SizeOf(f) ::
           && Holds(s.mem, addr, b)
           && (t.sw[14], t.sw[10], t.sw[8]) == CompareFlags(Reads(s.stack, 0), Decoded(f, b, lib))
    case Fldcw => t == s.(cw := t.cw) && exists b: seq<Byte> | |b| == 2 ::
      Holds(s.mem, addr, b) && t.cw == NormalizeCw(BytesWord(b))
  }

  /** What a completed instruction that writes memory did. */
  ghost predicate StoreDoes(k: Kind, addr: nat, lib: Library, s: Snapshot, t: Snapshot)
    requires MemWriteBytes(k).Some?
  {
    match k
    case Fst(f, pops) =>
      var bits := ToF64(Reads(s.stack, 0));
      Wrote(s, t, addr, if f.F64? then LeBytes(bits, 8) else LeBytes(lib.narrow(bits), 4), pops)
    case FstpF80 =>
      Wrote(s, t, addr, if s.stack.empty[s.stack.top] then ToBytes(Indefinite()) else s.stack.regs[s.stack.top], true)
    case Fistp(f, truncate) =>
      var rc := if truncate then TowardZero else RoundingControl(s.cw);
      Wrote(s, t, addr, LowBytes(ToI64(Reads(s.stack, 0), rc), SizeOf(f)), true)
    case Fnstcw => Wrote(s, t, addr, WordBytes(s.cw), false)
    case FnstswMem => Wrote(s, t, addr, WordBytes(StatusWord(s.sw, s.stack.top)), false)
    case Fnstenv =>
      && t == s.(cw := t.cw, mem := t.mem) && Holds(t.mem, addr, Env28(EnvironmentOf(s), s.stack.regs))
      && forall i | 0 <= i < 16 :: t.cw[i] == (i < 6 || s.cw[i])
  }

  /** What a completed instruction on the register stack did. */
  ghost predicate StackDoes(k: Kind, sti: nat, lib: Library, s: Snapshot, t: Snapshot)
    requires UsesStack(k)
  {
    match k
    case FldSti => OnlyStack(s, t) && PushedOn(s.stack, t.stack, ToBytes(Reads(s.stack, sti)))
    case Fld1 => OnlyStack(s, t) && PushedOn(s.stack, t.stack, ToBytes(One()))
    case Fldz => OnlyStack(s, t) && PushedOn(s.stack, t.stack, ToBytes(ZeroOf(false)))
    case FstSti(pops) => OnlyStack(s, t) && ReplacedIn(s.stack, t.stack, sti, Reads(s.stack, 0), pops)
    case RegArith(op, dest) => OnlyStack(s, t) &&
      var s0, si := Reads(s.stack, 0), Reads(s.stack, sti);
      if dest.ToTop? then ReplacedIn(s.stack, t.stack, 0, Result(op, s0, si, CtlOf(s.cw)), false)
      else ReplacedIn(s.stack, t.stack, sti, Result(op, si, s0, CtlOf(s.cw)), dest.ToStiPop?)
    case Fxch => OnlyStack(s, t) && ExchangedIn(s.stack, t.stack, sti)
    case Fcomi(pops) =>
      && t == s.(stack := t.stack, sw := t.sw, flags := t.flags) && PoppedFrom(s.stack, t.stack, pops)
      && (t.flags.zf, t.flags.pf, t.flags.cf) == CompareFlags(Reads(s.stack, 0), Reads(s.stack, sti))
      && !t.flags.of && !t.flags.sf && !t.flags.af
    case Fabs => OnlyStack(s, t) && ReplacedIn(s.stack, t.stack, 0, Reads(s.stack, 0).(sign := false), false)
    case Fchs =>
      OnlyStack(s, t) && ReplacedIn(s.stack, t.stack, 0, Reads(s.stack, 0).(sign := !Reads(s.stack, 0).sign), false)
    case Fprem =>
      OnlyStack(s, t) && ReplacedIn(s.stack, t.stack, 0, lib.rem(Reads(s.stack, 0), Reads(s.stack, 1)), false)
    case Transcend(u) => OnlyStack(s, t) &&
      var x := Reads(s.stack, 0);
      if u.Exp2m1? || InDomain(x) then ReplacedIn(s.stack, t.stack, 0, lib.unary(u, x), false) else t.stack == s.stack
    case Combine(b) =>
      OnlyStack(s, t) && ReplacedIn(s.stack, t.stack, 1, lib.binary(b, Reads(s.stack, 1), Reads(s.stack, 0)), true)
  }

  /** What a completed instruction on the control and status words did, and `fldenv`. */
  ghost predicate ControlDoes(k: Kind, addr: nat, s: Snapshot, t: Snapshot)
    requires k.Fldenv? || k.Fnstsw? || k.Fninit? || k.Fnclex?
  {
    match k
    case Fnstsw => t == s.(ax := StatusWord(s.sw, s.stack.top))
    case Fldenv => t.stack.regs == s.stack.regs && (t.flags, t.ax, t.xmm, t.mem) == (s.flags, s.ax, s.xmm, s.mem) &&
      exists b: seq<Byte> | |b| == 28 :: Holds(s.mem, addr, b) && EnvironmentOf(t) == LoadEnv28(b)
    case Fninit =>
      && t == s.(stack := t.stack, sw := t.sw, cw := t.cw, tail := t.tail)
      && t.stack.regs == s.stack.regs && t.stack.top == 0 && (forall i | 0 <= i < 8 :: t.stack.empty[i])
      && forall i | 0 <= i < 16 :: t.cw[i] == (i < 7 || i == 8 || i == 9) && !t.sw[i] && t.tail[i] == 0
    case Fnclex => t == s.(sw := t.sw) && forall i | 0 <= i < 16 :: t.sw[i] == (s.sw[i] && 9 <= i < 15)
  }

  /** What a completed instruction did. */
  ghost predicate Does(k: Kind, addr: nat, sti: nat, lib: Library, s: Snapshot, t: Snapshot) {
    if MemWriteBytes(k).Some? then StoreDoes(k, addr, lib, s, t)
    else if UsesMemory(k) && !k.Fldenv? then LoadDoes(k, addr, lib, s, t)
    else if UsesStack(k) then StackDoes(k, sti, lib, s, t)
    else if WritesThenPushes(k) then OnlyStack(s, t) && PairDone(k.Fptan?, lib, s.stack, t.stack)
    else ControlDoes(k, addr, s, t)
  }

  ghost predicate PairDone(tangent: bool, lib: Library, a: Stack, b: Stack) {
    var x := Reads(a, 0);
    if InDomain(x) then ReplacedThenPushedIn(a, b, FirstResult(tangent, lib, x), SecondResult(tangent, lib, x))
    else a == b
  }

  function EnvironmentOf(s: Snapshot): Environment {
    Environment(s.cw, s.sw, s.stack.top, s.stack.empty, s.tail)
  }
}
