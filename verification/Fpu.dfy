/** The x87 stack machine: eight tagged registers, sticky exception flags and instructions that may be abandoned. */
module Fpu {
  import opened Options
  import opened Powers
  import opened Rounding
  import opened Float80
  import opened Codec
  import opened IntegerConversion
  import opened Comparison
  import opened Images
  import opened Operations
  import opened Instructions

  // ---- Guest memory ----

  class Ram {
    var bytes: map<nat, Byte>

    method Load(addr: nat, n: nat) returns (r: Option<seq<Byte>>)
      ensures r.Some? <==> forall a | addr <= a < addr + n :: a in bytes
      ensures r.Some? ==> |r.value| == n && forall i | 0 <= i < n :: r.value[i] == bytes[addr + i]
    {
      var m := bytes;
      if forall a | addr <= a < addr + n :: a in m {
        r := Some(seq(n, i requires 0 <= i < n && addr + i in m => m[addr + i]));
      } else {
        r := None;
      }
    }

    method Store(addr: nat, data: seq<Byte>) returns (ok: bool)
      modifies this
      ensures ok <==> forall a | addr <= a < addr + |data| :: a in old(bytes)
      ensures bytes.Keys == old(bytes.Keys)
      ensures forall a | a in bytes ::
                bytes[a] == if ok && addr <= a < addr + |data| then data[a - addr] else old(bytes[a])
      ensures !ok ==> bytes == old(bytes)
    {
      ok := forall a | addr <= a < addr + |data| :: a in bytes;
      if ok {
        bytes := map a | a in bytes :: if addr <= a < addr + |data| then data[a - addr] else bytes[a];
      }
    }
  }

  class Fpu {
    var regs: Regs
    var top: Top
    var empty: Tags
    var sw: Word16
    var cw: Word16
    var tail: Tail
    var flags: Flags
    var ax: Word16
    var xmm: Lanes

    constructor ()
      ensures Valid() && top == 0 && (forall i | 0 <= i < 8 :: empty[i]) && AllMasked(cw)
    {
      regs := seq<Reg>(8, i => CLEAR);
      top, empty, sw := 0, seq(8, i => true), seq(16, i => false);
      cw := seq(16, i => i < 7 || i == 8 || i == 9);
      tail, flags, ax := seq(16, i => 0), Flags(false, false, false, false, false, false), seq(16, i => false);
      xmm := seq<Lane>(16, i => ZERO_LANE);
    }

    /** What every reachable state satisfies: TOP is kept once, and the control word is as loads leave it. */
    ghost predicate Valid()
      reads this
    {
      Normalized(cw) && NoTop(sw)
    }

    /** Everything but the status word is as it was. */
    twostate predicate Untouched(ram: Ram)
      reads this, ram
    {
      && regs == old(regs) && top == old(top) && empty == old(empty) && cw == old(cw) && tail == old(tail)
      && flags == old(flags) && ax == old(ax) && xmm == old(xmm) && ram.bytes == old(ram.bytes)
    }

    /** Memory outside `[addr, addr + n)` is as it was. */
    twostate predicate OnlyWrites(ram: Ram, addr: nat, n: nat)
      reads ram
    {
      && ram.bytes.Keys == old(ram.bytes.Keys)
      && forall a | a in ram.bytes && !(addr <= a < addr + n) :: ram.bytes[a] == old(ram.bytes[a])
    }

    /** An instruction that did not complete left everything but the status word alone. */
    twostate predicate Clean(out: Outcome, ram: Ram, addr: nat, n: nat)
      reads this, ram
    {
      && Valid() && Keeps(old(sw), sw) && OnlyWrites(ram, addr, n)
      && (out.Fault? ==> Untouched(ram) && out == Fault(addr, 0 < n))
      && (out.Abandoned? ==> Untouched(ram) && Reported())
    }

    /** An unmasked exception is pending for the next waiting instruction. */
    ghost predicate Reported()
      reads this
    {
      sw[7] && sw[15] && Unmasked(sw, cw)
    }

    function Phys(i: nat): Top
      reads this`top
    {
      (top + i) % 8
    }

    ghost function St(): Stack
      reads this`top, this`empty, this`regs
    {
      Stack(regs, top, empty)
    }

    /** The number `ST(i)` reads as when the instruction goes on. */
    ghost function StValue(i: nat): Number
      reads this`top, this`empty, this`regs
    {
      Reads(St(), i)
    }

    twostate predicate Pushed(bytes: Reg)
      reads this
    {
      PushedOn(old(St()), St(), bytes)
    }

    twostate predicate Replaced(i: nat, v: Number, pops: bool)
      reads this
    {
      ReplacedIn(old(St()), St(), i, v, pops)
    }

    twostate predicate ReplacedThenPushed(v: Number, w: Number)
      reads this
    {
      ReplacedThenPushedIn(old(St()), St(), v, w)
    }

    twostate predicate Popped(pops: bool)
      reads this
    {
      PoppedFrom(old(St()), St(), pops)
    }

    ghost function Shot(ram: Ram): Snapshot
      reads this, ram
    {
      Snapshot(St(), sw, cw, tail, flags, ax, xmm, ram.bytes)
    }

    /** A stack fault abandons an instruction: invalid is unmasked, or an unmasked flag is set already. */
    ghost predicate StackFaultAbandons()
      reads this`sw, this`cw
    {
      !cw[0] || Unmasked(sw, cw)
    }

    /** Exactly the flags of `e` were added; an instruction is abandoned when that leaves a flag unmasked. */
    twostate predicate Flagged(e: Exc, abandoned: bool)
      reads this
    {
      && (forall i | 0 <= i < 7 :: sw[i] == (old(sw)[i] || FlagAt(e, i)))
      && (abandoned <==> e != NONE && Unmasked(sw, cw))
    }

    /** The status word after `e` was raised and nothing else. */
    twostate predicate Recorded(e: Exc, abandoned: bool)
      reads this
    {
      && Flagged(e, abandoned)
      && (forall i | 8 <= i < 15 :: sw[i] == old(sw)[i])
      && sw[7] == (old(sw)[7] || abandoned) && sw[15] == (old(sw)[15] || abandoned)
    }

    /** Record exceptions. True when the instruction must be abandoned. */
    method Raise(e: Exc) returns (abandon: bool)
      modifies this`sw
      ensures Keeps(old(sw), sw) && Recorded(e, abandon)
      ensures abandon ==> Reported()
    {
      FlagsAgree(NONE);
      hide FlagAt;
      hide FlagBits;
      if e == NONE {
        return false;
      }
      FlagsAgree(e);
      sw := WithFlags(sw, e);
      if Unmasked(sw, cw) {
        sw := sw[ES := true][BUSY := true];
        assert Unmasked(sw, cw);
        return true;
      }
      return false;
    }

    /** Overflow or underflow of the stack, told apart by C1. */
    method StackFault(overflow: bool) returns (abandon: bool)
      modifies this`sw
      ensures Keeps(old(sw), sw) && (forall i | 10 <= i < 15 :: sw[i] == old(sw)[i])
      ensures (forall i | 0 <= i < 6 :: sw[i] == (old(sw)[i] || i == 0)) && sw[6] && sw[9] == overflow
      ensures abandon <==> old(StackFaultAbandons())
      ensures if abandon then Reported() else !Unmasked(sw, cw)
    {
      sw := sw[C1 := overflow];
      abandon := Raise(IE.With(SF));
      InvalidUnmasks(old(sw), sw, cw);
    }

    method PushRaw(bytes: Reg) returns (abandon: bool)
      modifies this`sw, this`top, this`regs, this`empty
      ensures Keeps(old(sw), sw) && (forall i | 10 <= i < 15 :: sw[i] == old(sw)[i]) && (abandon ==> Reported())
      ensures abandon <==> !old(empty)[(old(top) + 7) % 8] && old(StackFaultAbandons())
      ensures abandon ==> top == old(top) && regs == old(regs) && empty == old(empty)
      ensures abandon ==> forall i | 0 <= i < 6 :: sw[i] == (old(sw)[i] || i == 0)
      ensures !abandon ==> Pushed(bytes)
      ensures old(empty)[(old(top) + 7) % 8] ==> sw == old(sw)[9 := false]
    {
      var dst := (top + 7) % 8;
      if !empty[dst] {
        abandon := StackFault(true);
        if abandon {
          return;
        }
        top := dst;
        regs := regs[dst := ToBytes(Indefinite())];
        empty := empty[dst := false];
        return;
      }
      sw := sw[C1 := false];
      top := dst;
      regs := regs[dst := bytes];
      empty := empty[dst := false];
      abandon := false;
    }

    method Pop()
      modifies this`top, this`empty
      ensures top == (old(top) + 1) % 8 && empty == old(empty)[old(top) := true]
    {
      empty := empty[top := true];
      top := (top + 1) % 8;
    }

    /** Read `ST(i)`. An empty register underflows; `None` abandons the instruction. */
    method Operand(i: nat) returns (v: Option<Number>)
      modifies this`sw
      ensures Keeps(old(sw), sw) && (forall i | 10 <= i < 15 :: sw[i] == old(sw)[i]) && (v.None? ==> Reported())
      ensures v.None? <==> empty[Phys(i)] && old(StackFaultAbandons())
      ensures v.Some? && empty[Phys(i)] ==> !StackFaultAbandons()
      ensures !empty[Phys(i)] ==> sw == old(sw)
      ensures v.Some? ==> v.value == StValue(i)
    {
      var phys := Phys(i);
      if empty[phys] {
        var abandon := StackFault(false);
        if abandon {
          return None;
        }
        return Some(Indefinite());
      }
      LoadThenStore(regs[phys]);
      return Some(FromBytes(regs[phys]));
    }

    method SetSt(i: nat, v: Number)
      modifies this`regs, this`empty
      ensures regs == old(regs)[Phys(i) := ToBytes(v)] && empty == old(empty)[Phys(i) := false]
    {
      var phys := Phys(i);
      regs := regs[phys := ToBytes(v)];
      empty := empty[phys := false];
    }

    // ---- Loads ----

    method Push(v: Number, ghost ram: Ram) returns (out: Outcome)
      requires Valid()
      modifies this`sw, this`top, this`regs, this`empty
      ensures Clean(out, ram, 0, 0) && !out.Fault?
      ensures out.Completed? ==> Pushed(ToBytes(v))
      ensures out.Abandoned? <==> !old(empty)[(old(top) + 7) % 8] && old(StackFaultAbandons())
    {
      hide ToBytes;
      var abandon := PushRaw(ToBytes(v));
      out := if abandon then Abandoned else Completed;
    }

    method LoadFormat(f: Format, addr: nat, ram: Ram, lib: Library) returns (out: Outcome)
      requires Valid()
      modifies this`sw, this`top, this`regs, this`empty
      ensures Clean(out, ram, addr, 0)
      ensures out.Completed? ==> exists b: seq<Byte> | |b| == SizeOf(f) ::
                Holds(ram.bytes, addr, b) && Pushed(ToBytes(Decoded(f, b, lib)))
      ensures !out.Fault? && !old(empty)[(old(top) + 7) % 8] && old(StackFaultAbandons()) ==> out.Abandoned?
      ensures !out.Fault? && old(empty)[(old(top) + 7) % 8] ==> exists b: seq<Byte> | |b| == SizeOf(f) ::
                Holds(ram.bytes, addr, b) && Flagged(if DenormalOperand(f, b) then DE else NONE, out.Abandoned?)
    {
      hide ToBytes;
      hide Decoded;
      hide DenormalOperand;
      hide SizeOf;
      var b := ram.Load(addr, SizeOf(f));
      if b.None? {
        return Fault(addr, false);
      }
      if DenormalOperand(f, b.value) {
        var abandon := Raise(DE);
        if abandon {
          return Abandoned;
        }
      }
      var abandon := PushRaw(ToBytes(Decoded(f, b.value, lib)));
      out := if abandon then Abandoned else Completed;
    }

    method LoadRaw(addr: nat, ram: Ram) returns (out: Outcome)
      requires Valid()
      modifies this`sw, this`top, this`regs, this`empty
      ensures Clean(out, ram, addr, 0)
      ensures out.Completed? ==> exists b: Reg :: Holds(ram.bytes, addr, b) && Pushed(b)
    {
      hide ToBytes;
      var b := ram.Load(addr, 10);
      if b.None? {
        return Fault(addr, false);
      }
      var raw: Reg := b.value;
      assert Holds(ram.bytes, addr, raw);
      var abandon := PushRaw(raw);
      out := if abandon then Abandoned else Completed;
    }

    method LoadSti(i: nat, ghost ram: Ram) returns (out: Outcome)
      requires Valid()
      modifies this`sw, this`top, this`regs, this`empty
      ensures Clean(out, ram, 0, 0) && !out.Fault?
      ensures out.Completed? ==> Pushed(ToBytes(old(StValue(i))))
    {
      hide ToBytes;
      hide FromBytes;
      var v := Operand(i);
      if v.None? {
        return Abandoned;
      }
      var abandon := PushRaw(ToBytes(v.value));
      out := if abandon then Abandoned else Completed;
    }

    // ---- Stores ----

    /** Store bytes made from `ST(0)`, then pop if asked. */
    method StoreBytes(addr: nat, data: seq<Byte>, pops: bool, ram: Ram) returns (out: Outcome)
      requires Valid() && 0 < |data|
      modifies this`top, this`empty, ram
      ensures Clean(out, ram, addr, |data|) && !out.Abandoned?
      ensures out.Completed? ==> Holds(ram.bytes, addr, data) && Popped(pops)
    {
      var ok := ram.Store(addr, data);
      if !ok {
        return Fault(addr, true);
      }
      if pops {
        Pop();
      }
      out := Completed;
    }

    method StoreFloat(f: FloatFormat, pops: bool, addr: nat, ram: Ram, lib: Library) returns (out: Outcome)
      requires Valid()
      modifies this`sw, this`top, this`empty, ram
      ensures Clean(out, ram, addr, SizeOf(f))
      ensures out.Completed? ==> Popped(pops)
      ensures out.Completed? ==>
                var bits := ToF64(old(StValue(0)));
                Holds(ram.bytes, addr, if f.F64? then LeBytes(bits, 8) else LeBytes(lib.narrow(bits), 4))
    {
      hide FromBytes;
      hide ToF64;
      hide LeBytes;
      var v := Operand(0);
      if v.None? {
        return Abandoned;
      }
      var bits := ToF64(v.value);
      out := StoreBytes(addr, if f.F64? then LeBytes(bits, 8) else LeBytes(lib.narrow(bits), 4), pops, ram);
    }

    method StoreRaw(addr: nat, ram: Ram) returns (out: Outcome)
      requires Valid()
      modifies this`sw, this`top, this`empty, ram
      ensures Clean(out, ram, addr, 10)
      ensures out.Completed? ==> Popped(true)
      ensures out.Completed? ==>
                Holds(ram.bytes, addr, if old(empty)[old(top)] then ToBytes(Indefinite()) else old(regs)[old(top)])
    {
      hide ToBytes;
      var bytes := regs[top];
      if empty[top] {
        var abandon := StackFault(false);
        if abandon {
          return Abandoned;
        }
        bytes := ToBytes(Indefinite());
      }
      out := StoreBytes(addr, bytes, true, ram);
    }

    method StoreInt(f: IntFormat, truncate: bool, addr: nat, ram: Ram) returns (out: Outcome)
      requires Valid()
      modifies this`sw, this`top, this`empty, ram
      ensures Clean(out, ram, addr, SizeOf(f))
      ensures out.Completed? ==> Popped(true)
      ensures out.Completed? ==>
                var rc := if truncate then TowardZero else RoundingControl(cw);
                Holds(ram.bytes, addr, LowBytes(ToI64(old(StValue(0)), rc), SizeOf(f)))
    {
      hide FromBytes;
      hide ToI64;
      hide LeBytes;
      var v := Operand(0);
      if v.None? {
        return Abandoned;
      }
      var n := ToI64(v.value, if truncate then TowardZero else RoundingControl(cw));
      out := StoreBytes(addr, LowBytes(n, SizeOf(f)), true, ram);
    }

    // ---- Arithmetic ----

    predicate Denormal(i: nat)
      reads this`top, this`empty, this`regs
    {
      !empty[Phys(i)] && DenormalReg(regs[Phys(i)])
    }

    /** Deliver a result: record its exceptions, and unless they abandon the instruction put it in `ST(i)`. */
    method Deliver(i: nat, r: Number, e: Exc, pops: bool) returns (abandon: bool)
      requires Valid()
      modifies this`sw, this`regs, this`empty, this`top
      ensures Valid() && Keeps(old(sw), sw) && Recorded(e, abandon)
      ensures abandon ==> Reported() && regs == old(regs) && empty == old(empty) && top == old(top)
      ensures !abandon ==> Replaced(i, r, pops)
    {
      hide ToBytes;
      abandon := Raise(e);
      if !abandon {
        SetSt(i, r);
        if pops {
          Pop();
        }
      }
    }

    method MemArithmetic(op: Op, f: ArithFormat, addr: nat, ram: Ram, lib: Library) returns (out: Outcome)
      requires Valid()
      modifies this`sw, this`regs, this`empty, this`top
      ensures Clean(out, ram, addr, 0)
      ensures out.Completed? ==> exists b: seq<Byte> | |b| == SizeOf(f) ::
                Holds(ram.bytes, addr, b) && Replaced(0, Result(op, old(StValue(0)), Decoded(f, b, lib), CtlOf(cw)), false)
      ensures !out.Fault? && old(empty[Phys(0)]) && old(StackFaultAbandons()) ==> out.Abandoned?
      ensures !out.Fault? && !old(empty[Phys(0)]) ==> exists b: seq<Byte> | |b| == SizeOf(f) ::
                && Holds(ram.bytes, addr, b)
                && Recorded(Raised(op, old(StValue(0)), Decoded(f, b, lib), CtlOf(cw),
                                   DenormalOperand(f, b) || old(Denormal(0))), out.Abandoned?)
    {
      hide Result;
      hide Raised;
      hide FlagAt;
      hide DenormalReg;
      hide DenormalOperand;
      hide CtlOf;
      hide SizeOf;
      hide Normalized;
      hide FromBytes;
      hide ToBytes;
      hide Decoded;
      hide Apply;
      hide WellFormed;
      hide StValue;
      var b := ram.Load(addr, SizeOf(f));
      if b.None? {
        return Fault(addr, false);
      }
      var m: Number := Decoded(f, b.value, lib);
      var a := Operand(0);
      if a.None? {
        return Abandoned;
      }
      var denormal := DenormalOperand(f, b.value) || Denormal(0);
      var r: Number := Result(op, a.value, m, CtlOf(cw));
      var abandon := Deliver(0, r, Raised(op, a.value, m, CtlOf(cw), denormal), false);
      out := if abandon then Abandoned else Completed;
    }

    method RegArithmetic(op: Op, dest: Dest, sti: nat, ghost ram: Ram) returns (out: Outcome)
      requires Valid()
      modifies this`sw, this`regs, this`empty, this`top
      ensures Clean(out, ram, 0, 0) && !out.Fault?
      ensures out.Completed? ==>
                var s0, si := old(StValue(0)), old(StValue(sti));
                if dest.ToTop? then Replaced(0, Result(op, s0, si, CtlOf(cw)), false)
                else Replaced(sti, Result(op, si, s0, CtlOf(cw)), dest.ToStiPop?)
      ensures old(empty[Phys(0)] || empty[Phys(sti)]) && old(StackFaultAbandons()) ==> out.Abandoned?
      ensures !old(empty[Phys(0)]) && !old(empty[Phys(sti)]) ==>
                var s0, si := old(StValue(0)), old(StValue(sti));
                var d, s := if dest.ToTop? then s0 else si, if dest.ToTop? then si else s0;
                Recorded(Raised(op, d, s, CtlOf(cw), old(Denormal(0) || Denormal(sti))), out.Abandoned?)
    {
      hide Result;
      hide Raised;
      hide FlagAt;
      hide DenormalReg;
      hide DenormalOperand;
      hide CtlOf;
      hide SizeOf;
      hide Normalized;
      hide FromBytes;
      hide ToBytes;
      hide Apply;
      hide WellFormed;
      hide StValue;
      var s0 := Operand(0);
      if s0.None? {
        return Abandoned;
      }
      var si := Operand(sti);
      if si.None? {
        return Abandoned;
      }
      var d: Number, s: Number := if dest.ToTop? then s0.value else si.value, if dest.ToTop? then si.value else s0.value;
      var denormal := Denormal(0) || Denormal(sti);
      var r: Number := Result(op, d, s, CtlOf(cw));
      var abandon := Deliver(if dest.ToTop? then 0 else sti, r, Raised(op, d, s, CtlOf(cw), denormal), dest.ToStiPop?);
      out := if abandon then Abandoned else Completed;
    }

    method CopyToSti(sti: nat, pops: bool, ghost ram: Ram) returns (out: Outcome)
      requires Valid()
      modifies this`sw, this`regs, this`empty, this`top
      ensures Clean(out, ram, 0, 0) && !out.Fault?
      ensures out.Completed? ==> Replaced(sti, old(StValue(0)), pops)
    {
      hide FromBytes;
      hide ToBytes;
      var v := Operand(0);
      if v.None? {
        return Abandoned;
      }
      SetSt(sti, v.value);
      if pops {
        Pop();
      }
      out := Completed;
    }

    method Exchange(sti: nat, ghost ram: Ram) returns (out: Outcome)
      requires Valid()
      modifies this`sw, this`regs, this`empty
      ensures Clean(out, ram, 0, 0) && !out.Fault?
      ensures out.Completed? ==> ExchangedIn(old(St()), St(), sti)
    {
      hide FromBytes;
      hide ToBytes;
      var a := Operand(0);
      if a.None? {
        return Abandoned;
      }
      var b := Operand(sti);
      if b.None? {
        return Abandoned;
      }
      SetSt(0, b.value);
      SetSt(sti, a.value);
      out := Completed;
    }

    method CompareRegs(sti: nat, pops: bool, ghost ram: Ram) returns (out: Outcome)
      requires Valid()
      modifies this`sw, this`flags, this`top, this`empty
      ensures Clean(out, ram, 0, 0) && !out.Fault?
      ensures out.Completed? ==> Popped(pops)
      ensures out.Completed? ==>
                && (flags.zf, flags.pf, flags.cf) == CompareFlags(old(StValue(0)), old(StValue(sti)))
                && !flags.of && !flags.sf && !flags.af
      ensures out.Abandoned? <==> old(empty[Phys(0)] || empty[Phys(sti)]) && old(StackFaultAbandons())
    {
      hide FromBytes;
      hide CompareFlags;
      var a := Operand(0);
      if a.None? {
        return Abandoned;
      }
      var b := Operand(sti);
      if b.None? {
        return Abandoned;
      }
      var (zf, pf, cf) := CompareFlags(a.value, b.value);
      flags := Flags(zf, pf, cf, false, false, false);
      if pops {
        Pop();
      }
      out := Completed;
    }

    /** An ordered comparison into the condition codes: unordered operands are invalid. */
    method Report(a: Number, b: Number, pops: bool) returns (abandon: bool)
      requires Valid()
      modifies this`sw, this`top, this`empty
      ensures Valid() && Keeps(old(sw), sw) && Flagged(if Unordered(a, b) then IE else NONE, abandon)
      ensures abandon ==> Reported() && empty == old(empty) && top == old(top)
      ensures !abandon ==> Popped(pops) && !sw[9] && (sw[14], sw[10], sw[8]) == CompareFlags(a, b)
    {
      hide CompareFlags;
      var (c3, c2, c0) := CompareFlags(a, b);
      if c3 && c2 && c0 {
        abandon := Raise(IE);
        if abandon {
          return;
        }
      }
      sw := sw[8 := c0][C1 := false][10 := c2][14 := c3];
      if pops {
        Pop();
      }
      abandon := false;
    }

    method CompareInt(f: NarrowFormat, pops: bool, addr: nat, ram: Ram, lib: Library) returns (out: Outcome)
      requires Valid()
      modifies this`sw, this`top, this`empty
      ensures Clean(out, ram, addr, 0)
      ensures out.Completed? ==> Popped(pops) && !sw[9]
      ensures out.Completed? ==> exists b: seq<Byte> | |b| == SizeOf(f) ::
                Holds(ram.bytes, addr, b) && (sw[14], sw[10], sw[8]) == CompareFlags(old(StValue(0)), Decoded(f, b, lib))
      ensures !out.Fault? && old(empty[Phys(0)]) && old(StackFaultAbandons()) ==> out.Abandoned?
      ensures !out.Fault? && !old(empty[Phys(0)]) ==> exists b: seq<Byte> | |b| == SizeOf(f) ::
                && Holds(ram.bytes, addr, b)
                && Flagged(if Unordered(old(StValue(0)), Decoded(f, b, lib)) then IE else NONE, out.Abandoned?)
    {
      hide SizeOf;
      hide Normalized;
      hide FromBytes;
      hide CompareFlags;
      hide Decoded;
      var b := ram.Load(addr, SizeOf(f));
      if b.None? {
        return Fault(addr, false);
      }
      var a := Operand(0);
      if a.None? {
        return Abandoned;
      }
      var abandon := Report(a.value, Decoded(f, b.value, lib), pops);
      out := if abandon then Abandoned else Completed;
    }

    /** `fabs` and `fchs` change the sign alone. */
    method ChangeSign(negate: bool, ghost ram: Ram) returns (out: Outcome)
      requires Valid()
      modifies this`sw, this`regs, this`empty
      ensures Clean(out, ram, 0, 0) && !out.Fault?
      ensures out.Completed? ==>
                var v := old(StValue(0)); Replaced(0, v.(sign := if negate then !v.sign else false), false)
    {
      hide FromBytes;
      hide ToBytes;
      var v := Operand(0);
      if v.None? {
        return Abandoned;
      }
      var r := v.value.(sign := if negate then !v.value.sign else false);
      SetSt(0, r);
      out := Completed;
    }

    // ---- Control ----

    method LoadControl(addr: nat, ram: Ram) returns (out: Outcome)
      requires Valid()
      modifies this`cw
      ensures Clean(out, ram, addr, 0)
      ensures out.Completed? ==>
                exists b: seq<Byte> | |b| == 2 :: Holds(ram.bytes, addr, b) && cw == NormalizeCw(BytesWord(b))
      ensures out.Completed? <==> addr in ram.bytes && addr + 1 in ram.bytes
    {
      hide BytesWord;
      hide NormalizeCw;
      var b := ram.Load(addr, 2);
      if b.None? {
        return Fault(addr, false);
      }
      assert Holds(ram.bytes, addr, b.value);
      NormalizeKeeps(BytesWord(b.value));
      cw := NormalizeCw(BytesWord(b.value));
      out := Completed;
    }

    ghost function Env(): Environment
      reads this
    {
      Environment(cw, sw, top, empty, tail)
    }

    /** Store the environment, then mask every exception. */
    method StoreEnv(addr: nat, ram: Ram) returns (out: Outcome)
      requires Valid()
      modifies this`cw, this`top, this`empty, ram
      ensures Clean(out, ram, addr, 28) && !out.Abandoned?
      ensures out.Completed? ==> Holds(ram.bytes, addr, Env28(old(Env()), regs)) && AllMasked(cw)
      ensures out.Completed? ==> top == old(top) && empty == old(empty)
      ensures forall i | 6 <= i < 16 :: cw[i] == old(cw)[i]
    {
      hide Env28;
      out := StoreBytes(addr, Env28(Environment(cw, sw, top, empty, tail), regs), false, ram);
      if out.Completed? {
        cw := cw[0 := true][1 := true][2 := true][3 := true][4 := true][5 := true];
      }
    }

    /** Load the environment; the data registers keep their contents. */
    method LoadEnv(addr: nat, ram: Ram) returns (out: Outcome)
      requires Valid()
      modifies this`cw, this`sw, this`top, this`empty, this`tail
      ensures Valid() && (out.Completed? || out == Fault(addr, false))
      ensures out.Fault? ==> Untouched(ram)
      ensures out.Completed? ==> exists b: seq<Byte> | |b| == 28 :: Holds(ram.bytes, addr, b) && Env() == LoadEnv28(b)
    {
      hide BytesWord;
      hide NormalizeCw;
      hide EmptyTags;
      var b := ram.Load(addr, 28);
      if b.None? {
        return Fault(addr, false);
      }
      assert Holds(ram.bytes, addr, b.value);
      NormalizeKeeps(BytesWord(Slice(b.value, 0, 2)));
      var e := LoadEnv28(b.value);
      cw, sw, top, empty, tail := e.cw, e.sw, e.top, e.empty, e.tail;
      out := Completed;
    }

    method Reset()
      requires Valid()
      modifies this`cw, this`sw, this`top, this`empty, this`tail
      ensures Valid() && top == 0 && (forall i | 0 <= i < 8 :: empty[i])
      ensures forall i | 0 <= i < 16 :: cw[i] == (i < 7 || i == 8 || i == 9) && !sw[i] && tail[i] == 0
    {
      cw := seq(16, i => i < 7 || i == 8 || i == 9);
      sw, top, empty, tail := seq(16, i => false), 0, seq(8, i => true), seq(16, i => 0);
    }

    method ClearExceptions()
      requires Valid()
      modifies this`sw
      ensures Valid() && forall i | 0 <= i < 16 :: sw[i] == (old(sw)[i] && 9 <= i < 15)
    {
      var w := sw;
      sw := seq(16, i requires 0 <= i < 16 => w[i] && 9 <= i < 15);
    }

    // ---- Transcendentals and remainder ----

    method ApplyUnary(u: Unary, lib: Library, ghost ram: Ram) returns (out: Outcome)
      requires Valid()
      modifies this`sw, this`regs, this`empty
      ensures Clean(out, ram, 0, 0) && !out.Fault?
      ensures out.Completed? ==>
                if u.Exp2m1? || InDomain(old(StValue(0))) then Replaced(0, lib.unary(u, old(StValue(0))), false)
                else regs == old(regs) && empty == old(empty)
    {
      hide ToBytes;
      hide StValue;
      var x := Operand(0);
      if x.None? {
        return Abandoned;
      }
      if u.Exp2m1? || InDomain(x.value) {
        SetSt(0, lib.unary(u, x.value));
      }
      out := Completed;
    }

    method Remainder(lib: Library, ghost ram: Ram) returns (out: Outcome)
      requires Valid()
      modifies this`sw, this`regs, this`empty
      ensures Clean(out, ram, 0, 0) && !out.Fault?
      ensures out.Completed? ==> Replaced(0, lib.rem(old(StValue(0)), old(StValue(1))), false)
    {
      hide ToBytes;
      hide StValue;
      var a := Operand(0);
      if a.None? {
        return Abandoned;
      }
      var b := Operand(1);
      if b.None? {
        return Abandoned;
      }
      SetSt(0, lib.rem(a.value, b.value));
      out := Completed;
    }

    method ApplyBinary(b: Binary, lib: Library, ghost ram: Ram) returns (out: Outcome)
      requires Valid()
      modifies this`sw, this`regs, this`empty, this`top
      ensures Clean(out, ram, 0, 0) && !out.Fault?
      ensures out.Completed? ==> Replaced(1, lib.binary(b, old(StValue(1)), old(StValue(0))), true)
    {
      hide ToBytes;
      hide StValue;
      var y := Operand(1);
      if y.None? {
        return Abandoned;
      }
      var x := Operand(0);
      if x.None? {
        return Abandoned;
      }
      SetSt(1, lib.binary(b, y.value, x.value));
      Pop();
      out := Completed;
    }

    /**
     `fptan` and `fsincos`: replace `ST(0)` by the first result, then push the second. Abandoned, they leave
     the registers alone exactly when `ST(0)` was empty; otherwise it is the push that faulted, and the
     first result is already in place.
     */
    method ApplyPair(tangent: bool, lib: Library, ghost ram: Ram) returns (out: Outcome)
      requires Valid()
      modifies this`sw, this`regs, this`empty, this`top
      ensures Valid() && Keeps(old(sw), sw) && !out.Fault?
      ensures out.Abandoned? ==> Reported() && top == old(top)
      ensures out.Abandoned? ==>
                if old(empty)[old(top)] then regs == old(regs) && empty == old(empty)
                else Replaced(0, FirstResult(tangent, lib, old(StValue(0))), false)
      ensures out.Completed? ==>
                if InDomain(old(StValue(0))) then
                  ReplacedThenPushed(FirstResult(tangent, lib, old(StValue(0))),
                                     SecondResult(tangent, lib, old(StValue(0))))
                else regs == old(regs) && empty == old(empty) && top == old(top)
      ensures out.Abandoned? <==>
                && old(StackFaultAbandons())
                && (old(empty)[old(top)] || (InDomain(old(StValue(0))) && !old(empty)[(old(top) + 7) % 8]))
    {
      hide ToBytes;
      hide StValue;
      var x := Operand(0);
      if x.None? {
        return Abandoned;
      }
      if InDomain(x.value) {
        SetSt(0, FirstResult(tangent, lib, x.value));
        var abandon := PushRaw(ToBytes(SecondResult(tangent, lib, x.value)));
        if abandon {
          return Abandoned;
        }
      }
      out := Completed;
    }

    // ---- Dispatch ----

    /** Instructions that read a memory operand, other than `fldenv`. */
    method ExecLoad(k: Kind, addr: nat, ram: Ram, lib: Library) returns (out: Outcome)
      requires Valid() && UsesMemory(k) && !k.Fldenv? && MemWriteBytes(k).None?
      modifies this`sw, this`cw, this`top, this`regs, this`empty
      ensures Clean(out, ram, addr, 0)
      ensures out.Completed? ==> LoadDoes(k, addr, lib, old(Shot(ram)), Shot(ram))
    {
      hide Flagged;
      hide Unordered;
      hide DenormalOperand;
      hide Raised;
      hide PoppedFrom;
      hide Keeps;
      hide Unmasked;
      hide Normalized;
      hide Decoded;
      hide Reads;
      hide Recorded;
      hide ReplacedIn;
      hide PushedOn;
      hide Result;
      hide CtlOf;
      hide CompareFlags;
      hide NormalizeCw;
      hide BytesWord;
      hide ToBytes;
      match k {
        case Fld(f) => out := LoadFormat(f, addr, ram, lib);
        case FldF80 => out := LoadRaw(addr, ram);
        case MemArith(op, f) => out := MemArithmetic(op, f, addr, ram, lib);
        case Ficom(f, pops) => out := CompareInt(f, pops, addr, ram, lib);
        case Fldcw => out := LoadControl(addr, ram);
      }
    }

    /** Instructions that write memory. */
    method ExecStore(k: Kind, addr: nat, ram: Ram, lib: Library) returns (out: Outcome)
      requires Valid() && MemWriteBytes(k).Some?
      modifies this`sw, this`cw, this`top, this`empty, ram
      ensures Clean(out, ram, addr, Written(k))
      ensures out.Completed? ==> StoreDoes(k, addr, lib, old(Shot(ram)), Shot(ram))
    {
      hide ToI64;
      hide ToF64;
      hide Reads;
      hide LeBytes;
      hide LowBytes;
      hide WordBytes;
      hide Env28;
      hide ToBytes;
      hide RoundingControl;
      hide StatusWord;
      match k {
        case Fst(f, pops) => out := StoreFloat(f, pops, addr, ram, lib);
        case FstpF80 => out := StoreRaw(addr, ram);
        case Fistp(f, truncate) => out := StoreInt(f, truncate, addr, ram);
        case Fnstcw => out := StoreBytes(addr, WordBytes(cw), false, ram);
        case FnstswMem => out := StoreBytes(addr, WordBytes(StatusWord(sw, top)), false, ram);
        case Fnstenv => out := StoreEnv(addr, ram);
      }
    }

    /** Instructions on the register stack alone. */
    method ExecStack(k: Kind, sti: nat, lib: Library, ghost ram: Ram) returns (out: Outcome)
      requires Valid() && UsesStack(k)
      modifies this`sw, this`top, this`regs, this`empty, this`flags
      ensures Clean(out, ram, 0, 0) && !out.Fault?
      ensures out.Completed? ==> StackDoes(k, sti, lib, old(Shot(ram)), Shot(ram))
    {
      hide Reads;
      hide Result;
      hide FromI64;
      hide ToBytes;
      hide CtlOf;
      hide CompareFlags;
      hide InDomain;
      hide ExchangedIn;
      hide ReplacedIn;
      hide PushedOn;
      IntegerIsWellFormed(1);
      match k {
        case FldSti => out := LoadSti(sti, ram);
        case Fld1 => out := Push(One(), ram);
        case Fldz => out := Push(ZeroOf(false), ram);
        case FstSti(pops) => out := CopyToSti(sti, pops, ram);
        case RegArith(op, dest) => out := RegArithmetic(op, dest, sti, ram);
        case Fxch => out := Exchange(sti, ram);
        case Fcomi(pops) => out := CompareRegs(sti, pops, ram);
        case Fabs => out := ChangeSign(false, ram);
        case Fchs => out := ChangeSign(true, ram);
        case Fprem => out := Remainder(lib, ram);
        case Transcend(u) => out := ApplyUnary(u, lib, ram);
        case Combine(b) => out := ApplyBinary(b, lib, ram);
      }
    }

    /** Instructions on the control and status words, and `fldenv`. */
    method ExecControl(k: Kind, addr: nat, ram: Ram) returns (out: Outcome)
      requires Valid() && (k.Fldenv? || k.Fnstsw? || k.Fninit? || k.Fnclex?)
      modifies this
      ensures Valid() && !out.Abandoned? && (ClearsFlags(k) || Keeps(old(sw), sw))
      ensures out.Fault? ==> Untouched(ram) && out == Fault(addr, false)
      ensures out.Completed? ==> ControlDoes(k, addr, old(Shot(ram)), Shot(ram))
    {
      hide LoadEnv28;
      match k {
        case Fldenv => out := LoadEnv(addr, ram);
        case Fnstsw =>
          ax := StatusWord(sw, top);
          out := Completed;
        case Fninit =>
          Reset();
          out := Completed;
        case Fnclex =>
          ClearExceptions();
          out := Completed;
      }
    }

    /** Every instruction but the two that write before they push. */
    method ExecPlain(k: Kind, addr: nat, sti: nat, ram: Ram, lib: Library) returns (out: Outcome)
      requires Valid() && !WritesThenPushes(k)
      modifies this, ram
      ensures Valid() && OnlyWrites(ram, addr, Written(k))
      ensures ClearsFlags(k) || Keeps(old(sw), sw)
      ensures out.Fault? ==> Untouched(ram) && out == Fault(addr, MemWriteBytes(k).Some?)
      ensures out.Abandoned? ==> Untouched(ram) && Reported()
      ensures out.Completed? ==> Does(k, addr, sti, lib, old(Shot(ram)), Shot(ram))
    {
      hide Unmasked;
      hide Keeps;
      hide LoadDoes;
      hide StoreDoes;
      hide StackDoes;
      hide ControlDoes;
      if MemWriteBytes(k).Some? {
        out := ExecStore(k, addr, ram, lib);
      } else if UsesMemory(k) && !k.Fldenv? {
        out := ExecLoad(k, addr, ram, lib);
      } else if UsesStack(k) {
        out := ExecStack(k, sti, lib, ram);
      } else {
        out := ExecControl(k, addr, ram);
      }
    }

    /**
     Theorem: for every instruction and state, a memory fault leaves everything but the status word alone; so
     does abandoning an instruction by an unmasked exception, except that one which writes before it pushes has
     written its first result; memory changes only where the instruction is said to write; exception flags are
     sticky; and with every exception masked nothing is abandoned.
     */
    method Exec(k: Kind, addr: nat, sti: nat, ram: Ram, lib: Library) returns (out: Outcome)
      requires Valid()
      modifies this, ram
      ensures Valid()
      ensures ClearsFlags(k) || Keeps(old(sw), sw)
      ensures OnlyWrites(ram, addr, Written(k))
      ensures out.Fault? ==> Untouched(ram) && out == Fault(addr, MemWriteBytes(k).Some?)
      ensures out.Abandoned? ==> Reported()
      ensures out.Abandoned? ==>
                if WritesThenPushes(k) && !old(empty)[old(top)] then
                  Replaced(0, FirstResult(k.Fptan?, lib, old(StValue(0))), false) && ram.bytes == old(ram.bytes)
                else Untouched(ram)
      ensures AllMasked(old(cw)) ==> !out.Abandoned?
      ensures out.Completed? ==> Does(k, addr, sti, lib, old(Shot(ram)), Shot(ram))
    {
      hide Unmasked;
      hide AllMasked;
      hide Keeps;
      hide LoadDoes;
      hide StoreDoes;
      hide StackDoes;
      hide ControlDoes;
      hide ReplacedIn;
      hide ReplacedThenPushedIn;
      hide Reads;
      hide InDomain;
      hide FirstResult;
      hide SecondResult;
      if WritesThenPushes(k) {
        out := ApplyPair(k.Fptan?, lib, ram);
      } else {
        out := ExecPlain(k, addr, sti, ram, lib);
      }
      MaskedAbandonsNothing(sw, cw);
    }

    // ---- The save area ----

    ghost function SaveState(): Saved
      reads this
    {
      Saved(cw, sw, top, empty, regs, xmm)
    }

    method BuildSaveArea() returns (buf: seq<Byte>)
      ensures buf == FxImage(SaveState())
    {
      hide Header;
      hide PatchAll;
      hide Stacked;
      var st := Saved(cw, sw, top, empty, regs, xmm);
      var stacked := Stacked(regs, top);
      buf := Header(st);
      NothingPatched(buf, 32);
      for j := 0 to 8
        invariant buf == PatchAll(Header(st), 32, stacked[..j])
      {
        PatchNext(Header(st), 32, stacked, j);
        StackedAt(regs, top, j);
        buf := Patch(buf, 32 + j * 16, regs[Phys(j)]);
      }
      assert stacked[..8] == stacked;
      ghost var slots := buf;
      NothingPatched(buf, 160);
      for i := 0 to 16
        invariant buf == PatchAll(slots, 160, st.xmm[..i])
      {
        PatchNext(slots, 160, st.xmm, i);
        buf := Patch(buf, 160 + i * 16, xmm[i]);
      }
      assert st.xmm[..16] == st.xmm;
    }

    method RestoreRegs(b: seq<Byte>)
      requires |b| == 512
      modifies this`regs
      ensures regs == Unstacked(seq<Reg>(8, j requires 0 <= j < 8 => Slice(b, 32 + 16 * j, 10)), top)
    {
      hide Slice;
      for j := 0 to 8
        invariant forall i | 0 <= i < j :: regs[(top + i) % 8] == Slice(b, 32 + 16 * i, 10)
      {
        regs := regs[Phys(j) := Slice(b, 32 + 16 * j, 10)];
      }
      ghost var slots: Regs := seq<Reg>(8, j requires 0 <= j < 8 => Slice(b, 32 + 16 * j, 10));
      forall i | 0 <= i < 8
        ensures regs[i] == Unstacked(slots, top)[i]
      {
        RotateBack(top, i);
        assert regs[(top + (i + 8 - top) % 8) % 8] == slots[(i + 8 - top) % 8];
      }
    }

    /** `fxsave` and `fxrstor`. */
    method ExecFxstate(addr: nat, restore: bool, ram: Ram) returns (out: Outcome)
      requires Valid()
      modifies this, ram
      ensures Valid() && !out.Abandoned? && OnlyWrites(ram, addr, if restore then 0 else 512)
      ensures out.Fault? ==> Untouched(ram) && sw == old(sw) && out == Fault(addr, !restore)
      ensures out.Completed? && !restore ==> SaveState() == old(SaveState()) && Holds(ram.bytes, addr, FxImage(SaveState()))
      ensures out.Completed? && restore ==>
                exists b: seq<Byte> | |b| == 512 :: Holds(ram.bytes, addr, b) && SaveState() == FxLoad(b)
    {
      hide FxImage;
      hide Unstacked;
      hide BytesWord;
      hide NormalizeCw;
      hide ValueBits;
      if restore {
        var b := ram.Load(addr, 512);
        if b.None? {
          return Fault(addr, false);
        }
        var buf := b.value;
        assert Holds(ram.bytes, addr, buf);
        NormalizeKeeps(BytesWord(Slice(buf, 0, 2)));
        cw := NormalizeCw(BytesWord(Slice(buf, 0, 2)));
        var word := BytesWord(Slice(buf, 2, 2));
        top, sw := TopOf(word), WithoutTop(word);
        empty := Inverted(ValueBits(buf[4], 8));
        RestoreRegs(buf);
        xmm := seq<Lane>(16, i requires 0 <= i < 16 => Slice(buf, 160 + 16 * i, 16));
      } else {
        var buf := BuildSaveArea();
        var ok := ram.Store(addr, buf);
        if !ok {
          return Fault(addr, true);
        }
      }
      out := Completed;
    }
  }

  // ---- An abandoned instruction that changed a register ----

  /** The stack is full of ones, and invalid operation is unmasked. */
  ghost predicate FullOfOnes(f: Fpu)
    reads f
  {
    f.Valid() && !f.cw[0] && forall i | 0 <= i < 8 :: !f.empty[i] && f.regs[i] == ToBytes(One())
  }

  lemma LowBitOfWord(b: seq<Byte>)
    requires |b| == 2
    ensures NormalizeCw(BytesWord(b))[0] <==> b[0] % 2 == 1
  {
  }

  /** The last `n` registers hold ones, the last pushed on top, and the others are empty. */
  ghost predicate HoldsOnes(f: Fpu, n: nat)
    reads f
  {
    && n <= 8 && f.Valid() && !f.cw[0] && f.top == (8 - n) % 8
    && forall i | 0 <= i < 8 :: f.empty[i] == (i < 8 - n) && (8 - n <= i ==> f.regs[i] == ToBytes(One()))
  }

  method PushOne(f: Fpu, ghost n: nat, ghost ram: Ram)
    requires HoldsOnes(f, n) && n < 8
    modifies f
    ensures HoldsOnes(f, n + 1)
  {
    hide ToBytes;
    hide One;
    var out := f.Push(One(), ram);
  }

  method UnmaskInvalid() returns (f: Fpu, ram: Ram)
    ensures fresh(f) && fresh(ram) && HoldsOnes(f, 0)
  {
    hide ToBytes;
    hide One;
    hide NormalizeCw;
    hide BytesWord;
    f := new Fpu();
    ram := new Ram;
    ram.bytes := map[0 := 0x7E, 1 := 0x03];
    var out := f.LoadControl(0, ram);
    ghost var b: seq<Byte> :| |b| == 2 && Holds(ram.bytes, 0, b) && f.cw == NormalizeCw(BytesWord(b));
    LowBitOfWord(b);
  }

  /** From reset, `fldcw` of a word with bit 0 clear and eight times `fld1`. */
  method FullStack() returns (f: Fpu, ram: Ram)
    ensures fresh(f) && fresh(ram) && FullOfOnes(f)
  {
    hide ToBytes;
    hide One;
    f, ram := UnmaskInvalid();
    for n := 0 to 8
      invariant HoldsOnes(f, n)
    {
      hide HoldsOnes;
      PushOne(f, n, ram);
    }
  }

  lemma OneIsNormal()
    ensures IsNormal(One()) && One().exp == 0
  {
  }

  /** On a full stack `fptan` of one is abandoned, and a tangent that is not one is left in `ST(0)`. */
  method AbandonedTangent(f: Fpu, lib: Library, ghost ram: Ram) returns (out: Outcome)
    requires FullOfOnes(f)
    requires var t := lib.tan(One()); t.cls.Normal? && EMIN <= t.exp <= EMAX && t != One()
    modifies f
    ensures out.Abandoned? && f.top == old(f.top) && f.regs[f.top] != old(f.regs)[f.top]
    ensures f.regs[f.top] == ToBytes(lib.tan(One()))
  {
    hide ToBytes;
    hide FromBytes;
    hide FromI64;
    OneIsNormal();
    StoredReadsBack(lib.tan(One()));
    StoredReadsBack(One());
    out := f.ApplyPair(true, lib, ram);
  }

  /** A run of instructions from reset that ends so. */
  method AbandonedTangentFromReset(lib: Library) returns (f: Fpu, out: Outcome)
    requires var t := lib.tan(One()); t.cls.Normal? && EMIN <= t.exp <= EMAX && t != One()
    ensures fresh(f) && out.Abandoned? && f.regs[f.top] == ToBytes(lib.tan(One())) != ToBytes(One())
  {
    hide ToBytes;
    hide One;
    var ram: Ram;
    f, ram := FullStack();
    out := AbandonedTangent(f, lib, ram);
  }
}
