/** The memory images of the FPU: the 28-byte environment and the 512-byte save area, and what they give back. */
module Images {
  import opened Powers
  import opened Float80
  import opened Codec

  type Reg = b: seq<Byte> | |b| == 10 witness seq(10, i => 0)

  const CLEAR: Reg := seq(10, i => 0)

  type Regs = r: seq<Reg> | |r| == 8 witness seq<Reg>(8, i => CLEAR)

  /** One bit for each physical register: set when it is empty. */
  type Tags = t: seq<bool> | |t| == 8 witness seq(8, i => true)

  type Tail = b: seq<Byte> | |b| == 16 witness seq(16, i => 0)

  type Top = n: nat | n < 8

  // ---- Bits and bytes ----

  function BitsValue(bits: seq<bool>): nat {
    if bits == [] then 0 else (if bits[0] then 1 else 0) + 2 * BitsValue(bits[1..])
  }

  function ValueBits(n: nat, len: nat): (bits: seq<bool>)
    ensures |bits| == len
  {
    if len == 0 then [] else [n % 2 == 1] + ValueBits(n / 2, len - 1)
  }

  lemma {:induction false} BitsBound(bits: seq<bool>)
    ensures BitsValue(bits) < Pow2(|bits|)
  {
    if bits != [] {
      BitsBound(bits[1..]);
    }
  }

  lemma BitStep(b: bool, n: nat, len: nat)
    ensures ValueBits((if b then 1 else 0) + 2 * n, len + 1) == [b] + ValueBits(n, len)
  {
  }

  lemma {:induction false} BitsRoundTrip(bits: seq<bool>)
    ensures ValueBits(BitsValue(bits), |bits|) == bits
  {
    if bits != [] {
      BitsRoundTrip(bits[1..]);
      BitStep(bits[0], BitsValue(bits[1..]), |bits| - 1);
    }
  }

  function ByteOf(bits: seq<bool>): Byte
    requires |bits| == 8
  {
    BitsBound(bits);
    assert Pow2(8) == 256 by { Pow2Add(4, 4); }
    BitsValue(bits)
  }

  function WordBytes(w: Word16): (b: seq<Byte>)
    ensures |b| == 2
  {
    [ByteOf(w[..8]), ByteOf(w[8..])]
  }

  function BytesWord(b: seq<Byte>): Word16
    requires |b| == 2
  {
    ValueBits(b[0], 8) + ValueBits(b[1], 8)
  }

  lemma WordRoundTrip(w: Word16)
    ensures BytesWord(WordBytes(w)) == w
  {
    BitsRoundTrip(w[..8]);
    BitsRoundTrip(w[8..]);
    assert w == w[..8] + w[8..];
  }

  // ---- Control, status and tag words ----

  /** What loading a control word makes of its reserved bits. */
  function NormalizeCw(raw: Word16): Word16 {
    raw[6 := true][7 := false][13 := false][14 := false][15 := false]
  }

  predicate Normalized(cw: Word16) { cw[6] && !cw[7] && !cw[13] && !cw[14] && !cw[15] }

  lemma NormalizeKeeps(cw: Word16)
    ensures Normalized(NormalizeCw(cw))
    ensures Normalized(cw) ==> NormalizeCw(cw) == cw
  {
  }

  /** The stored status word keeps no TOP of its own. */
  predicate NoTop(sw: Word16) { !sw[11] && !sw[12] && !sw[13] }

  function WithoutTop(sw: Word16): Word16 { sw[11 := false][12 := false][13 := false] }

  /** The status word as read: TOP in bits 13:11. */
  function StatusWord(sw: Word16, top: Top): Word16 {
    sw[11 := top % 2 == 1][12 := top / 2 % 2 == 1][13 := top / 4 == 1]
  }

  function TopOf(sw: Word16): Top {
    (if sw[11] then 1 else 0) + (if sw[12] then 2 else 0) + (if sw[13] then 4 else 0)
  }

  lemma StatusRoundTrip(sw: Word16, top: Top)
    requires NoTop(sw)
    ensures TopOf(StatusWord(sw, top)) == top && WithoutTop(StatusWord(sw, top)) == sw
  {
  }

  /** 0 valid, 1 zero, 2 special, 3 empty. */
  function Tag(reg: Reg, isEmpty: bool): (t: nat)
    ensures t < 4 && (t == 3 <==> isEmpty)
  {
    if isEmpty then 3
    else
      var exp, mant := LeValue(reg[8..]) % 0x8000, LeValue(reg[..8]);
      if exp == 0 && mant == 0 then 1
      else if exp == 0 || exp == 0x7fff || mant < P63 then 2
      else 0
  }

  function TagWord(regs: Regs, empty: Tags): Word16 {
    seq(16, j requires 0 <= j < 16 =>
      var t := Tag(regs[j / 2], empty[j / 2]); if j % 2 == 0 then t % 2 == 1 else t / 2 == 1)
  }

  /** Only the empty tags of a loaded tag word mean anything. */
  function EmptyTags(tw: Word16): Tags {
    seq(8, i requires 0 <= i < 8 => tw[2 * i] && tw[2 * i + 1])
  }

  lemma TagRoundTrip(regs: Regs, empty: Tags)
    ensures EmptyTags(TagWord(regs, empty)) == empty
  {
    hide Tag;
    forall i | 0 <= i < 8
      ensures EmptyTags(TagWord(regs, empty))[i] == empty[i]
    {
      var t := Tag(regs[i], empty[i]);
      assert (2 * i) / 2 == i && (2 * i + 1) / 2 == i;
    }
  }

  // ---- Buffers ----

  function Patch(s: seq<Byte>, off: nat, data: seq<Byte>): (r: seq<Byte>)
    requires off + |data| <= |s|
    ensures |r| == |s|
  {
    s[..off] + data + s[off + |data|..]
  }

  function Slice(s: seq<Byte>, off: nat, n: nat): (r: seq<Byte>)
    requires off + n <= |s|
    ensures |r| == n
  {
    s[off..off + n]
  }

  /** A patch reads back, and leaves every range apart from it alone. */
  lemma PatchReads(s: seq<Byte>, off: nat, data: seq<Byte>, at: nat, n: nat)
    requires off + |data| <= |s| && at + n <= |s|
    ensures at == off && n == |data| ==> Slice(Patch(s, off, data), at, n) == data
    ensures at + n <= off || off + |data| <= at ==> Slice(Patch(s, off, data), at, n) == Slice(s, at, n)
  {
  }

  // ---- The environment ----

  datatype Environment = Environment(cw: Word16, sw: Word16, top: Top, empty: Tags, tail: Tail)

  const FILL: seq<Byte> := [255, 255]

  /** The 28 bytes `fnstenv` stores; the upper half of each word's dword is filled. */
  function Env28(e: Environment, regs: Regs): (b: seq<Byte>)
    ensures |b| == 28
  {
    WordBytes(e.cw) + FILL + WordBytes(StatusWord(e.sw, e.top)) + FILL + WordBytes(TagWord(regs, e.empty)) + FILL
    + e.tail[..14] + FILL
  }

  /** What `fldenv` makes of 28 bytes. */
  function LoadEnv28(b: seq<Byte>): Environment
    requires |b| == 28
  {
    var sw := BytesWord(Slice(b, 4, 2));
    Environment(NormalizeCw(BytesWord(Slice(b, 0, 2))), WithoutTop(sw), TopOf(sw),
                EmptyTags(BytesWord(Slice(b, 8, 2))), Slice(b, 12, 16))
  }

  /** Theorem: loading a stored environment gives it back, except the last two bytes of the carried tail. */
  lemma EnvironmentRoundTrip(e: Environment, regs: Regs)
    requires Normalized(e.cw) && NoTop(e.sw)
    ensures LoadEnv28(Env28(e, regs)) == e.(tail := e.tail[..14] + FILL)
  {
    hide NormalizeCw;
    hide StatusWord;
    hide WordBytes;
    hide BytesWord;
    hide TagWord;
    hide EmptyTags;
    hide TopOf;
    hide WithoutTop;
    var b := Env28(e, regs);
    assert Slice(b, 0, 2) == WordBytes(e.cw);
    assert Slice(b, 4, 2) == WordBytes(StatusWord(e.sw, e.top));
    assert Slice(b, 8, 2) == WordBytes(TagWord(regs, e.empty));
    assert Slice(b, 12, 16) == e.tail[..14] + FILL;
    WordRoundTrip(e.cw);
    NormalizeKeeps(e.cw);
    WordRoundTrip(StatusWord(e.sw, e.top));
    StatusRoundTrip(e.sw, e.top);
    WordRoundTrip(TagWord(regs, e.empty));
    TagRoundTrip(regs, e.empty);
  }

  // ---- The save area ----

  type Lane = b: seq<Byte> | |b| == 16 witness seq(16, i => 0)

  const ZERO_LANE: Lane := seq(16, i => 0)

  type Lanes = x: seq<Lane> | |x| == 16 witness seq<Lane>(16, i => ZERO_LANE)

  /** What `fxsave` keeps: the x87 state and the sixteen vector registers. */
  datatype Saved = Saved(cw: Word16, sw: Word16, top: Top, empty: Tags, regs: Regs, xmm: Lanes)

  /** Items laid out from `off`, sixteen bytes apart. */
  function PatchAll(s: seq<Byte>, off: nat, items: seq<seq<Byte>>): (r: seq<Byte>)
    requires off + 16 * |items| <= |s| && forall i | 0 <= i < |items| :: |items[i]| <= 16
    ensures |r| == |s|
    decreases |items|
  {
    if items == [] then s
    else
      var k := |items| - 1;
      Patch(PatchAll(s, off, items[..k]), off + 16 * k, items[k])
  }

  lemma NothingPatched(s: seq<Byte>, off: nat)
    requires off <= |s|
    ensures PatchAll(s, off, []) == s
  {
  }

  lemma PatchNext(s: seq<Byte>, off: nat, items: seq<seq<Byte>>, k: nat)
    requires off + 16 * |items| <= |s| && (forall i | 0 <= i < |items| :: |items[i]| <= 16) && k < |items|
    ensures PatchAll(s, off, items[..k + 1]) == Patch(PatchAll(s, off, items[..k]), off + 16 * k, items[k])
  {
    assert items[..k + 1][..k] == items[..k];
  }

  lemma {:induction false} PatchAllReads(s: seq<Byte>, off: nat, items: seq<seq<Byte>>, j: nat)
    requires off + 16 * |items| <= |s| && (forall i | 0 <= i < |items| :: |items[i]| <= 16) && j < |items|
    ensures Slice(PatchAll(s, off, items), off + 16 * j, |items[j]|) == items[j]
    decreases |items|
  {
    var k := |items| - 1;
    var front := items[..k];
    PatchReads(PatchAll(s, off, front), off + 16 * k, items[k], off + 16 * j, |items[j]|);
    if j < k {
      PatchAllReads(s, off, front, j);
    }
  }

  lemma {:induction false} PatchAllElsewhere(s: seq<Byte>, off: nat, items: seq<seq<Byte>>, at: nat, n: nat)
    requires off + 16 * |items| <= |s| && (forall i | 0 <= i < |items| :: |items[i]| <= 16) && at + n <= |s|
    requires at + n <= off || off + 16 * |items| <= at
    ensures Slice(PatchAll(s, off, items), at, n) == Slice(s, at, n)
    decreases |items|
  {
    if items != [] {
      var k := |items| - 1;
      PatchReads(PatchAll(s, off, items[..k]), off + 16 * k, items[k], at, n);
      PatchAllElsewhere(s, off, items[..k], at, n);
    }
  }

  /** The registers from the top of the stack down. */
  function Stacked(regs: Regs, top: Top): (r: Regs) {
    seq(8, j requires 0 <= j < 8 => regs[(top + j) % 8])
  }

  lemma StackedAt(regs: Regs, top: Top, j: nat)
    requires j < 8
    ensures Stacked(regs, top)[j] == regs[(top + j) % 8]
  {
  }

  function Unstacked(slots: Regs, top: Top): (r: Regs) {
    seq(8, i requires 0 <= i < 8 => slots[(i + 8 - top) % 8])
  }

  lemma StackRoundTrip(regs: Regs, top: Top)
    ensures Unstacked(Stacked(regs, top), top) == regs
  {
    forall i | 0 <= i < 8
      ensures Unstacked(Stacked(regs, top), top)[i] == regs[i]
    {
      RotateBack(top, i);
    }
  }

  lemma RotateBack(top: Top, i: nat)
    requires i < 8
    ensures (top + (i + 8 - top) % 8) % 8 == i
  {
  }

  function Inverted(t: Tags): Tags { seq(8, i requires 0 <= i < 8 => !t[i]) }

  const MXCSR: seq<Byte> := [0x80, 0x1f, 0, 0, 0xff, 0xff, 0, 0]

  /** The first 32 bytes of the save area. */
  function Header(st: Saved): (b: seq<Byte>)
    ensures |b| == 512
  {
    var zero: seq<Byte> := seq(512, i => 0);
    var words := WordBytes(st.cw) + WordBytes(StatusWord(st.sw, st.top)) + [ByteOf(Inverted(st.empty))];
    Patch(Patch(zero, 0, words), 24, MXCSR)
  }

  function FxImage(st: Saved): (b: seq<Byte>)
    ensures |b| == 512
  {
    PatchAll(PatchAll(Header(st), 32, Stacked(st.regs, st.top)), 160, st.xmm)
  }

  /** What `fxrstor` makes of 512 bytes. */
  function FxLoad(b: seq<Byte>): Saved
    requires |b| == 512
  {
    var sw := BytesWord(Slice(b, 2, 2));
    var top := TopOf(sw);
    Saved(NormalizeCw(BytesWord(Slice(b, 0, 2))), WithoutTop(sw), top, Inverted(ValueBits(b[4], 8)),
          Unstacked(seq<Reg>(8, j requires 0 <= j < 8 => Slice(b, 32 + 16 * j, 10)), top),
          seq<Lane>(16, i requires 0 <= i < 16 => Slice(b, 160 + 16 * i, 16)))
  }

  lemma HeaderReads(st: Saved)
    ensures var h := Header(st);
            && Slice(h, 0, 2) == WordBytes(st.cw) && Slice(h, 2, 2) == WordBytes(StatusWord(st.sw, st.top))
            && Slice(h, 4, 1) == [ByteOf(Inverted(st.empty))]
  {
    hide WordBytes;
    hide StatusWord;
    hide ByteOf;
    var zero: seq<Byte> := seq(512, i => 0);
    var words := WordBytes(st.cw) + WordBytes(StatusWord(st.sw, st.top)) + [ByteOf(Inverted(st.empty))];
    var h := Header(st);
    PatchReads(Patch(zero, 0, words), 24, MXCSR, 0, 5);
    PatchReads(zero, 0, words, 0, 5);
    assert Slice(h, 0, 5) == words;
    assert Slice(h, 0, 2) == words[..2] && Slice(h, 2, 2) == words[2..4] && Slice(h, 4, 1) == words[4..5];
  }

  lemma ImageHeader(st: Saved, at: nat, n: nat)
    requires at + n <= 32
    ensures Slice(FxImage(st), at, n) == Slice(Header(st), at, n)
  {
    hide Header;
    hide PatchAll;
    var slots := PatchAll(Header(st), 32, Stacked(st.regs, st.top));
    PatchAllElsewhere(slots, 160, st.xmm, at, n);
    PatchAllElsewhere(Header(st), 32, Stacked(st.regs, st.top), at, n);
  }

  lemma ImageSlots(st: Saved)
    ensures forall j | 0 <= j < 8 :: Slice(FxImage(st), 32 + 16 * j, 10) == Stacked(st.regs, st.top)[j]
    ensures forall i | 0 <= i < 16 :: Slice(FxImage(st), 160 + 16 * i, 16) == st.xmm[i]
  {
    hide Header;
    hide PatchAll;
    hide Slice;
    var stacked := Stacked(st.regs, st.top);
    var slots := PatchAll(Header(st), 32, stacked);
    forall j | 0 <= j < 8
      ensures Slice(FxImage(st), 32 + 16 * j, 10) == stacked[j]
    {
      PatchAllElsewhere(slots, 160, st.xmm, 32 + 16 * j, 10);
      PatchAllReads(Header(st), 32, stacked, j);
    }
    forall i | 0 <= i < 16
      ensures Slice(FxImage(st), 160 + 16 * i, 16) == st.xmm[i]
    {
      PatchAllReads(slots, 160, st.xmm, i);
    }
  }

  /** Theorem: restoring a saved area gives back every field, the rotated registers and the vector registers. */
  lemma SaveAreaRoundTrip(st: Saved)
    requires Normalized(st.cw) && NoTop(st.sw)
    ensures FxLoad(FxImage(st)) == st
  {
    hide NormalizeCw;
    hide StatusWord;
    hide WordBytes;
    hide BytesWord;
    hide TopOf;
    hide WithoutTop;
    hide FxImage;
    hide Slice;
    hide Stacked;
    hide Unstacked;
    hide ByteOf;
    hide ValueBits;
    var b := FxImage(st);
    HeaderReads(st);
    ImageHeader(st, 0, 2);
    ImageHeader(st, 2, 2);
    ImageHeader(st, 4, 1);
    assert b[4] == ByteOf(Inverted(st.empty)) by { SliceOne(b, 4); }
    ImageSlots(st);
    WordRoundTrip(st.cw);
    NormalizeKeeps(st.cw);
    WordRoundTrip(StatusWord(st.sw, st.top));
    StatusRoundTrip(st.sw, st.top);
    StackRoundTrip(st.regs, st.top);
    TagByteRoundTrip(st.empty);
    assert seq<Reg>(8, j requires 0 <= j < 8 => Slice(b, 32 + 16 * j, 10)) == Stacked(st.regs, st.top);
    assert seq<Lane>(16, i requires 0 <= i < 16 => Slice(b, 160 + 16 * i, 16)) == st.xmm;
  }

  lemma SliceOne(b: seq<Byte>, at: nat)
    requires at < |b|
    ensures Slice(b, at, 1) == [b[at]]
  {
  }

  lemma TagByteRoundTrip(empty: Tags)
    ensures Inverted(ValueBits(ByteOf(Inverted(empty)), 8)) == empty
  {
    BitsRoundTrip(Inverted(empty));
  }
}
