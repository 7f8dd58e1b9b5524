/** The encoding half of the Reed–Solomon codec: the generator polynomial
    with roots 2^0, ..., 2^6, the systematic encoder that appends the seven
    check bytes, and the byte-mode framing of a message into the 19 data
    codewords of a version-1 symbol. */
module Codec {
  import opened Field
  import opened Polynomial
  import opened Bits

  /** `CORRECTION_SYMBOL_COUNT`: check bytes per codeword. */
  const Nsym: nat := 7

  // generator_poly

  /** The product (x + 2^0)(x + 2^1)...(x + 2^(k-1)), built by the loop of
      `generator_poly` with the factors [1, exp[i]]. */
  function Generator(t: Tables, k: nat): (g: seq<Byte>)
    requires Valid(t) && k <= Nsym
    ensures |g| == k + 1 && g[0] == 1
  {
    if k == 0 then [1]
    else
      var g' := Generator(t, k - 1);
      var factor := [1, t.exp[k - 1]];
      PolyMulHead(t, g', factor);
      MulOne(t, 1);
      PolyMul(t, g', factor)
  }

  /** `generator_poly`: degree 7 and monic. */
  function GeneratorPoly(t: Tables): (g: seq<Byte>)
    requires Valid(t)
    ensures |g| == Nsym + 1 && g[0] == 1
  {
    Generator(t, Nsym)
  }

  /** The factor [1, e] vanishes at e. */
  lemma FactorRoot(t: Tables, e: Byte)
    requires Valid(t)
    ensures Value(t, [1, e], e) == 0
  {
    assert Value(t, [1], e) == 1 by {
      assert [1][..0] == [];
      MulZero(t, e);
      XorZero(1);
    }
    assert [1, e][..1] == [1];
    MulOne(t, e);
    XorSelf(e);
  }

  lemma {:induction false} GeneratorRoot(t: Tables, k: nat, i: nat)
    requires Valid(t) && i < k <= Nsym
    ensures Value(t, Generator(t, k), t.exp[i]) == 0
  {
    var g' := Generator(t, k - 1);
    var factor := [1, t.exp[k - 1]];
    var x := t.exp[i];
    ValueMul(t, g', factor, x);
    if i < k - 1 {
      GeneratorRoot(t, k - 1, i);
      MulZero(t, Value(t, factor, x));
    } else {
      FactorRoot(t, x);
      MulZero(t, Value(t, g', x));
    }
  }

  /** 2^0, ..., 2^6 are roots of the generator. */
  lemma GeneratorRoots(t: Tables, i: nat)
    requires Valid(t) && i < Nsym
    ensures Value(t, GeneratorPoly(t), Alpha(t, i)) == 0
  {
    AlphaIsExp(t, i);
    GeneratorRoot(t, Nsym, i);
  }

  // encode_message

  /** `encode_message`: the message followed by the remainder of
      message * x^7 divided by the generator. */
  function EncodeMessage(t: Tables, m: seq<Byte>): (code: seq<Byte>)
    requires Valid(t)
    ensures |code| == |m| + Nsym
    ensures code[..|m|] == m
  {
    var g := GeneratorPoly(t);
    var d := PolyDiv(t, m + Zeros(|g| - 1), g);
    m + d.remainder
  }

  /** The quotient the encoder's division leaves behind. */
  function EncodeQuotient(t: Tables, m: seq<Byte>): (q: seq<Byte>)
    requires Valid(t)
    ensures |q| == |m|
  {
    PolyDiv(t, m + Zeros(Nsym), GeneratorPoly(t)).quotient
  }

  /** Every codeword is a multiple of the generator: the message shifted by
      seven places plus the remainder is generator * quotient exactly. */
  lemma EncodeIsMultiple(t: Tables, m: seq<Byte>)
    requires Valid(t)
    ensures EncodeMessage(t, m) == PolyMul(t, GeneratorPoly(t), EncodeQuotient(t, m))
  {
    var g := GeneratorPoly(t);
    var padded := m + Zeros(Nsym);
    var d := PolyDiv(t, padded, g);
    var p := PolyMul(t, g, d.quotient);
    var tail := Zeros(|m|) + d.remainder;
    MonicDivision(t, padded, g);
    PolyAddLonger(p, d.remainder);
    XorVecCancel(p, tail);
    ShiftedPlusTail(m, d.remainder);
  }

  lemma ShiftedPlusTail(m: seq<Byte>, r: seq<Byte>)
    requires |r| == Nsym
    ensures XorVec(m + Zeros(Nsym), Zeros(|m|) + r) == m + r
  {
    forall k | 0 <= k < |m| + Nsym
      ensures XorVec(m + Zeros(Nsym), Zeros(|m|) + r)[k] == (m + r)[k]
    {
      hide Xor;
      if k < |m| {
        XorZero(m[k]);
      } else {
        XorZero(r[k - |m|]);
      }
    }
  }

  /** An encoded message evaluates to zero at 2^0, ..., 2^6: all its
      syndromes vanish. */
  lemma EncodedRoots(t: Tables, m: seq<Byte>, i: nat)
    requires Valid(t) && i < Nsym
    ensures Value(t, EncodeMessage(t, m), Alpha(t, i)) == 0
  {
    var x := Alpha(t, i);
    EncodeIsMultiple(t, m);
    ValueMul(t, GeneratorPoly(t), EncodeQuotient(t, m), x);
    GeneratorRoots(t, i);
    MulZero(t, Value(t, EncodeQuotient(t, m), x));
  }

  // get_code

  /** Bits in a version-1 symbol's data codewords at error-correction level
      L: 19 bytes. */
  const DataBits: nat := 152

  /** The byte-mode indicator 0100. */
  const ModeIndicator: seq<bool> := [false, true, false, false]

  /** The terminator 0000. */
  const Terminator: seq<bool> := [false, false, false, false]

  /** Mode indicator, the length as 8 bits (so taken modulo 256), the bytes
      of the message, terminator. */
  function Frame(m: seq<Byte>): (f: seq<bool>)
    ensures |f| == 16 + 8 * |m|
  {
    ModeIndicator + BitsOf(|m| % 256, 8) + Flatten(m) + Terminator
  }

  /** The padding loop of `get_code`: while shorter than 152 bits, append
      11101100 when the last eight bits are 00010001 and 00010001 otherwise. */
  function Pad(code: seq<bool>): (p: seq<bool>)
    decreases DataBits - |code|
  {
    if |code| >= DataBits then code
    else if |code| >= 16 && code[|code| - 8..] == BitsOf(0x11, 8) then Pad(code + BitsOf(0xEC, 8))
    else Pad(code + BitsOf(0x11, 8))
  }

  lemma {:induction false} PadLength(code: seq<bool>)
    requires |code| % 8 == 0
    ensures |Pad(code)| == Max(|code|, DataBits)
    decreases DataBits - |code|
  {
    hide Pad, BitsOf;
    if |code| < DataBits {
      PadUnfold(code);
      var b: seq<bool> := if |code| >= 16 && code[|code| - 8..] == BitsOf(0x11, 8) then BitsOf(0xEC, 8) else BitsOf(0x11, 8);
      PadLength(code + b);
    } else {
      PadDone(code);
    }
  }

  lemma PadUnfold(code: seq<bool>)
    requires |code| < DataBits
    ensures Pad(code) == Pad(code + if |code| >= 16 && code[|code| - 8..] == BitsOf(0x11, 8) then BitsOf(0xEC, 8) else BitsOf(0x11, 8))
  {
  }

  lemma PadDone(code: seq<bool>)
    requires |code| >= DataBits
    ensures Pad(code) == code
  {
  }

  /** `get_code`: the framed message padded to 152 bits, cut into bytes. The
      message is the string's bytes; `std::bitset<8>` of a char keeps its
      low eight bits, which is the byte. */
  function GetCode(m: seq<Byte>): (code: seq<Byte>)
    ensures |code| == Max(19, |m| + 2)
  {
    CodeLength(m);
    Pack(Pad(Frame(m)))
  }

  lemma CodeLength(m: seq<Byte>)
    ensures |Pad(Frame(m))| % 8 == 0 && |Pack(Pad(Frame(m)))| == Max(19, |m| + 2)
  {
    hide Pack, Pad, Frame, BitsOf, Flatten;
    PadLength(Frame(m));
  }

  /** The k-th pad byte: 0x11 first, then alternating with 0xEC. */
  function PadByte(k: nat): Byte
  {
    if k % 2 == 0 then 0x11 else 0xEC
  }

  /** The first k pad bytes. */
  function PadBytes(k: nat): (p: seq<Byte>)
    ensures |p| == k
  {
    seq(k, i requires 0 <= i < k => PadByte(i))
  }

  lemma FillerNone()
    ensures Pack(Filler(0)) == PadBytes(0)
  {
  }

  lemma FillerSnoc(k: nat)
    requires k > 0
    ensures Filler(k) == Filler(k - 1) + BitsOf(PadByte(k - 1), 8)
  {
  }

  lemma PadBytesSnoc(k: nat)
    requires k > 0
    ensures PadBytes(k) == PadBytes(k - 1) + [PadByte(k - 1)]
  {
  }

  /** The first k pad bytes as bits. */
  function Filler(k: nat): (f: seq<bool>)
    ensures |f| == 8 * k
  {
    if k == 0 then [] else Filler(k - 1) + BitsOf(PadByte(k - 1), 8)
  }

  /** Number of pad bytes after a frame of n bits. */
  function PadCount(n: nat): nat
  {
    if n >= DataBits then 0 else (DataBits - n) / 8
  }

  lemma LastBit(v: nat, k: nat)
    requires k > 0
    ensures BitsOf(v, k)[k - 1] == (v % 2 == 1)
  {
    BitsOfSnoc(v, k);
  }

  lemma LastEight(a: seq<bool>, v: nat)
    ensures |a + BitsOf(v, 8)| >= 8
    ensures (a + BitsOf(v, 8))[|a + BitsOf(v, 8)| - 8..] == BitsOf(v, 8)
  {
  }

  /** A frame ends with the last bit of its terminator, a 0. */
  lemma FrameEnds(m: seq<Byte>)
    ensures !Frame(m)[|Frame(m)| - 1]
  {
    hide BitsOf, Flatten;
    var f := Frame(m);
    assert f[|f| - 1] == Terminator[3];
  }

  /** Where the length field and the data sit in a frame. */
  lemma FrameFields(m: seq<Byte>)
    ensures Frame(m)[4..12] == BitsOf(|m| % 256, 8)
    ensures Frame(m)[12..12 + 8 * |m|] == Flatten(m)
  {
    FrameLengthField(m);
    FrameDataField(m);
  }

  lemma FrameLengthField(m: seq<Byte>)
    ensures Frame(m)[4..12] == BitsOf(|m| % 256, 8)
  {
    hide BitsOf, Flatten;
    var len := BitsOf(|m| % 256, 8);
    var rest := Flatten(m) + Terminator;
    assert Frame(m) == ModeIndicator + len + rest;
    Middle(ModeIndicator, len, rest);
  }

  lemma FrameDataField(m: seq<Byte>)
    ensures Frame(m)[12..12 + 8 * |m|] == Flatten(m)
  {
    hide BitsOf, Flatten;
    var head := ModeIndicator + BitsOf(|m| % 256, 8);
    Middle(head, Flatten(m), Terminator);
  }

  lemma Middle<T>(a: seq<T>, b: seq<T>, c: seq<T>)
    ensures (a + b + c)[|a|..|a| + |b|] == b
  {
  }

  /** After j pad bytes the last eight bits are 00010001 exactly when j is
      odd, i.e. when the last pad byte was 0x11. */
  lemma PadCondition(f: seq<bool>, j: nat)
    requires |f| % 8 == 0 && |f| >= 16 && !f[|f| - 1]
    ensures var c := f + Filler(j);
      |c| >= 8 && (c[|c| - 8..] == BitsOf(0x11, 8) <==> j % 2 == 1)
  {
    if j == 0 {
      PadConditionFirst(f);
    } else {
      PadConditionNext(f, j);
    }
  }

  lemma PadConditionFirst(f: seq<bool>)
    requires |f| >= 16 && !f[|f| - 1]
    ensures (f + Filler(0))[|f| - 8..] != BitsOf(0x11, 8)
  {
    hide BitsOf;
    LastBit(0x11, 8);
    assert f + Filler(0) == f;
    assert f[|f| - 8..][7] == f[|f| - 1];
  }

  lemma PadConditionNext(f: seq<bool>, j: nat)
    requires j > 0
    ensures var c := f + Filler(j);
      c[|c| - 8..] == BitsOf(0x11, 8) <==> j % 2 == 1
  {
    hide BitsOf, Filler;
    LastBit(0x11, 8);
    LastBit(0xEC, 8);
    var a := f + Filler(j - 1);
    FillerStep(f, j - 1);
    LastEight(a, PadByte(j - 1));
  }

  /** One pass of the padding loop appends the next pad byte. */
  lemma PadStep(f: seq<bool>, j: nat)
    requires |f| % 8 == 0 && |f| >= 16 && !f[|f| - 1] && j < PadCount(|f|)
    ensures Pad(f + Filler(j)) == Pad(f + Filler(j + 1))
  {
    var c := f + Filler(j);
    var b := PadByte(j);
    PadCondition(f, j);
    FillerStep(f, j);
    hide BitsOf, Filler;
    assert Pad(c) == Pad(c + BitsOf(b, 8));
  }

  lemma FillerStep(f: seq<bool>, j: nat)
    ensures f + Filler(j) + BitsOf(PadByte(j), 8) == f + Filler(j + 1)
  {
    hide BitsOf;
  }

  /** The padding loop appends 0x11, 0xEC, 0x11, ... after a frame whose
      last bit is 0. */
  lemma {:induction false} PadFills(f: seq<bool>, j: nat)
    requires |f| % 8 == 0 && |f| >= 16 && !f[|f| - 1] && j <= PadCount(|f|)
    ensures Pad(f + Filler(j)) == f + Filler(PadCount(|f|))
    decreases PadCount(|f|) - j
  {
    if j < PadCount(|f|) {
      PadStep(f, j);
      PadFills(f, j + 1);
    } else {
      hide BitsOf, Filler;
      assert |f + Filler(j)| >= DataBits;
    }
  }

  lemma {:induction false} PackFiller(k: nat)
    ensures Pack(Filler(k)) == PadBytes(k)
  {
    hide Pack, BitsOf, Filler, PadBytes, PadByte;
    if k == 0 {
      FillerNone();
    } else {
      FillerSnoc(k);
      PackFiller(k - 1);
      PackAppend(Filler(k - 1), BitsOf(PadByte(k - 1), 8));
      PackByte(PadByte(k - 1));
      PadBytesSnoc(k);
    }
  }

  /** The padded frame: the frame, then the pad bytes' bits. */
  lemma PaddedFrame(m: seq<Byte>)
    ensures Pad(Frame(m)) == Frame(m) + Filler(PadCount(16 + 8 * |m|))
  {
    hide Frame, Pad, BitsOf, Flatten;
    var f := Frame(m);
    FrameEnds(m);
    assert f + Filler(0) == f;
    PadFills(f, 0);
  }

  /** The 19 (or more) data codewords: the framed message, then pad bytes
      0x11, 0xEC, 0x11, ... starting with 0x11. The first pad is 0x11 because
      the frame ends in the 0000 terminator, never in 00010001. */
  lemma GetCodeLayout(m: seq<Byte>)
    ensures GetCode(m) == Pack(Frame(m)) + PadBytes(PadCount(16 + 8 * |m|))
  {
    hide Frame, Pad, Filler, BitsOf, Flatten, Pack, PadBytes;
    var f := Frame(m);
    var k := PadCount(16 + 8 * |m|);
    PaddedFrame(m);
    PackAppend(f, Filler(k));
    PackFiller(k);
  }

  /** The length field read back from the bytes. */
  function ReadLength(code: seq<Byte>): nat
    requires |code| >= 2
  {
    BitsValue(Flatten(code)[4..12])
  }

  /** n data bytes read back from the bytes, after mode and length. */
  function ReadData(code: seq<Byte>, n: nat): seq<Byte>
    requires 12 + 8 * n <= 8 * |code|
  {
    ModUnique(8 * n, 8, n, 0);
    Pack(Flatten(code)[12..12 + 8 * n])
  }

  /** The framing is readable: the length field holds |m| modulo 256 and the
      data bytes follow it unchanged. */
  lemma GetCodeReadBack(m: seq<Byte>)
    ensures ReadLength(GetCode(m)) == |m| % 256
    ensures ReadData(GetCode(m), |m|) == m
  {
    hide Frame, Pad, Filler, BitsOf, Flatten, Pack, Pow2, BitsValue;
    var f := Frame(m);
    var f' := f + Filler(PadCount(|f|));
    PadLength(f);
    PaddedFrame(m);
    FrameFields(m);
    FlattenPack(Pad(f));
    ValueOfBits(|m| % 256, 8);
    Pow2Eight();
    PackFlatten(m);
    assert f'[4..12] == f[4..12];
    assert f'[12..12 + 8 * |m|] == f[12..12 + 8 * |m|];
  }

  // encode

  /** `encode`: the data codewords `get_code` builds from the message,
      followed by their seven error-correction codewords. */
  function Encode(t: Tables, m: seq<Byte>): (code: seq<Byte>)
    requires Valid(t)
    ensures |code| == Max(19, |m| + 2) + Nsym
    ensures code[..|code| - Nsym] == GetCode(m)
  {
    EncodeMessage(t, GetCode(m))
  }
}
