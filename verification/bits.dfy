/** Bit strings, most significant bit first, as `std::bitset<8>::to_string`
    writes them and the bitset constructor from a string reads them back. */
module Bits {
  import opened Field

  function Pow2(k: nat): (p: nat)
    ensures p > 0
  {
    if k == 0 then 1 else 2 * Pow2(k - 1)
  }

  lemma Pow2Eight()
    ensures Pow2(8) == 256
  {
    assert Pow2(4) == 16;
  }

  /** Bit j of v, counting from the least significant (`bitset::operator[]`). */
  function Bit(v: nat, j: nat): bool
  {
    (v / Pow2(j)) % 2 == 1
  }

  /** The k low bits of v, most significant first. */
  function BitsOf(v: nat, k: nat): (b: seq<bool>)
    ensures |b| == k
  {
    seq(k, i requires 0 <= i < k => Bit(v, k - 1 - i))
  }

  /** Writing k bits of v is writing k - 1 bits of v / 2, then v's lowest bit. */
  lemma BitsOfSnoc(v: nat, k: nat)
    requires k > 0
    ensures BitsOf(v, k) == BitsOf(v / 2, k - 1) + [v % 2 == 1]
  {
    var a := BitsOf(v, k);
    var b := BitsOf(v / 2, k - 1) + [v % 2 == 1];
    forall i | 0 <= i < k
      ensures a[i] == b[i]
    {
      if i < k - 1 {
        BitHalf(v, k - 2 - i);
      } else {
        BitZero(v);
      }
    }
  }

  lemma BitHalf(v: nat, j: nat)
    ensures Bit(v, j + 1) == Bit(v / 2, j)
  {
    DivDiv(v, Pow2(j));
  }

  lemma BitZero(v: nat)
    ensures Bit(v, 0) == (v % 2 == 1)
  {
  }

  /** The number a bit string denotes, most significant bit first. */
  function BitsValue(b: seq<bool>): (v: nat)
    ensures v < Pow2(|b|)
  {
    if |b| == 0 then 0 else 2 * BitsValue(b[..|b| - 1]) + (if b[|b| - 1] then 1 else 0)
  }

  lemma ModUnique(v: int, d: int, q: int, r: int)
    requires d > 0 && v == d * q + r && 0 <= r < d
    ensures v % d == r && v / d == q
  {
    var q', r' := v / d, v % d;
    assert v == d * q' + r';
    Distribute(d, q, q');
    if q > q' {
      AtLeastOnce(d, q - q');
    } else if q < q' {
      Distribute(d, q', q);
      AtLeastOnce(d, q' - q);
    }
  }

  lemma Distribute(d: int, a: int, b: int)
    ensures d * (a - b) == d * a - d * b
  {
  }

  lemma {:induction false} AtLeastOnce(d: nat, k: nat)
    requires k >= 1
    ensures d * k >= d
  {
    if k > 1 {
      AtLeastOnce(d, k - 1);
      Distribute(d, k, 1);
    }
  }

  lemma HalfMod(v: nat, p: nat)
    requires p > 0
    ensures 2 * ((v / 2) % p) + v % 2 == v % (2 * p)
  {
    var h := v / 2;
    assert v == 2 * h + v % 2;
    assert h == p * (h / p) + h % p;
    assert v == (2 * p) * (h / p) + (2 * (h % p) + v % 2);
    ModUnique(v, 2 * p, h / p, 2 * (h % p) + v % 2);
  }

  /** Reading back the k bits written for v gives v modulo 2^k. */
  lemma {:induction false} ValueOfBits(v: nat, k: nat)
    ensures BitsValue(BitsOf(v, k)) == v % Pow2(k)
  {
    if k > 0 {
      var b := BitsOf(v, k);
      BitsOfSnoc(v, k);
      assert b[..k - 1] == BitsOf(v / 2, k - 1);
      ValueOfBits(v / 2, k - 1);
      HalfMod(v, Pow2(k - 1));
    }
  }

  /** Writing out the value of a bit string gives the bit string back. */
  lemma {:induction false} BitsOfValue(b: seq<bool>)
    ensures BitsOf(BitsValue(b), |b|) == b
  {
    if |b| > 0 {
      var k := |b| - 1;
      var w := BitsValue(b[..k]);
      var bit := if b[k] then 1 else 0;
      ModUnique(2 * w + bit, 2, w, bit);
      BitsOfSnoc(2 * w + bit, |b|);
      BitsOfValue(b[..k]);
      assert b == b[..k] + [b[k]];
    }
  }

  lemma DivDiv(v: nat, p: nat)
    requires p > 0
    ensures v / 2 / p == v / (2 * p)
  {
    var h := v / 2;
    assert v == 2 * h + v % 2;
    assert h == p * (h / p) + h % p;
    assert v == (2 * p) * (h / p) + (2 * (h % p) + v % 2);
    ModUnique(v, 2 * p, h / p, 2 * (h % p) + v % 2);
  }

  /** Eight bits as a byte. */
  function ByteOf(b: seq<bool>): (v: Byte)
    requires |b| == 8
  {
    Pow2Eight();
    BitsValue(b)
  }

  /** The bit string of a byte sequence: eight bits per byte. */
  function Flatten(bytes: seq<Byte>): (b: seq<bool>)
    ensures |b| == 8 * |bytes|
  {
    if |bytes| == 0 then [] else BitsOf(bytes[0], 8) + Flatten(bytes[1..])
  }

  /** A bit string cut into bytes, eight bits at a time. */
  function Pack(b: seq<bool>): (bytes: seq<Byte>)
    requires |b| % 8 == 0
    ensures 8 * |bytes| == |b|
  {
    if |b| == 0 then [] else [ByteOf(b[..8])] + Pack(b[8..])
  }

  lemma {:induction false} PackFlatten(bytes: seq<Byte>)
    ensures Pack(Flatten(bytes)) == bytes
  {
    hide BitsOf, Pow2;
    if |bytes| > 0 {
      var f := Flatten(bytes);
      assert f[..8] == BitsOf(bytes[0], 8);
      assert f[8..] == Flatten(bytes[1..]);
      ValueOfBits(bytes[0], 8);
      Pow2Eight();
      PackFlatten(bytes[1..]);
    }
  }

  lemma {:induction false} FlattenPack(b: seq<bool>)
    requires |b| % 8 == 0
    ensures Flatten(Pack(b)) == b
  {
    if |b| > 0 {
      var p := Pack(b);
      assert p[1..] == Pack(b[8..]);
      BitsOfValue(b[..8]);
      FlattenPack(b[8..]);
      assert b == b[..8] + b[8..];
    }
  }

  lemma {:induction false} PackAppend(a: seq<bool>, b: seq<bool>)
    requires |a| % 8 == 0 && |b| % 8 == 0
    ensures Pack(a + b) == Pack(a) + Pack(b)
  {
    if |a| > 0 {
      assert (a + b)[..8] == a[..8];
      assert (a + b)[8..] == a[8..] + b;
      PackAppend(a[8..], b);
    } else {
      assert a + b == b;
    }
  }

  /** The eight bits written for a byte pack back into that byte. */
  lemma PackByte(v: Byte)
    ensures Pack(BitsOf(v, 8)) == [v]
  {
    hide BitsOf, Pow2;
    var b := BitsOf(v, 8);
    ValueOfBits(v, 8);
    Pow2Eight();
    assert b[8..] == [];
    assert b[..8] == b;
  }
}
