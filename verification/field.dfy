/** The field operations as the codec performs them: symbols and table
    entries are `int`s holding bytes, `^` on those ints is field addition,
    and multiplication, division, inversion and powers read the exponent
    and logarithm tables.

    `Bits` views the tables with `bv8` entries; the lemmas below carry the
    algebra proved in `GaloisField` over to this representation. */
module Field {
  import opened Outcomes
  import G = GaloisField

  /** A symbol: an `int` in 0 .. 255. */
  type Byte = x: int | 0 <= x < 256

  /** The codec's exponent table (512 entries) and logarithm table (256
      entries), both vectors of `int`. */
  datatype Tables = Tables(exp: seq<Byte>, log: seq<nat>)

  /** The same tables with their entries as `bv8`. */
  function Bits(t: Tables): G.Tables
  {
    G.Tables(seq(|t.exp|, i requires 0 <= i < |t.exp| => t.exp[i] as bv8), t.log)
  }

  /** The tables as `init_tables` leaves them: exp[i] is alpha^(i mod 255),
      log[v] is the exponent below 255 that gives a non-zero v, and log[0]
      keeps its initial 0. This is `GaloisField.Valid` in the int view
      (`ValidBits`); the entries are wrapped in predicates of their own so
      that they come into play only where a lemma asks for them. */
  ghost predicate Valid(t: Tables)
  {
    && |t.exp| == 512 && |t.log| == 256
    && (forall v :: 0 <= v < 256 ==> t.log[v] < 255)
    && (forall i :: 0 <= i < 512 ==> ExpEntry(t, i))
    && (forall v :: 0 < v < 256 ==> LogEntry(t, v))
    && t.log[0] == 0
  }

  ghost predicate ExpEntry(t: Tables, i: nat)
  {
    i < |t.exp| && i < 512 && t.exp[i] == G.Exp(i) as int
  }

  ghost predicate LogEntry(t: Tables, v: nat)
  {
    v < |t.log| && G.AlphaPow(t.log[v]) as int == v
  }

  lemma ValidBits(t: Tables)
    requires Valid(t)
    ensures G.Valid(Bits(t))
  {
    var b := Bits(t);
    forall i | 0 <= i < 512
      ensures b.exp[i] == G.Exp(i)
    {
      assert ExpEntry(t, i);
      BitsRoundTrip(G.Exp(i));
    }
    forall v: bv8
      ensures G.LogOf(b, v) < 255
      ensures v != 0 ==> G.AlphaPow(G.LogOf(b, v)) == v
    {
      if v != 0 {
        assert LogEntry(t, v as int);
        BitsRoundTrip(v);
        BitsRoundTrip(G.AlphaPow(t.log[v as int]));
      }
    }
  }

  /** The tables after the constructor zero-fills them and `init_tables`
      fills them in. */
  function InitTables(): (t: Tables)
    ensures Valid(t)
  {
    var zeros := G.Tables(seq(512, _ => 0), seq(256, _ => 0));
    var b := G.InitTables(zeros);
    var t := Tables(seq(512, i requires 0 <= i < 512 => b.exp[i] as int), b.log);
    G.InitTablesCorrect(zeros);
    InitTablesValid(b, t);
    t
  }

  lemma InitTablesValid(b: G.Tables, t: Tables)
    requires G.Valid(b) && t.log == b.log && |t.exp| == 512
    requires forall i :: 0 <= i < 512 ==> t.exp[i] == b.exp[i] as int
    ensures Valid(t)
  {
    forall i | 0 <= i < 512
      ensures ExpEntry(t, i)
    {
    }
    forall v | 0 <= v < 256
      ensures t.log[v] < 255
      ensures 0 < v ==> LogEntry(t, v)
    {
      assert G.LogOf(b, v as bv8) < 255;
      ByteRoundTrip(v);
      if v > 0 {
        assert G.AlphaPow(G.LogOf(b, v as bv8)) == v as bv8;
      }
    }
    assert G.LogOf(b, 0) == 0;
  }

  /** `a ^ b` on two symbols: bitwise exclusive or, the field's addition. */
  function Xor(a: Byte, b: Byte): Byte
  {
    ((a as bv8) ^ (b as bv8)) as int
  }

  /** `gf_mul`: adds the logarithms of two non-zero symbols. Every table
      entry is a power of alpha, so only a zero factor gives zero. */
  function Mul(t: Tables, x: Byte, y: Byte): (r: Byte)
    requires Valid(t)
    ensures r == 0 <==> x == 0 || y == 0
  {
    if x == 0 || y == 0 then 0
    else
      var k := (t.log[x] + t.log[y]) % 255;
      assert ExpEntry(t, k);
      G.TimesAlphaNonZero(1, k % 255);
      t.exp[k]
  }

  /** `gf_inverse`: exp[255 - log x]. Zero has no logarithm, and the source
      throws; here that is a failure. */
  function Inverse(t: Tables, x: Byte): (r: Result<Byte>)
    requires Valid(t)
    ensures r.Success? <==> x != 0
    ensures r.Failure? ==> r.error == InverseOfZero
    ensures r.Success? ==> Mul(t, x, r.value) == 1
  {
    if x == 0 then Failure(InverseOfZero)
    else
      InverseCorrect(t, x);
      Success(t.exp[255 - t.log[x]])
  }

  /** `gf_div`: subtracts logarithms; a zero divisor fails (the source
      throws), and zero divided by anything else is zero. */
  function Div(t: Tables, x: Byte, y: Byte): (r: Result<Byte>)
    requires Valid(t)
    ensures r.Success? <==> y != 0
    ensures r.Failure? ==> r.error == DivisionByZero
    ensures r.Success? ==> Mul(t, r.value, y) == x
  {
    if y == 0 then Failure(DivisionByZero)
    else if x == 0 then Success(0)
    else
      DivideCorrect(t, x, y);
      Success(t.exp[(t.log[x] + 255 - t.log[y]) % 255])
  }

  /** `gf_pow`: exp[(log x * power) % 255] with the truncating `%` of C++. A
      negative exponent whose product with log x is not a multiple of 255
      reads before the start of the table: `TableIndexOutOfRange`. */
  function Pow(t: Tables, x: Byte, power: int): (r: Result<Byte>)
    requires Valid(t)
    ensures power == 0 ==> r == Success(1)
    ensures x == 0 && power != 0 ==> r == Success(0)
    ensures r.Failure? ==> power < 0 && r.error == TableIndexOutOfRange
  {
    if power == 0 then Success(1)
    else if x == 0 then Success(0)
    else
      var i := G.TruncatedRem255(t.log[x] * power);
      if i < 0 then Failure(TableIndexOutOfRange) else Success(t.exp[i])
  }

  /** x^n by repeated multiplication, the reference for `gf_pow`. */
  function Power(t: Tables, x: Byte, n: nat): Byte
    requires Valid(t)
  {
    if n == 0 then 1 else Mul(t, Power(t, x, n - 1), x)
  }

  /** alpha^i = 2^i, the value `gf_pow(2, i)` gives for i >= 0. */
  function Alpha(t: Tables, i: nat): (r: Byte)
    requires Valid(t)
    ensures Pow(t, 2, i) == Success(r)
  {
    PowNonNegative(t, 2, i);
    Pow(t, 2, i).value
  }

  // Representation

  lemma ByteRoundTrip(x: Byte)
    ensures (x as bv8) as int == x
  {
    assert x % 256 == x;
  }

  lemma BitsRoundTrip(v: bv8)
    ensures (v as int) as bv8 == v
  {
  }

  lemma BitsOfTables(t: Tables, i: nat)
    requires i < |t.exp|
    ensures Bits(t).exp[i] as int == t.exp[i]
  {
    ByteRoundTrip(t.exp[i]);
  }

  lemma LogOfBits(t: Tables, x: Byte, u: bv8)
    requires Valid(t) && u == x as bv8
    ensures G.LogOf(Bits(t), u) == t.log[x]
  {
    ByteRoundTrip(x);
  }

  /** `Mul` is `GaloisField.GfMul` on the byte view of the tables. */
  lemma MulMatches(t: Tables, x: Byte, y: Byte)
    requires Valid(t)
    ensures G.Valid(Bits(t)) && Mul(t, x, y) == G.GfMul(Bits(t), x as bv8, y as bv8) as int
  {
    ByteRoundTrip(x);
    ByteRoundTrip(y);
    MulOnBits(t, x, y, x as bv8, y as bv8);
  }

  lemma MulOnBits(t: Tables, x: Byte, y: Byte, u: bv8, v: bv8)
    requires Valid(t) && u as int == x && v as int == y
    ensures G.Valid(Bits(t)) && Mul(t, x, y) == G.GfMul(Bits(t), u, v) as int
  {
    ValidBits(t);
    if x != 0 && y != 0 {
      MulNonZeroOnBits(t, x, y, u, v);
    }
  }

  lemma MulNonZeroOnBits(t: Tables, x: Byte, y: Byte, u: bv8, v: bv8)
    requires Valid(t) && G.Valid(Bits(t)) && u as int == x && v as int == y && x != 0 && y != 0
    ensures Mul(t, x, y) == G.GfMul(Bits(t), u, v) as int
  {
    assert u != 0 && v != 0;
    assert G.LogOf(Bits(t), u) == t.log[x];
    assert G.LogOf(Bits(t), v) == t.log[y];
    BitsOfTables(t, (t.log[x] + t.log[y]) % 255);
  }

  lemma InverseCorrect(t: Tables, x: Byte)
    requires Valid(t) && x != 0
    ensures Mul(t, x, t.exp[255 - t.log[x]]) == 1
  {
    ValidBits(t);
    var u := x as bv8;
    ByteRoundTrip(x);
    LogOfBits(t, x, u);
    var e := 255 - t.log[x];
    G.InverseCorrect(Bits(t), u);
    MulMatches(t, x, t.exp[e]);
    BitsRoundTrip(Bits(t).exp[e]);
    BitsOfTables(t, e);
  }

  lemma DivideCorrect(t: Tables, x: Byte, y: Byte)
    requires Valid(t) && x != 0 && y != 0
    ensures Mul(t, t.exp[(t.log[x] + 255 - t.log[y]) % 255], y) == x
  {
    ValidBits(t);
    var u, v := x as bv8, y as bv8;
    ByteRoundTrip(x);
    ByteRoundTrip(y);
    LogOfBits(t, x, u);
    LogOfBits(t, y, v);
    var e := (t.log[x] + 255 - t.log[y]) % 255;
    G.DivideCorrect(Bits(t), u, v);
    MulMatches(t, t.exp[e], y);
    BitsRoundTrip(Bits(t).exp[e]);
    BitsOfTables(t, e);
  }

  // Addition

  lemma XorComm(a: Byte, b: Byte)
    ensures Xor(a, b) == Xor(b, a)
  {
  }

  lemma XorAssoc(a: Byte, b: Byte, c: Byte)
    ensures Xor(Xor(a, b), c) == Xor(a, Xor(b, c))
  {
    BitsRoundTrip((a as bv8) ^ (b as bv8));
    BitsRoundTrip((b as bv8) ^ (c as bv8));
  }

  lemma XorZero(a: Byte)
    ensures Xor(a, 0) == a && Xor(0, a) == a
  {
    ByteRoundTrip(a);
  }

  lemma XorSelf(a: Byte)
    ensures Xor(a, a) == 0
  {
  }

  lemma XorCancel(a: Byte, b: Byte)
    ensures Xor(Xor(a, b), b) == a
  {
    BitsRoundTrip((a as bv8) ^ (b as bv8));
    ByteRoundTrip(a);
  }

  lemma XorShuffle(a: Byte, b: Byte, c: Byte, d: Byte)
    ensures Xor(Xor(a, b), Xor(c, d)) == Xor(Xor(a, c), Xor(b, d))
  {
    BitsRoundTrip((a as bv8) ^ (b as bv8));
    BitsRoundTrip((c as bv8) ^ (d as bv8));
    BitsRoundTrip((a as bv8) ^ (c as bv8));
    BitsRoundTrip((b as bv8) ^ (d as bv8));
  }

  lemma XorOnBits(a: Byte, b: Byte)
    ensures Xor(a, b) as bv8 == (a as bv8) ^ (b as bv8)
  {
    BitsRoundTrip((a as bv8) ^ (b as bv8));
  }

  lemma XorOfBits(u: bv8, v: bv8)
    ensures Xor(u as int, v as int) == (u ^ v) as int
  {
    BitsRoundTrip(u);
    BitsRoundTrip(v);
    XorOfRepresentations(u as int, v as int, u, v);
  }

  lemma XorOfRepresentations(a: Byte, b: Byte, u: bv8, v: bv8)
    requires a as bv8 == u && b as bv8 == v
    ensures Xor(a, b) == (u ^ v) as int
  {
  }

  // Multiplication

  /** A product is zero exactly when a factor is. */
  lemma MulNonZero(t: Tables, a: Byte, b: Byte)
    requires Valid(t)
    ensures Mul(t, a, b) == 0 <==> a == 0 || b == 0
  {
    ValidBits(t);
    MulMatches(t, a, b);
    ByteRoundTrip(a);
    ByteRoundTrip(b);
  }

  lemma MulComm(t: Tables, a: Byte, b: Byte)
    requires Valid(t)
    ensures Mul(t, a, b) == Mul(t, b, a)
  {
  }

  lemma MulAssoc(t: Tables, a: Byte, b: Byte, c: Byte)
    requires Valid(t)
    ensures Mul(t, Mul(t, a, b), c) == Mul(t, a, Mul(t, b, c))
  {
    ValidBits(t);
    var x, y, z := a as bv8, b as bv8, c as bv8;
    var T := Bits(t);
    calc {
      Mul(t, Mul(t, a, b), c);
      { MulMatches(t, a, b); MulOfProduct(t, Mul(t, a, b), c, G.GfMul(T, x, y), z); }
      G.GfMul(T, G.GfMul(T, x, y), z) as int;
      { G.MulAssociative(T, x, y, z); }
      G.GfMul(T, x, G.GfMul(T, y, z)) as int;
      { MulMatches(t, b, c); MulComm(t, a, Mul(t, b, c));
        MulOfProduct(t, Mul(t, b, c), a, G.GfMul(T, y, z), x);
        G.MulCommutative(T, G.GfMul(T, y, z), x); }
      Mul(t, a, Mul(t, b, c));
    }
  }

  /** Multiplying a product, given through its byte form `u`. */
  lemma MulOfProduct(t: Tables, p: Byte, c: Byte, u: bv8, z: bv8)
    requires Valid(t) && p == u as int && z == c as bv8
    ensures G.Valid(Bits(t)) && Mul(t, p, c) == G.GfMul(Bits(t), u, z) as int
  {
    ValidBits(t);
    ByteRoundTrip(c);
    MulOnBits(t, p, c, u, z);
  }

  /** Multiplication distributes over addition. */
  lemma MulDist(t: Tables, a: Byte, b: Byte, c: Byte)
    requires Valid(t)
    ensures Mul(t, Xor(a, b), c) == Xor(Mul(t, a, c), Mul(t, b, c))
  {
    ValidBits(t);
    var x, y, z := a as bv8, b as bv8, c as bv8;
    var T := Bits(t);
    calc {
      Mul(t, Xor(a, b), c);
      { XorOfRepresentations(a, b, x, y); MulOfProduct(t, Xor(a, b), c, x ^ y, z); }
      G.GfMul(T, x ^ y, z) as int;
      { DistributesOnBits(T, x, y, z); }
      (G.GfMul(T, x, z) ^ G.GfMul(T, y, z)) as int;
      { XorOfBits(G.GfMul(T, x, z), G.GfMul(T, y, z)); MulMatches(t, a, c); MulMatches(t, b, c); }
      Xor(Mul(t, a, c), Mul(t, b, c));
    }
  }

  lemma DistributesOnBits(t: G.Tables, x: bv8, y: bv8, z: bv8)
    requires G.Valid(t)
    ensures G.GfMul(t, x ^ y, z) == G.GfMul(t, x, z) ^ G.GfMul(t, y, z)
  {
    G.MulDistributive(t, z, x, y);
    G.MulCommutative(t, z, x ^ y);
    G.MulCommutative(t, z, x);
    G.MulCommutative(t, z, y);
  }

  lemma MulOne(t: Tables, a: Byte)
    requires Valid(t)
    ensures Mul(t, 1, a) == a && Mul(t, a, 1) == a
  {
    if a != 0 {
      LogOfOne(t);
      ExpOfLog(t, a);
    }
  }

  lemma LogOfOne(t: Tables)
    requires Valid(t)
    ensures t.log[1] == 0
  {
    assert LogEntry(t, 1);
    assert G.AlphaPow(0) == 1;
    G.AlphaPowInjective(t.log[1], 0);
  }

  /** exp[log a] == a for a non-zero a. */
  lemma ExpOfLog(t: Tables, a: Byte)
    requires Valid(t) && a != 0
    ensures t.exp[t.log[a]] == a
  {
    assert LogEntry(t, a);
    assert ExpEntry(t, t.log[a]);
  }

  // Powers

  /** gf_pow on a non-negative exponent is repeated multiplication. */
  lemma PowNonNegative(t: Tables, x: Byte, n: nat)
    requires Valid(t)
    ensures Pow(t, x, n) == Success(Power(t, x, n))
  {
    ValidBits(t);
    var u := x as bv8;
    ByteRoundTrip(x);
    G.PowCorrect(Bits(t), u, n);
    PowerMatches(t, x, n);
    if n != 0 && x != 0 {
      LogOfBits(t, x, u);
      var i := G.TruncatedRem255(t.log[x] * n);
      BitsOfTables(t, i);
    }
  }

  lemma {:induction false} PowerMatches(t: Tables, x: Byte, n: nat)
    requires Valid(t)
    ensures G.Valid(Bits(t)) && Power(t, x, n) == G.Power(Bits(t), x as bv8, n) as int
  {
    ValidBits(t);
    if n > 0 {
      PowerMatches(t, x, n - 1);
      var T := Bits(t);
      MulOfProduct(t, Power(t, x, n - 1), x, G.Power(T, x as bv8, n - 1), x as bv8);
      G.MulCommutative(T, G.Power(T, x as bv8, n - 1), x as bv8);
    }
  }

  /** 2 is alpha^1, so its logarithm is 1. */
  lemma LogOfTwo(t: Tables)
    requires Valid(t)
    ensures t.log[2] == 1
  {
    assert LogEntry(t, 2);
    assert G.AlphaPow(1) == 2;
    G.AlphaPowInjective(t.log[2], 1);
  }

  /** `gf_pow(2, -l)` for l > 0: the index (log 2 * -l) % 255 is negative
      unless 255 divides l, so the lookup reads outside the table; when 255
      divides l it reads exp[0] == 1. */
  lemma NegativePowOfTwo(t: Tables, l: int)
    requires Valid(t) && l > 0
    ensures Pow(t, 2, -l).Success? <==> l % 255 == 0
    ensures Pow(t, 2, -l).Success? ==> Pow(t, 2, -l).value == 1
  {
    LogOfTwo(t);
    assert ExpEntry(t, 0);
    G.NegativeRemainder(l);
  }

  /** For i below 255, 2^i is the table entry exp[i]. */
  lemma AlphaIsExp(t: Tables, i: nat)
    requires Valid(t) && i < 255
    ensures Alpha(t, i) == t.exp[i]
  {
    LogOfTwo(t);
    assert ExpEntry(t, 0);
  }

  /** The powers of 2 are never zero. */
  lemma AlphaNonZero(t: Tables, i: nat)
    requires Valid(t)
    ensures Alpha(t, i) != 0
  {
    LogOfTwo(t);
    var k := G.TruncatedRem255(i);
    assert ExpEntry(t, k);
    G.TimesAlphaNonZero(1, k % 255);
  }
}
