/** Polynomials over GF(2^8) as the Reed–Solomon codec stores them: a
    sequence of coefficients, highest degree first. Each operation follows
    the loops of the source; `Value` (Horner's rule) and `Sum` (the sum of
    terms, `ValueIsSum`) give the polynomial's meaning, and the lemmas relate
    every operation to it. */
module Polynomial {
  import opened Field

  function Max(a: nat, b: nat): nat
  {
    if a < b then b else a
  }

  function Zeros(n: nat): (z: seq<Byte>)
    ensures |z| == n
    ensures forall i :: 0 <= i < n ==> z[i] == 0
  {
    seq(n, _ => 0)
  }

  /** Coefficient-wise sum of two polynomials of one length. */
  function XorVec(a: seq<Byte>, b: seq<Byte>): (r: seq<Byte>)
    requires |a| == |b|
    ensures |r| == |a|
    ensures forall i :: 0 <= i < |a| ==> r[i] == Xor(a[i], b[i])
  {
    seq(|a|, i requires 0 <= i < |a| => Xor(a[i], b[i]))
  }

  /** p(x) by Horner's rule: the coefficients taken from the highest degree. */
  function Value(t: Tables, p: seq<Byte>, x: Byte): Byte
    requires Valid(t)
  {
    if |p| == 0 then 0 else Xor(Mul(t, Value(t, p[..|p| - 1], x), x), p[|p| - 1])
  }

  /** p(x) as the sum of the terms p[k] * x^(|p| - 1 - k). */
  function Sum(t: Tables, p: seq<Byte>, x: Byte): Byte
    requires Valid(t)
  {
    if |p| == 0 then 0 else Xor(Mul(t, p[0], Power(t, x, |p| - 1)), Sum(t, p[1..], x))
  }

  // Field facts in the shapes the polynomial proofs use.

  lemma MulZero(t: Tables, a: Byte)
    requires Valid(t)
    ensures Mul(t, 0, a) == 0 && Mul(t, a, 0) == 0
  {
  }

  /** x^(m + n) == x^m * x^n */
  lemma {:induction false} PowerAdd(t: Tables, x: Byte, m: nat, n: nat)
    requires Valid(t)
    ensures Power(t, x, m + n) == Mul(t, Power(t, x, m), Power(t, x, n))
    decreases n
  {
    hide Mul;
    if n == 0 {
      assert Power(t, x, n) == 1;
      MulOne(t, Power(t, x, m));
    } else {
      var P := Power(t, x, m);
      calc {
        Power(t, x, m + n);
        { PowerStep(t, x, m + n); }
        Mul(t, Power(t, x, m + n - 1), x);
        { PowerAdd(t, x, m, n - 1); }
        Mul(t, Mul(t, P, Power(t, x, n - 1)), x);
        { MulAssoc(t, P, Power(t, x, n - 1), x); }
        Mul(t, P, Mul(t, Power(t, x, n - 1), x));
        { PowerStep(t, x, n); }
        Mul(t, P, Power(t, x, n));
      }
    }
  }

  lemma PowerStep(t: Tables, x: Byte, n: nat)
    requires Valid(t) && n > 0
    ensures Power(t, x, n) == Mul(t, Power(t, x, n - 1), x)
  {
  }

  /** (a * b) * c == (a * c) * b */
  lemma MulRotate(t: Tables, a: Byte, b: Byte, c: Byte)
    requires Valid(t)
    ensures Mul(t, Mul(t, a, b), c) == Mul(t, Mul(t, a, c), b)
  {
    MulAssoc(t, a, b, c);
    MulComm(t, b, c);
    MulAssoc(t, a, c, b);
  }

  // The algebra of `Value`.

  lemma {:induction false} ValueZeros(t: Tables, n: nat, x: Byte)
    requires Valid(t)
    ensures Value(t, Zeros(n), x) == 0
  {
    if n > 0 {
      assert Zeros(n)[..n - 1] == Zeros(n - 1);
      ValueZeros(t, n - 1, x);
      XorZero(0);
    }
  }

  lemma ValueSingle(t: Tables, c: Byte, x: Byte)
    requires Valid(t)
    ensures Value(t, [c], x) == c
  {
    assert [c][..0] == [];
    XorZero(c);
  }

  /** (a ++ b)(x) == a(x) * x^|b| + b(x) */
  lemma {:induction false} ValueAppend(t: Tables, a: seq<Byte>, b: seq<Byte>, x: Byte)
    requires Valid(t)
    ensures Value(t, a + b, x) == Xor(Mul(t, Value(t, a, x), Power(t, x, |b|)), Value(t, b, x))
    decreases |b|
  {
    if |b| == 0 {
      assert a + b == a;
      MulOne(t, Value(t, a, x));
      XorZero(Value(t, a, x));
    } else {
      var b' := b[..|b| - 1];
      assert (a + b)[..|a + b| - 1] == a + b';
      ValueAppend(t, a, b', x);
      var M := Mul(t, Value(t, a, x), Power(t, x, |b'|));
      var V := Value(t, b', x);
      MulDist(t, M, V, x);
      MulAssoc(t, Value(t, a, x), Power(t, x, |b'|), x);
      XorAssoc(Mul(t, M, x), Mul(t, V, x), b[|b| - 1]);
    }
  }

  lemma ValuePrependZeros(t: Tables, n: nat, b: seq<Byte>, x: Byte)
    requires Valid(t)
    ensures Value(t, Zeros(n) + b, x) == Value(t, b, x)
  {
    ValueAppend(t, Zeros(n), b, x);
    ValueZeros(t, n, x);
    XorZero(Value(t, b, x));
  }

  lemma ValueAppendZeros(t: Tables, a: seq<Byte>, n: nat, x: Byte)
    requires Valid(t)
    ensures Value(t, a + Zeros(n), x) == Mul(t, Value(t, a, x), Power(t, x, n))
  {
    ValueAppend(t, a, Zeros(n), x);
    ValueZeros(t, n, x);
    XorZero(Mul(t, Value(t, a, x), Power(t, x, n)));
  }

  /** The leading coefficient c of c ++ b contributes c * x^|b|. */
  lemma ValueCons(t: Tables, c: Byte, b: seq<Byte>, x: Byte)
    requires Valid(t)
    ensures Value(t, [c] + b, x) == Xor(Mul(t, c, Power(t, x, |b|)), Value(t, b, x))
  {
    ValueAppend(t, [c], b, x);
    ValueSingle(t, c, x);
  }

  lemma {:induction false} ValueXor(t: Tables, a: seq<Byte>, b: seq<Byte>, x: Byte)
    requires Valid(t) && |a| == |b|
    ensures Value(t, XorVec(a, b), x) == Xor(Value(t, a, x), Value(t, b, x))
    decreases |a|
  {
    if |a| > 0 {
      var n := |a| - 1;
      assert XorVec(a, b)[..n] == XorVec(a[..n], b[..n]);
      ValueXor(t, a[..n], b[..n], x);
      var A, B := Value(t, a[..n], x), Value(t, b[..n], x);
      MulDist(t, A, B, x);
      XorShuffle(Mul(t, A, x), Mul(t, B, x), a[n], b[n]);
    }
  }

  /** Horner's rule computes the sum of terms. */
  lemma {:induction false} ValueIsSum(t: Tables, p: seq<Byte>, x: Byte)
    requires Valid(t)
    ensures Value(t, p, x) == Sum(t, p, x)
    decreases |p|
  {
    if |p| > 0 {
      var n := |p| - 1;
      calc {
        Value(t, p, x);
        Xor(Mul(t, Value(t, p[..n], x), x), p[n]);
        { ValueIsSum(t, p[..n], x); }
        Xor(Mul(t, Sum(t, p[..n], x), x), p[n]);
        { SumSnoc(t, p[..n], p[n], x); }
        Sum(t, p[..n] + [p[n]], x);
        { assert p[..n] + [p[n]] == p; }
        Sum(t, p, x);
      }
    }
  }

  /** Appending a coefficient to the sum of terms is one Horner step. */
  lemma {:induction false} SumSnoc(t: Tables, a: seq<Byte>, c: Byte, x: Byte)
    requires Valid(t)
    ensures Sum(t, a + [c], x) == Xor(Mul(t, Sum(t, a, x), x), c)
    decreases |a|
  {
    if |a| == 0 {
      SumSnocEmpty(t, a, c, x);
    } else {
      SumSnoc(t, a[1..], c, x);
      SumSnocStep(t, a, c, x);
    }
  }

  lemma SumSnocEmpty(t: Tables, a: seq<Byte>, c: Byte, x: Byte)
    requires Valid(t) && |a| == 0
    ensures Sum(t, a + [c], x) == Xor(Mul(t, Sum(t, a, x), x), c)
  {
    calc {
      Sum(t, a + [c], x);
      { assert a + [c] == [c]; assert [c][1..] == []; }
      Xor(Mul(t, c, Power(t, x, 0)), Sum(t, [], x));
      { MulOne(t, c); }
      Xor(c, 0);
      { XorZero(c); MulZero(t, x); }
      Xor(Mul(t, 0, x), c);
    }
  }

  lemma SumUnfold(t: Tables, p: seq<Byte>, x: Byte)
    requires Valid(t) && |p| > 0
    ensures Sum(t, p, x) == Xor(Mul(t, p[0], Power(t, x, |p| - 1)), Sum(t, p[1..], x))
  {
  }

  lemma SumSnocStep(t: Tables, a: seq<Byte>, c: Byte, x: Byte)
    requires Valid(t) && |a| > 0
    ensures Sum(t, a[1..] + [c], x) == Xor(Mul(t, Sum(t, a[1..], x), x), c) ==>
      Sum(t, a + [c], x) == Xor(Mul(t, Sum(t, a, x), x), c)
  {
    hide Sum, Power;
    var a' := a[1..];
    if Sum(t, a' + [c], x) == Xor(Mul(t, Sum(t, a', x), x), c) {
      var H := Mul(t, a[0], Power(t, x, |a'|));
      var S := Sum(t, a', x);
      SnocTail(a, c);
      SumUnfold(t, a, x);
      SumUnfold(t, a + [c], x);
      calc {
        Sum(t, a + [c], x);
        Xor(Mul(t, a[0], Power(t, x, |a'| + 1)), Sum(t, a' + [c], x));
        Xor(Mul(t, a[0], Power(t, x, |a'| + 1)), Xor(Mul(t, S, x), c));
        { PowerStep(t, x, |a'| + 1); MulAssoc(t, a[0], Power(t, x, |a'|), x); }
        Xor(Mul(t, H, x), Xor(Mul(t, S, x), c));
        { XorAssoc(Mul(t, H, x), Mul(t, S, x), c); }
        Xor(Xor(Mul(t, H, x), Mul(t, S, x)), c);
        { MulDist(t, H, S, x); }
        Xor(Mul(t, Xor(H, S), x), c);
      }
    }
  }

  lemma SnocTail<T>(a: seq<T>, c: T)
    requires |a| > 0
    ensures (a + [c])[0] == a[0] && (a + [c])[1..] == a[1..] + [c]
  {
  }

  lemma HeadSplit<T>(a: seq<T>, i: nat)
    requires i < |a|
    ensures a[i..] == [a[i]] + a[i + 1..]
  {
  }

  // gf_poly_eval

  /** The loop of `gf_poly_eval` from index `i` on, with `y` the value so far. */
  function Horner(t: Tables, p: seq<Byte>, x: Byte, y: Byte, i: nat): Byte
    requires Valid(t) && 1 <= i <= |p|
    decreases |p| - i
  {
    if i == |p| then y else Horner(t, p, x, Xor(Mul(t, y, x), p[i]), i + 1)
  }

  /** `gf_poly_eval`: Horner's rule from the leading coefficient. The source
      reads p[0] first, so the polynomial must not be empty. The result is the
      sum of the terms p[k] * x^(|p| - 1 - k). */
  function PolyEval(t: Tables, p: seq<Byte>, x: Byte): (y: Byte)
    requires Valid(t) && |p| > 0
    ensures y == Value(t, p, x)
    ensures y == Sum(t, p, x)
  {
    assert p[..1] == [p[0]];
    ValueSingle(t, p[0], x);
    HornerComputesValue(t, p, x, p[0], 1);
    ValueIsSum(t, p, x);
    Horner(t, p, x, p[0], 1)
  }

  lemma {:induction false} HornerComputesValue(t: Tables, p: seq<Byte>, x: Byte, y: Byte, i: nat)
    requires Valid(t) && 1 <= i <= |p| && y == Value(t, p[..i], x)
    ensures Horner(t, p, x, y, i) == Value(t, p, x)
    decreases |p| - i
  {
    if i == |p| {
      assert p[..i] == p;
    } else {
      var y' := Xor(Mul(t, y, x), p[i]);
      assert p[..i + 1][..i] == p[..i];
      assert y' == Value(t, p[..i + 1], x);
      HornerComputesValue(t, p, x, y', i + 1);
    }
  }

  // gf_poly_add

  /** `gf_poly_add`: both operands aligned at their lowest-degree end in a
      vector of the longer length; the shorter one is padded with zeros on
      the high side. */
  function PolyAdd(p: seq<Byte>, q: seq<Byte>): (r: seq<Byte>)
    ensures |r| == Max(|p|, |q|)
    ensures |p| == |q| ==> r == XorVec(p, q)
  {
    var n := Max(|p|, |q|);
    XorVec(Zeros(n - |p|) + p, Zeros(n - |q|) + q)
  }

  lemma PolyAddLonger(p: seq<Byte>, q: seq<Byte>)
    requires |q| <= |p|
    ensures PolyAdd(p, q) == XorVec(p, Zeros(|p| - |q|) + q)
  {
    assert Zeros(0) + p == p;
  }

  /** The sum of two polynomials evaluates to the sum of their values. */
  lemma ValueAdd(t: Tables, p: seq<Byte>, q: seq<Byte>, x: Byte)
    requires Valid(t)
    ensures Value(t, PolyAdd(p, q), x) == Xor(Value(t, p, x), Value(t, q, x))
  {
    hide Xor;
    var n := Max(|p|, |q|);
    ValuePadded(t, n - |p|, p, n - |q|, q, x);
  }

  lemma ValuePadded(t: Tables, m: nat, p: seq<Byte>, k: nat, q: seq<Byte>, x: Byte)
    requires Valid(t) && m + |p| == k + |q|
    ensures Value(t, XorVec(Zeros(m) + p, Zeros(k) + q), x) == Xor(Value(t, p, x), Value(t, q, x))
  {
    ValueXor(t, Zeros(m) + p, Zeros(k) + q, x);
    ValuePrependZeros(t, m, p, x);
    ValuePrependZeros(t, k, q, x);
  }

  // gf_poly_scale

  /** `gf_poly_scale`: every coefficient multiplied by `c`. */
  function PolyScale(t: Tables, p: seq<Byte>, c: Byte): (r: seq<Byte>)
    requires Valid(t)
    ensures |r| == |p|
  {
    seq(|p|, i requires 0 <= i < |p| => Mul(t, p[i], c))
  }

  /** Scaling a polynomial scales its value. */
  lemma {:induction false} ValueScale(t: Tables, p: seq<Byte>, c: Byte, x: Byte)
    requires Valid(t)
    ensures Value(t, PolyScale(t, p, c), x) == Mul(t, Value(t, p, x), c)
    decreases |p|
  {
    if |p| == 0 {
      MulZero(t, c);
    } else {
      var n := |p| - 1;
      assert PolyScale(t, p, c)[..n] == PolyScale(t, p[..n], c);
      ValueScale(t, p[..n], c, x);
      ValueScaleStep(t, Value(t, p[..n], x), p[n], c, x);
    }
  }

  /** (v * c) * x + p * c == (v * x + p) * c */
  lemma ValueScaleStep(t: Tables, v: Byte, p: Byte, c: Byte, x: Byte)
    requires Valid(t)
    ensures Xor(Mul(t, Mul(t, v, c), x), Mul(t, p, c)) == Mul(t, Xor(Mul(t, v, x), p), c)
  {
    MulRotate(t, v, c, x);
    MulDist(t, Mul(t, v, x), p, c);
  }

  // gf_poly_mul

  /** The shifted copy of `p * c` that one pass of the outer loop of
      `gf_poly_mul` adds: `p[i] * c` lands at index `i + j` of a vector of
      length `n`. */
  function Row(t: Tables, p: seq<Byte>, c: Byte, j: nat, n: nat): (row: seq<Byte>)
    requires Valid(t) && j + |p| <= n
    ensures |row| == n
  {
    Zeros(j) + PolyScale(t, p, c) + Zeros(n - j - |p|)
  }

  /** The outer loop of `gf_poly_mul` from column `j` of `q` on, starting from `r`. */
  function MulRows(t: Tables, p: seq<Byte>, q: seq<Byte>, j: nat, r: seq<Byte>): (r': seq<Byte>)
    requires Valid(t) && j <= |q| && |r| == |p| + |q| - 1
    ensures |r'| == |r|
    decreases |q| - j
  {
    if j == |q| then r
    else MulRows(t, p, q, j + 1, XorVec(r, Row(t, p, q[j], j, |r|)))
  }

  /** `gf_poly_mul`: r[i + j] ^= p[i] * q[j] over all pairs. With both
      operands empty the source sizes its result as 0 - 1 in `size_t`,
      which fails to allocate; the model does not take that input. */
  function PolyMul(t: Tables, p: seq<Byte>, q: seq<Byte>): (r: seq<Byte>)
    requires Valid(t) && |p| + |q| > 0
    ensures |r| == |p| + |q| - 1
  {
    MulRows(t, p, q, 0, Zeros(|p| + |q| - 1))
  }

  /** The product of two polynomials evaluates to the product of their values. */
  lemma ValueMul(t: Tables, p: seq<Byte>, q: seq<Byte>, x: Byte)
    requires Valid(t) && |p| + |q| > 0
    ensures Value(t, PolyMul(t, p, q), x) == Mul(t, Value(t, p, x), Value(t, q, x))
  {
    var n := |p| + |q| - 1;
    var P := Value(t, p, x);
    ValueZeros(t, n, x);
    MulZero(t, P);
    MulZero(t, Power(t, x, |q|));
    assert q[..0] == [];
    MulRowsValue(t, p, q, 0, Zeros(n), x);
  }

  /** What the outer loop of `gf_poly_mul` keeps: after the columns of q
      below j, r evaluates to p(x) * (q[..j])(x) * x^(|q| - j). */
  lemma {:induction false} MulRowsValue(t: Tables, p: seq<Byte>, q: seq<Byte>, j: nat, r: seq<Byte>, x: Byte)
    requires Valid(t) && j <= |q| && |r| == |p| + |q| - 1
    requires Value(t, r, x) == Mul(t, Mul(t, Value(t, p, x), Value(t, q[..j], x)), Power(t, x, |q| - j))
    ensures Value(t, MulRows(t, p, q, j, r), x) == Mul(t, Value(t, p, x), Value(t, q, x))
    decreases |q| - j
  {
    hide Value, Mul, Xor, Row, XorVec;
    if j == |q| {
      assert q[..j] == q;
      MulOne(t, Mul(t, Value(t, p, x), Value(t, q, x)));
    } else {
      MulRowStep(t, p, q, j, r, x);
      MulRowsValue(t, p, q, j + 1, XorVec(r, Row(t, p, q[j], j, |r|)), x);
    }
  }

  /** One pass of the outer loop of `gf_poly_mul` re-establishes the invariant for j + 1. */
  lemma MulRowStep(t: Tables, p: seq<Byte>, q: seq<Byte>, j: nat, r: seq<Byte>, x: Byte)
    requires Valid(t) && j < |q| && |r| == |p| + |q| - 1
    ensures Value(t, r, x) == Mul(t, Mul(t, Value(t, p, x), Value(t, q[..j], x)), Power(t, x, |q| - j)) ==>
      Value(t, XorVec(r, Row(t, p, q[j], j, |r|)), x)
        == Mul(t, Mul(t, Value(t, p, x), Value(t, q[..j + 1], x)), Power(t, x, |q| - (j + 1)))
  {
    hide Value, Mul, Xor, Row, XorVec;
    var row := Row(t, p, q[j], j, |r|);
    ValueXor(t, r, row, x);
    ValueRow(t, p, q[j], j, |r|, x);
    ValuePrefix(t, q, j, x);
    RowStep(t, Value(t, p, x), Value(t, q[..j], x), q[j], x, |q| - 1 - j);
  }

  /** Horner's step on a prefix: q[..j + 1] is q[..j] shifted by one place plus q[j]. */
  lemma ValuePrefix(t: Tables, q: seq<Byte>, j: nat, x: Byte)
    requires Valid(t) && j < |q|
    ensures Value(t, q[..j + 1], x) == Xor(Mul(t, Value(t, q[..j], x), x), q[j])
  {
    assert q[..j + 1][..j] == q[..j];
  }

  /** The shifted row evaluates to p(x) * c * x^(n - j - |p|). */
  lemma ValueRow(t: Tables, p: seq<Byte>, c: Byte, j: nat, n: nat, x: Byte)
    requires Valid(t) && j + |p| <= n
    ensures Value(t, Row(t, p, c, j, n), x) == Mul(t, Mul(t, Value(t, p, x), c), Power(t, x, n - j - |p|))
  {
    var s := PolyScale(t, p, c);
    RowSplit(t, p, c, j, n);
    hide Value, Mul, Xor, PolyScale, Zeros, Row;
    ValuePrependZeros(t, j, s + Zeros(n - j - |p|), x);
    ValueAppendZeros(t, s, n - j - |p|, x);
    ValueScale(t, p, c, x);
  }

  lemma RowSplit(t: Tables, p: seq<Byte>, c: Byte, j: nat, n: nat)
    requires Valid(t) && j + |p| <= n
    ensures Row(t, p, c, j, n) == Zeros(j) + (PolyScale(t, p, c) + Zeros(n - j - |p|))
  {
    SeqAppendAssoc(Zeros(j), PolyScale(t, p, c), Zeros(n - j - |p|));
  }

  lemma SeqAppendAssoc<T>(a: seq<T>, b: seq<T>, c: seq<T>)
    ensures a + b + c == a + (b + c)
  {
  }

  /** P * V * x^(m+1) + P * c * x^m == P * (V * x + c) * x^m */
  lemma RowStep(t: Tables, P: Byte, V: Byte, c: Byte, x: Byte, m: nat)
    requires Valid(t)
    ensures Xor(Mul(t, Mul(t, P, V), Power(t, x, m + 1)), Mul(t, Mul(t, P, c), Power(t, x, m)))
         == Mul(t, Mul(t, P, Xor(Mul(t, V, x), c)), Power(t, x, m))
  {
    hide Mul, Xor;
    var X := Power(t, x, m);
    calc {
      Mul(t, Mul(t, P, Xor(Mul(t, V, x), c)), X);
      { MulComm(t, P, Xor(Mul(t, V, x), c)); MulDist(t, Mul(t, V, x), c, P); }
      Mul(t, Xor(Mul(t, Mul(t, V, x), P), Mul(t, c, P)), X);
      { MulDist(t, Mul(t, Mul(t, V, x), P), Mul(t, c, P), X); }
      Xor(Mul(t, Mul(t, Mul(t, V, x), P), X), Mul(t, Mul(t, c, P), X));
      { MulComm(t, c, P); MulRotate(t, V, x, P); MulComm(t, V, P); }
      Xor(Mul(t, Mul(t, Mul(t, P, V), x), X), Mul(t, Mul(t, P, c), X));
      { MulAssoc(t, Mul(t, P, V), x, X); MulComm(t, x, X); PowerStep(t, x, m + 1); }
      Xor(Mul(t, Mul(t, P, V), Power(t, x, m + 1)), Mul(t, Mul(t, P, c), X));
    }
  }

  /** Multiplying by the constant polynomial [1] leaves a polynomial unchanged. */
  lemma PolyMulOne(t: Tables, p: seq<Byte>)
    requires Valid(t)
    ensures PolyMul(t, p, [1]) == p
  {
    var r := XorVec(Zeros(|p|), Row(t, p, 1, 0, |p|));
    assert Row(t, p, 1, 0, |p|) == PolyScale(t, p, 1);
    forall k | 0 <= k < |p|
      ensures r[k] == p[k]
    {
      MulOne(t, p[k]);
      XorZero(p[k]);
    }
  }

  // Coefficient vectors under XOR

  lemma XorVecComm(a: seq<Byte>, b: seq<Byte>)
    requires |a| == |b|
    ensures XorVec(a, b) == XorVec(b, a)
  {
    forall k | 0 <= k < |a|
      ensures XorVec(a, b)[k] == XorVec(b, a)[k]
    {
      XorComm(a[k], b[k]);
    }
  }

  lemma XorVecAssoc(a: seq<Byte>, b: seq<Byte>, c: seq<Byte>)
    requires |a| == |b| == |c|
    ensures XorVec(XorVec(a, b), c) == XorVec(a, XorVec(b, c))
  {
    forall k | 0 <= k < |a|
      ensures XorVec(XorVec(a, b), c)[k] == XorVec(a, XorVec(b, c))[k]
    {
      XorAssoc(a[k], b[k], c[k]);
    }
  }

  lemma XorVecCancel(a: seq<Byte>, b: seq<Byte>)
    requires |a| == |b|
    ensures XorVec(XorVec(a, b), b) == a
  {
    forall k | 0 <= k < |a|
      ensures XorVec(XorVec(a, b), b)[k] == a[k]
    {
      XorCancel(a[k], b[k]);
    }
  }

  lemma XorVecZeros(a: seq<Byte>)
    ensures XorVec(a, Zeros(|a|)) == a
  {
    forall k | 0 <= k < |a|
      ensures XorVec(a, Zeros(|a|))[k] == a[k]
    {
      XorZero(a[k]);
    }
  }

  /** The product as a left fold: the rows for q[0], ..., q[|q| - 1] added to
      a zero vector of length n. A reference definition of `PolyMul`'s
      coefficients that does not depend on the order of the loop. */
  function Product(t: Tables, p: seq<Byte>, q: seq<Byte>, n: nat): (r: seq<Byte>)
    requires Valid(t) && |p| + |q| <= n + 1
    ensures |r| == n
  {
    if |q| == 0 then Zeros(n)
    else XorVec(Product(t, p, q[..|q| - 1], n), Row(t, p, q[|q| - 1], |q| - 1, n))
  }

  lemma {:induction false} MulRowsIsProduct(t: Tables, p: seq<Byte>, q: seq<Byte>, j: nat)
    requires Valid(t) && j <= |q| && |p| + |q| > 0
    ensures MulRows(t, p, q, j, Product(t, p, q[..j], |p| + |q| - 1)) == Product(t, p, q, |p| + |q| - 1)
    decreases |q| - j
  {
    var n := |p| + |q| - 1;
    if j == |q| {
      assert q[..j] == q;
    } else {
      assert q[..j + 1][..j] == q[..j];
      MulRowsIsProduct(t, p, q, j + 1);
    }
  }

  /** `gf_poly_mul` computes the product's coefficients. */
  lemma PolyMulIsProduct(t: Tables, p: seq<Byte>, q: seq<Byte>)
    requires Valid(t) && |p| + |q| > 0
    ensures PolyMul(t, p, q) == Product(t, p, q, |p| + |q| - 1)
  {
    assert q[..0] == [];
    MulRowsIsProduct(t, p, q, 0);
  }

  /** The leading coefficient of a product is the product of the leading coefficients. */
  lemma {:induction false} ProductHead(t: Tables, p: seq<Byte>, q: seq<Byte>, n: nat)
    requires Valid(t) && |p| >= 1 && |q| >= 1 && |p| + |q| <= n + 1
    ensures Product(t, p, q, n)[0] == Mul(t, p[0], q[0])
  {
    var k := |q| - 1;
    RowAt(t, p, q[k], k, n, 0);
    if k == 0 {
      XorZero(Mul(t, p[0], q[0]));
    } else {
      ProductHead(t, p, q[..k], n);
      XorZero(Mul(t, p[0], q[0]));
    }
  }

  lemma PolyMulHead(t: Tables, p: seq<Byte>, q: seq<Byte>)
    requires Valid(t) && |p| >= 1 && |q| >= 1
    ensures PolyMul(t, p, q)[0] == Mul(t, p[0], q[0])
  {
    PolyMulIsProduct(t, p, q);
    ProductHead(t, p, q, |p| + |q| - 1);
  }

  /** The coefficients of a row: p[k - j] * c inside the window, zero elsewhere. */
  lemma RowAt(t: Tables, p: seq<Byte>, c: Byte, j: nat, n: nat, k: nat)
    requires Valid(t) && j + |p| <= n && k < n
    ensures Row(t, p, c, j, n)[k] == if j <= k < j + |p| then Mul(t, p[k - j], c) else 0
  {
  }

  // gf_poly_div

  /** Quotient and remainder, as `gf_poly_div` returns them. */
  datatype Division = Division(quotient: seq<Byte>, remainder: seq<Byte>)

  /** The divisor `gf_poly_div` actually divides by: its loop never reads
      `divisor[0]`, so it divides by the monic polynomial with the same
      lower coefficients. For a monic divisor this is the divisor itself. */
  function Monic(ds: seq<Byte>): (d: seq<Byte>)
    requires |ds| >= 1
    ensures |d| == |ds| && d[0] == 1 && d[1..] == ds[1..]
    ensures ds[0] == 1 ==> d == ds
  {
    [1] + ds[1..]
  }

  /** One pass of the outer loop of `gf_poly_div` at position i: when the
      leading coefficient c = m[i] is non-zero, c * divisor[j] is added at
      i + j for every j >= 1 (a zero divisor[j] is skipped in the source,
      which adds c * 0 = 0 here). */
  function Eliminate(t: Tables, ds: seq<Byte>, m: seq<Byte>, i: nat): (m': seq<Byte>)
    requires Valid(t) && |ds| >= 1 && i + |ds| <= |m|
    ensures |m'| == |m|
  {
    var c := m[i];
    if c == 0 then m
    else XorVec(m, Zeros(i + 1) + PolyScale(t, ds[1..], c) + Zeros(|m| - i - |ds|))
  }

  /** The outer loop of `gf_poly_div` from position i on; `coeffs` holds the
      leading coefficients seen so far. */
  function DivLoop(t: Tables, ds: seq<Byte>, m: seq<Byte>, i: nat, coeffs: seq<Byte>): (d: Division)
    requires Valid(t) && |ds| >= 1 && i <= |m| + 1 - |ds|
    ensures |d.remainder| == |ds| - 1
    ensures |d.quotient| == |coeffs| + (|m| + 1 - |ds| - i)
    decreases |m| + 1 - |ds| - i
  {
    if i == |m| + 1 - |ds| then Division(coeffs, m[i..])
    else DivLoop(t, ds, Eliminate(t, ds, m, i), i + 1, coeffs + [m[i]])
  }

  /** `gf_poly_div` (synthetic division). The source needs a non-empty
      divisor (otherwise the loop reads past the dividend) at most one
      longer than the dividend (otherwise the quotient's size is negative);
      with a divisor exactly one longer, the quotient is empty and the
      remainder is the dividend. */
  function PolyDiv(t: Tables, dd: seq<Byte>, ds: seq<Byte>): (d: Division)
    requires Valid(t) && 1 <= |ds| <= |dd| + 1
    ensures |d.quotient| == |dd| - |ds| + 1
    ensures |d.remainder| == |ds| - 1
  {
    DivLoop(t, ds, dd, 0, [])
  }

  /** m with its first i coefficients cleared: what the loop has not yet
      accounted for. */
  function Cleared(m: seq<Byte>, i: nat): (r: seq<Byte>)
    ensures |r| == |m|
  {
    seq(|m|, k requires 0 <= k < |m| => if k < i then 0 else m[k])
  }

  lemma ClearedPrefix(m: seq<Byte>, i: nat)
    requires i <= |m|
    ensures Cleared(m, i) == Zeros(i) + m[i..]
  {
  }

  /** Clearing position i and eliminating with c = m[i] together add exactly
      the row c * Monic(ds) shifted to i. */
  lemma EliminateRow(t: Tables, ds: seq<Byte>, m: seq<Byte>, i: nat)
    requires Valid(t) && |ds| >= 1 && i + |ds| <= |m|
    ensures XorVec(Cleared(Eliminate(t, ds, m, i), i + 1), Row(t, Monic(ds), m[i], i, |m|)) == Cleared(m, i)
  {
    var c := m[i];
    var m' := Eliminate(t, ds, m, i);
    var row := Row(t, Monic(ds), c, i, |m|);
    forall k | 0 <= k < |m|
      ensures XorVec(Cleared(m', i + 1), row)[k] == Cleared(m, i)[k]
    {
      RowAt(t, Monic(ds), c, i, |m|, k);
      EliminateAt(t, ds, m, i, k);
      if k < i {
        XorZero(0);
      } else if k == i {
        MulOne(t, c);
        XorZero(c);
      } else if k < i + |ds| {
        MulZero(t, ds[k - i]);
        XorZero(m[k]);
        XorCancel(m[k], Mul(t, ds[k - i], c));
      } else {
        XorZero(m[k]);
      }
    }
  }

  lemma EliminateAt(t: Tables, ds: seq<Byte>, m: seq<Byte>, i: nat, k: nat)
    requires Valid(t) && |ds| >= 1 && i + |ds| <= |m| && k < |m|
    ensures Eliminate(t, ds, m, i)[k]
         == if i < k < i + |ds| && m[i] != 0 then Xor(m[k], Mul(t, ds[k - i], m[i])) else m[k]
  {
    if m[i] != 0 && !(i < k < i + |ds|) {
      XorZero(m[k]);
    }
  }

  /** One pass of the outer loop keeps `dd == Cleared(m, i) + coeffs * Monic(ds)`. */
  lemma DivStep(t: Tables, dd: seq<Byte>, ds: seq<Byte>, m: seq<Byte>, i: nat, coeffs: seq<Byte>)
    requires Valid(t) && |ds| >= 1 && i + |ds| <= |m| && |coeffs| == i && |dd| == |m|
    requires dd == XorVec(Cleared(m, i), Product(t, Monic(ds), coeffs, |m|))
    ensures dd == XorVec(Cleared(Eliminate(t, ds, m, i), i + 1), Product(t, Monic(ds), coeffs + [m[i]], |m|))
  {
    var e := Cleared(Eliminate(t, ds, m, i), i + 1);
    var row := Row(t, Monic(ds), m[i], i, |m|);
    var a := Product(t, Monic(ds), coeffs, |m|);
    assert (coeffs + [m[i]])[..i] == coeffs;
    assert Product(t, Monic(ds), coeffs + [m[i]], |m|) == XorVec(a, row);
    EliminateRow(t, ds, m, i);
    hide Product, Row, Cleared, Eliminate;
    XorVecAssoc(e, row, a);
    XorVecComm(row, a);
  }

  lemma {:induction false} DivLoopIdentity(t: Tables, dd: seq<Byte>, ds: seq<Byte>, m: seq<Byte>, i: nat, coeffs: seq<Byte>)
    requires Valid(t) && |ds| >= 1 && i <= |m| + 1 - |ds| && |coeffs| == i && |dd| == |m|
    requires dd == XorVec(Cleared(m, i), Product(t, Monic(ds), coeffs, |m|))
    ensures var d := DivLoop(t, ds, m, i, coeffs);
      dd == XorVec(Zeros(|m| - |d.remainder|) + d.remainder, Product(t, Monic(ds), d.quotient, |m|))
    decreases |m| + 1 - |ds| - i
  {
    hide Product, XorVec, Eliminate, DivLoop;
    DivLoopUnfold(t, ds, m, i, coeffs);
    if i == |m| + 1 - |ds| {
      ClearedPrefix(m, i);
    } else {
      DivStep(t, dd, ds, m, i, coeffs);
      DivLoopIdentity(t, dd, ds, Eliminate(t, ds, m, i), i + 1, coeffs + [m[i]]);
    }
  }

  lemma DivLoopUnfold(t: Tables, ds: seq<Byte>, m: seq<Byte>, i: nat, coeffs: seq<Byte>)
    requires Valid(t) && |ds| >= 1 && i <= |m| + 1 - |ds|
    ensures DivLoop(t, ds, m, i, coeffs)
      == if i == |m| + 1 - |ds| then Division(coeffs, m[i..])
         else DivLoop(t, ds, Eliminate(t, ds, m, i), i + 1, coeffs + [m[i]])
  {
  }

  /** Division identity: the dividend is the divisor times the quotient
      plus the remainder, with the divisor's leading coefficient read as 1. */
  lemma DivisionIdentity(t: Tables, dd: seq<Byte>, ds: seq<Byte>)
    requires Valid(t) && 1 <= |ds| <= |dd| + 1
    ensures var d := PolyDiv(t, dd, ds);
      PolyAdd(PolyMul(t, Monic(ds), d.quotient), d.remainder) == dd
  {
    hide Product, PolyMul, DivLoop, Cleared, PolyAdd, PolyDiv, XorVec, Monic;
    var n := |dd|;
    var d := PolyDiv(t, dd, ds);
    var prod := PolyMul(t, Monic(ds), d.quotient);
    PolyMulIsProduct(t, Monic(ds), d.quotient);
    PolyAddLonger(prod, d.remainder);
    DivStart(t, dd, ds);
    DivLoopIdentity(t, dd, ds, dd, 0, []);
    XorVecComm(prod, Zeros(n - |d.remainder|) + d.remainder);
  }

  /** Before the loop: nothing is cleared and the product of the empty quotient is zero. */
  lemma DivStart(t: Tables, dd: seq<Byte>, ds: seq<Byte>)
    requires Valid(t) && 1 <= |ds| <= |dd| + 1
    ensures dd == XorVec(Cleared(dd, 0), Product(t, Monic(ds), [], |dd|))
    ensures PolyDiv(t, dd, ds) == DivLoop(t, ds, dd, 0, [])
  {
    assert Cleared(dd, 0) == dd;
    XorVecZeros(dd);
  }

  /** For a monic divisor, `gf_poly_div` is exact polynomial division. */
  lemma MonicDivision(t: Tables, dd: seq<Byte>, ds: seq<Byte>)
    requires Valid(t) && 1 <= |ds| <= |dd| + 1 && ds[0] == 1
    ensures var d := PolyDiv(t, dd, ds);
      PolyAdd(PolyMul(t, ds, d.quotient), d.remainder) == dd
  {
    DivisionIdentity(t, dd, ds);
  }

  /** The division identity at every point x. */
  lemma ValueDivision(t: Tables, dd: seq<Byte>, ds: seq<Byte>, x: Byte)
    requires Valid(t) && 1 <= |ds| <= |dd| + 1
    ensures var d := PolyDiv(t, dd, ds);
      Value(t, dd, x) == Xor(Mul(t, Value(t, Monic(ds), x), Value(t, d.quotient, x)), Value(t, d.remainder, x))
  {
    var d := PolyDiv(t, dd, ds);
    DivisionIdentity(t, dd, ds);
    ValueAdd(t, PolyMul(t, Monic(ds), d.quotient), d.remainder, x);
    ValueMul(t, Monic(ds), d.quotient, x);
  }
}
