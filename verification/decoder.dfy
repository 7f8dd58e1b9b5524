/** The decoding half of the Reed–Solomon codec, step by step as
    `decode_message` runs it: syndromes, Forney syndromes, the
    Berlekamp–Massey error locator, the search for its roots, and the
    Forney-style correction of the erased positions. Every step follows the
    code as written, including the places where it leaves the happy path:
    those are failures here, and the lemmas at the end of the module state
    what decoding can and cannot do as a result. */
module Decoder {
  import opened Outcomes
  import opened Field
  import opened Polynomial
  import opened Codec

  /** A vector read back to front (`rbegin`/`rend`, `std::reverse`). */
  function Reverse(s: seq<Byte>): (r: seq<Byte>)
    ensures |r| == |s|
    ensures forall i :: 0 <= i < |s| ==> r[i] == s[|s| - 1 - i]
  {
    seq(|s|, i requires 0 <= i < |s| => s[|s| - 1 - i])
  }

  function Last(s: seq<Byte>): Byte
    requires |s| > 0
  {
    s[|s| - 1]
  }

  /** All syndromes vanish. Syndromes are never negative, so this is what the
      source's test `*max_element(...) == 0` decides. */
  predicate AllZero(s: seq<Byte>)
  {
    forall i :: 0 <= i < |s| ==> s[i] == 0
  }

  // calc_syndromes

  /** `calc_syndromes`: the message evaluated at 2^0, ..., 2^6, behind one
      leading zero. Evaluating an empty message reads past its end. */
  function CalcSyndromes(t: Tables, msg: seq<Byte>): (r: Result<seq<Byte>>)
    requires Valid(t)
    ensures r.Success? <==> |msg| > 0
    ensures r.Failure? ==> r.error == OutOfBounds
    ensures r.Success? ==> |r.value| == Nsym + 1 && r.value[0] == 0
    ensures r.Success? ==> forall i :: 0 <= i < Nsym ==> r.value[i + 1] == Value(t, msg, Alpha(t, i))
  {
    if |msg| == 0 then Failure(OutOfBounds)
    else Success([0] + seq(Nsym, i requires 0 <= i < Nsym => PolyEval(t, msg, Alpha(t, i))))
  }

  /** The syndromes vanish exactly when 2^0, ..., 2^6 are roots of the message. */
  lemma SyndromesZero(t: Tables, msg: seq<Byte>)
    requires Valid(t) && |msg| > 0
    ensures AllZero(CalcSyndromes(t, msg).value) <==> forall i :: 0 <= i < Nsym ==> Value(t, msg, Alpha(t, i)) == 0
  {
    var s := CalcSyndromes(t, msg).value;
    if forall i :: 0 <= i < Nsym ==> Value(t, msg, Alpha(t, i)) == 0 {
      forall k | 0 <= k < |s|
        ensures s[k] == 0
      {
        if k > 0 {
          assert s[k] == Value(t, msg, Alpha(t, k - 1));
        }
      }
    }
  }

  /** Every encoded message has zero syndromes. */
  lemma EncodedSyndromes(t: Tables, m: seq<Byte>)
    requires Valid(t)
    ensures CalcSyndromes(t, EncodeMessage(t, m)).Success?
    ensures AllZero(CalcSyndromes(t, EncodeMessage(t, m)).value)
  {
    var code := EncodeMessage(t, m);
    forall i | 0 <= i < Nsym
      ensures Value(t, code, Alpha(t, i)) == 0
    {
      EncodedRoots(t, m, i);
    }
    SyndromesZero(t, code);
  }

  // forney_syndromes

  /** The inner loop of `forney_syndromes` for one erasure with locator
      value x: f[j] * x + f[j + 1], each f[j + 1] read before it is
      overwritten. */
  function ForneyStep(t: Tables, f: seq<Byte>, x: Byte): (r: seq<Byte>)
    requires Valid(t)
    ensures |r| == |f|
  {
    seq(|f|, j requires 0 <= j < |f| => Xor(Mul(t, f[j], x), if j + 1 < |f| then f[j + 1] else 0))
  }

  /** One Forney step multiplies the syndrome polynomial by the factor
      (z + x) and drops the leading coefficient of the product. */
  lemma ForneyStepIsProduct(t: Tables, f: seq<Byte>, x: Byte)
    requires Valid(t) && |f| > 0
    ensures ForneyStep(t, f, x) == PolyMul(t, f, [1, x])[1..]
  {
    hide ForneyStep, PolyMul, Row, XorVec, Zeros;
    var n := |f|;
    var r2 := XorVec(XorVec(Zeros(n + 1), Row(t, f, 1, 0, n + 1)), Row(t, f, x, 1, n + 1));
    MulByLinear(t, f, x);
    forall j | 0 <= j < n
      ensures ForneyStep(t, f, x)[j] == r2[j + 1]
    {
      ForneyCoefficient(t, f, x, j);
    }
  }

  /** gf_poly_mul by a two-term polynomial: two rows added to zeros. */
  lemma MulByLinear(t: Tables, f: seq<Byte>, x: Byte)
    requires Valid(t) && |f| > 0
    ensures var n := |f|;
      PolyMul(t, f, [1, x])
      == XorVec(XorVec(Zeros(n + 1), Row(t, f, 1, 0, n + 1)), Row(t, f, x, 1, n + 1))
  {
    hide Row, XorVec, Zeros;
    var n := |f|;
    var q := [1, x];
    var r0 := Zeros(n + 1);
    var r1 := XorVec(r0, Row(t, f, 1, 0, n + 1));
    var r2 := XorVec(r1, Row(t, f, x, 1, n + 1));
    assert MulRows(t, f, q, 2, r2) == r2;
    assert MulRows(t, f, q, 1, r1) == MulRows(t, f, q, 2, r2);
    assert MulRows(t, f, q, 0, r0) == MulRows(t, f, q, 1, r1);
  }

  lemma ForneyCoefficient(t: Tables, f: seq<Byte>, x: Byte, j: nat)
    requires Valid(t) && j < |f|
    ensures var n := |f|;
      ForneyStep(t, f, x)[j]
      == XorVec(XorVec(Zeros(n + 1), Row(t, f, 1, 0, n + 1)), Row(t, f, x, 1, n + 1))[j + 1]
  {
    var n := |f|;
    var a := Row(t, f, 1, 0, n + 1)[j + 1];
    var b := Row(t, f, x, 1, n + 1)[j + 1];
    RowAt(t, f, 1, 0, n + 1, j + 1);
    RowAt(t, f, x, 1, n + 1, j + 1);
    var next := if j + 1 < n then f[j + 1] else 0;
    if j + 1 < n {
      MulOne(t, f[j + 1]);
    }
    assert a == next;
    assert b == Mul(t, f[j], x);
    XorZero(a);
    XorComm(a, b);
  }

  /** The outer loop of `forney_syndromes` from erasure i on. The exponent
      nmess - 1 - pos[i] is negative for a position past the message, and
      `gf_pow` then reads outside its table. */
  function ForneyLoop(t: Tables, f: seq<Byte>, pos: seq<int>, nmess: int, i: nat): (r: Result<seq<Byte>>)
    requires Valid(t) && i <= |pos|
    ensures r.Success? ==> |r.value| == |f|
    ensures r.Failure? ==> r.error == TableIndexOutOfRange
    ensures (forall k :: i <= k < |pos| ==> pos[k] < nmess) ==> r.Success?
    decreases |pos| - i
  {
    if i == |pos| then Success(f)
    else
      var x :- Pow(t, 2, nmess - 1 - pos[i]);
      ForneyLoop(t, ForneyStep(t, f, x), pos, nmess, i + 1)
  }

  /** `forney_syndromes`: the syndromes without their leading zero, folded
      with one factor per erasure. */
  function ForneySyndromes(t: Tables, synd: seq<Byte>, pos: seq<int>, nmess: int): (r: Result<seq<Byte>>)
    requires Valid(t) && |synd| >= 1
    ensures r.Success? ==> |r.value| == |synd| - 1
    ensures (forall k :: 0 <= k < |pos| ==> pos[k] < nmess) ==> r.Success?
    ensures |pos| == 0 ==> r == Success(synd[1..])
  {
    ForneyLoop(t, synd[1..], pos, nmess, 0)
  }

  // find_error_locator (Berlekamp–Massey)

  /** The error locator and the previous locator the loop carries. */
  datatype Locators = Locators(errLoc: seq<Byte>, oldLoc: seq<Byte>)

  /** The discrepancy loop: delta ^= err_loc[n - 1 - j] * synd[K - j] for j
      from 1 to n - 1, where n = |err_loc|. */
  function Discrepancy(t: Tables, errLoc: seq<Byte>, synd: seq<Byte>, k: nat, j: nat, delta: Byte): Byte
    requires Valid(t) && 1 <= j <= |errLoc| && |errLoc| <= k + 1 && k < |synd|
    decreases |errLoc| - j
  {
    if j == |errLoc| then delta
    else Discrepancy(t, errLoc, synd, k, j + 1, Xor(delta, Mul(t, errLoc[|errLoc| - 1 - j], synd[k - j])))
  }

  /** One iteration of the Berlekamp–Massey loop once the discrepancy is
      known: shift the old locator, and for a non-zero discrepancy swap the
      two locators when the old one has grown longer, then add the scaled
      old locator. The inverse exists because delta is not zero. */
  function BmStep(t: Tables, s: Locators, delta: Byte): (s': Locators)
    requires Valid(t)
    ensures |s.errLoc| <= |s'.errLoc| <= Max(|s.errLoc|, |s.oldLoc| + 1)
    ensures |s'.oldLoc| <= Max(|s.errLoc|, |s.oldLoc| + 1)
  {
    var shifted := s.oldLoc + [0];
    if delta == 0 then Locators(s.errLoc, shifted)
    else
      var swap := |shifted| > |s.errLoc|;
      var err := if swap then PolyScale(t, shifted, delta) else s.errLoc;
      var old' := if swap then PolyScale(t, s.errLoc, Inverse(t, delta).value) else shifted;
      Locators(PolyAdd(err, PolyScale(t, old', delta)), old')
  }

  /** The last coefficient of a sum is the sum of the last coefficients. */
  lemma PolyAddLast(p: seq<Byte>, q: seq<Byte>)
    requires |p| > 0 && |q| > 0
    ensures Last(PolyAdd(p, q)) == Xor(Last(p), Last(q))
  {
    hide Xor;
    var n := Max(|p|, |q|);
    assert (Zeros(n - |p|) + p)[n - 1] == Last(p);
    assert (Zeros(n - |q|) + q)[n - 1] == Last(q);
  }

  /** Every step keeps the locator's constant term (its last coefficient) at 1. */
  lemma BmStepConstant(t: Tables, s: Locators, delta: Byte)
    requires Valid(t) && |s.errLoc| > 0
    ensures Last(s.errLoc) == 1 ==> Last(BmStep(t, s, delta).errLoc) == 1
  {
    if Last(s.errLoc) != 1 {
      return;
    }
    var shifted := s.oldLoc + [0];
    if delta != 0 {
      var inv := Inverse(t, delta).value;
      MulComm(t, delta, inv);
      MulOne(t, inv);
      MulZero(t, delta);
      XorZero(1);
      if |shifted| > |s.errLoc| {
        var err := PolyScale(t, shifted, delta);
        var old' := PolyScale(t, s.errLoc, inv);
        assert Last(err) == 0;
        assert Last(old') == inv;
        PolyAddLast(err, PolyScale(t, old', delta));
      } else {
        assert Last(PolyScale(t, shifted, delta)) == 0;
        PolyAddLast(s.errLoc, PolyScale(t, shifted, delta));
      }
    }
  }

  /** The loop of `find_error_locator` from iteration i on, for i below
      7 - erase_count. With synd_shift = |synd| - 7, iteration i reads
      synd[i + shift - j] for j < |err_loc| <= i + 1, all inside the
      syndromes. */
  function BmLoop(t: Tables, synd: seq<Byte>, eraseCount: nat, i: nat, s: Locators): (s': Locators)
    requires Valid(t) && |synd| >= Nsym && i <= Nsym
    requires 1 <= |s.errLoc| <= i + 1 && |s.oldLoc| <= i + 1
    ensures 1 <= |s'.errLoc| <= Nsym + 1
    ensures Last(s.errLoc) == 1 ==> Last(s'.errLoc) == 1
    decreases Nsym - i
  {
    if i + eraseCount >= Nsym then s
    else
      var k := i + |synd| - Nsym;
      var delta := Discrepancy(t, s.errLoc, synd, k, 1, synd[k]);
      BmStepConstant(t, s, delta);
      BmLoop(t, synd, eraseCount, i + 1, BmStep(t, s, delta))
  }

  /** The `while` loop after Berlekamp–Massey: leading zeros removed. */
  function StripLeadingZeros(s: seq<Byte>): (r: seq<Byte>)
    ensures |r| <= |s| && s == Zeros(|s| - |r|) + r
    ensures |r| == 0 || r[0] != 0
    decreases |s|
  {
    if |s| == 0 || s[0] != 0 then s
    else
      var r := StripLeadingZeros(s[1..]);
      assert s == [0] + s[1..];
      assert Zeros(|s| - |r|) == [0] + Zeros(|s| - 1 - |r|);
      r
  }

  /** `find_error_locator`: the Berlekamp–Massey locator, without leading
      zeros, ending in the constant term 1. It fails when its degree
      exceeds what seven check bytes can correct next to the erasures. */
  function FindErrorLocator(t: Tables, synd: seq<Byte>, eraseCount: nat): (r: Result<seq<Byte>>)
    requires Valid(t) && |synd| >= Nsym
    ensures r.Failure? ==> r.error == TooManyErrors
    ensures r.Success? ==> 1 <= |r.value| <= Nsym + 1 && r.value[0] != 0 && Last(r.value) == 1
    ensures r.Success? ==> 2 * (|r.value| - 1 - eraseCount) + eraseCount <= Nsym
  {
    var s := BmLoop(t, synd, eraseCount, 0, Locators([1], [1]));
    var loc := StripLeadingZeros(s.errLoc);
    assert Last(s.errLoc) == 1;
    assert |loc| > 0 && Last(loc) == 1;
    var errs := |loc| - 1;
    if (errs - eraseCount) * 2 + eraseCount > Nsym then Failure(TooManyErrors) else Success(loc)
  }

  // find_errors

  /** The position nmess - 1 - i when 2^i is a root of the locator. */
  function RootAt(t: Tables, errLoc: seq<Byte>, nmess: nat, i: nat): (r: seq<int>)
    requires Valid(t) && |errLoc| > 0
  {
    if PolyEval(t, errLoc, Alpha(t, i)) == 0 then [nmess - 1 - i] else []
  }

  lemma RootAtSound(t: Tables, errLoc: seq<Byte>, nmess: nat, i: nat)
    requires Valid(t) && |errLoc| > 0
    ensures |RootAt(t, errLoc, nmess, i)| <= 1
    ensures |RootAt(t, errLoc, nmess, i)| == 1 <==> Value(t, errLoc, Alpha(t, i)) == 0
    ensures |RootAt(t, errLoc, nmess, i)| == 1 ==> RootAt(t, errLoc, nmess, i)[0] == nmess - 1 - i
  {
  }

  /** The positions nmess - 1 - k, for k from i up, where the locator
      vanishes at 2^k, in the order the loop finds them. */
  function Roots(t: Tables, errLoc: seq<Byte>, nmess: nat, i: nat): (r: seq<int>)
    requires Valid(t) && |errLoc| > 0 && i <= nmess
    decreases nmess - i
  {
    if i == nmess then [] else RootAt(t, errLoc, nmess, i) + Roots(t, errLoc, nmess, i + 1)
  }

  lemma RootsUnfold(t: Tables, errLoc: seq<Byte>, nmess: nat, i: nat)
    requires Valid(t) && |errLoc| > 0 && i <= nmess
    ensures i == nmess ==> Roots(t, errLoc, nmess, i) == []
    ensures i < nmess ==> Roots(t, errLoc, nmess, i) == RootAt(t, errLoc, nmess, i) + Roots(t, errLoc, nmess, i + 1)
  {
  }

  /** Every position found is inside the message and its power of two is a
      root of the locator. */
  lemma {:induction false} RootsSound(t: Tables, errLoc: seq<Byte>, nmess: nat, i: nat)
    requires Valid(t) && |errLoc| > 0 && i <= nmess
    ensures var r := Roots(t, errLoc, nmess, i);
      forall a :: 0 <= a < |r| ==>
        0 <= r[a] < nmess - i && Value(t, errLoc, Alpha(t, nmess - 1 - r[a])) == 0
    decreases nmess - i
  {
    hide PolyEval, Alpha, Value, Roots, RootAt;
    RootsUnfold(t, errLoc, nmess, i);
    if i < nmess {
      RootsSound(t, errLoc, nmess, i + 1);
      var h := RootAt(t, errLoc, nmess, i);
      var rest := Roots(t, errLoc, nmess, i + 1);
      var r := h + rest;
      forall a | 0 <= a < |r|
        ensures 0 <= r[a] < nmess - i && Value(t, errLoc, Alpha(t, nmess - 1 - r[a])) == 0
      {
        if a < |h| {
          RootAtSound(t, errLoc, nmess, i);
          assert r[a] == h[0] == nmess - 1 - i;
        } else {
          assert r[a] == rest[a - |h|];
        }
      }
    }
  }

  /** Every position whose power of two is a root is found. */
  lemma {:induction false} RootsComplete(t: Tables, errLoc: seq<Byte>, nmess: nat, i: nat, k: nat)
    requires Valid(t) && |errLoc| > 0 && i <= k < nmess && Value(t, errLoc, Alpha(t, k)) == 0
    ensures nmess - 1 - k in Roots(t, errLoc, nmess, i)
    decreases k - i
  {
    hide PolyEval, Alpha, Value, Roots, RootAt;
    var h := RootAt(t, errLoc, nmess, i);
    var rest := Roots(t, errLoc, nmess, i + 1);
    RootAtSound(t, errLoc, nmess, i);
    RootsUnfold(t, errLoc, nmess, i);
    if k == i {
      assert (h + rest)[0] == nmess - 1 - k;
    } else {
      RootsComplete(t, errLoc, nmess, i + 1, k);
      var a :| 0 <= a < |rest| && rest[a] == nmess - 1 - k;
      assert (h + rest)[|h| + a] == nmess - 1 - k;
    }
  }

  /** The positions come out strictly decreasing: no position twice. */
  lemma {:induction false} RootsDecreasing(t: Tables, errLoc: seq<Byte>, nmess: nat, i: nat)
    requires Valid(t) && |errLoc| > 0 && i <= nmess
    ensures var r := Roots(t, errLoc, nmess, i);
      forall a, b :: 0 <= a < b < |r| ==> r[a] > r[b]
    decreases nmess - i
  {
    hide PolyEval, Alpha, Value, Roots, RootAt;
    RootsUnfold(t, errLoc, nmess, i);
    if i < nmess {
      RootsSound(t, errLoc, nmess, i + 1);
      RootsDecreasing(t, errLoc, nmess, i + 1);
      var h := RootAt(t, errLoc, nmess, i);
      var rest := Roots(t, errLoc, nmess, i + 1);
      var r := h + rest;
      RootAtSound(t, errLoc, nmess, i);
      forall a, b | 0 <= a < b < |r|
        ensures r[a] > r[b]
      {
        assert r[b] == rest[b - |h|];
        if a >= |h| {
          assert r[a] == rest[a - |h|];
        } else {
          assert r[a] == nmess - 1 - i;
        }
      }
    }
  }

  /** `find_errors`: the positions whose power of two is a root of the
      locator; it fails unless there is one per unit of the locator's
      degree. An empty locator cannot be evaluated. */
  function FindErrors(t: Tables, errLoc: seq<Byte>, nmess: int): (r: Result<seq<int>>)
    requires Valid(t)
    ensures r.Success? ==> |r.value| == |errLoc| - 1
    ensures r.Failure? ==> r.error in {OutOfBounds, CouldNotFindErrorLocations}
  {
    if nmess > 0 && |errLoc| == 0 then Failure(OutOfBounds)
    else if nmess <= 0 then
      // the loop finds nothing
      if |errLoc| != 1 then Failure(CouldNotFindErrorLocations) else Success([])
    else
      var pos := Roots(t, errLoc, nmess, 0);
      if |pos| != |errLoc| - 1 then Failure(CouldNotFindErrorLocations) else Success(pos)
  }

  /** The positions `find_errors` returns are exactly those inside the
      message whose power of two 2^(nmess - 1 - p) is a root of the locator,
      each once. */
  lemma FindErrorsExact(t: Tables, errLoc: seq<Byte>, nmess: int, r: seq<int>)
    requires Valid(t) && FindErrors(t, errLoc, nmess) == Success(r)
    ensures forall a :: 0 <= a < |r| ==> 0 <= r[a] < nmess && Value(t, errLoc, Alpha(t, nmess - 1 - r[a])) == 0
    ensures forall k :: 0 <= k < nmess && Value(t, errLoc, Alpha(t, k)) == 0 ==> nmess - 1 - k in r
    ensures forall a, b :: 0 <= a < b < |r| ==> r[a] > r[b]
  {
    hide Roots, Value, Alpha, PolyEval;
    if nmess > 0 {
      assert r == Roots(t, errLoc, nmess, 0);
      FindsOnlyRoots(t, errLoc, nmess);
      FindsEveryRoot(t, errLoc, nmess);
      RootsDecreasing(t, errLoc, nmess, 0);
    }
  }

  lemma FindsOnlyRoots(t: Tables, errLoc: seq<Byte>, nmess: nat)
    requires Valid(t) && |errLoc| > 0
    ensures forall a :: 0 <= a < |Roots(t, errLoc, nmess, 0)| ==>
      0 <= Roots(t, errLoc, nmess, 0)[a] < nmess && Value(t, errLoc, Alpha(t, nmess - 1 - Roots(t, errLoc, nmess, 0)[a])) == 0
  {
    RootsSound(t, errLoc, nmess, 0);
  }

  lemma FindsEveryRoot(t: Tables, errLoc: seq<Byte>, nmess: nat)
    requires Valid(t) && |errLoc| > 0
    ensures forall k :: 0 <= k < nmess && Value(t, errLoc, Alpha(t, k)) == 0 ==> nmess - 1 - k in Roots(t, errLoc, nmess, 0)
  {
    forall k | 0 <= k < nmess && Value(t, errLoc, Alpha(t, k)) == 0
      ensures nmess - 1 - k in Roots(t, errLoc, nmess, 0)
    {
      RootsComplete(t, errLoc, nmess, 0, k);
    }
  }

  // find_errors_locator

  /** The factor 1 + 2^e * z that `find_errors_locator` multiplies in for
      coefficient position e, built as [1] + [2^e, 0]. */
  function ErasureFactor(t: Tables, e: nat): (f: seq<Byte>)
    requires Valid(t)
    ensures |f| == 2
  {
    PolyAdd([1], [Alpha(t, e), 0])
  }

  /** `find_errors_locator`: the product of the erasure factors. */
  function FindErrorsLocator(t: Tables, ePos: seq<nat>): (r: seq<Byte>)
    requires Valid(t)
    ensures |r| == |ePos| + 1
    decreases |ePos|
  {
    if |ePos| == 0 then [1]
    else PolyMul(t, FindErrorsLocator(t, ePos[..|ePos| - 1]), ErasureFactor(t, ePos[|ePos| - 1]))
  }

  /** The reference product: the product over e in ePos of (2^e * x + 1). */
  function LocatorProduct(t: Tables, ePos: seq<nat>, x: Byte): Byte
    requires Valid(t)
    decreases |ePos|
  {
    if |ePos| == 0 then 1
    else Mul(t, LocatorProduct(t, ePos[..|ePos| - 1], x), Xor(Mul(t, Alpha(t, ePos[|ePos| - 1]), x), 1))
  }

  lemma ErasureFactorValue(t: Tables, e: nat, x: Byte)
    requires Valid(t)
    ensures Value(t, ErasureFactor(t, e), x) == Xor(Mul(t, Alpha(t, e), x), 1)
  {
    var a := Alpha(t, e);
    XorZero(a);
    XorZero(1);
    assert ErasureFactor(t, e) == [a, 1];
    assert [a, 1][..1] == [a];
    assert Value(t, [a], x) == a by {
      assert [a][..0] == [];
      MulZero(t, x);
    }
  }

  /** The erasure locator evaluates to the product of its factors. */
  lemma {:induction false} ValueErasureLocator(t: Tables, ePos: seq<nat>, x: Byte)
    requires Valid(t)
    ensures Value(t, FindErrorsLocator(t, ePos), x) == LocatorProduct(t, ePos, x)
    decreases |ePos|
  {
    if |ePos| == 0 {
      assert [1][..0] == [];
      MulZero(t, x);
      XorZero(1);
    } else {
      var init := ePos[..|ePos| - 1];
      var e := ePos[|ePos| - 1];
      ValueErasureLocator(t, init, x);
      ValueMul(t, FindErrorsLocator(t, init), ErasureFactor(t, e), x);
      ErasureFactorValue(t, e, x);
    }
  }

  /** One factor vanishing makes the whole product vanish. */
  lemma {:induction false} LocatorProductZero(t: Tables, ePos: seq<nat>, x: Byte, k: nat)
    requires Valid(t) && k < |ePos| && Xor(Mul(t, Alpha(t, ePos[k]), x), 1) == 0
    ensures LocatorProduct(t, ePos, x) == 0
    decreases |ePos|
  {
    var init := ePos[..|ePos| - 1];
    if k < |ePos| - 1 {
      LocatorProductZero(t, init, x, k);
      MulZero(t, Xor(Mul(t, Alpha(t, ePos[|ePos| - 1]), x), 1));
    } else {
      MulZero(t, LocatorProduct(t, init, x));
    }
  }

  /** The erasure locator vanishes at the inverse of 2^e for every erased
      coefficient position e. */
  lemma ErasureLocatorRoots(t: Tables, ePos: seq<nat>, k: nat)
    requires Valid(t) && k < |ePos|
    ensures Inverse(t, Alpha(t, ePos[k])).Success?
    ensures Value(t, FindErrorsLocator(t, ePos), Inverse(t, Alpha(t, ePos[k])).value) == 0
  {
    AlphaNonZero(t, ePos[k]);
    var x := Inverse(t, Alpha(t, ePos[k])).value;
    XorSelf(1);
    LocatorProductZero(t, ePos, x, k);
    ValueErasureLocator(t, ePos, x);
  }

  // find_error_evaluator

  /** `find_error_evaluator`: the remainder of synd * err_loc divided by
      z^(nsym + 1). `gf_poly_div` needs the divisor at most one longer than
      the product. */
  function FindErrorEvaluator(t: Tables, synd: seq<Byte>, errLoc: seq<Byte>, nsym: nat): (r: seq<Byte>)
    requires Valid(t) && |synd| + |errLoc| > 0 && nsym + 2 <= |synd| + |errLoc|
    ensures |r| == nsym + 1
  {
    PolyDiv(t, PolyMul(t, synd, errLoc), [1] + Zeros(nsym + 1)).remainder
  }

  /** Dividing by a power of z never changes the running dividend. */
  lemma EliminateByPower(t: Tables, k: nat, m: seq<Byte>, i: nat)
    requires Valid(t) && i + k + 1 <= |m|
    ensures Eliminate(t, [1] + Zeros(k), m, i) == m
  {
    var ds := [1] + Zeros(k);
    assert ds[1..] == Zeros(k);
    if m[i] != 0 {
      var z := Zeros(i + 1) + PolyScale(t, ds[1..], m[i]) + Zeros(|m| - i - |ds|);
      assert z == Zeros(|m|);
      XorVecZeros(m);
    }
  }

  lemma {:induction false} DivLoopByPower(t: Tables, k: nat, m: seq<Byte>, i: nat, coeffs: seq<Byte>)
    requires Valid(t) && i + k <= |m|
    ensures DivLoop(t, [1] + Zeros(k), m, i, coeffs).remainder == m[|m| - k..]
    decreases |m| - k - i
  {
    if i < |m| - k {
      EliminateByPower(t, k, m, i);
      DivLoopByPower(t, k, m, i + 1, coeffs + [m[i]]);
    }
  }

  /** The evaluator is the low nsym + 1 coefficients of synd * err_loc: the
      product modulo z^(nsym + 1). */
  lemma EvaluatorIsLowTerms(t: Tables, synd: seq<Byte>, errLoc: seq<Byte>, nsym: nat)
    requires Valid(t) && |synd| + |errLoc| > 0 && nsym + 2 <= |synd| + |errLoc|
    ensures var p := PolyMul(t, synd, errLoc);
      FindErrorEvaluator(t, synd, errLoc, nsym) == p[|p| - (nsym + 1)..]
  {
    DivLoopByPower(t, nsym + 1, PolyMul(t, synd, errLoc), 0, []);
  }

  // correct_errata

  /** The X loop of `correct_errata`: X[i] = gf_pow(2, -(255 - coef_pos[i])).
      The exponent is negative for every position inside a message of at
      most 255 symbols, and the table read fails unless 255 divides it. */
  function ErrataLocations(t: Tables, coefPos: seq<nat>, i: nat): (r: Result<seq<Byte>>)
    requires Valid(t) && i <= |coefPos|
    ensures r.Success? ==> |r.value| == |coefPos| - i
    ensures r.Failure? ==> r.error == TableIndexOutOfRange
    decreases |coefPos| - i
  {
    if i == |coefPos| then Success([])
    else
      var l: int := 255 - coefPos[i] as int;
      var x :- Pow(t, 2, -l);
      var rest :- ErrataLocations(t, coefPos, i + 1);
      Success([x] + rest)
  }

  /** For positions below 255, the X loop succeeds exactly when every
      coefficient position is 0, and then every X[i] is 1. */
  lemma {:induction false} ErrataLocationsOnlyAtZero(t: Tables, coefPos: seq<nat>, i: nat)
    requires Valid(t) && i <= |coefPos|
    requires forall k :: i <= k < |coefPos| ==> coefPos[k] < 255
    ensures ErrataLocations(t, coefPos, i).Success? <==> forall k :: i <= k < |coefPos| ==> coefPos[k] == 0
    ensures ErrataLocations(t, coefPos, i).Success? ==>
      forall k :: 0 <= k < |coefPos| - i ==> ErrataLocations(t, coefPos, i).value[k] == 1
    decreases |coefPos| - i
  {
    if i < |coefPos| {
      NegativePowOfTwo(t, 255 - coefPos[i]);
      ErrataLocationsOnlyAtZero(t, coefPos, i + 1);
    }
  }

  /** The derivative loop: the product over j != i of (1 ^ Xi_inv * X[j]),
      folded from the left starting at 1. */
  function LocatorPrime(t: Tables, xs: seq<Byte>, i: nat, xiInv: Byte, j: nat, acc: Byte): Byte
    requires Valid(t) && j <= |xs|
    decreases |xs| - j
  {
    if j == |xs| then acc
    else LocatorPrime(t, xs, i, xiInv, j + 1, if j != i then Mul(t, acc, Xor(1, Mul(t, xiInv, xs[j]))) else acc)
  }

  /** Once the running product is zero it stays zero. */
  lemma {:induction false} LocatorPrimeZero(t: Tables, xs: seq<Byte>, i: nat, xiInv: Byte, j: nat)
    requires Valid(t) && j <= |xs|
    ensures LocatorPrime(t, xs, i, xiInv, j, 0) == 0
    decreases |xs| - j
  {
    if j < |xs| {
      MulZero(t, Xor(1, Mul(t, xiInv, xs[j])));
      LocatorPrimeZero(t, xs, i, xiInv, j + 1);
    }
  }

  /** The magnitude loop of `correct_errata` from erasure i on: each E[err_pos[i]]
      is y / err_loc_prime, where y = Xi * err_eval(Xi_inv). A zero X[i] has
      no inverse; a zero derivative is reported as such. */
  function Magnitudes(t: Tables, xs: seq<Byte>, errEval: seq<Byte>, errPos: seq<int>, e: seq<Byte>, i: nat): (r: Result<seq<Byte>>)
    requires Valid(t) && |errEval| > 0 && |xs| == |errPos| && i <= |xs|
    requires forall k :: 0 <= k < |errPos| ==> 0 <= errPos[k] < |e|
    ensures r.Success? ==> |r.value| == |e|
    ensures r.Success? ==> forall k :: 0 <= k < |e| && k !in errPos[i..] ==> r.value[k] == e[k]
    decreases |xs| - i
  {
    if i == |xs| then Success(e)
    else
      var xi := xs[i];
      var xiInv :- Inverse(t, xi);
      var prime := LocatorPrime(t, xs, i, xiInv, 0, 1);
      var y := Mul(t, Pow(t, xi, 1).value, PolyEval(t, errEval, xiInv));
      if prime == 0 then Failure(CannotFindErrorMagnitude)
      else
        var magnitude := Div(t, y, prime).value;
        HeadSplit(errPos, i);
        Magnitudes(t, xs, errEval, errPos, e[errPos[i] := magnitude], i + 1)
  }

  /** `coef_pos`: each position counted from the end of the message. */
  function CoefPositions(msgLen: nat, errPos: seq<int>): (c: seq<nat>)
    requires forall k :: 0 <= k < |errPos| ==> 0 <= errPos[k] < msgLen
    ensures |c| == |errPos|
    ensures forall k :: 0 <= k < |errPos| ==> c[k] + errPos[k] == msgLen - 1
  {
    seq(|errPos|, i requires 0 <= i < |errPos| => (msgLen - 1 - errPos[i]) as nat)
  }

  /** `err_eval`: the evaluator of the reversed syndromes and the erasure
      locator, reversed back. */
  function ErrataEvaluator(t: Tables, synd: seq<Byte>, errLoc: seq<Byte>): (r: seq<Byte>)
    requires Valid(t) && |synd| > 0 && |errLoc| > 0
    ensures |r| == |errLoc|
  {
    Reverse(FindErrorEvaluator(t, Reverse(synd), errLoc, |errLoc| - 1))
  }

  /** `correct_errata`: the erasure locator and evaluator for the given
      positions, the magnitudes at those positions, added to the message.
      Writing E[err_pos[i]] needs every position inside the message. */
  function CorrectErrata(t: Tables, msg: seq<Byte>, synd: seq<Byte>, errPos: seq<int>): (r: Result<seq<Byte>>)
    requires Valid(t) && |synd| > 0
    requires forall k :: 0 <= k < |errPos| ==> 0 <= errPos[k] < |msg|
    ensures r.Success? ==> |r.value| == |msg|
    ensures r.Success? ==> forall k :: 0 <= k < |msg| && k !in errPos ==> r.value[k] == msg[k]
  {
    var coefPos := CoefPositions(|msg|, errPos);
    var errEval := ErrataEvaluator(t, synd, FindErrorsLocator(t, coefPos));
    var xs :- ErrataLocations(t, coefPos, 0);
    var e :- Magnitudes(t, xs, errEval, errPos, Zeros(|msg|), 0);
    assert errPos[0..] == errPos;
    XorZeroAll(msg);
    Success(PolyAdd(msg, e))
  }

  lemma XorZeroAll(msg: seq<Byte>)
    ensures forall k :: 0 <= k < |msg| ==> Xor(msg[k], 0) == msg[k]
  {
    forall k | 0 <= k < |msg|
      ensures Xor(msg[k], 0) == msg[k]
    {
      XorZero(msg[k]);
    }
  }

  /** A successful correction went through both loops. */
  lemma CorrectErrataSteps(t: Tables, msg: seq<Byte>, synd: seq<Byte>, errPos: seq<int>)
    requires Valid(t) && |synd| > 0
    requires forall k :: 0 <= k < |errPos| ==> 0 <= errPos[k] < |msg|
    ensures CorrectErrata(t, msg, synd, errPos).Success? ==>
      var coefPos := CoefPositions(|msg|, errPos);
      ErrataLocations(t, coefPos, 0).Success?
      && Magnitudes(t, ErrataLocations(t, coefPos, 0).value,
           ErrataEvaluator(t, synd, FindErrorsLocator(t, coefPos)), errPos, Zeros(|msg|), 0).Success?
  {
    hide Magnitudes, ErrataLocations, ErrataEvaluator, FindErrorsLocator, PolyAdd, CoefPositions;
  }

  /** With no positions to correct, `correct_errata` returns the message. */
  lemma CorrectErrataNoPositions(t: Tables, msg: seq<Byte>, synd: seq<Byte>)
    requires Valid(t) && |synd| > 0
    ensures CorrectErrata(t, msg, synd, []) == Success(msg)
  {
    XorVecZeros(msg);
  }

  /** Two locations both equal to 1 make the first derivative zero. */
  lemma MagnitudesRepeatedOne(t: Tables, xs: seq<Byte>, errEval: seq<Byte>, errPos: seq<int>, e: seq<Byte>)
    requires Valid(t) && |errEval| > 0 && |xs| == |errPos| >= 2 && xs[0] == 1 && xs[1] == 1
    requires forall k :: 0 <= k < |errPos| ==> 0 <= errPos[k] < |e|
    ensures Magnitudes(t, xs, errEval, errPos, e, 0) == Failure(CannotFindErrorMagnitude)
  {
    hide LocatorPrime, PolyEval, Pow, Div, Mul;
    InverseOfOne(t);
    LocatorPrimeRepeatedOne(t, xs);
  }

  lemma InverseOfOne(t: Tables)
    requires Valid(t)
    ensures Inverse(t, 1) == Success(1)
  {
    MulOne(t, Inverse(t, 1).value);
  }

  lemma LocatorPrimeRepeatedOne(t: Tables, xs: seq<Byte>)
    requires Valid(t) && |xs| >= 2 && xs[1] == 1
    ensures LocatorPrime(t, xs, 0, 1, 0, 1) == 0
  {
    MulOne(t, 1);
    XorSelf(1);
    MulZero(t, 1);
    assert LocatorPrime(t, xs, 0, 1, 0, 1) == LocatorPrime(t, xs, 0, 1, 1, 1);
    assert LocatorPrime(t, xs, 0, 1, 1, 1) == LocatorPrime(t, xs, 0, 1, 2, 0);
    LocatorPrimeZero(t, xs, 0, 1, 2);
  }

  /** In a message of at most 255 symbols, `correct_errata` succeeds only for
      a single position, the last one: every other position makes the X loop
      read outside the table, and two or more copies of the last position
      give X[j] == 1 == X[i], a zero derivative. */
  lemma CorrectErrataOnlyLast(t: Tables, msg: seq<Byte>, synd: seq<Byte>, errPos: seq<int>)
    requires Valid(t) && |synd| > 0 && |msg| <= 255
    requires forall k :: 0 <= k < |errPos| ==> 0 <= errPos[k] < |msg|
    ensures CorrectErrata(t, msg, synd, errPos).Success? ==>
      |errPos| <= 1 && forall k :: 0 <= k < |errPos| ==> errPos[k] == |msg| - 1
  {
    hide CorrectErrata, Magnitudes, ErrataEvaluator, FindErrorsLocator;
    if CorrectErrata(t, msg, synd, errPos).Success? {
      var coefPos := CoefPositions(|msg|, errPos);
      CorrectErrataSteps(t, msg, synd, errPos);
      ErrataLocationsOnlyAtZero(t, coefPos, 0);
      if |errPos| >= 2 {
        var xs := ErrataLocations(t, coefPos, 0).value;
        MagnitudesRepeatedOne(t, xs, ErrataEvaluator(t, synd, FindErrorsLocator(t, coefPos)), errPos, Zeros(|msg|));
      }
    }
  }

  // decode_message

  /** `msg_out[e_pos] = 0` for every erasure from index i on; a position
      outside the message is an out-of-bounds write. */
  function Erase(msg: seq<Byte>, pos: seq<int>, i: nat): (r: Result<seq<Byte>>)
    requires i <= |pos|
    ensures r.Success? <==> forall k :: i <= k < |pos| ==> 0 <= pos[k] < |msg|
    ensures r.Failure? ==> r.error == OutOfBounds
    ensures r.Success? ==> |r.value| == |msg|
    ensures r.Success? ==> forall k :: 0 <= k < |msg| ==> r.value[k] == if k in pos[i..] then 0 else msg[k]
    decreases |pos| - i
  {
    if i == |pos| then Success(msg)
    else if !(0 <= pos[i] < |msg|) then Failure(OutOfBounds)
    else
      assert pos[i..] == [pos[i]] + pos[i + 1..];
      Erase(msg[pos[i] := 0], pos, i + 1)
  }

  /** The data and check parts `decode_message` returns. */
  datatype Decoded = Decoded(data: seq<Byte>, ecc: seq<Byte>)

  /** The last seven symbols as the check part; a message shorter than that
      has no such split. */
  function Split(msg: seq<Byte>): (r: Result<Decoded>)
    ensures r.Success? <==> |msg| >= Nsym
    ensures r.Failure? ==> r.error == OutOfBounds
    ensures r.Success? ==> r.value.data + r.value.ecc == msg && |r.value.ecc| == Nsym
  {
    if |msg| < Nsym then Failure(OutOfBounds) else Success(Decoded(msg[..|msg| - Nsym], msg[|msg| - Nsym..]))
  }

  /** `decode_message`, in the order the source checks and computes: the
      length check, the erasures written as zeros, the erasure count, then
      everything else. */
  function DecodeMessage(t: Tables, msg: seq<Byte>, erasePos: seq<int>): (r: Result<Decoded>)
    requires Valid(t)
  {
    if |msg| > 255 then Failure(MessageTooLong)
    else
      var erased :- Erase(msg, erasePos, 0);
      if |erasePos| > Nsym then Failure(TooManyErasures)
      else DecodeErased(t, erased, erasePos)
  }

  /** The rest of `decode_message` once the erasures are written: a message
      with zero syndromes is split as it is, any other is repaired. */
  function DecodeErased(t: Tables, msg: seq<Byte>, erasePos: seq<int>): (r: Result<Decoded>)
    requires Valid(t) && |erasePos| <= Nsym
    requires forall k :: 0 <= k < |erasePos| ==> 0 <= erasePos[k] < |msg|
  {
    var synd :- CalcSyndromes(t, msg);
    if AllZero(synd) then Split(msg) else Repair(t, msg, synd, erasePos)
  }

  /** The correcting branch of `decode_message`. The Forney syndromes cannot
      fail here (every erasure lies inside the message) and neither can the
      second syndrome computation (the corrected message is as long as the
      input). The correction step receives the erasure positions, not the
      error positions just found, as the source passes them. */
  function Repair(t: Tables, msg: seq<Byte>, synd: seq<Byte>, erasePos: seq<int>): (r: Result<Decoded>)
    requires Valid(t) && |msg| > 0 && |synd| == Nsym + 1 && |erasePos| <= Nsym
    requires forall k :: 0 <= k < |erasePos| ==> 0 <= erasePos[k] < |msg|
    ensures r.Success? ==> CorrectErrata(t, msg, synd, erasePos).Success?
    ensures r.Success? ==>
      var corrected := CorrectErrata(t, msg, synd, erasePos).value;
      r == Split(corrected) && |corrected| > 0 && AllZero(CalcSyndromes(t, corrected).value)
  {
    var fsynd := ForneySyndromes(t, synd, erasePos, |msg|).value;
    var errLoc :- FindErrorLocator(t, fsynd, |erasePos|);
    var errPos :- FindErrors(t, Reverse(errLoc), |msg|);
    if |errPos| == 0 then Failure(CouldNotLocateErrors)
    else
      var corrected :- CorrectErrata(t, msg, synd, erasePos);
      var synd' := CalcSyndromes(t, corrected).value;
      if !AllZero(synd') then Failure(CouldNotCorrect) else Split(corrected)
  }

  /** The checks before any arithmetic: a message longer than 255 symbols
      is refused, an erasure outside the message is an out-of-bounds write,
      and more than seven erasures inside it are refused. */
  lemma DecodeRejects(t: Tables, msg: seq<Byte>, erasePos: seq<int>)
    requires Valid(t)
    ensures |msg| > 255 ==> DecodeMessage(t, msg, erasePos) == Failure(MessageTooLong)
    ensures |msg| <= 255 && (exists k :: 0 <= k < |erasePos| && !(0 <= erasePos[k] < |msg|)) ==>
      DecodeMessage(t, msg, erasePos) == Failure(OutOfBounds)
    ensures |msg| <= 255 && (forall k :: 0 <= k < |erasePos| ==> 0 <= erasePos[k] < |msg|) && |erasePos| > Nsym ==>
      DecodeMessage(t, msg, erasePos) == Failure(TooManyErasures)
  {
    hide DecodeErased;
  }

  /** The message `DecodeErased` works on: the input with its erasures zeroed. */
  lemma DecodeSteps(t: Tables, msg: seq<Byte>, erasePos: seq<int>)
    requires Valid(t)
    ensures DecodeMessage(t, msg, erasePos).Success? ==>
      && |msg| <= 255 && |erasePos| <= Nsym && Erase(msg, erasePos, 0).Success?
      && DecodeMessage(t, msg, erasePos) == DecodeErased(t, Erase(msg, erasePos, 0).value, erasePos)
  {
    hide DecodeErased, Erase;
  }

  /** What a successful decode returns is a message with zero syndromes,
      split into its data and its seven check symbols. */
  lemma DecodeResultIsCodeword(t: Tables, msg: seq<Byte>, erasePos: seq<int>)
    requires Valid(t)
    ensures DecodeMessage(t, msg, erasePos).Success? ==>
      var d := DecodeMessage(t, msg, erasePos).value;
      |d.ecc| == Nsym && |d.data| + Nsym == |msg|
      && forall i :: 0 <= i < Nsym ==> Value(t, d.data + d.ecc, Alpha(t, i)) == 0
  {
    hide DecodeMessage, Repair, Erase, Split, CalcSyndromes;
    if DecodeMessage(t, msg, erasePos).Success? {
      DecodeSteps(t, msg, erasePos);
      var erased := Erase(msg, erasePos, 0).value;
      var synd := CalcSyndromes(t, erased).value;
      if AllZero(synd) {
        SyndromesZero(t, erased);
      } else {
        var corrected := CorrectErrata(t, erased, synd, erasePos).value;
        SyndromesZero(t, corrected);
      }
    }
  }

  /** Decoding an encoded message without erasures gives the message and its
      check symbols back. */
  lemma DecodeEncoded(t: Tables, m: seq<Byte>)
    requires Valid(t) && |m| + Nsym <= 255
    ensures var code := EncodeMessage(t, m);
      DecodeMessage(t, code, []) == Success(Decoded(m, code[|m|..]))
  {
    hide Repair, EncodeMessage, CalcSyndromes;
    var code := EncodeMessage(t, m);
    EncodedSyndromes(t, m);
    assert Erase(code, [], 0) == Success(code);
  }

  /** The whole pipeline: decoding what `encode` produced returns the data
      codewords, from which the length field and the message read back. */
  lemma DecodeEncode(t: Tables, m: seq<Byte>)
    requires Valid(t) && |m| + 2 + Nsym <= 255
    ensures var code := Encode(t, m);
      && DecodeMessage(t, code, []).Success?
      && DecodeMessage(t, code, []).value.data == GetCode(m)
      && ReadLength(DecodeMessage(t, code, []).value.data) == |m|
      && ReadData(DecodeMessage(t, code, []).value.data, |m|) == m
  {
    hide DecodeMessage, EncodeMessage, GetCode, ReadLength, ReadData;
    var data := GetCode(m);
    DecodeEncoded(t, data);
    GetCodeReadBack(m);
  }

  /** Without erasures a decode only ever succeeds on a message whose
      syndromes are already zero, and returns it unchanged: the correction
      step receives the empty erasure list instead of the error positions it
      found, adds nothing, and the syndromes are still non-zero afterwards. */
  lemma DecodeWithoutErasures(t: Tables, msg: seq<Byte>)
    requires Valid(t)
    ensures DecodeMessage(t, msg, []).Success? ==>
      var d := DecodeMessage(t, msg, []).value;
      d.data + d.ecc == msg && forall i :: 0 <= i < Nsym ==> Value(t, msg, Alpha(t, i)) == 0
  {
    hide DecodeMessage, Repair, Split, CalcSyndromes, CorrectErrata;
    if DecodeMessage(t, msg, []).Success? {
      DecodeSteps(t, msg, []);
      assert Erase(msg, [], 0) == Success(msg);
      var synd := CalcSyndromes(t, msg).value;
      if !AllZero(synd) {
        CorrectErrataNoPositions(t, msg, synd);
        assert false;
      }
      SyndromesZero(t, msg);
    }
  }

  /** With erasures, a decode that has to correct anything succeeds only for
      the single erasure of the last symbol. */
  lemma DecodeCorrectsOnlyLast(t: Tables, msg: seq<Byte>, erasePos: seq<int>)
    requires Valid(t)
    ensures DecodeMessage(t, msg, erasePos).Success? ==>
      && Erase(msg, erasePos, 0).Success?
      && var erased := Erase(msg, erasePos, 0).value;
      || (forall i :: 0 <= i < Nsym ==> Value(t, erased, Alpha(t, i)) == 0)
      || erasePos == [|msg| - 1]
  {
    hide DecodeMessage, Repair, Erase, Split, CalcSyndromes, CorrectErrata;
    if DecodeMessage(t, msg, erasePos).Success? {
      DecodeSteps(t, msg, erasePos);
      var erased := Erase(msg, erasePos, 0).value;
      var synd := CalcSyndromes(t, erased).value;
      if AllZero(synd) {
        SyndromesZero(t, erased);
      } else {
        CorrectErrataOnlyLast(t, erased, synd, erasePos);
        if |erasePos| == 0 {
          CorrectErrataNoPositions(t, erased, synd);
          assert false;
        }
      }
    }
  }
}
