/** Lagrange interpolation with a precomputed basis (field.cpp:232-273): for
    each node x_k the basis polynomial is the product of X + x_j over the other
    nodes, scaled by the inverse of the product of x_k - x_j; interpolation is
    the linear combination of the basis polynomials with the given values. */
module Lagrange {
  import opened Errors
  import opened Bits
  import opened GF2E
  import opened Vectors
  import opened Polynomials

  // ---------------------------------------------------------------------------
  // Specifications.

  /** The nodes xs[..n] with node k left out, in their order. */
  function Others(xs: seq<Element>, k: nat, n: nat): (o: seq<Element>)
    requires n <= |xs|
    ensures |o| == if k < n then n - 1 else n
    decreases n
  {
    if n == 0 then []
    else if n - 1 == k then Others(xs, k, n - 1)
    else Others(xs, k, n - 1) + [xs[n - 1]]
  }

  /** The product of xs[k] - xs[j] over j < n, j != k, from 1 in increasing j. */
  function Denominator(reduce: Reducer, xs: seq<Element>, k: nat, n: nat): Element
    requires k < |xs| && n <= |xs|
    decreases n
  {
    if n == 0 then One
    else if n - 1 == k then Denominator(reduce, xs, k, n - 1)
    else Mul(reduce, Denominator(reduce, xs, k, n - 1), Sub(xs[k], xs[n - 1]))
  }

  /** Basis polynomial k: build_from_roots over the other nodes, scaled by the
      inverse of the denominator. */
  function BasisPolynomial(reduce: Reducer, inv: Element -> Element, xs: seq<Element>, k: nat): (p: seq<Element>)
    requires k < |xs|
    ensures |p| == |xs|
  {
    Scale(reduce, MonicLow(reduce, Others(xs, k, |xs|)) + [One], inv(Denominator(reduce, xs, k, |xs|)))
  }

  /** The first n basis polynomials. */
  function BasisUpTo(reduce: Reducer, inv: Element -> Element, xs: seq<Element>, n: nat): (b: seq<seq<Element>>)
    requires n <= |xs|
    ensures |b| == n
    decreases n
  {
    if n == 0 then [] else BasisUpTo(reduce, inv, xs, n - 1) + [BasisPolynomial(reduce, inv, xs, n - 1)]
  }

  /** Every row of `basis` has `len` coefficients. */
  predicate Rectangular(basis: seq<seq<Element>>, len: nat) {
    forall k :: 0 <= k < |basis| ==> |basis[k]| == len
  }

  /** The sum of basis[k] * ys[k] over k < n, starting from `len` zeros. */
  function LinearCombination(reduce: Reducer, basis: seq<seq<Element>>, ys: seq<Element>, n: nat, len: nat): (s: seq<Element>)
    requires n <= |basis| && n <= |ys| && forall j :: 0 <= j < n ==> |basis[j]| == len
    ensures |s| == len
    decreases n
  {
    if n == 0 then ZeroVector(len)
    else Plus(LinearCombination(reduce, basis, ys, n - 1, len), Scale(reduce, basis[n - 1], ys[n - 1]))
  }

  // ---------------------------------------------------------------------------
  // Properties of the specifications.

  /** Leaving node k out of all the nodes is slicing it out. */
  lemma {:induction false} OthersIsSlice(xs: seq<Element>, k: nat, n: nat)
    requires n <= |xs|
    ensures Others(xs, k, n) == if k < n then xs[..k] + xs[k + 1..n] else xs[..n]
    decreases n
  {
    if n > 0 {
      OthersIsSlice(xs, k, n - 1);
      if n - 1 == k {
        assert xs[k + 1..n] == [];
      } else if k < n - 1 {
        assert xs[k + 1..n] == xs[k + 1..n - 1] + [xs[n - 1]];
      } else {
        assert xs[..n] == xs[..n - 1] + [xs[n - 1]];
      }
    }
  }

  /** A node that occurs twice makes the denominator of either copy zero, which
      has no inverse: the nodes must be distinct. */
  lemma {:induction false} DenominatorOfRepeatedNode(reduce: Reducer, w: Width, xs: seq<Element>, k: nat, j: nat, n: nat)
    requires Reduces(reduce, w)
    requires k < |xs| && j < n <= |xs| && j != k && xs[j] == xs[k]
    ensures Denominator(reduce, xs, k, n) == Zero
    decreases n
  {
    var d := Denominator(reduce, xs, k, n - 1);
    if n - 1 == j {
      AddIsCharacteristicTwo(xs[k], xs[k], Zero);
      MulZero(reduce, w, d);
    } else {
      DenominatorOfRepeatedNode(reduce, w, xs, k, j, n - 1);
      if n - 1 != k {
        MulZero(reduce, w, Sub(xs[k], xs[n - 1]));
      }
    }
  }

  /** With a single node the basis is the constant polynomial 1 / 1. */
  lemma SingleNodeBasis(reduce: Reducer, inv: Element -> Element, x: Element)
    ensures BasisPolynomial(reduce, inv, [x], 0) == [Mul(reduce, One, inv(One))]
  {
    assert Others([x], 0, 1) == [];
  }

  lemma {:induction false} BasisUpToAt(reduce: Reducer, inv: Element -> Element, xs: seq<Element>, n: nat)
    requires n <= |xs|
    ensures forall k :: 0 <= k < n ==> BasisUpTo(reduce, inv, xs, n)[k] == BasisPolynomial(reduce, inv, xs, k)
    decreases n
  {
    if n > 0 {
      var prev := BasisUpTo(reduce, inv, xs, n - 1);
      BasisUpToAt(reduce, inv, xs, n - 1);
      forall k | 0 <= k < n
        ensures BasisUpTo(reduce, inv, xs, n)[k] == BasisPolynomial(reduce, inv, xs, k)
      {
        if k < n - 1 {
          assert BasisUpTo(reduce, inv, xs, n)[k] == prev[k];
        }
      }
    }
  }

  /** The combination is linear in the values. */
  lemma {:induction false} LinearCombinationAdditive(reduce: Reducer, w: Width, basis: seq<seq<Element>>, ys: seq<Element>, zs: seq<Element>, n: nat, len: nat)
    requires Reduces(reduce, w)
    requires n <= |basis| && |ys| == |zs| && n <= |ys| && Rectangular(basis, len)
    ensures LinearCombination(reduce, basis, Plus(ys, zs), n, len)
         == Plus(LinearCombination(reduce, basis, ys, n, len), LinearCombination(reduce, basis, zs, n, len))
    decreases n
  {
    var sum := Plus(ys, zs);
    if n == 0 {
      PlusProperties(ZeroVector(len), ZeroVector(len));
    } else {
      LinearCombinationAdditive(reduce, w, basis, ys, zs, n - 1, len);
      var b := basis[n - 1];
      ScaleBySum(reduce, w, b, ys[n - 1], zs[n - 1]);
      var ly, lz := LinearCombination(reduce, basis, ys, n - 1, len), LinearCombination(reduce, basis, zs, n - 1, len);
      var sy, sz := Scale(reduce, b, ys[n - 1]), Scale(reduce, b, zs[n - 1]);
      assert sum[n - 1] == Add(ys[n - 1], zs[n - 1]);
      PlusSwapMiddle(ly, lz, sy, sz);
    }
  }

  /** (a + b) + (c + d) == (a + c) + (b + d) on vectors of one length. */
  lemma PlusSwapMiddle(a: seq<Element>, b: seq<Element>, c: seq<Element>, d: seq<Element>)
    requires |a| == |b| == |c| == |d|
    ensures Plus(Plus(a, b), Plus(c, d)) == Plus(Plus(a, c), Plus(b, d))
  {
    forall i | 0 <= i < |a|
      ensures Plus(Plus(a, b), Plus(c, d))[i] == Plus(Plus(a, c), Plus(b, d))[i]
    {
      XorSwapMiddle(a[i], b[i], c[i], d[i]);
    }
  }

  /** The values of a unit vector pick out one reduced basis polynomial. */
  lemma {:induction false} LinearCombinationOfUnit(reduce: Reducer, w: Width, basis: seq<seq<Element>>, ys: seq<Element>, k: nat, n: nat, len: nat)
    requires Reduces(reduce, w)
    requires n <= |basis| && n <= |ys| && Rectangular(basis, len) && k < |basis|
    requires forall i :: 0 <= i < len ==> Reduced(w, basis[k][i])
    requires forall j :: 0 <= j < |ys| ==> ys[j] == if j == k then One else Zero
    ensures LinearCombination(reduce, basis, ys, n, len) == if k < n then basis[k] else ZeroVector(len)
    decreases n
  {
    if n > 0 {
      LinearCombinationOfUnit(reduce, w, basis, ys, k, n - 1, len);
      var prev := LinearCombination(reduce, basis, ys, n - 1, len);
      ScaleByZeroOne(reduce, w, basis[n - 1]);
      var s := Scale(reduce, basis[n - 1], ys[n - 1]);
      PlusProperties(prev, s);
      PlusProperties(s, prev);
    }
  }

  // ---------------------------------------------------------------------------
  // The operations.

  /** The inner loop of precompute_lagrange_polynomials for node k: the
      denominator and the other nodes, collected in one pass. */
  method DenominatorAndOthers(reduce: Reducer, xs: seq<Element>, k: nat) returns (den: Element, others: seq<Element>)
    requires k < |xs|
    ensures den == Denominator(reduce, xs, k, |xs|)
    ensures others == Others(xs, k, |xs|)
  {
    den := One;
    others := [];
    var j := 0;
    while j < |xs|
      invariant 0 <= j <= |xs|
      invariant den == Denominator(reduce, xs, k, j)
      invariant others == Others(xs, k, j)
    {
      if k != j {
        den := Mul(reduce, den, Sub(xs[k], xs[j]));
        others := others + [xs[j]];
      }
      j := j + 1;
    }
  }

  /** precompute_lagrange_polynomials, with NTL's field inverse as the
      parameter `inv`. */
  method PrecomputeLagrange(reduce: Reducer, inv: Element -> Element, xs: seq<Element>) returns (basis: seq<seq<Element>>)
    ensures |basis| == |xs|
    ensures forall k :: 0 <= k < |xs| ==> basis[k] == BasisPolynomial(reduce, inv, xs, k)
  {
    basis := [];
    var k := 0;
    while k < |xs|
      invariant 0 <= k <= |xs|
      invariant basis == BasisUpTo(reduce, inv, xs, k)
    {
      var den, others := DenominatorAndOthers(reduce, xs, k);
      var numerator := BuildFromRoots(reduce, others);
      numerator := ScalarMul(reduce, numerator, inv(den));
      assert numerator == BasisPolynomial(reduce, inv, xs, k);
      basis := basis + [numerator];
      k := k + 1;
    }
    BasisUpToAt(reduce, inv, xs, |xs|);
  }

  /** interpolate_with_precomputation: fails when the numbers of polynomials
      and values differ or there are no values, and when a basis polynomial's
      length differs from the first one's (the `+=` of the loop); otherwise the
      linear combination of the basis with the values. */
  method Interpolate(reduce: Reducer, basis: seq<seq<Element>>, ys: seq<Element>) returns (r: Result<seq<Element>>)
    ensures r.Err? <==> |basis| != |ys| || |ys| == 0 || !Rectangular(basis, |basis[0]|)
    ensures r.Err? ==> r.error == SizeMismatch
    ensures r.Ok? ==> r.value == LinearCombination(reduce, basis, ys, |ys|, |basis[0]|)
  {
    if |basis| != |ys| || |ys| == 0 {
      return Err(SizeMismatch);
    }
    var res := new Element[|basis[0]|](_ => Zero);
    var k := 0;
    while k < |ys|
      invariant 0 <= k <= |ys| && res.Length == |basis[0]|
      invariant forall j :: 0 <= j < k ==> |basis[j]| == res.Length
      invariant res[..] == LinearCombination(reduce, basis, ys, k, res.Length)
    {
      var term := ScalarMul(reduce, basis[k], ys[k]);
      var added := AddAssign(res, term);
      if added.Err? {
        return Err(added.error);
      }
      k := k + 1;
    }
    return Ok(res[..]);
  }

  /** The precomputed basis always passes interpolation's size checks: any
      values, one per node, interpolate successfully. */
  lemma BasisIsRectangular(reduce: Reducer, inv: Element -> Element, xs: seq<Element>, basis: seq<seq<Element>>)
    requires |basis| == |xs| >= 1
    requires forall k :: 0 <= k < |xs| ==> basis[k] == BasisPolynomial(reduce, inv, xs, k)
    ensures |basis[0]| == |xs| && Rectangular(basis, |basis[0]|)
  {
  }
}
