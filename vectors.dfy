/** The free operators on std::vector<GF2E> of field.cpp:306-364: elementwise
    addition (`+` and `+=`), multiplication by a scalar, the inner product with
    one lazy reduction, and the naive convolution product of polynomials. */
module Vectors {
  import opened Errors
  import opened Bits
  import opened GF2E

  // ---------------------------------------------------------------------------
  // Specifications.

  /** Elementwise sum of two vectors of one length. */
  function Plus(l: seq<Element>, r: seq<Element>): (s: seq<Element>)
    requires |l| == |r|
    ensures |s| == |l|
  {
    seq<Element>(|l|, i requires 0 <= i < |l| => Add(l[i], r[i]))
  }

  /** The vector of `n` zeros. */
  function ZeroVector(n: nat): (s: seq<Element>)
    ensures |s| == n
  {
    seq<Element>(n, _ => Zero)
  }

  /** Every coefficient multiplied by `s`. */
  function Scale(reduce: Reducer, p: seq<Element>, s: Element): (q: seq<Element>)
    ensures |q| == |p|
  {
    seq<Element>(|p|, i requires 0 <= i < |p| => Mul(reduce, p[i], s))
  }

  /** The eager inner product: sum of the reduced products l[i] * r[i], i < n. */
  function InnerProduct(reduce: Reducer, l: seq<Element>, r: seq<Element>, n: nat): Element
    requires n <= |l| && n <= |r|
  {
    if n == 0 then Zero else Add(InnerProduct(reduce, l, r, n - 1), Mul(reduce, l[n - 1], r[n - 1]))
  }

  /** The unreduced running sum of carry-less products that dot_product keeps. */
  function WideSum(l: seq<Element>, r: seq<Element>, n: nat): Wide
    requires n <= |l| && n <= |r|
  {
    if n == 0 then Zeros(128) else Xor(WideSum(l, r, n - 1), Clmul(l[n - 1], r[n - 1]))
  }

  /** The contribution of l[i] to coefficient k of the product l * r. */
  function ConvTerm(reduce: Reducer, l: seq<Element>, r: seq<Element>, i: nat, k: nat): Element
    requires i < |l|
  {
    if i <= k < i + |r| then Mul(reduce, l[i], r[k - i]) else Zero
  }

  /** Sum of the contributions of l[0 .. n) to coefficient k of l * r. */
  function ConvSum(reduce: Reducer, l: seq<Element>, r: seq<Element>, n: nat, k: nat): Element
    requires n <= |l|
  {
    if n == 0 then Zero else Add(ConvSum(reduce, l, r, n - 1, k), ConvTerm(reduce, l, r, n - 1, k))
  }

  /** The product polynomial: coefficient k is the sum of l[i] * r[j] over i + j == k. */
  function Conv(reduce: Reducer, l: seq<Element>, r: seq<Element>): (p: seq<Element>)
    requires |l| + |r| >= 1
    ensures |p| == |l| + |r| - 1
  {
    seq<Element>(|l| + |r| - 1, k requires 0 <= k => ConvSum(reduce, l, r, |l|, k))
  }

  // ---------------------------------------------------------------------------
  // Properties of the specifications.

  /** Vector addition is XOR: commutative, with the zero vector as identity and
      every vector its own negative. */
  lemma PlusProperties(l: seq<Element>, r: seq<Element>)
    requires |l| == |r|
    ensures Plus(l, r) == Plus(r, l)
    ensures Plus(l, ZeroVector(|l|)) == l
    ensures Plus(l, l) == ZeroVector(|l|)
  {
    forall i | 0 <= i < |l|
      ensures Plus(l, r)[i] == Plus(r, l)[i]
      ensures Plus(l, ZeroVector(|l|))[i] == l[i]
      ensures Plus(l, l)[i] == ZeroVector(|l|)[i]
    {
      AddIsCharacteristicTwo(l[i], r[i], l[i]);
    }
  }

  /** Scaling distributes over vector addition. */
  lemma ScaleDistributes(reduce: Reducer, w: Width, p: seq<Element>, q: seq<Element>, s: Element)
    requires Reduces(reduce, w) && |p| == |q|
    ensures Scale(reduce, Plus(p, q), s) == Plus(Scale(reduce, p, s), Scale(reduce, q, s))
  {
    forall i | 0 <= i < |p|
      ensures Scale(reduce, Plus(p, q), s)[i] == Plus(Scale(reduce, p, s), Scale(reduce, q, s))[i]
    {
      MulDistributes(reduce, w, p[i], q[i], s);
    }
  }

  /** Scaling by a sum is the sum of the scalings. */
  lemma ScaleBySum(reduce: Reducer, w: Width, p: seq<Element>, s: Element, t: Element)
    requires Reduces(reduce, w)
    ensures Scale(reduce, p, Add(s, t)) == Plus(Scale(reduce, p, s), Scale(reduce, p, t))
  {
    forall i | 0 <= i < |p|
      ensures Scale(reduce, p, Add(s, t))[i] == Plus(Scale(reduce, p, s), Scale(reduce, p, t))[i]
    {
      MulDistributes(reduce, w, s, t, p[i]);
    }
  }

  /** Scaling by zero gives the zero vector; scaling a reduced vector by one
      leaves it unchanged. */
  lemma ScaleByZeroOne(reduce: Reducer, w: Width, p: seq<Element>)
    requires Reduces(reduce, w)
    ensures Scale(reduce, p, Zero) == ZeroVector(|p|)
    ensures (forall i :: 0 <= i < |p| ==> Reduced(w, p[i])) ==> Scale(reduce, p, One) == p
  {
    forall i | 0 <= i < |p|
      ensures Scale(reduce, p, Zero)[i] == Zero
    {
      MulZero(reduce, w, p[i]);
    }
    if forall i :: 0 <= i < |p| ==> Reduced(w, p[i]) {
      forall i | 0 <= i < |p|
        ensures Scale(reduce, p, One)[i] == p[i]
      {
        MulOne(reduce, w, p[i]);
      }
    }
  }

  /** One lazy reduction of the accumulated carry-less products equals the sum
      of the individually reduced products. */
  lemma {:induction false} LazyReductionIsExact(reduce: Reducer, w: Width, l: seq<Element>, r: seq<Element>, n: nat)
    requires Reduces(reduce, w) && n <= |l| && n <= |r|
    ensures reduce(WideSum(l, r, n)) == InnerProduct(reduce, l, r, n)
  {
    if n == 0 {
      RoutineLinear(reduce, w, Zeros(128), Zeros(128));
    } else {
      LazyReductionIsExact(reduce, w, l, r, n - 1);
      var x, y := WideSum(l, r, n - 1), Clmul(l[n - 1], r[n - 1]);
      assert WideSum(l, r, n) == Xor(x, y);
      RoutineLinear(reduce, w, x, y);
    }
  }

  /** The inner product is symmetric. */
  lemma {:induction false} InnerProductComm(reduce: Reducer, l: seq<Element>, r: seq<Element>, n: nat)
    requires n <= |l| && n <= |r|
    ensures InnerProduct(reduce, l, r, n) == InnerProduct(reduce, r, l, n)
  {
    if n > 0 {
      InnerProductComm(reduce, l, r, n - 1);
      MulComm(reduce, l[n - 1], r[n - 1]);
    }
  }

  /** Rows l[m .. n) that all miss coefficient k leave its sum unchanged. */
  lemma {:induction false} ConvSumSkip(reduce: Reducer, l: seq<Element>, r: seq<Element>, m: nat, n: nat, k: nat)
    requires m <= n <= |l|
    requires k < m || n + |r| <= k + 1
    ensures ConvSum(reduce, l, r, n, k) == ConvSum(reduce, l, r, m, k)
    decreases n - m
  {
    if n > m {
      ConvSumSkip(reduce, l, r, m, n - 1, k);
      ConvSumOutside(reduce, l, r, n - 1, k);
    }
  }

  /** With a one-coefficient r, only l[k] reaches coefficient k. */
  lemma ConvSumSingle(reduce: Reducer, l: seq<Element>, r: seq<Element>, k: nat)
    requires |r| == 1 && k < |l|
    ensures ConvSum(reduce, l, r, |l|, k) == Mul(reduce, l[k], r[0])
  {
    ConvSumSkip(reduce, l, r, 0, k, k);
    XorZero(Mul(reduce, l[k], r[0]));
    ConvSumSkip(reduce, l, r, k + 1, |l|, k);
  }

  /** With a two-coefficient r, coefficient j collects l[j - 1] * r[1] and l[j] * r[0]. */
  lemma ConvSumPair(reduce: Reducer, l: seq<Element>, r: seq<Element>, j: nat)
    requires |r| == 2 && 1 <= |l| && j <= |l|
    ensures ConvSum(reduce, l, r, |l|, j) ==
      if j == 0 then Mul(reduce, l[0], r[0])
      else if j == |l| then Mul(reduce, l[j - 1], r[1])
      else Add(Mul(reduce, l[j - 1], r[1]), Mul(reduce, l[j], r[0]))
  {
    var n := |l|;
    if j == 0 {
      XorZero(Mul(reduce, l[0], r[0]));
      ConvSumSkip(reduce, l, r, 1, n, 0);
    } else {
      ConvSumSkip(reduce, l, r, 0, j - 1, j);
      XorZero(Mul(reduce, l[j - 1], r[1]));
      assert ConvSum(reduce, l, r, j, j) == Mul(reduce, l[j - 1], r[1]);
      if j < n {
        assert ConvTerm(reduce, l, r, j, j) == Mul(reduce, l[j], r[0]);
        ConvSumSkip(reduce, l, r, j + 1, n, j);
      }
    }
  }

  /** Multiplying by a constant polynomial is scaling by that constant. */
  lemma ConvByConstant(reduce: Reducer, p: seq<Element>, c: Element)
    requires |p| >= 1
    ensures Conv(reduce, p, [c]) == Scale(reduce, p, c)
  {
    forall k | 0 <= k < |p|
      ensures Conv(reduce, p, [c])[k] == Scale(reduce, p, c)[k]
    {
      ConvSumSingle(reduce, p, [c], k);
    }
  }

  /** Hence the constant polynomial 1 leaves a reduced polynomial as it is. */
  lemma ConvByOne(reduce: Reducer, w: Width, p: seq<Element>)
    requires Reduces(reduce, w) && |p| >= 1
    requires forall i :: 0 <= i < |p| ==> Reduced(w, p[i])
    ensures Conv(reduce, p, [One]) == p
  {
    ConvByConstant(reduce, p, One);
    ScaleByZeroOne(reduce, w, p);
  }

  /** The inner loop of the product adds l[i] * r[j] into coefficient i + j. */
  lemma ConvSumStep(reduce: Reducer, l: seq<Element>, r: seq<Element>, i: nat, j: nat)
    requires i < |l| && j < |r|
    ensures ConvSum(reduce, l, r, i + 1, i + j) == Add(ConvSum(reduce, l, r, i, i + j), Mul(reduce, l[i], r[j]))
  {
    assert ConvTerm(reduce, l, r, i, i + j) == Mul(reduce, l[i], r[j]);
  }

  /** Coefficients l[i] does not reach are left as they were. */
  lemma ConvSumOutside(reduce: Reducer, l: seq<Element>, r: seq<Element>, i: nat, k: nat)
    requires i < |l| && !(i <= k < i + |r|)
    ensures ConvSum(reduce, l, r, i + 1, k) == ConvSum(reduce, l, r, i, k)
  {
    XorZero(ConvSum(reduce, l, r, i, k));
  }

  // ---------------------------------------------------------------------------
  // The operators.

  /** operator+ on vectors: fails on different lengths, otherwise the
      elementwise sum. */
  method VectorAdd(lhs: seq<Element>, rhs: seq<Element>) returns (r: Result<seq<Element>>)
    ensures r.Err? <==> |lhs| != |rhs|
    ensures r.Err? ==> r.error == SizeMismatch
    ensures r.Ok? ==> r.value == Plus(lhs, rhs)
  {
    if |lhs| != |rhs| {
      return Err(SizeMismatch);
    }
    var result := new Element[|lhs|](i requires 0 <= i < |lhs| => lhs[i]);
    var i := 0;
    while i < |lhs|
      invariant 0 <= i <= |lhs|
      invariant forall j :: 0 <= j < i ==> result[j] == Add(lhs[j], rhs[j])
      invariant forall j :: i <= j < |lhs| ==> result[j] == lhs[j]
    {
      result[i] := Add(result[i], rhs[i]);
      i := i + 1;
    }
    return Ok(result[..]);
  }

  /** operator+= on vectors: fails leaving `lhs` untouched on different lengths,
      otherwise adds `rhs` into `lhs` in place. */
  method AddAssign(lhs: array<Element>, rhs: seq<Element>) returns (r: Result<()>)
    modifies lhs
    ensures r.Err? <==> lhs.Length != |rhs|
    ensures r.Err? ==> r.error == SizeMismatch && lhs[..] == old(lhs[..])
    ensures r.Ok? ==> lhs[..] == Plus(old(lhs[..]), rhs)
  {
    if lhs.Length != |rhs| {
      return Err(SizeMismatch);
    }
    var i := 0;
    while i < lhs.Length
      invariant 0 <= i <= lhs.Length
      invariant forall j :: 0 <= j < i ==> lhs[j] == Add(old(lhs[j]), rhs[j])
      invariant forall j :: i <= j < lhs.Length ==> lhs[j] == old(lhs[j])
    {
      lhs[i] := Add(lhs[i], rhs[i]);
      i := i + 1;
    }
    return Ok(());
  }

  /** operator* of a vector and a scalar. */
  method ScalarMul(reduce: Reducer, lhs: seq<Element>, rhs: Element) returns (result: seq<Element>)
    ensures result == Scale(reduce, lhs, rhs)
  {
    var buf := new Element[|lhs|](i requires 0 <= i < |lhs| => lhs[i]);
    var i := 0;
    while i < |lhs|
      invariant 0 <= i <= |lhs|
      invariant forall j :: 0 <= j < i ==> buf[j] == Mul(reduce, lhs[j], rhs)
      invariant forall j :: i <= j < |lhs| ==> buf[j] == lhs[j]
    {
      buf[i] := Mul(reduce, buf[i], rhs);
      i := i + 1;
    }
    result := buf[..];
  }

  /** dot_product: fails on different lengths; otherwise accumulates the
      unreduced carry-less products and reduces once, which is the sum of the
      reduced products. */
  method DotProduct(ghost w: Width, reduce: Reducer, lhs: seq<Element>, rhs: seq<Element>) returns (r: Result<Element>)
    requires Reduces(reduce, w)
    ensures r.Err? <==> |lhs| != |rhs|
    ensures r.Err? ==> r.error == SizeMismatch
    ensures r.Ok? ==> r.value == InnerProduct(reduce, lhs, rhs, |lhs|)
  {
    if |lhs| != |rhs| {
      return Err(SizeMismatch);
    }
    var accum: Wide := Zeros(128);
    var i := 0;
    while i < |lhs|
      invariant 0 <= i <= |lhs|
      invariant accum == WideSum(lhs, rhs, i)
    {
      accum := Xor(accum, Clmul(lhs[i], rhs[i]));
      i := i + 1;
    }
    LazyReductionIsExact(reduce, w, lhs, rhs, |lhs|);
    return Ok(reduce(accum));
  }

  /** The inner loop of the product: result[i + j] += lhs[i] * rhs[j] for every j,
      which adds the contributions of lhs[i] to every coefficient. */
  method AddRow(reduce: Reducer, result: array<Element>, lhs: seq<Element>, rhs: seq<Element>, i: nat)
    requires i < |lhs| && result.Length == |lhs| + |rhs| - 1
    requires forall k :: 0 <= k < result.Length ==> result[k] == ConvSum(reduce, lhs, rhs, i, k)
    modifies result
    ensures forall k :: 0 <= k < result.Length ==> result[k] == ConvSum(reduce, lhs, rhs, i + 1, k)
  {
    var j := 0;
    while j < |rhs|
      invariant 0 <= j <= |rhs|
      invariant forall k :: i <= k < i + j ==> result[k] == ConvSum(reduce, lhs, rhs, i + 1, k)
      invariant forall k :: 0 <= k < result.Length && !(i <= k < i + j) ==> result[k] == ConvSum(reduce, lhs, rhs, i, k)
    {
      ConvSumStep(reduce, lhs, rhs, i, j);
      result[i + j] := Add(result[i + j], Mul(reduce, lhs[i], rhs[j]));
      j := j + 1;
    }
    forall k | 0 <= k < result.Length && !(i <= k < i + |rhs|)
      ensures result[k] == ConvSum(reduce, lhs, rhs, i + 1, k)
    {
      ConvSumOutside(reduce, lhs, rhs, i, k);
    }
  }

  /** operator* of two vectors, the naive polynomial product. The result length
      |lhs| + |rhs| - 1 wraps around when both are empty, and allocating it fails. */
  method PolyMul(reduce: Reducer, lhs: seq<Element>, rhs: seq<Element>) returns (r: Result<seq<Element>>)
    ensures r.Err? <==> |lhs| == 0 && |rhs| == 0
    ensures r.Err? ==> r.error == LengthError
    ensures r.Ok? ==> r.value == Conv(reduce, lhs, rhs)
  {
    if |lhs| + |rhs| == 0 {
      return Err(LengthError);
    }
    var n := |lhs| + |rhs| - 1;
    var result := new Element[n](_ => Zero);
    var i := 0;
    while i < |lhs|
      invariant 0 <= i <= |lhs|
      invariant forall k :: 0 <= k < n ==> result[k] == ConvSum(reduce, lhs, rhs, i, k)
    {
      AddRow(reduce, result, lhs, rhs, i);
      i := i + 1;
    }
    return Ok(result[..]);
  }
}
