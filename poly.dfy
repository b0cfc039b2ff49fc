/** The polynomial members of field.cpp: polynomials are coefficient vectors,
    lowest degree first. The powers of y used as evaluation points
    (field.cpp:220-230), building a polynomial from its roots
    (field.cpp:275-292) and Horner evaluation (field.cpp:294-304). The Lagrange
    basis and interpolation are in module Lagrange. */
module Polynomials {
  import opened Bits
  import opened GF2E
  import opened Vectors

  // ---------------------------------------------------------------------------
  // build_from_roots (field.cpp:275-292)

  /** One outer step of build_from_roots: `c` holds the coefficients below the
      leading 1 of a monic polynomial of degree |c|; the result holds those of
      its product with X + t. The leading 1 times t is written as t itself. */
  function ExtendLow(reduce: Reducer, c: seq<Element>, t: Element): (d: seq<Element>)
    ensures |d| == |c| + 1
  {
    seq<Element>(|c| + 1, i requires 0 <= i <= |c| => StepCoefficient(reduce, c, t, i))
  }

  /** Coefficient i of one step of build_from_roots. */
  function StepCoefficient(reduce: Reducer, c: seq<Element>, t: Element, i: nat): Element
    requires i <= |c|
  {
    if i == |c| then (if i == 0 then t else Add(t, c[i - 1]))
    else if i == 0 then Mul(reduce, c[0], t)
    else Add(Mul(reduce, c[i], t), c[i - 1])
  }

  /** The coefficients below the leading 1 of the product of X + r over the roots r. */
  function MonicLow(reduce: Reducer, roots: seq<Element>): (c: seq<Element>)
    ensures |c| == |roots|
    decreases |roots|
  {
    if |roots| == 0 then []
    else ExtendLow(reduce, MonicLow(reduce, roots[..|roots| - 1]), roots[|roots| - 1])
  }

  /** The same product as an independent reference: repeated polynomial
      multiplication by the linear factors [r, 1]. */
  function ProductOfLinears(reduce: Reducer, roots: seq<Element>): (p: seq<Element>)
    ensures |p| == |roots| + 1
    decreases |roots|
  {
    if |roots| == 0 then [One]
    else Conv(reduce, ProductOfLinears(reduce, roots[..|roots| - 1]), [roots[|roots| - 1], One])
  }

  /** All coefficients of `p` are reduced. */
  predicate AllReduced(w: Width, p: seq<Element>) {
    forall i :: 0 <= i < |p| ==> Reduced(w, p[i])
  }

  /** Coefficient j of the step, in the shape of a product with [t, 1]. */
  lemma ExtendLowCoefficient(reduce: Reducer, w: Width, c: seq<Element>, t: Element, j: nat)
    requires Reduces(reduce, w) && AllReduced(w, c) && Reduced(w, t) && j < |c| + 2
    ensures var p, r := c + [One], [t, One];
      (ExtendLow(reduce, c, t) + [One])[j] ==
        if j == 0 then Mul(reduce, p[0], r[0])
        else if j == |p| then Mul(reduce, p[j - 1], r[1])
        else Add(Mul(reduce, p[j - 1], r[1]), Mul(reduce, p[j], r[0]))
  {
    var p := c + [One];
    var k := |c|;
    if j == k + 1 {
      MulOne(reduce, w, One);
    } else if j == 0 {
      if k == 0 {
        MulOne(reduce, w, t);
      }
    } else {
      var m := Mul(reduce, p[j], t);
      if j == k {
        MulOne(reduce, w, t);
      }
      MulOne(reduce, w, c[j - 1]);
      AddIsCharacteristicTwo(m, c[j - 1], Zero);
    }
  }

  /** Coefficient j of the step agrees with coefficient j of the product. */
  lemma ExtendLowAt(reduce: Reducer, w: Width, c: seq<Element>, t: Element, j: nat)
    requires Reduces(reduce, w) && AllReduced(w, c) && Reduced(w, t) && j < |c| + 2
    ensures (ExtendLow(reduce, c, t) + [One])[j] == ConvSum(reduce, c + [One], [t, One], |c| + 1, j)
  {
    ConvSumPair(reduce, c + [One], [t, One], j);
    ExtendLowCoefficient(reduce, w, c, t, j);
  }

  /** The step of build_from_roots is multiplication by X + t, provided the
      coefficients and t are reduced (so that 1 * t == t). */
  lemma ExtendLowIsProduct(reduce: Reducer, w: Width, c: seq<Element>, t: Element)
    requires Reduces(reduce, w) && AllReduced(w, c) && Reduced(w, t)
    ensures ExtendLow(reduce, c, t) + [One] == Conv(reduce, c + [One], [t, One])
  {
    var d, q := ExtendLow(reduce, c, t) + [One], Conv(reduce, c + [One], [t, One]);
    forall j | 0 <= j < |q|
      ensures d[j] == q[j]
    {
      ExtendLowAt(reduce, w, c, t, j);
    }
  }

  /** The coefficients built from reduced roots are reduced. */
  lemma {:induction false} MonicLowReduced(reduce: Reducer, w: Width, roots: seq<Element>)
    requires Reduces(reduce, w) && AllReduced(w, roots)
    ensures AllReduced(w, MonicLow(reduce, roots))
    decreases |roots|
  {
    if |roots| > 0 {
      var init, t := roots[..|roots| - 1], roots[|roots| - 1];
      MonicLowReduced(reduce, w, init);
      var c := MonicLow(reduce, init);
      forall i | 0 <= i <= |c|
        ensures Reduced(w, ExtendLow(reduce, c, t)[i])
      {
        if i < |c| {
          MulKeepsReduced(reduce, w, c[i], t);
        }
        if i > 0 {
          if i < |c| {
            AddKeepsReduced(w, Mul(reduce, c[i], t), c[i - 1]);
          } else {
            AddKeepsReduced(w, t, c[i - 1]);
          }
        }
      }
    }
  }

  /** What build_from_roots returns is the product of the linear factors X + r. */
  lemma {:induction false} FromRootsIsProduct(reduce: Reducer, w: Width, roots: seq<Element>)
    requires Reduces(reduce, w) && AllReduced(w, roots)
    ensures MonicLow(reduce, roots) + [One] == ProductOfLinears(reduce, roots)
    decreases |roots|
  {
    if |roots| > 0 {
      var init, t := roots[..|roots| - 1], roots[|roots| - 1];
      FromRootsIsProduct(reduce, w, init);
      MonicLowReduced(reduce, w, init);
      ExtendLowIsProduct(reduce, w, MonicLow(reduce, init), t);
    }
  }

  /** One pass of the outer loop of build_from_roots: with the low coefficients
      of the polynomial so far in poly[..k] and the next root in poly[k], the
      inner loop runs from the top down so that poly[i - 1] is still the old
      coefficient when poly[i] is updated. */
  method MulByLinear(reduce: Reducer, poly: seq<Element>, k: nat) returns (next: seq<Element>)
    requires 1 <= k < |poly|
    ensures |next| == |poly|
    ensures next[..k + 1] == ExtendLow(reduce, poly[..k], poly[k])
    ensures next[k + 1..] == poly[k + 1..]
  {
    ghost var c := poly[..k];
    var tmp := poly[k];
    ghost var d := ExtendLow(reduce, c, tmp);
    next := poly[k := Add(tmp, poly[k - 1])];
    var i := k - 1;
    while i >= 1
      invariant 0 <= i <= k - 1 && |next| == |poly|
      invariant forall j :: 0 <= j <= i ==> next[j] == c[j]
      invariant forall j :: i < j <= k ==> next[j] == d[j]
      invariant next[k + 1..] == poly[k + 1..]
    {
      next := next[i := Add(Mul(reduce, next[i], tmp), next[i - 1])];
      i := i - 1;
    }
    next := next[0 := Mul(reduce, next[0], tmp)];
    assert next[..k + 1] == d;
  }

  /** build_from_roots: the coefficients, lowest first, of the monic polynomial
      whose low coefficients MonicLow describes. */
  method BuildFromRoots(reduce: Reducer, roots: seq<Element>) returns (poly: seq<Element>)
    ensures poly == MonicLow(reduce, roots) + [One]
  {
    var len := |roots|;
    poly := roots + [Zero];
    if len > 0 {
      assert poly[..1] == ExtendLow(reduce, [], roots[0]);
      assert roots[..1][..0] == [];
    }
    var k := 1;
    while k < len
      invariant |poly| == len + 1
      invariant len > 0 ==> 1 <= k <= len
      invariant len > 0 ==> poly[..k] == MonicLow(reduce, roots[..k]) && poly[k..len] == roots[k..]
    {
      ghost var prev := poly;
      assert prev[k] == roots[k];
      poly := MulByLinear(reduce, poly, k);
      assert roots[..k + 1][..k] == roots[..k];
      assert poly[k + 1..len] == poly[k + 1..][..len - k - 1] == prev[k + 1..][..len - k - 1] == prev[k + 1..len];
      assert prev[k + 1..len] == prev[k..len][1..] == roots[k..][1..] == roots[k + 1..];
      k := k + 1;
    }
    poly := poly[len := One];
    assert roots[..len] == roots;
    assert poly == poly[..len] + [One];
  }

  // ---------------------------------------------------------------------------
  // eval (field.cpp:294-304)

  /** Horner's rule from the top coefficient down, starting from 0:
      p[0] + x * (p[1] + x * (...)), each product taken as acc * x. */
  function Horner(reduce: Reducer, p: seq<Element>, x: Element): Element
    decreases |p|
  {
    if |p| == 0 then Zero else Add(Mul(reduce, Horner(reduce, p[1..], x), x), p[0])
  }

  /** eval: the loop from the last coefficient down to the first. */
  method Eval(reduce: Reducer, poly: seq<Element>, point: Element) returns (acc: Element)
    ensures acc == Horner(reduce, poly, point)
  {
    acc := Zero;
    var i: int := |poly| - 1;
    while i >= 0
      invariant -1 <= i < |poly|
      invariant acc == Horner(reduce, poly[i + 1..], point)
    {
      assert poly[i..][1..] == poly[i + 1..];
      acc := Mul(reduce, acc, point);
      acc := Add(acc, poly[i]);
      i := i - 1;
    }
  }

  /** The empty polynomial is 0, a constant evaluates to itself, and every
      polynomial evaluates to its constant coefficient at 0. */
  lemma HornerBase(reduce: Reducer, w: Width, p: seq<Element>, x: Element)
    requires Reduces(reduce, w)
    ensures Horner(reduce, [], x) == Zero
    ensures |p| == 1 ==> Horner(reduce, p, x) == p[0]
    ensures |p| > 0 ==> Horner(reduce, p, Zero) == p[0]
    ensures |p| == 2 ==> Horner(reduce, p, x) == Add(p[0], Mul(reduce, p[1], x))
  {
    if |p| > 0 {
      AddIsCharacteristicTwo(p[0], Zero, Zero);
      AddIsCharacteristicTwo(Zero, p[0], Zero);
      MulZero(reduce, w, Horner(reduce, p[1..], Zero));
      if |p| == 1 {
        assert p[1..] == [];
        MulZero(reduce, w, x);
      }
      if |p| == 2 {
        var q := p[1..];
        assert q[1..] == [];
        MulZero(reduce, w, x);
        AddIsCharacteristicTwo(q[0], Zero, Zero);
        AddIsCharacteristicTwo(Zero, q[0], Zero);
        AddIsCharacteristicTwo(Mul(reduce, q[0], x), p[0], Zero);
      }
    }
  }

  /** A value is reduced when the constant coefficient is. */
  lemma HornerReduced(reduce: Reducer, w: Width, p: seq<Element>, x: Element)
    requires Reduces(reduce, w) && (|p| > 0 ==> Reduced(w, p[0]))
    ensures Reduced(w, Horner(reduce, p, x))
  {
    if |p| > 0 {
      MulKeepsReduced(reduce, w, Horner(reduce, p[1..], x), x);
      AddKeepsReduced(w, Mul(reduce, Horner(reduce, p[1..], x), x), p[0]);
    }
  }

  /** Evaluation is linear in the polynomial. */
  lemma {:induction false} HornerAdditive(reduce: Reducer, w: Width, p: seq<Element>, q: seq<Element>, x: Element)
    requires Reduces(reduce, w) && |p| == |q|
    ensures Horner(reduce, Plus(p, q), x) == Add(Horner(reduce, p, x), Horner(reduce, q, x))
    decreases |p|
  {
    if |p| == 0 {
      AddIsCharacteristicTwo(Zero, Zero, Zero);
    } else {
      var s := Plus(p, q);
      assert s[1..] == Plus(p[1..], q[1..]);
      HornerAdditive(reduce, w, p[1..], q[1..], x);
      var hp, hq := Horner(reduce, p[1..], x), Horner(reduce, q[1..], x);
      MulDistributes(reduce, w, hp, hq, x);
      XorSwapMiddle(Mul(reduce, hp, x), Mul(reduce, hq, x), p[0], q[0]);
    }
  }

  /** A zero top coefficient does not change the value. */
  lemma {:induction false} HornerTrailingZero(reduce: Reducer, w: Width, p: seq<Element>, x: Element)
    requires Reduces(reduce, w)
    ensures Horner(reduce, p + [Zero], x) == Horner(reduce, p, x)
    decreases |p|
  {
    if |p| == 0 {
      HornerBase(reduce, w, [Zero], x);
    } else {
      assert (p + [Zero])[1..] == p[1..] + [Zero];
      HornerTrailingZero(reduce, w, p[1..], x);
    }
  }

  /** The sum of the coefficients. */
  function CoefficientSum(p: seq<Element>): Element
    decreases |p|
  {
    if |p| == 0 then Zero else Add(p[0], CoefficientSum(p[1..]))
  }

  /** A polynomial with reduced coefficients evaluates at 1 to the sum of its
      coefficients. */
  lemma {:induction false} HornerAtOne(reduce: Reducer, w: Width, p: seq<Element>)
    requires Reduces(reduce, w) && AllReduced(w, p)
    ensures Horner(reduce, p, One) == CoefficientSum(p)
    decreases |p|
  {
    if |p| > 0 {
      var h := Horner(reduce, p[1..], One);
      HornerAtOne(reduce, w, p[1..]);
      HornerReduced(reduce, w, p[1..], One);
      MulOne(reduce, w, h);
      AddIsCharacteristicTwo(h, p[0], Zero);
    }
  }

  /** Every coefficient of the step is the one below it plus t times itself,
      reading the leading coefficient of c + [1] as 1. */
  lemma ExtendLowUniform(reduce: Reducer, w: Width, c: seq<Element>, t: Element, i: nat)
    requires Reduces(reduce, w) && Reduced(w, t) && i <= |c|
    ensures ExtendLow(reduce, c, t)[i] ==
      if i == 0 then Mul(reduce, (c + [One])[0], t)
      else Add(Mul(reduce, (c + [One])[i], t), c[i - 1])
  {
    if i == |c| {
      MulOne(reduce, w, t);
    }
  }

  /** Horner evaluation at t telescopes over the coefficients of a product
      with X + t: when every coefficient d[j] (0 < j < |p|) is p[j] t + p[j - 1]
      and the top one is p's, evaluating d from coefficient i up leaves p[i - 1]. */
  lemma {:induction false} HornerTelescopes(reduce: Reducer, w: Width, p: seq<Element>, d: seq<Element>, t: Element, i: nat)
    requires Reduces(reduce, w) && 1 <= i <= |p| && |d| == |p| + 1 && d[|p|] == p[|p| - 1]
    requires forall j :: 1 <= j < |p| ==> d[j] == Add(Mul(reduce, p[j], t), p[j - 1])
    ensures Horner(reduce, d[i..], t) == p[i - 1]
    decreases |p| - i
  {
    var q := d[i..];
    assert q[1..] == d[i + 1..];
    if i == |p| {
      HornerBase(reduce, w, q, t);
    } else {
      HornerTelescopes(reduce, w, p, d, t, i + 1);
      var m := Mul(reduce, p[i], t);
      AddIsCharacteristicTwo(m, m, p[i - 1]);
      AddIsCharacteristicTwo(p[i - 1], Zero, Zero);
    }
  }

  /** Each outer step of build_from_roots adds its root as a zero: the product
      of a monic polynomial with X + t vanishes at t. */
  lemma ExtendLowVanishes(reduce: Reducer, w: Width, c: seq<Element>, t: Element)
    requires Reduces(reduce, w) && Reduced(w, t)
    ensures Horner(reduce, ExtendLow(reduce, c, t) + [One], t) == Zero
  {
    var d := ExtendLow(reduce, c, t) + [One];
    var p := c + [One];
    forall j | 1 <= j < |p|
      ensures d[j] == Add(Mul(reduce, p[j], t), p[j - 1])
    {
      ExtendLowUniform(reduce, w, c, t, j);
    }
    HornerTelescopes(reduce, w, p, d, t, 1);
    var m := Mul(reduce, p[0], t);
    assert d[0] == m by {
      if |c| == 0 {
        MulOne(reduce, w, t);
      }
    }
    AddIsCharacteristicTwo(m, m, Zero);
  }

  /** Hence the polynomial build_from_roots returns vanishes at its last root. */
  lemma BuildFromRootsVanishes(reduce: Reducer, w: Width, roots: seq<Element>)
    requires Reduces(reduce, w) && |roots| > 0 && Reduced(w, roots[|roots| - 1])
    ensures Horner(reduce, MonicLow(reduce, roots) + [One], roots[|roots| - 1]) == Zero
  {
    ExtendLowVanishes(reduce, w, MonicLow(reduce, roots[..|roots| - 1]), roots[|roots| - 1]);
  }

  // ---------------------------------------------------------------------------
  // get_first_n_field_elements (field.cpp:220-230)

  /** The n evaluation points y, y^2, ..., y^n, each the previous one times y. */
  method FirstNFieldElements(reduce: Reducer, n: nat) returns (r: seq<Element>)
    ensures |r| == n
    ensures forall i :: 0 <= i < n ==> r[i] == Power(reduce, Y, i + 1)
  {
    r := [];
    var gen := Y;
    var i := 0;
    while i < n
      invariant 0 <= i <= n && |r| == i
      invariant gen == Power(reduce, Y, i + 1)
      invariant forall j :: 0 <= j < i ==> r[j] == Power(reduce, Y, j + 1)
    {
      r := r + [gen];
      PowerStep(reduce, Y, i + 1);
      gen := Mul(reduce, gen, Y);
      i := i + 1;
    }
  }

  /** While n stays below the degree of the modulus the points y^1 .. y^n are
      the monomials, reduced and pairwise distinct. */
  lemma FirstNFieldElementsDistinct(reduce: Reducer, w: Width, n: nat)
    requires Reduces(reduce, w) && n < FieldBits(w)
    ensures forall i :: 1 <= i <= n ==> Power(reduce, Y, i) == Monomial(i)
    ensures forall i :: 1 <= i <= n ==> Reduced(w, Power(reduce, Y, i))
    ensures forall i, j :: 1 <= i < j <= n ==> Power(reduce, Y, i) != Power(reduce, Y, j)
  {
    forall i | 1 <= i <= n
      ensures Power(reduce, Y, i) == Monomial(i)
      ensures Reduced(w, Power(reduce, Y, i))
    {
      PowerOfY(reduce, w, i);
      MonomialBelow(i, FieldBits(w));
    }
    forall i, j | 1 <= i < j <= n
      ensures Power(reduce, Y, i) != Power(reduce, Y, j)
    {
      PowersOfYDistinct(reduce, w, i, j);
    }
  }
}
