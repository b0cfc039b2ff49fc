/** Field elements of GF(2^32), GF(2^40) and GF(2^48): the GF2E type of field.cpp.
    An element is the 64-bit word `data`, seen as the coefficient bits of a
    polynomial in y over GF(2); addition is XOR, and multiplication is a carry-less
    product folded back by one of three modulus-specific reductions. */
module GF2E {
  import opened Errors
  import opened Bits

  /** GF2E::data: bit i is the coefficient of y^i. */
  type Element = s: Bits | |s| == 64 witness Zeros(64)

  /** A 128-bit register holding an unreduced carry-less product. */
  type Wide = s: Bits | |s| == 128 witness Zeros(128)

  /** Which of the three extension fields is meant: names the reduction routine
      and the byte size the configuration selects together. */
  datatype Width = W32 | W40 | W48

  function ByteSize(w: Width): (n: nat)
    ensures 4 <= n <= 6
  {
    match w
    case W32 => 4
    case W40 => 5
    case W48 => 6
  }

  /** Degree of the modulus the routine reduces by. */
  function FieldBits(w: Width): (k: nat)
    ensures k == 8 * ByteSize(w)
  {
    match w
    case W32 => 32
    case W40 => 40
    case W48 => 48
  }

  /** The lambda values the configuration accepts, and the routine each selects. */
  function WidthForLambda(n: int): (r: Result<Width>)
    ensures r.Ok? <==> 4 <= n <= 6
    ensures r.Ok? ==> ByteSize(r.value) == n
    ensures r.Err? ==> r.error == UnsupportedLambda
  {
    if n == 4 then Ok(W32)
    else if n == 5 then Ok(W40)
    else if n == 6 then Ok(W48)
    else Err(UnsupportedLambda)
  }

  /** `a` has no coefficient at or above the degree of the modulus. */
  predicate Reduced(w: Width, a: Element) {
    Below(a, FieldBits(w))
  }

  /** The element y^k. */
  function Monomial(k: nat): Element {
    FromExponents(64, {k})
  }

  const Zero: Element := Zeros(64)
  const One: Element := Monomial(0)
  /** GF2E(2), the polynomial y. */
  const Y: Element := Monomial(1)

  // ---------------------------------------------------------------------------
  // Addition and subtraction (field.cpp:82-95): both are XOR.

  function Add(a: Element, b: Element): Element {
    Xor(a, b)
  }

  function Sub(a: Element, b: Element): Element {
    Xor(a, b)
  }

  lemma AddIsCharacteristicTwo(a: Element, b: Element, c: Element)
    ensures Add(a, b) == Add(b, a)
    ensures Add(Add(a, b), c) == Add(a, Add(b, c))
    ensures Add(a, Zero) == a
    ensures Add(a, a) == Zero
    ensures Sub(a, b) == Add(a, b)
  {
    XorComm(a, b);
    XorAssoc(a, b, c);
    XorZero(a);
    XorSelf(a);
  }

  lemma AddKeepsReduced(w: Width, a: Element, b: Element)
    requires Reduced(w, a) && Reduced(w, b)
    ensures Reduced(w, Add(a, b))
  {
  }

  // ---------------------------------------------------------------------------
  // Carry-less multiplication: the PCLMULQDQ instruction of field.cpp:29-31.

  /** The XOR of the copies of `a` shifted to each set bit of `b` (within |a| bits). */
  function ClmulBits(a: Bits, b: Bits): (r: Bits)
    ensures |r| == |a|
    decreases |a| + |b|
  {
    if |b| == 0 then Zeros(|a|)
    else Xor(if b[0] then a else Zeros(|a|), ClmulBits(ShiftLeft(a, 1), b[1..]))
  }

  /** The full 128-bit carry-less product of two 64-bit words. */
  function Clmul(a: Element, b: Element): Wide {
    ClmulBits(Widen(a, 128), b)
  }

  lemma {:induction false} ClmulBitsZeroLeft(a: Bits, b: Bits)
    requires IsZero(a)
    ensures ClmulBits(a, b) == Zeros(|a|)
    decreases |b|
  {
    if |b| > 0 {
      ClmulBitsZeroLeft(ShiftLeft(a, 1), b[1..]);
      XorZero(Zeros(|a|));
    }
  }

  lemma {:induction false} ClmulBitsZeroRight(a: Bits, b: Bits)
    requires IsZero(b)
    ensures ClmulBits(a, b) == Zeros(|a|)
    decreases |b|
  {
    if |b| > 0 {
      ClmulBitsZeroRight(ShiftLeft(a, 1), b[1..]);
      XorZero(Zeros(|a|));
    }
  }

  lemma {:induction false} ClmulBitsLinearLeft(a: Bits, a': Bits, b: Bits)
    requires |a| == |a'|
    ensures ClmulBits(Xor(a, a'), b) == Xor(ClmulBits(a, b), ClmulBits(a', b))
    decreases |b|
  {
    if |b| > 0 {
      var n := |a|;
      ShiftLeftLinear(a, a', 1);
      ClmulBitsLinearLeft(ShiftLeft(a, 1), ShiftLeft(a', 1), b[1..]);
      var t, t' := (if b[0] then a else Zeros(n)), (if b[0] then a' else Zeros(n));
      assert (if b[0] then Xor(a, a') else Zeros(n)) == Xor(t, t');
      XorSwapMiddle(t, t', ClmulBits(ShiftLeft(a, 1), b[1..]), ClmulBits(ShiftLeft(a', 1), b[1..]));
    }
  }

  lemma {:induction false} ClmulBitsLinearRight(a: Bits, b: Bits, b': Bits)
    requires |b| == |b'|
    ensures ClmulBits(a, Xor(b, b')) == Xor(ClmulBits(a, b), ClmulBits(a, b'))
    decreases |b|
  {
    if |b| > 0 {
      var n := |a|;
      assert Xor(b, b')[1..] == Xor(b[1..], b'[1..]);
      ClmulBitsLinearRight(ShiftLeft(a, 1), b[1..], b'[1..]);
      var t, t' := (if b[0] then a else Zeros(n)), (if b'[0] then a else Zeros(n));
      assert (if Xor(b, b')[0] then a else Zeros(n)) == Xor(t, t');
      XorSwapMiddle(t, t', ClmulBits(ShiftLeft(a, 1), b[1..]), ClmulBits(ShiftLeft(a, 1), b'[1..]));
    }
  }

  /** Shifting the first operand shifts the product. */
  lemma {:induction false} ClmulBitsShift(a: Bits, b: Bits)
    ensures ClmulBits(ShiftLeft(a, 1), b) == ShiftLeft(ClmulBits(a, b), 1)
    decreases |b|
  {
    if |b| > 0 {
      var n := |a|;
      ClmulBitsShift(ShiftLeft(a, 1), b[1..]);
      var t := if b[0] then a else Zeros(n);
      assert (if b[0] then ShiftLeft(a, 1) else Zeros(n)) == ShiftLeft(t, 1);
      ShiftLeftLinear(t, ClmulBits(ShiftLeft(a, 1), b[1..]), 1);
    }
  }

  /** The product of the unit polynomial with `b` is `b` itself. */
  lemma {:induction false} ClmulBitsUnit(n: nat, b: Bits)
    requires |b| <= n
    ensures ClmulBits(FromExponents(n, {0}), b) == Widen(b, n)
    decreases |b|
  {
    var e := FromExponents(n, {0});
    if |b| > 0 {
      ClmulBitsShift(e, b[1..]);
      ClmulBitsUnit(n, b[1..]);
      var t := if b[0] then e else Zeros(n);
      assert Xor(t, ShiftLeft(Widen(b[1..], n), 1)) == Widen(b, n);
    }
  }

  /** Multiplying by y^k shifts the first operand up k places. */
  lemma {:induction false} ClmulBitsMonomial(a: Bits, n: nat, k: nat)
    requires k < n
    ensures ClmulBits(a, FromExponents(n, {k})) == ShiftLeft(a, k)
    decreases n
  {
    var b := FromExponents(n, {k});
    if k == 0 {
      ClmulBitsZeroRight(ShiftLeft(a, 1), b[1..]);
      XorZero(a);
      assert ShiftLeft(a, 0) == a;
    } else {
      assert b[1..] == FromExponents(n - 1, {k - 1});
      ClmulBitsMonomial(ShiftLeft(a, 1), n - 1, k - 1);
      assert ShiftLeft(ShiftLeft(a, 1), k - 1) == ShiftLeft(a, k);
      XorZero(ShiftLeft(a, k));
    }
  }

  /** The product with a modulus y^d + y^c + y^b + y^a + 1 is the sum of the
      copies of the first operand shifted to each of its terms. */
  lemma ClmulByPentanomial(x: Element, d: nat, c: nat, b: nat, a: nat)
    requires 0 < a < b < c < d < 64
    ensures var X := Widen(x, 128);
      Clmul(x, FromExponents(64, {d, c, b, a, 0}))
        == Xor(ShiftLeft(X, d), Xor(ShiftLeft(X, c), Xor(ShiftLeft(X, b), Xor(ShiftLeft(X, a), X))))
  {
    var X := Widen(x, 128);
    var md, mc, mb, ma, m0 := Monomial(d), Monomial(c), Monomial(b), Monomial(a), Monomial(0);
    assert FromExponents(64, {d, c, b, a, 0}) == Xor(md, Xor(mc, Xor(mb, Xor(ma, m0))));
    ClmulLinear(md, Xor(mc, Xor(mb, Xor(ma, m0))), x);
    ClmulLinear(mc, Xor(mb, Xor(ma, m0)), x);
    ClmulLinear(mb, Xor(ma, m0), x);
    ClmulLinear(ma, m0, x);
    ClmulBitsMonomial(X, 64, d);
    ClmulBitsMonomial(X, 64, c);
    ClmulBitsMonomial(X, 64, b);
    ClmulBitsMonomial(X, 64, a);
    ClmulBitsMonomial(X, 64, 0);
  }

  /** The product of two monomials is the monomial of the summed degree. */
  lemma ClmulMonomials(i: nat, j: nat)
    requires i < 64 && j < 64
    ensures Clmul(Monomial(i), Monomial(j)) == FromExponents(128, {i + j})
  {
    ClmulBitsMonomial(Widen(Monomial(i), 128), 64, j);
  }

  lemma ClmulZero(a: Element)
    ensures Clmul(a, Zero) == Zeros(128) && Clmul(Zero, a) == Zeros(128)
  {
    ClmulBitsZeroRight(Widen(a, 128), Zero);
    ClmulBitsZeroLeft(Widen(Zero, 128), a);
  }

  lemma ClmulOne(a: Element)
    ensures Clmul(a, One) == Widen(a, 128) && Clmul(One, a) == Widen(a, 128)
  {
    ClmulBitsZeroRight(ShiftLeft(Widen(a, 128), 1), One[1..]);
    XorZero(Widen(a, 128));
    assert Widen(One, 128) == FromExponents(128, {0});
    ClmulBitsUnit(128, a);
  }

  lemma ClmulByY(a: Element)
    ensures Clmul(a, Y) == ShiftLeft(Widen(a, 128), 1)
  {
    var s := ShiftLeft(Widen(a, 128), 1);
    ClmulBitsZeroRight(ShiftLeft(s, 1), Y[2..]);
    XorZero(s);
    XorZero(Zeros(128));
    assert Y[1..][1..] == Y[2..];
    assert !Y[0] && Y[1..][0];
    assert ClmulBits(s, Y[1..]) == Xor(s, ClmulBits(ShiftLeft(s, 1), Y[2..]));
    assert ClmulBits(Widen(a, 128), Y) == Xor(Zeros(128), ClmulBits(s, Y[1..]));
  }

  lemma ClmulLinear(a: Element, a': Element, b: Element)
    ensures Clmul(Xor(a, a'), b) == Xor(Clmul(a, b), Clmul(a', b))
    ensures Clmul(b, Xor(a, a')) == Xor(Clmul(b, a), Clmul(b, a'))
  {
    WidenLinear(a, a', 128);
    ClmulBitsLinearLeft(Widen(a, 128), Widen(a', 128), b);
    ClmulBitsLinearRight(Widen(b, 128), a, a');
  }

  /** The step that makes the product symmetric: with x the rest of a twice
      shifted product, peeling the lowest bit of each operand in either order
      gives the same word. */
  lemma PeelBothOrders(a: Bits, b: Bits, n: nat, x: Bits)
    requires 0 < |a| <= n && 0 < |b| <= n && |x| == n
    ensures
      var A, A', B, B' := Widen(a, n), Widen(a[1..], n), Widen(b, n), Widen(b[1..], n);
      Xor(if b[0] then A else Zeros(n), ShiftLeft(Xor(if a[0] then B' else Zeros(n), ShiftLeft(x, 1)), 1))
      == Xor(if a[0] then B else Zeros(n), ShiftLeft(Xor(if b[0] then A' else Zeros(n), ShiftLeft(x, 1)), 1))
  {
    var A, A', B, B' := Widen(a, n), Widen(a[1..], n), Widen(b, n), Widen(b[1..], n);
    var sx := ShiftLeft(x, 1);
    var P, Q := (if b[0] then A else Zeros(n)), (if a[0] then B else Zeros(n));
    var P', Q' := (if b[0] then A' else Zeros(n)), (if a[0] then B' else Zeros(n));
    var U, V := Xor(Q', sx), Xor(P', sx);
    var L, R := Xor(P, ShiftLeft(U, 1)), Xor(Q, ShiftLeft(V, 1));
    forall i | 0 <= i < n
      ensures L[i] == R[i]
    {
      if i > 0 {
        assert P[i] == P'[i - 1];
        assert Q[i] == Q'[i - 1];
      }
    }
  }

  /** Carry-less multiplication truncated to n bits is commutative. */
  lemma {:induction false} ClmulBitsComm(a: Bits, b: Bits, n: nat)
    requires |a| <= n && |b| <= n
    ensures ClmulBits(Widen(a, n), b) == ClmulBits(Widen(b, n), a)
    decreases |a| + |b|
  {
    var A, B := Widen(a, n), Widen(b, n);
    if |b| == 0 {
      ClmulBitsZeroLeft(B, a);
    } else if |a| == 0 {
      ClmulBitsZeroLeft(A, b);
    } else {
      var a', b' := a[1..], b[1..];
      var A', B' := Widen(a', n), Widen(b', n);
      var x := ClmulBits(A', b');
      calc {
        ClmulBits(A, b);
        Xor(if b[0] then A else Zeros(n), ClmulBits(ShiftLeft(A, 1), b'));
        { ClmulBitsShift(A, b'); ClmulBitsComm(a, b', n); }
        Xor(if b[0] then A else Zeros(n), ShiftLeft(ClmulBits(B', a), 1));
        { ClmulBitsShift(B', a'); ClmulBitsComm(b', a', n); }
        Xor(if b[0] then A else Zeros(n), ShiftLeft(Xor(if a[0] then B' else Zeros(n), ShiftLeft(x, 1)), 1));
        { PeelBothOrders(a, b, n, x); }
        Xor(if a[0] then B else Zeros(n), ShiftLeft(Xor(if b[0] then A' else Zeros(n), ShiftLeft(x, 1)), 1));
        { ClmulBitsShift(A', b'); ClmulBitsComm(a', b, n); }
        Xor(if a[0] then B else Zeros(n), ShiftLeft(ClmulBits(A', b), 1));
        { ClmulBitsShift(B, a'); ClmulBitsComm(a', b, n); }
        ClmulBits(B, a);
      }
    }
  }

  lemma ClmulComm(a: Element, b: Element)
    ensures Clmul(a, b) == Clmul(b, a)
  {
    ClmulBitsComm(a, b, 128);
  }

  // ---------------------------------------------------------------------------
  // Reduction (field.cpp:33-71). Each routine folds a 128-bit product back into
  // one word by two carry-less multiplications with the modulus, which these
  // routines also use as the Barrett constant mu.

  /** `_mm_extract_epi64(x, 0)` */
  function Low(x: Wide): Element {
    x[..64]
  }

  /** `_mm_extract_epi64(x, 1)` */
  function High(x: Wide): Element {
    x[64..]
  }

  /** `((hi & upper_mask) << s) | (lo >> (64 - s))` with upper_mask = 2^m - 1:
      bits 64 - s and up of the 128-bit value hi:lo, moved down to bit 0. */
  function Splice(hi: Element, lo: Element, m: nat, s: nat): Element
    requires s <= 64
  {
    Or(ShiftLeft(KeepLow(hi, m), s), ShiftRight(lo, 64 - s))
  }

  /** x^32 + x^7 + x^3 + x^2 + 1 */
  const P32: Element := FromExponents(64, {32, 7, 3, 2, 0})
  /** x^40 + x^5 + x^4 + x^3 + 1 */
  const P40: Element := FromExponents(64, {40, 5, 4, 3, 0})
  /** x^48 + x^5 + x^3 + x^2 + 1 */
  const P48: Element := FromExponents(64, {48, 5, 3, 2, 0})

  /** reduce_GF2_32: only the low 64 bits of the input are read. */
  function Reduce32(x: Wide): (r: Element)
    ensures Below(r, 32)
  {
    var R := Low(x);
    var T1 := Low(Clmul(ShiftRight(R, 32), P32));
    var T2 := Low(Clmul(ShiftRight(T1, 32), P32));
    KeepLow(Xor(R, T2), 32)
  }

  /** reduce_GF2_40 as intended: the low word of T1 is shifted as an unsigned
      word. The source extracts it as a signed one; AsWritten.Reduce40Signed
      models that. */
  function Reduce40(x: Wide): (r: Element)
    ensures Below(r, 40)
  {
    var R := Low(x);
    var RRed := Splice(High(x), R, 16, 24);
    var T1 := Clmul(RRed, P40);
    var T1Red := Splice(High(T1), Low(T1), 16, 24);
    var T2 := Low(Clmul(T1Red, P40));
    KeepLow(Xor(R, T2), 40)
  }

  /** reduce_GF2_48 as intended, with the unsigned shift of Reduce40; its final
      mask keeps 56 bits, not 48 (Reduce48Below shows the extra bits are clear).
      AsWritten.Reduce48Signed models the signed shift of the source. */
  function Reduce48(x: Wide): (r: Element)
    ensures Below(r, 56)
  {
    var R := Low(x);
    var RRed := Splice(High(x), R, 32, 16);
    var T1 := Clmul(RRed, P48);
    var T1Red := Splice(High(T1), Low(T1), 32, 16);
    var T2 := Low(Clmul(T1Red, P48));
    KeepLow(Xor(R, T2), 56)
  }

  /** Splicing the two halves of one 128-bit value reads its bits from 64 - s up. */
  lemma SpliceOfHalves(x: Wide, m: nat, s: nat)
    requires s + m <= 64
    ensures forall j :: 0 <= j < 64 ==> Splice(High(x), Low(x), m, s)[j] == (j < s + m && x[64 - s + j])
  {
  }

  /** Bit k of a word, 0 outside it. */
  function Bit(v: Element, k: int): bool {
    0 <= k < 64 && v[k]
  }

  /** Bit i of the product of `v` with y^d + y^c + y^b + y^a + 1. */
  function PentanomialBit(v: Element, d: nat, c: nat, b: nat, a: nat, i: int): bool {
    Bit(v, i - d) != (Bit(v, i - c) != (Bit(v, i - b) != (Bit(v, i - a) != Bit(v, i))))
  }

  lemma ClmulByPentanomialBits(x: Element, d: nat, c: nat, b: nat, a: nat)
    requires 0 < a < b < c < d < 64
    ensures forall i :: 0 <= i < 128 ==> Clmul(x, FromExponents(64, {d, c, b, a, 0}))[i] == PentanomialBit(x, d, c, b, a, i)
  {
    ClmulByPentanomial(x, d, c, b, a);
  }

  /** Bits 48 to 55 of the GF(2^48) routine, on the bits of its intermediate
      words: the second product reproduces the input bit, so the two cancel. */
  lemma Reduce48BitCancels(x: Wide, RRed: Element, T1: Wide, T1Red: Element, T2: Wide, i: nat)
    requires 48 <= i < 56
    requires forall j :: 0 <= j < 64 ==> RRed[j] == (j < 48 && x[48 + j])
    requires forall m :: 0 <= m < 128 ==> T1[m] == PentanomialBit(RRed, 48, 5, 3, 2, m)
    requires forall j :: 0 <= j < 64 ==> T1Red[j] == (j < 48 && T1[48 + j])
    requires forall m :: 0 <= m < 128 ==> T2[m] == PentanomialBit(T1Red, 48, 5, 3, 2, m)
    ensures T2[i] == x[i]
  {
    var a, b, c := i - 2 < 48 && x[i + 46], i - 3 < 48 && x[i + 45], i - 5 < 48 && x[i + 43];
    assert T1[i + 46] == a;
    assert T1[i + 45] == b;
    assert T1[i + 43] == c;
    assert T1[i] == (x[i] != (c != (b != a)));
    assert T2[i] == (T1[i] != (c != (b != a)));
  }

  /** The GF(2^48) routine always returns a field element: the bits 48 to 55
      that its 56-bit mask lets through cancel out. */
  lemma Reduce48Below(x: Wide)
    ensures Below(Reduce48(x), 48)
  {
    var RRed := Splice(High(x), Low(x), 32, 16);
    SpliceOfHalves(x, 32, 16);
    var T1 := Clmul(RRed, P48);
    ClmulByPentanomialBits(RRed, 48, 5, 3, 2);
    var T1Red := Splice(High(T1), Low(T1), 32, 16);
    SpliceOfHalves(T1, 32, 16);
    var T2 := Clmul(T1Red, P48);
    ClmulByPentanomialBits(T1Red, 48, 5, 3, 2);
    forall i | 48 <= i < 56
      ensures T2[i] == x[i]
    {
      Reduce48BitCancels(x, RRed, T1, T1Red, T2, i);
    }
  }

  /** GF2E::reduce, dispatched on the configured width instead of through a
      pointer. Whatever the input, the result is a field element. */
  function Reduce(w: Width, x: Wide): (r: Element)
    ensures Reduced(w, r)
  {
    match w
    case W32 => Reduce32(x)
    case W40 => Reduce40(x)
    case W48 => Reduce48Below(x); Reduce48(x)
  }

  /** The type of the static member GF2E::reduce, std::function<uint64_t(__m128i)>. */
  type Reducer = Wide -> Element

  /** The routine init_extension_field stores in GF2E::reduce for each width:
      the reduction above, applied at that width. */
  function RoutineFor(w: Width): (reduce: Reducer)
    ensures Reduces(reduce, w)
  {
    x => Reduce(w, x)
  }

  /** `reduce` behaves as the reduction routine of width `w`. The trigger keeps
      calls of `reduce` from unfolding into the routine unless a proof asks. */
  ghost predicate Reduces(reduce: Reducer, w: Width) {
    forall x: Wide {:trigger Reduce(w, x)} :: reduce(x) == Reduce(w, x)
  }

  /** GF2E::operator* and operator*= (field.cpp:96-102), through whichever
      routine GF2E::reduce holds. */
  function Mul(reduce: Reducer, a: Element, b: Element): Element {
    reduce(Clmul(a, b))
  }

  // ---------------------------------------------------------------------------
  // Every step of a reduction is a shift, a mask, an extraction, or a carry-less
  // product with a constant, so each routine is linear over XOR.

  lemma LowHighLinear(x: Wide, y: Wide)
    ensures Low(Xor(x, y)) == Xor(Low(x), Low(y))
    ensures High(Xor(x, y)) == Xor(High(x), High(y))
  {
    SliceLinear(x, y, 0, 64);
    SliceLinear(x, y, 64, 128);
  }

  lemma SpliceLinear(h: Element, h': Element, l: Element, l': Element, m: nat, s: nat)
    requires s <= 64
    ensures Splice(Xor(h, h'), Xor(l, l'), m, s) == Xor(Splice(h, l, m, s), Splice(h', l', m, s))
  {
    forall u: Element, v: Element ensures Splice(u, v, m, s) == Xor(ShiftLeft(KeepLow(u, m), s), ShiftRight(v, 64 - s)) {
      OrDisjointIsXor(ShiftLeft(KeepLow(u, m), s), ShiftRight(v, 64 - s));
    }
    KeepLowLinear(h, h', m);
    ShiftLeftLinear(KeepLow(h, m), KeepLow(h', m), s);
    ShiftRightLinear(l, l', 64 - s);
    XorSwapMiddle(ShiftLeft(KeepLow(h, m), s), ShiftLeft(KeepLow(h', m), s), ShiftRight(l, 64 - s), ShiftRight(l', 64 - s));
  }

  lemma Reduce32Linear(x: Wide, y: Wide)
    ensures Reduce32(Xor(x, y)) == Xor(Reduce32(x), Reduce32(y))
  {
    LowHighLinear(x, y);
    var R, R' := Low(x), Low(y);
    ShiftRightLinear(R, R', 32);
    ClmulLinear(ShiftRight(R, 32), ShiftRight(R', 32), P32);
    var C, C' := Clmul(ShiftRight(R, 32), P32), Clmul(ShiftRight(R', 32), P32);
    LowHighLinear(C, C');
    var T1, T1' := Low(C), Low(C');
    ShiftRightLinear(T1, T1', 32);
    ClmulLinear(ShiftRight(T1, 32), ShiftRight(T1', 32), P32);
    var D, D' := Clmul(ShiftRight(T1, 32), P32), Clmul(ShiftRight(T1', 32), P32);
    LowHighLinear(D, D');
    var T2, T2' := Low(D), Low(D');
    XorSwapMiddle(R, R', T2, T2');
    KeepLowLinear(Xor(R, T2), Xor(R', T2'), 32);
  }

  lemma Reduce40Linear(x: Wide, y: Wide)
    ensures Reduce40(Xor(x, y)) == Xor(Reduce40(x), Reduce40(y))
  {
    LowHighLinear(x, y);
    var R, R' := Low(x), Low(y);
    SpliceLinear(High(x), High(y), R, R', 16, 24);
    var S, S' := Splice(High(x), R, 16, 24), Splice(High(y), R', 16, 24);
    ClmulLinear(S, S', P40);
    var C, C' := Clmul(S, P40), Clmul(S', P40);
    LowHighLinear(C, C');
    SpliceLinear(High(C), High(C'), Low(C), Low(C'), 16, 24);
    var U, U' := Splice(High(C), Low(C), 16, 24), Splice(High(C'), Low(C'), 16, 24);
    ClmulLinear(U, U', P40);
    var D, D' := Clmul(U, P40), Clmul(U', P40);
    LowHighLinear(D, D');
    var T2, T2' := Low(D), Low(D');
    XorSwapMiddle(R, R', T2, T2');
    KeepLowLinear(Xor(R, T2), Xor(R', T2'), 40);
  }

  lemma Reduce48Linear(x: Wide, y: Wide)
    ensures Reduce48(Xor(x, y)) == Xor(Reduce48(x), Reduce48(y))
  {
    LowHighLinear(x, y);
    var R, R' := Low(x), Low(y);
    SpliceLinear(High(x), High(y), R, R', 32, 16);
    var S, S' := Splice(High(x), R, 32, 16), Splice(High(y), R', 32, 16);
    ClmulLinear(S, S', P48);
    var C, C' := Clmul(S, P48), Clmul(S', P48);
    LowHighLinear(C, C');
    SpliceLinear(High(C), High(C'), Low(C), Low(C'), 32, 16);
    var U, U' := Splice(High(C), Low(C), 32, 16), Splice(High(C'), Low(C'), 32, 16);
    ClmulLinear(U, U', P48);
    var D, D' := Clmul(U, P48), Clmul(U', P48);
    LowHighLinear(D, D');
    var T2, T2' := Low(D), Low(D');
    XorSwapMiddle(R, R', T2, T2');
    KeepLowLinear(Xor(R, T2), Xor(R', T2'), 56);
  }

  /** Reducing a sum of products is the sum of the reduced products: the fact
      that makes the single lazy reduction of dot_product exact. */
  lemma ReduceLinear(w: Width, x: Wide, y: Wide)
    ensures Reduce(w, Xor(x, y)) == Xor(Reduce(w, x), Reduce(w, y))
  {
    match w
    case W32 => Reduce32Linear(x, y);
    case W40 => Reduce40Linear(x, y);
    case W48 => Reduce48Linear(x, y);
  }

  lemma ReduceZero(w: Width)
    ensures Reduce(w, Zeros(128)) == Zero
  {
    var z := Zeros(128);
    XorSelf(z);
    ReduceLinear(w, z, z);
    XorSelf(Reduce(w, z));
  }

  lemma WidenHalves(a: Element)
    ensures Low(Widen(a, 128)) == a && High(Widen(a, 128)) == Zero
  {
  }

  lemma ShiftRightBelow(a: Element, k: nat)
    requires Below(a, k)
    ensures ShiftRight(a, k) == Zero
  {
  }

  lemma ClmulZeroHalves(p: Element)
    ensures Low(Clmul(Zero, p)) == Zero && High(Clmul(Zero, p)) == Zero
  {
    ClmulZero(p);
  }

  lemma SpliceZero(lo: Element, m: nat, s: nat)
    requires s <= 64 && Below(lo, 64 - s)
    ensures Splice(Zero, lo, m, s) == Zero
  {
  }

  lemma KeepLowBelow(a: Element, k: nat)
    requires Below(a, k)
    ensures KeepLow(Xor(a, Zero), k) == a
  {
    XorZero(a);
  }

  lemma Reduce32OfSmall(a: Element)
    requires Below(a, 32)
    ensures Reduce32(Widen(a, 128)) == a
  {
    WidenHalves(a);
    ShiftRightBelow(a, 32);
    ClmulZeroHalves(P32);
    ShiftRightBelow(Zero, 32);
    KeepLowBelow(a, 32);
  }

  lemma Reduce40OfSmall(a: Element)
    requires Below(a, 40)
    ensures Reduce40(Widen(a, 128)) == a
  {
    WidenHalves(a);
    SpliceZero(a, 16, 24);
    ClmulZeroHalves(P40);
    SpliceZero(Zero, 16, 24);
    KeepLowBelow(a, 40);
  }

  lemma Reduce48OfSmall(a: Element)
    requires Below(a, 48)
    ensures Reduce48(Widen(a, 128)) == a
  {
    WidenHalves(a);
    SpliceZero(a, 32, 16);
    ClmulZeroHalves(P48);
    SpliceZero(Zero, 32, 16);
    KeepLowBelow(a, 56);
  }

  /** A reduced element passes through its reduction unchanged. */
  lemma ReduceOfReduced(w: Width, a: Element)
    requires Reduced(w, a)
    ensures Reduce(w, Widen(a, 128)) == a
  {
    match w
    case W32 => Reduce32OfSmall(a);
    case W40 => Reduce40OfSmall(a);
    case W48 => Reduce48OfSmall(a);
  }

  // ---------------------------------------------------------------------------
  // Multiplication (field.cpp:96-102).

  /** With `reduce` configured for `w`, a product is the reduced carry-less product. */
  lemma MulByRoutine(reduce: Reducer, w: Width, a: Element, b: Element)
    requires Reduces(reduce, w)
    ensures Mul(reduce, a, b) == Reduce(w, Clmul(a, b))
    ensures Reduced(w, Mul(reduce, a, b))
  {
  }

  /** Whichever routine is configured, reducing is linear and maps zero to zero. */
  lemma RoutineLinear(reduce: Reducer, w: Width, x: Wide, y: Wide)
    requires Reduces(reduce, w)
    ensures reduce(Xor(x, y)) == Xor(reduce(x), reduce(y))
    ensures reduce(Zeros(128)) == Zero
  {
    assert reduce(Xor(x, y)) == Reduce(w, Xor(x, y));
    assert reduce(x) == Reduce(w, x) && reduce(y) == Reduce(w, y);
    assert reduce(Zeros(128)) == Reduce(w, Zeros(128));
    ReduceLinear(w, x, y);
    ReduceZero(w);
  }

  /** Every product is a field element. */
  lemma MulKeepsReduced(reduce: Reducer, w: Width, a: Element, b: Element)
    requires Reduces(reduce, w)
    ensures Reduced(w, Mul(reduce, a, b))
  {
    MulByRoutine(reduce, w, a, b);
  }

  lemma MulZero(reduce: Reducer, w: Width, a: Element)
    requires Reduces(reduce, w)
    ensures Mul(reduce, a, Zero) == Zero && Mul(reduce, Zero, a) == Zero
  {
    MulByRoutine(reduce, w, a, Zero);
    MulByRoutine(reduce, w, Zero, a);
    ClmulZero(a);
    ReduceZero(w);
  }

  /** One is a two-sided identity on reduced elements. */
  lemma MulOne(reduce: Reducer, w: Width, a: Element)
    requires Reduces(reduce, w) && Reduced(w, a)
    ensures Mul(reduce, a, One) == a && Mul(reduce, One, a) == a
  {
    MulByRoutine(reduce, w, a, One);
    MulByRoutine(reduce, w, One, a);
    ClmulOne(a);
    ReduceOfReduced(w, a);
  }

  /** Multiplication distributes over addition on both sides. */
  lemma MulDistributes(reduce: Reducer, w: Width, a: Element, b: Element, c: Element)
    requires Reduces(reduce, w)
    ensures Mul(reduce, Add(a, b), c) == Add(Mul(reduce, a, c), Mul(reduce, b, c))
    ensures Mul(reduce, c, Add(a, b)) == Add(Mul(reduce, c, a), Mul(reduce, c, b))
  {
    MulByRoutine(reduce, w, Add(a, b), c);
    MulByRoutine(reduce, w, a, c);
    MulByRoutine(reduce, w, b, c);
    MulByRoutine(reduce, w, c, Add(a, b));
    MulByRoutine(reduce, w, c, a);
    MulByRoutine(reduce, w, c, b);
    ClmulLinear(a, b, c);
    ReduceLinear(w, Clmul(a, c), Clmul(b, c));
    ReduceLinear(w, Clmul(c, a), Clmul(c, b));
  }

  /** Multiplication is commutative whatever the reduction. */
  lemma MulComm(reduce: Reducer, a: Element, b: Element)
    ensures Mul(reduce, a, b) == Mul(reduce, b, a)
  {
    ClmulComm(a, b);
  }

  lemma ShiftLeftWiden(a: Element)
    requires Below(a, 63)
    ensures ShiftLeft(Widen(a, 128), 1) == Widen(ShiftLeft(a, 1), 128)
  {
  }

  /** Multiplying by y shifts the coefficients up one place while the degree
      stays below that of the modulus. */
  lemma MulByY(reduce: Reducer, w: Width, a: Element)
    requires Reduces(reduce, w) && Below(a, FieldBits(w) - 1)
    ensures Mul(reduce, a, Y) == ShiftLeft(a, 1)
  {
    MulByRoutine(reduce, w, a, Y);
    ClmulByY(a);
    ShiftLeftWiden(a);
    assert Reduced(w, ShiftLeft(a, 1));
    ReduceOfReduced(w, ShiftLeft(a, 1));
  }

  /** g^b, with the products taken in the order the source loops take them:
      g^0 = 1, g^1 = g and g^b = g^(b-1) * g. */
  function Power(reduce: Reducer, g: Element, b: nat): Element {
    if b == 0 then One
    else if b == 1 then g
    else Mul(reduce, Power(reduce, g, b - 1), g)
  }

  /** The step the source's power loops take. */
  lemma PowerStep(reduce: Reducer, g: Element, b: nat)
    requires b >= 1
    ensures Power(reduce, g, b + 1) == Mul(reduce, Power(reduce, g, b), g)
  {
  }

  lemma MonomialShift(k: nat)
    requires 1 <= k < 64
    ensures ShiftLeft(Monomial(k - 1), 1) == Monomial(k)
  {
  }

  lemma MonomialBelow(k: nat, n: nat)
    requires k < n
    ensures Below(Monomial(k), n)
  {
  }

  lemma MonomialsDistinct(i: nat, j: nat)
    requires i < 64 && i != j
    ensures Monomial(i) != Monomial(j)
  {
    assert Monomial(i)[i] != Monomial(j)[i];
  }

  /** The powers of y below the degree of the modulus are the monomials. */
  lemma {:induction false} PowerOfY(reduce: Reducer, w: Width, k: nat)
    requires Reduces(reduce, w) && 1 <= k < FieldBits(w)
    ensures Power(reduce, Y, k) == Monomial(k)
  {
    if k > 1 {
      calc {
        Power(reduce, Y, k);
        Mul(reduce, Power(reduce, Y, k - 1), Y);
        { PowerOfY(reduce, w, k - 1); }
        Mul(reduce, Monomial(k - 1), Y);
        { MonomialBelow(k - 1, FieldBits(w) - 1); MulByY(reduce, w, Monomial(k - 1)); }
        ShiftLeft(Monomial(k - 1), 1);
        { MonomialShift(k); }
        Monomial(k);
      }
    }
  }

  /** Hence the first FieldBits - 1 powers of y are pairwise distinct. */
  lemma PowersOfYDistinct(reduce: Reducer, w: Width, i: nat, j: nat)
    requires Reduces(reduce, w)
    requires 1 <= i < FieldBits(w) && 1 <= j < FieldBits(w) && i != j
    ensures Power(reduce, Y, i) != Power(reduce, Y, j)
  {
    PowerOfY(reduce, w, i);
    PowerOfY(reduce, w, j);
    MonomialsDistinct(i, j);
  }

  // ---------------------------------------------------------------------------
  // Serialisation (field.cpp:109-117): the low ByteSize bytes of the word,
  // least significant first.

  /** GF2E::to_bytes */
  function ToBytes(w: Width, a: Element): (r: seq<Byte>)
    ensures |r| == ByteSize(w)
  {
    BitsToBytes(a[..FieldBits(w)])
  }

  /** GF2E::from_bytes: reads the first ByteSize bytes of `b`; the rest of the
      word is cleared. */
  function FromBytes(w: Width, b: seq<Byte>): (r: Element)
    requires |b| >= ByteSize(w)
    ensures Reduced(w, r)
  {
    Widen(BytesToBits(b[..ByteSize(w)]), 64)
  }

  /** Writing and reading back keeps exactly the bits below the field degree. */
  lemma FromBytesToBytes(w: Width, a: Element)
    ensures FromBytes(w, ToBytes(w, a)) == KeepLow(a, FieldBits(w))
    ensures Reduced(w, a) ==> FromBytes(w, ToBytes(w, a)) == a
  {
    BitsToBytesRoundTrip(a[..FieldBits(w)]);
    assert ToBytes(w, a)[..ByteSize(w)] == ToBytes(w, a);
  }

  /** Reading and writing back returns the bytes read. */
  lemma ToBytesFromBytes(w: Width, b: seq<Byte>)
    requires |b| >= ByteSize(w)
    ensures ToBytes(w, FromBytes(w, b)) == b[..ByteSize(w)]
  {
    var v := BytesToBits(b[..ByteSize(w)]);
    assert FromBytes(w, b)[..FieldBits(w)] == v;
    BytesToBitsRoundTrip(b[..ByteSize(w)]);
  }
}
