/** The GF(2^40) and GF(2^48) reductions of field.cpp:43-71 exactly as written.
    `_mm_extract_epi64` returns a signed 64-bit integer, so in
    `_mm_extract_epi64(T1, 0) >> 40` (and `>> 48`) the shift is arithmetic:
    when bit 63 of the low word of T1 is set, the vacated top bits fill with
    ones, and the `|` that follows keeps them. The routines GF2E.Reduce40 and
    GF2E.Reduce48, which the rest of the model configures, shift that word as
    an unsigned one, which is the Barrett step the routines intend. */
module AsWritten {
  import opened Bits
  import opened GF2E

  /** `((hi & upper_mask) << s) | (lo >> (64 - s))` with `lo` a signed word. */
  function SpliceSigned(hi: Element, lo: Element, m: nat, s: nat): Element
    requires s <= 64
  {
    Or(ShiftLeft(KeepLow(hi, m), s), ShiftRightSigned(lo, 64 - s))
  }

  /** reduce_GF2_40 as written. */
  function Reduce40Signed(x: Wide): (r: Element)
    ensures Below(r, 40)
  {
    var R := Low(x);
    var RRed := Splice(High(x), R, 16, 24);
    var T1 := Clmul(RRed, P40);
    var T1Red := SpliceSigned(High(T1), Low(T1), 16, 24);
    var T2 := Low(Clmul(T1Red, P40));
    KeepLow(Xor(R, T2), 40)
  }

  /** reduce_GF2_48 as written. */
  function Reduce48Signed(x: Wide): (r: Element)
    ensures Below(r, 56)
  {
    var R := Low(x);
    var RRed := Splice(High(x), R, 32, 16);
    var T1 := Clmul(RRed, P48);
    var T1Red := SpliceSigned(High(T1), Low(T1), 32, 16);
    var T2 := Low(Clmul(T1Red, P48));
    KeepLow(Xor(R, T2), 56)
  }

  /** The signed and the unsigned shift agree on a word whose top bit is clear. */
  lemma SpliceSignedAgrees(hi: Element, lo: Element, m: nat, s: nat)
    requires s <= 64 && !lo[63]
    ensures SpliceSigned(hi, lo, m, s) == Splice(hi, lo, m, s)
  {
  }

  /** The routines as written compute the intended reduction whenever bit 63
      of the first product's low word is clear. */
  lemma SignedAgreesWhenClear(x: Wide)
    ensures !Low(Clmul(Splice(High(x), Low(x), 16, 24), P40))[63] ==> Reduce40Signed(x) == Reduce40(x)
    ensures !Low(Clmul(Splice(High(x), Low(x), 32, 16), P48))[63] ==> Reduce48Signed(x) == Reduce48(x)
  {
    var T1 := Clmul(Splice(High(x), Low(x), 16, 24), P40);
    var T1' := Clmul(Splice(High(x), Low(x), 32, 16), P48);
    if !Low(T1)[63] {
      SpliceSignedAgrees(High(T1), Low(T1), 16, 24);
    }
    if !Low(T1')[63] {
      SpliceSignedAgrees(High(T1'), Low(T1'), 32, 16);
    }
  }

  /** The set bits of `v` are exactly the exponents in `e`. */
  predicate Exactly(v: Bits, e: set<int>) {
    forall i :: 0 <= i < |v| ==> v[i] == (i in e)
  }

  /** Both GF(2^40) routines bit by bit, through their intermediate words:
      R_red holds bits 40 to 79 of the input, T1 is its product with the
      modulus, T1_red holds bits 40 to 79 of T1 (and, as written, the sign bit
      of T1's low word from bit 24 up), and T2 is the product of T1_red with
      the modulus. */
  lemma Reduce40Bits(x: Wide, signed: bool) returns (RRed: Element, T1: Wide, T1Red: Element, T2: Wide)
    ensures forall j :: 0 <= j < 64 ==> RRed[j] == (j < 40 && x[40 + j])
    ensures forall m :: 0 <= m < 128 ==> T1[m] == PentanomialBit(RRed, 40, 5, 4, 3, m)
    ensures forall j :: 0 <= j < 64 ==> T1Red[j] == ((j < 40 && T1[40 + j]) || (signed && 24 <= j && T1[63]))
    ensures forall m :: 0 <= m < 128 ==> T2[m] == PentanomialBit(T1Red, 40, 5, 4, 3, m)
    ensures forall i :: 0 <= i < 64 ==> (if signed then Reduce40Signed(x) else Reduce40(x))[i] == (i < 40 && (x[i] != T2[i]))
  {
    RRed := Splice(High(x), Low(x), 16, 24);
    SpliceOfHalves(x, 16, 24);
    T1 := Clmul(RRed, P40);
    ClmulByPentanomialBits(RRed, 40, 5, 4, 3);
    T1Red := if signed then SpliceSigned(High(T1), Low(T1), 16, 24) else Splice(High(T1), Low(T1), 16, 24);
    SpliceOfHalves(T1, 16, 24);
    T2 := Clmul(T1Red, P40);
    ClmulByPentanomialBits(T1Red, 40, 5, 4, 3);
  }

  /** x^63 in GF(2^40). */
  lemma X63Bits40(x: Wide, signed: bool, RRed: Element, T1: Wide, T1Red: Element, T2: Wide)
    requires Exactly(x, {63})
    requires forall j :: 0 <= j < 64 ==> RRed[j] == (j < 40 && x[40 + j])
    requires forall m :: 0 <= m < 128 ==> T1[m] == PentanomialBit(RRed, 40, 5, 4, 3, m)
    requires forall j :: 0 <= j < 64 ==> T1Red[j] == ((j < 40 && T1[40 + j]) || (signed && 24 <= j && T1[63]))
    requires forall m :: 0 <= m < 128 ==> T2[m] == PentanomialBit(T1Red, 40, 5, 4, 3, m)
    ensures forall i :: 0 <= i < 64 ==> (i < 40 && (x[i] != T2[i])) == (i in if signed then {27, 25, 24, 23} else {28, 27, 26, 23})
  {
    assert Exactly(RRed, {23});
    assert Exactly(T1, {63, 28, 27, 26, 23});
    assert forall j :: 0 <= j < 64 ==> T1Red[j] == (j == 23 || (signed && 24 <= j));
  }

  lemma Reduce40OfX63(x: Wide)
    requires Exactly(x, {63})
    ensures Reduce40(x) == FromExponents(64, {28, 27, 26, 23})
  {
    var RRed, T1, T1Red, T2 := Reduce40Bits(x, false);
    X63Bits40(x, false, RRed, T1, T1Red, T2);
  }

  /** x^63, the product of y^39 and y^24, reduced by the routine as written:
      bit 63 of T1 is set, so ones from the sign fill the reduced quotient
      from bit 24 up, and the result differs from the intended one. */
  lemma Reduce40SignedOfX63(x: Wide)
    requires Exactly(x, {63})
    ensures Reduce40Signed(x) == FromExponents(64, {27, 25, 24, 23})
    ensures Reduce40Signed(x) != Reduce40(x)
  {
    var RRed, T1, T1Red, T2 := Reduce40Bits(x, true);
    X63Bits40(x, true, RRed, T1, T1Red, T2);
    Reduce40OfX63(x);
    assert Reduce40(x)[28] != Reduce40Signed(x)[28];
  }

  /** x^64 in GF(2^40): bit 63 of T1 is clear. */
  lemma X64Bits40(x: Wide, signed: bool, RRed: Element, T1: Wide, T1Red: Element, T2: Wide)
    requires Exactly(x, {64})
    requires forall j :: 0 <= j < 64 ==> RRed[j] == (j < 40 && x[40 + j])
    requires forall m :: 0 <= m < 128 ==> T1[m] == PentanomialBit(RRed, 40, 5, 4, 3, m)
    requires forall j :: 0 <= j < 64 ==> T1Red[j] == ((j < 40 && T1[40 + j]) || (signed && 24 <= j && T1[63]))
    requires forall m :: 0 <= m < 128 ==> T2[m] == PentanomialBit(T1Red, 40, 5, 4, 3, m)
    ensures forall i :: 0 <= i < 64 ==> (i < 40 && (x[i] != T2[i])) == (i in {29, 28, 27, 24})
  {
    assert Exactly(RRed, {24});
    assert Exactly(T1, {64, 29, 28, 27, 24});
    assert Exactly(T1Red, {24});
  }

  /** x^63 + x^64 in GF(2^40): bit 63 of T1 is set, and the ones it spreads
      from bit 24 up cover bit 24, which x^64 contributes. */
  lemma X63PlusX64Bits40(x: Wide, signed: bool, RRed: Element, T1: Wide, T1Red: Element, T2: Wide)
    requires Exactly(x, {64, 63})
    requires forall j :: 0 <= j < 64 ==> RRed[j] == (j < 40 && x[40 + j])
    requires forall m :: 0 <= m < 128 ==> T1[m] == PentanomialBit(RRed, 40, 5, 4, 3, m)
    requires forall j :: 0 <= j < 64 ==> T1Red[j] == ((j < 40 && T1[40 + j]) || (signed && 24 <= j && T1[63]))
    requires forall m :: 0 <= m < 128 ==> T2[m] == PentanomialBit(T1Red, 40, 5, 4, 3, m)
    ensures forall i :: 0 <= i < 64 ==> (i < 40 && (x[i] != T2[i])) == (i in if signed then {27, 25, 24, 23} else {29, 26, 24, 23})
  {
    assert Exactly(RRed, {24, 23});
    assert Exactly(T1, {64, 63, 29, 26, 24, 23});
    assert forall j :: 0 <= j < 64 ==> T1Red[j] == (j == 23 || j == 24 || (signed && 24 <= j));
  }

  lemma Reduce40SignedOfX64(x: Wide)
    requires Exactly(x, {64})
    ensures Reduce40Signed(x) == FromExponents(64, {29, 28, 27, 24})
  {
    var RRed, T1, T1Red, T2 := Reduce40Bits(x, true);
    X64Bits40(x, true, RRed, T1, T1Red, T2);
  }

  lemma Reduce40OfX64(x: Wide)
    requires Exactly(x, {64})
    ensures Reduce40(x) == FromExponents(64, {29, 28, 27, 24})
  {
    var RRed, T1, T1Red, T2 := Reduce40Bits(x, false);
    X64Bits40(x, false, RRed, T1, T1Red, T2);
  }

  lemma Reduce40SignedOfX63PlusX64(x: Wide)
    requires Exactly(x, {64, 63})
    ensures Reduce40Signed(x) == FromExponents(64, {27, 25, 24, 23})
  {
    var RRed, T1, T1Red, T2 := Reduce40Bits(x, true);
    X63PlusX64Bits40(x, true, RRed, T1, T1Red, T2);
  }

  lemma Reduce40OfX63PlusX64(x: Wide)
    requires Exactly(x, {64, 63})
    ensures Reduce40(x) == FromExponents(64, {29, 26, 24, 23})
  {
    var RRed, T1, T1Red, T2 := Reduce40Bits(x, false);
    X63PlusX64Bits40(x, false, RRed, T1, T1Red, T2);
  }

  /** The two sums of reduced products in the example below. */
  lemma SumsOfReducedProducts()
    ensures Xor(FromExponents(64, {27, 25, 24, 23}), FromExponents(64, {29, 28, 27, 24})) == FromExponents(64, {29, 28, 25, 23})
    ensures Xor(FromExponents(64, {28, 27, 26, 23}), FromExponents(64, {29, 28, 27, 24})) == FromExponents(64, {29, 26, 24, 23})
  {
  }

  /** dot_product([y^39, y^39], [y^24, y^25]) in GF(2^40) sums the products
      x^63 and x^64 and reduces once. With the routine as written that gives
      y^27 + y^25 + y^24 + y^23, the value of x^63 alone, while the sum of the
      reduced products is y^29 + y^28 + y^25 + y^23: the routine as written is
      not linear, so reducing lazily changes the result. The corrected
      routine gives y^29 + y^26 + y^24 + y^23 both ways. */
  lemma Reduce40SignedNotLinear(a: Wide, b: Wide)
    requires Exactly(a, {63}) && Exactly(b, {64})
    ensures Reduce40Signed(Xor(a, b)) == FromExponents(64, {27, 25, 24, 23})
    ensures Xor(Reduce40Signed(a), Reduce40Signed(b)) == FromExponents(64, {29, 28, 25, 23})
    ensures Reduce40(Xor(a, b)) == Xor(Reduce40(a), Reduce40(b)) == FromExponents(64, {29, 26, 24, 23})
  {
    Reduce40SignedOfX63(a);
    Reduce40OfX63(a);
    Reduce40SignedOfX64(b);
    Reduce40OfX64(b);
    SumsOfReducedProducts();
    var ab := Xor(a, b);
    assert Exactly(ab, {64, 63});
    Reduce40SignedOfX63PlusX64(ab);
    Reduce40OfX63PlusX64(ab);
  }

  /** The same example on the products themselves: y^i times y^j and y^i
      times y^k, summed before or after the routine as written, for i = 39,
      j = 24 and k = 25. */
  lemma Reduce40SignedLazyDotProduct(i: nat, j: nat, k: nat)
    requires i == 39 && j == 24 && k == 25
    ensures Reduce40Signed(Xor(Clmul(Monomial(i), Monomial(j)), Clmul(Monomial(i), Monomial(k))))
         == FromExponents(64, {27, 25, 24, 23})
    ensures Xor(Reduce40Signed(Clmul(Monomial(i), Monomial(j))), Reduce40Signed(Clmul(Monomial(i), Monomial(k))))
         == FromExponents(64, {29, 28, 25, 23})
  {
    ClmulMonomials(i, j);
    ClmulMonomials(i, k);
    Reduce40SignedNotLinear(FromExponents(128, {i + j}), FromExponents(128, {i + k}));
  }

  /** Both GF(2^48) routines bit by bit, as Reduce40Bits; the final mask keeps
      56 bits. */
  lemma Reduce48Bits(x: Wide, signed: bool) returns (RRed: Element, T1: Wide, T1Red: Element, T2: Wide)
    ensures forall j :: 0 <= j < 64 ==> RRed[j] == (j < 48 && x[48 + j])
    ensures forall m :: 0 <= m < 128 ==> T1[m] == PentanomialBit(RRed, 48, 5, 3, 2, m)
    ensures forall j :: 0 <= j < 64 ==> T1Red[j] == ((j < 48 && T1[48 + j]) || (signed && 16 <= j && T1[63]))
    ensures forall m :: 0 <= m < 128 ==> T2[m] == PentanomialBit(T1Red, 48, 5, 3, 2, m)
    ensures forall i :: 0 <= i < 64 ==> (if signed then Reduce48Signed(x) else Reduce48(x))[i] == (i < 56 && (x[i] != T2[i]))
  {
    RRed := Splice(High(x), Low(x), 32, 16);
    SpliceOfHalves(x, 32, 16);
    T1 := Clmul(RRed, P48);
    ClmulByPentanomialBits(RRed, 48, 5, 3, 2);
    T1Red := if signed then SpliceSigned(High(T1), Low(T1), 32, 16) else Splice(High(T1), Low(T1), 32, 16);
    SpliceOfHalves(T1, 32, 16);
    T2 := Clmul(T1Red, P48);
    ClmulByPentanomialBits(T1Red, 48, 5, 3, 2);
  }

  /** x^94 + x^63 in GF(2^48): bit 63 of T1 is set. The quotient, the
      first product and the reduced quotient of both routines. */
  lemma X94X63Bits48(x: Wide, signed: bool, RRed: Element, T1: Wide, T1Red: Element)
    requires Exactly(x, {94, 63})
    requires forall j :: 0 <= j < 64 ==> RRed[j] == (j < 48 && x[48 + j])
    requires forall m :: 0 <= m < 128 ==> T1[m] == PentanomialBit(RRed, 48, 5, 3, 2, m)
    requires forall j :: 0 <= j < 64 ==> T1Red[j] == ((j < 48 && T1[48 + j]) || (signed && 16 <= j && T1[63]))
    ensures forall j :: 0 <= j < 64 ==> T1Red[j] == (j == 0 || j == 1 || j == 3 || j == 15 || (if signed then 16 <= j else j == 46))
  {
    assert Exactly(RRed, {46, 15});
    assert Exactly(T1, {94, 63, 51, 49, 48, 46, 20, 18, 17, 15});
  }

  /** The low 56 bits of the corrected routine's second product. */
  lemma X94X63Intended48(T1Red: Element, T2: Wide)
    requires forall j :: 0 <= j < 64 ==> T1Red[j] == (j == 0 || j == 1 || j == 3 || j == 15 || j == 46)
    requires forall m :: 0 <= m < 128 ==> T2[m] == PentanomialBit(T1Red, 48, 5, 3, 2, m)
    ensures forall i :: 0 <= i < 56 ==> T2[i] == (i in {46, 20, 18, 17, 15, 8, 4, 3, 2, 1, 0})
  {
  }

  /** The low 56 bits of the second product as written, where the sign bit
      fills bits 16 and up of the reduced quotient. */
  lemma X94X63Signed48(T1Red: Element, T2: Wide)
    requires forall j :: 0 <= j < 64 ==> T1Red[j] == (j == 0 || j == 1 || j == 3 || j == 15 || 16 <= j)
    requires forall m :: 0 <= m < 128 ==> T2[m] == PentanomialBit(T1Red, 48, 5, 3, 2, m)
    ensures forall i :: 0 <= i < 56 ==> T2[i] == (i in {51, 49, 48, 19, 18, 16, 15, 8, 4, 3, 2, 1, 0})
  {
  }

  lemma Reduce48SignedOfX94X63(x: Wide)
    requires Exactly(x, {94, 63})
    ensures Reduce48Signed(x) == FromExponents(64, {51, 49, 48, 19, 18, 16, 15, 8, 4, 3, 2, 1, 0})
  {
    var RRed, T1, T1Red, T2 := Reduce48Bits(x, true);
    X94X63Bits48(x, true, RRed, T1, T1Red);
    X94X63Signed48(T1Red, T2);
  }

  /** A product whose reduction, as written, is not a field element: with
      the sign bits spread over the reduced quotient, bits 48, 49 and 51
      survive the 56-bit mask. The corrected routine gives a field element. */
  lemma Reduce48SignedExceeds(x: Wide)
    requires Exactly(x, {94, 63})
    ensures !Below(Reduce48Signed(x), 48)
    ensures Below(Reduce48(x), 48)
  {
    Reduce48SignedOfX94X63(x);
    assert Reduce48Signed(x)[48];
    Reduce48Below(x);
  }

  lemma Reduce48OfX94X63(x: Wide)
    requires Exactly(x, {94, 63})
    ensures Reduce48(x) == FromExponents(64, {46, 20, 18, 17, 15, 8, 4, 3, 2, 1, 0})
  {
    var RRed, T1, T1Red, T2 := Reduce48Bits(x, false);
    X94X63Bits48(x, false, RRed, T1, T1Red);
    X94X63Intended48(T1Red, T2);
  }
}
