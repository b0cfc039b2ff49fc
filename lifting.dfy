/** The lifting table of field.cpp:11-27: the additive embedding of GF(2^8) into
    the extension field. Entry i is the sum of g^b over the set bits b of the byte
    i, where g is the image of the GF(2^8) generator x. */
module Lifting {
  import opened Bits
  import opened GF2E

  /** Bitwise XOR of two naturals: the addition of GF(2^8) on byte values. */
  function XorNat(p: nat, q: nat): (r: nat)
    decreases p + q
  {
    if p == 0 && q == 0 then 0
    else (if p % 2 != q % 2 then 1 else 0) + 2 * XorNat(p / 2, q / 2)
  }

  lemma {:induction false} XorNatBound(p: nat, q: nat, n: nat)
    requires p < Pow2(n) && q < Pow2(n)
    ensures XorNat(p, q) < Pow2(n)
    decreases p + q
  {
    if !(p == 0 && q == 0) {
      XorNatBound(p / 2, q / 2, n - 1);
    }
  }

  /** The sum of pow(c + b) over the set bits b of i. */
  function Embed(pow: nat -> Element, i: nat, c: nat): Element
    decreases i
  {
    if i == 0 then Zero
    else Add(if i % 2 == 1 then pow(c) else Zero, Embed(pow, i / 2, c + 1))
  }

  /** pow lists the powers of g: pow(b) == g^b for every b. */
  ghost predicate PowersOf(pow: nat -> Element, reduce: Reducer, g: Element) {
    forall b: nat {:trigger Power(reduce, g, b)} :: pow(b) == Power(reduce, g, b)
  }

  /** b |-> g^b */
  function Powers(reduce: Reducer, g: Element): (pow: nat -> Element)
    ensures PowersOf(pow, reduce, g)
  {
    b => Power(reduce, g, b)
  }

  /** The recurrence the power loop of init_lifting_lut follows. */
  lemma PowersOfStep(pow: nat -> Element, reduce: Reducer, g: Element, b: nat)
    requires PowersOf(pow, reduce, g)
    ensures pow(0) == One && pow(1) == g
    ensures b >= 1 ==> pow(b + 1) == Mul(reduce, pow(b), g)
  {
    assert pow(0) == Power(reduce, g, 0) && pow(1) == Power(reduce, g, 1);
    if b >= 1 {
      assert pow(b) == Power(reduce, g, b) && pow(b + 1) == Power(reduce, g, b + 1);
      PowerStep(reduce, g, b);
    }
  }

  /** What lifting_lut[i] holds once the table is built from the powers pow:
      the sum of pow(b) over the set bits b of i (pow is Powers(reduce, g)). */
  function LutEntry(pow: nat -> Element, i: nat): Element {
    Embed(pow, i, 0)
  }

  /** The first two entries the source sets directly, and the entry for x itself. */
  lemma LutEntryBase(pow: nat -> Element)
    ensures LutEntry(pow, 0) == Zero
    ensures LutEntry(pow, 1) == pow(0)
    ensures LutEntry(pow, 2) == pow(1)
  {
    XorZero(pow(0));
    XorZero(pow(1));
    assert Embed(pow, 1, 0) == Add(pow(0), Zero);
    assert Embed(pow, 1, 1) == Add(pow(1), Zero);
    assert Embed(pow, 2, 0) == Add(Zero, Embed(pow, 1, 1));
  }

  /** Setting bit b of an index below 2^b adds pow(c + b): the step by which each
      pass of the loop fills the upper half of the table from the lower half. */
  lemma {:induction false} EmbedDoubling(pow: nat -> Element, b: nat, idx: nat, c: nat)
    requires idx < Pow2(b)
    ensures Embed(pow, Pow2(b) + idx, c) == Add(Embed(pow, idx, c), pow(c + b))
    decreases b
  {
    if b == 0 {
      assert idx == 0;
      XorZero(pow(c));
      assert Embed(pow, 0, c + 1) == Zero;
    } else {
      var i := Pow2(b) + idx;
      assert i % 2 == idx % 2 && i / 2 == Pow2(b - 1) + idx / 2;
      EmbedDoubling(pow, b - 1, idx / 2, c + 1);
      var t := if idx % 2 == 1 then pow(c) else Zero;
      XorAssoc(t, Embed(pow, idx / 2, c + 1), pow(c + b));
      if idx == 0 {
        XorZero(Zero);
      }
    }
  }

  lemma LutDoubling(pow: nat -> Element, b: nat, idx: nat)
    requires idx < Pow2(b)
    ensures LutEntry(pow, Pow2(b) + idx) == Add(LutEntry(pow, idx), pow(b))
  {
    EmbedDoubling(pow, b, idx, 0);
  }

  /** The term bit 0 of i contributes to Embed(pow, i, c). */
  function BitTerm(pow: nat -> Element, i: nat, c: nat): Element {
    if i % 2 == 1 then pow(c) else Zero
  }

  /** Embed peels off bit 0 of any index, 0 included. */
  lemma EmbedUnfold(pow: nat -> Element, i: nat, c: nat)
    ensures Embed(pow, i, c) == Add(BitTerm(pow, i, c), Embed(pow, i / 2, c + 1))
  {
    if i == 0 {
      XorZero(Zero);
    }
  }

  /** Bit 0 and the remaining bits of an XOR. */
  lemma XorNatStep(p: nat, q: nat)
    ensures XorNat(p, q) % 2 == 1 <==> p % 2 != q % 2
    ensures XorNat(p, q) / 2 == XorNat(p / 2, q / 2)
  {
  }

  /** The table is additive: the lift of a GF(2^8) sum is the sum of the lifts. */
  lemma {:induction false} EmbedAdditive(pow: nat -> Element, p: nat, q: nat, c: nat)
    ensures Embed(pow, XorNat(p, q), c) == Add(Embed(pow, p, c), Embed(pow, q, c))
    decreases p + q
  {
    if p == 0 && q == 0 {
      XorZero(Zero);
    } else {
      var r := XorNat(p, q);
      XorNatStep(p, q);
      EmbedAdditive(pow, p / 2, q / 2, c + 1);
      EmbedUnfold(pow, r, c);
      EmbedUnfold(pow, p, c);
      EmbedUnfold(pow, q, c);
      var tp, tq := BitTerm(pow, p, c), BitTerm(pow, q, c);
      assert BitTerm(pow, r, c) == Xor(tp, tq) by {
        XorZero(Zero);
        XorZero(pow(c));
        XorSelf(pow(c));
      }
      XorSwapMiddle(tp, tq, Embed(pow, p / 2, c + 1), Embed(pow, q / 2, c + 1));
    }
  }

  lemma LutAdditive(pow: nat -> Element, p: nat, q: nat)
    ensures LutEntry(pow, XorNat(p, q)) == Add(LutEntry(pow, p), LutEntry(pow, q))
  {
    EmbedAdditive(pow, p, q, 0);
  }
}
