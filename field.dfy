/** The process-wide field configuration of field.cpp: the static members
    GF2E::reduce and GF2E::byte_size (field.cpp:78-80) and the 256-entry
    lifting table (field.cpp:11), set up by init_extension_field and read by
    lift_uint8_t. */
module Field {
  import opened Errors
  import opened Bits
  import opened GF2E
  import opened Lifting
  import Instances

  /** The image of the GF(2^8) generator x under the ring morphism into each
      extension field, as the set of its coefficient exponents. */
  function Generator(w: Width): (g: Element)
    ensures Reduced(w, g)
  {
    match w
    case W32 => FromExponents(64, {30, 23, 21, 18, 14, 13, 11, 9, 7, 6, 5, 4, 3, 1})
    case W40 => FromExponents(64, {31, 30, 27, 25, 22, 21, 20, 18, 15, 9, 6, 4, 2})
    case W48 => FromExponents(64, {45, 43, 40, 37, 36, 35, 34, 33, 31, 30, 29, 28, 24,
                                   21, 20, 19, 16, 14, 13, 11, 10, 7, 3, 2})
  }

  class ExtensionField {
    /** GF2E::reduce */
    var reduce: Reducer
    /** GF2E::byte_size */
    var byteSize: nat
    /** The field the two members above select. */
    ghost var width: Width
    /** lifting_lut */
    const lut: array<Element>
    /** Whether init_extension_field has filled the table. */
    ghost var configured: bool
    /** The powers of the configured generator the table was built from. */
    ghost var pows: nat -> Element

    /** The reduction and the byte size always belong to one field; before
        configuration that is GF(2^32) and the (zero-initialised) table is all
        zero, afterwards the table holds the lifting of every byte through the
        configured generator. */
    ghost predicate Valid()
      reads this, lut
    {
      && lut.Length == 256
      && Reduces(reduce, width)
      && byteSize == ByteSize(width)
      && (configured ==> PowersOf(pows, reduce, Generator(width)))
      && (forall i :: 0 <= i < 256 ==> lut[i] == if configured then LutEntry(pows, i) else Zero)
    }

    /** The static initial state. */
    constructor ()
      ensures Valid() && !configured
      ensures width == W32 && byteSize == 4
      ensures fresh(lut)
    {
      reduce := Reduce32;
      width := W32;
      byteSize := 4;
      lut := new Element[256](_ => Zero);
      configured := false;
      pows := _ => Zero;
    }

    /** init_lifting_lut: lut[0] = 0, lut[1] = 1, then for bit = 1..7 the upper
        half lut[2^bit .. 2^(bit+1)) is the lower half plus gen^bit. */
    method InitLiftingLut(gen: Element, ghost pow: nat -> Element)
      requires lut.Length == 256
      requires PowersOf(pow, reduce, gen)
      modifies lut
      ensures forall i :: 0 <= i < 256 ==> lut[i] == LutEntry(pow, i)
    {
      PowersOfStep(pow, reduce, gen, 0);
      LutEntryBase(pow);
      lut[0] := Zero;
      lut[1] := One;
      var acc := gen;
      var bit := 1;
      assert Pow2(1) == 2;
      while bit < 8
        invariant 1 <= bit <= 8 && Pow2(bit) <= 256
        invariant acc == pow(bit)
        invariant forall i :: 0 <= i < Pow2(bit) ==> lut[i] == LutEntry(pow, i)
      {
        Pow2Bound(bit);
        FillUpperHalf(bit, acc, pow);
        PowersOfStep(pow, reduce, gen, bit);
        acc := Mul(reduce, acc, gen);
        bit := bit + 1;
      }
    }

    /** One pass of the outer loop of init_lifting_lut: with the first 2^bit
        entries built, lut[2^bit + idx] = lut[idx] + pow for every idx < 2^bit. */
    method FillUpperHalf(bit: nat, pow: Element, ghost pows: nat -> Element)
      requires lut.Length == 256 && Pow2(bit) <= 128
      requires pow == pows(bit)
      requires forall i :: 0 <= i < Pow2(bit) ==> lut[i] == LutEntry(pows, i)
      modifies lut
      ensures forall i :: 0 <= i < Pow2(bit + 1) ==> lut[i] == LutEntry(pows, i)
      ensures forall i :: Pow2(bit + 1) <= i < 256 ==> lut[i] == old(lut[i])
    {
      var start := Pow2(bit);
      var idx := 0;
      while idx < start
        invariant 0 <= idx <= start
        invariant forall i :: 0 <= i < start + idx ==> lut[i] == LutEntry(pows, i)
        invariant forall i :: start + idx <= i < 256 ==> lut[i] == old(lut[i])
      {
        LutDoubling(pows, bit, idx);
        lut[start + idx] := Add(lut[idx], pow);
        idx := idx + 1;
      }
    }

    /** init_extension_field: selects the reduction and byte size for
        instance.lambda and builds the table, or fails leaving everything as it
        was when lambda is not 4, 5 or 6. */
    method InitExtensionField(instance: Instances.Instance) returns (r: Result<()>)
      requires Valid()
      modifies this, lut
      ensures Valid()
      ensures r.Ok? <==> instance.lambda in {4, 5, 6}
      ensures r.Err? ==> r.error == UnsupportedLambda
      ensures r.Err? ==> unchanged(this) && unchanged(lut)
      ensures r.Ok? ==> width == WidthForLambda(instance.lambda).value && byteSize == instance.lambda
      ensures r.Ok? ==> reduce == RoutineFor(width) && configured
    {
      var sel := WidthForLambda(instance.lambda);
      if sel.Err? {
        return Err(sel.error);
      }
      reduce := RoutineFor(sel.value);
      width := sel.value;
      byteSize := ByteSize(sel.value);
      pows := Powers(reduce, Generator(sel.value));
      InitLiftingLut(Generator(sel.value), pows);
      configured := true;
      r := Ok(());
    }

    /** lift_uint8_t */
    function Lift(v: Byte): (e: Element)
      reads this, lut
      requires Valid()
      ensures configured ==> e == LutEntry(pows, v)
      ensures !configured ==> e == Zero
    {
      lut[v]
    }

    /** Once configured, lifting maps 0 to 0, 1 to 1 and x to the generator, and
        turns the XOR of two bytes into the sum of their lifts. */
    lemma LiftAdditive(p: Byte, q: Byte)
      requires Valid() && configured
      ensures Lift(0) == Zero && Lift(1) == One && Lift(2) == Generator(width)
      ensures XorNat(p, q) < 256
      ensures Lift(XorNat(p, q) as Byte) == Add(Lift(p), Lift(q))
    {
      LutEntryBase(pows);
      PowersOfStep(pows, reduce, Generator(width), 0);
      assert Pow2(8) == 256;
      XorNatBound(p, q, 8);
      LutAdditive(pows, p, q);
    }
  }

  lemma {:induction false} Pow2Bound(bit: nat)
    requires bit < 8
    ensures Pow2(bit) <= 128
    decreases 8 - bit
  {
    if bit < 7 {
      Pow2Bound(bit + 1);
    } else {
      assert Pow2(7) == 128;
    }
  }
}
