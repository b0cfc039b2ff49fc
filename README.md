# Banquet field arithmetic in Dafny

This project models the arithmetic core of the Banquet signature scheme's
reference implementation. That core is the binary extension field GF(2^λ·8)
(class `field::GF2E` in `field.cpp`) together with the vector and polynomial
routines built on it. It also models the table of parameter sets
(`banquet_instances.cpp`).

Each field element is the `uint64_t` word the source stores, modelled as a
sequence of 64 bits with bit 0 first (`GF2E.Element`). A 128-bit carry-less
product (`__m128i`) is a sequence of 128 bits (`GF2E.Wide`). The modules are:

- `Bits`: XOR, shifts, masks and byte conversion on bit sequences.
- `GF2E`:
  - carry-less multiplication and its algebra;
  - the three Barrett-style reduction routines with their 64-bit truncations
    and masks. For GF(2^40) and GF(2^48) these are the routines as intended,
    with the low word of the first product shifted as an unsigned word;
  - the field operators and the byte (de)serialisation.
- `AsWritten`: the GF(2^40) and GF(2^48) routines as the source writes them,
  where that shift is signed, with inputs on which they go wrong (see
  "## Findings").
- `Field`: the process-wide configuration as a class `ExtensionField`.
  - Its fields are the selected reduction routine, the byte size and the
    256-entry lifting table (an `array`).
  - Its methods are `init_extension_field` and `init_lifting_lut`, which
    update that state in place, and `lift_uint8_t`.
- `Lifting`: what the lifting table holds. Byte `i` maps to the sum of
  `gen^b` over the set bits `b` of `i`.
- `Vectors`: vector addition (copying and in place), scalar multiplication,
  the lazily reduced dot product, and naive polynomial multiplication, each
  as a method with a loop proved against a specification function.
- `Polynomials`: `build_from_roots`, Horner evaluation (`eval`) and
  `get_first_n_field_elements`.
- `Lagrange`: `precompute_lagrange_polynomials` and
  `interpolate_with_precomputation`.
- `Instances`: the parameter-set table and `banquet_instance_get`.

The static `GF2E::reduce` is a `std::function`. Here it is a function value
of type `GF2E.Reducer`. The predicate `GF2E.Reduces(reduce, w)` says that the
stored routine is the one for field width `w` (32, 40 or 48 bits). Multiplication
is `Mul(reduce, a, b) = reduce(Clmul(a, b))`, as in the source.

The field inverse used by the Lagrange precomputation comes from NTL, which
is not part of this model. It is a parameter `inv`.

Exceptions thrown by the source become the `Err` case of `Errors.Result`:
- `SizeMismatch` for vectors of different sizes and for invalid
  interpolation sizes;
- `UnsupportedLambda` for an unsupported λ;
- `InvalidParameterSet` for a bad parameter set;
- `LengthError` for the `std::length_error` of a zero-by-zero polynomial
  product.

## Model

| member | source | states |
|---|---|---|
| GF2E.WidthForLambda | field.cpp:119-216 | λ selects a field exactly when it is 4, 5 or 6; the selected field's byte size is λ; any other λ is the "not implemented" error |
| GF2E.Clmul | field.cpp:29-31 | the 128-bit carry-less product of two words, as `_mm_clmulepi64_si128` on the low lanes; its algebra is stated by ClmulComm, ClmulLinear and ClmulByY |
| GF2E.Add | field.cpp:82-88 | operator+ and operator+= are the XOR of the words; its laws are stated by AddIsCharacteristicTwo and AddKeepsReduced |
| GF2E.Sub | field.cpp:89-95 | operator- and operator-= are the same XOR; AddIsCharacteristicTwo states that subtraction equals addition |
| GF2E.Mul | field.cpp:96-102 | operator* and operator*= apply the stored routine to the carry-less product; its laws are stated by MulZero, MulOne, MulComm, MulDistributes, MulByY and MulKeepsReduced |
| GF2E.AddIsCharacteristicTwo | field.cpp:82-95 | addition (XOR) is commutative and associative, has 0 as identity, every element is its own negative, and subtraction equals addition |
| GF2E.AddKeepsReduced | field.cpp:82-88 | the sum of two elements of the field is again in the field |
| GF2E.ClmulComm | field.cpp:29-31 | the carry-less product is commutative |
| GF2E.ClmulLinear | field.cpp:29-31 | the carry-less product is GF(2)-linear in each argument |
| GF2E.ClmulByY | field.cpp:29-31 | carry-less multiplication by y (the word 2) is a left shift by one bit |
| GF2E.Reduce32 | field.cpp:33-42 | the reduction modulo x^32+x^7+x^3+x^2+1 leaves only the low 32 bits |
| GF2E.Reduce40 | field.cpp:43-56 | the reduction modulo x^40+x^5+x^4+x^3+1, with the unsigned shift the Barrett step intends, leaves only the low 40 bits |
| GF2E.Reduce48 | field.cpp:58-71 | the reduction modulo x^48+x^5+x^3+x^2+1, with the unsigned shift, leaves only the low 56 bits (its mask) |
| GF2E.Reduce48Below | field.cpp:58-71 | the GF(2^48) routine with the unsigned shift always returns a field element: bits 48 to 55, which its mask lets through, cancel |
| GF2E.Reduce | field.cpp:33-71 | each width's routine yields a field element of that width |
| GF2E.ReduceLinear | field.cpp:33-71 | each reduction routine maps XOR of inputs to XOR of outputs |
| GF2E.ReduceZero | field.cpp:33-71 | each reduction routine maps 0 to 0 |
| GF2E.ReduceOfReduced | field.cpp:33-71 | reducing a product that is already a field element returns that element unchanged |
| GF2E.MulKeepsReduced | field.cpp:96-102 | in every field the product of any two words is a field element |
| GF2E.MulZero | field.cpp:96-102 | multiplying by 0 on either side gives 0 |
| GF2E.MulOne | field.cpp:96-102 | 1 is a two-sided identity for every field element |
| GF2E.MulDistributes | field.cpp:96-102 | multiplication distributes over addition on both sides |
| GF2E.MulComm | field.cpp:96-102 | multiplication is commutative |
| GF2E.MulByY | field.cpp:96-102 | multiplying by y an element whose top field bit is clear shifts it left by one |
| GF2E.PowerOfY | field.cpp:220-230 | y^k is the monomial with only bit k set, for 1 <= k below the field degree |
| GF2E.PowersOfYDistinct | field.cpp:220-230 | distinct exponents below the field degree give distinct powers of y |
| GF2E.ToBytes | field.cpp:109-112 | serialisation writes exactly byte_size bytes |
| GF2E.FromBytes | field.cpp:113-117 | deserialisation reads byte_size bytes and always yields a field element |
| GF2E.FromBytesToBytes | field.cpp:109-117 | reading back what was written keeps the low field bits, so every field element round-trips |
| GF2E.ToBytesFromBytes | field.cpp:109-117 | writing what was read reproduces the first byte_size input bytes |
| Lifting.LutEntryBase | field.cpp:15-16 | the table maps 0 to 0, 1 to 1 and 2 to the generator |
| Lifting.LutDoubling | field.cpp:19-24 | entry 2^bit + idx is entry idx plus gen^bit, for idx below 2^bit, which is exactly what the upper half receives |
| Lifting.LutAdditive | field.cpp:14-27 | the table turns XOR of bytes into addition of field elements, so it is additive |
| Field.Generator | field.cpp:130-209 | the image of the GF(2^8) generator is a field element of the selected field |
| Field.ExtensionField.constructor | field.cpp:78-80 | before configuration the field is GF(2^32) with 4-byte elements and a freshly allocated all-zero table, so the new field can be configured |
| Field.ExtensionField.InitLiftingLut | field.cpp:14-27 | after the call every entry i of the table is the sum of gen^b over the set bits b of i |
| Field.ExtensionField.FillUpperHalf | field.cpp:22-24 | one pass extends the correct table prefix from 2^bit to 2^(bit+1) entries and leaves every entry above 2^(bit+1) as it was |
| Field.ExtensionField.InitExtensionField | field.cpp:119-216 | for λ 4, 5 or 6 it stores that field's routine and byte size λ and fills the table from that field's generator; any other λ fails and changes nothing |
| Field.ExtensionField.Lift | field.cpp:218 | the lift of a byte is its table entry, which is the generator-power sum once configured and 0 before |
| Field.ExtensionField.LiftAdditive | field.cpp:218 | once configured, lifting sends 0, 1 and x to 0, 1 and the generator, and XOR of bytes to field addition |
| Instances.InvalidEntry | banquet_instances.cpp:19-30 | the table has one entry per identifier up to the maximum index, and entry 0 is the all-zero invalid set |
| Instances.InstanceGet | banquet_instances.cpp:46-52 | lookup fails exactly for identifiers at or below the invalid one or at or above the maximum index; otherwise it returns the table entry whose identifier is the one asked for, with λ among 4, 5, 6 |
| Instances.LookupAcceptedByField | banquet_instances.cpp:32-43 | every instance the lookup returns has a λ that the field configuration accepts |
| Vectors.PlusProperties | field.cpp:308-318 | vector addition is commutative, has the zero vector as identity and every vector as its own negative |
| Vectors.ScaleDistributes | field.cpp:345-352 | scaling distributes over vector addition |
| Vectors.ScaleBySum | field.cpp:345-352 | scaling by a sum is the sum of the scalings |
| Vectors.ScaleByZeroOne | field.cpp:345-352 | scaling by 0 gives the zero vector, and scaling a vector of field elements by 1 leaves it unchanged |
| Vectors.LazyReductionIsExact | field.cpp:331-343 | XOR-accumulating the unreduced products and reducing once equals the sum of the reduced products |
| Vectors.InnerProductComm | field.cpp:331-343 | the inner product is symmetric |
| Vectors.ConvByConstant | field.cpp:354-364 | multiplying by a constant polynomial is scalar multiplication |
| Vectors.ConvByOne | field.cpp:354-364 | the constant polynomial 1 is a right identity for polynomial multiplication of field elements |
| Vectors.VectorAdd | field.cpp:308-318 | fails exactly on different lengths; otherwise returns the entrywise sum |
| Vectors.AddAssign | field.cpp:320-329 | fails exactly on different lengths and then leaves lhs unchanged; otherwise lhs becomes the entrywise sum |
| Vectors.ScalarMul | field.cpp:345-352 | returns every entry multiplied by the scalar |
| Vectors.DotProduct | field.cpp:331-343 | fails exactly on different lengths; otherwise returns the inner product of the reduced products |
| Vectors.AddRow | field.cpp:359-361 | one pass of the outer loop adds row i's products into every coefficient of the result |
| Vectors.PolyMul | field.cpp:354-364 | returns the convolution of the coefficient vectors (length |l|+|r|-1); two empty operands give the length error |
| Polynomials.ExtendLowIsProduct | field.cpp:282-289 | one outer step turns a monic polynomial into its product with X + tmp |
| Polynomials.MonicLowReduced | field.cpp:275-292 | coefficients built from field elements are field elements |
| Polynomials.FromRootsIsProduct | field.cpp:275-292 | for roots that are field elements, the result is the product of the linear factors X + r over the roots |
| Polynomials.MulByLinear | field.cpp:283-288 | one outer step replaces the low k+1 coefficients by those of the product with X + poly[k], the inner loop running downward so each old coefficient is read before it is overwritten, and leaves the rest alone |
| Polynomials.BuildFromRoots | field.cpp:275-292 | returns the |roots|+1 coefficients of the monic polynomial the outer steps build, with leading 1 |
| Polynomials.HornerTelescopes | field.cpp:294-304 | evaluating at t the coefficients of a product with X + t, from coefficient i up, leaves coefficient i - 1 of the other factor |
| Polynomials.ExtendLowVanishes | field.cpp:282-289 | the product of a monic polynomial with X + t evaluates to 0 at t |
| Polynomials.BuildFromRootsVanishes | field.cpp:275-292 | the result evaluates to 0 at the last root |
| Polynomials.Eval | field.cpp:294-304 | returns the Horner evaluation of the coefficients at the point |
| Polynomials.HornerBase | field.cpp:294-304 | the empty polynomial evaluates to 0, any polynomial at 0 to its constant term, and a + bX to a + b·x |
| Polynomials.HornerReduced | field.cpp:294-304 | evaluation yields a field element |
| Polynomials.HornerAdditive | field.cpp:294-304 | evaluation is additive in the polynomial |
| Polynomials.HornerTrailingZero | field.cpp:294-304 | a zero leading coefficient does not change the value |
| Polynomials.HornerAtOne | field.cpp:294-304 | evaluation at 1 is the sum of the coefficients |
| Polynomials.FirstNFieldElements | field.cpp:220-230 | returns n elements, the i-th (from 0) being y^(i+1) |
| Polynomials.FirstNFieldElementsDistinct | field.cpp:220-230 | for n below the field degree the points are the monomials y^1..y^n, are field elements and are pairwise distinct |
| Lagrange.OthersIsSlice | field.cpp:244-248 | the nodes other than the k-th, in order, are the node list with entry k removed |
| Lagrange.DenominatorOfRepeatedNode | field.cpp:244-246 | when another node equals the k-th, the denominator is 0 |
| Lagrange.SingleNodeBasis | field.cpp:232-258 | for one node the basis polynomial is the constant 1·inv(1) |
| Lagrange.DenominatorAndOthers | field.cpp:241-249 | the inner loop returns the product of the differences to the other nodes and the list of the other nodes |
| Lagrange.PrecomputeLagrange | field.cpp:232-258 | returns one polynomial per node: the monic polynomial with the other nodes as roots, scaled by the inverse of the denominator |
| Lagrange.BasisIsRectangular | field.cpp:232-258 | all precomputed polynomials have one coefficient per node |
| Lagrange.Interpolate | field.cpp:260-273 | fails exactly when the counts differ, there are no values, or a basis row has a different length from the first; otherwise returns the sum of the basis rows weighted by the values |
| Lagrange.LinearCombinationAdditive | field.cpp:260-273 | interpolation is additive in the values |
| Lagrange.LinearCombinationOfUnit | field.cpp:260-273 | interpolating the k-th unit vector returns the k-th basis polynomial |
| AsWritten.Reduce40Signed | field.cpp:43-56 | reduce_GF2_40 with the signed shift of T1's low word still leaves only the low 40 bits |
| AsWritten.Reduce48Signed | field.cpp:58-71 | reduce_GF2_48 with the signed shift leaves only the low 56 bits, its mask |
| AsWritten.SignedAgreesWhenClear | field.cpp:52-53 | the routines as written agree with the intended ones whenever bit 63 of the first product's low word is clear |
| AsWritten.Reduce40SignedOfX63 | field.cpp:52-53 | x^63 (the product y^39 · y^24) reduces as written to y^27+y^25+y^24+y^23, not to the intended y^28+y^27+y^26+y^23 |
| AsWritten.Reduce40SignedNotLinear | field.cpp:331-343 | as written, reducing x^63 + x^64 once gives y^27+y^25+y^24+y^23 while the sum of the separately reduced terms is y^29+y^28+y^25+y^23; the intended routine gives y^29+y^26+y^24+y^23 both ways |
| AsWritten.Reduce40SignedLazyDotProduct | field.cpp:331-343 | the same discrepancy on the products y^39·y^24 and y^39·y^25 that dot_product([y^39, y^39], [y^24, y^25]) sums |
| AsWritten.Reduce40OfX63 | field.cpp:43-56 | the intended routine reduces x^63 to y^28+y^27+y^26+y^23 |
| AsWritten.Reduce40OfX64 | field.cpp:43-56 | the intended routine reduces x^64 to y^29+y^28+y^27+y^24 |
| AsWritten.Reduce40SignedOfX64 | field.cpp:43-56 | the routine as written reduces x^64 to the same y^29+y^28+y^27+y^24, since bit 63 of T1 stays clear |
| AsWritten.Reduce40OfX63PlusX64 | field.cpp:43-56 | the intended routine reduces x^63 + x^64 to y^29+y^26+y^24+y^23, the sum of the two reductions above |
| AsWritten.Reduce40SignedOfX63PlusX64 | field.cpp:52-53 | the routine as written reduces x^63 + x^64 to y^27+y^25+y^24+y^23, the same as x^63 alone |
| AsWritten.Reduce48OfX94X63 | field.cpp:58-71 | the intended routine reduces x^94 + x^63 to the field element y^46+y^20+y^18+y^17+y^15+y^8+y^4+y^3+y^2+y+1 |
| AsWritten.Reduce48SignedOfX94X63 | field.cpp:67-68 | x^94 + x^63 reduces as written to a word with bits 51, 49 and 48 set |
| AsWritten.Reduce48SignedExceeds | field.cpp:67-70 | on x^94 + x^63 the GF(2^48) routine as written returns a word that is not a field element, while the intended routine returns one |

## Left out

- The SSE intrinsics are modelled by their bit-level meaning. These are `_mm_clmulepi64_si128`, `_mm_extract_epi64`, `_mm_set1_epi64x` and `_mm_xor_si128`. `_mm_extract_epi64` returns a signed word; that matters only in the two shifts of "## Findings", which module `AsWritten` models. Timing behaviour is not modelled.
- `GF2E::inverse` (field.cpp:107) returns its argument unchanged and nothing in the core calls it. It is not modelled.
- The NTL inverse and the conversions to and from NTL (`utils::ntl_to_custom`, `custom_to_ntl`) are not part of this model. The inverse is a parameter `inv` of the Lagrange members.
- NTL's failure when inverting 0 is not modelled. With repeated nodes the denominator is 0 (`Lagrange.DenominatorOfRepeatedNode`), and the model passes it to `inv` rather than failing.
- The model does not prove that multiplication is associative, or that the reduction routines compute the remainder modulo their polynomials. The following properties are therefore left out:
  - `Polynomials.Eval` is related to Horner's rule, and not to the sum of coefficient-times-power.
  - `Polynomials.BuildFromRootsVanishes` covers the last root only, not every root.
  - The Lagrange basis is not proved to interpolate, that is, to be 1 at its own node and 0 at the others.
- GF2E.Reduce40: models the routine as intended, with an unsigned shift at field.cpp:53. The routine as written is `AsWritten.Reduce40Signed` (see "## Findings").
- GF2E.Reduce48: models the routine as intended, with an unsigned shift at field.cpp:68; it is proved to return a field element (`GF2E.Reduce48Below`). As written (`AsWritten.Reduce48Signed`) the result is only below 2^56, its mask (see "## Findings").
- GF2E.Reduce: each width's field element bound holds for the intended routines; for the routine as written in GF(2^48) it does not.
- GF2E.ReduceLinear: stated for the intended routines. The GF(2^40) routine as written is not linear (`AsWritten.Reduce40SignedNotLinear`); for the GF(2^48) routine as written, linearity is neither proved nor refuted here.
- GF2E.MulDistributes: stated for the intended routines; with the GF(2^40) routine as written, distributivity fails for the same reason.
- Vectors.ScaleDistributes: stated for the intended routines, as GF2E.MulDistributes.
- Vectors.ScaleBySum: stated for the intended routines, as GF2E.MulDistributes.
- Vectors.LazyReductionIsExact: stated for the intended routines. As written, lazy reduction in GF(2^40) differs from reducing each product (`AsWritten.Reduce40SignedLazyDotProduct`).
- Vectors.DotProduct: requires that the stored routine be one of the three intended reductions. Otherwise lazy reduction would not be exact, as the previous line shows.
- Polynomials.HornerAdditive: stated for the intended routines, as GF2E.MulDistributes.
- Lagrange.LinearCombinationAdditive: stated for the intended routines, as GF2E.MulDistributes.
- Field.ExtensionField.InitExtensionField: the generator powers in the lifting table are computed with the intended routines, which is what `Field.ExtensionField.LiftAdditive` relies on. With the routines as written they may differ for λ = 5 and 6.
- Field.ExtensionField.LiftAdditive: does not state that lifting is multiplicative (lift(a·b) = lift(a)·lift(b)), because GF(2^8)'s multiplication and modulus are not modelled and associativity of Mul is not proved.
- Polynomials.FromRootsIsProduct: needs roots that are field elements.
- Polynomials.HornerAtOne: needs coefficients that are field elements.
- Polynomials.BuildFromRoots: the working vector is modelled as a sequence value that each step reassigns, not as a buffer updated entry by entry. The vector is local to the function, so no aliasing is lost.
- Polynomials.MulByLinear: the same applies to the vector it updates.
- `GF2E::operator==` (field.cpp:103-105) is Dafny's equality on elements.
- Some definitions come from the headers, which are not part of this model. The model assumes:
  - `PARAMETER_SET_INVALID` is 0 and `PARAMETER_SET_MAX_INDEX` is 13;
  - the parameter-set identifiers run 1..12 in table order;
  - `GF2E::set_coeff(i)` sets bit i;
  - `GF2E(x)` stores x unchanged;
  - `GF2E()`, the default constructor, holds 0. The accumulator of `eval` (field.cpp:295), the result vector `res(n)` of `interpolate` (field.cpp:267) and the result vector `result(lhs.size() + rhs.size() - 1)` of polynomial `operator*` (field.cpp:358) start from it.
- Endianness: `htole64`/`le64toh` with `memcpy` of `byte_size` bytes are modelled as the first `byte_size` little-endian bytes of the word.
- Each `std::vector` of `GF2E` values is copied by value. The model passes vectors as sequences of elements. It uses arrays for the buffers the source fills or updates entry by entry: the caller's vector in `operator+=` (`Vectors.AddAssign`), and the local result vectors of `operator+`, scalar and polynomial `operator*` and interpolation (`Vectors.VectorAdd`, `Vectors.ScalarMul`, `Vectors.PolyMul`, `Lagrange.Interpolate`).

## Findings

| source | as written | input that shows it | evidently intended | confidence | as-written member | corrected member |
|---|---|---|---|---|---|---|
| field.cpp:52-53 | `_mm_extract_epi64(T1, 0) >> 40` shifts a signed word, so when bit 63 of T1's low word is set, ones fill bits 24 to 63 of `T1_red` | x^63 = y^39 · y^24 in GF(2^40): as written y^27+y^25+y^24+y^23 | the unsigned shift of the Barrett step, giving y^28+y^27+y^26+y^23 | not executed | AsWritten.Reduce40SignedOfX63 | GF2E.Reduce40 |
| field.cpp:331-343 | dot_product XORs unreduced products and reduces once, which is exact only for a linear routine; the signed shift makes reduce_GF2_40 nonlinear | dot_product([y^39, y^39], [y^24, y^25]) in GF(2^40): y^27+y^25+y^24+y^23 lazily, y^29+y^28+y^25+y^23 when each product is reduced | y^29+y^26+y^24+y^23 both ways | not executed | AsWritten.Reduce40SignedNotLinear | GF2E.ReduceLinear |
| field.cpp:67-70 | `_mm_extract_epi64(T1, 0) >> 48` is the same signed shift; the ones reach bits 48 to 55, which the 56-bit mask keeps | x^94 + x^63 in GF(2^48): as written bits 51, 49 and 48 are set | a field element, y^46+y^20+y^18+y^17+y^15+y^8+y^4+y^3+y^2+y+1 | not executed | AsWritten.Reduce48SignedExceeds | GF2E.Reduce48Below |
