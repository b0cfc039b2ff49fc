/** Machine words as polynomials over GF(2): a word of n bits is the sequence of its
    n coefficient bits, lowest degree (bit 0) first. The bitwise operations of the
    C++ source (^, |, &, <<, >> by a constant) become pointwise operations on these
    sequences. */
module Bits {

  type Bits = seq<bool>

  function Zeros(n: nat): (r: Bits)
    ensures |r| == n && forall i :: 0 <= i < n ==> !r[i]
  {
    seq(n, _ => false)
  }

  predicate IsZero(v: Bits) {
    forall i :: 0 <= i < |v| ==> !v[i]
  }

  /** No bit at position `k` or above is set: the word is below 2^k. */
  predicate Below(v: Bits, k: nat) {
    forall i :: k <= i < |v| ==> !v[i]
  }

  /** The `n`-bit word whose set bits are exactly the exponents in `e`. */
  function FromExponents(n: nat, e: set<int>): (r: Bits)
    ensures |r| == n && forall i :: 0 <= i < n ==> r[i] == (i in e)
  {
    seq(n, i => i in e)
  }

  /** `a ^ b` */
  function Xor(a: Bits, b: Bits): (r: Bits)
    requires |a| == |b|
    ensures |r| == |a| && forall i {:trigger r[i]} :: 0 <= i < |a| ==> r[i] == (a[i] != b[i])
  {
    seq(|a|, i requires 0 <= i < |a| => a[i] != b[i])
  }

  /** `a | b` */
  function Or(a: Bits, b: Bits): (r: Bits)
    requires |a| == |b|
    ensures |r| == |a| && forall i {:trigger r[i]} :: 0 <= i < |a| ==> r[i] == (a[i] || b[i])
  {
    seq(|a|, i requires 0 <= i < |a| => a[i] || b[i])
  }

  /** `v >> k` on a word of |v| bits. */
  function ShiftRight(v: Bits, k: nat): (r: Bits)
    ensures |r| == |v| && forall i :: 0 <= i < |v| ==> r[i] == (i + k < |v| && v[i + k])
  {
    seq(|v|, i requires 0 <= i < |v| => i + k < |v| && v[i + k])
  }

  /** `v >> k` on a signed word, as GCC and Clang compile it: an arithmetic
      shift, which copies the top (sign) bit into the k vacated top bits. */
  function ShiftRightSigned(v: Bits, k: nat): (r: Bits)
    requires |v| > 0
    ensures |r| == |v| && forall i :: 0 <= i < |v| ==> r[i] == (if i + k < |v| then v[i + k] else v[|v| - 1])
  {
    seq(|v|, i requires 0 <= i < |v| => if i + k < |v| then v[i + k] else v[|v| - 1])
  }

  /** `v << k` on a word of |v| bits (bits shifted past the top are lost). */
  function ShiftLeft(v: Bits, k: nat): (r: Bits)
    ensures |r| == |v| && forall i :: 0 <= i < |v| ==> r[i] == (k <= i && v[i - k])
  {
    seq(|v|, i requires 0 <= i < |v| => k <= i && v[i - k])
  }

  /** `v & ((1 << k) - 1)`: keep the low `k` bits. */
  function KeepLow(v: Bits, k: nat): (r: Bits)
    ensures |r| == |v| && forall i {:trigger r[i]} :: 0 <= i < |v| ==> r[i] == (i < k && v[i])
  {
    seq(|v|, i requires 0 <= i < |v| => i < k && v[i])
  }

  /** Zero-extension of `v` to `n` bits. */
  function Widen(v: Bits, n: nat): (r: Bits)
    requires |v| <= n
    ensures |r| == n && forall i {:trigger r[i]} :: 0 <= i < n ==> r[i] == (i < |v| && v[i])
  {
    v + Zeros(n - |v|)
  }

  // ---------------------------------------------------------------------------
  // XOR is an abelian group on words of one width, and every operation above
  // except Or is linear with respect to it.

  lemma XorComm(a: Bits, b: Bits)
    requires |a| == |b|
    ensures Xor(a, b) == Xor(b, a)
  {
  }

  lemma XorAssoc(a: Bits, b: Bits, c: Bits)
    requires |a| == |b| == |c|
    ensures Xor(Xor(a, b), c) == Xor(a, Xor(b, c))
  {
  }

  lemma XorZero(a: Bits)
    ensures Xor(a, Zeros(|a|)) == a && Xor(Zeros(|a|), a) == a
  {
  }

  lemma XorSelf(a: Bits)
    ensures Xor(a, a) == Zeros(|a|)
  {
  }

  /** (t ^ t') ^ (x ^ x') == (t ^ x) ^ (t' ^ x') */
  lemma XorSwapMiddle(t: Bits, t': Bits, x: Bits, x': Bits)
    requires |t| == |t'| == |x| == |x'|
    ensures Xor(Xor(t, t'), Xor(x, x')) == Xor(Xor(t, x), Xor(t', x'))
  {
  }

  lemma OrDisjointIsXor(a: Bits, b: Bits)
    requires |a| == |b|
    requires forall i :: 0 <= i < |a| ==> !(a[i] && b[i])
    ensures Or(a, b) == Xor(a, b)
  {
  }

  lemma ShiftRightLinear(u: Bits, v: Bits, k: nat)
    requires |u| == |v|
    ensures ShiftRight(Xor(u, v), k) == Xor(ShiftRight(u, k), ShiftRight(v, k))
  {
  }

  lemma ShiftLeftLinear(u: Bits, v: Bits, k: nat)
    requires |u| == |v|
    ensures ShiftLeft(Xor(u, v), k) == Xor(ShiftLeft(u, k), ShiftLeft(v, k))
  {
  }

  lemma KeepLowLinear(u: Bits, v: Bits, k: nat)
    requires |u| == |v|
    ensures KeepLow(Xor(u, v), k) == Xor(KeepLow(u, k), KeepLow(v, k))
  {
  }

  lemma WidenLinear(u: Bits, v: Bits, n: nat)
    requires |u| == |v| <= n
    ensures Widen(Xor(u, v), n) == Xor(Widen(u, n), Widen(v, n))
  {
  }

  lemma SliceLinear(u: Bits, v: Bits, lo: nat, hi: nat)
    requires |u| == |v| && lo <= hi <= |u|
    ensures Xor(u, v)[lo..hi] == Xor(u[lo..hi], v[lo..hi])
  {
  }

  // ---------------------------------------------------------------------------
  // Bytes, and words as little-endian byte strings.

  function Pow2(n: nat): (r: nat)
    ensures r >= 1
  {
    if n == 0 then 1 else 2 * Pow2(n - 1)
  }

  /** uint8_t */
  type Byte = x: nat | x < 256

  /** The number whose binary digits, lowest first, are `v`. */
  function BitsToNat(v: Bits): (r: nat)
    ensures r < Pow2(|v|)
  {
    if |v| == 0 then 0 else (if v[0] then 1 else 0) + 2 * BitsToNat(v[1..])
  }

  /** The low `n` binary digits of `x`, lowest first. */
  function NatToBits(x: nat, n: nat): (r: Bits)
    ensures |r| == n
  {
    if n == 0 then [] else [x % 2 == 1] + NatToBits(x / 2, n - 1)
  }

  lemma {:induction false} NatToBitsToNat(v: Bits)
    ensures NatToBits(BitsToNat(v), |v|) == v
  {
    if |v| > 0 {
      var x := BitsToNat(v);
      assert x % 2 == 1 <==> v[0];
      assert x / 2 == BitsToNat(v[1..]);
      NatToBitsToNat(v[1..]);
    }
  }

  lemma {:induction false} BitsToNatToBits(x: nat, n: nat)
    requires x < Pow2(n)
    ensures BitsToNat(NatToBits(x, n)) == x
  {
    if n > 0 {
      BitsToNatToBits(x / 2, n - 1);
      assert NatToBits(x, n)[1..] == NatToBits(x / 2, n - 1);
    }
  }

  /** Splits a whole number of bytes' worth of bits into bytes, lowest first. */
  function BitsToBytes(v: Bits): (r: seq<Byte>)
    requires |v| % 8 == 0
    ensures 8 * |r| == |v|
  {
    if |v| == 0 then [] else [BitsToNat(v[..8]) as Byte] + BitsToBytes(v[8..])
  }

  /** Concatenates the bits of each byte, lowest byte first. */
  function BytesToBits(b: seq<Byte>): (r: Bits)
    ensures |r| == 8 * |b|
  {
    if |b| == 0 then [] else NatToBits(b[0], 8) + BytesToBits(b[1..])
  }

  lemma {:induction false} BitsToBytesRoundTrip(v: Bits)
    requires |v| % 8 == 0
    ensures BytesToBits(BitsToBytes(v)) == v
    decreases |v|
  {
    if |v| > 0 {
      NatToBitsToNat(v[..8]);
      BitsToBytesRoundTrip(v[8..]);
      assert BitsToBytes(v)[1..] == BitsToBytes(v[8..]);
      assert v == v[..8] + v[8..];
    }
  }

  lemma {:induction false} BytesToBitsRoundTrip(b: seq<Byte>)
    ensures BitsToBytes(BytesToBits(b)) == b
  {
    if |b| > 0 {
      var v := BytesToBits(b);
      assert v[..8] == NatToBits(b[0], 8);
      assert v[8..] == BytesToBits(b[1..]);
      assert Pow2(8) == 256;
      BitsToNatToBits(b[0], 8);
      BytesToBitsRoundTrip(b[1..]);
    }
  }
}
