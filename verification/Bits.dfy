/** Fixed-width unsigned registers as bit sequences.

Index `i` of a `Word` is the bit of weight 2^i, which for a CRC register is the
coefficient of x^i. The length of the sequence is the width of the built-in
unsigned integer type. */
module Bits {

  type Word = seq<bool>

  /** An `unsigned char`. */
  type Byte = b: Word | |b| == 8 witness Zeros(8)

  function Zeros(n: nat): (z: Word)
    ensures |z| == n && forall i :: 0 <= i < n ==> !z[i]
  {
    seq(n, i => false)
  }

  function Xor(a: Word, b: Word): (r: Word)
    requires |a| == |b|
    ensures |r| == |a|
    ensures forall i :: 0 <= i < |r| ==> r[i] == (a[i] != b[i])
  {
    seq(|a|, i requires 0 <= i < |a| => a[i] != b[i])
  }

  /** `x << 1` in a register of the same width. */
  function Shl(a: Word): (r: Word)
    ensures |r| == |a|
    ensures forall i :: 0 <= i < |r| ==> r[i] == (i > 0 && a[i - 1])
  {
    if a == [] then [] else [false] + a[..|a| - 1]
  }

  /** `x << k` in a register of the same width. */
  function ShiftLeft(a: Word, k: nat): (r: Word)
    ensures |r| == |a|
    ensures forall i :: 0 <= i < |r| ==> r[i] == (i >= k && a[i - k])
  {
    seq(|a|, i requires 0 <= i < |a| => i >= k && a[i - k])
  }

  /** `x >> k`. */
  function ShiftRight(a: Word, k: nat): (r: Word)
    ensures |r| == |a|
    ensures forall i :: 0 <= i < |r| ==> r[i] == (i + k < |a| && a[i + k])
  {
    seq(|a|, i requires 0 <= i < |a| => i + k < |a| && a[i + k])
  }

  /** All bits in the opposite order. */
  function Rev(a: Word): (r: Word)
    ensures |r| == |a|
    ensures forall i :: 0 <= i < |r| ==> r[i] == a[|a| - 1 - i]
  {
    seq(|a|, i requires 0 <= i < |a| => a[|a| - 1 - i])
  }

  /** The low `n` bits in the opposite order, the bits above them as they were. */
  function RevLow(a: Word, n: nat): (r: Word)
    requires n <= |a|
    ensures |r| == |a|
    ensures r[..n] == Rev(a[..n]) && r[n..] == a[n..]
  {
    Rev(a[..n]) + a[n..]
  }

  /** The value with every bit at or above `n` cleared: `x & low_bits_mask_c<n>`. */
  function MaskLow(a: Word, n: nat): (r: Word)
    requires n <= |a|
    ensures |r| == |a| && r[..n] == a[..n]
    ensures forall i :: n <= i < |r| ==> !r[i]
  {
    a[..n] + Zeros(|a| - n)
  }

  function Pow2(k: nat): nat
  {
    if k == 0 then 1 else 2 * Pow2(k - 1)
  }

  /** The number a word stands for. */
  function ToNat(a: Word): (v: nat)
    ensures v < Pow2(|a|)
  {
    if a == [] then 0 else (if a[0] then 1 else 0) + 2 * ToNat(a[1..])
  }

  /** The low `k` binary digits of a number. */
  function FromNat(v: nat, k: nat): (a: Word)
    ensures |a| == k
  {
    if k == 0 then [] else [v % 2 == 1] + FromNat(v / 2, k - 1)
  }

  lemma {:induction false} FromToNat(a: Word)
    ensures FromNat(ToNat(a), |a|) == a
  {
    if a != [] {
      FromToNat(a[1..]);
      assert a == [a[0]] + a[1..];
    }
  }

  lemma {:induction false} ToFromNat(v: nat, k: nat)
    requires v < Pow2(k)
    ensures ToNat(FromNat(v, k)) == v
  {
    if k > 0 {
      ToFromNat(v / 2, k - 1);
      var a := FromNat(v, k);
      assert a[1..] == FromNat(v / 2, k - 1);
    }
  }

  lemma RevTwice(a: Word)
    ensures Rev(Rev(a)) == a
  {
    assert forall i :: 0 <= i < |a| ==> Rev(Rev(a))[i] == a[i];
  }

  lemma XorZeros(a: Word)
    ensures Xor(a, Zeros(|a|)) == a
    ensures Xor(Zeros(|a|), a) == a
    ensures Xor(a, a) == Zeros(|a|)
  {
  }
}
