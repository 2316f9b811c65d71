/** Byte-wise updates driven by a table of partial products, and why they refine the bit-serial ones. */
module CrcTable {
  import opened Bits
  import opened CrcSpec
  import opened CrcAugmented
  import opened CrcEngine

  // ---------- the table ----------

  /** The composite effect of the `k` bits of unit `i` on a zero register. */
  function TableEntry(n: nat, t: Word, reflect: bool, i: Word): (e: Word)
    requires 0 < n <= |t|
    ensures |e| == |t|
  {
    var remainder := WordRun(n, t, Zeros(|t|), Reading(i, |i|, reflect));
    if reflect then RevLow(remainder, n) else remainder
  }

  ghost predicate IsTable(table: seq<Word>, k: nat, n: nat, t: Word, reflect: bool)
    requires 0 < n <= |t|
  {
    && |table| == Pow2(k)
    && forall i :: 0 <= i < |table| ==> table[i] == TableEntry(n, t, reflect, FromNat(i, k))
  }

  /** Where the entry for dividend `d` is stored. */
  function Slot(d: nat, k: nat, reflect: bool): (i: nat)
    requires d < Pow2(k)
    ensures i < Pow2(k)
  {
    if reflect then ToNat(Rev(FromNat(d, k))) else d
  }

  lemma SlotTwice(d: nat, k: nat, reflect: bool)
    requires d < Pow2(k)
    ensures Slot(Slot(d, k, reflect), k, reflect) == d
    ensures FromNat(Slot(d, k, reflect), k) == if reflect then Rev(FromNat(d, k)) else FromNat(d, k)
  {
    FromToNat(Rev(FromNat(d, k)));
    RevTwice(FromNat(d, k));
    ToFromNat(d, k);
  }

  lemma SlotIs(d: nat, k: nat, reflect: bool, at: nat)
    requires d < Pow2(k) && at == if reflect then ToNat(Rev(FromNat(d, k))) else d
    ensures at == Slot(d, k, reflect)
    ensures forall i | 0 <= i < Pow2(k) && Slot(i, k, reflect) == d :: i == at
  {
    forall i | 0 <= i < Pow2(k) && Slot(i, k, reflect) == d ensures i == at {
      SlotTwice(i, k, reflect);
    }
  }

  lemma TableEntryOfDividend(n: nat, t: Word, reflect: bool, d: nat, k: nat, remainder: Word)
    requires 0 < n <= |t| && d < Pow2(k)
    requires remainder == WordRun(n, t, Zeros(|t|), Reading(FromNat(d, k), k, false))
    ensures TableEntry(n, t, reflect, FromNat(Slot(d, k, reflect), k))
            == if reflect then RevLow(remainder, n) else remainder
  {
    hide WordRun;
    SlotTwice(d, k, reflect);
    var i := FromNat(Slot(d, k, reflect), k);
    assert Reading(i, |i|, reflect) == Reading(FromNat(d, k), k, false);
  }

  /** The body of the loop that fills the table: one dividend's entry and where it goes. */
  method PartialXorProduct(subOrder: nat, n: nat, truncatedDivisor: Word, reflect: bool, dividend: nat)
    returns (at: nat, remainder: Word)
    requires 0 < subOrder <= n <= |truncatedDivisor| && dividend < Pow2(subOrder)
    ensures at < Pow2(subOrder)
    ensures forall i | 0 <= i < Pow2(subOrder) && Slot(i, subOrder, reflect) == dividend :: i == at
    ensures remainder == TableEntry(n, truncatedDivisor, reflect, FromNat(at, subOrder))
  {
    hide TableEntry, Slot, WordRun, Reading;
    remainder := Zeros(|truncatedDivisor|);
    var bits := FromNat(dividend, subOrder);
    remainder := CrcModuloWordUpdate(n, remainder, bits, truncatedDivisor, subOrder, false);
    TableEntryOfDividend(n, truncatedDivisor, reflect, dividend, subOrder, remainder);
    at := dividend;
    if reflect {
      bits := ReflectUnsigned(bits, subOrder);
      RevLowAll(FromNat(dividend, subOrder));
      at := ToNat(bits);
      remainder := ReflectUnsigned(remainder, n);
    }
    SlotIs(dividend, subOrder, reflect, at);
  }

  method MakePartialXorProductsTable(subOrder: nat, n: nat, truncatedDivisor: Word, reflect: bool)
    returns (result: array<Word>)
    requires 0 < subOrder <= n <= |truncatedDivisor|
    ensures fresh(result)
    ensures IsTable(result[..], subOrder, n, truncatedDivisor, reflect)
  {
    hide TableEntry, Slot, FromNat, Pow2;
    result := new Word[Pow2(subOrder)](_ => []);
    var dividend := 0;
    while dividend < result.Length
      invariant 0 <= dividend <= result.Length
      invariant forall i :: 0 <= i < result.Length && Slot(i, subOrder, reflect) < dividend
                  ==> result[i] == TableEntry(n, truncatedDivisor, reflect, FromNat(i, subOrder))
    {
      var at, remainder := PartialXorProduct(subOrder, n, truncatedDivisor, reflect, dividend);
      result[at] := remainder;
      dividend := dividend + 1;
    }
    forall i | 0 <= i < result.Length
      ensures result[i] == TableEntry(n, truncatedDivisor, reflect, FromNat(i, subOrder))
    {
      assert Slot(i, subOrder, reflect) < dividend;
    }
  }

  // ---------- one byte through the table ----------

  /** The most significant byte of the `n` significant bits. */
  function TopByte(n: nat, r: Word): (x: Byte)
    requires 8 <= n <= |r|
    ensures x == r[n - 8..n]
  {
    ShiftRight(r, n - 8)[..8]
  }

  function DirectByte(n: nat, t: Word, r: Word, x: Byte): (s: Word)
    requires Sized(n, t, r) && 8 <= n
    ensures |s| == |r|
  {
    Xor(ShiftLeft(r, 8), TableEntry(n, t, false, Xor(TopByte(n, r), x)))
  }

  function ReflectedByte(n: nat, t: Word, r: Word, x: Byte): (s: Word)
    requires Sized(n, t, r) && 8 <= n
    ensures |s| == |r|
  {
    Xor(ShiftRight(r, 8), TableEntry(n, t, true, Xor(r[..8], x)))
  }

  function AugDirectByte(n: nat, t: Word, r: Word, x: Byte): (s: Word)
    requires Sized(n, t, r) && 8 <= n
    ensures |s| == |r|
  {
    Xor(x + ShiftLeft(r, 8)[8..], TableEntry(n, t, false, TopByte(n, r)))
  }

  /** Eight message bits act as a shift and the table entry for the leading byte. */
  lemma ByteSplits(t: Word, r: Word, x: Byte)
    requires Fits(t, r) && 8 <= |r|
    ensures Run(t, r, Rev(x)) == Xor(ShiftLeft(r, 8), Run(t, Zeros(|r|), Rev(Xor(r[|r| - 8..], x))))
  {
    hide Run;
    var n := |r|;
    var index: Byte := Xor(r[n - 8..], x);
    var low := r[..n - 8] + Zeros(8);
    RunPlaced(t, r, Rev(x));
    RunPlaced(t, Zeros(n), Rev(index));
    XorZeros(Place(Rev(index), n));
    PlacedSplits(r, x);
    RunLinear(t, low, Place(Rev(index), n), Zeros(8), Zeros(8));
    XorZeros(Zeros(8));
    RunShifts(t, low, 8);
    assert ShiftLeft(low, 8) == ShiftLeft(r, 8);
  }

  lemma PlacedSplits(r: Word, x: Byte)
    requires 8 <= |r|
    ensures Xor(r, Place(Rev(x), |r|))
            == Xor(r[..|r| - 8] + Zeros(8), Place(Rev(Xor(r[|r| - 8..], x)), |r|))
  {
    var n := |r|;
    var index := Xor(r[n - 8..], x);
    forall i | 0 <= i < n
      ensures Xor(r, Place(Rev(x), n))[i] == Xor(r[..n - 8] + Zeros(8), Place(Rev(index), n))[i]
    {
      if i >= n - 8 {
        assert Rev(x)[n - 1 - i] == x[i - (n - 8)];
        assert Rev(index)[n - 1 - i] == index[i - (n - 8)];
      }
    }
  }

  lemma TableEntryLow(n: nat, t: Word, reflect: bool, i: Word)
    requires 0 < n <= |t|
    ensures TableEntry(n, t, reflect, i)[..n]
            == var s := Run(t[..n], Zeros(n), Reading(i, |i|, reflect)); if reflect then Rev(s) else s
  {
    hide WordRun, Run;
    WordRunLow(n, t, Zeros(|t|), Reading(i, |i|, reflect));
    assert Zeros(|t|)[..n] == Zeros(n);
  }

  lemma LowOfParts(a: Word, b: Word, n: nat)
    requires |a| == |b| && n <= |a|
    ensures Xor(a, b)[..n] == Xor(a[..n], b[..n])
    ensures ShiftLeft(a, 8)[..n] == ShiftLeft(a[..n], 8)
  {
  }

  /** The direct table step performs exactly the eight bit-serial steps on the significant bits. */
  lemma DirectByteLow(n: nat, t: Word, r: Word, x: Byte)
    requires Sized(n, t, r) && 8 <= n
    ensures DirectByte(n, t, r, x)[..n] == Run(t[..n], r[..n], Reading(x, 8, false))
  {
    hide Run, TableEntry, ShiftLeft;
    var index: Byte := Xor(TopByte(n, r), x);
    ByteSplits(t[..n], r[..n], x);
    TableEntryLow(n, t, false, index);
    LowOfParts(ShiftLeft(r, 8), TableEntry(n, t, false, index), n);
    LowOfParts(r, r, n);
    assert r[..n][n - 8..] == TopByte(n, r);
    assert index[..8] == index && x[..8] == x;
  }

  lemma AugByteSplits(t: Word, r: Word, x: Byte)
    requires Fits(t, r) && 8 <= |r|
    ensures AugRun(t, r, Rev(x)) == Xor(Run(t, r, Zeros(8)), x + Zeros(|r| - 8))
  {
    hide AugRun, Run;
    var n := |r|;
    XorZeros(r);
    XorZeros(Rev(x));
    AugRunLinear(t, r, Zeros(n), Zeros(8), Rev(x));
    AugRunZeros(t, r, 8);
    AugLoad(t, Rev(x));
    RevTwice(x);
  }

  lemma AugDirectByteLow(n: nat, t: Word, r: Word, x: Byte)
    requires Sized(n, t, r) && 8 <= n
    ensures AugDirectByte(n, t, r, x)[..n] == AugRun(t[..n], r[..n], Reading(x, 8, false))
  {
    hide AugRun, Run, TableEntry;
    var index := TopByte(n, r);
    var e := TableEntry(n, t, false, index);
    AugByteSplits(t[..n], r[..n], x);
    ByteSplits(t[..n], r[..n], Zeros(8));
    assert Rev(Zeros(8)) == Zeros(8);
    XorZeros(index);
    assert r[..n][n - 8..] == index;
    TableEntryLow(n, t, false, index);
    assert index[..8] == index && x[..8] == x;
    var shifted := ShiftLeft(r[..n], 8);
    assert Xor(x + ShiftLeft(r, 8)[8..], e)[..n] == Xor(Xor(shifted, e[..n]), x + Zeros(n - 8));
  }

  /** In a register with no spare bits the reflected step is the mirror image of the direct one. */
  lemma ReflectedByteMirrors(t: Word, r: Word, x: Byte)
    requires Fits(t, r) && 8 <= |r|
    ensures ReflectedByte(|r|, t, r, x) == Rev(DirectByte(|r|, t, Rev(r), Rev(x)))
    ensures Rev(ReflectedByte(|r|, t, r, x)) == Run(t, Rev(r), Reading(x, 8, true))
  {
    hide Run, TableEntry;
    var n := |r|;
    var index: Byte := Xor(r[..8], x);
    var mirrored: Byte := Xor(TopByte(n, Rev(r)), Rev(x));
    assert mirrored == Rev(index);
    TableEntryLow(n, t, true, index);
    TableEntryLow(n, t, false, mirrored);
    RevTwice(index);
    assert index[..8] == index && mirrored[..8] == mirrored && t[..n] == t;
    var s := Run(t, Zeros(n), index);
    assert TableEntry(n, t, true, index)[..n] == TableEntry(n, t, true, index);
    assert TableEntry(n, t, false, mirrored)[..n] == TableEntry(n, t, false, mirrored);
    assert ShiftRight(r, 8) == Rev(ShiftLeft(Rev(r), 8));
    XorRev(ShiftLeft(Rev(r), 8), s);
    RevTwice(DirectByte(n, t, Rev(r), Rev(x)));
    DirectByteLow(n, t, Rev(r), Rev(x));
    RevTwice(x);
    assert DirectByte(n, t, Rev(r), Rev(x))[..n] == DirectByte(n, t, Rev(r), Rev(x));
    assert Rev(r)[..n] == Rev(r) && Rev(x)[..8] == Rev(x) && x[..8] == x;
  }

  lemma XorRev(a: Word, b: Word)
    requires |a| == |b|
    ensures Xor(Rev(a), Rev(b)) == Rev(Xor(a, b))
  {
  }
}
