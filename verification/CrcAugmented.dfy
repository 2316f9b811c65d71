/** Straight division of a message that carries its own zero bits (or its checksum) at the end. */
module CrcAugmented {
  import opened Bits
  import opened CrcSpec

  /** One division step for an augmented message: the new bit enters at the bottom. */
  function AugStep(t: Word, r: Word, b: bool): (s: Word)
    requires Fits(t, r)
    ensures |s| == |r|
  {
    Add(Shl(r)[0 := b], t, r[|r| - 1])
  }

  function AugRun(t: Word, r: Word, m: seq<bool>): (s: Word)
    requires Fits(t, r)
    ensures |s| == |r|
    decreases |m|
  {
    if m == [] then r else AugRun(t, AugStep(t, r, m[0]), m[1..])
  }

  lemma {:induction false} AugRunConcat(t: Word, r: Word, a: seq<bool>, b: seq<bool>)
    requires Fits(t, r)
    ensures AugRun(t, r, a + b) == AugRun(t, AugRun(t, r, a), b)
    decreases |a|
  {
    hide AugStep;
    if a == [] {
      assert a + b == b;
    } else {
      assert (a + b)[1..] == a[1..] + b;
      AugRunConcat(t, AugStep(t, r, a[0]), a[1..], b);
    }
  }

  lemma AugStepLinear(t: Word, r: Word, s: Word, b: bool, c: bool)
    requires Fits(t, r) && |s| == |r|
    ensures AugStep(t, Xor(r, s), b != c) == Xor(AugStep(t, r, b), AugStep(t, s, c))
  {
  }

  lemma {:induction false} AugRunLinear(t: Word, r: Word, s: Word, a: seq<bool>, b: seq<bool>)
    requires Fits(t, r) && |s| == |r| && |a| == |b|
    ensures AugRun(t, Xor(r, s), Xor(a, b)) == Xor(AugRun(t, r, a), AugRun(t, s, b))
    decreases |a|
  {
    hide AugStep;
    if a != [] {
      assert Xor(a, b)[1..] == Xor(a[1..], b[1..]);
      AugStepLinear(t, r, s, a[0], b[0]);
      AugRunLinear(t, AugStep(t, r, a[0]), AugStep(t, s, b[0]), a[1..], b[1..]);
    }
  }

  lemma AugStepZero(t: Word, r: Word)
    requires Fits(t, r)
    ensures AugStep(t, r, false) == Step(t, r, false)
  {
    assert Shl(r)[0 := false] == Shl(r);
  }

  lemma {:induction false} AugRunZeros(t: Word, r: Word, k: nat)
    requires Fits(t, r)
    ensures AugRun(t, r, Zeros(k)) == Run(t, r, Zeros(k))
    decreases k
  {
    hide AugStep, Step;
    if k > 0 {
      AugStepZero(t, r);
      assert Zeros(k)[1..] == Zeros(k - 1);
      AugRunZeros(t, Step(t, r, false), k - 1);
    }
  }

  // ---------- the augmented register trails the unaugmented one by n zero bits ----------

  /** The word with only its lowest bit possibly set. */
  function Unit(b: bool, n: nat): (u: Word)
    requires n > 0
    ensures |u| == n
  {
    Zeros(n)[0 := b]
  }

  lemma UnitFlushed(t: Word, b: bool)
    requires |t| > 0
    ensures Run(t, Unit(b, |t|), Zeros(|t|)) == if b then t else Zeros(|t|)
  {
    hide Step, Run;
    var n := |t|;
    var u := Unit(b, n);
    if b {
      RunShifts(t, u, n - 1);
      assert Zeros(n) == Zeros(n - 1) + [false];
      RunConcat(t, u, Zeros(n - 1), [false]);
      RunOne(t, ShiftLeft(u, n - 1), false);
      TopBitStep(t);
      assert ShiftLeft(u, n - 1) == Zeros(n)[n - 1 := true];
    } else {
      assert u == Zeros(n);
      RunZero(t, n, n);
    }
  }

  lemma TopBitStep(t: Word)
    requires |t| > 0
    ensures Step(t, Zeros(|t|)[|t| - 1 := true], false) == t
  {
    assert Shl(Zeros(|t|)[|t| - 1 := true]) == Zeros(|t|);
    XorZeros(t);
  }

  lemma RunOne(t: Word, r: Word, b: bool)
    requires Fits(t, r)
    ensures Run(t, r, [b]) == Step(t, r, b)
  {
    hide Step;
    assert [b][1..] == [];
  }

  lemma AugStepSplits(t: Word, r: Word, b: bool)
    requires Fits(t, r)
    ensures AugStep(t, r, b) == Xor(Step(t, r, false), Unit(b, |r|))
  {
  }

  lemma StepSplits(t: Word, r: Word, b: bool)
    requires Fits(t, r)
    ensures Step(t, r, b) == Xor(Step(t, r, false), if b then t else Zeros(|r|))
  {
  }

  /** Feeding a bit at the bottom and flushing later equals comparing it at the top at once. */
  lemma FlushStep(t: Word, r: Word, b: bool)
    requires Fits(t, r)
    ensures Run(t, AugStep(t, r, b), Zeros(|r|)) == Step(t, Run(t, r, Zeros(|r|)), b)
  {
    hide Run, Step, AugStep;
    var n := |r|;
    var z := Step(t, r, false);
    AugStepSplits(t, r, b);
    assert Xor(Zeros(n), Zeros(n)) == Zeros(n);
    RunLinear(t, z, Unit(b, n), Zeros(n), Zeros(n));
    UnitFlushed(t, b);
    RunZeros(t, r, n + 1);
    assert Zeros(n + 1) == Zeros(n) + [false];
    RunConcat(t, r, Zeros(n), [false]);
    RunOne(t, Run(t, r, Zeros(n)), false);
    StepSplits(t, Run(t, r, Zeros(n)), b);
  }

  lemma {:induction false} FlushRun(t: Word, r: Word, m: seq<bool>)
    requires Fits(t, r)
    ensures Run(t, AugRun(t, r, m), Zeros(|r|)) == Run(t, Run(t, r, Zeros(|r|)), m)
    decreases |m|
  {
    hide Step, AugStep;
    if m != [] {
      FlushStep(t, r, m[0]);
      FlushRun(t, AugStep(t, r, m[0]), m[1..]);
    }
  }

  /** A message followed by n zero bits, divided plainly, leaves the unaugmented remainder. */
  lemma AugmentedByZeros(t: Word, r: Word, m: seq<bool>)
    requires Fits(t, r)
    ensures AugRun(t, r, m + Zeros(|r|)) == Run(t, Run(t, r, Zeros(|r|)), m)
  {
    AugRunConcat(t, r, m, Zeros(|r|));
    AugRunZeros(t, AugRun(t, r, m), |r|);
    FlushRun(t, r, m);
  }

  /** Up to n bits are only loaded: no quotient bit can be 1 yet. */
  lemma {:induction false} AugLoad(t: Word, w: seq<bool>)
    requires 0 < |t| && |w| <= |t|
    ensures AugRun(t, Zeros(|t|), w) == Rev(w) + Zeros(|t| - |w|)
    decreases |w|
  {
    hide AugRun;
    var n := |t|;
    if w == [] {
      AugRunNone(t, Zeros(n));
    } else {
      var k := |w| - 1;
      var w' := w[..k];
      assert w == w' + [w[k]];
      AugLoad(t, w');
      AugRunConcat(t, Zeros(n), w', [w[k]]);
      AugRunOne(t, Rev(w') + Zeros(n - k), w[k]);
      AugLoadStep(t, w);
    }
  }

  lemma AugRunNone(t: Word, r: Word)
    requires Fits(t, r)
    ensures AugRun(t, r, []) == r
  {
  }

  lemma AugRunOne(t: Word, r: Word, b: bool)
    requires Fits(t, r)
    ensures AugRun(t, r, [b]) == AugStep(t, r, b)
  {
    hide AugStep;
    assert [b][1..] == [];
  }

  lemma AugLoadStep(t: Word, w: seq<bool>)
    requires 0 < |w| <= |t|
    ensures var k := |w| - 1;
            AugStep(t, Rev(w[..k]) + Zeros(|t| - k), w[k]) == Rev(w) + Zeros(|t| - |w|)
  {
    var n, k := |t|, |w| - 1;
    var r := Rev(w[..k]) + Zeros(n - k);
    var s := Rev(w) + Zeros(n - |w|);
    assert !r[n - 1];
    forall i | 0 <= i < n ensures Shl(r)[0 := w[k]][i] == s[i] {
      if i > 0 {
        assert Shl(r)[i] == r[i - 1];
      }
    }
  }

  /** A message followed by its own checksum, highest bit first, divides evenly;
  any other n bits in its place do not. */
  lemma AugmentedByChecksum(t: Word, m: seq<bool>, c: Word)
    requires |t| > 0 && |c| == |t|
    ensures AugRun(t, Zeros(|t|), m + Rev(c)) == Xor(Run(t, Zeros(|t|), m), c)
    ensures AugRun(t, Zeros(|t|), m + Rev(c)) == Zeros(|t|) <==> c == Run(t, Zeros(|t|), m)
  {
    hide AugRun, Run;
    var n := |t|;
    var r := AugRun(t, Zeros(n), m);
    AugRunConcat(t, Zeros(n), m, Rev(c));
    XorZeros(r);
    XorZeros(Rev(c));
    AugRunLinear(t, r, Zeros(n), Zeros(n), Rev(c));
    AugLoad(t, Rev(c));
    RevTwice(c);
    assert Rev(Rev(c)) + Zeros(0) == c;
    AugRunConcat(t, Zeros(n), m, Zeros(n));
    AugmentedByZeros(t, Zeros(n), m);
    RunZero(t, n, n);
    XorIsZero(Run(t, Zeros(n), m), c);
  }

  lemma XorIsZero(a: Word, b: Word)
    requires |a| == |b|
    ensures Xor(a, b) == Zeros(|a|) <==> a == b
  {
    if Xor(a, b) == Zeros(|a|) {
      forall i | 0 <= i < |a| ensures a[i] == b[i] {
        assert !Xor(a, b)[i];
      }
    }
  }
}
