/** The bit-serial CRC register on exactly `n` bits, and the algebra of its runs.

Messages are sequences of bits in the order in which they are processed. */
module CrcSpec {
  import opened Bits

  /** A non-empty register with a truncated divisor of the same width. */
  predicate Fits(t: Word, r: Word)
  {
    |t| == |r| && |r| > 0
  }

  function Add(r: Word, t: Word, doIt: bool): (s: Word)
    requires |t| == |r|
    ensures |s| == |r|
    ensures forall i :: 0 <= i < |s| ==> s[i] == (r[i] != (doIt && t[i]))
  {
    if doIt then Xor(r, t) else r
  }

  /** One division step for an unaugmented message. */
  function Step(t: Word, r: Word, b: bool): (s: Word)
    requires Fits(t, r)
    ensures |s| == |r|
  {
    Add(Shl(r), t, r[|r| - 1] != b)
  }

  /** The register after a whole bit message. */
  function Run(t: Word, r: Word, m: seq<bool>): (s: Word)
    requires Fits(t, r)
    ensures |s| == |r|
    decreases |m|
  {
    if m == [] then r else Run(t, Step(t, r, m[0]), m[1..])
  }

  /** Unfolds one step of a run over zeros. */
  lemma RunZeros(t: Word, r: Word, k: nat)
    requires Fits(t, r) && k > 0
    ensures Run(t, r, Zeros(k)) == Run(t, Step(t, r, false), Zeros(k - 1))
  {
    assert Zeros(k)[1..] == Zeros(k - 1);
  }

  lemma {:induction false} RunConcat(t: Word, r: Word, a: seq<bool>, b: seq<bool>)
    requires Fits(t, r)
    ensures Run(t, r, a + b) == Run(t, Run(t, r, a), b)
    decreases |a|
  {
    if a == [] {
      assert a + b == b;
    } else {
      assert (a + b)[1..] == a[1..] + b;
      RunConcat(t, Step(t, r, a[0]), a[1..], b);
    }
  }

  lemma StepLinear(t: Word, r: Word, s: Word, b: bool, c: bool)
    requires Fits(t, r) && |s| == |r|
    ensures Step(t, Xor(r, s), b != c) == Xor(Step(t, r, b), Step(t, s, c))
  {
  }

  /** XOR-linearity of whole runs. */
  lemma {:induction false} RunLinear(t: Word, r: Word, s: Word, a: seq<bool>, b: seq<bool>)
    requires Fits(t, r) && |s| == |r| && |a| == |b|
    ensures Run(t, Xor(r, s), Xor(a, b)) == Xor(Run(t, r, a), Run(t, s, b))
    decreases |a|
  {
    if a != [] {
      assert Xor(a, b)[1..] == Xor(a[1..], b[1..]);
      StepLinear(t, r, s, a[0], b[0]);
      RunLinear(t, Step(t, r, a[0]), Step(t, s, b[0]), a[1..], b[1..]);
    }
  }

  // ---------- moving message bits into the register ----------

  /** The register whose top bits are `w`, first processed bit highest, all others zero. */
  function Place(w: seq<bool>, n: nat): (p: Word)
    requires |w| <= n
    ensures |p| == n
    ensures forall i :: 0 <= i < n ==> p[i] == (i >= n - |w| && w[n - 1 - i])
  {
    seq(n, i requires 0 <= i < n => i >= n - |w| && w[n - 1 - i])
  }

  lemma PlaceShifts(w: seq<bool>, n: nat)
    requires 0 < |w| <= n
    ensures Shl(Place(w, n)) == Place(w[1..], n)
  {
    var p, p' := Place(w, n), Place(w[1..], n);
    forall i | 0 <= i < n ensures Shl(p)[i] == p'[i] {
      if i > 0 {
        assert p'[i] == (i >= n - |w| + 1 && w[n - i]);
      }
    }
  }

  lemma PlacedStep(t: Word, r: Word, w: seq<bool>)
    requires Fits(t, r) && 0 < |w| <= |r|
    ensures Step(t, Xor(r, Place(w, |r|)), false) == Xor(Step(t, r, w[0]), Place(w[1..], |r|))
  {
    var p := Place(w, |r|);
    PlaceShifts(w, |r|);
    assert Shl(Xor(r, p)) == Xor(Shl(r), Shl(p));
  }

  lemma PlaceNothing(r: Word)
    ensures Xor(r, Place([], |r|)) == r
  {
  }

  /** Up to `n` message bits can be added to the register first and zeros processed in their place. */
  lemma {:induction false} RunPlaced(t: Word, r: Word, w: seq<bool>)
    requires Fits(t, r) && |w| <= |r|
    ensures Run(t, r, w) == Run(t, Xor(r, Place(w, |r|)), Zeros(|w|))
    decreases |w|
  {
    hide Step, Add;
    if w == [] {
      PlaceNothing(r);
    } else {
      PlacedStep(t, r, w);
      RunZeros(t, Xor(r, Place(w, |r|)), |w|);
      RunPlaced(t, Step(t, r, w[0]), w[1..]);
    }
  }

  /** While the top bits are zero, processing zeros only shifts. */
  lemma {:induction false} RunShifts(t: Word, r: Word, k: nat)
    requires Fits(t, r) && k <= |r|
    requires forall i :: |r| - k <= i < |r| ==> !r[i]
    ensures Run(t, r, Zeros(k)) == ShiftLeft(r, k)
    decreases k
  {
    if k == 0 {
      assert ShiftLeft(r, 0) == r;
    } else {
      var r' := Step(t, r, false);
      assert r' == Shl(r);
      RunZeros(t, r, k);
      RunShifts(t, r', k - 1);
      assert ShiftLeft(r', k - 1) == ShiftLeft(r, k);
    }
  }

  lemma {:induction false} RunZero(t: Word, n: nat, k: nat)
    requires |t| == n && n > 0
    ensures Run(t, Zeros(n), Zeros(k)) == Zeros(n)
    decreases k
  {
    if k > 0 {
      assert Step(t, Zeros(n), false) == Zeros(n);
      RunZeros(t, Zeros(n), k);
      RunZero(t, n, k - 1);
    }
  }

  // ---------- burst errors ----------

  /** With an odd divisor a zero step never turns a non-zero register into zero. */
  lemma ZeroStepKeepsNonZero(t: Word, r: Word)
    requires Fits(t, r) && t[0] && r != Zeros(|r|)
    ensures Step(t, r, false) != Zeros(|r|)
  {
    var n := |r|;
    var s := Step(t, r, false);
    var i :| 0 <= i < n && r[i];
    assert s[0] == r[n - 1];
    if !r[n - 1] {
      assert s[i + 1];
    }
  }

  lemma {:induction false} ZeroRunKeepsNonZero(t: Word, r: Word, k: nat)
    requires Fits(t, r) && t[0] && r != Zeros(|r|)
    ensures Run(t, r, Zeros(k)) != Zeros(|r|)
    decreases k
  {
    if k > 0 {
      ZeroStepKeepsNonZero(t, r);
      RunZeros(t, r, k);
      ZeroRunKeepsNonZero(t, Step(t, r, false), k - 1);
    }
  }

  /** Two equal-length messages differ, and only inside one window of at most `width` positions. */
  ghost predicate DifferByBurst(a: seq<bool>, b: seq<bool>, start: nat, width: nat)
  {
    && |a| == |b| && a != b
    && start + width <= |a|
    && (forall i :: 0 <= i < |a| && !(start <= i < start + width) ==> a[i] == b[i])
  }

  /** A non-zero window of at most `n` bits leaves a trace in a register that starts at zero. */
  lemma WindowLeavesTrace(t: Word, start: nat, w: seq<bool>, rest: nat)
    requires |t| > 0 && t[0] && |w| <= |t| && true in w
    ensures Run(t, Zeros(|t|), Zeros(start) + (w + Zeros(rest))) != Zeros(|t|)
  {
    hide Run, Step, Add;
    var n := |t|;
    RunConcat(t, Zeros(n), Zeros(start), w + Zeros(rest));
    RunConcat(t, Zeros(n), w, Zeros(rest));
    RunZero(t, n, start);
    RunPlaced(t, Zeros(n), w);
    XorZeros(Place(w, n));
    var i :| 0 <= i < |w| && w[i];
    assert Place(w, n)[n - 1 - i];
    ZeroRunKeepsNonZero(t, Place(w, n), |w|);
    ZeroRunKeepsNonZero(t, Run(t, Zeros(n), w), rest);
  }

  lemma BurstSplits(a: seq<bool>, b: seq<bool>, start: nat, width: nat)
    requires DifferByBurst(a, b, start, width)
    ensures var w := Xor(a, b)[start..start + width];
            true in w && Xor(a, b) == Zeros(start) + (w + Zeros(|a| - start - width))
  {
    var d := Xor(a, b);
    var i :| 0 <= i < |a| && a[i] != b[i];
    assert d[start..start + width][i - start];
  }

  /** Every burst error no longer than the register changes the remainder, whatever it started from. */
  lemma BurstChangesRemainder(t: Word, r: Word, a: seq<bool>, b: seq<bool>, start: nat, width: nat)
    requires Fits(t, r) && t[0]
    requires width <= |r| && DifferByBurst(a, b, start, width)
    ensures Run(t, r, a) != Run(t, r, b)
  {
    BurstSplits(a, b, start, width);
    WindowLeavesTrace(t, start, Xor(a, b)[start..start + width], |a| - start - width);
    XorZeros(r);
    RunLinear(t, r, r, a, b);
    XorZeros(Run(t, r, a));
  }

  /** With an even divisor some register other than zero is wiped out by a zero step. */
  function WipedOut(t: Word): (s: Word)
    requires |t| > 0
    ensures |s| == |t|
  {
    seq(|t|, i requires 0 <= i < |t| => i == |t| - 1 || t[i + 1])
  }

  lemma WipedOutStep(t: Word)
    requires |t| > 0 && !t[0]
    ensures Step(t, WipedOut(t), false) == Zeros(|t|)
  {
    var s := WipedOut(t);
    forall i | 0 <= i < |t| ensures Shl(s)[i] == t[i] {
      if i > 0 {
        assert s[i - 1] == t[i];
      }
    }
  }

  lemma WipedOutRun(t: Word)
    requires |t| > 0 && !t[0]
    ensures Run(t, WipedOut(t), Zeros(|t|)) == Zeros(|t|)
  {
    WipedOutStep(t);
    RunZeros(t, WipedOut(t), |t|);
    RunZero(t, |t|, |t| - 1);
  }

  lemma EvenDivisorMissesBurst(t: Word, r: Word)
    requires Fits(t, r) && !t[0]
    ensures DifferByBurst(Rev(WipedOut(t)), Zeros(|r|), 0, |r|)
    ensures Run(t, r, Rev(WipedOut(t))) == Run(t, r, Zeros(|r|))
  {
    var n := |r|;
    var s := WipedOut(t);
    var w := Rev(s);
    assert s[n - 1] && w[0];
    assert Place(w, n) == s;
    RunPlaced(t, r, w);
    WipedOutRun(t);
    XorZeros(Zeros(n));
    RunLinear(t, r, s, Zeros(n), Zeros(n));
    XorZeros(Run(t, r, Zeros(n)));
  }

  /** Bursts of up to `n` bits are always noticed exactly when the divisor's constant term is 1. */
  lemma BurstGuarantee(t: Word, r: Word)
    requires Fits(t, r)
    ensures t[0] <==> forall a, b, start: nat, width: nat :: width <= |r| && DifferByBurst(a, b, start, width)
                                                   ==> Run(t, r, a) != Run(t, r, b)
  {
    if t[0] {
      forall a, b, start: nat, width: nat | width <= |r| && DifferByBurst(a, b, start, width)
        ensures Run(t, r, a) != Run(t, r, b)
      {
        BurstChangesRemainder(t, r, a, b, start, width);
      }
    } else {
      EvenDivisorMissesBurst(t, r);
    }
  }
}
