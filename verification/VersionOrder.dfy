/** `strverscmp` and the order it puts on C strings. */
module VersionOrder {

  /** The bytes of a C string before its terminating zero. */
  type CString = s: seq<int> | forall i :: 0 <= i < |s| ==> 0 < s[i] < 256
    witness []

  const ZERO := 48
  const NINE := 57

  predicate IsDigit(c: int)
  {
    ZERO <= c <= NINE
  }

  /** The byte at position `i`, the terminator included. */
  function At(s: CString, i: nat): (c: int)
    requires i <= |s|
    ensures 0 <= c < 256 && (c == 0 <==> i == |s|)
  {
    if i < |s| then s[i] else 0
  }

  // ---------- what the loops of the comparison find ----------

  predicate AgreeUpTo(a: CString, b: CString, i: nat)
  {
    i <= |a| && i <= |b| && forall k :: 0 <= k < i ==> a[k] == b[k]
  }

  /** The first position at which the two terminated strings differ, or their common length. */
  function FirstDifference(a: CString, b: CString, i: nat): (d: nat)
    requires AgreeUpTo(a, b, i)
    ensures i <= d && AgreeUpTo(a, b, d)
    ensures At(a, d) == At(b, d) <==> a == b
    decreases |a| - i
  {
    if At(a, i) != At(b, i) || i == |a| then i else FirstDifference(a, b, i + 1)
  }

  /** The start of the digit run that ends just before `i`. */
  function RunStart(s: CString, i: nat): (j: nat)
    requires i <= |s|
    ensures j <= i && (forall k :: j <= k < i ==> IsDigit(s[k])) && (j > 0 ==> !IsDigit(s[j - 1]))
  {
    if i > 0 && IsDigit(s[i - 1]) then RunStart(s, i - 1) else i
  }

  /** The end of the digit run that starts at `k`. */
  function RunEnd(s: CString, k: nat): (e: nat)
    requires k <= |s|
    ensures k <= e <= |s| && !IsDigit(At(s, e))
    ensures forall m :: k <= m < e ==> IsDigit(s[m])
    decreases |s| - k
  {
    if IsDigit(At(s, k)) then RunEnd(s, k + 1) else k
  }

  /** The first position from `j` on that is not a zero common to both strings. */
  function SkipZeros(a: CString, b: CString, j: nat): (e: nat)
    requires j <= |a| && j <= |b|
    ensures j <= e <= |a| && e <= |b| && !(At(a, e) == ZERO && At(a, e) == At(b, e))
    ensures forall m :: j <= m < e ==> a[m] == ZERO == b[m]
    decreases |a| - j
  {
    if At(a, j) == ZERO && At(a, j) == At(b, j) then SkipZeros(a, b, j + 1) else j
  }

  /** The verdict for strings that first differ at `i`, in or after a digit run that starts at `j`. */
  function Verdict(a: CString, b: CString, i: nat, j: nat): (r: int)
    requires j <= i <= |a| && i <= |b|
  {
    var alphabetical := At(a, i) - At(b, i);
    if At(a, j) == ZERO || At(b, j) == ZERO then
      var z := SkipZeros(a, b, j);
      if IsDigit(At(a, z)) && !IsDigit(At(b, z)) then -1
      else if !IsDigit(At(a, z)) && IsDigit(At(b, z)) then 1
      else alphabetical
    else if IsDigit(At(a, j)) && IsDigit(At(b, j)) then
      var k1, k2 := RunEnd(a, j), RunEnd(b, j);
      if k1 < k2 then -1 else if k1 > k2 then 1 else alphabetical
    else alphabetical
  }

  /** The value the comparison returns. */
  function VerCmp(a: CString, b: CString): (r: int)
  {
    var i := FirstDifference(a, b, 0);
    if At(a, i) == At(b, i) then 0 else Verdict(a, b, i, RunStart(a, i))
  }

  lemma DifferenceBounded(a: CString, b: CString, k: nat)
    requires k <= |a| && k <= |b| && At(a, k) != At(b, k)
    ensures FirstDifference(a, b, 0) <= k
  {
  }

  lemma FirstDifferenceIs(a: CString, b: CString, i: nat)
    requires AgreeUpTo(a, b, i) && At(a, i) != At(b, i)
    ensures a != b && FirstDifference(a, b, 0) == i
  {
    DifferenceBounded(a, b, i);
    assert forall k :: 0 <= k < i ==> At(a, k) == At(b, k);
  }

  lemma VerCmpIsVerdict(a: CString, b: CString, i: nat, j: nat)
    requires a != b && i == FirstDifference(a, b, 0) && j == RunStart(a, i)
    ensures VerCmp(a, b) == Verdict(a, b, i, j)
  {
    hide Verdict;
  }

  /** Counts the digits from `k` on. */
  method EndOfRun(s: CString, k: nat) returns (e: nat)
    requires k <= |s|
    ensures e == RunEnd(s, k)
  {
    e := k;
    while IsDigit(At(s, e))
      invariant k <= e <= |s| && RunEnd(s, e) == RunEnd(s, k)
      decreases |s| - e
    {
      e := e + 1;
    }
  }

  /** The comparison once the first difference `i` and its digit run's start are known. */
  method ModeAndVerdict(a: CString, b: CString, i: nat, start: nat) returns (r: int)
    requires start <= i <= |a| && i <= |b|
    ensures r == Verdict(a, b, i, start)
  {
    var j := start;
    if At(a, j) == ZERO || At(b, j) == ZERO {
      while At(a, j) == ZERO && At(a, j) == At(b, j)
        invariant start <= j <= |a| && j <= |b| && SkipZeros(a, b, j) == SkipZeros(a, b, start)
        decreases |a| - j
      {
        j := j + 1;
      }
      if IsDigit(At(a, j)) {
        if !IsDigit(At(b, j)) {
          return -1;
        }
      } else if IsDigit(At(b, j)) {
        return 1;
      }
    } else if IsDigit(At(a, j)) && IsDigit(At(b, j)) {
      var k1 := EndOfRun(a, j);
      var k2 := EndOfRun(b, j);
      if k1 < k2 {
        return -1;
      } else if k1 > k2 {
        return 1;
      }
    }
    return At(a, i) - At(b, i);
  }

  method StrVersCmp(a: CString, b: CString) returns (r: int)
    ensures r == VerCmp(a, b)
  {
    var i := 0;
    while At(a, i) == At(b, i)
      invariant 0 <= i && AgreeUpTo(a, b, i)
      decreases |a| - i
    {
      if At(a, i) == 0 {
        return 0;
      }
      i := i + 1;
    }
    FirstDifferenceIs(a, b, i);
    hide FirstDifference, VerCmp, Verdict;
    var j := i;
    while j > 0 && IsDigit(At(a, j - 1))
      invariant 0 <= j <= i && RunStart(a, j) == RunStart(a, i)
    {
      j := j - 1;
    }
    VerCmpIsVerdict(a, b, i, j);
    r := ModeAndVerdict(a, b, i, j);
  }

  // ---------- sort keys ----------

  function Sign(x: int): int
  {
    if x < 0 then -1 else if x > 0 then 1 else 0
  }

  /** Sign of the lexicographic comparison of two key sequences. */
  function LexSign(x: seq<int>, y: seq<int>): (s: int)
    ensures -1 <= s <= 1
  {
    if x == [] && y == [] then 0
    else if x == [] then -1
    else if y == [] then 1
    else if x[0] != y[0] then Sign(x[0] - y[0])
    else LexSign(x[1..], y[1..])
  }

  /** How a byte is ranked, given the digit run before it. */
  datatype Mode = Text | LeadingZeros | Fraction | Number

  function ModeAt(s: CString, p: nat): Mode
    requires p <= |s|
  {
    var q := RunStart(s, p);
    if q == p then Text
    else if s[q] != ZERO then Number
    else if forall k :: q <= k < p ==> s[k] == ZERO then LeadingZeros
    else Fraction
  }

  /** The ranks of position `p`: a number is ranked by its length before its digits, a digit
  after leading zeros below everything else, a leading zero below even the terminator. */
  function Ranks(s: CString, p: nat): (ks: seq<int>)
    requires p <= |s|
    ensures 1 <= |ks| <= 3
  {
    var c := At(s, p);
    match ModeAt(s, p)
    case Text =>
      if c == ZERO then [-1]
      else if IsDigit(c) then [ZERO, RunEnd(s, p) - p, c]
      else [c]
    case LeadingZeros => if IsDigit(c) then [c - 256] else [c]
    case Fraction => [c]
    case Number => [c]
  }

  function Key(s: CString, p: nat): (ks: seq<int>)
    requires p <= |s|
    decreases |s| - p
  {
    Ranks(s, p) + if p < |s| then Key(s, p + 1) else []
  }

  lemma {:induction false} LexPrefix(x: seq<int>, y: seq<int>, z: seq<int>)
    ensures LexSign(x + y, x + z) == LexSign(y, z)
  {
    if x == [] {
      assert x + y == y && x + z == z;
    } else {
      assert (x + y)[1..] == x[1..] + y && (x + z)[1..] == x[1..] + z;
      LexPrefix(x[1..], y, z);
    }
  }

  /** A difference within the common length decides. */
  lemma {:induction false} LexDecided(x: seq<int>, y: seq<int>, u: seq<int>, v: seq<int>, k: nat)
    requires k < |x| && k < |y| && x[..k] == y[..k] && x[k] != y[k]
    ensures LexSign(x + u, y + v) == Sign(x[k] - y[k])
  {
    if k > 0 {
      assert x[0] == x[..k][0] == y[..k][0] == y[0];
      assert (x + u)[1..] == x[1..] + u && (y + v)[1..] == y[1..] + v;
      assert x[1..][..k - 1] == x[..k][1..] && y[1..][..k - 1] == y[..k][1..];
      LexDecided(x[1..], y[1..], u, v, k - 1);
    }
  }

  lemma {:induction false} LexAntisymmetric(x: seq<int>, y: seq<int>)
    ensures LexSign(x, y) == -LexSign(y, x)
  {
    if x != [] && y != [] && x[0] == y[0] {
      LexAntisymmetric(x[1..], y[1..]);
    }
  }

  lemma {:induction false} LexTransitive(x: seq<int>, y: seq<int>, z: seq<int>)
    requires LexSign(x, y) <= 0 && LexSign(y, z) <= 0
    ensures LexSign(x, z) <= 0
    ensures LexSign(x, y) < 0 || LexSign(y, z) < 0 ==> LexSign(x, z) < 0
  {
    if x != [] && y != [] && z != [] && x[0] == y[0] == z[0] {
      LexTransitive(x[1..], y[1..], z[1..]);
    }
  }

  // ---------- the comparison is the order of the keys ----------

  lemma {:induction false} SamePrefixSameStart(a: CString, b: CString, p: nat)
    requires AgreeUpTo(a, b, p)
    ensures RunStart(a, p) == RunStart(b, p)
    ensures ModeAt(a, p) == ModeAt(b, p)
    decreases p
  {
    if p > 0 {
      SamePrefixSameStart(a, b, p - 1);
    }
  }

  /** The number running up to `p`, if any, is equally long in both strings. */
  predicate NumbersAlign(a: CString, b: CString, p: nat)
    requires p <= |a| && p <= |b|
  {
    var q := RunStart(a, p);
    q < p && q <= |b| && a[q] != ZERO ==> RunEnd(a, q) == RunEnd(b, q)
  }

  lemma {:induction false} RunEndReaches(s: CString, k: nat, e: nat)
    requires k <= e <= |s| && forall m :: k <= m < e ==> IsDigit(s[m])
    ensures RunEnd(s, k) >= e
    ensures RunEnd(s, k) == RunEnd(s, e)
    decreases e - k
  {
    if k < e {
      RunEndReaches(s, k + 1, e);
    }
  }

  lemma {:induction false} RunStartReaches(s: CString, j: nat, i: nat)
    requires j <= i <= |s| && (forall k :: j <= k < i ==> IsDigit(s[k]))
    requires j > 0 ==> !IsDigit(s[j - 1])
    ensures RunStart(s, i) == j
    decreases i
  {
    if i > j {
      RunStartReaches(s, j, i - 1);
    }
  }

  /** The ranks of one position, whatever they are followed by. */
  lemma DecidedByRanks(x: seq<int>, y: seq<int>, u: seq<int>, v: seq<int>)
    requires |x| > 0 && |y| > 0
    ensures x[0] != y[0] ==> LexSign(x + u, y + v) == Sign(x[0] - y[0])
    ensures |x| == |y| == 3 && x[0] == y[0] && x[1] != y[1] ==> LexSign(x + u, y + v) == Sign(x[1] - y[1])
    ensures |x| == |y| == 3 && x[..2] == y[..2] && x[2] != y[2] ==> LexSign(x + u, y + v) == Sign(x[2] - y[2])
  {
    if x[0] != y[0] {
      LexDecided(x, y, u, v, 0);
    } else if |x| == |y| == 3 {
      if x[1] != y[1] {
        LexDecided(x, y, u, v, 1);
      } else if x[2] != y[2] {
        assert x[..2] == [x[0], x[1]] && y[..2] == [y[0], y[1]];
        LexDecided(x, y, u, v, 2);
      }
    }
  }

  lemma ZerosSkipped(a: CString, b: CString, j: nat, i: nat)
    requires AgreeUpTo(a, b, i) && j <= i && At(a, i) != At(b, i)
    ensures (forall k :: j <= k < i ==> a[k] == ZERO) ==> SkipZeros(a, b, j) == i
    ensures forall k :: j <= k < i && a[k] != ZERO ==> SkipZeros(a, b, j) <= k
  {
  }

  /** Ranks at the first difference, outside and inside a fraction, decide as the comparison does. */
  lemma DifferenceInText(a: CString, b: CString, i: nat)
    requires a != b && i == FirstDifference(a, b, 0) && ModeAt(a, i) == Text
    ensures LexSign(Key(a, i), Key(b, i)) == Sign(VerCmp(a, b))
  {
    hide Key, LexSign, RunEnd, SkipZeros;
    SamePrefixSameStart(a, b, i);
    KeyUnfold(a, i);
    KeyUnfold(b, i);
    DecidedByRanks(Ranks(a, i), Ranks(b, i), RestKey(a, i), RestKey(b, i));
    ZerosSkipped(a, b, i, i);
  }

  lemma DifferenceInZeros(a: CString, b: CString, i: nat)
    requires a != b && i == FirstDifference(a, b, 0)
    requires ModeAt(a, i) == LeadingZeros || ModeAt(a, i) == Fraction
    ensures LexSign(Key(a, i), Key(b, i)) == Sign(VerCmp(a, b))
  {
    hide Key, LexSign, RunEnd, SkipZeros;
    SamePrefixSameStart(a, b, i);
    KeyUnfold(a, i);
    KeyUnfold(b, i);
    DecidedByRanks(Ranks(a, i), Ranks(b, i), RestKey(a, i), RestKey(b, i));
    ZerosSkipped(a, b, RunStart(a, i), i);
  }

  lemma DifferenceInNumber(a: CString, b: CString, i: nat)
    requires a != b && i == FirstDifference(a, b, 0)
    requires ModeAt(a, i) == Number && NumbersAlign(a, b, i)
    ensures LexSign(Key(a, i), Key(b, i)) == Sign(VerCmp(a, b))
  {
    hide Key, LexSign, RunEnd, SkipZeros;
    SamePrefixSameStart(a, b, i);
    KeyUnfold(a, i);
    KeyUnfold(b, i);
    DecidedByRanks(Ranks(a, i), Ranks(b, i), RestKey(a, i), RestKey(b, i));
  }

  function RestKey(s: CString, p: nat): seq<int>
    requires p <= |s|
  {
    if p < |s| then Key(s, p + 1) else []
  }

  lemma KeyUnfold(s: CString, p: nat)
    requires p <= |s|
    ensures Key(s, p) == Ranks(s, p) + RestKey(s, p)
  {
    hide Ranks;
  }

  lemma RunEndShared(a: CString, b: CString, p: nat, i: nat)
    requires p <= i && AgreeUpTo(a, b, i)
    ensures RunEnd(a, p) < i ==> RunEnd(b, p) == RunEnd(a, p)
  {
    var e := RunEnd(a, p);
    if e < i {
      assert !IsDigit(b[e]);
      RunEndReaches(b, p, e);
    }
  }

  /** Two numbers of different lengths decide before their digits do. */
  lemma LengthsDecide(a: CString, b: CString, p: nat)
    requires a != b && p < FirstDifference(a, b, 0)
    requires ModeAt(a, p) == Text && IsDigit(a[p]) && a[p] != ZERO
    requires RunEnd(a, p) != RunEnd(b, p)
    ensures Sign(VerCmp(a, b)) == Sign(RunEnd(a, p) - RunEnd(b, p))
  {
    var i := FirstDifference(a, b, 0);
    RunEndShared(a, b, p, i);
    RunEndShared(b, a, p, i);
    RunStartReaches(a, p, i);
  }

  /** Before the first difference the ranks are the same, except for numbers of different lengths. */
  lemma RanksBeforeDifference(a: CString, b: CString, p: nat)
    requires AgreeUpTo(a, b, p) && p < |a| && p < |b| && a[p] == b[p] && NumbersAlign(a, b, p)
    ensures Ranks(a, p) == Ranks(b, p) ==> NumbersAlign(a, b, p + 1)
    ensures Ranks(a, p) != Ranks(b, p) ==>
              && ModeAt(a, p) == Text && IsDigit(a[p]) && a[p] != ZERO
              && RunEnd(a, p) != RunEnd(b, p)
              && Ranks(a, p) == [ZERO, RunEnd(a, p) - p, a[p]]
              && Ranks(b, p) == [ZERO, RunEnd(b, p) - p, a[p]]
  {
    SamePrefixSameStart(a, b, p);
  }

  lemma {:induction false} KeysDecide(a: CString, b: CString, p: nat)
    requires a != b && p <= FirstDifference(a, b, 0) && NumbersAlign(a, b, p)
    ensures LexSign(Key(a, p), Key(b, p)) == Sign(VerCmp(a, b))
    decreases FirstDifference(a, b, 0) - p
  {
    hide Ranks, Key, VerCmp, LexSign, NumbersAlign;
    if p == FirstDifference(a, b, 0) {
      match ModeAt(a, p) {
        case Text => DifferenceInText(a, b, p);
        case LeadingZeros => DifferenceInZeros(a, b, p);
        case Fraction => DifferenceInZeros(a, b, p);
        case Number => DifferenceInNumber(a, b, p);
      }
    } else {
      KeyUnfold(a, p);
      KeyUnfold(b, p);
      RanksBeforeDifference(a, b, p);
      var x, y := Ranks(a, p), Ranks(b, p);
      if x == y {
        LexPrefix(x, Key(a, p + 1), Key(b, p + 1));
        KeysDecide(a, b, p + 1);
      } else {
        LengthsDecide(a, b, p);
        DecidedByRanks(x, y, Key(a, p + 1), Key(b, p + 1));
      }
    }
  }

  /** `strverscmp` compares the keys of the two strings lexicographically. */
  lemma VerCmpIsKeyOrder(a: CString, b: CString)
    ensures Sign(VerCmp(a, b)) == LexSign(Key(a, 0), Key(b, 0))
  {
    if a == b {
      LexPrefix(Key(a, 0), [], []);
      assert Key(a, 0) + [] == Key(a, 0);
    } else {
      KeysDecide(a, b, 0);
    }
  }

  /** Zero exactly on equal strings. */
  lemma ZeroOnlyOnEqual(a: CString, b: CString)
    ensures VerCmp(a, b) == 0 <==> a == b
  {
  }

  lemma Antisymmetric(a: CString, b: CString)
    ensures Sign(VerCmp(a, b)) == -Sign(VerCmp(b, a))
  {
    VerCmpIsKeyOrder(a, b);
    VerCmpIsKeyOrder(b, a);
    LexAntisymmetric(Key(a, 0), Key(b, 0));
  }

  lemma Transitive(a: CString, b: CString, c: CString)
    requires VerCmp(a, b) <= 0 && VerCmp(b, c) <= 0
    ensures VerCmp(a, c) <= 0
    ensures VerCmp(a, b) < 0 || VerCmp(b, c) < 0 ==> VerCmp(a, c) < 0
  {
    VerCmpIsKeyOrder(a, b);
    VerCmpIsKeyOrder(b, c);
    VerCmpIsKeyOrder(a, c);
    LexTransitive(Key(a, 0), Key(b, 0), Key(c, 0));
  }

  // ---------- numbers inside strings ----------

  predicate AllDigits(d: seq<int>)
  {
    forall i :: 0 <= i < |d| ==> IsDigit(d[i])
  }

  /** The number a digit string denotes. */
  function Value(d: seq<int>): (v: nat)
    requires AllDigits(d)
  {
    if d == [] then 0 else 10 * Value(d[..|d| - 1]) + (d[|d| - 1] - ZERO)
  }

  function Pow10(k: nat): (p: nat)
    ensures p > 0
  {
    if k == 0 then 1 else 10 * Pow10(k - 1)
  }

  lemma {:induction false} ValueBounds(d: seq<int>)
    requires AllDigits(d)
    ensures Value(d) < Pow10(|d|)
    ensures d != [] && d[0] != ZERO ==> Pow10(|d| - 1) <= Value(d)
    decreases |d|
  {
    if d != [] {
      ValueBounds(d[..|d| - 1]);
    }
  }

  lemma {:induction false} Pow10Grows(k: nat, m: nat)
    requires k <= m
    ensures Pow10(k) <= Pow10(m)
    decreases m
  {
    if k < m {
      Pow10Grows(k, m - 1);
    }
  }

  /** Digit strings of equal length compare at their first difference. */
  lemma {:induction false} EqualLengthValues(d: seq<int>, e: seq<int>, k: nat)
    requires AllDigits(d) && AllDigits(e) && |d| == |e|
    requires k < |d| && d[..k] == e[..k] && d[k] != e[k]
    ensures Sign(Value(d) - Value(e)) == Sign(d[k] - e[k])
    decreases |d|
  {
    var n := |d| - 1;
    if k == n {
    } else {
      assert d[..n][..k] == d[..k] && e[..n][..k] == e[..k];
      EqualLengthValues(d[..n], e[..n], k);
    }
  }

  /** A common prefix that does not end in a digit, then a number without leading zero, then the rest. */
  ghost predicate HasNumber(s: CString, p: seq<int>, d: seq<int>, rest: seq<int>)
  {
    && s == p + d + rest
    && (p == [] || !IsDigit(p[|p| - 1]))
    && d != [] && AllDigits(d) && d[0] != ZERO
    && (rest == [] || !IsDigit(rest[0]))
  }

  lemma NumberEnds(s: CString, p: seq<int>, d: seq<int>, rest: seq<int>)
    requires HasNumber(s, p, d, rest)
    ensures RunEnd(s, |p|) == |p| + |d|
  {
    assert forall k :: |p| <= k < |p| + |d| ==> s[k] == d[k - |p|];
    RunEndReaches(s, |p|, |p| + |d|);
    if rest != [] {
      assert s[|p| + |d|] == rest[0];
    }
  }

  lemma NumberAt(s: CString, p: seq<int>, d: seq<int>, rest: seq<int>)
    requires HasNumber(s, p, d, rest)
    ensures |p| + |d| <= |s| && AllDigits(d) && |d| > 0 && d[0] != ZERO
    ensures forall k :: 0 <= k < |p| ==> s[k] == p[k]
    ensures forall k :: |p| <= k < |p| + |d| ==> s[k] == d[k - |p|]
    ensures |p| > 0 ==> !IsDigit(s[|p| - 1])
    ensures !IsDigit(At(s, |p| + |d|))
    ensures RunEnd(s, |p|) == |p| + |d|
  {
    NumberEnds(s, p, d, rest);
  }

  /** The first difference falls inside the runs, or right after the shorter one. */
  lemma DifferenceInRun(a: CString, b: CString, p: seq<int>, d: seq<int>, u: seq<int>, e: seq<int>, v: seq<int>)
    requires HasNumber(a, p, d, u) && HasNumber(b, p, e, v) && d != e
    ensures var i := FirstDifference(a, b, 0);
            && a != b && |p| <= i <= |p| + |d| && i <= |p| + |e|
            && (|d| == |e| ==> i < |p| + |d|)
  {
    hide HasNumber;
    var i := FirstDifference(a, b, 0);
    NumberAt(a, p, d, u);
    NumberAt(b, p, e, v);
    if |d| < |e| {
      assert At(b, |p| + |d|) == e[|d|];
      DifferenceBounded(a, b, |p| + |d|);
    } else if |e| < |d| {
      assert At(a, |p| + |e|) == d[|e|];
      DifferenceBounded(a, b, |p| + |e|);
    } else {
      var k :| 0 <= k < |d| && d[k] != e[k];
      DifferenceBounded(a, b, |p| + k);
    }
    assert forall k :: 0 <= k < |p| ==> At(a, k) == At(b, k);
  }

  /** Where the comparison of two numbers looks: at their lengths, then at the first difference. */
  lemma ComparesNumbers(a: CString, b: CString, p: seq<int>, d: seq<int>, u: seq<int>, e: seq<int>, v: seq<int>)
    requires HasNumber(a, p, d, u) && HasNumber(b, p, e, v) && d != e
    ensures |d| != |e| ==> Sign(VerCmp(a, b)) == Sign(|d| - |e|)
    ensures |d| == |e| ==>
              exists k :: 0 <= k < |d| && d[..k] == e[..k] && d[k] != e[k]
                          && Sign(VerCmp(a, b)) == Sign(d[k] - e[k])
  {
    hide HasNumber, VerCmp, FirstDifference, RunEnd;
    var i := FirstDifference(a, b, 0);
    DifferenceInRun(a, b, p, d, u, e, v);
    NumberAt(a, p, d, u);
    NumberAt(b, p, e, v);
    ComparesRuns(a, b, |p|);
    if |d| == |e| {
      var k := i - |p|;
      assert d[..k] == e[..k] by {
        assert forall m :: 0 <= m < k ==> d[m] == a[|p| + m] == b[|p| + m] == e[m];
      }
    }
  }

  lemma ComparesRuns(a: CString, b: CString, j: nat)
    requires a != b && j <= FirstDifference(a, b, 0) && (j > 0 ==> !IsDigit(a[j - 1]))
    requires forall k :: j <= k < FirstDifference(a, b, 0) ==> IsDigit(a[k])
    requires IsDigit(At(a, j)) && At(a, j) != ZERO && IsDigit(At(b, j)) && At(b, j) != ZERO
    ensures var i := FirstDifference(a, b, 0);
            Sign(VerCmp(a, b)) == if RunEnd(a, j) != RunEnd(b, j) then Sign(RunEnd(a, j) - RunEnd(b, j))
                                  else Sign(At(a, i) - At(b, i))
  {
    hide RunEnd, SkipZeros, RunStart;
    RunStartReaches(a, j, FirstDifference(a, b, 0));
  }

  /** Different numbers after a common prefix order the strings, whatever follows them. */
  lemma NumbersOrderStrings(a: CString, b: CString, p: seq<int>, d: seq<int>, u: seq<int>, e: seq<int>, v: seq<int>)
    requires HasNumber(a, p, d, u) && HasNumber(b, p, e, v)
    requires Value(d) != Value(e)
    ensures Sign(VerCmp(a, b)) == Sign(Value(d) - Value(e))
  {
    hide VerCmp;
    ComparesNumbers(a, b, p, d, u, e, v);
    ValueBounds(d);
    ValueBounds(e);
    if |d| < |e| {
      Pow10Grows(|d|, |e| - 1);
    } else if |e| < |d| {
      Pow10Grows(|e|, |d| - 1);
    } else {
      var k :| 0 <= k < |d| && d[..k] == e[..k] && d[k] != e[k] && Sign(VerCmp(a, b)) == Sign(d[k] - e[k]);
      EqualLengthValues(d, e, k);
    }
  }
}
