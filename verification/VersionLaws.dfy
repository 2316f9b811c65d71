/** The version order in terms of bytes and decimal numbers: 48 to 57 are the digits, 0 ends a string. */
module VersionLaws {
  import D = Decimals
  import opened VersionOrder

  // ---------- what each byte difference decides ----------

  /** The bytes from j to i, the digits right before i. */
  predicate DigitsBefore(s: CString, j: nat, i: nat)
  {
    j <= i <= |s| && (forall k :: j <= k < i ==> 48 <= s[k] <= 57) && (j > 0 ==> !(48 <= s[j - 1] <= 57))
  }

  /** At the first difference, with bytes x and y and the digits before it starting at j, the value returned is
  - with only zeros before it, and one of the bytes a zero if there are none: -1 if x alone is a digit, 1 if y alone
    is, otherwise x - y;
  - with a number before it that starts with a zero and has other digits: x - y;
  - with no digits before it and not both bytes digits from 1 to 9, none of them a zero: x - y. */
  lemma DifferenceDecides(a: CString, b: CString, i: nat, j: nat)
    requires AgreeUpTo(a, b, i) && DigitsBefore(a, j, i)
    requires At(a, i) != At(b, i)
    ensures var x, y := At(a, i), At(b, i);
            var onlyZeros := forall k :: j <= k < i ==> a[k] == 48;
            && (onlyZeros && (j < i || x == 48 || y == 48) ==>
                  VerCmp(a, b) == if 48 <= x <= 57 && !(48 <= y <= 57) then -1
                                  else if !(48 <= x <= 57) && 48 <= y <= 57 then 1
                                  else x - y)
            && (!onlyZeros && a[j] == 48 ==> VerCmp(a, b) == x - y)
            && (i == j && x != 48 && y != 48 && !(49 <= x <= 57 && 49 <= y <= 57) ==> VerCmp(a, b) == x - y)
  {
    hide Verdict, FirstDifference, VerCmp, SkipZeros, RunEnd;
    FirstDifferenceIs(a, b, i);
    RunStartReaches(a, j, i);
    VerCmpIsVerdict(a, b, i, j);
    ZerosSkipped(a, b, j, i);
    VerdictCases(a, b, i, j);
  }

  lemma VerdictCases(a: CString, b: CString, i: nat, j: nat)
    requires AgreeUpTo(a, b, i) && DigitsBefore(a, j, i) && At(a, i) != At(b, i)
    requires (forall k :: j <= k < i ==> a[k] == ZERO) ==> SkipZeros(a, b, j) == i
    requires forall k :: j <= k < i && a[k] != ZERO ==> SkipZeros(a, b, j) <= k
    ensures var x, y := At(a, i), At(b, i);
            var onlyZeros := forall k :: j <= k < i ==> a[k] == 48;
            && (onlyZeros && (j < i || x == 48 || y == 48) ==>
                  Verdict(a, b, i, j) == if 48 <= x <= 57 && !(48 <= y <= 57) then -1
                                         else if !(48 <= x <= 57) && 48 <= y <= 57 then 1
                                         else x - y)
            && (!onlyZeros && a[j] == 48 ==> Verdict(a, b, i, j) == x - y)
            && (i == j && x != 48 && y != 48 && !(49 <= x <= 57 && 49 <= y <= 57) ==> Verdict(a, b, i, j) == x - y)
  {
    hide SkipZeros, RunEnd;
  }

  /** Two numbers without leading zero, of different lengths: -1 if the first is shorter, 1 if it is longer; of equal
  lengths: the difference of the first bytes that differ. */
  lemma NumbersDecide(a: CString, b: CString, i: nat, j: nat, m: nat, n: nat)
    requires AgreeUpTo(a, b, i) && DigitsBefore(a, j, i) && At(a, i) != At(b, i)
    requires j < m <= |a| && j < n <= |b| && a[j] != 48 && b[j] != 48
    requires (forall k :: j <= k < m ==> 48 <= a[k] <= 57) && !(48 <= At(a, m) <= 57)
    requires (forall k :: j <= k < n ==> 48 <= b[k] <= 57) && !(48 <= At(b, n) <= 57)
    ensures VerCmp(a, b) == if m < n then -1 else if m > n then 1 else At(a, i) - At(b, i)
  {
    hide VerCmp, FirstDifference, SkipZeros;
    FirstDifferenceIs(a, b, i);
    RunStartReaches(a, j, i);
    VerCmpIsVerdict(a, b, i, j);
    RunEndReaches(a, j, m);
    RunEndReaches(b, j, n);
  }

  // ---------- decimal numbers inside strings ----------

  function Bytes(s: string): (b: seq<int>)
    ensures |b| == |s| && forall i :: 0 <= i < |s| ==> b[i] == s[i] as int
  {
    seq(|s|, i requires 0 <= i < |s| => s[i] as int)
  }

  /** The decimal text of a number between two texts. */
  function WithNumber(p: CString, n: nat, rest: CString): (s: CString)
  {
    var d := D.Digits(n);
    assert forall i :: 0 <= i < |d| ==> 48 <= d[i] as int <= 57 by {
      assert forall i :: 0 <= i < |d| ==> D.IsDigit(d[i]);
    }
    p + Bytes(d) + rest
  }

  /** Does not end in a digit. */
  predicate EndsOpen(p: CString)
  {
    p == [] || !(48 <= p[|p| - 1] <= 57)
  }

  /** Does not start with a digit. */
  predicate StartsOpen(rest: CString)
  {
    rest == [] || !(48 <= rest[0] <= 57)
  }

  lemma {:induction false} BytesDenote(s: string)
    requires D.AllDigits(s)
    ensures AllDigits(Bytes(s)) && Value(Bytes(s)) == D.DigitsValue(s)
    decreases |s|
  {
    forall i | 0 <= i < |s| ensures 48 <= Bytes(s)[i] <= 57 {
      assert D.IsDigit(s[i]);
    }
    if s != "" {
      var n := |s| - 1;
      BytesDenote(s[..n]);
      assert Bytes(s)[..n] == Bytes(s[..n]);
    }
  }

  lemma {:induction false} NoLeadingZero(n: nat)
    ensures D.Digits(n)[0] == '0' <==> n == 0
  {
    if n >= 10 {
      NoLeadingZero(n / 10);
    }
  }

  lemma NumberStands(p: CString, n: nat, rest: CString)
    requires n > 0 && EndsOpen(p) && StartsOpen(rest)
    ensures var d := Bytes(D.Digits(n)); HasNumber(WithNumber(p, n, rest), p, d, rest) && Value(d) == n
  {
    D.DigitsRead(n);
    BytesDenote(D.Digits(n));
    NoLeadingZero(n);
    hide Value;
  }

  /** The number zero against another: the comparison is that of their first digits. */
  lemma ZeroFirst(p: CString, n: nat, rest: CString, u: CString)
    requires n > 0 && EndsOpen(p)
    ensures VerCmp(WithNumber(p, 0, u), WithNumber(p, n, rest)) < 0
    ensures VerCmp(WithNumber(p, n, rest), WithNumber(p, 0, u)) > 0
  {
    hide VerCmp;
    var a, b, i := WithNumber(p, 0, u), WithNumber(p, n, rest), |p|;
    NoLeadingZero(0);
    NoLeadingZero(n);
    assert D.IsDigit(D.Digits(n)[0]);
    assert a[i] == 48 && 49 <= b[i] <= 57;
    DifferenceDecides(a, b, i, i);
    DifferenceDecides(b, a, i, i);
  }

  /** Texts that differ in a decimal number, after the same text and whatever follows, are ordered as the numbers
  are. */
  lemma DecimalsOrder(p: CString, m: nat, u: CString, n: nat, v: CString)
    requires m != n && EndsOpen(p) && StartsOpen(u) && StartsOpen(v)
    ensures var r := VerCmp(WithNumber(p, m, u), WithNumber(p, n, v)); if m < n then r < 0 else r > 0
  {
    hide VerCmp, WithNumber;
    if m == 0 {
      ZeroFirst(p, n, v, u);
    } else if n == 0 {
      ZeroFirst(p, m, u, v);
    } else {
      NumberStands(p, m, u);
      NumberStands(p, n, v);
      NumbersOrderStrings(WithNumber(p, m, u), WithNumber(p, n, v), p, Bytes(D.Digits(m)), u, Bytes(D.Digits(n)), v);
    }
  }
}
