/** Polynomials over GF(2), and the CRC register as the remainder of real polynomial division.

A polynomial is the finite set of the exponents whose coefficient is 1. */
module CrcPoly {
  import opened Bits
  import opened CrcSpec

  type Poly = set<nat>

  function Plus(p: Poly, q: Poly): (s: Poly)
  {
    (p - q) + (q - p)
  }

  /** p(x) * x^k. */
  function TimesXPow(p: Poly, k: nat): (s: Poly)
    ensures forall i :: i in s <==> i >= k && i - k in p
  {
    var s: Poly := set i | i in p :: i + k;
    ShiftedMembers(p, k, s);
    s
  }

  lemma ShiftedMembers(p: Poly, k: nat, s: Poly)
    requires s == set i | i in p :: i + k
    ensures forall j :: j in s <==> j >= k && j - k in p
  {
    forall j: nat ensures j in s <==> j >= k && j - k in p {
      if j >= k && j - k in p {
        var i: nat := j - k;
        assert i + k in s;
      }
    }
  }

  function OfBit(b: bool): Poly
  {
    if b then {0} else {}
  }

  /** A message read as a polynomial: the first processed bit has the highest exponent. */
  function OfMessage(m: seq<bool>): (p: Poly)
  {
    if m == [] then {} else Plus(TimesXPow(OfMessage(m[..|m| - 1]), 1), OfBit(m[|m| - 1]))
  }

  function OfWord(r: Word): (p: Poly)
    ensures forall i :: i in p <==> 0 <= i < |r| && r[i]
  {
    set i | 0 <= i < |r| && r[i]
  }

  /** The divisor: the truncated polynomial with its implicit top term. */
  function Divisor(t: Word): (g: Poly)
  {
    OfWord(t) + {|t|}
  }

  /** Schoolbook product of a polynomial written highest coefficient first and `g`. */
  function Product(q: seq<bool>, g: Poly): (p: Poly)
  {
    if q == [] then {}
    else Plus(TimesXPow(Product(q[..|q| - 1], g), 1), if q[|q| - 1] then g else {})
  }

  /** `r` is a remainder of `dividend` modulo the divisor of `t`: it has degree below |t|
  and differs from the dividend by a multiple of the divisor. */
  ghost predicate IsRemainder(t: Word, dividend: Poly, r: Word)
  {
    |r| == |t| && exists q: seq<bool> :: dividend == Plus(Product(q, Divisor(t)), OfWord(r))
  }

  /** r(x) * x^|m| + m(x) * x^n: what a register that starts at `r` divides. */
  function Dividend(r: Word, m: seq<bool>): Poly
  {
    Plus(TimesXPow(OfWord(r), |m|), TimesXPow(OfMessage(m), |r|))
  }

  /** The quotient bits the register produces and throws away. */
  function Quotient(t: Word, r: Word, m: seq<bool>): (q: seq<bool>)
    requires Fits(t, r)
    ensures |q| == |m|
    decreases |m|
  {
    if m == [] then []
    else
      var k := |m| - 1;
      Quotient(t, r, m[..k]) + [Run(t, r, m[..k])[|r| - 1] != m[k]]
  }

  // ---------- existence ----------

  lemma RunLast(t: Word, r: Word, m: seq<bool>)
    requires Fits(t, r) && m != []
    ensures var k := |m| - 1;
            Run(t, r, m) == Step(t, Run(t, r, m[..k]), m[k])
  {
    hide Step;
    var k := |m| - 1;
    assert m == m[..k] + [m[k]];
    RunConcat(t, r, m[..k], [m[k]]);
    assert [m[k]][1..] == [];
  }

  /** One step subtracts the divisor times the quotient bit. */
  lemma StepDivides(t: Word, r: Word, b: bool)
    requires Fits(t, r)
    ensures var g := if r[|r| - 1] != b then Divisor(t) else {};
            Plus(TimesXPow(OfWord(r), 1), TimesXPow(OfBit(b), |r|))
            == Plus(g, OfWord(Step(t, r, b)))
  {
    var n := |r|;
    var q := r[n - 1] != b;
    var g := if q then Divisor(t) else {};
    var s := Step(t, r, b);
    forall i: nat
      ensures i in Plus(TimesXPow(OfWord(r), 1), TimesXPow(OfBit(b), n)) <==> i in Plus(g, OfWord(s))
    {
      assert i in OfWord(s) <==> i < n && (Shl(r)[i] != (q && t[i]));
      assert i in TimesXPow(OfBit(b), n) <==> i == n && b;
    }
  }

  lemma DividendGrows(r: Word, m: seq<bool>)
    requires m != []
    ensures var k := |m| - 1;
            Dividend(r, m) == Plus(TimesXPow(Dividend(r, m[..k]), 1), TimesXPow(OfBit(m[k]), |r|))
  {
    var k := |m| - 1;
    var m' := m[..k];
    forall i: nat
      ensures i in Dividend(r, m)
              <==> i in Plus(TimesXPow(Dividend(r, m'), 1), TimesXPow(OfBit(m[k]), |r|))
    {
      assert i in TimesXPow(OfMessage(m), |r|)
             <==> i >= |r| && ((i - |r| >= 1 && i - |r| - 1 in OfMessage(m')) != (i - |r| in OfBit(m[k])));
    }
  }

  lemma PlusShuffle(a: Poly, b: Poly, c: Poly, d: Poly, e: Poly)
    requires Plus(b, c) == Plus(d, e)
    ensures Plus(Plus(a, b), c) == Plus(Plus(a, d), e)
  {
    forall i: nat ensures i in Plus(Plus(a, b), c) <==> i in Plus(Plus(a, d), e) {
      assert i in Plus(b, c) <==> i in Plus(d, e);
    }
  }

  lemma TimesXPlus(p: Poly, q: Poly)
    ensures TimesXPow(Plus(p, q), 1) == Plus(TimesXPow(p, 1), TimesXPow(q, 1))
  {
  }

  lemma {:induction false} RunDivides(t: Word, r: Word, m: seq<bool>)
    requires Fits(t, r)
    ensures Dividend(r, m) == Plus(Product(Quotient(t, r, m), Divisor(t)), OfWord(Run(t, r, m)))
    decreases |m|
  {
    hide Step, TimesXPow, Divisor, Dividend;
    var g := Divisor(t);
    if m == [] {
      DividendOfNothing(r);
      assert Plus({}, OfWord(r)) == OfWord(r);
    } else {
      var k := |m| - 1;
      var m' := m[..k];
      var q' := Quotient(t, r, m');
      var r' := Run(t, r, m');
      RunDivides(t, r, m');
      DividendGrows(r, m);
      TimesXPlus(Product(q', g), OfWord(r'));
      StepDivides(t, r', m[k]);
      RunLast(t, r, m);
      ProductGrows(q', r'[|r| - 1] != m[k], g);
      PlusShuffle(TimesXPow(Product(q', g), 1), TimesXPow(OfWord(r'), 1), TimesXPow(OfBit(m[k]), |r|),
                  if r'[|r| - 1] != m[k] then g else {}, OfWord(Run(t, r, m)));
    }
  }

  lemma DividendOfNothing(r: Word)
    ensures Dividend(r, []) == OfWord(r)
  {
    assert TimesXPow(OfWord(r), 0) == OfWord(r);
    assert TimesXPow({}, |r|) == {};
  }

  lemma ProductGrows(q: seq<bool>, b: bool, g: Poly)
    ensures Product(q + [b], g) == Plus(TimesXPow(Product(q, g), 1), if b then g else {})
  {
    assert (q + [b])[..|q|] == q;
  }

  // ---------- uniqueness ----------

  /** A product with a leading coefficient of 1 has degree deg(q) + n. */
  lemma {:induction false} ProductDegree(q: seq<bool>, t: Word)
    requires q != [] && q[0]
    ensures |q| - 1 + |t| in Product(q, Divisor(t))
    ensures forall i :: i in Product(q, Divisor(t)) ==> i <= |q| - 1 + |t|
    decreases |q|
  {
    var g := Divisor(t);
    if |q| == 1 {
      assert q[..0] == [];
      assert Product(q, g) == g;
    } else {
      ProductDegree(q[..|q| - 1], t);
    }
  }

  lemma {:induction false} LeadingZero(q: seq<bool>, g: Poly)
    requires q != [] && !q[0]
    ensures Product(q, g) == Product(q[1..], g)
    decreases |q|
  {
    var k := |q| - 1;
    if k > 0 {
      assert q[..k][1..] == q[1..][..k - 1];
      LeadingZero(q[..k], g);
    } else {
      assert q[..0] == [];
      assert Product(q, g) == {};
    }
  }

  /** The only multiple of the divisor with degree below n is zero. */
  lemma {:induction false} SmallMultipleIsZero(q: seq<bool>, t: Word)
    requires forall i :: i in Product(q, Divisor(t)) ==> i < |t|
    ensures Product(q, Divisor(t)) == {}
    decreases |q|
  {
    hide Divisor;
    if q != [] {
      if q[0] {
        ProductDegree(q, t);
      } else {
        LeadingZero(q, Divisor(t));
        SmallMultipleIsZero(q[1..], t);
      }
    }
  }

  lemma {:induction false} ProductLinear(a: seq<bool>, b: seq<bool>, g: Poly)
    requires |a| == |b|
    ensures Product(Xor(a, b), g) == Plus(Product(a, g), Product(b, g))
    decreases |a|
  {
    if a != [] {
      var k := |a| - 1;
      assert Xor(a, b)[..k] == Xor(a[..k], b[..k]);
      ProductLinear(a[..k], b[..k], g);
      TimesXPlus(Product(a[..k], g), Product(b[..k], g));
    }
  }

  lemma {:induction false} Padded(q: seq<bool>, k: nat, g: Poly)
    ensures Product(Zeros(k) + q, g) == Product(q, g)
    decreases k
  {
    if k == 0 {
      assert Zeros(0) + q == q;
    } else {
      LeadingZero(Zeros(k) + q, g);
      assert (Zeros(k) + q)[1..] == Zeros(k - 1) + q;
      Padded(q, k - 1, g);
    }
  }

  lemma CancelPlus(a: Poly, b: Poly, c: Poly, d: Poly)
    requires Plus(a, b) == Plus(c, d)
    ensures Plus(a, c) == Plus(b, d)
  {
    forall i: nat ensures i in Plus(a, c) <==> i in Plus(b, d) {
      assert i in Plus(a, b) <==> i in Plus(c, d);
    }
  }

  lemma RemaindersAgree(t: Word, a: seq<bool>, b: seq<bool>, r: Word, s: Word)
    requires |r| == |t| && |s| == |t|
    requires Plus(Product(a, Divisor(t)), OfWord(r)) == Plus(Product(b, Divisor(t)), OfWord(s))
    ensures r == s
  {
    hide Divisor, Product;
    var g := Divisor(t);
    var a', b' := Zeros(|b|) + a, Zeros(|a|) + b;
    Padded(a, |b|, g);
    Padded(b, |a|, g);
    ProductLinear(a', b', g);
    CancelPlus(Product(a, g), OfWord(r), Product(b, g), OfWord(s));
    SmallMultipleIsZero(Xor(a', b'), t);
    forall i | 0 <= i < |r| ensures r[i] == s[i] {
      assert i !in Plus(OfWord(r), OfWord(s));
    }
  }

  /** The register after a message is the remainder of the division, and nothing else is. */
  lemma RegisterIsRemainder(t: Word, r: Word, m: seq<bool>, s: Word)
    requires Fits(t, r)
    ensures IsRemainder(t, Dividend(r, m), s) <==> s == Run(t, r, m)
  {
    hide Divisor, Product, Run, Dividend;
    RunDivides(t, r, m);
    var q := Quotient(t, r, m);
    if IsRemainder(t, Dividend(r, m), s) {
      var q' :| Dividend(r, m) == Plus(Product(q', Divisor(t)), OfWord(s));
      RemaindersAgree(t, q, q', Run(t, r, m), s);
    }
  }

  /** From a zero register the result is m(x) * x^n mod G(x). */
  lemma ZeroStartDividend(n: nat, m: seq<bool>)
    ensures Dividend(Zeros(n), m) == TimesXPow(OfMessage(m), n)
  {
    assert OfWord(Zeros(n)) == {};
    assert TimesXPow({}, |m|) == {};
  }
}
