/** The register-level update routines, on registers that may be wider than the polynomial.

`n` is the number of significant low bits (`Bits`); registers and divisors are
`Word`s of the width of the built-in type, and what they hold at or above `n`
is whatever the shifts leave there. */
module CrcEngine {
  import opened Bits
  import opened CrcSpec
  import opened CrcAugmented

  predicate BuiltIn(w: nat)
  {
    w == 8 || w == 16 || w == 32 || w == 64
  }

  /** Width of the smallest built-in unsigned type that holds `n` bits. */
  function RegisterWidth(n: nat): (w: nat)
    requires 0 < n <= 64
    ensures BuiltIn(w) && n <= w && forall v :: BuiltIn(v) && n <= v ==> w <= v
  {
    if n <= 8 then 8 else if n <= 16 then 16 else if n <= 32 then 32 else 64
  }

  /** A register and a divisor of one width with `n` significant low bits. */
  predicate Sized(n: nat, t: Word, r: Word)
  {
    0 < n <= |r| && |t| == |r|
  }

  // ---------- bit-serial updates ----------

  function WordStep(n: nat, t: Word, r: Word, b: bool): (s: Word)
    requires Sized(n, t, r)
    ensures |s| == |r|
  {
    var compared := r[n - 1 := r[n - 1] != b];
    Add(Shl(compared), t, compared[n - 1])
  }

  function WordRun(n: nat, t: Word, r: Word, m: seq<bool>): (s: Word)
    requires Sized(n, t, r)
    ensures |s| == |r|
    decreases |m|
  {
    if m == [] then r else WordRun(n, t, WordStep(n, t, r, m[0]), m[1..])
  }

  function AugWordStep(n: nat, t: Word, r: Word, b: bool): (s: Word)
    requires Sized(n, t, r)
    ensures |s| == |r|
  {
    Add(Shl(r)[0 := b], t, r[n - 1])
  }

  function AugWordRun(n: nat, t: Word, r: Word, m: seq<bool>): (s: Word)
    requires Sized(n, t, r)
    ensures |s| == |r|
    decreases |m|
  {
    if m == [] then r else AugWordRun(n, t, AugWordStep(n, t, r, m[0]), m[1..])
  }

  lemma WordStepLow(n: nat, t: Word, r: Word, b: bool)
    requires Sized(n, t, r)
    ensures WordStep(n, t, r, b)[..n] == Step(t[..n], r[..n], b)
  {
  }

  /** The significant bits never depend on the bits above them. */
  lemma {:induction false} WordRunLow(n: nat, t: Word, r: Word, m: seq<bool>)
    requires Sized(n, t, r)
    ensures WordRun(n, t, r, m)[..n] == Run(t[..n], r[..n], m)
    decreases |m|
  {
    hide WordStep, Step;
    if m != [] {
      WordStepLow(n, t, r, m[0]);
      WordRunLow(n, t, WordStep(n, t, r, m[0]), m[1..]);
    }
  }

  lemma AugWordStepLow(n: nat, t: Word, r: Word, b: bool)
    requires Sized(n, t, r)
    ensures AugWordStep(n, t, r, b)[..n] == AugStep(t[..n], r[..n], b)
  {
  }

  lemma {:induction false} AugWordRunLow(n: nat, t: Word, r: Word, m: seq<bool>)
    requires Sized(n, t, r)
    ensures AugWordRun(n, t, r, m)[..n] == AugRun(t[..n], r[..n], m)
    decreases |m|
  {
    hide AugWordStep, AugStep;
    if m != [] {
      AugWordStepLow(n, t, r, m[0]);
      AugWordRunLow(n, t, AugWordStep(n, t, r, m[0]), m[1..]);
    }
  }

  lemma WordStepLinear(n: nat, t: Word, r: Word, s: Word, b: bool, c: bool)
    requires Sized(n, t, r) && |s| == |r|
    ensures WordStep(n, t, Xor(r, s), b != c) == Xor(WordStep(n, t, r, b), WordStep(n, t, s, c))
  {
  }

  /** XOR-linearity on the whole register, unregulated bits included. */
  lemma {:induction false} WordRunLinear(n: nat, t: Word, r: Word, s: Word, a: seq<bool>, b: seq<bool>)
    requires Sized(n, t, r) && |s| == |r| && |a| == |b|
    ensures WordRun(n, t, Xor(r, s), Xor(a, b)) == Xor(WordRun(n, t, r, a), WordRun(n, t, s, b))
    decreases |a|
  {
    if a != [] {
      assert Xor(a, b)[1..] == Xor(a[1..], b[1..]);
      WordStepLinear(n, t, r, s, a[0], b[0]);
      WordRunLinear(n, t, WordStep(n, t, r, a[0]), WordStep(n, t, s, b[0]), a[1..], b[1..]);
    }
  }

  lemma {:induction false} WordRunConcat(n: nat, t: Word, r: Word, a: seq<bool>, b: seq<bool>)
    requires Sized(n, t, r)
    ensures WordRun(n, t, r, a + b) == WordRun(n, t, WordRun(n, t, r, a), b)
    decreases |a|
  {
    hide WordStep;
    if a == [] {
      assert a + b == b;
    } else {
      assert (a + b)[1..] == a[1..] + b;
      WordRunConcat(n, t, WordStep(n, t, r, a[0]), a[1..], b);
    }
  }

  lemma {:induction false} AugWordRunConcat(n: nat, t: Word, r: Word, a: seq<bool>, b: seq<bool>)
    requires Sized(n, t, r)
    ensures AugWordRun(n, t, r, a + b) == AugWordRun(n, t, AugWordRun(n, t, r, a), b)
    decreases |a|
  {
    hide AugWordStep;
    if a == [] {
      assert a + b == b;
    } else {
      assert (a + b)[1..] == a[1..] + b;
      AugWordRunConcat(n, t, AugWordStep(n, t, r, a[0]), a[1..], b);
    }
  }

  /** The `len` low bits of a word in the order in which they are read. */
  function Reading(bits: Word, len: nat, reflect: bool): (m: seq<bool>)
    requires len <= |bits|
    ensures |m| == len
  {
    if reflect then bits[..len] else Rev(bits[..len])
  }

  /** The bits of a byte buffer in the order in which they are read. */
  function Message(bytes: seq<Byte>, reflect: bool): (m: seq<bool>)
    ensures |m| == 8 * |bytes|
  {
    if bytes == [] then [] else Reading(bytes[0], 8, reflect) + Message(bytes[1..], reflect)
  }

  /** Reflected input reads every byte from its lowest bit up, other input from its highest down. */
  lemma {:induction false} MessageBit(bytes: seq<Byte>, reflect: bool, i: nat)
    requires i < 8 * |bytes|
    ensures Message(bytes, reflect)[i] == bytes[i / 8][if reflect then i % 8 else 7 - i % 8]
    decreases |bytes|
  {
    var head := Reading(bytes[0], 8, reflect);
    if i < 8 {
      assert bytes[0][..8] == bytes[0];
    } else {
      MessageBit(bytes[1..], reflect, i - 8);
      assert i / 8 == (i - 8) / 8 + 1 && i % 8 == (i - 8) % 8;
    }
  }

  lemma {:induction false} MessageConcat(a: seq<Byte>, b: seq<Byte>, reflect: bool)
    ensures Message(a + b, reflect) == Message(a, reflect) + Message(b, reflect)
  {
    if a == [] {
      assert a + b == b;
    } else {
      assert (a + b)[1..] == a[1..] + b;
      MessageConcat(a[1..], b, reflect);
    }
  }

  lemma MessageOne(x: Byte, reflect: bool)
    ensures Message([x], reflect) == Reading(x, 8, reflect)
  {
    assert [x][1..] == [];
  }

  /** Reverses the low `wordLength` bits with two one-bit masks closing in on each other. */
  method ReflectUnsigned(word: Word, wordLength: nat) returns (x: Word)
    requires 0 < wordLength <= |word|
    ensures x == RevLow(word, wordLength)
  {
    x := word;
    var l, h := 0, wordLength - 1;
    while h > l
      invariant 0 <= l && l + h == wordLength - 1 && -1 <= h - l
      invariant |x| == |word|
      invariant forall i :: 0 <= i < l ==> x[i] == word[wordLength - 1 - i]
      invariant forall i :: h < i < wordLength ==> x[i] == word[wordLength - 1 - i]
      invariant forall i :: l <= i <= h || wordLength <= i < |x| ==> x[i] == word[i]
    {
      if x[h] != x[l] {
        x := x[h := !x[h]][l := !x[l]];
      }
      h, l := h - 1, l + 1;
    }
    assert forall i :: 0 <= i < |x| ==> x[i] == RevLow(word, wordLength)[i];
  }

  lemma WordRunUnfold(n: nat, t: Word, r: Word, m: seq<bool>)
    requires Sized(n, t, r) && m != []
    ensures WordRun(n, t, r, m) == WordRun(n, t, WordStep(n, t, r, m[0]), m[1..])
  {
    hide WordStep;
  }

  lemma AugWordRunUnfold(n: nat, t: Word, r: Word, m: seq<bool>)
    requires Sized(n, t, r) && m != []
    ensures AugWordRun(n, t, r, m) == AugWordRun(n, t, AugWordStep(n, t, r, m[0]), m[1..])
  {
    hide AugWordStep;
  }

  lemma RunsOfNothing(n: nat, t: Word, r: Word)
    requires Sized(n, t, r)
    ensures WordRun(n, t, r, []) == r && AugWordRun(n, t, r, []) == r
  {
  }

  /** Shift, take the bit in at the bottom, subtract the divisor if a bit was pushed out. */
  lemma AugStepSteps(n: nat, t: Word, r: Word, b: bool)
    requires Sized(n, t, r)
    ensures var s := Shl(r)[0 := Shl(r)[0] || b]; AugWordStep(n, t, r, b) == if r[n - 1] then Xor(s, t) else s
  {
  }

  /** Shifting right brings the next bits to the bottom. */
  lemma NextBits(bits: Word, m: seq<bool>, i: nat)
    requires 0 < i <= |bits| && i <= |m| && forall j :: 0 <= j < i ==> bits[j] == m[|m| - i + j]
    ensures |ShiftRight(bits, 1)| == |bits|
    ensures forall j :: 0 <= j < i - 1 ==> ShiftRight(bits, 1)[j] == m[|m| - (i - 1) + j]
  {
  }

  method CrcModuloWordUpdate(n: nat, remainder: Word, newDividendBits: Word, truncatedDivisor: Word,
                             wordLength: nat, reflect: bool)
    returns (r: Word)
    requires Sized(n, truncatedDivisor, remainder)
    requires 0 < wordLength <= |newDividendBits|
    ensures r == WordRun(n, truncatedDivisor, remainder, Reading(newDividendBits, wordLength, reflect))
  {
    hide WordRun;
    var bits := newDividendBits;
    if !reflect {
      bits := ReflectUnsigned(bits, wordLength);
    }
    ghost var m := Reading(newDividendBits, wordLength, reflect);
    r := remainder;
    var i := wordLength;
    while i > 0
      invariant 0 <= i <= wordLength && |r| == |remainder| && |bits| == |newDividendBits|
      invariant forall j :: 0 <= j < i ==> bits[j] == m[wordLength - i + j]
      invariant WordRun(n, truncatedDivisor, r, m[wordLength - i..])
             == WordRun(n, truncatedDivisor, remainder, m)
    {
      ghost var rest := m[wordLength - i..];
      assert rest[0] == bits[0] && rest[1..] == m[wordLength - i + 1..];
      ghost var before := r;
      r := r[n - 1 := r[n - 1] != bits[0]];
      var quotient := r[n - 1];
      r := Shl(r);
      if quotient {
        r := Xor(r, truncatedDivisor);
      }
      assert r == WordStep(n, truncatedDivisor, before, bits[0]);
      WordRunUnfold(n, truncatedDivisor, before, rest);
      bits := ShiftRight(bits, 1);
      i := i - 1;
    }
    assert m[wordLength - i..] == [];
    RunsOfNothing(n, truncatedDivisor, r);
  }

  method AugmentedCrcModuloWordUpdate(n: nat, remainder: Word, newDividendBits: Word, truncatedDivisor: Word,
                                      wordLength: nat, reflect: bool)
    returns (r: Word)
    requires Sized(n, truncatedDivisor, remainder)
    requires 0 < wordLength <= |newDividendBits|
    ensures r == AugWordRun(n, truncatedDivisor, remainder, Reading(newDividendBits, wordLength, reflect))
  {
    hide AugWordRun, AugWordStep, Xor, ShiftRight;
    var bits := newDividendBits;
    if !reflect {
      bits := ReflectUnsigned(bits, wordLength);
    }
    ghost var m := Reading(newDividendBits, wordLength, reflect);
    r := remainder;
    var i := wordLength;
    while i > 0
      invariant 0 <= i <= wordLength && |r| == |remainder| && |bits| == |newDividendBits|
      invariant forall j :: 0 <= j < i ==> bits[j] == m[wordLength - i + j]
      invariant AugWordRun(n, truncatedDivisor, r, m[wordLength - i..])
             == AugWordRun(n, truncatedDivisor, remainder, m)
    {
      ghost var rest := m[wordLength - i..];
      assert rest[0] == bits[0] && rest[1..] == m[wordLength - i + 1..];
      NextBits(bits, m, i);
      ghost var before := r;
      var quotient := r[n - 1];
      r := Shl(r);
      r := r[0 := r[0] || bits[0]];
      if quotient {
        r := Xor(r, truncatedDivisor);
      }
      AugStepSteps(n, truncatedDivisor, before, bits[0]);
      AugWordRunUnfold(n, truncatedDivisor, before, rest);
      bits := ShiftRight(bits, 1);
      i := i - 1;
    }
    assert m[wordLength - i..] == [];
    RunsOfNothing(n, truncatedDivisor, r);
  }

  // ---------- reflection helpers ----------

  lemma RevLowAll(a: Word)
    ensures RevLow(a, |a|) == Rev(a)
  {
    assert a[..|a|] == a;
  }

  /** All 256 reflected bytes. */
  method MakeByteReflectionTable() returns (table: array<Byte>)
    ensures fresh(table) && table.Length == Pow2(8)
    ensures forall i :: 0 <= i < table.Length ==> table[i] == Rev(FromNat(i, 8))
  {
    table := new Byte[Pow2(8)](_ => Zeros(8));
    var i := 0;
    while i < table.Length
      invariant 0 <= i <= table.Length
      invariant forall j :: 0 <= j < i ==> table[j] == Rev(FromNat(j, 8))
    {
      var x := ReflectUnsigned(FromNat(i, 8), 8);
      RevLowAll(FromNat(i, 8));
      table[i] := x;
      i := i + 1;
    }
  }

  method ReflectByte(x: Byte) returns (r: Byte)
    ensures r == Rev(x)
  {
    var table := MakeByteReflectionTable();
    FromToNat(x);
    r := table[ToNat(x)];
  }

  /** The low `wordLength` bits of a byte reversed, the others cleared. */
  function RevSub(x: Byte, wordLength: nat): (r: Byte)
    requires 0 < wordLength <= 8
    ensures r[..wordLength] == Rev(x[..wordLength])
    ensures forall i :: wordLength <= i < 8 ==> !r[i]
  {
    ShiftRight(Rev(x), 8 - wordLength)
  }

  method ReflectSubByte(x: Byte, wordLength: nat) returns (r: Byte)
    requires 0 < wordLength <= 8
    ensures r == RevSub(x, wordLength)
  {
    var full := ReflectByte(x);
    r := ShiftRight(full, 8 - wordLength);
  }

  /** What `possible_reflector` does to a register. */
  function Reflected(x: Word, n: nat, doIt: bool): (r: Word)
    requires 0 < n <= 64 && |x| == RegisterWidth(n)
    ensures |r| == |x|
    ensures r[..n] == if doIt then Rev(x[..n]) else x[..n]
  {
    if !doIt then x else if n > 8 then RevLow(x, n) else RevSub(x, n)
  }

  method ReflectQ(x: Word, n: nat, doIt: bool) returns (r: Word)
    requires 0 < n <= 64 && |x| == RegisterWidth(n)
    ensures r == Reflected(x, n, doIt)
  {
    r := x;
    if doIt {
      if n > 8 {
        r := ReflectUnsigned(x, n);
      } else {
        r := ReflectSubByte(x, n);
      }
    }
  }
}
