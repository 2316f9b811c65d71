/** The computer classes `crc_basic` and `crc_optimal`, and the free functions `crc` and `augmented_crc`. */
module CrcComputers {
  import opened Bits
  import opened CrcSpec
  import opened CrcAugmented
  import opened CrcPoly
  import opened CrcEngine
  import opened CrcDriver

  /** Output processing of an n-bit remainder: optional reflection, mask by XOR, spare bits cleared. */
  function ChecksumOf(remainder: Word, final: Word, reflectOut: bool): (c: Word)
    requires |remainder| <= |final|
    ensures |c| == |final|
    ensures forall i :: 0 <= i < |remainder| ==>
              c[i] == ((if reflectOut then remainder[|remainder| - 1 - i] else remainder[i]) != final[i])
    ensures forall i :: |remainder| <= i < |c| ==> !c[i]
  {
    var n := |remainder|;
    Xor(if reflectOut then Rev(remainder) else remainder, final[..n]) + Zeros(|final| - n)
  }

  /** The checksum of a whole buffer, from the mathematical remainder. */
  function CrcOf(n: nat, poly: Word, init: Word, final: Word, reflectIn: bool, reflectOut: bool, bytes: seq<Byte>)
    : (c: Word)
    requires 0 < n <= |final| && |poly| == |init| == |final|
  {
    ChecksumOf(Run(poly[..n], init[..n], Message(bytes, reflectIn)), final, reflectOut)
  }

  class CrcBasic {
    const bits: nat
    var rem: Word
    var poly: Word
    var init: Word
    var final: Word
    var reflectInput: bool
    var reflectRemainder: bool

    predicate Valid()
      reads this
    {
      && 0 < bits <= 64
      && |rem| == |poly| == |init| == |final| == RegisterWidth(bits)
    }

    /** The significant bits of the register. */
    function Interim(): (r: Word)
      requires Valid()
      reads this
      ensures |r| == bits
    {
      rem[..bits]
    }

    constructor (bits: nat, truncatedPolynomial: Word, initialRemainder: Word, finalXorValue: Word,
                 reflectInput: bool, reflectRemainder: bool)
      requires 0 < bits <= 64
      requires |truncatedPolynomial| == |initialRemainder| == |finalXorValue| == RegisterWidth(bits)
      ensures Valid() && this.bits == bits
      ensures rem == initialRemainder && init == initialRemainder
      ensures poly == truncatedPolynomial && final == finalXorValue
      ensures this.reflectInput == reflectInput && this.reflectRemainder == reflectRemainder
    {
      this.bits := bits;
      rem, poly := initialRemainder, truncatedPolynomial;
      init, final := initialRemainder, finalXorValue;
      this.reflectInput, this.reflectRemainder := reflectInput, reflectRemainder;
    }

    method GetInterimRemainder() returns (r: Word)
      requires Valid()
      ensures r == Interim() + Zeros(RegisterWidth(bits) - bits)
    {
      r := MaskLow(rem, bits);
    }

    method ResetTo(newRem: Word)
      requires Valid() && |newRem| == RegisterWidth(bits)
      modifies `rem
      ensures Valid() && rem == newRem
    {
      rem := newRem;
    }

    method Reset()
      requires Valid()
      modifies `rem
      ensures Valid() && rem == init
    {
      ResetTo(init);
    }

    method ProcessBit(bit: bool)
      requires Valid()
      modifies `rem
      ensures Valid() && Interim() == Step(poly[..bits], old(Interim()), bit)
    {
      hide WordRun, Step;
      OneBitRun(bits, poly, rem, bit);
      rem := CrcModuloWordUpdate(bits, rem, [bit], poly, 1, false);
    }

    /** Processes the `bitLength` low bits, highest first, whatever the reflection setting. */
    method ProcessBits(input: Byte, bitLength: nat)
      requires Valid() && 0 < bitLength <= 8
      modifies `rem
      ensures Valid() && Interim() == Run(poly[..bits], old(Interim()), Reading(input, bitLength, false))
    {
      hide Run, Step;
      var byte: Byte := ShiftLeft(input, 8 - bitLength);
      ghost var t, m := poly[..bits], Reading(input, bitLength, false);
      LoadTopBits(input, bitLength);
      assert m[0..] == m;
      var i := bitLength;
      while i > 0
        invariant 0 <= i <= bitLength && Valid() && poly[..bits] == t
        invariant Rev(byte)[..i] == m[bitLength - i..]
        invariant Run(t, Interim(), m[bitLength - i..]) == Run(t, old(Interim()), m)
      {
        ghost var rest := m[bitLength - i..];
        assert rest[1..] == m[bitLength - i + 1..];
        ShiftOutTopBit(byte, i);
        RunUnfold(t, Interim(), rest);
        ProcessBit(byte[7]);
        byte := ShiftLeft(byte, 1);
        i := i - 1;
      }
      assert m[bitLength - i..] == [];
      RunUnfold(t, Interim(), []);
    }

    method ProcessByte(byte: Byte)
      requires Valid()
      modifies `rem
      ensures Valid() && Interim() == Run(poly[..bits], old(Interim()), Reading(byte, 8, reflectInput))
    {
      var x := byte;
      if reflectInput {
        x := ReflectByte(byte);
        RevTwice(byte);
      }
      assert x[..8] == x && byte[..8] == byte;
      ProcessBits(x, 8);
    }

    method ProcessBytes(buffer: seq<Byte>)
      requires Valid()
      modifies `rem
      ensures Valid() && Interim() == Run(poly[..bits], old(Interim()), Message(buffer, reflectInput))
    {
      hide Run;
      ghost var t := poly[..bits];
      var p := 0;
      RunUnfold(t, Interim(), []);
      while p < |buffer|
        invariant 0 <= p <= |buffer| && Valid() && poly[..bits] == t
        invariant Interim() == Run(t, old(Interim()), Message(buffer[..p], reflectInput))
      {
        assert buffer[..p + 1] == buffer[..p] + [buffer[p]];
        MessageConcat(buffer[..p], [buffer[p]], reflectInput);
        MessageOne(buffer[p], reflectInput);
        RunConcat(t, old(Interim()), Message(buffer[..p], reflectInput), Reading(buffer[p], 8, reflectInput));
        ProcessByte(buffer[p]);
        p := p + 1;
      }
      assert buffer[..p] == buffer;
    }

    method Checksum() returns (c: Word)
      requires Valid()
      ensures c == ChecksumOf(Interim(), final, reflectRemainder)
      ensures forall i :: 0 <= i < bits ==>
                c[i] == ((if reflectRemainder then Interim()[bits - 1 - i] else Interim()[i]) != final[i])
      ensures forall i :: bits <= i < |c| ==> !c[i]
    {
      c := rem;
      if reflectRemainder {
        c := ReflectUnsigned(rem, bits);
      }
      c := MaskLow(Xor(c, final), bits);
    }
  }

  lemma OneBitRun(n: nat, t: Word, r: Word, bit: bool)
    requires Sized(n, t, r)
    ensures WordRun(n, t, r, Reading([bit], 1, false))[..n] == Step(t[..n], r[..n], bit)
  {
    hide WordRun, Step;
    assert Reading([bit], 1, false) == [bit] && [bit][1..] == [];
    WordRunUnfold(n, t, r, [bit]);
    RunsOfNothing(n, t, WordStep(n, t, r, bit));
    WordStepLow(n, t, r, bit);
  }

  lemma LoadTopBits(x: Byte, k: nat)
    requires k <= 8
    ensures Rev(ShiftLeft(x, 8 - k))[..k] == Rev(x[..k])
  {
  }

  lemma ShiftOutTopBit(x: Byte, i: nat)
    requires 0 < i <= 8
    ensures Rev(x)[..i][0] == x[7]
    ensures Rev(ShiftLeft(x, 1))[..i - 1] == Rev(x)[..i][1..]
  {
  }

  lemma RunUnfold(t: Word, r: Word, m: seq<bool>)
    requires Fits(t, r)
    ensures m == [] ==> Run(t, r, m) == r
    ensures m != [] ==> Run(t, r, m) == Run(t, Step(t, r, m[0]), m[1..])
  {
    hide Step;
  }

  /** The register reflected unless input and output agree, masked, is the output of the remainder it stands for. */
  lemma OutputRight(n: nat, r: Word, final: Word, reflectIn: bool, reflectOut: bool)
    requires 0 < n <= 64 && |r| == |final| == RegisterWidth(n)
    ensures MaskLow(Xor(Reflected(r, n, reflectOut != reflectIn), final), n)
            == ChecksumOf(Unreflected(n, reflectIn, r), final, reflectOut)
  {
    RevTwice(r[..n]);
  }

  class CrcOptimal {
    const bits: nat
    const truncatedPolynomial: Word
    const initialRemainder: Word
    const finalXorValue: Word
    const reflectInput: bool
    const reflectRemainder: bool
    var rem: Word

    predicate Valid()
      reads this
    {
      && 0 < bits <= 64
      && |rem| == |truncatedPolynomial| == |initialRemainder| == |finalXorValue| == RegisterWidth(bits)
    }

    /** The remainder the register stands for; reflected input keeps it reflected. */
    function Interim(): (r: Word)
      requires Valid()
      reads this
      ensures |r| == bits
    {
      Unreflected(bits, reflectInput, rem)
    }

    /** The defaulted argument of the original is the constructor below with `initialRemainder`. */
    constructor (bits: nat, truncPoly: Word, initRem: Word, finalXor: Word, reflectIn: bool, reflectRem: bool,
                 start: Word)
      requires 0 < bits <= 64
      requires |truncPoly| == |initRem| == |finalXor| == |start| == RegisterWidth(bits)
      ensures Valid() && this.bits == bits
      ensures truncatedPolynomial == truncPoly && initialRemainder == initRem && finalXorValue == finalXor
      ensures reflectInput == reflectIn && reflectRemainder == reflectRem
      ensures rem == Reflected(start, bits, reflectIn) && Interim() == start[..bits]
    {
      this.bits, truncatedPolynomial, initialRemainder := bits, truncPoly, initRem;
      finalXorValue, reflectInput, reflectRemainder := finalXor, reflectIn, reflectRem;
      rem := start;
      new;
      rem := ReflectQ(start, bits, reflectIn);
      RevTwice(start[..bits]);
    }

    method GetInterimRemainder() returns (r: Word)
      requires Valid()
      ensures r == Interim() + Zeros(RegisterWidth(bits) - bits)
    {
      r := ReflectQ(rem, bits, reflectInput);
      r := MaskLow(r, bits);
    }

    method Reset(newRem: Word)
      requires Valid() && |newRem| == RegisterWidth(bits)
      modifies `rem
      ensures Valid() && rem == Reflected(newRem, bits, reflectInput) && Interim() == newRem[..bits]
    {
      rem := ReflectQ(newRem, bits, reflectInput);
      RevTwice(newRem[..bits]);
    }

    method ProcessBytes(buffer: seq<Byte>)
      requires Valid()
      modifies `rem
      ensures Valid() && rem == DriverUpdate(bits, truncatedPolynomial, reflectInput, old(rem), buffer)
      ensures Faithful(bits, reflectInput) ==>
                Interim() == Run(truncatedPolynomial[..bits], old(Interim()), Message(buffer, reflectInput))
    {
      hide DriverUpdate, Run, Unreflected, Message;
      if Faithful(bits, reflectInput) {
        DriverRefinesBitSerial(bits, truncatedPolynomial, reflectInput, rem, buffer);
      }
      rem := CrcUpdate(bits, truncatedPolynomial, reflectInput, rem, buffer);
    }

    method ProcessByte(byte: Byte)
      requires Valid()
      modifies `rem
      ensures Valid() && rem == DriverUpdate(bits, truncatedPolynomial, reflectInput, old(rem), [byte])
      ensures Faithful(bits, reflectInput) ==>
                Interim() == Run(truncatedPolynomial[..bits], old(Interim()), Reading(byte, 8, reflectInput))
    {
      hide Run, Unreflected;
      MessageOne(byte, reflectInput);
      ProcessBytes([byte]);
    }

    method Checksum() returns (c: Word)
      requires Valid()
      ensures c == ChecksumOf(Interim(), finalXorValue, reflectRemainder)
      ensures forall i :: 0 <= i < bits ==>
                c[i] == ((if reflectRemainder then Interim()[bits - 1 - i] else Interim()[i]) != finalXorValue[i])
      ensures forall i :: bits <= i < |c| ==> !c[i]
    {
      hide Xor, MaskLow, Reflected, Unreflected;
      c := ReflectQ(rem, bits, reflectRemainder != reflectInput);
      c := MaskLow(Xor(c, finalXorValue), bits);
      OutputRight(bits, rem, finalXorValue, reflectInput, reflectRemainder);
    }
  }

  /** What the table-driven class returns, at every width. */
  function OptimalOf(n: nat, poly: Word, init: Word, final: Word, reflectIn: bool, reflectOut: bool, bytes: seq<Byte>)
    : (c: Word)
    requires 0 < n <= 64 && |poly| == |init| == |final| == RegisterWidth(n)
  {
    ChecksumOf(Unreflected(n, reflectIn, DriverUpdate(n, poly, reflectIn, Reflected(init, n, reflectIn), bytes)),
               final, reflectOut)
  }

  /** The free function `crc`. */
  method Crc(n: nat, truncPoly: Word, initRem: Word, finalXor: Word, reflectIn: bool, reflectRem: bool,
             buffer: seq<Byte>)
    returns (c: Word)
    requires 0 < n <= 64 && |truncPoly| == |initRem| == |finalXor| == RegisterWidth(n)
    ensures c == OptimalOf(n, truncPoly, initRem, finalXor, reflectIn, reflectRem, buffer)
    ensures !reflectIn || n < 8 || n == 8 || n == 16 || n == 32 || n == 64 ==>
              c == CrcOf(n, truncPoly, initRem, finalXor, reflectIn, reflectRem, buffer)
  {
    hide Run, Message, DriverUpdate;
    var computer := new CrcOptimal(n, truncPoly, initRem, finalXor, reflectIn, reflectRem, initRem);
    computer.ProcessBytes(buffer);
    c := computer.Checksum();
  }

  /** The same checksum from the bit-serial class, at every width. */
  method CrcBitSerial(n: nat, truncPoly: Word, initRem: Word, finalXor: Word, reflectIn: bool, reflectRem: bool,
                      buffer: seq<Byte>)
    returns (c: Word)
    requires 0 < n <= 64 && |truncPoly| == |initRem| == |finalXor| == RegisterWidth(n)
    ensures c == CrcOf(n, truncPoly, initRem, finalXor, reflectIn, reflectRem, buffer)
  {
    hide Run, Message;
    var computer := new CrcBasic(n, truncPoly, initRem, finalXor, reflectIn, reflectRem);
    computer.ProcessBytes(buffer);
    c := computer.Checksum();
  }

  /** What `augmented_crc` returns. */
  function AugmentedOf(n: nat, t: Word, r: Word, bytes: seq<Byte>): (c: Word)
    requires 0 < n <= |r| && |t| == |r|
    ensures |c| == |r|
  {
    AugRun(t[..n], r[..n], Message(bytes, false)) + Zeros(|r| - n)
  }

  method AugmentedCrc(n: nat, truncPoly: Word, buffer: seq<Byte>, initialRemainder: Word) returns (c: Word)
    requires 8 <= n <= 64 && |truncPoly| == |initialRemainder| == RegisterWidth(n)
    ensures c == AugmentedOf(n, truncPoly, initialRemainder, buffer)
  {
    hide AugRun, AugTableRun, Message;
    var r := AugmentedByteTableUpdate(n, truncPoly, initialRemainder, buffer);
    AugTableRunLow(n, truncPoly, initialRemainder, buffer);
    c := MaskLow(r, n);
  }

  // ---------- what checksums mean ----------

  lemma MaskOff(remainder: Word, final: Word, reflectOut: bool)
    requires |remainder| <= |final|
    ensures var n := |remainder|;
            Xor(ChecksumOf(remainder, final, reflectOut)[..n], final[..n])
            == if reflectOut then Rev(remainder) else remainder
  {
    var n := |remainder|;
    var x := if reflectOut then Rev(remainder) else remainder;
    assert ChecksumOf(remainder, final, reflectOut)[..n] == Xor(x, final[..n]);
    XorTwice(x, final[..n]);
  }

  lemma XorTwice(a: Word, b: Word)
    requires |a| == |b|
    ensures Xor(Xor(a, b), b) == a
  {
  }

  /** Before the mask, reflecting the output gives the mirror image; the mask itself is not reflected. */
  lemma ReflectedOutput(remainder: Word, final: Word)
    requires |remainder| <= |final|
    ensures var n := |remainder|;
            Xor(ChecksumOf(remainder, final, true)[..n], final[..n])
            == Rev(Xor(ChecksumOf(remainder, final, false)[..n], final[..n]))
  {
    hide ChecksumOf, Xor, Rev;
    MaskOff(remainder, final, true);
    MaskOff(remainder, final, false);
  }

  lemma ChecksumInjective(a: Word, b: Word, final: Word, reflectOut: bool)
    requires |a| == |b| <= |final|
    requires ChecksumOf(a, final, reflectOut) == ChecksumOf(b, final, reflectOut)
    ensures a == b
  {
    var n := |a|;
    var x := if reflectOut then Rev(a) else a;
    var y := if reflectOut then Rev(b) else b;
    assert Xor(x, final[..n]) == ChecksumOf(a, final, reflectOut)[..n];
    assert Xor(y, final[..n]) == ChecksumOf(b, final, reflectOut)[..n];
    forall i | 0 <= i < n ensures x[i] == y[i] {
      assert Xor(x, final[..n])[i] == Xor(y, final[..n])[i];
    }
    assert x == y;
    RevTwice(a);
    RevTwice(b);
  }

  /** The table-driven checksum is the bit-serial one on every buffer exactly when the width is faithful, for every
  initial remainder, output mask and output reflection. */
  lemma CrcRightExactlyWhenFaithful(n: nat, poly: Word, init: Word, final: Word, reflectIn: bool, reflectOut: bool)
    requires 0 < n <= 64 && |poly| == |init| == |final| == RegisterWidth(n)
    requires forall i :: n <= i < |poly| ==> !poly[i]
    ensures Faithful(n, reflectIn) <==>
            forall bytes :: OptimalOf(n, poly, init, final, reflectIn, reflectOut, bytes)
                            == CrcOf(n, poly, init, final, reflectIn, reflectOut, bytes)
  {
    hide Run, DriverUpdate, Message, ChecksumOf, Unreflected;
    var r := Reflected(init, n, reflectIn);
    UnreflectedOfReflected(n, init, reflectIn);
    DriverAgreesExactlyWhenFaithful(n, poly, reflectIn, r);
    forall bytes
      ensures Agrees(n, poly, reflectIn, r, bytes) <==>
              OptimalOf(n, poly, init, final, reflectIn, reflectOut, bytes)
              == CrcOf(n, poly, init, final, reflectIn, reflectOut, bytes)
    {
      var a := Unreflected(n, reflectIn, DriverUpdate(n, poly, reflectIn, r, bytes));
      var b := Run(poly[..n], init[..n], Message(bytes, reflectIn));
      if ChecksumOf(a, final, reflectOut) == ChecksumOf(b, final, reflectOut) {
        ChecksumInjective(a, b, final, reflectOut);
      }
    }
  }

  lemma UnreflectedOfReflected(n: nat, init: Word, reflect: bool)
    requires 0 < n <= 64 && |init| == RegisterWidth(n)
    ensures Unreflected(n, reflect, Reflected(init, n, reflect)) == init[..n]
  {
    RevTwice(init[..n]);
  }

  /** The checksum determines the polynomial remainder of the buffer, and the buffer's
  remainder determines the checksum. */
  lemma ChecksumIsRemainder(n: nat, poly: Word, init: Word, final: Word, reflectIn: bool, reflectOut: bool,
                            bytes: seq<Byte>, s: Word)
    requires 0 < n <= |final| && |poly| == |init| == |final| && |s| == n
    ensures IsRemainder(poly[..n], Dividend(init[..n], Message(bytes, reflectIn)), s) <==>
            ChecksumOf(s, final, reflectOut) == CrcOf(n, poly, init, final, reflectIn, reflectOut, bytes)
  {
    hide Run, Message, Dividend, IsRemainder, ChecksumOf;
    var m := Message(bytes, reflectIn);
    RegisterIsRemainder(poly[..n], init[..n], m, s);
    if ChecksumOf(s, final, reflectOut) == CrcOf(n, poly, init, final, reflectIn, reflectOut, bytes) {
      ChecksumInjective(s, Run(poly[..n], init[..n], m), final, reflectOut);
    }
  }

  /** An odd divisor detects every burst of at most n bits in two buffers of equal length. */
  lemma ChecksumDetectsBurst(n: nat, poly: Word, init: Word, final: Word, reflectIn: bool, reflectOut: bool,
                             a: seq<Byte>, b: seq<Byte>, start: nat, width: nat)
    requires 0 < n <= |final| && |poly| == |init| == |final|
    requires poly[0] && width <= n
    requires DifferByBurst(Message(a, reflectIn), Message(b, reflectIn), start, width)
    ensures CrcOf(n, poly, init, final, reflectIn, reflectOut, a)
            != CrcOf(n, poly, init, final, reflectIn, reflectOut, b)
  {
    hide Run, Message, ChecksumOf, DifferByBurst;
    var t, r := poly[..n], init[..n];
    var x, y := Run(t, r, Message(a, reflectIn)), Run(t, r, Message(b, reflectIn));
    BurstChangesRemainder(t, r, Message(a, reflectIn), Message(b, reflectIn), start, width);
    if ChecksumOf(x, final, reflectOut) == ChecksumOf(y, final, reflectOut) {
      ChecksumInjective(x, y, final, reflectOut);
    }
  }

  /** A buffer may be processed in any number of pieces. */
  lemma CrcInPieces(n: nat, poly: Word, r: Word, reflectIn: bool, a: seq<Byte>, b: seq<Byte>)
    requires 0 < n <= |r| && |poly| == |r|
    ensures Run(poly[..n], r[..n], Message(a + b, reflectIn))
            == Run(poly[..n], Run(poly[..n], r[..n], Message(a, reflectIn)), Message(b, reflectIn))
  {
    hide Run, Message;
    MessageConcat(a, b, reflectIn);
    RunConcat(poly[..n], r[..n], Message(a, reflectIn), Message(b, reflectIn));
  }

  /** The n bits of a checksum as bytes, most significant byte first. */
  function BigEndian(c: Word): (bytes: seq<Byte>)
    requires |c| % 8 == 0
    ensures 8 * |bytes| == |c|
    decreases |c|
  {
    if c == [] then [] else [c[|c| - 8..]] + BigEndian(c[..|c| - 8])
  }

  lemma {:induction false} BigEndianMessage(c: Word)
    requires |c| % 8 == 0
    ensures Message(BigEndian(c), false) == Rev(c)
    decreases |c|
  {
    if c != [] {
      var x: Byte := c[|c| - 8..];
      var rest := c[..|c| - 8];
      BigEndianMessage(rest);
      assert BigEndian(c)[1..] == BigEndian(rest);
      assert x[..8] == x;
      assert Rev(c) == Rev(x) + Rev(rest);
    }
  }

  lemma AugmentedRuns(t: Word, bytes: seq<Byte>, c: Word)
    requires |t| > 0 && |t| % 8 == 0 && |c| == |t|
    ensures var zero, s := Zeros(|t|), Run(t, Zeros(|t|), Message(bytes, false));
            && AugRun(t, zero, Message(bytes + BigEndian(zero), false)) == s
            && (AugRun(t, zero, Message(bytes + BigEndian(c), false)) == zero <==> c == s)
  {
    hide Run, AugRun, Message, BigEndian;
    var n := |t|;
    var m := Message(bytes, false);
    MessageConcat(bytes, BigEndian(Zeros(n)), false);
    MessageConcat(bytes, BigEndian(c), false);
    BigEndianMessage(Zeros(n));
    BigEndianMessage(c);
    assert Rev(Zeros(n)) == Zeros(n);
    AugmentedByZeros(t, Zeros(n), m);
    RunZero(t, n, n);
    AugmentedByChecksum(t, m, c);
  }

  lemma PaddedIsZero(a: Word, w: nat)
    requires |a| <= w
    ensures a + Zeros(w - |a|) == Zeros(w) <==> a == Zeros(|a|)
  {
    assert Zeros(|a|) + Zeros(w - |a|) == Zeros(w);
    if a + Zeros(w - |a|) == Zeros(w) {
      assert a == (a + Zeros(w - |a|))[..|a|];
    }
  }

  lemma PlainChecksum(s: Word, w: nat)
    requires |s| <= w
    ensures ChecksumOf(s, Zeros(w), false) == s + Zeros(w - |s|)
  {
    XorZeros(s);
    assert Zeros(w)[..|s|] == Zeros(|s|);
  }

  /** A buffer followed by n zero bits gives its checksum when divided plainly; followed by
  n bits c, most significant byte first, it gives zero exactly when c is that checksum. */
  lemma AugmentedBuffer(n: nat, poly: Word, bytes: seq<Byte>, c: Word)
    requires 8 <= n <= |poly| && n % 8 == 0 && |c| == n
    ensures var zero := Zeros(|poly|);
            var plain := CrcOf(n, poly, zero, zero, false, false, bytes);
            && AugmentedOf(n, poly, zero, bytes + BigEndian(Zeros(n))) == plain
            && (AugmentedOf(n, poly, zero, bytes + BigEndian(c)) == zero <==> c == plain[..n])
  {
    hide Run, AugRun, Message, BigEndian, ChecksumOf;
    var w, t := |poly|, poly[..n];
    assert Zeros(w)[..n] == Zeros(n);
    AugmentedRuns(t, bytes, c);
    var s := Run(t, Zeros(n), Message(bytes, false));
    PlainChecksum(s, w);
    assert (s + Zeros(w - n))[..n] == s;
    PaddedIsZero(AugRun(t, Zeros(n), Message(bytes + BigEndian(c), false)), w);
  }
}
