/** Updates over byte buffers: the loops, what they compute on whole registers, and when that is the CRC. */
module CrcDriver {
  import opened Bits
  import opened CrcSpec
  import opened CrcAugmented
  import opened CrcEngine
  import opened CrcTable

  function ByteStep(n: nat, t: Word, reflect: bool, r: Word, x: Byte): (s: Word)
    requires Sized(n, t, r) && 8 <= n
    ensures |s| == |r|
  {
    if reflect then ReflectedByte(n, t, r, x) else DirectByte(n, t, r, x)
  }

  function TableRun(n: nat, t: Word, reflect: bool, r: Word, bytes: seq<Byte>): (s: Word)
    requires Sized(n, t, r) && 8 <= n
    ensures |s| == |r|
    decreases |bytes|
  {
    if bytes == [] then r else TableRun(n, t, reflect, ByteStep(n, t, reflect, r, bytes[0]), bytes[1..])
  }

  function AugTableRun(n: nat, t: Word, r: Word, bytes: seq<Byte>): (s: Word)
    requires Sized(n, t, r) && 8 <= n
    ensures |s| == |r|
    decreases |bytes|
  {
    if bytes == [] then r else AugTableRun(n, t, AugDirectByte(n, t, r, bytes[0]), bytes[1..])
  }

  /** What `crc_driver::crc_update` leaves in the whole register, unregulated bits included. */
  function DriverUpdate(n: nat, t: Word, reflect: bool, r: Word, bytes: seq<Byte>): (s: Word)
    requires 0 < n <= 64 && Sized(n, t, r) && |r| == RegisterWidth(n)
    ensures |s| == |r|
  {
    if 8 <= n then TableRun(n, t, reflect, r, bytes)
    else if reflect then RevSub(WordRun(n, t, RevSub(r, n), Message(bytes, true)), n)
    else WordRun(n, t, r, Message(bytes, false))
  }

  // ---------- the loops ----------

  lemma TableRunUnfold(n: nat, t: Word, reflect: bool, r: Word, bytes: seq<Byte>)
    requires Sized(n, t, r) && 8 <= n
    ensures bytes == [] ==> TableRun(n, t, reflect, r, bytes) == r
    ensures bytes != [] ==> TableRun(n, t, reflect, r, bytes)
                            == TableRun(n, t, reflect, ByteStep(n, t, reflect, r, bytes[0]), bytes[1..])
  {
    hide ByteStep;
  }

  lemma AugTableRunUnfold(n: nat, t: Word, r: Word, bytes: seq<Byte>)
    requires Sized(n, t, r) && 8 <= n
    ensures bytes == [] ==> AugTableRun(n, t, r, bytes) == r
    ensures bytes != [] ==> AugTableRun(n, t, r, bytes)
                            == AugTableRun(n, t, AugDirectByte(n, t, r, bytes[0]), bytes[1..])
  {
    hide AugDirectByte;
  }

  lemma TableLookup(table: seq<Word>, k: nat, n: nat, t: Word, reflect: bool, index: Word)
    requires 0 < n <= |t| && IsTable(table, k, n, t, reflect) && |index| == k
    ensures ToNat(index) < |table| && table[ToNat(index)] == TableEntry(n, t, reflect, index)
  {
    hide TableEntry;
    FromToNat(index);
  }

  method ByteTableCrcUpdate(n: nat, t: Word, reflect: bool, remainder: Word, bytes: seq<Byte>) returns (r: Word)
    requires Sized(n, t, remainder) && 8 <= n
    ensures r == TableRun(n, t, reflect, remainder, bytes)
  {
    hide TableEntry, TableRun, IsTable;
    var table := MakePartialXorProductsTable(8, n, t, reflect);
    ghost var entries := table[..];
    r := remainder;
    var i := 0;
    while i < |bytes|
      invariant 0 <= i <= |bytes| && |r| == |remainder|
      invariant table[..] == entries
      invariant TableRun(n, t, reflect, r, bytes[i..]) == TableRun(n, t, reflect, remainder, bytes)
    {
      TableRunUnfold(n, t, reflect, r, bytes[i..]);
      assert bytes[i..][1..] == bytes[i + 1..];
      var index: Byte;
      if reflect {
        index := Xor(r[..8], bytes[i]);
        r := ShiftRight(r, 8);
      } else {
        index := Xor(ShiftRight(r, n - 8)[..8], bytes[i]);
        r := ShiftLeft(r, 8);
      }
      TableLookup(entries, 8, n, t, reflect, index);
      r := Xor(r, table[ToNat(index)]);
      i := i + 1;
    }
    TableRunUnfold(n, t, reflect, r, bytes[i..]);
  }

  method AugmentedByteTableUpdate(n: nat, t: Word, remainder: Word, bytes: seq<Byte>) returns (r: Word)
    requires Sized(n, t, remainder) && 8 <= n
    ensures r == AugTableRun(n, t, remainder, bytes)
  {
    hide TableEntry, AugTableRun, IsTable;
    var table := MakePartialXorProductsTable(8, n, t, false);
    ghost var entries := table[..];
    r := remainder;
    var i := 0;
    while i < |bytes|
      invariant 0 <= i <= |bytes| && |r| == |remainder|
      invariant table[..] == entries
      invariant AugTableRun(n, t, r, bytes[i..]) == AugTableRun(n, t, remainder, bytes)
    {
      AugTableRunUnfold(n, t, r, bytes[i..]);
      assert bytes[i..][1..] == bytes[i + 1..];
      var index: Byte := ShiftRight(r, n - 8)[..8];
      r := ShiftLeft(r, 8);
      r := bytes[i] + r[8..];
      TableLookup(entries, 8, n, t, false, index);
      r := Xor(r, table[ToNat(index)]);
      i := i + 1;
    }
    AugTableRunUnfold(n, t, r, bytes[i..]);
  }

  method SubByteCrcUpdate(n: nat, t: Word, reflect: bool, remainder: Word, bytes: seq<Byte>) returns (r: Word)
    requires 0 < n < 8 && |t| == |remainder| == 8
    ensures r == DriverUpdate(n, t, reflect, remainder, bytes)
  {
    hide WordRun, RevSub;
    r := remainder;
    if reflect {
      r := ReflectSubByte(r, n);
    }
    ghost var start := r;
    RunsOfNothing(n, t, start);
    var i := 0;
    while i < |bytes|
      invariant 0 <= i <= |bytes| && |r| == 8
      invariant r == WordRun(n, t, start, Message(bytes[..i], reflect))
    {
      r := CrcModuloWordUpdate(n, r, bytes[i], t, 8, reflect);
      assert bytes[..i + 1] == bytes[..i] + [bytes[i]];
      MessageConcat(bytes[..i], [bytes[i]], reflect);
      MessageOne(bytes[i], reflect);
      WordRunConcat(n, t, start, Message(bytes[..i], reflect), Reading(bytes[i], 8, reflect));
      i := i + 1;
    }
    assert bytes[..i] == bytes;
    if reflect {
      r := ReflectSubByte(r, n);
    }
  }

  method CrcUpdate(n: nat, t: Word, reflect: bool, remainder: Word, bytes: seq<Byte>) returns (r: Word)
    requires 0 < n <= 64 && |t| == |remainder| == RegisterWidth(n)
    ensures r == DriverUpdate(n, t, reflect, remainder, bytes)
  {
    if n < 8 {
      r := SubByteCrcUpdate(n, t, reflect, remainder, bytes);
    } else {
      r := ByteTableCrcUpdate(n, t, reflect, remainder, bytes);
    }
  }

  // ---------- refinement of the bit-serial register ----------

  lemma {:induction false} DirectTableRunLow(n: nat, t: Word, r: Word, bytes: seq<Byte>)
    requires Sized(n, t, r) && 8 <= n
    ensures TableRun(n, t, false, r, bytes)[..n] == Run(t[..n], r[..n], Message(bytes, false))
    decreases |bytes|
  {
    hide DirectByte, Step, Reading;
    if bytes == [] {
    } else {
      var m := Reading(bytes[0], 8, false);
      DirectByteLow(n, t, r, bytes[0]);
      RunConcat(t[..n], r[..n], m, Message(bytes[1..], false));
      DirectTableRunLow(n, t, DirectByte(n, t, r, bytes[0]), bytes[1..]);
    }
  }

  lemma {:induction false} ReflectedTableRunMirrors(t: Word, r: Word, bytes: seq<Byte>)
    requires Fits(t, r) && 8 <= |r|
    ensures Rev(TableRun(|r|, t, true, r, bytes)) == Run(t, Rev(r), Message(bytes, true))
    decreases |bytes|
  {
    hide ReflectedByte, Step, Reading;
    if bytes == [] {
    } else {
      var m := Reading(bytes[0], 8, true);
      ReflectedByteMirrors(t, r, bytes[0]);
      RunConcat(t, Rev(r), m, Message(bytes[1..], true));
      ReflectedTableRunMirrors(t, ReflectedByte(|r|, t, r, bytes[0]), bytes[1..]);
    }
  }

  lemma {:induction false} AugTableRunLow(n: nat, t: Word, r: Word, bytes: seq<Byte>)
    requires Sized(n, t, r) && 8 <= n
    ensures AugTableRun(n, t, r, bytes)[..n] == AugRun(t[..n], r[..n], Message(bytes, false))
    decreases |bytes|
  {
    hide AugDirectByte, AugStep, Reading;
    if bytes == [] {
    } else {
      var m := Reading(bytes[0], 8, false);
      AugDirectByteLow(n, t, r, bytes[0]);
      AugRunConcat(t[..n], r[..n], m, Message(bytes[1..], false));
      AugTableRunLow(n, t, AugDirectByte(n, t, r, bytes[0]), bytes[1..]);
    }
  }

  /** The n-bit remainder a register of the driver stands for: reflected input keeps it reflected. */
  function Unreflected(n: nat, reflect: bool, r: Word): (s: Word)
    requires n <= |r|
    ensures |s| == n
  {
    if reflect then Rev(r[..n]) else r[..n]
  }

  /** The widths at which the reflected byte table has no spare register bits to pull down. */
  predicate Faithful(n: nat, reflect: bool)
    requires 0 < n <= 64
  {
    !reflect || n < 8 || n == 8 || n == 16 || n == 32 || n == 64
  }

  lemma FaithfulIsFull(n: nat, reflect: bool)
    requires 0 < n <= 64
    ensures Faithful(n, reflect) <==> (reflect && 8 <= n ==> n == RegisterWidth(n))
  {
    assert BuiltIn(8) && BuiltIn(16) && BuiltIn(32) && BuiltIn(64);
  }

  /** Byte-wise and bit-wise processing agree on every buffer. */
  lemma DriverRefinesBitSerial(n: nat, t: Word, reflect: bool, r: Word, bytes: seq<Byte>)
    requires 0 < n <= 64 && |t| == |r| == RegisterWidth(n)
    requires Faithful(n, reflect)
    ensures Unreflected(n, reflect, DriverUpdate(n, t, reflect, r, bytes))
            == Run(t[..n], Unreflected(n, reflect, r), Message(bytes, reflect))
  {
    hide Run, TableRun, WordRun, RevSub, Message;
    if 8 <= n {
      if reflect {
        assert t[..n] == t && r[..n] == r;
        ReflectedTableRunMirrors(t, r, bytes);
        var s := TableRun(n, t, true, r, bytes);
        assert s[..n] == s;
      } else {
        DirectTableRunLow(n, t, r, bytes);
      }
    } else {
      var start := if reflect then RevSub(r, n) else r;
      WordRunLow(n, t, start, Message(bytes, reflect));
      RevTwice(WordRun(n, t, start, Message(bytes, reflect))[..n]);
    }
  }

  // ---------- the widths at which reflected input goes wrong ----------

  /** Two bytes that expose the spare bits: the first leaves a 1 just above the
  significant bits, the second shifts it down among them. */
  function Exposing(n: nat, t: Word): (bytes: seq<Byte>)
    requires 8 <= n <= |t|
    ensures |bytes| == 2
  {
    [Zeros(7) + [true], Rev(t[n - 8..n])]
  }

  lemma {:induction false} WordRunZero(n: nat, t: Word, k: nat)
    requires 0 < n <= |t|
    ensures WordRun(n, t, Zeros(|t|), Zeros(k)) == Zeros(|t|)
    decreases k
  {
    if k > 0 {
      WordRunUnfold(n, t, Zeros(|t|), Zeros(k));
      assert WordStep(n, t, Zeros(|t|), false) == Zeros(|t|);
      assert Zeros(k)[1..] == Zeros(k - 1);
      WordRunZero(n, t, k - 1);
    }
  }

  lemma LastBitEntry(n: nat, t: Word)
    requires 8 <= n < |t|
    requires forall i :: n <= i < |t| ==> !t[i]
    ensures TableEntry(n, t, true, Zeros(7) + [true]) == RevLow(t[n := true], n)
  {
    hide WordRun;
    var z := Zeros(|t|);
    WordRunZero(n, t, 7);
    WordRunConcat(n, t, z, Zeros(7), [true]);
    WordRunUnfold(n, t, z, [true]);
    RunsOfNothing(n, t, WordStep(n, t, z, true));
    assert [true][1..] == [];
    assert WordStep(n, t, z, true) == t[n := true];
    assert (Zeros(7) + [true])[..8] == Zeros(7) + [true];
  }

  lemma ZeroEntry(n: nat, t: Word)
    requires 8 <= n <= |t|
    ensures TableEntry(n, t, true, Zeros(8)) == Zeros(|t|)
  {
    hide WordRun;
    WordRunZero(n, t, 8);
    assert Zeros(8)[..8] == Zeros(8);
    assert RevLow(Zeros(|t|), n) == Zeros(|t|);
  }

  /** A byte equal to the low register byte only shifts. */
  lemma ReflectedByteOfItself(n: nat, t: Word, r: Word)
    requires Sized(n, t, r) && 8 <= n
    ensures ReflectedByte(n, t, r, r[..8]) == ShiftRight(r, 8)
  {
    hide TableEntry;
    XorZeros(r[..8]);
    ZeroEntry(n, t);
    XorZeros(ShiftRight(r, 8));
  }

  /** What the first exposing byte leaves, and what the second makes of it. */
  lemma ExposingRegister(n: nat, t: Word)
    requires 8 <= n <= |t| && (forall i :: n <= i < |t| ==> !t[i])
    requires n < |t|
    ensures TableRun(n, t, true, Zeros(|t|), Exposing(n, t)) == ShiftRight(RevLow(t[n := true], n), 8)
  {
    hide TableEntry, TableRun;
    var z := Zeros(|t|);
    var x, y := Exposing(n, t)[0], Exposing(n, t)[1];
    var r := RevLow(t[n := true], n);
    XorZeros(x);
    assert z[..8] == Zeros(8);
    assert ShiftRight(z, 8) == z;
    LastBitEntry(n, t);
    XorZeros(r);
    TableRunUnfold(n, t, true, z, Exposing(n, t));
    assert r[..8] == y;
    ReflectedByteOfItself(n, t, r);
    TableRunUnfold(n, t, true, r, [y]);
    TableRunUnfold(n, t, true, ShiftRight(r, 8), []);
    assert Exposing(n, t)[1..] == [y] && [y][1..] == [];
  }

  lemma ExposingMessage(t: Word)
    requires 8 <= |t|
    ensures Message(Exposing(|t|, t), true) == Zeros(7) + [true] + Rev(t)[..8]
  {
    var x, y := Exposing(|t|, t)[0], Exposing(|t|, t)[1];
    assert Exposing(|t|, t) == [x] + [y];
    MessageConcat([x], [y], true);
    MessageOne(x, true);
    MessageOne(y, true);
    assert y == Rev(t)[..8];
  }

  /** The true remainder of the exposing bytes. */
  lemma ExposingRemainder(t: Word)
    requires 8 <= |t|
    ensures Run(t, Zeros(|t|), Message(Exposing(|t|, t), true)) == Rev(ShiftRight(Rev(t), 8))
  {
    hide Run, Exposing, Message;
    var y := Rev(t)[..8];
    var z := Zeros(|t|);
    ExposingMessage(t);
    RunConcat(t, z, Zeros(7) + [true], y);
    RunConcat(t, z, Zeros(7), [true]);
    RunZero(t, |t|, 7);
    LastBitRun(t);
    SecondExposingByte(t);
  }

  lemma SecondExposingByte(t: Word)
    requires 8 <= |t|
    ensures Run(t, t, Rev(t)[..8]) == Rev(ShiftRight(Rev(t), 8))
  {
    hide Run, ReflectedByte, DirectByte, Reading, ShiftRight, TableEntry;
    var r := Rev(t);
    var y: Byte := r[..8];
    ReflectedByteOfItself(|t|, t, r);
    ReflectedByteMirrors(t, r, y);
    RevTwice(t);
    ReadingOfByte(y);
  }

  lemma ReadingOfByte(y: Byte)
    ensures Reading(y, 8, true) == y
  {
    assert y[..8] == y;
  }

  lemma LastBitRun(t: Word)
    requires 0 < |t|
    ensures Run(t, Zeros(|t|), [true]) == t
  {
    RunOne(t, Zeros(|t|), true);
    assert Shl(Zeros(|t|)) == Zeros(|t|);
    XorZeros(t);
  }

  lemma WideReflectedFails(n: nat, t: Word)
    requires 8 <= n <= 64 && |t| == RegisterWidth(n) && n < |t|
    requires forall i :: n <= i < |t| ==> !t[i]
    ensures Unreflected(n, true, DriverUpdate(n, t, true, Zeros(|t|), Exposing(n, t)))
            != Run(t[..n], Zeros(n), Message(Exposing(n, t), true))
  {
    hide Run, TableRun;
    ExposingRegister(n, t);
    assert t[..n][n - 8..n] == t[n - 8..n];
    assert Exposing(n, t) == Exposing(n, t[..n]);
    ExposingRemainder(t[..n]);
    var r := RevLow(t[n := true], n);
    assert r[n];
    assert ShiftRight(r, 8)[..n][n - 8];
    assert Rev(ShiftRight(r, 8)[..n])[7];
    assert !ShiftRight(Rev(t[..n]), 8)[n - 8];
    assert !Rev(ShiftRight(Rev(t[..n]), 8))[7];
  }

  // ---------- from any register ----------

  lemma TableEntryLinear(n: nat, t: Word, i: Byte, j: Byte)
    requires 0 < n <= |t|
    ensures TableEntry(n, t, true, Xor(i, j)) == Xor(TableEntry(n, t, true, i), TableEntry(n, t, true, j))
  {
    hide WordRun;
    var z := Zeros(|t|);
    assert Xor(z, z) == z;
    assert Reading(Xor(i, j), 8, true) == Xor(Reading(i, 8, true), Reading(j, 8, true));
    WordRunLinear(n, t, z, z, Reading(i, 8, true), Reading(j, 8, true));
    RevLowLinear(WordRun(n, t, z, Reading(i, 8, true)), WordRun(n, t, z, Reading(j, 8, true)), n);
  }

  lemma RevLowLinear(a: Word, b: Word, n: nat)
    requires |a| == |b| && n <= |a|
    ensures RevLow(Xor(a, b), n) == Xor(RevLow(a, n), RevLow(b, n))
  {
    var x, y, c := RevLow(a, n), RevLow(b, n), RevLow(Xor(a, b), n);
    forall i | 0 <= i < |a| ensures c[i] == Xor(x, y)[i] {
      if i < n {
        assert c[..n][i] == Xor(a, b)[..n][n - 1 - i];
        assert x[..n][i] == a[..n][n - 1 - i] && y[..n][i] == b[..n][n - 1 - i];
      } else {
        assert c[n..][i - n] == Xor(a, b)[n..][i - n] && x[n..][i - n] == a[n..][i - n];
        assert y[n..][i - n] == b[n..][i - n];
      }
    }
  }

  lemma ReflectedByteLinear(n: nat, t: Word, r: Word, s: Word, x: Byte, y: Byte)
    requires Sized(n, t, r) && 8 <= n && |s| == |r|
    ensures ReflectedByte(n, t, Xor(r, s), Xor(x, y)) == Xor(ReflectedByte(n, t, r, x), ReflectedByte(n, t, s, y))
  {
    hide TableEntry;
    var i, j: Byte := Xor(r[..8], x), Xor(s[..8], y);
    assert Xor(Xor(r, s)[..8], Xor(x, y)) == Xor(i, j);
    TableEntryLinear(n, t, i, j);
    XorsRegroup(ShiftRight(r, 8), ShiftRight(s, 8), TableEntry(n, t, true, i), TableEntry(n, t, true, j));
    assert ShiftRight(Xor(r, s), 8) == Xor(ShiftRight(r, 8), ShiftRight(s, 8));
  }

  lemma XorsRegroup(a: Word, b: Word, c: Word, d: Word)
    requires |a| == |b| == |c| == |d|
    ensures Xor(Xor(a, b), Xor(c, d)) == Xor(Xor(a, c), Xor(b, d))
  {
  }

  /** As many bytes, all zero. */
  function Blank(bytes: seq<Byte>): (z: seq<Byte>)
    ensures |z| == |bytes|
  {
    if bytes == [] then [] else [Zeros(8)] + Blank(bytes[1..])
  }

  /** What a register contributes and what the bytes contribute can be told apart. */
  lemma {:induction false} TableRunLinear(n: nat, t: Word, r: Word, s: Word, bytes: seq<Byte>)
    requires Sized(n, t, r) && 8 <= n && |s| == |r|
    ensures TableRun(n, t, true, Xor(r, s), bytes)
            == Xor(TableRun(n, t, true, r, Blank(bytes)), TableRun(n, t, true, s, bytes))
    decreases |bytes|
  {
    hide ReflectedByte;
    if bytes != [] {
      var x := bytes[0];
      XorZeros(x);
      ReflectedByteLinear(n, t, r, s, Zeros(8), x);
      assert Blank(bytes)[0] == Zeros(8) && Blank(bytes)[1..] == Blank(bytes[1..]);
      TableRunLinear(n, t, ReflectedByte(n, t, r, Zeros(8)), ReflectedByte(n, t, s, x), bytes[1..]);
    }
  }

  lemma {:induction false} BlankMessage(bytes: seq<Byte>)
    ensures Message(Blank(bytes), true) == Zeros(8 * |bytes|)
    decreases |bytes|
  {
    if bytes != [] {
      BlankMessage(bytes[1..]);
      assert Reading(Zeros(8), 8, true) == Zeros(8);
      assert Blank(bytes) == [Zeros(8)] + Blank(bytes[1..]);
      MessageConcat([Zeros(8)], Blank(bytes[1..]), true);
      MessageOne(Zeros(8), true);
      hide Message;
      assert Zeros(8) + Zeros(8 * |bytes[1..]|) == Zeros(8 * |bytes|);
    }
  }

  lemma UnreflectedLinear(n: nat, a: Word, b: Word)
    requires |a| == |b| && n <= |a|
    ensures Unreflected(n, true, Xor(a, b)) == Xor(Unreflected(n, true, a), Unreflected(n, true, b))
  {
    assert Xor(a, b)[..n] == Xor(a[..n], b[..n]);
    XorRev(a[..n], b[..n]);
  }

  lemma XorCancels(a: Word, b: Word, c: Word)
    requires |a| == |b| == |c| && Xor(a, b) == Xor(a, c)
    ensures b == c
  {
    forall i | 0 <= i < |b| ensures b[i] == c[i] {
      assert Xor(a, b)[i] == Xor(a, c)[i];
    }
  }

  /** If the table loop is right from some register on a buffer and on as many zero bytes,
  it is right on the buffer from zero. */
  lemma RightFromZeroToo(n: nat, t: Word, r: Word, bytes: seq<Byte>)
    requires Sized(n, t, r) && 8 <= n
    requires Unreflected(n, true, TableRun(n, t, true, r, bytes))
             == Run(t[..n], Unreflected(n, true, r), Message(bytes, true))
    requires Unreflected(n, true, TableRun(n, t, true, r, Blank(bytes)))
             == Run(t[..n], Unreflected(n, true, r), Message(Blank(bytes), true))
    ensures Unreflected(n, true, TableRun(n, t, true, Zeros(|t|), bytes))
            == Run(t[..n], Zeros(n), Message(bytes, true))
  {
    hide Run, TableRun, Message, Unreflected, Blank;
    var z, u, m := Zeros(|t|), Unreflected(n, true, r), Message(bytes, true);
    XorZeros(r);
    TableRunLinear(n, t, r, z, bytes);
    UnreflectedLinear(n, TableRun(n, t, true, r, Blank(bytes)), TableRun(n, t, true, z, bytes));
    XorZeros(u);
    XorZeros(m);
    BlankMessage(bytes);
    RunLinear(t[..n], u, Zeros(n), Zeros(|m|), m);
    XorCancels(Run(t[..n], u, Zeros(|m|)), Unreflected(n, true, TableRun(n, t, true, z, bytes)),
               Run(t[..n], Zeros(n), m));
  }

  /** Byte-wise processing of a buffer from a register gives the CRC. */
  predicate Agrees(n: nat, t: Word, reflect: bool, r: Word, bytes: seq<Byte>)
    requires 0 < n <= 64 && |t| == |r| == RegisterWidth(n)
  {
    Unreflected(n, reflect, DriverUpdate(n, t, reflect, r, bytes))
    == Run(t[..n], Unreflected(n, reflect, r), Message(bytes, reflect))
  }

  /** At an unfaithful width every register has a two-byte buffer that goes wrong. */
  lemma WideReflectedFailsFrom(n: nat, t: Word, r: Word) returns (bytes: seq<Byte>)
    requires 0 < n <= 64 && |t| == |r| == RegisterWidth(n) && !Faithful(n, true)
    requires forall i :: n <= i < |t| ==> !t[i]
    ensures |bytes| == 2 && !Agrees(n, t, true, r, bytes)
  {
    hide Run, TableRun, Message, Unreflected, Blank, Exposing;
    bytes := Exposing(n, t);
    WideReflectedFails(n, t);
    if Agrees(n, t, true, r, bytes) {
      if Agrees(n, t, true, r, Blank(bytes)) {
        RightFromZeroToo(n, t, r, bytes);
      }
      bytes := Blank(bytes);
    }
  }

  /** For every divisor without stray high bits and every register: byte-wise processing from it
  is the CRC of every buffer exactly when the width is faithful. */
  lemma DriverAgreesExactlyWhenFaithful(n: nat, t: Word, reflect: bool, r: Word)
    requires 0 < n <= 64 && |t| == |r| == RegisterWidth(n)
    requires forall i :: n <= i < |t| ==> !t[i]
    ensures Faithful(n, reflect) <==> forall bytes :: Agrees(n, t, reflect, r, bytes)
  {
    hide Run, DriverUpdate, Unreflected, Message;
    if Faithful(n, reflect) {
      forall bytes ensures Agrees(n, t, reflect, r, bytes) {
        DriverRefinesBitSerial(n, t, reflect, r, bytes);
      }
    } else {
      var bytes := WideReflectedFailsFrom(n, t, r);
      assert !Agrees(n, t, reflect, r, bytes);
    }
  }
}
