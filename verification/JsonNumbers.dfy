/** What texts of digits, points, exponent marks and signs are read as, malformed ones included. */
module JsonNumbers {
  import opened Decimals
  import opened JsonValue
  import opened Wrappers
  import opened JsonRead
  import opened JsonText
  import opened JsonTextRead

  // ---------- the value of a text ----------

  predicate NumericChar(c: char)
  {
    '0' <= c <= '9' || c == '.' || c == 'e' || c == 'E' || c == '+' || c == '-'
  }

  predicate Numeric(w: string)
  {
    w != "" && forall k :: 0 <= k < |w| ==> NumericChar(w[k])
  }

  /** No numeric text is a boolean or null, or one but for its last letter. */
  lemma NoWord(w: string, word: string)
    requires (forall k :: 0 <= k < |w| ==> NumericChar(w[k])) && word != "" && word[0] in "tfn"
    ensures CStr(w) == w && !EqualNoCase(w, word)
  {
    CStrWhole(w);
    if w != "" {
      assert NumericChar(w[0]);
      assert Lower(w[0]) != word[0] && Lower(word[0]) == word[0];
    }
  }

  function DoubleOr(d: Option<real>): Option<Value>
  {
    if d.Some? then Some(Value.Double(d.value)) else None
  }

  /** A number with a point or an exponent mark is what `strtod` makes of the whole text. */
  lemma FloatingValue(lib: Lib, w: string, hasDot: bool, hasE: bool)
    requires Numeric(w) && (hasDot || hasE)
    ensures PrimitiveValue(lib, w, hasDot, hasE) == DoubleOr(lib.strtod(w))
  {
    NoWord(w, "true");
    NoWord(w, "false");
  }

  /** Without them it is an integer in decimal: read as one if it fits in 32 bits, an error beyond that as far as the
  C type `long` goes, and a floating-point number beyond `long`. */
  lemma IntegerValue(lib: Lib, sign: string, digits: string)
    requires sign == "" || sign == "-" || sign == "+"
    requires digits != "" && AllDigits(digits)
    ensures var d: int := DigitsValue(digits);
            var n := if sign == "-" then -d else d;
            PrimitiveValue(lib, sign + digits, false, false) ==
            if n < -1 - lib.longMax || lib.longMax < n then DoubleOr(lib.strtod(sign + digits))
            else if -0x8000_0000 <= n <= 0x7FFF_FFFF then Some(Int(n))
            else None
  {
    hide CStr, EqualNoCase, StrToL, Numeric, DigitsValue;
    NoWords(sign, digits);
    IntegerText(sign, digits);
  }

  lemma NoWords(sign: string, digits: string)
    requires sign == "" || sign == "-" || sign == "+"
    requires AllDigits(digits)
    ensures var w := sign + digits;
            CStr(w) == w && !EqualNoCase(w, "true") && !EqualNoCase(w, "false") && !EqualNoCase(w, "null")
  {
    var w := sign + digits;
    assert forall k :: |sign| <= k < |w| ==> w[k] == digits[k - |sign|];
    hide CStr, EqualNoCase;
    NoWord(w, "true");
    NoWord(w, "false");
    NoWord(w, "null");
  }

  lemma IntegerText(sign: string, digits: string)
    requires sign == "" || sign == "-" || sign == "+"
    requires digits != "" && AllDigits(digits)
    ensures StrToL(sign + digits) == Some(if sign == "-" then -(DigitsValue(digits) as int) else DigitsValue(digits))
  {
    var w := sign + digits;
    assert IsDigit(digits[0]);
    if sign == "" {
      assert w == digits;
    } else {
      assert w[0] == sign[0] && w[1..] == digits;
    }
  }

  /** Any other text of digits and signs is an error. */
  lemma NoInteger(lib: Lib, w: string)
    requires Numeric(w) && '.' !in w && 'e' !in w && 'E' !in w
    requires var digits := if w[0] == '-' || w[0] == '+' then w[1..] else w; digits == "" || !AllDigits(digits)
    ensures PrimitiveValue(lib, w, false, false) == None
  {
    NoWord(w, "true");
    NoWord(w, "false");
    NoWord(w, "null");
    hide CStr, EqualNoCase;
  }

  // ---------- collecting the text ----------

  predicate DigitBefore(w: string, k: nat)
    requires k <= |w|
  {
    exists j :: 0 <= j < k && '0' <= w[j] <= '9'
  }

  predicate PointBefore(w: string, k: nat)
    requires k <= |w|
  {
    exists j :: 0 <= j < k && w[j] == '.'
  }

  predicate MarkBefore(w: string, k: nat)
    requires k <= |w|
  {
    exists j :: 0 <= j < k && (w[j] == 'e' || w[j] == 'E')
  }

  /** A point with no digit before it, or an exponent mark with no digit or with another mark before it. */
  predicate Misplaced(w: string, k: nat)
  {
    k < |w| && ((w[k] == '.' && !DigitBefore(w, k))
                || ((w[k] == 'e' || w[k] == 'E') && (!DigitBefore(w, k) || MarkBefore(w, k))))
  }

  lemma OneMore(w: string, k: nat)
    requires k < |w|
    ensures DigitBefore(w, k + 1) <==> DigitBefore(w, k) || '0' <= w[k] <= '9'
    ensures PointBefore(w, k + 1) <==> PointBefore(w, k) || w[k] == '.'
    ensures MarkBefore(w, k + 1) <==> MarkBefore(w, k) || w[k] == 'e' || w[k] == 'E'
  {
  }

  lemma {:induction false} ScanNumeric(w: string, i: nat, st: Stack)
    requires Numeric(w) && i <= |w| && forall k: nat :: k < i ==> !Misplaced(w, k)
    ensures var p := ScanPrimitive(w, i, w[..i], PointBefore(w, i), MarkBefore(w, i), DigitBefore(w, i), st);
            p == if exists k: nat :: Misplaced(w, k) then Rejected(st)
                 else Collected(|w|, w, PointBefore(w, |w|), MarkBefore(w, |w|), st)
    decreases |w| - i
  {
    hide DigitBefore, PointBefore, MarkBefore, BooleanStem;
    if i == |w| {
      assert w[..i] == w;
      assert forall k: nat :: !Misplaced(w, k);
    } else {
      NoStem(w, i);
      OneMore(w, i);
      if !Misplaced(w, i) {
        assert w[..i] + [w[i]] == w[..i + 1];
        ScanNumeric(w, i + 1, st);
      }
    }
  }

  lemma NoStem(w: string, i: nat)
    requires Numeric(w) && i < |w|
    ensures !BooleanStem(w[..i]) && NumericChar(w[i])
  {
    NoWord(w[..i], "tru");
    NoWord(w[..i], "fals");
  }

  /** The whole of such a text is an error if a point or a mark is misplaced, and otherwise the value of the text. */
  lemma ReadsNumeric(lib: Lib, w: string, st: Stack)
    requires Numeric(w)
    ensures var v := PrimitiveValue(lib, w, '.' in w, 'e' in w || 'E' in w);
            DeserializeValue(lib, w, st) ==
            if (exists k: nat :: Misplaced(w, k)) || v == None then Done(ValueRead(Null, true, w, st))
            else Done(ValueRead(v.value, false, "", st))
  {
    hide ScanPrimitive, PrimitiveValue, ScanEnd, QuotePos, Unescape, DeserializeArray, DeserializeInternal,
         DigitBefore, Misplaced;
    assert NumericChar(w[0]) && NumericChar(w[|w| - 1]);
    assert Trim(w) == w;
    ScanNumeric(w, 0, st);
    assert w[..0] == "" && w[|w|..] == "";
    NothingBefore(w);
  }

  lemma NothingBefore(w: string)
    ensures !DigitBefore(w, 0) && !PointBefore(w, 0) && !MarkBefore(w, 0)
    ensures PointBefore(w, |w|) <==> '.' in w
    ensures MarkBefore(w, |w|) <==> 'e' in w || 'E' in w
  {
  }

  // ---------- well-formed numbers ----------

  /** What a number in a text is taken for. */
  lemma NumberLaw(lib: Lib, n: Number)
    requires IsNumber(n)
    ensures var text := (if n.neg then "-" else "") + n.digits + n.frac + n.exp;
            var d: int := DigitsValue(n.digits);
            var i := if n.neg then -d else d;
            Taken(lib, Num(n)) ==
            if n.frac != "" || n.exp != "" || i < -1 - lib.longMax || lib.longMax < i
            then (if lib.strtod(text).Some? then Some(Value.Double(lib.strtod(text).value)) else None)
            else if -0x8000_0000 <= i <= 0x7FFF_FFFF then Some(Int(i))
            else None
  {
    hide PrimitiveValue;
    var sign := if n.neg then "-" else "";
    if n.frac == "" && n.exp == "" {
      assert sign + n.digits + "" + "" == sign + n.digits;
      IntegerValue(lib, sign, n.digits);
    } else {
      NumberIsNumeric(n);
      FloatingValue(lib, NumberSource(n), n.frac != "", n.exp != "");
    }
  }

  lemma NumberIsNumeric(n: Number)
    requires IsNumber(n)
    ensures Numeric(NumberSource(n))
  {
    assert forall k :: 1 <= k < |n.frac| ==> n.frac[k] == n.frac[1..][k - 1];
    var sign := if n.neg then "-" else "";
    NumericParts(sign, n.digits);
    NumericParts(sign + n.digits, n.frac);
    NumericParts(sign + n.digits + n.frac, n.exp);
  }

  lemma NumericParts(a: string, b: string)
    ensures (forall k :: 0 <= k < |a| ==> NumericChar(a[k])) && (forall k :: 0 <= k < |b| ==> NumericChar(b[k]))
            ==> forall k :: 0 <= k < |a + b| ==> NumericChar((a + b)[k])
  {
  }

  // ---------- words ----------

  /** The letters of a word in capitals or not. */
  predicate AnyCase(w: string, word: string)
  {
    |w| == |word| && forall k :: 0 <= k < |w| ==> w[k] == word[k] || w[k] as int == word[k] as int - 32
  }

  lemma AnyCaseEqual(w: string, word: string)
    requires forall k :: 0 <= k < |word| ==> 'a' <= word[k] <= 'z'
    ensures AnyCase(w, word) <==> EqualNoCase(w, word)
  {
    if EqualNoCase(w, word) {
      forall k | 0 <= k < |w| ensures w[k] == word[k] || w[k] as int == word[k] as int - 32 {
        assert Lower(w[k]) == Lower(word[k]);
      }
    }
  }

  /** Booleans are read in capitals or not, up to the first zero byte, and so is null if no point or mark came before;
  nothing else is read as one. */
  lemma WordsAnyCase(lib: Lib, w: string, rest: string, hasDot: bool, hasE: bool)
    requires '\0' !in w && (rest == "" || rest[0] == '\0')
    ensures var v := PrimitiveValue(lib, w + rest, hasDot, hasE);
            && (v == Some(Bool(true)) <==> AnyCase(w, "true"))
            && (v == Some(Bool(false)) <==> AnyCase(w, "false"))
            && (v == Some(Null) <==> AnyCase(w, "null") && !hasDot && !hasE)
  {
    hide CStr, EqualNoCase, AnyCase, StrToL;
    CutAtZero(w, rest);
    ThreeWords(w);
    Apart(w);
  }

  lemma ThreeWords(w: string)
    ensures AnyCase(w, "true") <==> EqualNoCase(w, "true")
    ensures AnyCase(w, "false") <==> EqualNoCase(w, "false")
    ensures AnyCase(w, "null") <==> EqualNoCase(w, "null")
  {
    hide AnyCase, EqualNoCase;
    AnyCaseEqual(w, "true");
    AnyCaseEqual(w, "false");
    AnyCaseEqual(w, "null");
  }

  lemma Apart(w: string)
    ensures AnyCase(w, "true") ==> !AnyCase(w, "null") && !AnyCase(w, "false")
    ensures AnyCase(w, "false") ==> !AnyCase(w, "null")
  {
    if AnyCase(w, "true") {
      assert w[0] == 't' || w[0] == 'T';
    }
  }

  /** A C string ends at its first zero byte. */
  lemma {:induction false} CutAtZero(w: string, rest: string)
    requires '\0' !in w && (rest == "" || rest[0] == '\0')
    ensures CStr(w + rest) == w
  {
    if w == "" {
      assert w + rest == rest;
    } else {
      assert (w + rest)[1..] == w[1..] + rest;
      CutAtZero(w[1..], rest);
    }
  }

  /** Whatever follows the first zero byte is ignored, and a text that starts with one is the integer zero. */
  lemma ZeroByteEnds(lib: Lib, w: string, rest: string, hasDot: bool, hasE: bool)
    requires '\0' !in w && rest != "" && rest[0] == '\0'
    ensures PrimitiveValue(lib, w + rest, hasDot, hasE) == PrimitiveValue(lib, w, hasDot, hasE)
    ensures w == "" ==> PrimitiveValue(lib, w + rest, false, false) == Some(Int(0))
  {
    CutAtZero(w, rest);
    CutAtZero(w, "");
    assert w + "" == w;
    hide CStr;
  }

  /** So a word of its own is read as it is meant, whatever the case of its letters. */
  lemma ReadsWord(lib: Lib, w: string, v: Value, st: Stack)
    requires (AnyCase(w, "true") && v == Bool(true)) || (AnyCase(w, "false") && v == Bool(false))
             || (AnyCase(w, "null") && v == Null)
    ensures DeserializeValue(lib, w, st) == Done(ValueRead(v, false, "", st))
  {
    hide ScanPrimitive, PrimitiveValue, ScanEnd, QuotePos, Unescape, DeserializeArray, DeserializeInternal;
    WordChars(w, v);
    WordScanned(w, v, st);
    WordsAnyCase(lib, w, "", false, false);
    assert w + "" == w && w[|w|..] == "" && Trim(w) == w;
  }

  lemma WordChars(w: string, v: Value)
    requires (AnyCase(w, "true") && v == Bool(true)) || (AnyCase(w, "false") && v == Bool(false))
             || (AnyCase(w, "null") && v == Null)
    ensures |w| >= 4 && '\0' !in w && Trimmed(w) && w[0] !in "[{\""
    ensures v.Null? ==> forall k :: 0 <= k < |w| ==> Neutral(w[k])
    ensures v.Bool? ==> (forall k :: 0 <= k < |w| - 1 ==> Neutral(w[k])) && IsE(w[|w| - 1])
    ensures v.Bool? ==> BooleanStem(w[..|w| - 1])
  {
    if v.Bool? {
      StemOf(w, if v.truth then "tru" else "fals");
    }
  }

  lemma StemOf(w: string, stem: string)
    requires (stem == "tru" || stem == "fals") && AnyCase(w, stem + "e")
    ensures BooleanStem(w[..|w| - 1])
  {
    var n := |w| - 1;
    assert AnyCase(w[..n], stem);
    CStrWhole(w[..n]);
    AnyCaseEqual(w[..n], stem);
    hide AnyCase, CStr;
  }

  lemma WordScanned(w: string, v: Value, st: Stack)
    requires w != "" && (v.Null? || v.Bool?)
    requires v.Null? ==> forall k :: 0 <= k < |w| ==> Neutral(w[k])
    requires v.Bool? ==> (forall k :: 0 <= k < |w| - 1 ==> Neutral(w[k])) && IsE(w[|w| - 1])
    requires v.Bool? ==> BooleanStem(w[..|w| - 1])
    ensures ScanPrimitive(w, 0, "", false, false, false, st) == Collected(|w|, w, false, false, st)
  {
    hide BooleanStem, Neutral;
    if v.Null? {
      var d := ScanLetters(w, w, st);
    } else {
      var stem := w[..|w| - 1];
      assert stem + [w[|w| - 1]] == w;
      var d := ScanLetters(w, stem, st);
      ScanStemE(w, |stem|, stem, d, st);
    }
  }
}
