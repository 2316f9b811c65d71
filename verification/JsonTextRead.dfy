/** The reader on well-formed texts. */
module JsonTextRead {
  import opened Decimals
  import opened JsonValue
  import opened Wrappers
  import opened JsonRead
  import opened JsonBrackets
  import opened JsonText
  import opened JsonTextNest

  // ---------- white space at the ends ----------

  lemma {:induction false} TrimSpaces(w: string)
    requires AllSpace(w)
    ensures Trim(w) == ""
  {
    if w != "" {
      TrimSpaces(w[1..]);
    }
  }

  lemma {:induction false} TrimFront(w: string, s: string)
    requires AllSpace(w)
    ensures Trim(w + s) == Trim(s)
  {
    if w == "" {
      assert w + s == s;
    } else {
      assert (w + s)[1..] == w[1..] + s;
      TrimFront(w[1..], s);
    }
  }

  lemma {:induction false} TrimBack(s: string, w: string)
    requires AllSpace(w)
    ensures Trim(s + w) == Trim(s)
    decreases |s| + |w|
  {
    if w == "" {
      assert s + w == s;
    } else if s == "" {
      assert s + w == w;
      TrimSpaces(w);
    } else if IsSpace(s[0]) {
      assert (s + w)[1..] == s[1..] + w;
      TrimBack(s[1..], w);
    } else {
      var v := w[..|w| - 1];
      assert (s + w)[..|s + w| - 1] == s + v;
      TrimBack(s, v);
    }
  }

  /** The text but for some white space at its end. */
  predicate Sheds(s: string, full: string)
  {
    s <= full && AllSpace(full[|s|..])
  }

  lemma TrimShed(s: string, full: string)
    requires Sheds(s, full)
    ensures Trim(s) == Trim(full)
  {
    assert full == s + full[|s|..];
    TrimBack(s, full[|s|..]);
  }

  lemma {:induction false} TrimIsShed(t: string)
    requires t != "" && !IsSpace(t[0])
    ensures Trim(t) != "" && Trim(t)[0] == t[0] && Sheds(Trim(t), t)
    decreases |t|
  {
    if IsSpace(t[|t| - 1]) {
      var u := t[..|t| - 1];
      TrimIsShed(u);
      assert Trim(t) == Trim(u);
      hide Trim;
      assert t[|Trim(u)|..] == u[|Trim(u)|..] + [t[|t| - 1]];
      OneSpace(t[|t| - 1]);
      SpacesJoin(u[|Trim(u)|..], [t[|t| - 1]]);
    } else {
      assert t[|t|..] == "";
    }
  }

  lemma ShedSplit(s: string, a: string, b: string)
    requires Sheds(s, a + b) && a != "" && !IsSpace(a[|a| - 1])
    ensures a <= s && Sheds(s[|a|..], b)
  {
    forall k | |s| <= k < |a + b| ensures IsSpace((a + b)[k]) {
      assert (a + b)[|s|..][k - |s|] == (a + b)[k];
    }
    assert (a + b)[|a| - 1] == a[|a| - 1];
    assert s == (a + b)[..|s|];
    assert s[|a|..] == b[..|s| - |a|];
    assert b[|s| - |a|..] == (a + b)[|s|..];
  }

  /** What is left after a value's text, once the ends of the whole are trimmed. */
  function Left(after: string, tail: string): string
  {
    if tail == "" then "" else after + Trim(tail)
  }

  predicate Follows(tail: string)
  {
    tail == "" || tail[0] == ','
  }

  lemma TrimAround(before: string, core: string, after: string, tail: string)
    requires AllSpace(before) && AllSpace(after) && core != "" && Trimmed(core) && Follows(tail)
    ensures Trim(before + core + after + tail) == core + Left(after, tail)
  {
    hide Trim;
    if tail == "" {
      assert before + core + after + tail == before + (core + after);
      TrimFront(before, core + after);
      TrimBack(core, after);
      assert core + "" == core;
    } else {
      TrimIsShed(tail);
      TrimBefore(before, core, after, Trim(tail), tail[|Trim(tail)|..]);
      assert tail == Trim(tail) + tail[|Trim(tail)|..];
    }
  }

  lemma TrimBefore(before: string, core: string, after: string, t: string, w: string)
    requires AllSpace(before) && AllSpace(w) && core != "" && Trimmed(core) && t != "" && Trimmed(t)
    ensures Trim(before + core + after + (t + w)) == core + (after + t)
  {
    hide Trim, AllSpace;
    var s := core + (after + t);
    Reassociate(before, core, after, t, w);
    TrimFront(before, s + w);
    TrimBack(s, w);
    assert s[0] == core[0] && s[|s| - 1] == t[|t| - 1];
    assert Trimmed(s);
  }

  lemma Reassociate(a: string, b: string, c: string, d: string, e: string)
    ensures a + b + c + (d + e) == a + (b + (c + d) + e)
  {
  }

  lemma SourceEnds(lib: Lib, t: Tree)
    requires Formed(lib, t)
    ensures Source(t) != "" && Trimmed(Source(t))
  {
    hide FieldsSource, ItemsSource;
    if IsScalar(t) {
      ScalarChars(lib, t);
    }
  }

  /** How the value reader sees a text with white space around it and more behind it. */
  lemma TrimmedText(lib: Lib, x: Spaced, s0: string, tail: string)
    requires FormedSpaced(lib, x) && Follows(tail) && Sheds(s0, SpacedSource(x) + tail)
    ensures Trim(s0) == Source(x.tree) + Left(x.after, tail) && Source(x.tree) != ""
  {
    hide Trim, Source, Formed, Sheds, AllSpace;
    SourceEnds(lib, x.tree);
    TrimShed(s0, SpacedSource(x) + tail);
    TrimAround(x.before, Source(x.tree), x.after, tail);
  }

  // ---------- numbers, booleans and null ----------

  predicate Neutral(c: char)
  {
    c !in ".eE]},[{" && !IsSpace(c)
  }

  lemma {:induction false} ScanNeutral(s: string, i: nat, j: nat, temp: string, dot: bool, e: bool, digit: bool,
                                       st: Stack)
    returns (d: bool)
    requires i <= j <= |s| && forall k :: i <= k < j ==> Neutral(s[k])
    ensures d <==> digit || exists k :: i <= k < j && IsDigit(s[k])
    ensures ScanPrimitive(s, i, temp, dot, e, digit, st) == ScanPrimitive(s, j, temp + s[i..j], dot, e, d, st)
    decreases j - i
  {
    if i == j {
      d := digit;
      assert temp + s[i..j] == temp;
    } else {
      d := ScanNeutral(s, i + 1, j, temp + [s[i]], dot, e, digit || IsDigit(s[i]), st);
      assert temp + [s[i]] + s[i + 1..j] == temp + s[i..j];
    }
  }

  lemma {:induction false} ScanSpaces(s: string, i: nat, j: nat, temp: string, dot: bool, e: bool, digit: bool,
                                      st: Stack)
    requires i <= j <= |s| && AllSpace(s[i..j])
    ensures ScanPrimitive(s, i, temp, dot, e, digit, st) == ScanPrimitive(s, j, temp, dot, e, digit, st)
    decreases j - i
  {
    if i < j {
      assert s[i] == s[i..j][0];
      assert s[i + 1..j] == s[i..j][1..];
      ScanSpaces(s, i + 1, j, temp, dot, e, digit, st);
    }
  }

  lemma ScanOne(s: string, i: nat, temp: string, dot: bool, e: bool, digit: bool, st: Stack)
    requires i < |s| && (s[i] == '.' || IsE(s[i]))
    requires digit && !e && !BooleanStem(temp)
    ensures ScanPrimitive(s, i, temp, dot, e, digit, st)
            == ScanPrimitive(s, i + 1, temp + [s[i]], dot || s[i] == '.', e || IsE(s[i]), digit, st)
  {
    hide BooleanStem;
  }

  lemma ScanStemE(s: string, i: nat, temp: string, digit: bool, st: Stack)
    requires i < |s| && IsE(s[i]) && BooleanStem(temp)
    ensures ScanPrimitive(s, i, temp, false, false, digit, st)
            == ScanPrimitive(s, i + 1, temp + [s[i]], false, false, digit, st)
  {
    hide BooleanStem;
  }

  /** The characters of the scalar are collected up to the comma behind it or to the end. */
  lemma ScanStops(s: string, i: nat, after: string, rest: string, temp: string, dot: bool, e: bool, digit: bool,
                  st: Stack)
    requires i <= |s| && s[i..] == after + rest && AllSpace(after) && Follows(rest)
    ensures ScanPrimitive(s, i, temp, dot, e, digit, st) == Collected(|s| - |rest|, temp, dot, e, st)
  {
    var j := |s| - |rest|;
    assert s[i..j] == s[i..][..|after|] == after;
    ScanSpaces(s, i, j, temp, dot, e, digit, st);
    assert rest != "" ==> s[j] == s[i..][|after|] == ',';
  }

  lemma ScalarWithoutZero(lib: Lib, t: Tree)
    requires Formed(lib, t) && IsScalar(t)
    ensures '\0' !in Source(t)
  {
    ScalarChars(lib, t);
  }

  lemma DigitIsNoStem(temp: string, k: nat)
    requires '\0' !in temp && k < |temp| && IsDigit(temp[k])
    ensures !BooleanStem(temp)
  {
    CStrWhole(temp);
    assert Lower(temp[k]) == temp[k];
    hide CStr;
  }

  /** The head of a number: sign and digits. */
  function Head(n: Number): string
  {
    (if n.neg then "-" else "") + n.digits
  }

  lemma DigitsNeutral(s: string)
    requires AllDigits(s)
    ensures forall m :: 0 <= m < |s| ==> Neutral(s[m])
  {
  }

  lemma HeadNeutral(n: Number)
    requires IsNumber(n)
    ensures forall m :: 0 <= m < |Head(n)| ==> Neutral(Head(n)[m])
    ensures Head(n) != "" && IsDigit(Head(n)[|Head(n)| - 1])
  {
    DigitsNeutral(n.digits);
    var d := n.digits;
    assert IsDigit(d[|d| - 1]);
    assert Neutral('-');
    hide Neutral, IsDigit, AllDigits;
    assert Head(n)[|Head(n)| - 1] == d[|d| - 1];
  }

  lemma HeadFirst(n: Number)
    ensures Head(n) <= NumberSource(n)
  {
    assert NumberSource(n) == Head(n) + (n.frac + n.exp);
  }

  lemma ScanDigits(s: string, n: Number, st: Stack)
    requires IsNumber(n) && NumberSource(n) <= s
    ensures Head(n) <= s && ScanPrimitive(s, 0, "", false, false, false, st)
                            == ScanPrimitive(s, |Head(n)|, Head(n), false, false, true, st)
  {
    HeadNeutral(n);
    HeadFirst(n);
    hide IsNumber, NumberSource, Head, ScanPrimitive, Neutral;
    var h := Head(n);
    assert s[..|h|] == h;
    forall m | 0 <= m < |h| ensures Neutral(s[m]) {
      assert s[m] == h[m];
    }
    assert s[|h| - 1] == h[|h| - 1];
    var d := ScanNeutral(s, 0, |h|, "", false, false, false, st);
    assert "" + s[0..|h|] == h;
  }

  /** The fraction or the exponent: its mark, then digits and signs. */
  lemma ScanPart(s: string, h: string, part: string, dot: bool, e: bool, st: Stack)
    requires h + part <= s && part != "" && (part[0] == '.' || IsE(part[0])) && !e && !BooleanStem(h)
    requires forall k :: 1 <= k < |part| ==> Neutral(part[k])
    ensures ScanPrimitive(s, |h|, h, dot, e, true, st)
            == ScanPrimitive(s, |h + part|, h + part, dot || part[0] == '.', e || IsE(part[0]), true, st)
  {
    hide ScanPrimitive, BooleanStem;
    var p := h + part;
    assert s[..|p|] == p;
    assert s[|h|] == p[|h|] == part[0];
    ScanOne(s, |h|, h, dot, e, true, st);
    forall k | |h| + 1 <= k < |p| ensures Neutral(s[k]) {
      assert s[k] == p[k] == part[k - |h|];
    }
    var d := ScanNeutral(s, |h| + 1, |p|, h + [part[0]], dot || part[0] == '.', e || IsE(part[0]), true, st);
    assert h + [part[0]] + s[|h| + 1..|p|] == p by {
      assert s[|h| + 1..|p|] == p[|h| + 1..] == part[1..];
    }
  }

  lemma PartsNeutral(n: Number)
    requires IsNumber(n)
    ensures forall k :: 1 <= k < |n.frac| ==> Neutral(n.frac[k])
    ensures forall k :: 1 <= k < |n.exp| ==> Neutral(n.exp[k])
    ensures n.frac != "" ==> n.frac[0] == '.'
    ensures n.exp != "" ==> IsE(n.exp[0])
  {
    assert forall k :: 1 <= k < |n.frac| ==> n.frac[k] == n.frac[1..][k - 1];
  }

  lemma ScanNumber(lib: Lib, s: string, n: Number, st: Stack)
    requires IsNumber(n) && NumberSource(n) <= s
    ensures var w := NumberSource(n);
            ScanPrimitive(s, 0, "", false, false, false, st)
            == ScanPrimitive(s, |w|, w, n.frac != "", n.exp != "", true, st)
  {
    hide ScanPrimitive, BooleanStem, IsNumber;
    var h := Head(n);
    var hf := h + n.frac;
    var w := hf + n.exp;
    ScanDigits(s, n, st);
    PartsNeutral(n);
    NumberHasDigit(lib, n);
    assert w == NumberSource(n);
    assert w[..|hf|] == hf;
    if n.frac != "" {
      ScanPart(s, h, n.frac, false, false, st);
    } else {
      assert hf == h;
    }
    if n.exp != "" {
      ScanPart(s, hf, n.exp, n.frac != "", false, st);
    } else {
      assert w == hf;
    }
  }

  lemma NumberHasDigit(lib: Lib, n: Number)
    requires IsNumber(n)
    ensures !BooleanStem(Head(n)) && !BooleanStem(Head(n) + n.frac)
  {
    hide BooleanStem;
    var h := Head(n);
    var k := |h| - 1;
    assert h[k] == n.digits[|n.digits| - 1] && (h + n.frac)[k] == h[k];
    ScalarWithoutZero(lib, Num(n));
    assert Source(Num(n)) == h + n.frac + n.exp;
    assert '\0' !in h && '\0' !in h + n.frac;
    DigitIsNoStem(h, k);
    DigitIsNoStem(h + n.frac, k);
  }

  /** The flags the loop leaves: whether a point and whether an exponent was seen. */
  function HasDot(t: Tree): bool
  {
    t.Num? && t.number.frac != ""
  }

  function HasExp(t: Tree): bool
  {
    t.Num? && t.number.exp != ""
  }

  lemma ScanLetters(s: string, w: string, st: Stack) returns (d: bool)
    requires w <= s && forall k :: 0 <= k < |w| ==> Neutral(w[k])
    ensures ScanPrimitive(s, 0, "", false, false, false, st) == ScanPrimitive(s, |w|, w, false, false, d, st)
  {
    hide ScanPrimitive, Neutral;
    assert s[..|w|] == w;
    forall k | 0 <= k < |w| ensures Neutral(s[k]) {
      assert s[k] == w[k];
    }
    d := ScanNeutral(s, 0, |w|, "", false, false, false, st);
    assert "" + s[0..|w|] == w;
  }

  lemma ScanWord(s: string, v: Value, st: Stack) returns (d: bool)
    requires (v.Bool? || v.Null?) && WordSource(v) <= s
    ensures ScanPrimitive(s, 0, "", false, false, false, st)
            == ScanPrimitive(s, |WordSource(v)|, WordSource(v), false, false, d, st)
  {
    hide ScanPrimitive, BooleanStem;
    var w := WordSource(v);
    if v.Bool? {
      var stem := if v.truth then "tru" else "fals";
      assert w == stem + "e" && w[..|stem|] == stem && s[..|w|] == w;
      assert s[|stem|] == w[|stem|] == 'e';
      assert stem <= s;
      d := ScanLetters(s, stem, st);
      StemIsStem(stem);
      ScanStemE(s, |stem|, stem, d, st);
    } else {
      d := ScanLetters(s, w, st);
    }
  }

  lemma StemIsStem(stem: string)
    requires stem == "tru" || stem == "fals"
    ensures BooleanStem(stem)
  {
    CStrWhole(stem);
  }

  lemma ScanScalar(lib: Lib, t: Tree, after: string, rest: string, st: Stack)
    requires Formed(lib, t) && IsScalar(t) && AllSpace(after) && Follows(rest)
    ensures ScanPrimitive(Source(t) + (after + rest), 0, "", false, false, false, st)
            == Collected(|Source(t)| + |after|, Source(t), HasDot(t), HasExp(t), st)
  {
    hide ScanPrimitive, IsNumber, NumberSource, WordSource;
    var w := Source(t);
    var s := w + (after + rest);
    assert s[|w|..] == after + rest;
    if t.Num? {
      ScanNumber(lib, s, t.number, st);
      ScanStops(s, |w|, after, rest, w, HasDot(t), HasExp(t), true, st);
    } else {
      var d := ScanWord(s, t.value, st);
      ScanStops(s, |w|, after, rest, w, HasDot(t), HasExp(t), d, st);
    }
  }

  lemma WordValue(lib: Lib, v: Value)
    requires v.Bool? || v.Null?
    ensures PrimitiveValue(lib, WordSource(v), false, false) == Some(v)
  {
    var w := WordSource(v);
    CStrWhole(w);
    assert v.Null? ==> Lower(w[0]) == 'n';
  }

  /** What follows a scalar: white space in front is passed over with it. */
  function Rest(t: Tree, after: string, tail: string): string
  {
    if tail == "" then "" else if IsScalar(t) then Trim(tail) else after + Trim(tail)
  }

  /** A value read from the given text, or the error the reader reports for it. */
  ghost predicate ReadsAs(lib: Lib, x: Spaced, s0: string, tail: string, st: Stack, st': Stack)
  {
    var r := DeserializeValue(lib, s0, st);
    var v := Taken(lib, x.tree);
    if v.Some? then r == Done(ValueRead(v.value, false, Rest(x.tree, x.after, tail), st'))
    else r.Done? && r.value.hadError && r.value.st == st'
  }

  lemma ReadScalar(lib: Lib, x: Spaced, s0: string, tail: string, st: Stack)
    requires FormedSpaced(lib, x) && IsScalar(x.tree) && Follows(tail) && Sheds(s0, SpacedSource(x) + tail)
    ensures ReadsAs(lib, x, s0, tail, st, st)
  {
    hide PrimitiveValue, ScanPrimitive, ScanEnd, QuotePos, Unescape, DeserializeArray, DeserializeInternal, Trim,
         NumberSource, WordSource, Sheds, Formed, AllSpace;
    var w := Source(x.tree);
    TrimmedText(lib, x, s0, tail);
    ScalarStart(lib, x.tree);
    ScalarTaken(lib, x.tree);
    var s := Trim(s0);
    assert s[0] == w[0];
    if tail == "" {
      NoSpaces();
      assert s == w + ("" + "");
      ScanScalar(lib, x.tree, "", "", st);
      assert s[|w|..] == "";
    } else {
      TrimOfTail(tail);
      ScanScalar(lib, x.tree, x.after, Trim(tail), st);
      assert s[|w| + |x.after|..] == Trim(tail);
    }
  }

  lemma TrimOfTail(tail: string)
    requires tail != "" && Follows(tail)
    ensures Follows(Trim(tail)) && Trim(tail) != ""
  {
    TrimIsShed(tail);
  }

  lemma ScalarStart(lib: Lib, t: Tree)
    requires Formed(lib, t) && IsScalar(t)
    ensures Source(t) != "" && Source(t)[0] != '[' && Source(t)[0] != '{' && Source(t)[0] != '\"'
  {
    ScalarChars(lib, t);
    assert !IsOpen(Source(t)[0]);
  }

  lemma ScalarTaken(lib: Lib, t: Tree)
    requires Formed(lib, t) && IsScalar(t)
    ensures Taken(lib, t) == PrimitiveValue(lib, Source(t), HasDot(t), HasExp(t))
  {
    if t.Word? {
      WordValue(lib, t.value);
    }
  }

  // ---------- strings ----------

  /** The quote after a body is the first unescaped one. */
  lemma BodyEnds(s: string, from: nat, b: string)
    requires Body(b) && Has(s, from, b + "\"")
    ensures QuotePos(s, from, false) == Some(from + |b|)
  {
    hide QuotePos, Slashes;
    var q := from + |b|;
    HasParts(s, from, b, "\"");
    HasFirst(s, q, "\"");
    SlashesInside(s, from, from, b, |b|);
    forall m | from <= m < q ensures !Unescaped(s, from, m) {
      HasChar(s, from, b, m - from);
      SlashesInside(s, from, from, b, m - from);
    }
    FirstQuoteIsUnique(s, from, q);
  }

  lemma ReadQuoted(lib: Lib, x: Spaced, s0: string, tail: string, st: Stack)
    requires FormedSpaced(lib, x) && x.tree.Quoted? && Follows(tail) && Sheds(s0, SpacedSource(x) + tail)
    ensures ReadsAs(lib, x, s0, tail, st, st)
  {
    hide ScanPrimitive, ScanEnd, QuotePos, Unescape, DeserializeArray, DeserializeInternal, Trim, Sheds, Body, AllSpace,
         SpacedSource, Has;
    var b := x.tree.body;
    var left := Left(x.after, tail);
    TrimmedText(lib, x, s0, tail);
    QuotedSlices(b, left);
    BodyEnds(Trim(s0), 1, b);
  }

  lemma QuotedSlices(b: string, left: string)
    ensures var s := "\"" + b + "\"" + left;
            && |s| >= |b| + 2 && s[0] == '\"' && Has(s, 1, b + "\"") && s[1..|b| + 1] == b && s[|b| + 2..] == left
  {
  }

  // ---------- arrays and objects in their surroundings ----------

  /** The search for the end finds the last character of the text. */
  lemma FindsEnd(lib: Lib, t: Tree, left: string, st: Stack)
    requires Formed(lib, t) && (t.Braces? || t.Brackets?)
    ensures var w := Source(t);
            |w| > 1 && IsOpen(w[0])
            && ScanEnd(w + left, 1, false, st + [FrameOf(w[0])], |st| + 1) == EndAt(|w| - 1, st)
  {
    hide ScanEnd, Nest, Has, ItemsSource, FieldsSource, Formed;
    var w := Source(t);
    var s := w + left;
    var inner := w[1..|w| - 1];
    assert s[0] == w[0] && s[|w| - 1] == w[|w| - 1];
    InsideBalanced(lib, t, s);
    EndIsTheMatch(s, st, |w| - 1, LookBack);
  }

  lemma InsideBalanced(lib: Lib, t: Tree, s: string)
    requires Formed(lib, t) && (t.Braces? || t.Brackets?) && Source(t) <= s && |Source(t)| > 1
    ensures Balanced(s, 1, |Source(t)| - 1, LookBack)
  {
    hide Nest, ItemsSource, FieldsSource;
    var w := Source(t);
    assert s[..|w|] == w;
    assert s[1..|w| - 1] == w[1..|w| - 1];
    match t {
      case Braces(gap, fs) =>
        if fs == [] {
          assert w[1..|w| - 1] == gap;
          SpaceChars(gap);
          NestPlainRun(s, 1, gap, Start(LookBack));
        } else {
          assert w[1..|w| - 1] == FieldsSource(fs);
          NestFields(lib, s, 1, fs, Start(LookBack));
        }
      case Brackets(gap, xs) =>
        if xs == [] {
          assert w[1..|w| - 1] == gap;
          SpaceChars(gap);
          NestPlainRun(s, 1, gap, Start(LookBack));
        } else {
          assert w[1..|w| - 1] == ItemsSource(xs);
          NestItems(lib, s, 1, xs, Start(LookBack));
        }
    }
  }

  /** Cutting an array or object out of its surroundings. */
  lemma ReadCompound(lib: Lib, x: Spaced, s0: string, tail: string, st: Stack, st': Stack)
    requires FormedSpaced(lib, x) && (x.tree.Braces? || x.tree.Brackets?)
    requires Follows(tail) && Sheds(s0, SpacedSource(x) + tail) && Taken(lib, x.tree).Some?
    requires var node := Done(NodeRead(Taken(lib, x.tree).value, st'));
             var w := Source(x.tree);
             w != "" && if x.tree.Brackets? then w[0] == '[' && DeserializeArray(lib, w, st) == node
                        else w[0] == '{' && DeserializeInternal(lib, w, st) == node
    ensures ReadsAs(lib, x, s0, tail, st, st')
  {
    hide ScanEnd, DeserializeArray, DeserializeInternal, ScanPrimitive, QuotePos, Trim, Sheds, Source, Formed,
         Taken, AllSpace;
    var w := Source(x.tree);
    var left := Left(x.after, tail);
    TrimmedText(lib, x, s0, tail);
    FindsEnd(lib, x.tree, left, st);
    var s := Trim(s0);
    assert s[0] == w[0];
    assert s[..|w|] == w && s[|w|..] == left;
  }
}
