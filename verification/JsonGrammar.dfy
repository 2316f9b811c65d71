/** JSON texts: what the grammar allows is read as what it is taken for, unless a quote is misjudged. */
module JsonGrammar {
  import opened JsonValue
  import opened Wrappers
  import opened JsonRead
  import opened JsonBrackets
  import opened JsonSpelling
  import opened JsonText
  import opened JsonTextNest
  import opened JsonTextLoops

  // ---------- which texts are JSON ----------

  /** The characters of a string as the grammar has them: plain, escaped, or by code. */
  ghost predicate Spelled(b: string)
  {
    exists sps :: AllProper(sps) && b == WrittenAll(sps)
  }

  ghost predicate IsJson(t: Tree)
    decreases t
  {
    match t
    case Word(v) => v.Bool? || v.Null?
    case Num(n) => IsNumber(n)
    case Quoted(body) => Spelled(body)
    case Braces(gap, fs) => AllSpace(gap) && forall i :: 0 <= i < |fs| ==> IsJsonField(fs[i])
    case Brackets(gap, xs) => AllSpace(gap) && forall i :: 0 <= i < |xs| ==> IsJsonText(xs[i])
  }

  ghost predicate IsJsonText(x: Spaced)
    decreases x
  {
    AllSpace(x.before) && AllSpace(x.after) && IsJson(x.tree)
  }

  ghost predicate IsJsonField(f: Field)
    decreases f
  {
    AllSpace(f.before) && AllSpace(f.mid) && Spelled(f.key) && IsJsonText(f.value)
  }

  // ---------- strings ----------

  lemma SpelledEnds(sps: seq<Spelling>)
    requires AllProper(sps)
    ensures IsFirstQuote(WrittenAll(sps) + "\"", 0, Some(|WrittenAll(sps)|))
  {
    hide WrittenAll, QuotePos, IsFirstQuote;
    var b := WrittenAll(sps);
    var s := b + "\"";
    assert s[0..] == b + ("\"" + "");
    QuotePosAfter(s, 0, sps, "");
    QuotePosIsFirst(s, 0);
  }

  lemma EscapedInside(b: string, k: nat)
    requires IsFirstQuote(b + "\"", 0, Some(|b|)) && k <= |b|
    ensures if k == |b| then Slashes(b, 0, k) % 2 == 0 else b[k] == '\"' ==> Slashes(b, 0, k) % 2 == 1
  {
    hide Slashes;
    SlashesOfStart(b, "\"", k);
    assert k < |b| ==> !Unescaped(b + "\"", 0, k);
  }

  lemma NoneBeforeStart(s: string)
    ensures Slashes(s, 0, 0) == 0
  {
  }

  /** Every quote in a spelled string is escaped, so a misjudged one is all that can mislead the search. */
  lemma SpelledBody(sps: seq<Spelling>)
    requires AllProper(sps)
    ensures var b := WrittenAll(sps); Body(b) <==> WellJudged(b, |b|)
  {
    hide WrittenAll, Slashes, IsFirstQuote;
    var b := WrittenAll(sps);
    SpelledEnds(sps);
    EscapedInside(b, |b|);
    NoneBeforeStart(b);
    forall k | 0 <= k < |b| && b[k] == '\"' ensures Slashes(b, 0, k) == 1 <==> !Misjudged(b, k) {
      EscapedInside(b, k);
    }
  }

  // ---------- parts of a text ----------

  ghost predicate Within(t: string, s: string)
  {
    exists i: nat :: Has(s, i, t)
  }

  lemma WithinParts(a: string, b: string, s: string)
    requires Within(a + b, s)
    ensures Within(a, s) && Within(b, s)
  {
    hide Has;
    var i: nat :| Has(s, i, a + b);
    HasParts(s, i, a, b);
  }

  lemma WithinMiddle(a: string, b: string, c: string, s: string)
    requires Within(a + b + c, s)
    ensures Within(b, s)
  {
    hide Within;
    WithinParts(a + b, c, s);
    WithinParts(a, b, s);
  }

  /** A string in a text without misjudged quotes has none of its own. */
  lemma BodyWithin(b: string, s: string)
    requires Within("\"" + b + "\"", s) && WellJudged(s, |s|) && Spelled(b)
    ensures Body(b)
  {
    hide Slashes, WrittenAll;
    var i: nat :| Has(s, i, "\"" + b + "\"");
    HasParts(s, i, "\"" + b, "\"");
    HasParts(s, i, "\"", b);
    HasChar(s, i, "\"", 0);
    forall k | 0 < k < |b| ensures !Misjudged(b, k) {
      HasChar(s, i + 1, b, k);
      SlashesInside(s, 0, i + 1, b, k);
      assert !Misjudged(s, i + 1 + k);
    }
    var sps :| AllProper(sps) && b == WrittenAll(sps);
    SpelledBody(sps);
  }

  lemma SpelledUnescapes(lib: Lib, b: string)
    requires Spelled(b)
    ensures Unescape(lib, b).Done?
  {
    hide WrittenAll;
    var sps :| AllProper(sps) && b == WrittenAll(sps);
    UnescapeUndoes(lib, sps);
  }

  // ---------- JSON is well formed ----------

  lemma {:induction false} JsonIsFormed(lib: Lib, t: Tree, s: string)
    requires IsJson(t) && Within(Source(t), s) && WellJudged(s, |s|)
    ensures Formed(lib, t)
    decreases t, 1
  {
    hide Within, WellJudged, Spelled, Body, FieldsSource, ItemsSource, Unescape, AllSpace;
    match t {
      case Quoted(body) =>
        BodyWithin(body, s);
        SpelledUnescapes(lib, body);
      case Braces(gap, fs) =>
        if fs != [] {
          WithinMiddle("{", FieldsSource(fs), "}", s);
          FieldsAreFormed(lib, fs, s);
        }
      case Brackets(gap, xs) =>
        if xs != [] {
          WithinMiddle("[", ItemsSource(xs), "]", s);
          ItemsAreFormed(lib, xs, s);
        }
      case _ =>
    }
  }

  lemma {:induction false} FieldsAreFormed(lib: Lib, fs: seq<Field>, s: string)
    requires forall i :: 0 <= i < |fs| ==> IsJsonField(fs[i])
    requires Within(FieldsSource(fs), s) && WellJudged(s, |s|)
    ensures forall i :: 0 <= i < |fs| ==> FormedField(lib, fs[i])
    decreases fs, 0
  {
    hide Within, WellJudged, FieldSource, IsJsonField, FormedField;
    if fs != [] {
      var tail := if |fs| > 1 then "," + FieldsSource(fs[1..]) else "";
      WithinParts(FieldSource(fs[0]), tail, s);
      FieldIsFormed(lib, fs[0], s);
      if |fs| > 1 {
        WithinParts(",", FieldsSource(fs[1..]), s);
        FieldsAreFormed(lib, fs[1..], s);
        assert forall i :: 1 <= i < |fs| ==> fs[i] == fs[1..][i - 1];
      }
    }
  }

  lemma {:induction false} FieldIsFormed(lib: Lib, f: Field, s: string)
    requires IsJsonField(f) && Within(FieldSource(f), s) && WellJudged(s, |s|)
    ensures FormedField(lib, f)
    decreases f, 2
  {
    hide Within, WellJudged, Spelled, Body, AllSpace, SpacedSource;
    var q, m, v := "\"" + f.key + "\"", f.mid + ":", SpacedSource(f.value);
    WithinParts(f.before + q + m, v, s);
    WithinParts(f.before + q, m, s);
    WithinParts(f.before, q, s);
    BodyWithin(f.key, s);
    TextIsFormed(lib, f.value, s);
  }

  lemma {:induction false} TextIsFormed(lib: Lib, x: Spaced, s: string)
    requires IsJsonText(x) && Within(SpacedSource(x), s) && WellJudged(s, |s|)
    ensures FormedSpaced(lib, x)
    decreases x, 2
  {
    hide Within, WellJudged, AllSpace, Source, IsJson, Formed;
    WithinMiddle(x.before, Source(x.tree), x.after, s);
    JsonIsFormed(lib, x.tree, s);
  }

  lemma {:induction false} ItemsAreFormed(lib: Lib, xs: seq<Spaced>, s: string)
    requires forall i :: 0 <= i < |xs| ==> IsJsonText(xs[i])
    requires Within(ItemsSource(xs), s) && WellJudged(s, |s|)
    ensures forall i :: 0 <= i < |xs| ==> FormedSpaced(lib, xs[i])
    decreases xs, 0
  {
    hide Within, WellJudged, SpacedSource, IsJsonText, FormedSpaced;
    if xs != [] {
      var tail := if |xs| > 1 then "," + ItemsSource(xs[1..]) else "";
      WithinParts(SpacedSource(xs[0]), tail, s);
      TextIsFormed(lib, xs[0], s);
      if |xs| > 1 {
        WithinParts(",", ItemsSource(xs[1..]), s);
        ItemsAreFormed(lib, xs[1..], s);
        assert forall i :: 1 <= i < |xs| ==> xs[i] == xs[1..][i - 1];
      }
    }
  }

  // ---------- what is read ----------

  /** A JSON text without misjudged quotes is read as what it is taken for, whatever its white space and however its
  strings are spelled: null unless it is an array or an object. It never throws, and the top of an empty stack is
  never read. */
  lemma ReadsJson(lib: Lib, x: Spaced)
    requires IsJsonText(x)
    requires var s := SpacedSource(x); WellJudged(s, |s|)
    ensures Deserialize(lib, SpacedSource(x))
            == Done(if IsDocument(x.tree) && Taken(lib, x.tree).Some? then Taken(lib, x.tree).value else Null)
  {
    hide Deserialize, WellJudged, SpacedSource, Taken, IsJsonText;
    var s := SpacedSource(x);
    assert Has(s, 0, s);
    TextIsFormed(lib, x, s);
    ReadsText(lib, x);
  }

  predicate OutOfRange(lib: Lib, t: Tree)
  {
    t.Num? && NumberTaken(lib, t.number) == None
  }

  lemma OnlyNumbersFail(lib: Lib, t: Tree)
    requires Formed(lib, t)
    ensures Taken(lib, t) == None <==> OutOfRange(lib, t)
  {
    hide BadFields, BadItems, FieldsTaken, ItemsTaken, NumberTaken, Body, Unescape;
  }

  /** Which documents are lost: objects that are empty but for white space, objects with an empty key of their own or
  a number out of range, and arrays with a cut string or a number out of range. */
  lemma LostTexts(lib: Lib, x: Spaced)
    requires FormedSpaced(lib, x) && IsDocument(x.tree)
    ensures Deserialize(lib, SpacedSource(x)) == Done(Null) <==>
            match x.tree
            case Braces(gap, fs) =>
              (fs == [] && gap != "")
              || exists i :: 0 <= i < |fs| && (fs[i].key == "" || OutOfRange(lib, fs[i].value.tree))
            case Brackets(_, xs) =>
              exists i :: 0 <= i < |xs| && (CutTree(xs[i].tree) || OutOfRange(lib, xs[i].tree))
            case _ => false
  {
    hide Deserialize, SpacedSource, OutOfRange, CutTree;
    ReadsText(lib, x);
    match x.tree {
      case Braces(_, fs) =>
        forall i | 0 <= i < |fs| ensures Taken(lib, fs[i].value.tree) == None <==> OutOfRange(lib, fs[i].value.tree) {
          assert FormedField(lib, fs[i]);
          OnlyNumbersFail(lib, fs[i].value.tree);
        }
      case Brackets(_, xs) =>
        forall i | 0 <= i < |xs| ensures Taken(lib, xs[i].tree) == None <==> OutOfRange(lib, xs[i].tree) {
          assert FormedSpaced(lib, xs[i]);
          OnlyNumbersFail(lib, xs[i].tree);
        }
      case _ =>
    }
  }

  /** In which a string stands for the characters it spells, trimmed. */
  lemma SpelledTaken(lib: Lib, sps: seq<Spelling>)
    requires AllProper(sps)
    ensures Taken(lib, Quoted(WrittenAll(sps))) == Some(Str(Trim(MeantAll(lib, sps))))
  {
    hide Unescape, WrittenAll, MeantAll;
    UnescapeUndoes(lib, sps);
  }
}
