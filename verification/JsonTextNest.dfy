/** Well-formed texts are balanced wherever they stand. */
module JsonTextNest {
  import opened Decimals
  import opened JsonValue
  import opened Wrappers
  import opened JsonRead
  import opened JsonBrackets
  import opened JsonText

  // ---------- where pieces lie in a string ----------

  predicate Has(s: string, i: nat, t: string)
  {
    i + |t| <= |s| && s[i..i + |t|] == t
  }

  lemma HasParts(s: string, i: nat, a: string, b: string)
    requires Has(s, i, a + b)
    ensures Has(s, i, a) && Has(s, i + |a|, b)
  {
    var t := s[i..i + |a + b|];
    assert t[..|a|] == a && t[|a|..] == b;
    assert s[i..i + |a|] == t[..|a|];
    assert s[i + |a|..i + |a| + |b|] == t[|a|..];
  }

  lemma HasChar(s: string, i: nat, t: string, k: nat)
    requires Has(s, i, t) && k < |t|
    ensures s[i + k] == t[k]
  {
    assert s[i..i + |t|][k] == s[i + k];
  }

  /** Backslashes are counted inside a piece as if it stood alone, unless one stands right before it. */
  lemma {:induction false} SlashesInside(s: string, from: nat, i: nat, b: string, k: nat)
    requires from <= i && Has(s, i, b) && k <= |b| && (i == from || s[i - 1] != '\\')
    ensures Slashes(s, from, i + k) == Slashes(b, 0, k)
    decreases k
  {
    if k > 0 {
      HasChar(s, i, b, k - 1);
      SlashesInside(s, from, i, b, k - 1);
    }
  }

  // ---------- runs ----------

  lemma {:induction false} NestNeutral(s: string, i: nat, j: nat, n: Nesting)
    requires 0 < i <= j <= |s|
    requires forall k :: i <= k < j ==>
               if n.inQuote then s[k] == '\"' ==> !Counts(s, k, n.judge)
               else s[k] != '\"' && !IsOpen(s[k]) && !IsClose(s[k])
    ensures Nest(s, i, j, n) == Some(n)
    decreases j - i
  {
    if i < j {
      NestNeutral(s, i + 1, j, n);
    }
  }

  lemma CountsBySlashes(s: string, k: nat, judge: Judge)
    requires 0 < k < |s| && s[0] != '\\'
    ensures Slashes(s, 0, k) % 2 == 0 ==> Counts(s, k, judge)
    ensures Slashes(s, 0, k) == 1 ==> !Counts(s, k, judge)
  {
    TogglesExactly(s, k);
  }

  lemma NestOneQuote(s: string, i: nat, n: Nesting)
    requires 0 < i < |s| && s[i] == '\"' && Counts(s, i, n.judge)
    ensures Nest(s, i, i + 1, n) == Some(n.(inQuote := !n.inQuote))
  {
  }

  /** A body between quotes. */
  lemma NestQuoted(s: string, i: nat, b: string, n: Nesting)
    requires 0 < i && Has(s, i, "\"" + b + "\"") && Body(b) && !n.inQuote
    requires s[0] != '\\' && s[i - 1] != '\\'
    ensures Nest(s, i, i + |b| + 2, n) == Some(n)
  {
    hide Nest, Slashes, Counts;
    var q := n.(inQuote := true);
    var j := i + 1 + |b|;
    HasParts(s, i, "\"" + b, "\"");
    HasParts(s, i, "\"", b);
    HasChar(s, i, "\"", 0);
    HasChar(s, j, "\"", 0);
    assert Slashes(s, 0, i) == 0 by { NoSlashes(s, i); }
    CountsBySlashes(s, i, n.judge);
    forall k | i + 1 <= k < j ensures s[k] == '\"' ==> !Counts(s, k, n.judge) {
      HasChar(s, i + 1, b, k - i - 1);
      SlashesInside(s, 0, i + 1, b, k - i - 1);
      CountsBySlashes(s, k, n.judge);
    }
    SlashesInside(s, 0, i + 1, b, |b|);
    CountsBySlashes(s, j, n.judge);
    NestNeutral(s, i + 1, j, q);
    NestOneQuote(s, i, n);
    NestOneQuote(s, j, q);
    NestConcat(s, i, i + 1, j, n);
    NestConcat(s, i, j, j + 1, n);
  }

  lemma NoSlashes(s: string, i: nat)
    requires 0 < i <= |s| && s[i - 1] != '\\'
    ensures Slashes(s, 0, i) == 0
  {
  }

  lemma NestBracketed(s: string, i: nat, j: nat, n: Nesting)
    requires 0 < i < j < |s| && !n.inQuote
    requires IsOpen(s[i]) && IsClose(s[j]) && FrameOf(s[i]) == FrameOf(s[j])
    requires var inner := n.(open := n.open + [FrameOf(s[i])]); Nest(s, i + 1, j, inner) == Some(inner)
    ensures Nest(s, i, j + 1, n) == Some(n)
  {
    var inner := n.(open := n.open + [FrameOf(s[i])]);
    assert Nest(s, i, i + 1, n) == Some(inner);
    assert Pop(inner.open) == n.open;
    assert Nest(s, j, j + 1, inner) == Some(n);
    NestConcat(s, i, i + 1, j, n);
    NestConcat(s, i, j, j + 1, n);
  }

  /** Text between brackets that opens and closes everything it contains. */
  lemma NestWrapped(s: string, i: nat, open: string, t: string, close: string, n: Nesting)
    requires |open| == |close| == 1 && IsOpen(open[0]) && IsClose(close[0]) && FrameOf(open[0]) == FrameOf(close[0])
    requires 0 < i && Has(s, i, open + t + close) && !n.inQuote
    requires var inner := n.(open := n.open + [FrameOf(open[0])]);
             Nest(s, i + 1, i + 1 + |t|, inner) == Some(inner)
    ensures Nest(s, i, i + |t| + 2, n) == Some(n)
  {
    hide Nest;
    HasParts(s, i, open + t, close);
    HasParts(s, i, open, t);
    HasChar(s, i, open, 0);
    HasChar(s, i + |t| + 1, close, 0);
    NestBracketed(s, i, i + |t| + 1, n);
  }

  /** Text without quotes and brackets. */
  predicate Unbracketed(t: string)
  {
    forall k :: 0 <= k < |t| ==> t[k] != '\"' && !IsOpen(t[k]) && !IsClose(t[k])
  }

  lemma NestPlainRun(s: string, i: nat, t: string, n: Nesting)
    requires 0 < i && Has(s, i, t) && !n.inQuote && Unbracketed(t)
    ensures Nest(s, i, i + |t|, n) == Some(n)
  {
    hide Nest;
    forall k | i <= k < i + |t| ensures s[k] != '\"' && !IsOpen(s[k]) && !IsClose(s[k]) {
      HasChar(s, i, t, k - i);
    }
    NestNeutral(s, i, i + |t|, n);
  }

  lemma NestParts(s: string, i: nat, a: string, b: string, n: Nesting)
    requires 0 < i && Has(s, i, a + b)
    requires Nest(s, i, i + |a|, n) == Some(n) && Nest(s, i + |a|, i + |a| + |b|, n) == Some(n)
    ensures Nest(s, i, i + |a + b|, n) == Some(n)
  {
    hide Nest;
    NestConcat(s, i, i + |a|, i + |a| + |b|, n);
  }

  /** No backslash at the end, so that a quote after it is not escaped. */
  lemma NoSlashAfter(s: string, i: nat, t: string)
    requires 0 < i && Has(s, i, t) && s[i - 1] != '\\' && '\\' !in t
    ensures s[i + |t| - 1] != '\\'
  {
    if t != "" {
      HasChar(s, i, t, |t| - 1);
    }
  }

  // ---------- trees ----------

  predicate IsScalar(t: Tree)
  {
    t.Word? || t.Num?
  }

  /** The characters of numbers, booleans and null. */
  predicate ScalarChar(c: char)
  {
    c != '\"' && !IsOpen(c) && !IsClose(c) && c != ',' && !IsSpace(c) && c != '\0'
  }

  lemma ScalarText(s: string)
    requires forall k :: 0 <= k < |s| ==> IsDigit(s[k]) || s[k] in "+-.eE"
    ensures forall k :: 0 <= k < |s| ==> ScalarChar(s[k])
  {
  }

  lemma NumberChars(n: Number)
    requires IsNumber(n)
    ensures forall k :: 0 <= k < |NumberSource(n)| ==> ScalarChar(NumberSource(n)[k])
  {
    assert forall k :: 1 <= k < |n.frac| ==> n.frac[k] == n.frac[1..][k - 1];
    ScalarText(n.digits);
    ScalarText(n.frac);
    ScalarText(n.exp);
    ScalarText("-");
    hide ScalarChar, IsNumber;
  }

  /** Numbers, booleans and null have no quotes, brackets, commas, white space or zero bytes in them. */
  lemma ScalarChars(lib: Lib, t: Tree)
    requires Formed(lib, t) && IsScalar(t)
    ensures Source(t) != ""
    ensures forall k :: 0 <= k < |Source(t)| ==> ScalarChar(Source(t)[k])
  {
    if t.Num? {
      NumberChars(t.number);
      hide ScalarChar;
    }
  }

  lemma SpaceChars(w: string)
    requires AllSpace(w)
    ensures Unbracketed(w) && '\\' !in w && ',' !in w && ':' !in w
  {
  }

  lemma {:induction false} NestTree(lib: Lib, s: string, i: nat, t: Tree, n: Nesting)
    requires Formed(lib, t) && Has(s, i, Source(t))
    requires 0 < i && s[0] != '\\' && s[i - 1] != '\\' && !n.inQuote
    ensures Nest(s, i, i + |Source(t)|, n) == Some(n)
    decreases t, 1
  {
    hide Nest, Has, Body, FieldsSource, ItemsSource, AllSpace, FormedField, FormedSpaced;
    match t {
      case Quoted(body) => NestQuoted(s, i, body, n);
      case Braces(gap, fs) =>
        var inner := if fs == [] then gap else FieldsSource(fs);
        InsideWrap(s, i, "{", inner, "}");
        var m := n.(open := n.open + [InObject]);
        if fs == [] {
          NestGap(s, i + 1, gap, m);
        } else {
          NestFields(lib, s, i + 1, fs, m);
        }
        NestWrapped(s, i, "{", inner, "}", n);
      case Brackets(gap, xs) =>
        var inner := if xs == [] then gap else ItemsSource(xs);
        InsideWrap(s, i, "[", inner, "]");
        var m := n.(open := n.open + [InArray]);
        if xs == [] {
          NestGap(s, i + 1, gap, m);
        } else {
          NestItems(lib, s, i + 1, xs, m);
        }
        NestWrapped(s, i, "[", inner, "]", n);
      case _ => NestScalar(lib, s, i, t, n);
    }
  }

  lemma InsideWrap(s: string, i: nat, open: string, inner: string, close: string)
    requires Has(s, i, open + inner + close) && |open| == 1
    ensures Has(s, i + 1, inner) && i < |s| && s[i] == open[0]
  {
    hide Has;
    HasParts(s, i, open + inner, close);
    HasParts(s, i, open, inner);
    HasFirst(s, i, open);
  }

  lemma NestGap(s: string, i: nat, gap: string, n: Nesting)
    requires 0 < i && Has(s, i, gap) && !n.inQuote && AllSpace(gap)
    ensures Nest(s, i, i + |gap|, n) == Some(n)
  {
    hide Nest;
    SpaceChars(gap);
    NestPlainRun(s, i, gap, n);
  }

  lemma NestScalar(lib: Lib, s: string, i: nat, t: Tree, n: Nesting)
    requires Formed(lib, t) && IsScalar(t) && Has(s, i, Source(t)) && 0 < i && !n.inQuote
    ensures Nest(s, i, i + |Source(t)|, n) == Some(n)
  {
    hide Nest, Has, Source, Formed;
    ScalarChars(lib, t);
    NestPlainRun(s, i, Source(t), n);
  }

  lemma HasFirst(s: string, i: nat, t: string)
    requires Has(s, i, t) && t != ""
    ensures i < |s| && s[i] == t[0]
  {
    HasChar(s, i, t, 0);
  }

  lemma {:induction false} NestSpaced(lib: Lib, s: string, i: nat, x: Spaced, n: Nesting)
    requires FormedSpaced(lib, x) && Has(s, i, SpacedSource(x))
    requires 0 < i && s[0] != '\\' && s[i - 1] != '\\' && !n.inQuote
    ensures Nest(s, i, i + |SpacedSource(x)|, n) == Some(n)
    decreases x, 2
  {
    hide Nest, Has, Source, Formed, AllSpace;
    var t := Source(x.tree);
    HasParts(s, i, x.before + t, x.after);
    HasParts(s, i, x.before, t);
    SpaceChars(x.before);
    SpaceChars(x.after);
    NoSlashAfter(s, i, x.before);
    NestPlainRun(s, i, x.before, n);
    NestTree(lib, s, i + |x.before|, x.tree, n);
    NestParts(s, i, x.before, t, n);
    NestPlainRun(s, i + |x.before + t|, x.after, n);
    NestParts(s, i, x.before + t, x.after, n);
  }

  lemma {:induction false} NestField(lib: Lib, s: string, i: nat, f: Field, n: Nesting)
    requires FormedField(lib, f) && Has(s, i, FieldSource(f))
    requires 0 < i && s[0] != '\\' && s[i - 1] != '\\' && !n.inQuote
    ensures Nest(s, i, i + |FieldSource(f)|, n) == Some(n)
    decreases f, 2
  {
    hide Nest, Has, SpacedSource, FormedSpaced, AllSpace, Body;
    var q, m, v := "\"" + f.key + "\"", f.mid + ":", SpacedSource(f.value);
    HasParts(s, i, f.before + q + m, v);
    HasParts(s, i, f.before + q, m);
    HasParts(s, i, f.before, q);
    SpaceChars(f.before);
    SpaceChars(f.mid);
    NoSlashAfter(s, i, f.before);
    NestPlainRun(s, i, f.before, n);
    NestQuoted(s, i + |f.before|, f.key, n);
    NestParts(s, i, f.before, q, n);
    assert Unbracketed(m);
    NestPlainRun(s, i + |f.before + q|, m, n);
    NestParts(s, i, f.before + q, m, n);
    var e := i + |f.before + q + m|;
    assert s[e - 1] != '\\' by {
      HasParts(s, i + |f.before + q|, f.mid, ":");
      HasFirst(s, e - 1, ":");
    }
    NestSpaced(lib, s, e, f.value, n);
    NestParts(s, i, f.before + q + m, v, n);
  }

  lemma CommaStands(s: string, e: nat, u: string)
    requires Has(s, e, "," + u)
    ensures Has(s, e + 1, u) && e < |s| && s[e] == ','
  {
    hide Has;
    HasParts(s, e, ",", u);
    HasFirst(s, e, ",");
  }

  lemma NestComma(s: string, e: nat, u: string, n: Nesting)
    requires 0 < e && Has(s, e, "," + u) && !n.inQuote && Has(s, e + 1, u)
    requires Nest(s, e + 1, e + 1 + |u|, n) == Some(n)
    ensures Nest(s, e, e + |"," + u|, n) == Some(n)
  {
    hide Nest, Has;
    HasParts(s, e, ",", u);
    NestPlainRun(s, e, ",", n);
    NestParts(s, e, ",", u, n);
  }

  lemma {:induction false} NestFields(lib: Lib, s: string, i: nat, fs: seq<Field>, n: Nesting)
    requires forall k :: 0 <= k < |fs| ==> FormedField(lib, fs[k])
    requires Has(s, i, FieldsSource(fs))
    requires 0 < i && s[0] != '\\' && s[i - 1] != '\\' && !n.inQuote
    ensures Nest(s, i, i + |FieldsSource(fs)|, n) == Some(n)
    decreases fs, 0
  {
    hide Nest, Has, FieldSource, FormedField;
    if fs == [] {
      NestPlainRun(s, i, "", n);
    } else {
      var u := FieldsSource(fs[1..]);
      var head, tail := FieldSource(fs[0]), if |fs| > 1 then "," + u else "";
      var e := i + |head|;
      HasParts(s, i, head, tail);
      NestField(lib, s, i, fs[0], n);
      if |fs| > 1 {
        CommaStands(s, e, u);
        NestFields(lib, s, e + 1, fs[1..], n);
        NestComma(s, e, u, n);
      } else {
        NestPlainRun(s, e, "", n);
      }
      NestParts(s, i, head, tail, n);
    }
  }

  lemma {:induction false} NestItems(lib: Lib, s: string, i: nat, xs: seq<Spaced>, n: Nesting)
    requires forall k :: 0 <= k < |xs| ==> FormedSpaced(lib, xs[k])
    requires Has(s, i, ItemsSource(xs))
    requires 0 < i && s[0] != '\\' && s[i - 1] != '\\' && !n.inQuote
    ensures Nest(s, i, i + |ItemsSource(xs)|, n) == Some(n)
    decreases xs, 0
  {
    hide Nest, Has, SpacedSource, FormedSpaced;
    if xs == [] {
      NestPlainRun(s, i, "", n);
    } else {
      var u := ItemsSource(xs[1..]);
      var head, tail := SpacedSource(xs[0]), if |xs| > 1 then "," + u else "";
      var e := i + |head|;
      HasParts(s, i, head, tail);
      NestSpaced(lib, s, i, xs[0], n);
      if |xs| > 1 {
        CommaStands(s, e, u);
        NestItems(lib, s, e + 1, xs[1..], n);
        NestComma(s, e, u, n);
      } else {
        NestPlainRun(s, e, "", n);
      }
      NestParts(s, i, head, tail, n);
    }
  }
}
