/** The array and object loops on well-formed texts, and whole documents. */
module JsonTextLoops {
  import opened JsonValue
  import opened Wrappers
  import opened JsonRead
  import opened JsonText
  import opened JsonTextNest
  import opened JsonTextRead

  // ---------- the array loop ----------

  predicate NoStops(t: string)
  {
    forall m :: 0 <= m < |t| ==> t[m] !in "{[,]"
  }

  lemma {:induction false} ArrayStopIs(s: string, i: nat, k: nat)
    requires i <= k < |s| && forall m :: i <= m < k ==> s[m] !in "{[,]"
    requires s[k] in "{[,]" || k == |s| - 1
    ensures ArrayStop(s, i) == k
    decreases k - i
  {
    if i < k {
      ArrayStopIs(s, i + 1, k);
    }
  }

  /** White space, and white space before a comma, are values of nothing. */
  lemma SpaceIsNothing(lib: Lib, w: string, st: Stack)
    requires AllSpace(w)
    ensures DeserializeValue(lib, w, st) == Done(ValueRead(Null, false, "", st))
  {
    TrimSpaces(w);
  }

  lemma SkipGap(lib: Lib, w: string, u: string, a: seq<Value>, st: Stack)
    requires AllSpace(w)
    ensures ArrayLoop(lib, w + "," + u, a, st) == ArrayLoop(lib, u, a, st)
  {
    hide DeserializeValue, ArrayStop;
    var s := w + "," + u;
    assert s[|w|] == ',';
    forall m | 0 <= m < |w| ensures s[m] !in "{[,]" {
      assert s[m] == w[m];
    }
    ArrayStopIs(s, 0, |w|);
    assert s[..|w|] == w && s[|w| + 1..] == u;
    SpaceIsNothing(lib, w, st);
  }

  lemma SpaceLoop(lib: Lib, w: string, a: seq<Value>, st: Stack)
    requires AllSpace(w)
    ensures ArrayLoop(lib, w, a, st) == Done(NodeRead(Arr(a), st))
  {
    hide DeserializeValue, ArrayStop;
    if w != "" {
      ArrayStopIs(w, 0, |w| - 1);
      assert w[..|w|] == w;
      SpaceIsNothing(lib, w, st);
      assert ArrayLoop(lib, "", a, st) == Done(NodeRead(Arr(a), st));
    }
  }

  /** One element that the loop hands to the value reader whole, with everything after it. */
  lemma LoopReadsWhole(lib: Lib, s: string, k: nat, v: Value, rest: string, a: seq<Value>, st: Stack, st': Stack)
    requires k < |s| && s[k] in "{[" && forall m :: 0 <= m < k ==> s[m] !in "{[,]"
    requires DeserializeValue(lib, s, st) == Done(ValueRead(v, false, rest, st')) && |rest| < |s|
    ensures ArrayLoop(lib, s, a, st) == ArrayLoop(lib, rest, if v.Null? then a else a + [v], st')
  {
    hide DeserializeValue, ArrayStop;
    ArrayStopIs(s, 0, k);
  }

  /** One element that the loop cuts off at the next comma or at the end. */
  lemma LoopReadsPiece(lib: Lib, t: string, u: string, more: bool, a: seq<Value>, st: Stack)
    requires t != "" && NoStops(t) && (!more ==> u == "")
    ensures var r := DeserializeValue(lib, t, st);
            ArrayLoop(lib, if more then t + "," + u else t, a, st) ==
            if !r.Done? then r.PropagateFailure()
            else if r.value.hadError then Done(NodeRead(Null, r.value.st))
            else ArrayLoop(lib, u, if r.value.v.Null? then a else a + [r.value.v], r.value.st)
  {
    hide DeserializeValue, ArrayStop;
    var s := if more then t + "," + u else t;
    var k := if more then |t| else |t| - 1;
    assert forall m :: 0 <= m < |t| ==> s[m] == t[m];
    ArrayStopIs(s, 0, k);
    if more {
      assert s[k] == ',' && s[..k] == t && s[k + 1..] == u;
    } else {
      assert s[..k + 1] == t && s[k + 1..] == u;
    }
  }

  lemma {:induction false} FirstStop(t: string) returns (k: nat)
    ensures k <= |t| && NoStops(t[..k]) && (k < |t| ==> t[k] in "{[,]")
    ensures ElementText(t) <==> k == |t| || t[k] in "{["
  {
    k := 0;
    if t != "" && t[0] !in "{[,]" {
      k := FirstStop(t[1..]);
      assert t[..k + 1] == [t[0]] + t[1..][..k];
      k := k + 1;
    }
  }

  lemma ScalarHasNoStops(lib: Lib, x: Spaced)
    requires FormedSpaced(lib, x) && IsScalar(x.tree)
    ensures NoStops(SpacedSource(x))
  {
    hide Source, Formed, AllSpace, NoStops;
    ScalarChars(lib, x.tree);
    var w := Source(x.tree);
    assert NoStops(w) by { UnstoppedChars(w); }
    StopsParts(x.before, w);
    StopsParts(x.before + w, x.after);
  }

  lemma UnstoppedChars(w: string)
    requires forall k :: 0 <= k < |w| ==> w[k] !in "{[,]"
    ensures NoStops(w)
  {
  }

  lemma QuotedStop(before: string, body: string, after: string) returns (k: nat)
    requires AllSpace(before) && AllSpace(after) && ElementText(body)
    ensures var t := before + ("\"" + body + "\"") + after;
            k <= |t| && NoStops(t[..k]) && (k < |t| ==> t[k] in "{[")
  {
    hide AllSpace, NoStops;
    var t := before + ("\"" + body + "\"") + after;
    var j := FirstStop(body);
    assert NoStops("\"") by { UnstoppedChars("\""); }
    StopsParts(before, "\"");
    StopsParts(before + "\"", body[..j]);
    var h := before + "\"" + body[..j];
    if j < |body| {
      k := |h|;
      assert t == h + (body[j..] + "\"" + after);
      assert t[..k] == h && t[k] == body[j];
    } else {
      k := |t|;
      StopsParts(h, "\"");
      StopsParts(h + "\"", after);
      assert t[..k] == h + "\"" + after;
    }
  }

  /** Where the loop stops on an element that is not cut: at a bracket, or not before its end. */
  lemma ItemStop(lib: Lib, x: Spaced) returns (k: nat)
    requires FormedSpaced(lib, x) && !CutTree(x.tree)
    ensures var t := SpacedSource(x);
            && k <= |t| && NoStops(t[..k]) && (k < |t| ==> t[k] in "{[")
            && (k == |t| ==> IsScalar(x.tree) || x.tree.Quoted?)
            && (k < |t| ==> !IsScalar(x.tree))
  {
    hide NoStops;
    var t := SpacedSource(x);
    if IsScalar(x.tree) {
      ScalarHasNoStops(lib, x);
      k := |t|;
      assert t[..k] == t;
    } else if x.tree.Quoted? {
      k := QuotedStop(x.before, x.tree.body, x.after);
    } else {
      CompoundStop(lib, x);
      k := |x.before|;
    }
  }

  lemma CompoundStop(lib: Lib, x: Spaced)
    requires FormedSpaced(lib, x) && (x.tree.Braces? || x.tree.Brackets?)
    ensures var t, k := SpacedSource(x), |x.before|;
            k < |t| && NoStops(t[..k]) && t[k] in "{["
  {
    CompoundStarts(x.tree);
    hide Source, Formed;
    MiddleStarts(x.before, Source(x.tree), x.after);
  }

  lemma CompoundStarts(t: Tree)
    requires t.Braces? || t.Brackets?
    ensures Source(t) != "" && Source(t)[0] in "{["
  {
    hide ItemsSource, FieldsSource;
  }

  lemma MiddleStarts(a: string, b: string, c: string)
    requires b != ""
    ensures var s := a + b + c; |a| < |s| && s[..|a|] == a && s[|a|] == b[0]
  {
  }

  lemma StopsParts(a: string, b: string)
    requires NoStops(a) || AllSpace(a)
    requires NoStops(b) || AllSpace(b)
    ensures NoStops(a + b)
  {
  }

  lemma BadAhead(lib: Lib, xs: seq<Spaced>)
    requires xs != []
    ensures BadItems(lib, xs) <==> CutTree(xs[0].tree) || Taken(lib, xs[0].tree) == None || BadItems(lib, xs[1..])
  {
    hide CutTree, Taken;
    if BadItems(lib, xs) && !(CutTree(xs[0].tree) || Taken(lib, xs[0].tree) == None) {
      var i :| 0 <= i < |xs| && (CutTree(xs[i].tree) || Taken(lib, xs[i].tree) == None);
      assert xs[1..][i - 1] == xs[i];
    }
    if BadItems(lib, xs[1..]) {
      var i :| 0 <= i < |xs[1..]| && (CutTree(xs[1..][i].tree) || Taken(lib, xs[1..][i].tree) == None);
      assert xs[i + 1] == xs[1..][i];
    }
  }

  /** An element at which the loop cuts has one quote before the cut, and is an error. */
  lemma CutItemFails(lib: Lib, x: Spaced, s: string, rest: string, a: seq<Value>, st: Stack)
    requires FormedSpaced(lib, x) && CutTree(x.tree)
    requires s == x.before + ("\"" + x.tree.body) + ("\"" + rest)
    ensures ArrayLoop(lib, s, a, st) == Done(NodeRead(Null, st))
  {
    hide DeserializeValue, ArrayStop, AllSpace, NoStops, ArrayLoop, Body;
    var body := x.tree.body;
    var j := FirstStop(body);
    var t := x.before + "\"" + body[..j];
    assert NoStops("\"") by { UnstoppedChars("\""); }
    StopsParts(x.before, "\"");
    StopsParts(x.before + "\"", body[..j]);
    CutText(x.before, body, j, rest);
    var u := body[j..] + "\"" + rest;
    assert u[0] == body[j];
    OpenQuoteFails(lib, x.before, body, j, st);
    assert s == t + u;
    LoopStopsAt(lib, s, t, a, st);
  }

  lemma CutText(before: string, body: string, j: nat, rest: string)
    requires j <= |body|
    ensures before + ("\"" + body) + ("\"" + rest) == (before + "\"" + body[..j]) + (body[j..] + "\"" + rest)
  {
    assert body == body[..j] + body[j..];
  }

  lemma LoopStopsAt(lib: Lib, s: string, t: string, a: seq<Value>, st: Stack)
    requires t < s && NoStops(t) && s[|t|] in ",]"
    requires var r := DeserializeValue(lib, t, st); r.Done? && r.value.hadError && r.value.st == st
    ensures ArrayLoop(lib, s, a, st) == Done(NodeRead(Null, st))
  {
    hide DeserializeValue, ArrayStop;
    assert forall m :: 0 <= m < |t| ==> s[m] == t[m];
    ArrayStopIs(s, 0, |t|);
    assert s[..|t|] == t;
  }

  /** The start of a quoted body, without its closing quote. */
  lemma OpenQuoteFails(lib: Lib, before: string, body: string, j: nat, st: Stack)
    requires AllSpace(before) && Body(body) && j <= |body|
    ensures var r := DeserializeValue(lib, before + "\"" + body[..j], st);
            r.Done? && r.value.hadError && r.value.st == st
  {
    hide QuotePos, ScanEnd, ScanPrimitive, DeserializeArray, DeserializeInternal, AllSpace, Trim;
    var u := "\"" + body[..j];
    assert before + "\"" + body[..j] == before + u;
    TrimFront(before, u);
    TrimIsShed(u);
    var s := Trim(u);
    NoQuoteInBody(s, body, j);
  }

  lemma NoQuoteInBody(s: string, body: string, j: nat)
    requires Body(body) && j <= |body| && s != "" && s <= "\"" + body[..j]
    ensures QuotePos(s, 1, false) == None
  {
    hide QuotePos, Slashes;
    var b := s[1..];
    assert s == "\"" + b && b == body[..|b|];
    assert s[1..1 + |b|] == b;
    forall m | 1 <= m < |s| ensures !Unescaped(s, 1, m) {
      SlashesInside(s, 1, 1, b, m - 1);
      SlashesOfStart(b, body[|b|..], m - 1);
      assert b + body[|b|..] == body;
    }
    QuotePosIsFirst(s, 1);
  }

  // ---------- the object loop ----------

  /** Text before a key: white space, or a comma with white space around it. */
  predicate Clear(c: string)
  {
    '\"' !in c && '\\' !in c
  }

  lemma {:induction false} QuotePosPlain(s: string, i: nat, j: nat)
    requires i <= j < |s| && s[j] == '\"'
    requires forall k :: i <= k < j ==> s[k] != '\"' && s[k] != '\\'
    ensures QuotePos(s, i, false) == Some(j)
    decreases j - i
  {
    if i < j {
      QuotePosPlain(s, i + 1, j);
    }
  }

  lemma {:induction false} FindPlain(s: string, c: char, i: nat, j: nat)
    requires i <= j < |s| && s[j] == c && forall k :: i <= k < j ==> s[k] != c
    ensures Find(s, c, i) == Some(j)
    decreases j - i
  {
    if i < j {
      FindPlain(s, c, i + 1, j);
    }
  }

  lemma Slices(a: string, b: string, c: string, d: string)
    ensures var s := a + b + c + d;
            && s[..|a|] == a && s[|a|..|a| + |b|] == b && s[|a| + |b|..|a| + |b| + |c|] == c
            && s[|a| + |b| + |c|..] == d
  {
  }

  /** The key, its quotes and the colon after it, in the middle of a text. */
  lemma KeyPlaces(c: string, key: string, mid: string, v: string)
    ensures var s := c + ("\"" + key + "\"") + (mid + ":") + v;
            var open := |c|;
            var close := open + 1 + |key|;
            var colon := close + 1 + |mid|;
            && |s| == colon + 1 + |v| && s[open] == '\"' && s[close] == '\"' && s[colon] == ':'
            && s[..open] == c && s[open + 1..close + 1] == key + "\"" && s[open + 1..close] == key
            && s[close + 1..colon] == mid && s[colon + 1..] == v
  {
    var q, m := "\"" + key + "\"", mid + ":";
    var s := c + q + m + v;
    var open := |c|;
    var close := open + 1 + |key|;
    Slices(c, q, m, v);
    var t, u := s[open..open + |q|], s[open + |q|..open + |q| + |m|];
    assert t == q && u == m;
    assert t[0] == '\"' && t[|key| + 1] == '\"' && u[|mid|] == ':';
    assert s[open + 1..close + 1] == t[1..] && s[open + 1..close] == t[1..|key| + 1];
    assert s[close + 1..close + 1 + |mid|] == u[..|mid|];
  }

  lemma ReadsKey(c: string, key: string, mid: string, v: string)
    requires Clear(c) && Body(key) && AllSpace(mid)
    ensures var s := c + ("\"" + key + "\"") + (mid + ":") + v;
            var colon := |c| + |key| + 2 + |mid|;
            && ReadKey(s) == (if key == "" then NoKey else KeyAt(key, colon))
            && colon + 1 <= |s| && s[colon + 1..] == v
  {
    hide QuotePos, Find, Body, AllSpace;
    KeyPlaces(c, key, mid, v);
    var s := c + ("\"" + key + "\"") + (mid + ":") + v;
    SpaceChars(mid);
    KeyFound(s, |c|, |c| + 1 + |key|, |c| + |key| + 2 + |mid|, key);
  }

  lemma KeyFound(s: string, open: nat, close: nat, colon: nat, key: string)
    requires open < close < colon < |s| && close == open + 1 + |key|
    requires s[open] == '\"' && s[close] == '\"' && s[colon] == ':'
    requires Clear(s[..open]) && ':' !in s[close + 1..colon] && Body(key)
    requires s[open + 1..close + 1] == key + "\"" && s[open + 1..close] == key
    ensures ReadKey(s) == if key == "" then NoKey else KeyAt(key, colon)
  {
    hide QuotePos, Find, Body;
    assert forall k :: 0 <= k < open ==> s[k] == s[..open][k];
    QuotePosPlain(s, 0, open);
    BodyEnds(s, open + 1, key);
    forall k | close <= k < colon ensures s[k] != ':' {
      assert k > close ==> s[k] == s[close + 1..colon][k - close - 1];
    }
    FindPlain(s, ':', close, colon);
  }

  lemma BadFieldAhead(lib: Lib, fs: seq<Field>)
    requires fs != []
    ensures BadFields(lib, fs) <==>
            fs[0].key == "" || Taken(lib, fs[0].value.tree) == None || BadFields(lib, fs[1..])
  {
    hide Taken;
    if BadFields(lib, fs) && !(fs[0].key == "" || Taken(lib, fs[0].value.tree) == None) {
      var i :| 0 <= i < |fs| && (fs[i].key == "" || Taken(lib, fs[i].value.tree) == None);
      assert fs[1..][i - 1] == fs[i];
    }
    if BadFields(lib, fs[1..]) {
      var i :| 0 <= i < |fs[1..]| && (fs[1..][i].key == "" || Taken(lib, fs[1..][i].value.tree) == None);
      assert fs[i + 1] == fs[1..][i];
    }
  }

  /** What is left after a comma and what follows it. */
  lemma AfterComma(more: string)
    ensures Trim("," + more) != "" && Trim("," + more)[0] == ','
    ensures Sheds(Trim("," + more)[1..], more)
  {
    TrimIsShed("," + more);
    hide Trim;
    ShedSplit(Trim("," + more), ",", more);
  }

  // ---------- values ----------

  lemma NothingOver(st: Stack)
    ensures Over(st, 0) == st
  {
  }

  lemma OverAgain(st: Stack, m: nat, n: nat)
    ensures Over(Over(st, m), n) == Over(st, m + n)
  {
  }

  lemma ItemsLeftAhead(lib: Lib, xs: seq<Spaced>)
    ensures xs == [] || CutTree(xs[0].tree) || Taken(lib, xs[0].tree) == None ==> ItemsLeft(lib, xs) == 0
    ensures xs != [] && !CutTree(xs[0].tree) && Taken(lib, xs[0].tree).Some? ==>
              ItemsLeft(lib, xs) == LeftBehind(lib, xs[0].tree) + ItemsLeft(lib, xs[1..])
  {
    hide CutTree, Taken, LeftBehind;
  }

  lemma FieldsLeftAhead(lib: Lib, fs: seq<Field>)
    ensures fs == [] || fs[0].key == "" || Taken(lib, fs[0].value.tree) == None ==> FieldsLeft(lib, fs) == 0
    ensures fs != [] && fs[0].key != "" && Taken(lib, fs[0].value.tree).Some? ==>
              FieldsLeft(lib, fs) == LeftBehind(lib, fs[0].value.tree) + FieldsLeft(lib, fs[1..])
  {
    hide Taken, LeftBehind;
  }

  lemma FailureLeavesNothing(lib: Lib, x: Spaced)
    requires FormedSpaced(lib, x) && Taken(lib, x.tree) == None
    ensures LeftBehind(lib, x.tree) == 0
  {
    hide BadFields, BadItems, FieldsTaken, ItemsTaken, FieldsLeft, ItemsLeft;
  }

  lemma {:induction false} ReadTree(lib: Lib, x: Spaced, s0: string, tail: string, st: Stack) returns (st': Stack)
    requires FormedSpaced(lib, x) && Follows(tail) && Sheds(s0, SpacedSource(x) + tail)
    ensures st' == Over(st, LeftBehind(lib, x.tree)) && (IsScalar(x.tree) || x.tree.Quoted? ==> st' == st)
    ensures ReadsAs(lib, x, s0, tail, st, st')
    decreases x, 3
  {
    hide ReadsAs, Sheds, SpacedSource, AllSpace;
    st' := st;
    if IsScalar(x.tree) {
      ReadScalar(lib, x, s0, tail, st);
      NothingOver(st);
    } else if x.tree.Quoted? {
      NothingOver(st);
      ReadQuoted(lib, x, s0, tail, st);
    } else if x.tree.Brackets? {
      st' := ReadArray(lib, x.tree, st);
      ReadCompound(lib, x, s0, tail, st, st');
    } else {
      st' := ReadDocument(lib, x.tree, st);
      ReadCompound(lib, x, s0, tail, st, st');
    }
  }

  lemma {:induction false} ReadArray(lib: Lib, t: Tree, st: Stack) returns (st': Stack)
    requires Formed(lib, t) && t.Brackets?
    ensures Source(t) != "" && Source(t)[0] == '[' && st' == Over(st, LeftBehind(lib, t)) && Taken(lib, t).Some?
    ensures DeserializeArray(lib, Source(t), st) == Done(NodeRead(Taken(lib, t).value, st'))
    decreases t, 1
  {
    hide ArrayLoop, ItemsSource, AllSpace, FormedSpaced, BadItems, ItemsTaken;
    var w := Source(t);
    var inner := if t.items == [] then t.gap else ItemsSource(t.items);
    SourceEnds(lib, t);
    assert w[1..|w| - 1] == inner;
    if t.items != [] {
      ShedsNothing(inner);
    }
    st' := ReadItems(lib, t.items, inner, [], st);
    assert [] + ItemsTaken(lib, t.items) == ItemsTaken(lib, t.items);
  }

  lemma ShedsNothing(s: string)
    ensures Sheds(s, s)
  {
    assert s[|s|..] == "";
  }

  lemma NonScalarTaken(lib: Lib, t: Tree)
    requires Formed(lib, t) && !IsScalar(t)
    ensures Taken(lib, t).Some?
  {
    hide BadItems, BadFields, ItemsTaken, FieldsTaken, Body, Unescape;
  }

  /** What the loop sees of its text when it stops at a bracket, or at the comma, or at the end. */
  lemma ShedFront(s: string, t: string, k: nat, tail: string)
    requires Sheds(s, t + tail) && k < |t| && !IsSpace(t[k])
    ensures k < |s| && s[k] == t[k] && s[..k] == t[..k]
  {
    hide Sheds, IsSpace;
    var a, b := t[..k + 1], t[k + 1..] + tail;
    assert t + tail == a + b;
    ShedSplit(s, a, b);
    assert s[..k + 1] == a;
    assert s[..k] == a[..k];
  }

  /** One element is read; the loop goes on after it, or gives the array up at a number out of range. */
  lemma {:induction false} ReadItem(lib: Lib, x: Spaced, more: bool, m: string, s: string, a: seq<Value>, st: Stack)
    returns (rest: string, st': Stack)
    requires FormedSpaced(lib, x) && !CutTree(x.tree)
    requires Sheds(s, SpacedSource(x) + if more then "," + m else "")
    ensures st' == Over(st, LeftBehind(lib, x.tree))
    ensures Taken(lib, x.tree) == None ==> ArrayLoop(lib, s, a, st) == Done(NodeRead(Null, st'))
    ensures Taken(lib, x.tree).Some? ==>
              && ArrayLoop(lib, s, a, st) == ArrayLoop(lib, rest, a + ItemKept(lib, x), st')
              && (if more then Sheds(rest, m) else rest == "")
    decreases x, 5
  {
    hide ArrayLoop, SpacedSource, AllSpace, Sheds, Taken, CutTree, ReadsAs, NoStops, Formed;
    var t := SpacedSource(x);
    var k := ItemStop(lib, x);
    if k < |t| {
      rest, st' := ReadWholeItem(lib, x, k, more, m, s, a, st);
    } else if more {
      assert t + ("," + m) == t + "," + m;
      ShedSplit(s, t + ",", m);
      rest := s[|t| + 1..];
      assert s == t + "," + rest;
      assert t[..k] == t && t + "" == t;
      ShedsNothing(t);
      st' := ReadPieceItem(lib, x, t, true, rest, a, st);
    } else {
      rest := "";
      assert t[..k] == t && t + "" == t;
      NoStopsInFront(s, t);
      st' := ReadPieceItem(lib, x, s, false, "", a, st);
    }
  }

  lemma NoStopsInFront(s: string, t: string)
    requires NoStops(t) && Sheds(s, t)
    ensures NoStops(s)
  {
  }

  lemma {:induction false} ReadPieceItem(lib: Lib, x: Spaced, t: string, more: bool, u: string, a: seq<Value>,
                                         st: Stack)
    returns (st': Stack)
    requires FormedSpaced(lib, x) && (IsScalar(x.tree) || x.tree.Quoted?)
    requires Sheds(t, SpacedSource(x) + "") && NoStops(t) && (!more ==> u == "")
    ensures st' == st == Over(st, LeftBehind(lib, x.tree))
    ensures var loop := ArrayLoop(lib, if more then t + "," + u else t, a, st);
            && (Taken(lib, x.tree) == None ==> loop == Done(NodeRead(Null, st)))
            && (Taken(lib, x.tree).Some? ==> loop == ArrayLoop(lib, u, a + ItemKept(lib, x), st))
    decreases x, 4
  {
    hide ArrayLoop, SpacedSource, AllSpace, Sheds, Taken, NoStops, Formed, DeserializeValue;
    st' := ReadTree(lib, x, t, "", st);
    TrimmedText(lib, x, t, "");
    assert t != "" by { TrimNothing(); }
    LoopReadsPiece(lib, t, u, more, a, st);
    assert a + [] == a;
  }

  lemma TrimNothing()
    ensures Trim("") == ""
  {
  }

  lemma {:induction false} ReadWholeItem(lib: Lib, x: Spaced, k: nat, more: bool, m: string, s: string, a: seq<Value>,
                                         st: Stack)
    returns (rest: string, st': Stack)
    requires FormedSpaced(lib, x) && !IsScalar(x.tree)
    requires Sheds(s, SpacedSource(x) + if more then "," + m else "")
    requires k < |SpacedSource(x)| && SpacedSource(x)[k] in "{[" && NoStops(SpacedSource(x)[..k])
    ensures st' == Over(st, LeftBehind(lib, x.tree)) && Taken(lib, x.tree).Some?
    ensures ArrayLoop(lib, s, a, st) == ArrayLoop(lib, rest, a + ItemKept(lib, x), st')
    ensures if more then Sheds(rest, m) else rest == ""
    decreases x, 4
  {
    hide ArrayLoop, SpacedSource, AllSpace, Sheds, Taken, Formed, DeserializeValue, Trim;
    var t := SpacedSource(x);
    var tail := if more then "," + m else "";
    NonScalarTaken(lib, x.tree);
    ShedFront(s, t, k, tail);
    st' := ReadTree(lib, x, s, tail, st);
    TrimmedText(lib, x, s, tail);
    var left := Left(x.after, tail);
    assert |left| < |Trim(s)| <= |s|;
    assert forall j :: 0 <= j < k ==> s[j] == s[..k][j];
    LoopReadsWhole(lib, s, k, Taken(lib, x.tree).value, left, a, st, st');
    assert a + [] == a;
    rest := AfterItem(lib, x, more, m, a + ItemKept(lib, x), st');
  }

  /** The loop passes over what is left after an item: nothing, or white space and the comma. */
  lemma AfterItem(lib: Lib, x: Spaced, more: bool, m: string, a: seq<Value>, st: Stack) returns (rest: string)
    requires FormedSpaced(lib, x)
    ensures ArrayLoop(lib, Left(x.after, if more then "," + m else ""), a, st) == ArrayLoop(lib, rest, a, st)
    ensures if more then Sheds(rest, m) else rest == ""
  {
    hide ArrayLoop, AllSpace, Sheds, Formed, Trim;
    rest := "";
    if more {
      AfterComma(m);
      var t := Trim("," + m);
      rest := t[1..];
      assert t == "," + rest && x.after + t == x.after + "," + rest;
      SkipGap(lib, x.after, rest, a, st);
    }
  }

  lemma CutFirst(lib: Lib, x: Spaced, s: string, tail: string, a: seq<Value>, st: Stack)
    requires FormedSpaced(lib, x) && CutTree(x.tree) && Sheds(s, SpacedSource(x) + tail)
    ensures ArrayLoop(lib, s, a, st) == Done(NodeRead(Null, st))
  {
    hide ArrayLoop, Sheds;
    var h := x.before + ("\"" + x.tree.body);
    assert SpacedSource(x) + tail == (h + "\"") + (x.after + tail);
    ShedSplit(s, h + "\"", x.after + tail);
    var rest := s[|h| + 1..];
    assert s[..|h| + 1] == h + "\"";
    assert s == h + ("\"" + rest);
    CutItemFails(lib, x, s, rest, a, st);
  }

  lemma TakenAhead(lib: Lib, xs: seq<Spaced>, a: seq<Value>)
    requires xs != []
    ensures a + ItemKept(lib, xs[0]) + ItemsTaken(lib, xs[1..]) == a + ItemsTaken(lib, xs)
  {
    hide ItemKept;
    var y := ItemsTaken(lib, xs[1..]);
    assert ItemsTaken(lib, xs) == ItemKept(lib, xs[0]) + y;
    hide ItemsTaken;
    Associates(a, ItemKept(lib, xs[0]), y);
  }

  lemma Associates<T>(a: seq<T>, x: seq<T>, y: seq<T>)
    ensures a + x + y == a + (x + y)
  {
  }

  lemma NothingTaken(lib: Lib, a: seq<Value>)
    ensures !BadItems(lib, []) && a + ItemsTaken(lib, []) == a
  {
  }

  /** The array loop collects what the items are read as, or gives up at a cut string or a number out of range. */
  lemma {:induction false} ReadItems(lib: Lib, xs: seq<Spaced>, s: string, a: seq<Value>, st: Stack)
    returns (st': Stack)
    requires forall i :: 0 <= i < |xs| ==> FormedSpaced(lib, xs[i])
    requires if xs == [] then AllSpace(s) else Sheds(s, ItemsSource(xs))
    ensures st' == Over(st, ItemsLeft(lib, xs))
    ensures ArrayLoop(lib, s, a, st)
            == Done(NodeRead(if BadItems(lib, xs) then Null else Arr(a + ItemsTaken(lib, xs)), st'))
    decreases xs, 0
  {
    hide ArrayLoop, FormedSpaced, SpacedSource, AllSpace, Sheds, Taken, CutTree, BadItems, ItemsTaken, ItemKept, Over,
         LeftBehind, ItemsLeft;
    st' := st;
    ItemsLeftAhead(lib, xs);
    if xs == [] {
      SpaceLoop(lib, s, a, st);
      NothingTaken(lib, a);
      NothingOver(st);
    } else {
      var x, more := xs[0], |xs| > 1;
      var m := ItemsSource(xs[1..]);
      BadAhead(lib, xs);
      NothingOver(st);
      if CutTree(x.tree) {
        CutFirst(lib, x, s, if more then "," + m else "", a, st);
      } else {
        var rest, st1 := ReadItem(lib, x, more, m, s, a, st);
        st' := st1;
        if Taken(lib, x.tree).Some? {
          if !more { NoSpaces(); }
          st' := ReadItems(lib, xs[1..], rest, a + ItemKept(lib, x), st1);
          OverAgain(st, LeftBehind(lib, x.tree), ItemsLeft(lib, xs[1..]));
          TakenAhead(lib, xs, a);
        } else {
          FailureLeavesNothing(lib, x);
        }
      }
    }
  }

  // ---------- members ----------

  /** What is left after a value: nothing, or the comma, white space before it, and the next member. */
  lemma AfterField(lib: Lib, g: Field, more: bool, m: string) returns (gap: string, rest: string)
    requires FormedField(lib, g)
    ensures Rest(g.value.tree, g.value.after, if more then "," + m else "") == gap + rest
    ensures if more then Clear(gap) && Sheds(rest, m) else gap + rest == ""
  {
    hide FormedField, Sheds, Clear, Trim;
    gap, rest := "", "";
    if more {
      AfterComma(m);
      var t := Trim("," + m);
      var w := if IsScalar(g.value.tree) then "" else g.value.after;
      gap, rest := w + ",", t[1..];
      assert t == "," + rest && w + t == gap + rest;
      ClearGap(lib, g, w);
    }
  }

  /** One member is put; the loop goes on after it, or gives the object up at a number out of range. */
  lemma {:induction false} ReadField(lib: Lib, c: string, g: Field, more: bool, m: string, f: string,
                                     obj: seq<Member>, st: Stack)
    returns (gap: string, rest: string, st': Stack)
    requires Clear(c) && FormedField(lib, g) && g.key != "" && Sheds(f, FieldSource(g) + if more then "," + m else "")
    ensures st' == Over(st, LeftBehind(lib, g.value.tree))
    ensures var v := Taken(lib, g.value.tree);
            var loop := ObjectLoop(lib, c + f, obj, st);
            && (v == None ==> loop == Done(NodeRead(Null, st')))
            && (v.Some? ==> loop == ObjectLoop(lib, gap + rest, Put(obj, g.key, v.value), st'))
    ensures if more then Clear(gap) && Sheds(rest, m) else gap + rest == ""
    decreases g, 4
  {
    hide ObjectLoop, FormedField, FormedSpaced, SpacedSource, FieldSource, AllSpace, Sheds, Taken, DeserializeValue,
         Clear, Put, ReadsAs, Rest;
    var tail := if more then "," + m else "";
    var v := FieldStarts(lib, c, g, f, tail);
    FormedValue(lib, g);
    st' := ReadTree(lib, g.value, v, tail, st);
    LoopReadsField(lib, c + f, g, v, tail, obj, st, st');
    gap, rest := AfterField(lib, g, more, m);
  }

  /** The object loop puts every member, or gives up at an empty key or a number out of range. */
  lemma {:induction false} ReadFields(lib: Lib, c: string, fs: seq<Field>, f: string, obj: seq<Member>, st: Stack)
    returns (st': Stack)
    requires Clear(c) && fs != [] && forall i :: 0 <= i < |fs| ==> FormedField(lib, fs[i])
    requires Sheds(f, FieldsSource(fs))
    ensures st' == Over(st, FieldsLeft(lib, fs))
    ensures ObjectLoop(lib, c + f, obj, st)
            == Done(NodeRead(if BadFields(lib, fs) then Null else Obj(FieldsTaken(lib, fs, obj)), st'))
    decreases fs, 0
  {
    hide ObjectLoop, FormedField, FormedSpaced, SpacedSource, FieldSource, AllSpace, Sheds, Taken, BadFields,
         FieldsTaken, DeserializeValue, Clear, Put, Over, LeftBehind, FieldsLeft;
    st' := st;
    var g, more := fs[0], |fs| > 1;
    var m := FieldsSource(fs[1..]);
    BadFieldAhead(lib, fs);
    TakenFieldAhead(lib, fs, obj);
    FieldsLeftAhead(lib, fs);
    NothingOver(st);
    if g.key == "" {
      var v := FieldStarts(lib, c, g, f, if more then "," + m else "");
      LoopWithoutKey(lib, c + f, obj, st);
    } else {
      var gap, rest, st1 := ReadField(lib, c, g, more, m, f, obj, st);
      st' := st1;
      var taken := Taken(lib, g.value.tree);
      if taken.Some? {
        var obj1 := Put(obj, g.key, taken.value);
        if more {
          st' := ReadFields(lib, gap, fs[1..], rest, obj1, st1);
        } else {
          LoopEnds(lib, obj1, st1);
          NoFields(lib, fs[1..], obj1);
          FieldsLeftAhead(lib, fs[1..]);
          NothingOver(st1);
        }
        OverAgain(st, LeftBehind(lib, g.value.tree), FieldsLeft(lib, fs[1..]));
      } else {
        FormedValue(lib, g);
        FailureLeavesNothing(lib, g.value);
      }
    }
  }

  lemma LoopEnds(lib: Lib, obj: seq<Member>, st: Stack)
    ensures ObjectLoop(lib, "", obj, st) == Done(NodeRead(Obj(obj), st))
  {
  }

  lemma NoFields(lib: Lib, fs: seq<Field>, obj: seq<Member>)
    requires fs == []
    ensures !BadFields(lib, fs) && FieldsTaken(lib, fs, obj) == obj
  {
  }

  lemma TakenFieldAhead(lib: Lib, fs: seq<Field>, obj: seq<Member>)
    requires fs != []
    ensures var v := Taken(lib, fs[0].value.tree);
            v.Some? ==> FieldsTaken(lib, fs, obj) == FieldsTaken(lib, fs[1..], Put(obj, fs[0].key, v.value))
  {
    hide Taken, Put;
  }

  lemma FormedValue(lib: Lib, f: Field)
    requires FormedField(lib, f)
    ensures FormedSpaced(lib, f.value)
  {
  }

  lemma ClearGap(lib: Lib, f: Field, gap: string)
    requires FormedField(lib, f) && (gap == "" || gap == f.value.after)
    ensures Clear(gap + ",")
  {
    SpaceChars(f.value.after);
  }

  /** The key of a member and the text of its value. */
  lemma FieldStarts(lib: Lib, c: string, g: Field, f: string, tail: string) returns (v: string)
    requires Clear(c) && FormedField(lib, g) && Sheds(f, FieldSource(g) + tail)
    ensures Sheds(v, SpacedSource(g.value) + tail) && c + f != ""
    ensures g.key == "" ==> ReadKey(c + f) == NoKey
    ensures g.key != "" ==> ReadKey(c + f).KeyAt? && ReadKey(c + f).key == g.key
                            && (c + f)[ReadKey(c + f).colon + 1..] == v
  {
    hide SpacedSource, FormedSpaced, Sheds, ReadKey, Body;
    var h := g.before + ("\"" + g.key + "\"") + (g.mid + ":");
    assert FieldSource(g) + tail == h + (SpacedSource(g.value) + tail);
    ShedSplit(f, h, SpacedSource(g.value) + tail);
    v := f[|h|..];
    assert f[..|h|] == h;
    assert f == h + v;
    SpaceChars(g.before);
    assert c + f == (c + g.before) + ("\"" + g.key + "\"") + (g.mid + ":") + v;
    ReadsKey(c + g.before, g.key, g.mid, v);
  }

  lemma LoopWithoutKey(lib: Lib, s: string, obj: seq<Member>, st: Stack)
    requires s != "" && ReadKey(s) == NoKey
    ensures ObjectLoop(lib, s, obj, st) == Done(NodeRead(Null, st))
  {
    hide ReadKey, DeserializeValue;
  }

  lemma LoopReadsField(lib: Lib, s: string, g: Field, v: string, tail: string, obj: seq<Member>, st: Stack, st': Stack)
    requires s != "" && ReadKey(s).KeyAt? && ReadKey(s).key == g.key && s[ReadKey(s).colon + 1..] == v
    requires ReadsAs(lib, g.value, v, tail, st, st')
    ensures var taken := Taken(lib, g.value.tree);
            ObjectLoop(lib, s, obj, st) ==
            if taken == None then Done(NodeRead(Null, st'))
            else ObjectLoop(lib, Rest(g.value.tree, g.value.after, tail), Put(obj, g.key, taken.value), st')
  {
    hide ReadKey, DeserializeValue, Taken, Put;
  }

  // ---------- whole documents ----------

  lemma {:induction false} ReadObject(lib: Lib, t: Tree, st: Stack) returns (st': Stack)
    requires Formed(lib, t) && t.Braces?
    ensures var w := Source(t);
            && |w| >= 2 && w[0] == '{' && w[|w| - 1] == '}'
            && st' == Over(st, FieldsLeft(lib, t.fields)) && Taken(lib, t).Some?
            && DeserializeObj(lib, w, st) == Done(NodeRead(Taken(lib, t).value, st'))
    decreases t, 1
  {
    hide ObjectLoop, FieldsSource, FormedField, BadFields, FieldsTaken, AllSpace;
    var w, fs := Source(t), t.fields;
    var inner := if fs == [] then t.gap else FieldsSource(fs);
    SourceEnds(lib, t);
    assert w[1..|w| - 1] == inner;
    st' := st;
    if fs != [] {
      ShedsNothing(inner);
      assert "" + inner == inner;
      st' := ReadFields(lib, "", fs, inner, [], st);
    } else {
      NoFields(lib, fs, []);
      NothingOver(st);
      EmptyObject(lib, t.gap, st);
    }
  }

  lemma EmptyObject(lib: Lib, gap: string, st: Stack)
    requires AllSpace(gap)
    ensures ObjectLoop(lib, gap, [], st) == Done(NodeRead(if gap == "" then Obj([]) else Null, st))
  {
    hide DeserializeValue;
    SpaceChars(gap);
    NoQuoteFound(gap, 0, false);
  }

  lemma {:induction false} NoQuoteFound(s: string, i: nat, slash: bool)
    requires forall k :: i <= k < |s| ==> s[k] != '\"'
    ensures QuotePos(s, i, slash) == None
    decreases |s| - i
  {
    if i < |s| {
      NoQuoteFound(s, i + 1, s[i] == '\\' && !slash);
    }
  }

  /** Popping one's own frame, or one left behind in its place, keeps what is below. */
  lemma ClosedKeeps(node: NodeRead, frame: Frame, st: Stack) returns (st': Stack)
    requires st + [frame] <= node.st
    ensures st <= st' && Closed(node, frame) == Done(NodeRead(node.v, st'))
    ensures forall n: nat :: frame == InObject && node.st == Over(st + [frame], n) ==>
              st' == Over(st, if node.v.Null? then n + 1 else n)
  {
    st' := if node.v.Null? || Top(node.st) != frame then node.st else Pop(node.st);
    assert st <= st + [frame];
    forall n: nat | frame == InObject && node.st == Over(st + [frame], n)
      ensures st' == Over(st, if node.v.Null? then n + 1 else n)
    {
      FrameUnder(st, n);
    }
  }

  /** Object frames look the same whichever of them is taken off. */
  lemma FrameUnder(st: Stack, n: nat)
    ensures var over := Over(st + [InObject], n);
            over == Over(st, n + 1) && Top(over) == InObject && Pop(over) == Over(st, n)
  {
  }

  predicate IsDocument(t: Tree)
  {
    t.Braces? || t.Brackets?
  }

  lemma {:induction false} ReadDocument(lib: Lib, t: Tree, st: Stack) returns (st': Stack)
    requires Formed(lib, t) && IsDocument(t)
    ensures st <= st' && Taken(lib, t).Some? && Source(t) != ""
    ensures t.Braces? ==> st' == Over(st, LeftBehind(lib, t))
    ensures t.Braces? ==> Source(t)[0] == '{'
    ensures DeserializeInternal(lib, Source(t), st) == Done(NodeRead(Taken(lib, t).value, st'))
    decreases t, 2
  {
    hide DeserializeObj, DeserializeArray, Taken, Closed, FieldsSource, ItemsSource, Formed;
    SourceEnds(lib, t);
    var frame := if t.Braces? then InObject else InArray;
    if t.Braces? {
      st' := ReadObject(lib, t, st + [frame]);
    } else {
      st' := ReadArray(lib, t, st + [frame]);
    }
    st' := ClosedKeeps(NodeRead(Taken(lib, t).value, st'), frame, st);
  }

  /** Reading a well-formed text gives what the text is taken for, and null if it is no array and no object. */
  lemma ReadsText(lib: Lib, x: Spaced)
    requires FormedSpaced(lib, x)
    ensures Deserialize(lib, SpacedSource(x))
            == Done(if IsDocument(x.tree) && Taken(lib, x.tree).Some? then Taken(lib, x.tree).value else Null)
  {
    hide Taken, Source, Formed, AllSpace, Trim, DeserializeObj, DeserializeArray;
    SourceEnds(lib, x.tree);
    TrimAround(x.before, Source(x.tree), x.after, "");
    var w := Source(x.tree);
    assert x.before + w + x.after + "" == x.before + w + x.after && w + "" == w;
    if IsDocument(x.tree) {
      var st := ReadDocument(lib, x.tree, []);
    } else {
      OnlyDocumentsStartSo(lib, x.tree);
    }
  }

  lemma OnlyDocumentsStartSo(lib: Lib, t: Tree)
    requires Formed(lib, t) && !IsDocument(t)
    ensures Source(t) != "" && Source(t)[0] != '{' && Source(t)[0] != '['
  {
    if IsScalar(t) {
      ScalarStart(lib, t);
    }
  }
}
