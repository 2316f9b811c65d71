/** Texts on which the reader throws, reads the top of an empty stack, or loses a valid value. */
module JsonFailures {
  import opened Decimals
  import opened JsonValue
  import opened Wrappers
  import opened JsonRead
  import opened JsonBrackets
  import opened JsonQuotes

  // ---------- a misjudged quote ----------

  /** The array of one string: backslash, quote, closing bracket, each escaped as JSON asks. */
  const ESCAPED := "[\"\\\\\\\"]\"]"

  lemma EscapedScan(st: Stack)
    ensures ScanEnd(ESCAPED, 1, false, st + [InArray], |st| + 1) == EndAt(6, st)
  {
    var s, n := ESCAPED, |st| + 1;
    var open := st + [InArray];
    assert s[1] == '\"' && s[2] == s[3] == s[4] == '\\' && s[5] == '\"' && s[6] == ']';
    assert Pop(open) == st;
    assert ScanEnd(s, 6, false, open, n) == EndAt(6, st);
    assert ScanEnd(s, 5, true, open, n) == ScanEnd(s, 6, false, open, n);
    assert ScanEnd(s, 4, true, open, n) == ScanEnd(s, 5, true, open, n);
    assert ScanEnd(s, 3, true, open, n) == ScanEnd(s, 4, true, open, n);
    assert ScanEnd(s, 2, true, open, n) == ScanEnd(s, 3, true, open, n);
  }

  /** The string ends at position 7 and the array at 8; the search ends inside the string. */
  lemma EscapedIsWellFormed()
    ensures QuotePos(ESCAPED, 2, false) == Some(7)
    ensures Misjudged(ESCAPED, 5) && ClosedAt(ESCAPED, 8, Parity) && !Balanced(ESCAPED, 1, 6, Parity)
  {
    var s := ESCAPED;
    assert s[1] == '\"' && s[2] == s[3] == s[4] == '\\' && s[5] == '\"' && s[6] == ']' && s[7] == '\"' && s[8] == ']';
  }

  lemma StringWithoutEnd(lib: Lib, st: Stack)
    ensures DeserializeValue(lib, "\"\\\\\\\"", st) == Done(ValueRead(Null, true, "\"\\\\\\\"", st))
  {
    var s := "\"\\\\\\\"";
    assert QuotePos(s, 5, false) == None;
    assert QuotePos(s, 1, false) == None;
    hide ScanEnd, ScanPrimitive, DeserializeArray, DeserializeInternal, QuotePos;
    assert Trim(s) == s;
  }

  /** An array of one element on which the value reader reports an error is read as null. */
  lemma ElementFails(lib: Lib, t: string, st: Stack, rest: string, st': Stack)
    requires t != "" && forall m :: 0 <= m < |t| ==> t[m] !in "{[,]"
    requires DeserializeValue(lib, t, st) == Done(ValueRead(Null, true, rest, st'))
    ensures DeserializeArray(lib, "[" + t + "]", st) == Done(NodeRead(Null, st'))
  {
    hide DeserializeValue, ArrayStop;
    var s := "[" + t + "]";
    assert Trimmed(s);
    assert s[1..|s| - 1] == t;
    var k := ArrayStop(t, 0);
    assert k == |t| - 1;
    assert t[..k + 1] == t;
  }

  lemma EscapedArray(lib: Lib, st: Stack)
    ensures DeserializeArray(lib, ESCAPED[..7], st) == Done(NodeRead(Null, st))
  {
    var t := "\"\\\\\\\"";
    StringWithoutEnd(lib, st);
    hide DeserializeValue, DeserializeArray;
    assert ESCAPED[..7] == "[" + t + "]";
    ElementFails(lib, t, st, t, st);
  }

  /** The array is read as null, and the end of its text is left over. */
  lemma EscapedArrayLost(lib: Lib, st: Stack)
    ensures DeserializeValue(lib, ESCAPED, st) == Done(ValueRead(Null, false, "\"]", st))
  {
    hide ScanEnd, ScanPrimitive, DeserializeArray, DeserializeInternal;
    EscapedScan(st);
    EscapedArray(lib, st);
    assert Trim(ESCAPED) == ESCAPED && ESCAPED[7..] == "\"]";
  }

  // ---------- the top of an empty stack ----------

  /** A closing brace between quotes that are not at the start of an array element. */
  const STRAY := "{\"x\":[a\"}\"]}"

  lemma StrayScan()
    ensures ScanPrimitive("a\"}\"", 0, "", false, false, false, [InObject])
            == Collected(4, "a\"}\"", false, false, [])
  {
    var s := "a\"}\"";
    assert Pop([InObject]) == [];
    assert s[0] == 'a' && s[1] == '\"' && s[2] == '}' && s[3] == '\"';
    assert ScanPrimitive(s, 4, s, false, false, false, []) == Collected(4, s, false, false, []);
    assert "a\"}" + [s[3]] == s;
    assert ScanPrimitive(s, 3, "a\"}", false, false, false, []) == ScanPrimitive(s, 4, s, false, false, false, []);
    assert "a\"" + [s[2]] == "a\"}";
    assert ScanPrimitive(s, 2, "a\"", false, false, false, [InObject])
        == ScanPrimitive(s, 3, "a\"}", false, false, false, []);
    assert "a" + [s[1]] == "a\"" && "" + [s[0]] == "a";
    assert ScanPrimitive(s, 1, "a", false, false, false, [InObject])
        == ScanPrimitive(s, 2, "a\"", false, false, false, [InObject]);
  }

  lemma StrayValue(lib: Lib)
    ensures PrimitiveValue(lib, "a\"}\"", false, false) == None
  {
    var s := "a\"}\"";
    CStrWhole(s);
    assert Lower(s[0]) == 'a';
    assert !IsDigit(s[0]);
    hide CStr;
  }

  /** The loop over the element pops the frame of the object around the array, then reports an error. */
  lemma StrayElement(lib: Lib)
    ensures DeserializeValue(lib, "a\"}\"", [InObject]) == Done(ValueRead(Null, true, "a\"}\"", []))
  {
    hide ScanEnd, ScanPrimitive, DeserializeArray, DeserializeInternal, QuotePos, PrimitiveValue;
    StrayScan();
    StrayValue(lib);
    assert Trim("a\"}\"") == "a\"}\"";
  }

  lemma StrayArray(lib: Lib)
    ensures DeserializeArray(lib, "[a\"}\"]", [InObject]) == Done(NodeRead(Null, []))
  {
    var t := "a\"}\"";
    StrayElement(lib);
    hide DeserializeValue, DeserializeArray;
    assert "[a\"}\"]" == "[" + t + "]";
    ElementFails(lib, t, [InObject], t, []);
  }

  lemma StrayEnd()
    ensures ScanEnd("[a\"}\"]", 1, false, [InObject] + [InArray], 2) == EndAt(5, [InObject])
  {
    var s := "[a\"}\"]";
    var open := [InObject] + [InArray];
    assert Pop(open) == [InObject];
    assert ScanEnd(s, 5, false, open, 2) == EndAt(5, [InObject]);
    assert ScanEnd(s, 4, true, open, 2) == ScanEnd(s, 5, false, open, 2);
    assert ScanEnd(s, 3, true, open, 2) == ScanEnd(s, 4, true, open, 2);
    assert ScanEnd(s, 2, false, open, 2) == ScanEnd(s, 3, true, open, 2);
    assert ScanEnd(s, 1, false, open, 2) == ScanEnd(s, 2, false, open, 2);
  }

  lemma StrayMember(lib: Lib)
    ensures DeserializeValue(lib, "[a\"}\"]", [InObject]) == Done(ValueRead(Null, false, "", []))
  {
    var s := "[a\"}\"]";
    StrayArray(lib);
    StrayEnd();
    hide ScanEnd, ScanPrimitive, DeserializeArray, DeserializeInternal, QuotePos;
    assert Trim(s) == s && s[..6] == s && s[6..] == "";
  }

  lemma StrayKey()
    ensures ReadKey("\"x\":[a\"}\"]") == KeyAt("x", 3)
  {
    var s := "\"x\":[a\"}\"]";
    assert QuotePos(s, 0, false) == Some(0);
    assert QuotePos(s, 1, false) == Some(2);
    assert Find(s, ':', 2) == Some(3);
    assert s[1..2] == "x";
  }

  /** The object is read in full while its own frame is gone, and the top of the empty stack is read. */
  lemma FrameGone(lib: Lib, t: string, key: string, colon: nat)
    requires t != "" && ReadKey(t) == KeyAt(key, colon)
    requires DeserializeValue(lib, t[colon + 1..], [InObject]) == Done(ValueRead(Null, false, "", []))
    ensures Deserialize(lib, "{" + t + "}") == Undefined
  {
    hide DeserializeValue, ReadKey, DeserializeArray;
    var s := "{" + t + "}";
    assert Trim(s) == s;
    hide Trim;
    assert s[1..|s| - 1] == t;
    var obj := [Member(key, Null)];
    assert Put([], key, Null) == obj;
    assert ObjectLoop(lib, "", obj, []) == Done(NodeRead(Obj(obj), []));
    assert ObjectLoop(lib, t, [], [InObject]) == Done(NodeRead(Obj(obj), []));
    assert DeserializeObj(lib, s, [InObject]) == Done(NodeRead(Obj(obj), []));
    hide DeserializeObj;
    assert [] + [InObject] == [InObject];
    assert DeserializeInternal(lib, s, []) == Undefined;
  }

  /** No zero byte is needed, and no library function is at fault. */
  lemma StrayCloserIsUndefined(lib: Lib)
    ensures Deserialize(lib, STRAY) == Undefined
  {
    var t := "\"x\":[a\"}\"]";
    StrayKey();
    StrayMember(lib);
    hide Deserialize, DeserializeValue, ReadKey;
    assert STRAY == "{" + t + "}" && t[4..] == "[a\"}\"]";
    FrameGone(lib, t, "x", 3);
  }

  /** Braces before a key: nothing opens a frame for them, and the value after the key closes them. */
  const BARE := "{\"k\":{{{\"a\":1}}}}"

  lemma BareScan()
    ensures ScanPrimitive("1}}", 0, "", false, false, false, [InObject, InObject])
            == Collected(3, "1}}", false, false, [])
  {
    var s := "1}}";
    assert Pop([InObject, InObject]) == [InObject] && Pop([InObject]) == [];
    assert "" + [s[0]] == "1" && "1" + [s[1]] == "1}" && "1}" + [s[2]] == s;
    assert ScanPrimitive(s, 2, "1}", false, false, true, [InObject]) == Collected(3, s, false, false, []);
    assert ScanPrimitive(s, 1, "1", false, false, true, [InObject, InObject])
        == ScanPrimitive(s, 2, "1}", false, false, true, [InObject]);
  }

  lemma BareValue(lib: Lib)
    ensures PrimitiveValue(lib, "1}}", false, false) == None
  {
    var s := "1}}";
    CStrWhole(s);
    assert Lower(s[0]) == '1';
    assert !IsDigit(s[2]);
    hide CStr;
  }

  lemma BareInnerKey()
    ensures ReadKey("{{\"a\":1}}") == KeyAt("a", 5)
  {
    var t := "{{\"a\":1}}";
    assert QuotePos(t, 0, false) == Some(2);
    assert QuotePos(t, 3, false) == Some(4);
    assert Find(t, ':', 4) == Some(5);
    assert t[3..4] == "a";
  }

  lemma BareObject(lib: Lib)
    ensures DeserializeInternal(lib, "{{{\"a\":1}}}", [InObject]) == Done(NodeRead(Null, []))
  {
    var s, t := "{{{\"a\":1}}}", "{{\"a\":1}}";
    BareScan();
    BareValue(lib);
    BareInnerKey();
    hide ScanEnd, ScanPrimitive, DeserializeArray, PrimitiveValue, ReadKey, QuotePos;
    assert t[6..] == "1}}" && [InObject] + [InObject] == [InObject, InObject];
    assert Trim("1}}") == "1}}" && Trim(s) == s && s[1..|s| - 1] == t;
    hide Trim;
    assert DeserializeValue(lib, "1}}", [InObject, InObject]) == Done(ValueRead(Null, true, "1}}", []));
    hide DeserializeValue;
    assert ObjectLoop(lib, t, [], [InObject, InObject]) == Done(NodeRead(Null, []));
  }

  lemma BareEnd()
    ensures ScanEnd("{{{\"a\":1}}}", 1, false, [InObject, InObject], 2) == EndAt(10, [InObject])
  {
    var s := "{{{\"a\":1}}}";
    var o := InObject;
    assert [o, o] + [o] == [o, o, o] && [o, o, o] + [o] == [o, o, o, o];
    assert Pop([o, o, o, o]) == [o, o, o] && Pop([o, o, o]) == [o, o] && Pop([o, o]) == [o];
    assert s[3] == s[5] == '\"' && s[8] == s[9] == s[10] == '}';
    assert ScanEnd(s, 9, false, [o, o, o], 2) == EndAt(10, [o]);
    assert ScanEnd(s, 7, false, [o, o, o, o], 2) == ScanEnd(s, 9, false, [o, o, o], 2);
    assert ScanEnd(s, 5, true, [o, o, o, o], 2) == ScanEnd(s, 7, false, [o, o, o, o], 2);
    assert ScanEnd(s, 3, false, [o, o, o, o], 2) == ScanEnd(s, 5, true, [o, o, o, o], 2);
    assert ScanEnd(s, 1, false, [o, o], 2) == ScanEnd(s, 3, false, [o, o, o, o], 2);
  }

  lemma BareMember(lib: Lib)
    ensures DeserializeValue(lib, "{{{\"a\":1}}}", [InObject]) == Done(ValueRead(Null, false, "", []))
  {
    var s := "{{{\"a\":1}}}";
    BareObject(lib);
    BareEnd();
    assert [InObject] + [InObject] == [InObject, InObject];
    hide ScanEnd, ScanPrimitive, DeserializeArray, DeserializeInternal, QuotePos;
    assert Trim(s) == s && s[..11] == s && s[11..] == "";
  }

  lemma BareKey()
    ensures ReadKey("\"k\":{{{\"a\":1}}}") == KeyAt("k", 3)
  {
    var t := "\"k\":{{{\"a\":1}}}";
    assert QuotePos(t, 0, false) == Some(0);
    assert QuotePos(t, 1, false) == Some(2);
    assert Find(t, ':', 2) == Some(3);
    assert t[1..2] == "k";
  }

  /** Nor is a bracket inside a string. */
  lemma BareBracesAreUndefined(lib: Lib)
    ensures Deserialize(lib, BARE) == Undefined
  {
    var t := "\"k\":{{{\"a\":1}}}";
    BareKey();
    BareMember(lib);
    hide Deserialize, DeserializeValue, ReadKey;
    assert BARE == "{" + t + "}" && t[4..] == "{{{\"a\":1}}}";
    FrameGone(lib, t, "k", 3);
  }

  lemma CloserTakesFrame(s: string, i: nat, temp: string, dot: bool, e: bool, digit: bool, st: Stack)
    requires i < |s| && st != [] && s[i] == CloserOf(Top(st))
    ensures ScanPrimitive(s, i, temp, dot, e, digit, st)
            == ScanPrimitive(s, i + 1, temp + [s[i]], dot, e, digit, Pop(st))
  {
    hide BooleanStem;
  }

  /** A run of closing brackets inside a number or a word takes off the frames it closes, whoever put them there. */
  lemma {:induction false} ClosersTakeFrames(s: string, i: nat, temp: string, dot: bool, e: bool, digit: bool,
                                             below: Stack, open: Stack)
    requires i <= |s| && s[i..] == Closers(open)
    ensures ScanPrimitive(s, i, temp, dot, e, digit, below + open)
            == Collected(|s|, temp + Closers(open), dot, e, below)
    decreases |open|
  {
    hide BooleanStem;
    if open == [] {
      assert below + open == below && temp + "" == temp;
    } else {
      var st, c := below + open, CloserOf(Top(open));
      assert s[i] == s[i..][0] == c && s[i + 1..] == s[i..][1..];
      assert Pop(st) == below + Pop(open);
      CloserTakesFrame(s, i, temp, dot, e, digit, st);
      hide ScanPrimitive, CloserOf;
      ClosersTakeFrames(s, i + 1, temp + [c], dot, e, digit, below, Pop(open));
      assert temp + [c] + Closers(Pop(open)) == temp + Closers(open);
    }
  }

  /** One that closes nothing, or another kind of frame, is an error. */
  lemma WrongCloserFails(s: string, i: nat, temp: string, dot: bool, e: bool, digit: bool, st: Stack)
    requires i < |s| && (s[i] == ']' || s[i] == '}') && (st == [] || s[i] != CloserOf(Top(st)))
    ensures ScanPrimitive(s, i, temp, dot, e, digit, st) == Rejected(st)
  {
    hide BooleanStem;
  }

  // ---------- exceptions ----------

  /** An array or object that is never closed is not read: taking what follows it throws, unless reading
  what there is of it has already failed. */
  lemma UnclosedIsNotRead(lib: Lib, s: string, st: Stack)
    requires s != "" && Trimmed(s) && IsOpen(s[0]) && Nest(s, 1, |s|, Start(LookBack)).Some?
    ensures !DeserializeValue(lib, s, st).Done?
  {
    hide ScanEnd, Nest, DeserializeArray, DeserializeInternal, ScanPrimitive, QuotePos;
    UnclosedRunsOff(s, st);
  }

  lemma UnclosedRunsOff(s: string, below: Stack)
    requires s != "" && IsOpen(s[0]) && Nest(s, 1, |s|, Start(LookBack)).Some?
    ensures var e := ScanEnd(s, 1, false, below + [FrameOf(s[0])], |below| + 1); e.EndAt? && e.i == |s|
  {
    hide ScanEnd, Nest;
    var base := below + [FrameOf(s[0])];
    assert base + [] == base;
    ScanFollowsNest(s, 1, |s|, base, Start(LookBack));
    ScanStops(s, |s|, base, Nest(s, 1, |s|, Start(LookBack)).value);
  }

  /** One in which a bracket outside strings closes another kind than the one last opened is an error. */
  lemma WrongBracketFails(lib: Lib, s: string, st: Stack, j: nat)
    requires Trimmed(s) && 0 < j < |s| && IsOpen(s[0]) && IsClose(s[j]) && Nest(s, 1, j, Start(LookBack)).Some?
    requires var m := Nest(s, 1, j, Start(LookBack)).value;
             !m.inQuote && FrameOf(s[j]) != (if m.open == [] then FrameOf(s[0]) else Top(m.open))
    ensures var r := DeserializeValue(lib, s, st); r.Done? && r.value.hadError && r.value.rest == s
  {
    hide ScanEnd, Nest, DeserializeArray, DeserializeInternal, ScanPrimitive, QuotePos;
    var base := st + [FrameOf(s[0])];
    assert base + [] == base;
    ScanFollowsNest(s, 1, j, base, Start(LookBack));
    ScanStops(s, j, base, Nest(s, 1, j, Start(LookBack)).value);
  }

  /** And an array or object that is closed is cut out without an exception of its own. */
  lemma ClosedIsReadIfItsTextIs(lib: Lib, s: string, st: Stack, i: nat)
    requires Trimmed(s) && 0 < i < |s| && IsOpen(s[0]) && ClosedAt(s, i, LookBack)
    ensures var text := s[..i + 1];
            DeserializeValue(lib, s, st).Done? <==>
            if s[0] == '[' then DeserializeArray(lib, text, st).Done? else DeserializeInternal(lib, text, st).Done?
  {
    hide ScanEnd, Nest, DeserializeArray, DeserializeInternal, ScanPrimitive, QuotePos;
    EndIsTheMatch(s, st, i, LookBack);
  }
}
