/** In texts without an opening brace, well formed or not, no frame is closed that the reader did not open. */
module JsonStack {
  import opened Decimals
  import opened JsonValue
  import opened JsonRead
  import opened JsonSpelling

  predicate OnlyArrays(st: Stack)
  {
    forall i :: 0 <= i < |st| ==> st[i] == InArray
  }

  /** No `]` stands before the first `[`. */
  predicate OpensFirst(s: string)
  {
    s == "" || s[0] == '[' || (s[0] != ']' && OpensFirst(s[1..]))
  }

  lemma {:induction false} OpensFirstUpTo(s: string, k: nat)
    requires k <= |s| && (k < |s| ==> s[k] == '[') && forall m :: 0 <= m < k ==> s[m] != ']'
    ensures OpensFirst(s)
  {
    if k > 0 {
      OpensFirstUpTo(s[1..], k - 1);
    }
  }

  lemma {:induction false} OpensFirstInFront(s: string)
    requires s != "" && OpensFirst(s)
    ensures OpensFirst(s[..|s| - 1])
  {
    if |s| > 1 && s[0] != '[' {
      OpensFirstInFront(s[1..]);
      assert s[..|s| - 1][1..] == s[1..][..|s| - 2];
    }
  }

  lemma {:induction false} TrimOpensFirst(s: string)
    ensures OpensFirst(s) ==> OpensFirst(Trim(s))
    ensures '{' !in s ==> '{' !in Trim(s)
    decreases |s|
  {
    if s != "" && IsSpace(s[0]) {
      TrimOpensFirst(s[1..]);
    } else if s != "" && IsSpace(s[|s| - 1]) {
      if OpensFirst(s) {
        OpensFirstInFront(s);
      }
      TrimOpensFirst(s[..|s| - 1]);
    }
  }

  /** The search for a bracket's end takes off no frame below the bracket's own. */
  lemma {:induction false} ScanKeeps(s: string, i: nat, inQuote: bool, st: Stack, original: nat)
    requires 0 < i <= |s| && 0 < original <= |st| && '{' !in s && OnlyArrays(st)
    ensures var e := ScanEnd(s, i, inQuote, st, original); st[..original - 1] <= e.st && OnlyArrays(e.st)
    decreases |s| - i
  {
    if i < |s| {
      assert s[i] in s;
      if s[i] == '\"' {
        ScanKeeps(s, i + 1, inQuote != Toggles(s, i), st, original);
      } else if !inQuote && s[i] == '[' {
        ScanKeeps(s, i + 1, inQuote, st + [InArray], original);
      } else if !inQuote && s[i] == ']' && |st| > original {
        ScanKeeps(s, i + 1, inQuote, Pop(st), original);
      } else {
        ScanKeeps(s, i + 1, inQuote, st, original);
      }
    }
  }

  lemma {:induction false} PrimitiveKeeps(s: string, i: nat, temp: string, dot: bool, e: bool, digit: bool, st: Stack)
    requires i <= |s| && OpensFirst(s[i..]) && OnlyArrays(st)
    ensures ScanPrimitive(s, i, temp, dot, e, digit, st).st == st
    decreases |s| - i
  {
    if i < |s| && s[i] != ',' && !Refused(s[i], temp, e, digit, st) {
      hide BooleanStem;
      assert s[i..][0] == s[i] && s[i..][1..] == s[i + 1..];
      PrimitiveKeeps(s, i + 1, if IsSpace(s[i]) then temp else temp + [s[i]],
                     dot || s[i] == '.', e || (IsE(s[i]) && !BooleanStem(temp)), digit || IsDigit(s[i]), st);
    }
  }

  ghost predicate Keeps(st: Stack, st': Stack)
  {
    st <= st' && OnlyArrays(st')
  }

  lemma {:induction false} ValueKeeps(lib: Lib, s0: string, st: Stack)
    requires '{' !in s0 && OpensFirst(s0) && OnlyArrays(st)
    ensures var r := DeserializeValue(lib, s0, st);
            r != Undefined && (r.Done? ==> Keeps(st, r.value.st) && '{' !in r.value.rest)
    decreases |s0|, 3
  {
    hide ScanEnd, DeserializeArray, DeserializeInternal, QuotePos, PrimitiveValue, ScanPrimitive, Unescape, Trim,
         OpensFirst;
    TrimOpensFirst(s0);
    var s := Trim(s0);
    if s == "" {
    } else if s[0] == '[' {
      ScanKeeps(s, 1, false, st + [InArray], |st| + 1);
      var e := ScanEnd(s, 1, false, st + [InArray], |st| + 1);
      assert (st + [InArray])[..|st|] == st;
      if e.EndAt? {
        ArrayKeeps(lib, s[..if e.i < |s| then e.i + 1 else e.i], e.st);
      }
    } else if s[0] == '\"' {
      var q := QuotePos(s, 1, false);
      if q.Some? {
        UnescapeThrows(lib, s[1..q.value]);
      }
    } else {
      assert s[0] in s;
      assert s[0..] == s;
      PrimitiveKeeps(s, 0, "", false, false, false, st);
    }
  }

  lemma {:induction false} ArrayKeeps(lib: Lib, s0: string, st: Stack)
    requires s0 != "" && s0[0] == '[' && '{' !in s0 && OnlyArrays(st)
    ensures var r := DeserializeArray(lib, s0, st); r != Undefined && (r.Done? ==> Keeps(st, r.value.st))
    decreases |s0|, 1
  {
    hide ArrayLoop, Trim, OpensFirst;
    TrimOpensFirst(s0);
    StartsTheSame(s0);
    var s := Trim(s0);
    if s[|s| - 1] == ']' {
      LoopKeeps(lib, s[1..|s| - 1], [], st);
    }
  }

  lemma {:induction false} LoopKeeps(lib: Lib, s: string, a: seq<Value>, st: Stack)
    requires '{' !in s && OnlyArrays(st)
    ensures var r := ArrayLoop(lib, s, a, st); r != Undefined && (r.Done? ==> Keeps(st, r.value.st))
    decreases |s|, 4
  {
    hide DeserializeValue, ArrayStop, OpensFirst, MustShrink;
    if s != "" {
      var k := ArrayStop(s, 0);
      assert s[k] in s;
      if s[k] == '[' {
        OpensFirstUpTo(s, k);
        ValueKeeps(lib, s, st);
        BracketShrinks(s, k);
        var r := DeserializeValue(lib, s, st);
        if r.Done? && !r.value.hadError {
          LoopKeeps(lib, r.value.rest, if r.value.v.Null? then a else a + [r.value.v], r.value.st);
        }
      } else {
        var t := if s[k] in ",]" then s[..k] else s[..k + 1];
        OpensFirstUpTo(t, |t|);
        ValueKeeps(lib, t, st);
        var r := DeserializeValue(lib, t, st);
        if r.Done? && !r.value.hadError {
          LoopKeeps(lib, s[k + 1..], if r.value.v.Null? then a else a + [r.value.v], r.value.st);
        }
      }
    }
  }

  /** So on any text without an opening brace the top of an empty stack is never read. */
  lemma BraceFreeIsDefined(lib: Lib, s: string)
    requires '{' !in s
    ensures Deserialize(lib, s) != Undefined
  {
    hide DeserializeArray, Trim;
    TrimOpensFirst(s);
    var t := Trim(s);
    if t != "" && t[0] == '[' && t[|t| - 1] == ']' {
      assert [] + [InArray] == [InArray];
      ArrayKeeps(lib, t, [InArray]);
    } else {
      assert t == "" || t[0] in t;
    }
  }
}
