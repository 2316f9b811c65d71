/** The reader as it runs: loops that shorten their text and one bracket stack shared by every call. */
module JsonParser {
  import opened Decimals
  import opened JsonValue
  import opened Wrappers
  import opened JsonRead
  import opened JsonSpelling

  /** `std::stack<StackDepthType>`, passed by reference throughout. */
  class DepthStack {
    var frames: Stack

    constructor ()
      ensures frames == []
    {
      frames := [];
    }

    method PushFrame(f: Frame)
      modifies this
      ensures frames == old(frames) + [f]
    {
      frames := frames + [f];
    }

    method PopFrame()
      requires frames != []
      modifies this
      ensures frames == Pop(old(frames))
    {
      frames := frames[..|frames| - 1];
    }
  }

  /** The value, the error flag and the shortened text. */
  datatype Reading = Reading(v: Value, hadError: bool, rest: string)

  ghost predicate ReadsAs(r: Outcome<Reading>, spec: Outcome<ValueRead>, frames: Stack)
  {
    match spec
    case Done(x) => r == Done(Reading(x.v, x.hadError, x.rest)) && frames == x.st
    case Threw => r == Threw
    case Undefined => r == Undefined
  }

  ghost predicate NodeReadsAs(r: Outcome<Value>, spec: Outcome<NodeRead>, frames: Stack)
  {
    match spec
    case Done(x) => r == Done(x.v) && frames == x.st
    case Threw => r == Threw
    case Undefined => r == Undefined
  }

  method GetQuotePos(str: string, startPos: nat) returns (q: Option<nat>)
    ensures q == QuotePos(str, startPos, false) && IsFirstQuote(str, startPos, q)
  {
    QuotePosIsFirst(str, startPos);
    hide Unescaped;
    var foundSlash := false;
    var i := startPos;
    while i < |str|
      invariant startPos <= i
      invariant QuotePos(str, startPos, false) == QuotePos(str, i, foundSlash)
    {
      if str[i] == '\\' && !foundSlash {
        foundSlash := true;
      } else if str[i] == '\"' && !foundSlash {
        return Some(i);
      } else {
        foundSlash := false;
      }
      i := i + 1;
    }
    return None;
  }

  /** The index of the end, or None at a bracket of the wrong kind. */
  method GetEndOfArrayOrObj(str: string, depthStack: DepthStack) returns (end: Option<nat>)
    requires str != "" && str[0] != '\\' && depthStack.frames != []
    modifies depthStack
    ensures match ScanEnd(str, 1, false, old(depthStack.frames), |old(depthStack.frames)|)
            case Mismatch(st) => end == None && depthStack.frames == st
            case EndAt(k, st) => end == Some(k) && depthStack.frames == st
  {
    var i := 1;
    var inQuote := false;
    var originalCount := |depthStack.frames|;
    while i < |str|
      invariant 1 <= i <= |str| && 0 < originalCount <= |depthStack.frames|
      invariant ScanEnd(str, i, inQuote, depthStack.frames, originalCount)
             == ScanEnd(str, 1, false, old(depthStack.frames), originalCount)
    {
      if str[i] == '\"' {
        if str[i - 1] != '\\' {
          inQuote := !inQuote;
        }
        if i > 2 && str[i - 1] == '\\' && str[i - 2] == '\\' {
          inQuote := !inQuote;
        }
      } else if !inQuote {
        if str[i] == '[' {
          depthStack.PushFrame(InArray);
        } else if str[i] == '{' {
          depthStack.PushFrame(InObject);
        } else if str[i] == ']' || str[i] == '}' {
          if Top(depthStack.frames) != (if str[i] == ']' then InArray else InObject) {
            return None;
          }
          var count := |depthStack.frames|;
          depthStack.PopFrame();
          if count == originalCount {
            return Some(i);
          }
        }
      }
      i := i + 1;
    }
    return Some(i);
  }

  function Prepend(s: string, r: Outcome<string>): Outcome<string>
  {
    match r
    case Done(t) => Done(s + t)
    case _ => r
  }

  method UnescapeJSONString(lib: Lib, str: string) returns (r: Outcome<string>)
    ensures r == Unescape(lib, str)
    ensures forall sps :: AllProper(sps) && str == WrittenAll(sps) ==> r == Done(Trim(MeantAll(lib, sps)))
  {
    forall sps | AllProper(sps) && str == WrittenAll(sps)
      ensures Unescape(lib, str) == Done(Trim(MeantAll(lib, sps)))
    {
      UnescapeUndoes(lib, sps);
    }
    hide WrittenAll, MeantAll, AllProper;
    var s := "";
    var i := 0;
    PrependNothing(UnescapeFrom(lib, str, 0));
    while i < |str|
      invariant 0 <= i <= |str| + 5
      invariant UnescapeFrom(lib, str, 0) == Prepend(s, UnescapeFrom(lib, str, i))
      decreases |str| + 5 - i
    {
      if str[i] == '\\' && i + 1 < |str| {
        if str[i + 1] == 'u' {
          if i + 4 > |str| {
            return Threw;
          }
          PrependTwice(s, [lib.hexByte(str[i + 4..if i + 6 <= |str| then i + 6 else |str|])],
                       UnescapeFrom(lib, str, i + 6));
          s := s + [lib.hexByte(str[i + 4..if i + 6 <= |str| then i + 6 else |str|])];
          i := i + 6;
        } else {
          PrependTwice(s, SimpleEscape(str[i + 1]), UnescapeFrom(lib, str, i + 2));
          s := s + SimpleEscape(str[i + 1]);
          i := i + 2;
        }
      } else {
        PrependTwice(s, [str[i]], UnescapeFrom(lib, str, i + 1));
        s := s + [str[i]];
        i := i + 1;
      }
    }
    assert s + "" == s;
    return Done(Trim(s));
  }

  lemma PrependNothing(r: Outcome<string>)
    ensures Prepend("", r) == r
  {
    if r.Done? {
      assert "" + r.value == r.value;
    }
  }

  lemma PrependTwice(a: string, b: string, r: Outcome<string>)
    ensures Prepend(a, Prepend(b, r)) == Prepend(a + b, r)
  {
    if r.Done? {
      assert a + (b + r.value) == a + b + r.value;
    }
  }

  /** The loop of the value reader over a number, boolean or null; None where it reports an error. */
  method CollectPrimitive(str: string, depthStack: DepthStack)
    returns (end: Option<nat>, tempVal: string, hasDot: bool, hasE: bool)
    modifies depthStack
    ensures match ScanPrimitive(str, 0, "", false, false, false, old(depthStack.frames))
            case Rejected(st) => end == None && depthStack.frames == st
            case Collected(k, t, dot, e, st) =>
              end == Some(k) && tempVal == t && hasDot == dot && hasE == e && depthStack.frames == st
  {
    hasDot, hasE, tempVal := false, false, "";
    var i := 0;
    var foundDigit := false;
    while i < |str| && str[i] != ','
      invariant 0 <= i <= |str|
      invariant ScanPrimitive(str, i, tempVal, hasDot, hasE, foundDigit, depthStack.frames)
             == ScanPrimitive(str, 0, "", false, false, false, old(depthStack.frames))
      decreases |str| - i
    {
      if str[i] == '.' {
        if !foundDigit {
          return None, tempVal, hasDot, hasE;
        }
        hasDot := true;
      } else if str[i] == 'e' || str[i] == 'E' {
        if !EqualNoCase(CStr(tempVal), "fals") && !EqualNoCase(CStr(tempVal), "tru") {
          if !foundDigit || hasE {
            return None, tempVal, hasDot, hasE;
          }
          hasE := true;
        }
      } else if str[i] == ']' || str[i] == '}' {
        if depthStack.frames == [] || Top(depthStack.frames) != (if str[i] == ']' then InArray else InObject) {
          return None, tempVal, hasDot, hasE;
        }
        depthStack.PopFrame();
      } else if str[i] == '[' || str[i] == '{' {
        return None, tempVal, hasDot, hasE;
      }
      if !IsSpace(str[i]) {
        if IsDigit(str[i]) {
          foundDigit := true;
        }
        tempVal := tempVal + [str[i]];
      }
      i := i + 1;
    }
    return Some(i), tempVal, hasDot, hasE;
  }

  method DeserializeValue(lib: Lib, text: string, depthStack: DepthStack) returns (r: Outcome<Reading>)
    modifies depthStack
    ensures ReadsAs(r, JsonRead.DeserializeValue(lib, text, old(depthStack.frames)), depthStack.frames)
    decreases |text|, 3
  {
    hide JsonRead.DeserializeArray, JsonRead.DeserializeInternal, ScanEnd, ScanPrimitive, QuotePos, Unescape,
      PrimitiveValue;
    var str := Trim(text);
    if |str| == 0 {
      return Done(Reading(Null, false, str));
    }
    if str[0] == '[' || str[0] == '{' {
      depthStack.PushFrame(if str[0] == '[' then InArray else InObject);
      var i := GetEndOfArrayOrObj(str, depthStack);
      if i == None {
        return Done(Reading(Null, true, str));
      }
      var inner := str[..if i.value < |str| then i.value + 1 else i.value];
      var v: Value;
      if str[0] == '[' {
        v :- DeserializeArray(lib, inner, depthStack);
      } else {
        v :- DeserializeInternal(lib, inner, depthStack);
      }
      if i.value + 1 > |str| {
        return Threw;
      }
      str := str[i.value + 1..];
      return Done(Reading(v, false, str));
    } else if str[0] == '\"' {
      var endQuote := GetQuotePos(str, 1);
      if endQuote == None {
        return Done(Reading(Null, true, str));
      }
      var t :- UnescapeJSONString(lib, str[1..endQuote.value]);
      str := str[endQuote.value + 1..];
      return Done(Reading(Str(t), false, str));
    } else {
      var i, tempVal, hasDot, hasE := CollectPrimitive(str, depthStack);
      if i == None {
        return Done(Reading(Null, true, str));
      }
      var v := PrimitiveValue(lib, tempVal, hasDot, hasE);
      if v == None {
        return Done(Reading(Null, true, str));
      }
      str := str[i.value..];
      return Done(Reading(v.value, false, str));
    }
  }

  method DeserializeArray(lib: Lib, text: string, depthStack: DepthStack) returns (r: Outcome<Value>)
    requires text != "" && text[0] == '['
    modifies depthStack
    ensures NodeReadsAs(r, JsonRead.DeserializeArray(lib, text, old(depthStack.frames)), depthStack.frames)
    decreases |text|, 1
  {
    hide JsonRead.DeserializeValue;
    var a: seq<Value> := [];
    var str := Trim(text);
    StartsTheSame(text);
    if str[|str| - 1] == ']' {
      str := str[1..|str| - 1];
    } else {
      return Done(Null);
    }
    ghost var spec := ArrayLoop(lib, str, [], depthStack.frames);
    while |str| > 0
      invariant |str| < |text|
      invariant ArrayLoop(lib, str, a, depthStack.frames) == spec
      decreases |str|
    {
      var i := 0;
      while str[i] !in "{[,]" && i < |str| - 1
        invariant 0 <= i < |str| && ArrayStop(str, i) == ArrayStop(str, 0)
        invariant forall m :: 0 <= m < i ==> str[m] !in "{[,]"
      {
        i := i + 1;
      }
      if str[i] == '{' || str[i] == '[' {
        BracketShrinks(str, i);
        var x :- DeserializeValue(lib, str, depthStack);
        if x.hadError {
          return Done(Null);
        }
        if !x.v.Null? {
          a := a + [x.v];
        }
        str := x.rest;
      } else {
        var tmp := if str[i] in ",]" then str[..i] else str[..i + 1];
        var x :- DeserializeValue(lib, tmp, depthStack);
        if x.hadError {
          return Done(Null);
        }
        if !x.v.Null? {
          a := a + [x.v];
        }
        str := str[i + 1..];
      }
    }
    return Done(Arr(a));
  }

  method DeserializeObj(lib: Lib, text: string, depthStack: DepthStack) returns (r: Outcome<Value>)
    requires |text| >= 2 && text[0] == '{' && text[|text| - 1] == '}'
    modifies depthStack
    ensures NodeReadsAs(r, JsonRead.DeserializeObj(lib, text, old(depthStack.frames)), depthStack.frames)
    decreases |text|, 1
  {
    hide JsonRead.DeserializeValue, ReadKey;
    var obj: seq<Member> := [];
    var str := Trim(text);
    str := str[1..|str| - 1];
    ghost var spec := ObjectLoop(lib, str, [], depthStack.frames);
    while |str| > 0
      invariant |str| < |text|
      invariant ObjectLoop(lib, str, obj, depthStack.frames) == spec
      decreases |str|
    {
      var k := NextKey(str);
      if k == NoKey {
        return Done(Null);
      }
      str := str[k.colon + 1..];
      var x :- DeserializeValue(lib, str, depthStack);
      obj := Put(obj, k.key, x.v);
      if x.hadError {
        return Done(Null);
      }
      str := x.rest;
    }
    return Done(Obj(obj));
  }

  /** The key between the first two quotes and the colon after them. */
  method NextKey(str: string) returns (k: KeyRead)
    ensures k == ReadKey(str)
    ensures k.KeyAt? ==> exists open: nat, close: nat :: KeyStands(str, open, close, k.colon, k.key)
    ensures k.NoKey? ==> forall open: nat, close: nat, colon: nat, key :: !KeyStands(str, open, close, colon, key)
  {
    hide KeyStands, IsFirstQuote;
    ReadKeyFindsKey(str);
    var startQuote := GetQuotePos(str, 0);
    if startQuote == None {
      return NoKey;
    }
    var endQuote := GetQuotePos(str, startQuote.value + 1);
    if endQuote == None {
      return NoKey;
    }
    var colon := Find(str, ':', endQuote.value);
    if colon == None {
      return NoKey;
    }
    var key := str[startQuote.value + 1..endQuote.value];
    return if key == "" then NoKey else KeyAt(key, colon.value);
  }

  method DeserializeInternal(lib: Lib, text: string, depthStack: DepthStack) returns (r: Outcome<Value>)
    modifies depthStack
    ensures NodeReadsAs(r, JsonRead.DeserializeInternal(lib, text, old(depthStack.frames)), depthStack.frames)
    decreases |text|, 2
  {
    hide JsonRead.DeserializeArray, JsonRead.DeserializeObj;
    var str := Trim(text);
    if str == "" || (str[0] != '{' && str[0] != '[') {
      return Done(Null);
    }
    var frame := if str[0] == '{' then InObject else InArray;
    if str[|str| - 1] != (if str[0] == '{' then '}' else ']') {
      return Done(Null);
    }
    depthStack.PushFrame(frame);
    var v: Value;
    if str[0] == '{' {
      v :- DeserializeObj(lib, str, depthStack);
    } else {
      v :- DeserializeArray(lib, str, depthStack);
    }
    if v.Null? {
      return Done(v);
    }
    if depthStack.frames == [] {
      return Undefined;
    }
    if Top(depthStack.frames) != frame {
      return Done(v);
    }
    depthStack.PopFrame();
    return Done(v);
  }

  method Deserialize(lib: Lib, str: string) returns (r: Outcome<Value>)
    ensures r == JsonRead.Deserialize(lib, str)
  {
    hide JsonRead.DeserializeInternal;
    var depthStack := new DepthStack();
    r := DeserializeInternal(lib, str, depthStack);
  }
}
