/** What the reader computes, one function per function or loop of the original.

The bracket stack is threaded through every call, as the original threads it by
reference; `rest` is what is left of a string that the original shortens in place. */
module JsonRead {
  import opened Decimals
  import opened JsonValue
  import opened Wrappers

  datatype Frame = InObject | InArray

  type Stack = seq<Frame>

  function Top(st: Stack): Frame
    requires st != []
  {
    st[|st| - 1]
  }

  function Pop(st: Stack): Stack
    requires st != []
  {
    st[..|st| - 1]
  }

  /** `Threw`: an out-of-range `substr`. `Undefined`: the top of an empty stack was read. */
  datatype Outcome<+T> = Done(value: T) | Threw | Undefined {
    predicate IsFailure() { !Done? }
    function PropagateFailure<U>(): Outcome<U>
      requires !Done?
    {
      if Threw? then Threw else Undefined
    }
    function Extract(): T
      requires Done?
    {
      value
    }
  }

  // ---------- quotes ----------

  /** The first quote from `i` on that no open backslash precedes. */
  function QuotePos(s: string, i: nat, slash: bool): (q: Option<nat>)
    ensures q.Some? ==> i <= q.value < |s| && s[q.value] == '\"'
    decreases |s| - i
  {
    if i >= |s| then None
    else if s[i] == '\\' && !slash then QuotePos(s, i + 1, true)
    else if s[i] == '\"' && !slash then Some(i)
    else QuotePos(s, i + 1, false)
  }

  /** How many backslashes stand directly before position k, counted back to `from`. */
  function Slashes(s: string, from: nat, k: nat): (n: nat)
    requires k <= |s|
  {
    if from < k && s[k - 1] == '\\' then 1 + Slashes(s, from, k - 1) else 0
  }

  lemma {:induction false} SlashesOfStart(p: string, c: string, k: nat)
    requires k <= |p|
    ensures Slashes(p + c, 0, k) == Slashes(p, 0, k)
    decreases k
  {
    if k > 0 && p[k - 1] == '\\' {
      SlashesOfStart(p, c, k - 1);
    }
  }

  /** A quote that is not escaped: an even number of backslashes stands before it. */
  predicate Unescaped(s: string, from: nat, k: nat)
    requires k < |s|
  {
    s[k] == '\"' && Slashes(s, from, k) % 2 == 0
  }

  /** The first unescaped quote from `from` on. */
  ghost predicate IsFirstQuote(s: string, from: nat, q: Option<nat>)
  {
    && (q.Some? ==> from <= q.value < |s| && Unescaped(s, from, q.value))
    && forall m :: from <= m < (if q.Some? && q.value <= |s| then q.value else |s|) ==> !Unescaped(s, from, m)
  }

  lemma {:induction false} QuotePosFrom(s: string, from: nat, i: nat, slash: bool)
    requires from <= i <= |s| && slash == (Slashes(s, from, i) % 2 == 1)
    ensures var q := QuotePos(s, i, slash);
            && (q.Some? ==> Unescaped(s, from, q.value))
            && forall m :: i <= m < (if q.Some? then q.value else |s|) ==> !Unescaped(s, from, m)
    decreases |s| - i
  {
    if i < |s| && !(s[i] == '\"' && !slash) {
      QuotePosFrom(s, from, i + 1, s[i] == '\\' && !slash);
    }
  }

  /** The search finds exactly the first quote after an even run of backslashes. */
  lemma QuotePosIsFirst(s: string, from: nat)
    ensures IsFirstQuote(s, from, QuotePos(s, from, false))
  {
    if from <= |s| {
      QuotePosFrom(s, from, from, false);
    }
  }

  lemma FirstQuoteIsUnique(s: string, from: nat, q: nat)
    requires IsFirstQuote(s, from, Some(q))
    ensures QuotePos(s, from, false) == Some(q)
  {
    hide QuotePos, Unescaped;
    QuotePosIsFirst(s, from);
  }

  // ---------- the end of an array or object ----------

  datatype End = Mismatch(st: Stack) | EndAt(i: nat, st: Stack)

  /** Whether the quote at `i` opens or closes a string, judged from the two characters before it. */
  predicate Toggles(s: string, i: nat)
    requires 0 < i < |s|
  {
    (s[i - 1] != '\\') != (i > 2 && s[i - 1] == '\\' && s[i - 2] == '\\')
  }

  /** The two characters tell an escaped quote from an unescaped one except after an odd run of three or
  more backslashes, where it takes the quote for an unescaped one. */
  lemma TogglesExactly(s: string, i: nat)
    requires 0 < i < |s| && s[0] != '\\'
    ensures Toggles(s, i) <==> Slashes(s, 0, i) % 2 == 0 || Slashes(s, 0, i) >= 3
  {
    if i >= 2 && s[i - 1] == '\\' && s[i - 2] == '\\' {
      assert i > 2;
      assert Slashes(s, 0, i) == 2 + Slashes(s, 0, i - 2);
    }
  }

  /** The scan from `i`; `original` is the stack height at which a closing bracket ends it. */
  function ScanEnd(s: string, i: nat, inQuote: bool, st: Stack, original: nat): (e: End)
    requires 0 < i <= |s| && 0 < original <= |st|
    ensures e.EndAt? ==> i <= e.i <= |s|
    decreases |s| - i
  {
    if i == |s| then EndAt(i, st)
    else if s[i] == '\"' then ScanEnd(s, i + 1, inQuote != Toggles(s, i), st, original)
    else if inQuote then ScanEnd(s, i + 1, inQuote, st, original)
    else if s[i] == '[' then ScanEnd(s, i + 1, inQuote, st + [InArray], original)
    else if s[i] == '{' then ScanEnd(s, i + 1, inQuote, st + [InObject], original)
    else if s[i] == ']' || s[i] == '}' then
      if Top(st) != (if s[i] == ']' then InArray else InObject) then Mismatch(st)
      else if |st| == original then EndAt(i, Pop(st))
      else ScanEnd(s, i + 1, inQuote, Pop(st), original)
    else ScanEnd(s, i + 1, inQuote, st, original)
  }

  // ---------- strings ----------

  function SimpleEscape(c: char): string
  {
    match c
    case '\"' => "\""
    case '\\' => "\\"
    case '/' => "/"
    case 't' => "\t"
    case 'n' => "\n"
    case 'r' => "\r"
    case 'b' => [8 as char]
    case 'f' => [12 as char]
    case _ => ""
  }

  /** The text from `i` on with its escapes resolved. */
  function UnescapeFrom(lib: Lib, s: string, i: nat): (r: Outcome<string>)
    requires i <= |s| + 5
    decreases |s| + 5 - i
  {
    if i >= |s| then Done("")
    else if s[i] == '\\' && i + 1 < |s| then
      if s[i + 1] == 'u' then
        if i + 4 > |s| then Threw
        else
          var hex := s[i + 4..if i + 6 <= |s| then i + 6 else |s|];
          var tail :- UnescapeFrom(lib, s, i + 6);
          Done([lib.hexByte(hex)] + tail)
      else
        var tail :- UnescapeFrom(lib, s, i + 2);
        Done(SimpleEscape(s[i + 1]) + tail)
    else
      var tail :- UnescapeFrom(lib, s, i + 1);
      Done([s[i]] + tail)
  }

  function Unescape(lib: Lib, s: string): (r: Outcome<string>)
  {
    var t :- UnescapeFrom(lib, s, 0);
    Done(Trim(t))
  }

  // ---------- numbers, booleans and null ----------

  datatype Primitive =
    | Rejected(st: Stack)
    | Collected(i: nat, temp: string, hasDot: bool, hasE: bool, st: Stack)

  /** The text so far is `true` or `false` but for its `e`. */
  predicate BooleanStem(temp: string)
  {
    EqualNoCase(CStr(temp), "fals") || EqualNoCase(CStr(temp), "tru")
  }

  predicate IsE(c: char)
  {
    c == 'e' || c == 'E'
  }

  /** The characters at which the loop over a primitive value reports an error. */
  predicate Refused(c: char, temp: string, hasE: bool, digit: bool, st: Stack)
  {
    || (c == '.' && !digit)
    || (IsE(c) && !BooleanStem(temp) && (!digit || hasE))
    || (c == ']' && (st == [] || Top(st) != InArray))
    || (c == '}' && (st == [] || Top(st) != InObject))
    || c == '[' || c == '{'
  }

  /** Collects the characters of a primitive value up to a comma or the end. */
  function ScanPrimitive(s: string, i: nat, temp: string, hasDot: bool, hasE: bool, digit: bool, st: Stack)
    : (p: Primitive)
    requires i <= |s|
    ensures p.Collected? ==> i <= p.i <= |s| && (p.i < |s| ==> s[p.i] == ',')
    ensures p.Collected? ==> forall k :: i <= k < p.i ==> s[k] !in ",[{"
    decreases |s| - i
  {
    if i == |s| || s[i] == ',' then Collected(i, temp, hasDot, hasE, st)
    else if Refused(s[i], temp, hasE, digit, st) then Rejected(st)
    else
      ScanPrimitive(s, i + 1, if IsSpace(s[i]) then temp else temp + [s[i]],
                    hasDot || s[i] == '.', hasE || (IsE(s[i]) && !BooleanStem(temp)), digit || IsDigit(s[i]),
                    if s[i] == ']' || s[i] == '}' then Pop(st) else st)
  }

  /** The value of the collected text; None where the original reports an error. */
  function PrimitiveValue(lib: Lib, temp: string, hasDot: bool, hasE: bool): (v: Option<Value>)
  {
    var c := CStr(temp);
    if EqualNoCase(c, "true") then Some(Bool(true))
    else if EqualNoCase(c, "false") then Some(Bool(false))
    else if hasE || hasDot then DoubleValue(lib, c)
    else if EqualNoCase(c, "null") then Some(Null)
    else match StrToL(c)
      case None => None
      case Some(n) =>
        if n < -1 - lib.longMax || lib.longMax < n then DoubleValue(lib, c)
        else if -0x8000_0000 <= n <= 0x7FFF_FFFF then Some(Int(n))
        else None
  }

  function DoubleValue(lib: Lib, c: string): (v: Option<Value>)
  {
    match lib.strtod(c)
    case None => None
    case Some(d) => Some(Double(d))
  }

  // ---------- the mutually recursive reader ----------

  datatype ValueRead = ValueRead(v: Value, hadError: bool, rest: string, st: Stack)
  datatype NodeRead = NodeRead(v: Value, st: Stack)

  /** A non-empty trimmed text that does not start with a comma is consumed at least in part. */
  predicate MustShrink(s: string)
  {
    Trim(s) != "" && Trim(s)[0] != ','
  }

  function DeserializeValue(lib: Lib, s0: string, st: Stack): (r: Outcome<ValueRead>)
    ensures r.Done? && !r.value.hadError ==> |r.value.rest| <= |s0|
    ensures r.Done? && !r.value.hadError && MustShrink(s0) ==> |r.value.rest| < |s0|
    decreases |s0|, 3
  {
    var s := Trim(s0);
    if s == "" then Done(ValueRead(Null, false, s, st))
    else if s[0] == '[' || s[0] == '{' then
      var frame := if s[0] == '[' then InArray else InObject;
      match ScanEnd(s, 1, false, st + [frame], |st| + 1)
      case Mismatch(st') => Done(ValueRead(Null, true, s, st'))
      case EndAt(i, st') =>
        var text := s[..if i < |s| then i + 1 else i];
        var node :- if s[0] == '[' then DeserializeArray(lib, text, st') else DeserializeInternal(lib, text, st');
        if i + 1 > |s| then Threw else Done(ValueRead(node.v, false, s[i + 1..], node.st))
    else if s[0] == '\"' then
      match QuotePos(s, 1, false)
      case None => Done(ValueRead(Null, true, s, st))
      case Some(q) =>
        var t :- Unescape(lib, s[1..q]);
        Done(ValueRead(Str(t), false, s[q + 1..], st))
    else
      match ScanPrimitive(s, 0, "", false, false, false, st)
      case Rejected(st') => Done(ValueRead(Null, true, s, st'))
      case Collected(i, temp, hasDot, hasE, st') =>
        match PrimitiveValue(lib, temp, hasDot, hasE)
        case None => Done(ValueRead(Null, true, s, st'))
        case Some(v) => Done(ValueRead(v, false, s[i..], st'))
  }

  function DeserializeArray(lib: Lib, s0: string, st: Stack): (r: Outcome<NodeRead>)
    requires s0 != "" && s0[0] == '['
    decreases |s0|, 1
  {
    var s := Trim(s0);
    StartsTheSame(s0);
    if s[|s| - 1] == ']' then ArrayLoop(lib, s[1..|s| - 1], [], st) else Done(NodeRead(Null, st))
  }

  /** The first position from `i` on at which the array loop stops collecting characters. */
  function ArrayStop(s: string, i: nat): (k: nat)
    requires i < |s|
    ensures i <= k < |s| && (s[k] in "{[,]" || k == |s| - 1)
    ensures forall m :: i <= m < k ==> s[m] !in "{[,]"
    decreases |s| - i
  {
    if s[i] in "{[,]" || i == |s| - 1 then i else ArrayStop(s, i + 1)
  }

  function ArrayLoop(lib: Lib, s: string, a: seq<Value>, st: Stack): (r: Outcome<NodeRead>)
    decreases |s|, 4
  {
    if s == "" then Done(NodeRead(Arr(a), st))
    else
      var k := ArrayStop(s, 0);
      if s[k] == '{' || s[k] == '[' then
        BracketShrinks(s, k);
        var r :- DeserializeValue(lib, s, st);
        if r.hadError then Done(NodeRead(Null, r.st))
        else ArrayLoop(lib, r.rest, if r.v.Null? then a else a + [r.v], r.st)
      else
        var tmp := if s[k] in ",]" then s[..k] else s[..k + 1];
        var r :- DeserializeValue(lib, tmp, st);
        if r.hadError then Done(NodeRead(Null, r.st))
        else ArrayLoop(lib, s[k + 1..], if r.v.Null? then a else a + [r.v], r.st)
  }

  function DeserializeObj(lib: Lib, s0: string, st: Stack): (r: Outcome<NodeRead>)
    requires |s0| >= 2 && s0[0] == '{' && s0[|s0| - 1] == '}'
    decreases |s0|, 1
  {
    var s := Trim(s0);
    ObjectLoop(lib, s[1..|s| - 1], [], st)
  }

  /** `str.find(c, i)`. */
  function Find(s: string, c: char, i: nat): (k: Option<nat>)
    ensures k.Some? ==> i <= k.value < |s| && s[k.value] == c
    decreases |s| - i
  {
    if i >= |s| then None else if s[i] == c then Some(i) else Find(s, c, i + 1)
  }

  datatype KeyRead = NoKey | KeyAt(key: string, colon: nat)

  function ReadKey(s: string): (k: KeyRead)
    ensures k.KeyAt? ==> k.colon < |s|
  {
    match QuotePos(s, 0, false)
    case None => NoKey
    case Some(open) =>
      match QuotePos(s, open + 1, false)
      case None => NoKey
      case Some(close) =>
        match Find(s, ':', close)
        case None => NoKey
        case Some(colon) =>
          var key := s[open + 1..close];
          if key == "" then NoKey else KeyAt(key, colon)
  }

  function ObjectLoop(lib: Lib, s: string, obj: seq<Member>, st: Stack): (r: Outcome<NodeRead>)
    decreases |s|, 4
  {
    if s == "" then Done(NodeRead(Obj(obj), st))
    else match ReadKey(s)
      case NoKey => Done(NodeRead(Null, st))
      case KeyAt(key, colon) =>
        var r :- DeserializeValue(lib, s[colon + 1..], st);
        if r.hadError then Done(NodeRead(Null, r.st))
        else ObjectLoop(lib, r.rest, Put(obj, key, r.v), r.st)
  }

  function DeserializeInternal(lib: Lib, s0: string, st: Stack): (r: Outcome<NodeRead>)
    decreases |s0|, 2
  {
    var s := Trim(s0);
    if s != "" && s[0] == '{' then
      if s[|s| - 1] != '}' then Done(NodeRead(Null, st))
      else
        var node :- DeserializeObj(lib, s, st + [InObject]);
        Closed(node, InObject)
    else if s != "" && s[0] == '[' then
      if s[|s| - 1] != ']' then Done(NodeRead(Null, st))
      else
        var node :- DeserializeArray(lib, s, st + [InArray]);
        Closed(node, InArray)
    else Done(NodeRead(Null, st))
  }

  /** A node that was read in full pops its own frame if that is still on top. */
  function Closed(node: NodeRead, frame: Frame): (r: Outcome<NodeRead>)
  {
    if node.v.Null? then Done(node)
    else if node.st == [] then Undefined
    else if Top(node.st) != frame then Done(node)
    else Done(NodeRead(node.v, Pop(node.st)))
  }

  function Deserialize(lib: Lib, s: string): (r: Outcome<Value>)
  {
    var node :- DeserializeInternal(lib, s, []);
    Done(node.v)
  }

  // ---------- why the loops shorten their text ----------

  lemma {:induction false} StartsTheSame(s: string)
    requires s != "" && !IsSpace(s[0])
    ensures Trim(s) != "" && Trim(s)[0] == s[0]
    decreases |s|
  {
    if IsSpace(s[|s| - 1]) {
      StartsTheSame(s[..|s| - 1]);
    }
  }

  /** Text before the first bracket holds no comma, so the value read there consumes something. */
  lemma {:induction false} BracketShrinks(s: string, k: nat)
    requires k < |s| && (s[k] == '{' || s[k] == '[')
    requires forall m :: 0 <= m < k ==> s[m] != ','
    ensures MustShrink(s)
    decreases |s|
  {
    if IsSpace(s[0]) {
      BracketShrinks(s[1..], k - 1);
    } else {
      StartsTheSame(s);
    }
  }
}
