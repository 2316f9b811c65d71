/** JSON values as the library stores them, and the character-level helpers of the reader. */
module JsonValue {
  import opened Decimals
  import opened Wrappers

  type int32 = x: int | -0x8000_0000 <= x <= 0x7FFF_FFFF

  /** An object is a `std::map`: its members are kept in strictly increasing key order. */
  datatype Value =
    | Null
    | Str(text: string)
    | Int(num: int32)
    | Float(float: real)
    | Double(double: real)
    | Obj(members: seq<Member>)
    | Arr(items: seq<Value>)
    | Bool(truth: bool)

  datatype Member = Member(key: string, value: Value)

  /** The C library, where the reader and the printer call it:
  `strtod` over a whole string (None when it fails or stops early), `%f`,
  the byte for two hexadecimal digits, and LONG_MAX. */
  datatype Lib = Lib(strtod: string -> Option<real>, percentF: real -> string, hexByte: string -> char, longMax: nat)

  // ---------- keys ----------

  /** `std::string::operator<`. */
  predicate KeyLess(a: string, b: string)
  {
    if b == [] then false
    else if a == [] then true
    else a[0] < b[0] || (a[0] == b[0] && KeyLess(a[1..], b[1..]))
  }

  /** `obj[key] = v`: replaces the member or inserts it in key order. */
  function Put(ms: seq<Member>, key: string, v: Value): (r: seq<Member>)
  {
    if ms == [] then [Member(key, v)]
    else if ms[0].key == key then [Member(key, v)] + ms[1..]
    else if KeyLess(key, ms[0].key) then [Member(key, v)] + ms
    else [ms[0]] + Put(ms[1..], key, v)
  }

  predicate KeysIncrease(ms: seq<Member>)
  {
    forall i, j :: 0 <= i < j < |ms| ==> KeyLess(ms[i].key, ms[j].key)
  }

  lemma {:induction false} KeyLessAsymmetric(a: string, b: string)
    requires KeyLess(a, b)
    ensures !KeyLess(b, a) && a != b
  {
    if a != [] && a[0] == b[0] {
      KeyLessAsymmetric(a[1..], b[1..]);
    }
  }

  /** A key above all present ones goes to the end. */
  lemma {:induction false} PutAtEnd(ms: seq<Member>, key: string, v: Value)
    requires forall i :: 0 <= i < |ms| ==> KeyLess(ms[i].key, key)
    ensures Put(ms, key, v) == ms + [Member(key, v)]
  {
    if ms != [] {
      KeyLessAsymmetric(ms[0].key, key);
      PutAtEnd(ms[1..], key, v);
    }
  }

  // ---------- characters and trimming ----------

  /** Blank, tab, line feed, vertical tab, form feed and carriage return. */
  predicate IsSpace(c: char): (space: bool)
    ensures space <==> c as int in {32, 9, 10, 11, 12, 13}
  {
    c == ' ' || '\t' <= c <= '\r'
  }

  function Lower(c: char): char
  {
    if 'A' <= c <= 'Z' then c + 32 as char else c
  }

  predicate EqualNoCase(a: string, b: string)
  {
    |a| == |b| && forall i :: 0 <= i < |a| ==> Lower(a[i]) == Lower(b[i])
  }

  /** Neither empty-ended: no white space at either end. */
  predicate Trimmed(s: string)
  {
    s == "" || (!IsSpace(s[0]) && !IsSpace(s[|s| - 1]))
  }

  function Trim(s: string): (t: string)
    ensures |t| <= |s| && Trimmed(t)
    ensures Trimmed(s) ==> t == s
    decreases |s|
  {
    if s == "" then s
    else if IsSpace(s[0]) then Trim(s[1..])
    else if IsSpace(s[|s| - 1]) then Trim(s[..|s| - 1])
    else s
  }

  predicate AllSpace(s: string)
  {
    forall i :: 0 <= i < |s| ==> IsSpace(s[i])
  }

  lemma NoSpaces()
    ensures AllSpace("")
  {
  }

  lemma OneSpace(c: char)
    requires IsSpace(c)
    ensures AllSpace([c])
  {
  }

  lemma SpacesJoin(a: string, b: string)
    requires AllSpace(a) && AllSpace(b)
    ensures AllSpace(a + b)
  {
  }

  /** Only white space is cut off, and all of it at both ends. */
  lemma {:induction false} TrimCutsSpace(s: string) returns (before: string, after: string)
    ensures s == before + Trim(s) + after && AllSpace(before) && AllSpace(after)
    decreases |s|
  {
    hide AllSpace;
    before, after := "", "";
    assert AllSpace("") by { NoSpaces(); }
    if s != "" && IsSpace(s[0]) {
      var b, a := TrimCutsSpace(s[1..]);
      before, after := [s[0]] + b, a;
      OneSpace(s[0]);
      SpacesJoin([s[0]], b);
      SplitFirst(s, b, Trim(s[1..]), a);
    } else if s != "" && IsSpace(s[|s| - 1]) {
      var b, a := TrimCutsSpace(s[..|s| - 1]);
      before, after := b, a + [s[|s| - 1]];
      OneSpace(s[|s| - 1]);
      SpacesJoin(a, [s[|s| - 1]]);
      SplitLast(s, b, Trim(s[..|s| - 1]), a);
    }
  }

  lemma SplitFirst(s: string, b: string, t: string, a: string)
    requires s != "" && s[1..] == b + t + a
    ensures s == [s[0]] + b + t + a
  {
    assert s == [s[0]] + s[1..];
  }

  lemma SplitLast(s: string, b: string, t: string, a: string)
    requires s != "" && s[..|s| - 1] == b + t + a
    ensures s == b + t + (a + [s[|s| - 1]])
  {
    assert s == s[..|s| - 1] + [s[|s| - 1]];
  }

  /** A C string ends at its first zero byte. */
  function CStr(s: string): (c: string)
    ensures |c| <= |s|
  {
    if s == "" || s[0] == '\0' then "" else [s[0]] + CStr(s[1..])
  }

  lemma {:induction false} CStrWhole(s: string)
    requires '\0' !in s
    ensures CStr(s) == s
  {
    if s != "" {
      CStrWhole(s[1..]);
    }
  }

  // ---------- decimal integers ----------

  /** `%d`. */
  function DecimalText(i: int): (s: string)
    ensures s != ""
    ensures forall k :: 0 <= k < |s| ==> IsDigit(s[k]) || (k == 0 && s[k] == '-')
  {
    if i < 0 then "-" + Digits(-i) else Digits(i)
  }

  /** `strtol` on text without white space: the number if it reads the text to its end. */
  function StrToL(c: string): (r: Option<int>)
  {
    if c == "" then Some(0)
    else
      var signed := c[0] == '-' || c[0] == '+';
      var ds := if signed then c[1..] else c;
      if ds == "" || !AllDigits(ds) then None
      else
        var n: int := DigitsValue(ds);
        Some(if c[0] == '-' then -n else n)
  }

  /** `strtol` reads back what `%d` printed. */
  lemma DecimalRead(i: int)
    ensures StrToL(DecimalText(i)) == Some(i)
  {
    if i < 0 {
      DigitsRead(-i);
      assert DecimalText(i)[1..] == Digits(-i);
    } else {
      DigitsRead(i);
      assert IsDigit(Digits(i)[0]);
    }
  }
}
