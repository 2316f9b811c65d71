/** Values the printer can print so that the reader understands them, and what the reader makes of them. */
module JsonRoundTrip {
  import opened Decimals
  import opened JsonValue
  import opened Wrappers
  import opened JsonPrint
  import opened JsonRead
  import opened JsonText
  import opened JsonTextLoops

  /** No floating-point numbers, and every string and key such that the quotes around it are the ones found: any text
  without quotes that does not end in an odd number of backslashes, and some with escaped quotes. */
  predicate Printable(lib: Lib, v: Value)
    decreases v
  {
    match v
    case Str(t) => Body(t) && Unescape(lib, t).Done?
    case Float(_) => false
    case Double(_) => false
    case Obj(ms) => KeysIncrease(ms) && forall i :: 0 <= i < |ms| ==> Body(ms[i].key) && Printable(lib, ms[i].value)
    case Arr(vs) => forall i :: 0 <= i < |vs| ==> Printable(lib, vs[i])
    case _ => true
  }

  predicate Cut(v: Value)
  {
    v.Str? && !ElementText(v.text)
  }

  predicate HasEmptyKey(ms: seq<Member>)
  {
    exists i :: 0 <= i < |ms| && ms[i].key == ""
  }

  predicate HasCut(vs: seq<Value>)
  {
    exists i :: 0 <= i < |vs| && Cut(vs[i])
  }

  /** What reading makes of a value: strings are unescaped and trimmed, an object with an empty key and an array with
  a cut string become null, and what becomes null inside an array is dropped. */
  function Normalize(lib: Lib, v: Value): (n: Value)
    decreases v
  {
    match v
    case Str(t) => Str(if Unescape(lib, t).Done? then Unescape(lib, t).value else "")
    case Obj(ms) => if HasEmptyKey(ms) then Null else Obj(NormalizeMembers(lib, ms))
    case Arr(vs) => if HasCut(vs) then Null else Arr(NormalizeItems(lib, vs))
    case _ => v
  }

  function NormalizeMembers(lib: Lib, ms: seq<Member>): (ns: seq<Member>)
    ensures |ns| == |ms|
    ensures forall i :: 0 <= i < |ms| ==> ns[i] == Member(ms[i].key, Normalize(lib, ms[i].value))
    decreases ms
  {
    if ms == [] then []
    else [Member(ms[0].key, Normalize(lib, ms[0].value))] + NormalizeMembers(lib, ms[1..])
  }

  function NormalizeItems(lib: Lib, vs: seq<Value>): (ns: seq<Value>)
    ensures |ns| <= |vs|
    decreases vs
  {
    if vs == [] then []
    else (if Normalize(lib, vs[0]).Null? then [] else [Normalize(lib, vs[0])]) + NormalizeItems(lib, vs[1..])
  }

  // ---------- values that are their own normal form ----------

  /** Nothing to unescape or to trim, no empty key, and no null and no cut string inside an array. */
  predicate Clean(v: Value)
    decreases v
  {
    match v
    case Str(t) => '\\' !in t && Trimmed(t)
    case Obj(ms) => !HasEmptyKey(ms) && forall i :: 0 <= i < |ms| ==> Clean(ms[i].value)
    case Arr(vs) => !HasCut(vs) && forall i :: 0 <= i < |vs| ==> !vs[i].Null? && Clean(vs[i])
    case _ => true
  }

  lemma {:induction false} UnescapePlain(lib: Lib, s: string, i: nat)
    requires i <= |s| && '\\' !in s
    ensures UnescapeFrom(lib, s, i) == Done(s[i..])
    decreases |s| - i
  {
    assert |s| <= i || s[i] in s;
    if i == |s| {
      assert s[i..] == "";
    } else {
      UnescapePlain(lib, s, i + 1);
      assert s[i..] == [s[i]] + s[i + 1..];
    }
  }

  lemma {:induction false} UnescapeNeverGrows(lib: Lib, s: string, i: nat)
    requires i <= |s| + 5
    ensures var r := UnescapeFrom(lib, s, i); r.Done? ==> |r.value| <= if i <= |s| then |s| - i else 0
    decreases |s| + 5 - i
  {
    if i < |s| {
      UnescapeNeverGrows(lib, s, i + 1);
      if i + 1 < |s| {
        UnescapeNeverGrows(lib, s, i + 2);
        if i + 4 <= |s| {
          UnescapeNeverGrows(lib, s, i + 6);
        }
      }
    }
  }

  /** Resolving an escape makes the text shorter. */
  lemma {:induction false} UnescapeShortens(lib: Lib, s: string, i: nat, k: nat)
    requires i <= k && k + 1 < |s| && s[k] == '\\' && forall m :: i <= m < k ==> s[m] != '\\'
    ensures var r := UnescapeFrom(lib, s, i); r.Done? ==> |r.value| < |s| - i
    decreases k - i
  {
    if i < k {
      UnescapeShortens(lib, s, i + 1, k);
    } else {
      UnescapeNeverGrows(lib, s, i + 2);
      if i + 4 <= |s| {
        UnescapeNeverGrows(lib, s, i + 6);
      }
    }
  }

  lemma {:induction false} FirstSlash(s: string) returns (k: nat)
    requires '\\' in s
    ensures k < |s| && s[k] == '\\' && forall m :: 0 <= m < k ==> s[m] != '\\'
  {
    k := 0;
    if s[0] != '\\' {
      k := FirstSlash(s[1..]);
      k := k + 1;
      assert forall m :: 1 <= m < k ==> s[m] == s[1..][m - 1];
    }
  }

  lemma OneSlash(s: string, k: nat)
    requires k < |s| && s[k] == '\\' && forall m :: 0 <= m < k ==> s[m] != '\\'
    ensures Slashes(s, 0, k + 1) == 1
  {
  }

  /** A string survives unescaping and trimming exactly when there is nothing to do. */
  lemma StringKept(lib: Lib, t: string)
    requires Body(t)
    ensures Unescape(lib, t) == Done(t) <==> '\\' !in t && Trimmed(t)
  {
    hide UnescapeFrom;
    if '\\' !in t {
      UnescapePlain(lib, t, 0);
      assert t[0..] == t;
    } else {
      var k := FirstSlash(t);
      OneSlash(t, k);
      UnescapeShortens(lib, t, 0, k);
    }
  }

  lemma {:induction false} CleanIsNormal(lib: Lib, v: Value)
    requires Printable(lib, v)
    ensures Clean(v) <==> Normalize(lib, v) == v
    decreases v, 1
  {
    hide Unescape, Body, Trimmed;
    match v {
      case Str(t) => StringKept(lib, t);
      case Obj(ms) =>
        forall i | 0 <= i < |ms| ensures Clean(ms[i].value) <==> Normalize(lib, ms[i].value) == ms[i].value {
          CleanIsNormal(lib, ms[i].value);
        }
        if Normalize(lib, v) == v {
          assert forall i :: 0 <= i < |ms| ==> NormalizeMembers(lib, ms)[i] == ms[i];
        }
      case Arr(vs) => CleanItems(lib, vs);
      case _ =>
    }
  }

  lemma {:induction false} CleanItems(lib: Lib, vs: seq<Value>)
    requires forall i :: 0 <= i < |vs| ==> Printable(lib, vs[i])
    ensures (forall i :: 0 <= i < |vs| ==> !vs[i].Null? && Clean(vs[i])) <==> NormalizeItems(lib, vs) == vs
    decreases vs, 0
  {
    hide Normalize, Clean, Printable;
    if vs != [] {
      var ns := NormalizeItems(lib, vs);
      CleanIsNormal(lib, vs[0]);
      CleanItems(lib, vs[1..]);
      assert vs == [vs[0]] + vs[1..];
      assert ns == vs ==> ns[0] == vs[0] && ns[1..] == vs[1..];
      if !Normalize(lib, vs[0]).Null? {
        assert ns[1..] == NormalizeItems(lib, vs[1..]);
      }
    }
  }

  // ---------- the text of a printed value ----------

  function IntNumber(i: int): Number
  {
    Number(i < 0, Digits(if i < 0 then -i else i), "", "")
  }

  lemma IntSource(i: int)
    ensures IsNumber(IntNumber(i)) && NumberSource(IntNumber(i)) == DecimalText(i)
  {
    var d := Digits(if i < 0 then -i else i);
    assert "" + d + "" + "" == d && "-" + d + "" + "" == "-" + d;
  }

  /** A printed value is a text without white space. */
  function TreeOf(v: Value): Tree
    decreases v
  {
    match v
    case Int(i) => Num(IntNumber(i))
    case Str(t) => Quoted(t)
    case Obj(ms) => Braces("", FieldsOf(ms))
    case Arr(vs) => Brackets("", ItemsOf(vs))
    case _ => Word(v)
  }

  function FieldsOf(ms: seq<Member>): (fs: seq<Field>)
    ensures |fs| == |ms|
    ensures forall i :: 0 <= i < |ms| ==> fs[i] == Field("", ms[i].key, "", Spaced("", TreeOf(ms[i].value), ""))
    decreases ms
  {
    if ms == [] then []
    else [Field("", ms[0].key, "", Spaced("", TreeOf(ms[0].value), ""))] + FieldsOf(ms[1..])
  }

  function ItemsOf(vs: seq<Value>): (xs: seq<Spaced>)
    ensures |xs| == |vs|
    ensures forall i :: 0 <= i < |vs| ==> xs[i] == Spaced("", TreeOf(vs[i]), "")
    decreases vs
  {
    if vs == [] then [] else [Spaced("", TreeOf(vs[0]), "")] + ItemsOf(vs[1..])
  }

  lemma {:induction false} TreeFormed(lib: Lib, v: Value)
    requires Printable(lib, v)
    ensures Formed(lib, TreeOf(v))
    decreases v
  {
    NoSpaces();
    hide Body, AllSpace, Unescape, IsNumber;
    match v {
      case Int(i) => IntSource(i);
      case Obj(ms) =>
        forall i | 0 <= i < |ms| ensures FormedField(lib, FieldsOf(ms)[i]) {
          TreeFormed(lib, ms[i].value);
        }
      case Arr(vs) =>
        forall i | 0 <= i < |vs| ensures FormedSpaced(lib, ItemsOf(vs)[i]) {
          TreeFormed(lib, vs[i]);
        }
      case _ =>
    }
  }

  lemma {:induction false} TreePrints(lib: Lib, v: Value)
    requires Printable(lib, v)
    ensures Source(TreeOf(v)) == ValueText(lib, v)
    decreases v, 1
  {
    hide Body, Unescape;
    match v {
      case Obj(ms) => FieldsPrint(lib, ms);
      case Arr(vs) => ItemsPrint(lib, vs);
      case Int(i) => IntSource(i);
      case _ =>
    }
  }

  lemma {:induction false} FieldsPrint(lib: Lib, ms: seq<Member>)
    requires forall i :: 0 <= i < |ms| ==> Printable(lib, ms[i].value)
    ensures FieldsSource(FieldsOf(ms)) == MembersText(lib, ms)
    decreases ms, 0
  {
    hide Printable, ValueText, Source, TreeOf;
    if ms != [] {
      TreePrints(lib, ms[0].value);
      FieldsPrint(lib, ms[1..]);
      var f := FieldsOf(ms)[0];
      assert FieldsOf(ms)[1..] == FieldsOf(ms[1..]);
      assert FieldSource(f) == "\"" + ms[0].key + "\":" + ValueText(lib, ms[0].value);
    }
  }

  lemma {:induction false} ItemsPrint(lib: Lib, vs: seq<Value>)
    requires forall i :: 0 <= i < |vs| ==> Printable(lib, vs[i])
    ensures ItemsSource(ItemsOf(vs)) == ItemsText(lib, vs)
    decreases vs, 0
  {
    hide Printable, ValueText, Source, TreeOf;
    if vs != [] {
      TreePrints(lib, vs[0]);
      ItemsPrint(lib, vs[1..]);
      assert ItemsOf(vs)[1..] == ItemsOf(vs[1..]);
      assert SpacedSource(ItemsOf(vs)[0]) == ValueText(lib, vs[0]);
    }
  }

  // ---------- what it is taken for ----------

  lemma IntTaken(lib: Lib, i: int32)
    requires lib.longMax >= 0x7FFF_FFFF
    ensures Taken(lib, TreeOf(Int(i))) == Some(Int(i))
  {
    hide StrToL;
    var t := DecimalText(i);
    IntSource(i);
    assert '\0' !in t;
    CStrWhole(t);
    DecimalRead(i);
    assert Lower(t[0]) == t[0];
    hide DecimalText;
  }

  lemma {:induction false} TreeTaken(lib: Lib, v: Value)
    requires Printable(lib, v) && lib.longMax >= 0x7FFF_FFFF
    ensures Taken(lib, TreeOf(v)) == Some(Normalize(lib, v))
    decreases v, 1
  {
    hide Body, Unescape, NumberTaken, FieldsTaken, ItemsTaken, BadFields, BadItems, HasEmptyKey, HasCut,
         NormalizeMembers, NormalizeItems, FieldsOf, ItemsOf;
    match v {
      case Int(i) => IntTaken(lib, i);
      case Obj(ms) =>
        FieldsTakenFor(lib, ms, []);
        EmptyKeyIsBad(lib, ms);
        assert [] + NormalizeMembers(lib, ms) == NormalizeMembers(lib, ms);
      case Arr(vs) =>
        ItemsTakenFor(lib, vs);
        CutIsBad(lib, vs);
      case _ =>
    }
  }

  lemma {:induction false} EmptyKeyIsBad(lib: Lib, ms: seq<Member>)
    requires forall i :: 0 <= i < |ms| ==> Printable(lib, ms[i].value)
    requires lib.longMax >= 0x7FFF_FFFF
    ensures BadFields(lib, FieldsOf(ms)) <==> HasEmptyKey(ms)
    decreases ms, 0
  {
    hide Taken, TreeOf, Printable, Normalize;
    forall i | 0 <= i < |ms| ensures Taken(lib, FieldsOf(ms)[i].value.tree).Some? {
      TreeTaken(lib, ms[i].value);
    }
    if HasEmptyKey(ms) {
      var i :| 0 <= i < |ms| && ms[i].key == "";
      assert FieldsOf(ms)[i].key == "";
    }
  }

  lemma {:induction false} CutIsBad(lib: Lib, vs: seq<Value>)
    requires forall i :: 0 <= i < |vs| ==> Printable(lib, vs[i])
    requires lib.longMax >= 0x7FFF_FFFF
    ensures BadItems(lib, ItemsOf(vs)) <==> HasCut(vs)
    decreases vs, 0
  {
    hide Taken, Printable, Normalize, ElementText;
    forall i | 0 <= i < |vs| ensures Taken(lib, ItemsOf(vs)[i].tree).Some? && (CutTree(TreeOf(vs[i])) <==> Cut(vs[i])) {
      TreeTaken(lib, vs[i]);
    }
    if HasCut(vs) {
      var i :| 0 <= i < |vs| && Cut(vs[i]);
      assert CutTree(ItemsOf(vs)[i].tree);
    }
  }

  /** Every key of `obj` is below every key of `ms`. */
  predicate AllBelow(obj: seq<Member>, ms: seq<Member>)
  {
    forall i, j :: 0 <= i < |obj| && 0 <= j < |ms| ==> KeyLess(obj[i].key, ms[j].key)
  }

  lemma PutFirst(obj: seq<Member>, ms: seq<Member>, v: Value)
    requires KeysIncrease(ms) && AllBelow(obj, ms) && ms != []
    ensures Put(obj, ms[0].key, v) == obj + [Member(ms[0].key, v)]
    ensures KeysIncrease(ms[1..]) && AllBelow(obj + [Member(ms[0].key, v)], ms[1..])
  {
    hide KeyLess;
    PutAtEnd(obj, ms[0].key, v);
  }

  lemma NoMembers(lib: Lib, obj: seq<Member>)
    ensures FieldsTaken(lib, FieldsOf([]), obj) == obj + NormalizeMembers(lib, [])
  {
  }

  lemma OneMember(lib: Lib, ms: seq<Member>, obj: seq<Member>)
    requires ms != [] && Taken(lib, TreeOf(ms[0].value)) == Some(Normalize(lib, ms[0].value))
    ensures var m := Member(ms[0].key, Normalize(lib, ms[0].value));
            && FieldsTaken(lib, FieldsOf(ms), obj) == FieldsTaken(lib, FieldsOf(ms[1..]), Put(obj, m.key, m.value))
            && obj + NormalizeMembers(lib, ms) == obj + [m] + NormalizeMembers(lib, ms[1..])
  {
    hide Taken, TreeOf, Normalize, Put;
    assert FieldsOf(ms)[1..] == FieldsOf(ms[1..]);
    var m, y := Member(ms[0].key, Normalize(lib, ms[0].value)), NormalizeMembers(lib, ms[1..]);
    assert NormalizeMembers(lib, ms) == [m] + y;
    hide NormalizeMembers, FieldsOf, FieldsTaken;
    Associates(obj, [m], y);
  }

  lemma {:induction false} FieldsTakenFor(lib: Lib, ms: seq<Member>, obj: seq<Member>)
    requires forall i :: 0 <= i < |ms| ==> Printable(lib, ms[i].value)
    requires KeysIncrease(ms) && AllBelow(obj, ms) && lib.longMax >= 0x7FFF_FFFF
    ensures FieldsTaken(lib, FieldsOf(ms), obj) == obj + NormalizeMembers(lib, ms)
    decreases ms, 0
  {
    hide Taken, TreeOf, Printable, Normalize, KeysIncrease, AllBelow, Put, FieldsOf, NormalizeMembers, FieldsTaken;
    if ms == [] {
      NoMembers(lib, obj);
    } else {
      var m := Member(ms[0].key, Normalize(lib, ms[0].value));
      TreeTaken(lib, ms[0].value);
      PutFirst(obj, ms, m.value);
      FieldsTakenFor(lib, ms[1..], obj + [m]);
      OneMember(lib, ms, obj);
    }
  }

  lemma {:induction false} ItemsTakenFor(lib: Lib, vs: seq<Value>)
    requires forall i :: 0 <= i < |vs| ==> Printable(lib, vs[i])
    requires lib.longMax >= 0x7FFF_FFFF
    ensures ItemsTaken(lib, ItemsOf(vs)) == NormalizeItems(lib, vs)
    decreases vs, 0
  {
    hide Taken, TreeOf, Printable, Normalize;
    if vs != [] {
      TreeTaken(lib, vs[0]);
      assert ItemsOf(vs)[1..] == ItemsOf(vs[1..]);
      ItemsTakenFor(lib, vs[1..]);
    }
  }
}
