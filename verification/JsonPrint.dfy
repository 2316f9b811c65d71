/** The printer: no escaping, members in key order. */
module JsonPrint {
  import opened JsonValue

  function ValueText(lib: Lib, v: Value): (s: string)
    decreases v
  {
    match v
    case Int(i) => DecimalText(i)
    case Float(r) => lib.percentF(r)
    case Double(r) => lib.percentF(r)
    case Bool(b) => if b then "true" else "false"
    case Null => "null"
    case Str(t) => "\"" + t + "\""
    case Obj(ms) => "{" + MembersText(lib, ms) + "}"
    case Arr(vs) => "[" + ItemsText(lib, vs) + "]"
  }

  function MembersText(lib: Lib, ms: seq<Member>): (s: string)
    decreases ms
  {
    if ms == [] then ""
    else "\"" + ms[0].key + "\":" + ValueText(lib, ms[0].value)
         + if |ms| > 1 then "," + MembersText(lib, ms[1..]) else ""
  }

  function ItemsText(lib: Lib, vs: seq<Value>): (s: string)
    decreases vs
  {
    if vs == [] then ""
    else ValueText(lib, vs[0]) + if |vs| > 1 then "," + ItemsText(lib, vs[1..]) else ""
  }

  /** Only an object or an array is JSON to this library; anything else prints as nothing. */
  function DocumentText(lib: Lib, v: Value): (s: string)
  {
    if v.Obj? || v.Arr? then ValueText(lib, v) else ""
  }

  /** What remains to be appended once the members or items before it are printed. */
  function Joined(first: bool, text: string): string
  {
    if first then text else "," + text
  }

  function MemberText(lib: Lib, m: Member): string
  {
    "\"" + m.key + "\":" + ValueText(lib, m.value)
  }

  lemma MembersFrom(lib: Lib, ms: seq<Member>, i: nat)
    requires i < |ms|
    ensures MembersText(lib, ms[i..])
            == MemberText(lib, ms[i]) + if i + 1 < |ms| then "," + MembersText(lib, ms[i + 1..]) else ""
  {
    hide ValueText;
    assert ms[i..][1..] == ms[i + 1..];
  }

  lemma ItemsFrom(lib: Lib, vs: seq<Value>, i: nat)
    requires i < |vs|
    ensures ItemsText(lib, vs[i..])
            == ValueText(lib, vs[i]) + if i + 1 < |vs| then "," + ItemsText(lib, vs[i + 1..]) else ""
  {
    hide ValueText;
    assert vs[i..][1..] == vs[i + 1..];
  }

  // ---------- where a part stands in the printed text ----------

  lemma {:induction false} ItemsSplit(lib: Lib, vs: seq<Value>, i: nat)
    requires i < |vs|
    ensures ItemsText(lib, vs) == ItemsText(lib, vs[..i]) + (if i > 0 then "," else "") + ItemsText(lib, vs[i..])
    decreases i
  {
    hide ItemsText, ValueText;
    NothingPrinted(lib);
    if i == 0 {
      assert vs[..0] == [] && vs[0..] == vs;
    } else {
      ItemsSplit(lib, vs[1..], i - 1);
      assert vs[..i][1..] == vs[1..][..i - 1] && vs[1..][i - 1..] == vs[i..];
      FirstItem(lib, vs);
      FirstItem(lib, vs[..i]);
      Regroup(ValueText(lib, vs[0]), ItemsText(lib, vs[1..][..i - 1]), ItemsText(lib, vs[i..]));
      assert i == 1 ==> vs[1..][..0] == [];
    }
  }

  lemma {:induction false} MembersSplit(lib: Lib, ms: seq<Member>, i: nat)
    requires i < |ms|
    ensures MembersText(lib, ms) == MembersText(lib, ms[..i]) + (if i > 0 then "," else "") + MembersText(lib, ms[i..])
    decreases i
  {
    hide MembersText, MemberText;
    NothingPrinted(lib);
    if i == 0 {
      assert ms[..0] == [] && ms[0..] == ms;
    } else {
      MembersSplit(lib, ms[1..], i - 1);
      assert ms[..i][1..] == ms[1..][..i - 1] && ms[1..][i - 1..] == ms[i..];
      FirstMember(lib, ms);
      FirstMember(lib, ms[..i]);
      Regroup(MemberText(lib, ms[0]), MembersText(lib, ms[1..][..i - 1]), MembersText(lib, ms[i..]));
      assert i == 1 ==> ms[1..][..0] == [];
    }
  }

  lemma NothingPrinted(lib: Lib)
    ensures ItemsText(lib, []) == "" == MembersText(lib, [])
  {
  }

  lemma Regroup(h: string, a: string, b: string)
    ensures h + ("," + (a + "," + b)) == h + ("," + a) + "," + b
    ensures h + ("," + ("" + "" + b)) == h + "" + "," + b
  {
  }

  lemma FirstItem(lib: Lib, vs: seq<Value>)
    requires vs != []
    ensures ItemsText(lib, vs) == ValueText(lib, vs[0]) + if |vs| > 1 then "," + ItemsText(lib, vs[1..]) else ""
  {
    hide ValueText;
  }

  lemma FirstMember(lib: Lib, ms: seq<Member>)
    requires ms != []
    ensures MembersText(lib, ms) == MemberText(lib, ms[0]) + if |ms| > 1 then "," + MembersText(lib, ms[1..]) else ""
  {
    hide ValueText;
  }

  /** A floating-point number of either kind is printed by `%f` as itself. */
  predicate IsFloating(v: Value, r: real)
  {
    v == Value.Float(r) || v == Value.Double(r)
  }

  /** Between what is printed of the items before it and after it. */
  lemma FloatInArray(lib: Lib, vs: seq<Value>, i: nat, r: real)
    requires i < |vs| && IsFloating(vs[i], r)
    ensures ValueText(lib, Arr(vs)) ==
            "[" + (ItemsText(lib, vs[..i]) + (if i > 0 then "," else "")
                   + (lib.percentF(r) + if i + 1 < |vs| then "," + ItemsText(lib, vs[i + 1..]) else "")) + "]"
  {
    hide ItemsText;
    ItemsSplit(lib, vs, i);
    ItemsFrom(lib, vs, i);
  }

  /** After its key, between what is printed of the members before it and after it. */
  lemma FloatInObject(lib: Lib, ms: seq<Member>, i: nat, r: real)
    requires i < |ms| && IsFloating(ms[i].value, r)
    ensures ValueText(lib, Obj(ms)) ==
            "{" + (MembersText(lib, ms[..i]) + (if i > 0 then "," else "")
                   + ("\"" + ms[i].key + "\":" + lib.percentF(r)
                      + if i + 1 < |ms| then "," + MembersText(lib, ms[i + 1..]) else "")) + "}"
  {
    hide MembersText;
    MembersSplit(lib, ms, i);
    MembersFrom(lib, ms, i);
  }

  method SerializeValue(lib: Lib, v: Value) returns (str: string)
    ensures str == ValueText(lib, v)
    decreases v, 1
  {
    match v {
      case Int(i) => str := DecimalText(i);
      case Float(r) => str := lib.percentF(r);
      case Double(r) => str := lib.percentF(r);
      case Bool(b) => str := if b then "true" else "false";
      case Null => str := "null";
      case Obj(_) => str := Serialize(lib, v);
      case Arr(vs) => str := SerializeArray(lib, vs);
      case Str(t) => str := "\"" + t + "\"";
    }
  }

  method SerializeArray(lib: Lib, a: seq<Value>) returns (str: string)
    ensures str == "[" + ItemsText(lib, a) + "]"
    decreases a, 0
  {
    hide ItemsText, ValueText;
    str := "[";
    EmptyTexts(lib);
    assert a[0..] == a;
    var first := true;
    var i := 0;
    while i < |a|
      invariant 0 <= i <= |a| && first == (i == 0)
      invariant i < |a| ==> str + Joined(first, ItemsText(lib, a[i..])) == "[" + ItemsText(lib, a)
      invariant i == |a| ==> str == "[" + ItemsText(lib, a)
    {
      ItemsFrom(lib, a, i);
      if !first {
        str := str + ",";
      }
      var text := SerializeValue(lib, a[i]);
      str := str + text;
      first := false;
      i := i + 1;
    }
    str := str + "]";
  }

  lemma EmptyTexts(lib: Lib)
    ensures MembersText(lib, []) == "" && ItemsText(lib, []) == ""
  {
  }

  lemma DocumentIs(lib: Lib, v: Value)
    ensures DocumentText(lib, v) == if v.Obj? then "{" + MembersText(lib, v.members) + "}"
                                    else if v.Arr? then "[" + ItemsText(lib, v.items) + "]"
                                    else ""
  {
  }

  method Serialize(lib: Lib, v: Value) returns (str: string)
    ensures str == DocumentText(lib, v)
    decreases v, 0
  {
    DocumentIs(lib, v);
    hide DocumentText, MembersText, ItemsText, ValueText;
    str := "";
    var first := true;
    if v.Obj? {
      str := "{";
      EmptyTexts(lib);
      var obj := v.members;
      assert obj[0..] == obj;
      var i := 0;
      while i < |obj|
        invariant 0 <= i <= |obj| && first == (i == 0)
        invariant i < |obj| ==> str + Joined(first, MembersText(lib, obj[i..])) == "{" + MembersText(lib, obj)
        invariant i == |obj| ==> str == "{" + MembersText(lib, obj)
      {
        MembersFrom(lib, obj, i);
        ghost var before := str;
        if !first {
          str := str + ",";
        }
        var text := SerializeValue(lib, obj[i].value);
        var member := "\"" + obj[i].key + "\":" + text;
        assert member == MemberText(lib, obj[i]);
        str := str + member;
        assert i + 1 < |obj| ==>
            str + ("," + MembersText(lib, obj[i + 1..])) == before + Joined(first, MembersText(lib, obj[i..]));
        first := false;
        i := i + 1;
      }
      str := str + "}";
    } else if v.Arr? {
      str := SerializeArray(lib, v.items);
    }
  }
}
