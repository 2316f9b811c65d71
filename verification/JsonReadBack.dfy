/** The reader undoes the printer. */
module JsonReadBack {
  import opened JsonValue
  import opened JsonPrint
  import opened JsonRead
  import opened JsonText
  import opened JsonTextRead
  import opened JsonTextLoops
  import opened JsonRoundTrip

  predicate IsContainer(v: Value)
  {
    v.Obj? || v.Arr?
  }

  /** A printed value is read as its normal form and nothing after it is touched. Reading an object with an empty
  key leaves its frame behind, so the stack may grow, but nothing below is lost. */
  lemma ReadValue(lib: Lib, v: Value, rest: string, st: Stack) returns (st': Stack)
    requires Printable(lib, v) && Follows(rest) && Trimmed(rest) && lib.longMax >= 0x7FFF_FFFF
    ensures st' == Over(st, LeftBehind(lib, TreeOf(v)))
    ensures DeserializeValue(lib, ValueText(lib, v) + rest, st)
            == Done(ValueRead(Normalize(lib, v), false, rest, st'))
  {
    hide Source, Formed, Taken, Normalize, Printable, TreeOf, DeserializeValue, ValueText, LeftBehind;
    var x := Spaced("", TreeOf(v), "");
    TreeFormed(lib, v);
    TreePrints(lib, v);
    TreeTaken(lib, v);
    NoSpaces();
    assert SpacedSource(x) == ValueText(lib, v);
    ShedsNothing(ValueText(lib, v) + rest);
    st' := ReadTree(lib, x, ValueText(lib, v) + rest, rest, st);
    assert "" + rest == rest;
  }

  /** Reading what was printed gives the normal form, for every printable value; a value that is no document is
  printed as nothing and read as null. */
  lemma ReadsNormalForm(lib: Lib, v: Value)
    requires Printable(lib, v) && lib.longMax >= 0x7FFF_FFFF
    ensures Deserialize(lib, DocumentText(lib, v)) == Done(if IsContainer(v) then Normalize(lib, v) else Null)
  {
    hide Source, Formed, Taken, Normalize, Printable, Deserialize, ValueText;
    if IsContainer(v) {
      var x := Spaced("", TreeOf(v), "");
      TreeFormed(lib, v);
      TreePrints(lib, v);
      TreeTaken(lib, v);
      NoSpaces();
      assert SpacedSource(x) == ValueText(lib, v);
      ReadsText(lib, x);
    } else {
      NothingReadsAsNull(lib);
    }
  }

  lemma NothingReadsAsNull(lib: Lib)
    ensures Deserialize(lib, "") == Done(Null)
  {
  }

  /** The round trip is exact precisely when there is nothing to unescape or trim, no empty key, and no null and no
  cut string in an array. */
  lemma RoundTrip(lib: Lib, v: Value)
    requires Printable(lib, v) && lib.longMax >= 0x7FFF_FFFF
    ensures Deserialize(lib, DocumentText(lib, v)) == Done(v) <==> if IsContainer(v) then Clean(v) else v.Null?
  {
    hide Deserialize, Normalize, Clean, Printable;
    ReadsNormalForm(lib, v);
    CleanIsNormal(lib, v);
  }

  /** A whole array is lost exactly when one of its own items is a cut string, and a whole object exactly when
  one of its own keys is empty; deeper ones lose only the array or object they stand in. */
  lemma LostDocuments(lib: Lib, v: Value)
    requires Printable(lib, v) && IsContainer(v) && lib.longMax >= 0x7FFF_FFFF
    ensures Deserialize(lib, DocumentText(lib, v)) == Done(Null) <==>
            if v.Arr? then HasCut(v.items) else HasEmptyKey(v.members)
  {
    hide Deserialize, DocumentText, Printable;
    ReadsNormalForm(lib, v);
  }

  /** The one member of an object keeps its key even when its value is lost. */
  lemma LostInside(lib: Lib, key: string, vs: seq<Value>)
    requires key != "" && Body(key) && HasCut(vs) && lib.longMax >= 0x7FFF_FFFF
    requires forall i :: 0 <= i < |vs| ==> Printable(lib, vs[i])
    ensures Deserialize(lib, DocumentText(lib, Obj([Member(key, Arr(vs))]))) == Done(Obj([Member(key, Null)]))
  {
    hide Deserialize, DocumentText, HasCut, Body;
    var ms := [Member(key, Arr(vs))];
    assert Printable(lib, Obj(ms));
    assert !HasEmptyKey(ms);
    ReadsNormalForm(lib, Obj(ms));
    assert NormalizeMembers(lib, ms) == [Member(key, Null)];
  }
}
