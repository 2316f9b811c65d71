/** What an object read from a text holds: one member for each key in it, with the value of the key's last field. */
module JsonTextObject {
  import opened JsonValue
  import opened Wrappers
  import opened JsonObject
  import opened JsonRead
  import opened JsonText
  import opened JsonTextLoops

  /** No later field has the same key. */
  predicate IsLast(fs: seq<Field>, i: nat)
  {
    i < |fs| && forall j :: i < j < |fs| ==> fs[j].key != fs[i].key
  }

  /** The member is the last field with its key. */
  ghost predicate FromFields(lib: Lib, fs: seq<Field>, m: Member)
  {
    exists i: nat :: IsLast(fs, i) && fs[i].key == m.key && Taken(lib, fs[i].value.tree) == Some(m.value)
  }

  predicate HasKey(fs: seq<Field>, key: string)
  {
    exists i :: 0 <= i < |fs| && fs[i].key == key
  }

  lemma LastAhead(fs: seq<Field>, i: nat)
    requires fs != []
    ensures IsLast(fs[1..], i) <==> IsLast(fs, i + 1)
    ensures IsLast(fs, 0) <==> !HasKey(fs[1..], fs[0].key)
  {
    forall j | 0 < j < |fs| ensures fs[1..][j - 1] == fs[j] {
    }
    if HasKey(fs[1..], fs[0].key) {
      var j :| 0 <= j < |fs[1..]| && fs[1..][j].key == fs[0].key;
      assert fs[j + 1].key == fs[0].key;
    }
    if !IsLast(fs, 0) {
      var j :| 0 < j < |fs| && fs[j].key == fs[0].key;
      assert fs[1..][j - 1].key == fs[0].key;
    }
  }

  lemma FromFieldsAhead(lib: Lib, fs: seq<Field>, m: Member)
    requires fs != []
    ensures FromFields(lib, fs, m) <==>
            || FromFields(lib, fs[1..], m)
            || (fs[0].key == m.key && Taken(lib, fs[0].value.tree) == Some(m.value) && !HasKey(fs[1..], m.key))
  {
    hide Taken, HasKey;
    if FromFields(lib, fs, m) {
      var i: nat :| IsLast(fs, i) && fs[i].key == m.key && Taken(lib, fs[i].value.tree) == Some(m.value);
      if i == 0 {
        LastAhead(fs, 0);
      } else {
        LastAhead(fs, i - 1);
        assert fs[1..][i - 1] == fs[i];
      }
    }
    if FromFields(lib, fs[1..], m) {
      var i: nat :| IsLast(fs[1..], i) && fs[1..][i].key == m.key && Taken(lib, fs[1..][i].value.tree) == Some(m.value);
      LastAhead(fs, i);
      assert fs[i + 1] == fs[1..][i];
    }
    LastAhead(fs, 0);
  }

  lemma HasKeyAhead(fs: seq<Field>, key: string)
    requires fs != []
    ensures HasKey(fs, key) <==> fs[0].key == key || HasKey(fs[1..], key)
  {
    if HasKey(fs, key) && fs[0].key != key {
      var i :| 0 <= i < |fs| && fs[i].key == key;
      assert fs[1..][i - 1] == fs[i];
    }
    if HasKey(fs[1..], key) {
      var i :| 0 <= i < |fs[1..]| && fs[1..][i].key == key;
      assert fs[i + 1] == fs[1..][i];
    }
  }

  /** Fields put into an object: one member for each of their keys, with the value of the last field of that key, and
  the object's other members as they were. */
  lemma {:induction false} FieldsArePut(lib: Lib, fs: seq<Field>, obj: seq<Member>)
    requires KeysIncrease(obj) && forall i :: 0 <= i < |fs| ==> Taken(lib, fs[i].value.tree).Some?
    ensures var r := FieldsTaken(lib, fs, obj);
            && KeysIncrease(r)
            && forall m :: m in r <==> FromFields(lib, fs, m) || (m in obj && !HasKey(fs, m.key))
    decreases |fs|
  {
    hide Taken, KeysIncrease, Put, FromFields, HasKey, FieldsTaken;
    if fs == [] {
      NothingPut(lib, obj);
    } else {
      var key, v := fs[0].key, Taken(lib, fs[0].value.tree).value;
      var obj1 := Put(obj, key, v);
      PutIsAssignment(obj, key, v);
      FieldsArePut(lib, fs[1..], obj1);
      TakenFieldAhead(lib, fs, obj);
      var r := FieldsTaken(lib, fs, obj);
      forall m ensures m in r <==> FromFields(lib, fs, m) || (m in obj && !HasKey(fs, m.key)) {
        FromFieldsAhead(lib, fs, m);
        HasKeyAhead(fs, m.key);
      }
    }
  }

  lemma NothingPut(lib: Lib, obj: seq<Member>)
    ensures FieldsTaken(lib, [], obj) == obj
    ensures forall m :: !FromFields(lib, [], m) && !HasKey([], m.key)
  {
  }

  /** An object text is read as null, or as an object of exactly its keys, in order, each with the value that its last
  field is taken for. */
  lemma ReadsObject(lib: Lib, x: Spaced)
    requires FormedSpaced(lib, x) && x.tree.Braces?
    ensures var r := Deserialize(lib, SpacedSource(x));
            || r == Done(Null)
            || (r.Done? && r.value.Obj? && KeysIncrease(r.value.members)
                && forall m :: m in r.value.members <==> FromFields(lib, x.tree.fields, m))
  {
    hide Deserialize, SpacedSource, KeysIncrease, FromFields, FieldsTaken;
    ReadsText(lib, x);
    var fs := x.tree.fields;
    if !BadFields(lib, fs) {
      assert KeysIncrease([]) by { NoKeys(); }
      FieldsArePut(lib, fs, []);
    }
  }

  lemma NoKeys()
    ensures KeysIncrease([])
  {
  }
}
