/** The order of keys, and objects as maps from keys to values. */
module JsonObject {
  import opened JsonValue

  // ---------- the order of keys ----------

  /** The first k characters are common, and after them one key ends or has the smaller character. */
  predicate LessAt(a: string, b: string, k: nat)
  {
    k <= |a| && k < |b| && a[..k] == b[..k] && (k == |a| || a[k] < b[k])
  }

  lemma {:induction false} LessIsFound(a: string, b: string) returns (k: nat)
    requires KeyLess(a, b)
    ensures LessAt(a, b, k)
  {
    k := 0;
    if a != [] && a[0] == b[0] {
      k := LessIsFound(a[1..], b[1..]);
      assert a[..k + 1] == [a[0]] + a[1..][..k] && b[..k + 1] == [b[0]] + b[1..][..k];
      k := k + 1;
    }
  }

  lemma {:induction false} FoundIsLess(a: string, b: string, k: nat)
    requires LessAt(a, b, k)
    ensures KeyLess(a, b)
    decreases k
  {
    if k > 0 {
      assert a[0] == a[..k][0] == b[..k][0] == b[0];
      assert a[1..][..k - 1] == a[..k][1..] && b[1..][..k - 1] == b[..k][1..];
      FoundIsLess(a[1..], b[1..], k - 1);
    }
  }

  /** Keys are ordered by their first difference, a key before its own extensions. */
  lemma KeyOrder(a: string, b: string)
    ensures KeyLess(a, b) <==> exists k: nat :: LessAt(a, b, k)
  {
    hide KeyLess, LessAt;
    if KeyLess(a, b) {
      var k := LessIsFound(a, b);
    }
    forall k: nat | LessAt(a, b, k) ensures KeyLess(a, b) {
      FoundIsLess(a, b, k);
    }
  }

  lemma {:induction false} KeyLessTotal(a: string, b: string)
    ensures KeyLess(a, b) || a == b || KeyLess(b, a)
  {
    if a != [] && b != [] && a[0] == b[0] {
      KeyLessTotal(a[1..], b[1..]);
      assert a == [a[0]] + a[1..] && b == [b[0]] + b[1..];
    }
  }

  lemma {:induction false} KeyLessTransitive(a: string, b: string, c: string)
    requires KeyLess(a, b) && KeyLess(b, c)
    ensures KeyLess(a, c)
  {
    if a != [] && a[0] == b[0] == c[0] {
      KeyLessTransitive(a[1..], b[1..], c[1..]);
    }
  }

  // ---------- putting a member ----------

  /** Every key of the members is above the given one. */
  predicate AllAbove(ms: seq<Member>, key: string)
  {
    forall i :: 0 <= i < |ms| ==> KeyLess(key, ms[i].key)
  }

  lemma FirstIsLeast(ms: seq<Member>)
    requires KeysIncrease(ms) && ms != []
    ensures KeysIncrease(ms[1..]) && AllAbove(ms[1..], ms[0].key)
  {
    hide KeyLess;
  }

  lemma AboveTransitive(ms: seq<Member>, key: string, low: string)
    requires AllAbove(ms, key) && KeyLess(low, key)
    ensures AllAbove(ms, low)
  {
    hide KeyLess;
    forall i | 0 <= i < |ms| ensures KeyLess(low, ms[i].key) {
      KeyLessTransitive(low, key, ms[i].key);
    }
  }

  lemma IncreaseFrom(m: Member, ms: seq<Member>)
    requires KeysIncrease(ms) && AllAbove(ms, m.key)
    ensures KeysIncrease([m] + ms)
  {
    hide KeyLess;
  }

  /** Its members are those before but for the one with the key, and the new one. */
  ghost predicate IsPut(ms: seq<Member>, key: string, v: Value, r: seq<Member>)
  {
    forall m :: m in r <==> m == Member(key, v) || (m in ms && m.key != key)
  }

  lemma InTail(m: Member, ms: seq<Member>)
    requires ms != []
    ensures m in ms <==> m == ms[0] || m in ms[1..]
  {
    assert ms == [ms[0]] + ms[1..];
  }

  lemma AboveIsOther(ms: seq<Member>, key: string)
    requires AllAbove(ms, key)
    ensures forall m :: m in ms ==> m.key != key
  {
    hide KeyLess;
    forall i | 0 <= i < |ms| ensures ms[i].key != key {
      KeyLessAsymmetric(key, ms[i].key);
    }
  }

  lemma PutAbove(ms: seq<Member>, key: string, v: Value, r: seq<Member>, low: string)
    requires IsPut(ms, key, v, r) && AllAbove(ms, low) && KeyLess(low, key)
    ensures AllAbove(r, low)
  {
    hide KeyLess;
    forall i | 0 <= i < |r| ensures KeyLess(low, r[i].key) {
      assert r[i] in r;
      if r[i] != Member(key, v) {
        var j :| 0 <= j < |ms| && ms[j] == r[i];
      }
    }
  }

  lemma PutInFront(ms: seq<Member>, key: string, v: Value)
    requires AllAbove(ms, key)
    ensures IsPut(ms, key, v, [Member(key, v)] + ms)
  {
    hide AllAbove;
    AboveIsOther(ms, key);
  }

  lemma PutOverFirst(ms: seq<Member>, v: Value)
    requires ms != [] && AllAbove(ms[1..], ms[0].key)
    ensures IsPut(ms, ms[0].key, v, [Member(ms[0].key, v)] + ms[1..])
  {
    hide AllAbove;
    AboveIsOther(ms[1..], ms[0].key);
    forall m ensures m in ms <==> m == ms[0] || m in ms[1..] {
      InTail(m, ms);
    }
  }

  lemma PutFurther(ms: seq<Member>, key: string, v: Value, r: seq<Member>)
    requires ms != [] && ms[0].key != key && IsPut(ms[1..], key, v, r)
    ensures IsPut(ms, key, v, [ms[0]] + r)
  {
    forall m ensures m in ms <==> m == ms[0] || m in ms[1..] {
      InTail(m, ms);
    }
  }

  /** Assigning to a key replaces its value or inserts it in order, and touches no other key. */
  lemma {:induction false} PutIsAssignment(ms: seq<Member>, key: string, v: Value)
    requires KeysIncrease(ms)
    ensures KeysIncrease(Put(ms, key, v))
    ensures IsPut(ms, key, v, Put(ms, key, v))
  {
    hide KeyLess, KeysIncrease, AllAbove, IsPut;
    if ms == [] {
      AllAboveNothing(key);
      IncreaseFrom(Member(key, v), []);
      PutInFront([], key, v);
      assert [Member(key, v)] + [] == [Member(key, v)];
    } else {
      var first := ms[0].key;
      FirstIsLeast(ms);
      KeyLessTotal(key, first);
      if first == key {
        IncreaseFrom(Member(key, v), ms[1..]);
        PutOverFirst(ms, v);
      } else if KeyLess(key, first) {
        AboveTransitive(ms[1..], first, key);
        AboveFirst(ms, key);
        IncreaseFrom(Member(key, v), ms);
        PutInFront(ms, key, v);
      } else {
        var r := Put(ms[1..], key, v);
        PutIsAssignment(ms[1..], key, v);
        PutAbove(ms[1..], key, v, r, first);
        IncreaseFrom(ms[0], r);
        PutFurther(ms, key, v, r);
      }
    }
  }

  lemma AllAboveNothing(key: string)
    ensures AllAbove([], key) && KeysIncrease([])
  {
  }

  lemma AboveFirst(ms: seq<Member>, key: string)
    requires ms != [] && KeyLess(key, ms[0].key) && AllAbove(ms[1..], key)
    ensures AllAbove(ms, key)
  {
    hide KeyLess;
    forall i | 0 <= i < |ms| ensures KeyLess(key, ms[i].key) {
      assert i > 0 ==> ms[i] == ms[1..][i - 1];
    }
  }
}
