/** Flattening a request body: every text, integer and double found in it becomes a parameter. */
module BodyParams {
  import opened JsonValue
  import opened Wrappers

  /** The three maps the flattener writes. */
  datatype Maps = Maps(strs: map<string, string>, ints: map<string, int32>, doubles: map<string, real>)

  datatype Kind = Text | Integer | Floating

  /** The map a value is stored in, if it is stored at all. */
  function KindOf(v: Value): Option<Kind>
  {
    match v
    case Str(_) => Some(Text)
    case Int(_) => Some(Integer)
    case Double(_) => Some(Floating)
    case _ => None
  }

  /** What a map holds for a key. */
  function Get(maps: Maps, kind: Kind, key: string): Option<Value>
  {
    match kind
    case Text => if key in maps.strs then Some(Str(maps.strs[key])) else None
    case Integer => if key in maps.ints then Some(Int(maps.ints[key])) else None
    case Floating => if key in maps.doubles then Some(Double(maps.doubles[key])) else None
  }

  // ---------- the leaves, depth first ----------

  function Leaves(ms: seq<Member>): seq<Member>
    decreases ms
  {
    if ms == [] then [] else MemberLeaves(ms[0]) + Leaves(ms[1..])
  }

  function MemberLeaves(m: Member): seq<Member>
    decreases m
  {
    match m.value
    case Obj(members) => Leaves(members)
    case Arr(items) => ItemLeaves(items)
    case _ => if KindOf(m.value).Some? then [m] else []
  }

  /** Only the objects of an array are looked into. */
  function ItemLeaves(items: seq<Value>): seq<Member>
    decreases items
  {
    if items == [] then []
    else (if items[0].Obj? then Leaves(items[0].members) else []) + ItemLeaves(items[1..])
  }

  // ---------- last write wins ----------

  function Write(maps: Maps, leaf: Member): Maps
  {
    match leaf.value
    case Str(text) => maps.(strs := maps.strs[leaf.key := text])
    case Int(num) => maps.(ints := maps.ints[leaf.key := num])
    case Double(double) => maps.(doubles := maps.doubles[leaf.key := double])
    case _ => maps
  }

  function WriteAll(maps: Maps, leaves: seq<Member>): Maps
    decreases |leaves|
  {
    if leaves == [] then maps else WriteAll(Write(maps, leaves[0]), leaves[1..])
  }

  predicate Targets(leaf: Member, kind: Kind, key: string)
  {
    KindOf(leaf.value) == Some(kind) && leaf.key == key
  }

  lemma WriteGets(maps: Maps, leaf: Member, kind: Kind, key: string)
    ensures Get(Write(maps, leaf), kind, key) ==
            if Targets(leaf, kind, key) then Some(leaf.value) else Get(maps, kind, key)
  {
  }

  lemma {:induction false} NeverWritten(maps: Maps, leaves: seq<Member>, kind: Kind, key: string)
    requires forall i :: 0 <= i < |leaves| ==> !Targets(leaves[i], kind, key)
    ensures Get(WriteAll(maps, leaves), kind, key) == Get(maps, kind, key)
    decreases |leaves|
  {
    hide Write, Get, Targets;
    if leaves != [] {
      WriteGets(maps, leaves[0], kind, key);
      NeverWritten(Write(maps, leaves[0]), leaves[1..], kind, key);
    }
  }

  /** The last leaf of a kind with a key decides what that map holds for the key. */
  lemma {:induction false} LastWriteWins(maps: Maps, leaves: seq<Member>, i: nat, kind: Kind, key: string)
    requires i < |leaves| && Targets(leaves[i], kind, key)
    requires forall j :: i < j < |leaves| ==> !Targets(leaves[j], kind, key)
    ensures Get(WriteAll(maps, leaves), kind, key) == Some(leaves[i].value)
    decreases |leaves|
  {
    hide Write, Get, Targets;
    if i == 0 {
      WriteGets(maps, leaves[0], kind, key);
      NeverWritten(Write(maps, leaves[0]), leaves[1..], kind, key);
    } else {
      LastWriteWins(Write(maps, leaves[0]), leaves[1..], i - 1, kind, key);
    }
  }

  lemma {:induction false} WriteAllInPieces(maps: Maps, a: seq<Member>, b: seq<Member>)
    ensures WriteAll(maps, a + b) == WriteAll(WriteAll(maps, a), b)
    decreases |a|
  {
    if a == [] {
      assert a + b == b;
    } else {
      assert (a + b)[0] == a[0] && (a + b)[1..] == a[1..] + b;
      WriteAllInPieces(Write(maps, a[0]), a[1..], b);
    }
  }

  // ---------- which members are leaves ----------

  /** A way down: into the object that is a member, or into an object that is an item of a member's array. */
  datatype Hop = Sub(member: nat) | Elem(member: nat, item: nat)

  /** The object a hop leads to. */
  function Hopped(ms: seq<Member>, hop: Hop): Option<seq<Member>>
  {
    if hop.member >= |ms| then None
    else
      var v := ms[hop.member].value;
      match hop
      case Sub(_) => if v.Obj? then Some(v.members) else None
      case Elem(_, item) =>
        if v.Arr? && item < |v.items| && v.items[item].Obj? then Some(v.items[item].members) else None
  }

  predicate ReachedBy(ms: seq<Member>, path: seq<Hop>, leaf: Member)
    decreases |path|
  {
    if path == [] then leaf in ms && KindOf(leaf.value).Some?
    else Hopped(ms, path[0]).Some? && ReachedBy(Hopped(ms, path[0]).value, path[1..], leaf)
  }

  ghost predicate Reached(ms: seq<Member>, leaf: Member)
  {
    exists path :: ReachedBy(ms, path, leaf)
  }

  lemma {:induction false} LeavesSplit(ms: seq<Member>, k: nat)
    requires k < |ms|
    ensures forall leaf :: leaf in MemberLeaves(ms[k]) ==> leaf in Leaves(ms)
  {
    if k > 0 {
      LeavesSplit(ms[1..], k - 1);
    }
  }

  lemma {:induction false} ItemLeavesSplit(items: seq<Value>, k: nat)
    requires k < |items| && items[k].Obj?
    ensures forall leaf :: leaf in Leaves(items[k].members) ==> leaf in ItemLeaves(items)
  {
    if k > 0 {
      ItemLeavesSplit(items[1..], k - 1);
    }
  }

  lemma {:induction false} ReachedAreLeaves(ms: seq<Member>, path: seq<Hop>, leaf: Member)
    requires ReachedBy(ms, path, leaf)
    ensures leaf in Leaves(ms)
    decreases |path|
  {
    if path == [] {
      var k :| 0 <= k < |ms| && ms[k] == leaf;
      LeavesSplit(ms, k);
    } else {
      var k := path[0].member;
      ReachedAreLeaves(Hopped(ms, path[0]).value, path[1..], leaf);
      LeavesSplit(ms, k);
      if path[0].Elem? {
        ItemLeavesSplit(ms[k].value.items, path[0].item);
      }
    }
  }

  lemma {:induction false} LeafOrigin(ms: seq<Member>, leaf: Member) returns (k: nat)
    requires leaf in Leaves(ms)
    ensures k < |ms| && leaf in MemberLeaves(ms[k])
  {
    if leaf in MemberLeaves(ms[0]) {
      k := 0;
    } else {
      k := LeafOrigin(ms[1..], leaf);
      k := k + 1;
    }
  }

  lemma {:induction false} ItemOrigin(items: seq<Value>, leaf: Member) returns (k: nat)
    requires leaf in ItemLeaves(items)
    ensures k < |items| && items[k].Obj? && leaf in Leaves(items[k].members)
  {
    if items[0].Obj? && leaf in Leaves(items[0].members) {
      k := 0;
    } else {
      k := ItemOrigin(items[1..], leaf);
      k := k + 1;
    }
  }

  lemma {:induction false} LeavesAreReached(ms: seq<Member>, leaf: Member) returns (path: seq<Hop>)
    requires leaf in Leaves(ms)
    ensures ReachedBy(ms, path, leaf)
    decreases ms
  {
    var k := LeafOrigin(ms, leaf);
    match ms[k].value {
      case Obj(members) =>
        var rest := LeavesAreReached(members, leaf);
        path := [Sub(k)] + rest;
      case Arr(items) =>
        var j := ItemOrigin(items, leaf);
        var rest := LeavesAreReached(items[j].members, leaf);
        path := [Elem(k, j)] + rest;
      case _ =>
        path := [];
    }
  }

  /** The leaves are the texts, integers and doubles reached through objects and through arrays of objects;
  an array that is an item of an array is never entered. */
  lemma LeavesExactlyReached(ms: seq<Member>, leaf: Member)
    ensures leaf in Leaves(ms) <==> Reached(ms, leaf)
  {
    if leaf in Leaves(ms) {
      var path := LeavesAreReached(ms, leaf);
    }
    if Reached(ms, leaf) {
      var path :| ReachedBy(ms, path, leaf);
      ReachedAreLeaves(ms, path, leaf);
    }
  }

  // ---------- the flattener ----------

  class Parameters {
    var mapStr: map<string, string>
    var mapInt: map<string, int32>
    var mapDouble: map<string, real>

    function View(): Maps
      reads this
    {
      Maps(mapStr, mapInt, mapDouble)
    }

    constructor ()
      ensures View() == Maps(map[], map[], map[])
    {
      mapStr, mapInt, mapDouble := map[], map[], map[];
    }

    method ParseBodyStr(json: seq<Member>)
      modifies this
      ensures View() == WriteAll(old(View()), Leaves(json))
      decreases json
    {
      hide WriteAll, MemberLeaves, Leaves, ItemLeaves;
      var i := 0;
      assert json[0..] == json;
      while i < |json|
        invariant i <= |json|
        invariant WriteAll(View(), Leaves(json[i..])) == WriteAll(old(View()), Leaves(json))
      {
        var key, value := json[i].key, json[i].value;
        OneMember(View(), json, i);
        match value {
          case Str(text) => mapStr := mapStr[key := text];
          case Int(num) => mapInt := mapInt[key := num];
          case Double(double) => mapDouble := mapDouble[key := double];
          case Obj(members) => ParseBodyStr(members);
          case Arr(items) => ParseItems(items);
          case _ =>
        }
        i := i + 1;
      }
      NoMembers(View(), json);
    }

    static lemma NoMembers(maps: Maps, json: seq<Member>)
      ensures WriteAll(maps, Leaves(json[|json|..])) == maps
    {
    }

    static lemma OneMember(maps: Maps, json: seq<Member>, i: nat)
      requires i < |json|
      ensures WriteAll(maps, Leaves(json[i..]))
              == WriteAll(WriteAll(maps, MemberLeaves(json[i])), Leaves(json[i + 1..]))
      ensures json[i].value.Obj? ==> MemberLeaves(json[i]) == Leaves(json[i].value.members)
      ensures json[i].value.Arr? ==> MemberLeaves(json[i]) == ItemLeaves(json[i].value.items)
      ensures !json[i].value.Obj? && !json[i].value.Arr? ==>
                WriteAll(maps, MemberLeaves(json[i])) == Write(maps, json[i])
    {
      assert json[i..][0] == json[i] && json[i..][1..] == json[i + 1..];
      WriteAllInPieces(maps, MemberLeaves(json[i]), Leaves(json[i + 1..]));
    }

    /** The loop over an array. */
    method ParseItems(items: seq<Value>)
      modifies this
      ensures View() == WriteAll(old(View()), ItemLeaves(items))
      decreases items
    {
      var j := 0;
      while j < |items|
        invariant j <= |items|
        invariant WriteAll(View(), ItemLeaves(items[j..])) == WriteAll(old(View()), ItemLeaves(items))
      {
        assert items[j..][0] == items[j] && items[j..][1..] == items[j + 1..];
        if items[j].Obj? {
          WriteAllInPieces(View(), Leaves(items[j].members), ItemLeaves(items[j + 1..]));
          ParseBodyStr(items[j].members);
        } else {
          assert ItemLeaves(items[j..]) == ItemLeaves(items[j + 1..]);
        }
        j := j + 1;
      }
    }
  }
}
