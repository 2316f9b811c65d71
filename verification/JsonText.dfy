/** JSON texts as the grammar builds them: white space between tokens, any spelling of strings and numbers.
What the reader is expected to make of each is a function on these texts. */
module JsonText {
  import opened Decimals
  import opened JsonValue
  import opened Wrappers
  import opened JsonRead

  /** A number: its sign, its digits, and a fraction and an exponent with their marks, if it has them. */
  datatype Number = Number(neg: bool, digits: string, frac: string, exp: string)

  /** A text with its white space stripped from both ends. */
  datatype Tree =
    | Word(value: Value)
    | Num(number: Number)
    | Quoted(body: string)
    | Braces(gap: string, fields: seq<Field>)
    | Brackets(gap: string, items: seq<Spaced>)

  datatype Spaced = Spaced(before: string, tree: Tree, after: string)

  datatype Field = Field(before: string, key: string, mid: string, value: Spaced)

  // ---------- the text ----------

  function NumberSource(n: Number): string
  {
    (if n.neg then "-" else "") + n.digits + n.frac + n.exp
  }

  function WordSource(v: Value): string
  {
    match v
    case Bool(b) => if b then "true" else "false"
    case _ => "null"
  }

  function Source(t: Tree): string
    decreases t
  {
    match t
    case Word(v) => WordSource(v)
    case Num(n) => NumberSource(n)
    case Quoted(body) => "\"" + body + "\""
    case Braces(gap, fs) => "{" + (if fs == [] then gap else FieldsSource(fs)) + "}"
    case Brackets(gap, xs) => "[" + (if xs == [] then gap else ItemsSource(xs)) + "]"
  }

  function SpacedSource(x: Spaced): string
    decreases x
  {
    x.before + Source(x.tree) + x.after
  }

  function FieldSource(f: Field): string
    decreases f
  {
    f.before + ("\"" + f.key + "\"") + (f.mid + ":") + SpacedSource(f.value)
  }

  function FieldsSource(fs: seq<Field>): string
    decreases fs
  {
    if fs == [] then "" else FieldSource(fs[0]) + if |fs| > 1 then "," + FieldsSource(fs[1..]) else ""
  }

  function ItemsSource(xs: seq<Spaced>): string
    decreases xs
  {
    if xs == [] then "" else SpacedSource(xs[0]) + if |xs| > 1 then "," + ItemsSource(xs[1..]) else ""
  }

  // ---------- which texts ----------

  /** What can stand between two quotes: every quote in it is escaped by exactly one backslash (an odd run of three
  or more misleads the search for a bracket's end) and the backslashes at its end are even in number. */
  predicate Body(b: string)
  {
    && (forall k :: 0 <= k < |b| && b[k] == '\"' ==> Slashes(b, 0, k) == 1)
    && Slashes(b, 0, |b|) % 2 == 0
  }

  predicate IsFraction(s: string)
  {
    s == "" || (|s| > 1 && s[0] == '.' && AllDigits(s[1..]))
  }

  predicate IsExponent(s: string)
  {
    s == "" || (|s| > 1 && IsE(s[0]) && forall k :: 1 <= k < |s| ==> IsDigit(s[k]) || s[k] == '+' || s[k] == '-')
  }

  predicate IsNumber(n: Number)
  {
    n.digits != "" && AllDigits(n.digits) && IsFraction(n.frac) && IsExponent(n.exp)
  }

  predicate Formed(lib: Lib, t: Tree)
    decreases t
  {
    match t
    case Word(v) => v.Bool? || v.Null?
    case Num(n) => IsNumber(n)
    case Quoted(body) => Body(body) && Unescape(lib, body).Done?
    case Braces(gap, fs) => AllSpace(gap) && forall i :: 0 <= i < |fs| ==> FormedField(lib, fs[i])
    case Brackets(gap, xs) => AllSpace(gap) && forall i :: 0 <= i < |xs| ==> FormedSpaced(lib, xs[i])
  }

  predicate FormedSpaced(lib: Lib, x: Spaced)
    decreases x
  {
    AllSpace(x.before) && AllSpace(x.after) && Formed(lib, x.tree)
  }

  predicate FormedField(lib: Lib, f: Field)
    decreases f
  {
    AllSpace(f.before) && AllSpace(f.mid) && Body(f.key) && FormedSpaced(lib, f.value)
  }

  // ---------- what is read ----------

  /** The first of the characters `,` `]` `[` `{` in the text, if there is one, is an opening bracket:
  the array loop looks for those characters without regard to quotes. */
  predicate ElementText(s: string)
  {
    s == "" || (s[0] !in ",]" && (s[0] in "[{" || ElementText(s[1..])))
  }

  /** A string in an array at which the array loop cuts. */
  predicate CutTree(t: Tree)
  {
    t.Quoted? && !ElementText(t.body)
  }

  function NumberTaken(lib: Lib, n: Number): Option<Value>
  {
    PrimitiveValue(lib, NumberSource(n), n.frac != "", n.exp != "")
  }

  /** The value a text is read as; None for a number out of range. White space in an empty object, an empty key and
  a number out of range turn the object around them null; cut strings and numbers out of range, the array. */
  function Taken(lib: Lib, t: Tree): Option<Value>
    decreases t, 1
  {
    match t
    case Word(v) => Some(v)
    case Num(n) => NumberTaken(lib, n)
    case Quoted(body) =>
      var r := Unescape(lib, body);
      if r.Done? then Some(Str(r.value)) else None
    case Braces(gap, fs) =>
      Some(if (fs == [] && gap != "") || BadFields(lib, fs) then Null else Obj(FieldsTaken(lib, fs, [])))
    case Brackets(_, xs) => Some(if BadItems(lib, xs) then Null else Arr(ItemsTaken(lib, xs)))
  }

  predicate BadFields(lib: Lib, fs: seq<Field>)
    decreases fs, 0
  {
    exists i :: 0 <= i < |fs| && (fs[i].key == "" || Taken(lib, fs[i].value.tree) == None)
  }

  predicate BadItems(lib: Lib, xs: seq<Spaced>)
    decreases xs, 0
  {
    exists i :: 0 <= i < |xs| && (CutTree(xs[i].tree) || Taken(lib, xs[i].tree) == None)
  }

  /** Every member put under its key as spelled, a later one replacing an earlier one. */
  function FieldsTaken(lib: Lib, fs: seq<Field>, obj: seq<Member>): seq<Member>
    decreases fs, 0
  {
    if fs == [] then obj
    else
      var v := Taken(lib, fs[0].value.tree);
      FieldsTaken(lib, fs[1..], if v.Some? then Put(obj, fs[0].key, v.value) else obj)
  }

  /** The items in order, but for those read as null. */
  function ItemsTaken(lib: Lib, xs: seq<Spaced>): seq<Value>
    decreases xs, 0
  {
    if xs == [] then [] else ItemKept(lib, xs[0]) + ItemsTaken(lib, xs[1..])
  }

  function ItemKept(lib: Lib, x: Spaced): seq<Value>
    decreases x, 0
  {
    var v := Taken(lib, x.tree);
    if v.Some? && !v.value.Null? then [v.value] else []
  }

  // ---------- what is left on the stack ----------

  /** The stack with so many object frames more. */
  function Over(st: Stack, n: nat): (st': Stack)
    ensures st <= st'
  {
    st + seq(n, i => InObject)
  }

  /** How many frames are left behind: an object that is read as null does not take off its own. */
  function LeftBehind(lib: Lib, t: Tree): nat
    decreases t, 1
  {
    match t
    case Braces(_, fs) => FieldsLeft(lib, fs) + if Taken(lib, t) == Some(Null) then 1 else 0
    case Brackets(_, xs) => ItemsLeft(lib, xs)
    case _ => 0
  }

  /** Of the fields up to the one at which the object is given up. */
  function FieldsLeft(lib: Lib, fs: seq<Field>): nat
    decreases fs, 0
  {
    if fs == [] || fs[0].key == "" || Taken(lib, fs[0].value.tree) == None then 0
    else LeftBehind(lib, fs[0].value.tree) + FieldsLeft(lib, fs[1..])
  }

  function ItemsLeft(lib: Lib, xs: seq<Spaced>): nat
    decreases xs, 0
  {
    if xs == [] || CutTree(xs[0].tree) || Taken(lib, xs[0].tree) == None then 0
    else LeftBehind(lib, xs[0].tree) + ItemsLeft(lib, xs[1..])
  }
}
