/** Values produced by the YAML loader (`yaml.load`), and the few Python
    operations the compose analysis applies to them: truthiness, `key in v`
    followed by `v[key]`, iteration, hashing as a graph node and `str()`. */
module Yaml {
  import opened Wrappers
  import Text
  import Lists

  datatype Value =
    | Null
    | Str(s: string)
      /** A number or a boolean; `text` is what Python's `str()` prints for it. */
    | Scalar(text: string, truthy: bool)
    | List(items: seq<Value>)
      /** A mapping, in document order. */
    | Mapping(entries: seq<(string, Value)>)

  /** Python truthiness of a loaded value. */
  predicate Truthy(v: Value) {
    match v
    case Null => false
    case Str(s) => s != []
    case Scalar(_, t) => t
    case List(items) => items != []
    case Mapping(entries) => entries != []
  }

  function Keys(entries: seq<(string, Value)>): (r: seq<string>)
    ensures |r| == |entries|
    ensures forall i | 0 <= i < |entries| :: r[i] == entries[i].0
  {
    seq(|entries|, i requires 0 <= i < |entries| => entries[i].0)
  }

  /** A loaded document is a Python object: the keys of every mapping are
      distinct. */
  predicate Valid(v: Value) {
    match v
    case List(items) => forall i | 0 <= i < |items| :: Valid(items[i])
    case Mapping(entries) =>
      Lists.NoDuplicates(Keys(entries)) && forall i | 0 <= i < |entries| :: Valid(entries[i].1)
    case _ => true
  }

  function Lookup(entries: seq<(string, Value)>, key: string): (r: Option<Value>)
    ensures r.None? <==> key !in Keys(entries)
    ensures r.Some? ==> exists i | 0 <= i < |entries| :: entries[i] == (key, r.value)
  {
    if entries == [] then None
    else if entries[0].0 == key then Some(entries[0].1)
    else
      var r := Lookup(entries[1..], key);
      assert Keys(entries) == [entries[0].0] + Keys(entries[1..]);
      assert r.Some? ==> exists i | 0 <= i < |entries[1..]| :: entries[1..][i] == (key, r.value);
      r
  }

  /** `key in v`, then `v[key]` when it is: `None` when the key is absent,
      an error when either operation raises. A string answers `in` by
      substring search and a list by element equality, but neither can be
      indexed by a string; `in` on None, a number or a boolean raises. */
  function Member(v: Value, key: string): (r: Result<Option<Value>>)
    ensures v.Mapping? ==> r == Ok(Lookup(v.entries, key))
    ensures (v.Null? || v.Scalar?) ==> r == Err(MembershipOnScalar)
  {
    match v
    case Mapping(entries) => Ok(Lookup(entries, key))
    case Str(s) => if Text.Occurs(s, key) then Err(NotSubscriptable) else Ok(None)
    case List(items) => if Str(key) in items then Err(NotSubscriptable) else Ok(None)
    case _ => Err(MembershipOnScalar)
  }

  /** `list(v)`: the keys of a mapping, the items of a list, the characters
      of a string; None, numbers and booleans are not iterable. */
  function Iterate(v: Value): (r: Result<seq<Value>>)
    ensures r.Err? <==> v.Null? || v.Scalar?
    ensures v.Str? ==> r == Ok(seq(|v.s|, i requires 0 <= i < |v.s| => Str([v.s[i]])))
  {
    match v
    case Mapping(entries) => Ok(seq(|entries|, i requires 0 <= i < |entries| => Str(entries[i].0)))
    case List(items) => Ok(items)
    case Str(s) => Ok(seq(|s|, i requires 0 <= i < |s| => Str([s[i]])))
    case _ => Err(NotIterable)
  }

  /** The name of the graph node a value becomes: lists and mappings are not
      hashable, and networkx refuses None as a node. */
  function Label(v: Value): (r: Result<string>)
    ensures r.Err? <==> v.List? || v.Mapping? || v.Null?
    ensures v.Null? ==> r == Err(NoneNode)
    ensures (v.List? || v.Mapping?) ==> r == Err(Unhashable)
    ensures v.Str? ==> r == Ok(v.s)
    ensures v.Scalar? ==> r == Ok(v.text)
  {
    match v
    case Str(s) => Ok(s)
    case Scalar(text, _) => Ok(text)
    case Null => Err(NoneNode)
    case _ => Err(Unhashable)
  }

  /** The labels of a sequence of values, failing on the first value that
      cannot be a node. */
  function Labels(vs: seq<Value>): (r: Result<seq<string>>)
    ensures r.Ok? <==> forall i | 0 <= i < |vs| :: Label(vs[i]).Ok?
    ensures r.Ok? ==> |r.value| == |vs| && forall i | 0 <= i < |vs| :: r.value[i] == Label(vs[i]).value
  {
    if vs == [] then Ok([])
    else
      match Label(vs[0])
      case Err(e) => Err(e)
      case Ok(l) =>
        match Labels(vs[1..])
        case Err(e) =>
          assert !Label(vs[1..][0]).Ok? || exists i | 0 <= i < |vs[1..]| :: !Label(vs[1..][i]).Ok?;
          Err(e)
        case Ok(ls) => Ok([l] + ls)
  }

  /** Python's `str(v)`. */
  function PyStr(v: Value): string
    decreases v, 0
  {
    match v
    case Null => "None"
    case Str(s) => s
    case Scalar(text, _) => text
    case List(items) =>
      "[" + Text.Join(", ", seq(|items|, i requires 0 <= i < |items| => Repr(items[i]))) + "]"
    case Mapping(entries) =>
      "{" + Text.Join(", ", seq(|entries|, i requires 0 <= i < |entries| =>
                                  "'" + entries[i].0 + "': " + Repr(entries[i].1))) + "}"
  }

  /** Python's `repr(v)` inside a container: strings are quoted. */
  function Repr(v: Value): string
    decreases v, 1
  {
    if v.Str? then "'" + v.s + "'" else PyStr(v)
  }
}
