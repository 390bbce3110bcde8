/** Values as `json.load` returns them, and the parts of Python's semantics the report applies to them:
    `key in container`, `container[key]`, and arithmetic on a loaded number. Each raises on the wrong
    type, which is `None` here. */
module Json {
  import opened Wrappers
  import Strings

  /** A JSON value. An object keeps its members in document order, which is the order a Python
      dict iterates them in; keys are distinct, as `json.load` folds repeated keys. */
  datatype Value =
    | Null
    | Bool(b: bool)
    | Num(n: real)
    | Str(s: string)
    | Arr(items: seq<Value>)
    | Obj(members: seq<(string, Value)>)
  {
    /** Neither a list nor a dict in Python's terms. */
    predicate IsScalar() { !Arr? && !Obj? }
  }

  /** The value of the first member named `key`, if any. */
  function Lookup(members: seq<(string, Value)>, key: string): (r: Option<Value>) {
    if members == [] then None
    else if members[0].0 == key then Some(members[0].1)
    else Lookup(members[1..], key)
  }

  /** `Lookup` finds a member exactly when one has the key, and answers with the first one's value. */
  lemma {:induction false} LookupFirst(members: seq<(string, Value)>, key: string)
    ensures Lookup(members, key).Some? <==> exists i :: 0 <= i < |members| && members[i].0 == key
    ensures Lookup(members, key).Some? ==> exists i ::
      && 0 <= i < |members|
      && members[i] == (key, Lookup(members, key).value)
      && forall j | 0 <= j < i :: members[j].0 != key
  {
    if members != [] && members[0].0 != key {
      LookupFirst(members[1..], key);
      if Lookup(members, key).Some? {
        var i :| 0 <= i < |members[1..]| && members[1..][i] == (key, Lookup(members, key).value)
          && forall j | 0 <= j < i :: members[1..][j].0 != key;
        assert members[i + 1] == (key, Lookup(members, key).value);
        assert forall j | 0 <= j < i + 1 :: members[j].0 != key by {
          forall j | 0 <= j < i + 1 ensures members[j].0 != key {
            if j > 0 { assert members[j] == members[1..][j - 1]; }
          }
        }
      }
      if exists i :: 0 <= i < |members| && members[i].0 == key {
        var i :| 0 <= i < |members| && members[i].0 == key;
        assert members[1..][i - 1].0 == key;
      }
    }
  }

  /** Python's `key in container` for a string key: membership of a dict's keys, of a list's
      elements, or a substring test on a string; any other type raises TypeError. */
  function Has(container: Value, key: string): (r: Option<bool>)
    ensures container.Obj? ==> r == Some(Lookup(container.members, key).Some?)
    ensures r.Some? <==> container.Obj? || container.Arr? || container.Str?
  {
    match container
    case Obj(members) => Some(Lookup(members, key).Some?)
    case Arr(items) => Some(Str(key) in items)
    case Str(s) => Some(Strings.Contains(s, key))
    case _ => None
  }

  /** Python's `container[key]` for a string key: only a dict with that key answers; a missing key
      raises KeyError and any other type TypeError. */
  function Get(container: Value, key: string): (r: Option<Value>)
    ensures r.Some? <==> container.Obj? && Has(container, key) == Some(true)
  {
    if container.Obj? then Lookup(container.members, key) else None
  }

  /** A loaded value used in arithmetic (`w + optWt`, `w / 1000`): numbers as they are, booleans as
      0 and 1 (Python's bool is an int); anything else raises TypeError. */
  function AsNumber(v: Value): Option<real> {
    match v
    case Num(n) => Some(n)
    case Bool(b) => Some(if b then 1.0 else 0.0)
    case _ => None
  }
}
