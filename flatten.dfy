/** Flattening of nested records into dotted paths (flattenJson) and of the corpus summary
    document into one flat row per entry (getDataAllFields). */
module Flatten {
  import Maps
  import opened Wrappers
  import opened Json

  /** A flattened record: dotted path to the scalar found there. */
  type Flat = map<string, Value>

  predicate AllScalar(f: Flat) {
    forall k | k in f :: f[k].IsScalar()
  }

  /** `for j in get.keys(): val[key + delim + j] = get[j]`: every entry of `sub` written over `acc`
      under the prefix `key + delim`. */
  function Nest(acc: Flat, key: string, delim: string, sub: Flat): (r: Flat)
    ensures forall j | j in sub :: key + delim + j in r && r[key + delim + j] == sub[j]
    ensures forall p | p in acc && !(exists j :: j in sub && p == key + delim + j) :: p in r && r[p] == acc[p]
    ensures forall p | p in r :: p in acc || exists j :: j in sub && p == key + delim + j
    ensures AllScalar(acc) && AllScalar(sub) ==> AllScalar(r)
  {
    var prefix := key + delim;
    var nested := map p | p in (set j | j in sub :: prefix + j) && |prefix| <= |p| && p[|prefix|..] in sub
                    :: sub[p[|prefix|..]];
    assert forall j | j in sub :: (prefix + j)[|prefix|..] == j && prefix + j in nested;
    acc + nested
  }

  /** The flattening of one record: `None` when it is not a dict, or when a list element anywhere
      below is not a dict (the `AttributeError` that `flattenJson` turns into `None`). */
  function Flatten(v: Value, delim: string): (r: Option<Flat>)
    ensures !v.Obj? ==> r == None
    ensures r.Some? ==> AllScalar(r.value)
    decreases v, 2
  {
    if v.Obj? then FlattenMembers(v, 0, delim, map[]) else None
  }

  /** The loop over `jsonString.keys()` from member `i` on, with `acc` the `val` built so far. */
  function FlattenMembers(v: Value, i: nat, delim: string, acc: Flat): (r: Option<Flat>)
    requires v.Obj? && i <= |v.members|
    ensures r.Some? && AllScalar(acc) ==> AllScalar(r.value)
    decreases v, 1, |v.members| - i
  {
    if i == |v.members| then Some(acc)
    else
      match FlattenMember(acc, v.members[i].0, v.members[i].1, delim)
      case None => None
      case Some(acc') => FlattenMembers(v, i + 1, delim, acc')
  }

  /** One member `key: x`: a list merges each element's flattening under `key`, a dict its own
      flattening, and a scalar is written at `key` itself. */
  function FlattenMember(acc: Flat, key: string, x: Value, delim: string): (r: Option<Flat>)
    ensures x == Arr([]) ==> r == Some(acc)
    ensures r.Some? && AllScalar(acc) ==> AllScalar(r.value)
    decreases x, 3
  {
    match x
    case Arr(_) => FlattenItems(acc, key, x, 0, delim)
    case Obj(_) =>
      (match Flatten(x, delim)
       case None => None
       case Some(sub) => Some(Nest(acc, key, delim, sub)))
    case _ => Some(acc[key := x])
  }

  /** The loop over the elements of the list `x` from element `j` on, all merged under `key`. */
  function FlattenItems(acc: Flat, key: string, x: Value, j: nat, delim: string): (r: Option<Flat>)
    requires x.Arr? && j <= |x.items|
    ensures r.Some? && AllScalar(acc) ==> AllScalar(r.value)
    decreases x, 1, |x.items| - j
  {
    if j == |x.items| then Some(acc)
    else
      match Flatten(x.items[j], delim)
      case None => None
      case Some(sub) => FlattenItems(Nest(acc, key, delim, sub), key, x, j + 1, delim)
  }

  /** flattenJson: a recursive walk that fills `val` member by member. */
  method FlattenJson(v: Value, delim: string) returns (r: Option<Flat>)
    ensures r == Flatten(v, delim)
    decreases v
  {
    if !v.Obj? {
      return None;
    }
    var val: Flat := map[];
    var i := 0;
    while i < |v.members|
      invariant 0 <= i <= |v.members|
      invariant Flatten(v, delim) == FlattenMembers(v, i, delim, val)
    {
      var (key, x) := v.members[i];
      ghost var before := val;
      if x.Arr? {
        var j := 0;
        while j < |x.items|
          invariant 0 <= j <= |x.items|
          invariant FlattenMember(before, key, x, delim) == FlattenItems(val, key, x, j, delim)
        {
          var get := FlattenJson(x.items[j], delim);
          if get.None? {
            return None;
          }
          val := WriteNested(val, key, delim, get.value);
          j := j + 1;
        }
      } else if x.Obj? {
        var get := FlattenJson(x, delim);
        if get.None? {
          return None;
        }
        val := WriteNested(val, key, delim, get.value);
      } else {
        val := val[key := x];
      }
      i := i + 1;
    }
    return Some(val);
  }

  /** The inner `for j in get.keys()` loop; the keys are distinct, so their order does not matter. */
  method WriteNested(val: Flat, key: string, delim: string, get: Flat) returns (r: Flat)
    ensures r == Nest(val, key, delim, get)
  {
    r := val;
    var todo := get.Keys;
    while todo != {}
      invariant todo <= get.Keys
      invariant r == Nest(val, key, delim, get - todo)
      decreases todo
    {
      var j :| j in todo;
      NestOneMore(val, key, delim, get, todo, j);
      r := r[key + delim + j := get[j]];
      todo := todo - {j};
    }
    assert get - todo == get;
  }

  /** Writing one more entry of `get` is one more map update. */
  lemma NestOneMore(acc: Flat, key: string, delim: string, get: Flat, todo: set<string>, j: string)
    requires j in todo && todo <= get.Keys
    ensures Nest(acc, key, delim, get - (todo - {j})) == Nest(acc, key, delim, get - todo)[key + delim + j := get[j]]
  {
    assert get - (todo - {j}) == (get - todo)[j := get[j]];
    NestUpdate(acc, key, delim, get - todo, j, get[j]);
  }

  lemma NestUpdate(acc: Flat, key: string, delim: string, sub: Flat, j: string, x: Value)
    requires j !in sub
    ensures Nest(acc, key, delim, sub[j := x]) == Nest(acc, key, delim, sub)[key + delim + j := x]
  {
    var lhs, rhs := Nest(acc, key, delim, sub[j := x]), Nest(acc, key, delim, sub)[key + delim + j := x];
    forall p
      ensures p in lhs <==> p in rhs
      ensures p in lhs ==> lhs[p] == rhs[p]
    {
      NestUpdateAt(acc, key, delim, sub, j, x, p);
    }
    Maps.MapsEqual(lhs, rhs);
  }

  /** One path of `NestUpdate`. */
  lemma NestUpdateAt(acc: Flat, key: string, delim: string, sub: Flat, j: string, x: Value, p: string)
    requires j !in sub
    ensures var lhs, rhs := Nest(acc, key, delim, sub[j := x]), Nest(acc, key, delim, sub)[key + delim + j := x];
      (p in lhs <==> p in rhs) && (p in lhs ==> lhs[p] == rhs[p])
  {
    var prefix := key + delim;
    NestLookup(acc, key, delim, sub[j := x], p);
    NestLookup(acc, key, delim, sub, p);
    if p == prefix + j {
      assert p[..|prefix|] == prefix && p[|prefix|..] == j;
    } else if |prefix| <= |p| && p[..|prefix|] == prefix {
      assert p == prefix + p[|prefix|..];
    }
  }

  /** A path of `Nest` without quantifiers: it is under the prefix with its rest a key of `sub`,
      or it is a path of `acc`. */
  lemma NestLookup(acc: Flat, key: string, delim: string, sub: Flat, p: string)
    ensures var prefix := key + delim;
      var nested := |prefix| <= |p| && p[..|prefix|] == prefix && p[|prefix|..] in sub;
      && (p in Nest(acc, key, delim, sub) <==> nested || p in acc)
      && (nested ==> Nest(acc, key, delim, sub)[p] == sub[p[|prefix|..]])
      && (!nested && p in acc ==> Nest(acc, key, delim, sub)[p] == acc[p])
  {
    var prefix := key + delim;
    if |prefix| <= |p| && p[..|prefix|] == prefix && p[|prefix|..] in sub {
      assert p == prefix + p[|prefix|..];
    }
  }

  /** Distinct keys, as every dict has. */
  predicate DistinctKeys(members: seq<(string, Value)>) {
    forall a, b | 0 <= a < b < |members| :: members[a].0 != members[b].0
  }

  /** A record with only scalar members flattens to itself, as a single-level mapping. */
  lemma ScalarRecord(members: seq<(string, Value)>, delim: string)
    requires DistinctKeys(members)
    requires forall m | 0 <= m < |members| :: members[m].1.IsScalar()
    ensures var r := Flatten(Obj(members), delim);
      && r.Some?
      && (forall k :: k in r.value <==> exists m | 0 <= m < |members| :: members[m].0 == k)
      && forall m | 0 <= m < |members| :: r.value[members[m].0] == members[m].1
  {
    ScalarMembers(Obj(members), 0, delim, map[]);
    forall k {
      KeysFromIndex(members, 0, k);
    }
  }

  /** The keys of the members from `i` on. */
  function KeysFrom(members: seq<(string, Value)>, i: nat): set<string>
    requires i <= |members|
    decreases |members| - i
  {
    if i == |members| then {} else {members[i].0} + KeysFrom(members, i + 1)
  }

  lemma {:induction false} KeysFromIndex(members: seq<(string, Value)>, i: nat, k: string)
    requires i <= |members|
    ensures k in KeysFrom(members, i) <==> exists m | i <= m < |members| :: members[m].0 == k
    decreases |members| - i
  {
    if i < |members| {
      KeysFromIndex(members, i + 1, k);
    }
  }

  lemma {:induction false} ScalarMembers(v: Value, i: nat, delim: string, acc: Flat)
    requires v.Obj? && i <= |v.members| && DistinctKeys(v.members)
    requires forall m | i <= m < |v.members| :: v.members[m].1.IsScalar()
    ensures var r := FlattenMembers(v, i, delim, acc);
      && r.Some?
      && r.value.Keys == acc.Keys + KeysFrom(v.members, i)
      && (forall m | i <= m < |v.members| :: v.members[m].0 in r.value && r.value[v.members[m].0] == v.members[m].1)
      && (forall k | k in acc && k !in KeysFrom(v.members, i) :: r.value[k] == acc[k])
    decreases |v.members| - i
  {
    if i < |v.members| {
      var (key, x) := v.members[i];
      ScalarMembers(v, i + 1, delim, acc[key := x]);
      assert FlattenMember(acc, key, x, delim) == Some(acc[key := x]);
      KeysFromIndex(v.members, i + 1, key);
    }
  }

  /** Sequence collapse: for a list member, every path that the LAST element produces holds that
      element's value, whatever the earlier elements wrote. */
  lemma {:induction false} LastItemWins(acc: Flat, key: string, x: Value, j: nat, delim: string, sub: Flat)
    requires x.Arr? && j < |x.items|
    requires Flatten(x.items[|x.items| - 1], delim) == Some(sub)
    requires FlattenItems(acc, key, x, j, delim).Some?
    ensures var r := FlattenItems(acc, key, x, j, delim).value;
      forall p | p in sub :: key + delim + p in r && r[key + delim + p] == sub[p]
    decreases |x.items| - j
  {
    var f := Flatten(x.items[j], delim);
    if j < |x.items| - 1 {
      LastItemWins(Nest(acc, key, delim, f.value), key, x, j + 1, delim, sub);
    } else {
      assert FlattenItems(acc, key, x, j, delim) == Some(Nest(acc, key, delim, sub));
    }
  }

  /** The two member rules of a record: a scalar member is written at its own key, and a dict
      member's flattening is written under `key + delim`, every other path kept; a dict member that
      cannot be flattened fails the record. */
  lemma MemberRules(acc: Flat, key: string, x: Value, delim: string)
    ensures x.IsScalar() ==> FlattenMember(acc, key, x, delim) == Some(acc[key := x])
    ensures x.Obj? && Flatten(x, delim).Some? ==>
      FlattenMember(acc, key, x, delim) == Some(Nest(acc, key, delim, Flatten(x, delim).value))
    ensures x.Obj? && Flatten(x, delim).None? ==> FlattenMember(acc, key, x, delim) == None
  {
  }

  /** A record with one scalar member flattens to that member alone. */
  lemma SingleScalarRecord(key: string, x: Value, delim: string)
    requires x.IsScalar()
    ensures Flatten(Obj([(key, x)]), delim) == Some(map[key := x])
  {
    MemberRules(map[], key, x, delim);
    assert FlattenMembers(Obj([(key, x)]), 1, delim, map[key := x]) == Some(map[key := x]);
  }

  /** A mixed record: the scalar stays at its key and the dict member's scalar moves under `b.`. */
  lemma MixedRecord()
    ensures Flatten(Obj([("a", Num(1.0)), ("b", Obj([("c", Str("x"))]))]), ".")
         == Some(map["a" := Num(1.0), "b.c" := Str("x")])
  {
    var v := Obj([("a", Num(1.0)), ("b", Obj([("c", Str("x"))]))]);
    MixedSecondMember(v);
    assert FlattenMember(map[], "a", Num(1.0), ".") == Some(map["a" := Num(1.0)]);
    assert FlattenMembers(v, 0, ".", map[]) == FlattenMembers(v, 1, ".", map["a" := Num(1.0)]);
  }

  lemma MixedSecondMember(v: Value)
    requires v == Obj([("a", Num(1.0)), ("b", Obj([("c", Str("x"))]))])
    ensures FlattenMembers(v, 1, ".", map["a" := Num(1.0)]) == Some(map["a" := Num(1.0), "b.c" := Str("x")])
  {
    var first, both := map["a" := Num(1.0)], map["a" := Num(1.0), "b.c" := Str("x")];
    SingleScalarRecord("c", Str("x"), ".");
    NestOne(first, "b", ".", "c", Str("x"));
    assert "b" + "." + "c" == "b.c";
    assert FlattenMember(first, "b", Obj([("c", Str("x"))]), ".") == Some(both);
    assert FlattenMembers(v, 2, ".", both) == Some(both);
  }

  /** Nesting a single path writes it under the prefix. */
  lemma NestOne(acc: Flat, key: string, delim: string, j: string, x: Value)
    ensures Nest(acc, key, delim, map[j := x]) == acc[key + delim + j := x]
  {
    NestEmpty(acc, key, delim);
    NestUpdate(acc, key, delim, map[], j, x);
    assert map[][j := x] == map[j := x];
  }

  /** The documented example: `{"a": [{"b": 1}, {"b": 2}]}` flattens to `{"a.b": 2}`. */
  lemma SequenceCollapse()
    ensures Flatten(Obj([("a", Arr([Obj([("b", Num(1.0))]), Obj([("b", Num(2.0))])]))]), ".")
         == Some(map["a.b" := Num(2.0)])
  {
    var v := Obj([("a", Arr([Obj([("b", Num(1.0))]), Obj([("b", Num(2.0))])]))]);
    TwoItems();
    assert FlattenMembers(v, 1, ".", map["a.b" := Num(2.0)]) == Some(map["a.b" := Num(2.0)]);
  }

  /** The list member of the example: the second element's value replaces the first's. */
  lemma TwoItems()
    ensures FlattenMember(map[], "a", Arr([Obj([("b", Num(1.0))]), Obj([("b", Num(2.0))])]), ".")
         == Some(map["a.b" := Num(2.0)])
  {
    var list := Arr([Obj([("b", Num(1.0))]), Obj([("b", Num(2.0))])]);
    SecondItem(list);
    SingleScalar(1.0);
    NestSingle(map[], Num(1.0));
    assert FlattenItems(map[], "a", list, 0, ".") == FlattenItems(map["a.b" := Num(1.0)], "a", list, 1, ".");
  }

  lemma SecondItem(list: Value)
    requires list == Arr([Obj([("b", Num(1.0))]), Obj([("b", Num(2.0))])])
    ensures FlattenItems(map["a.b" := Num(1.0)], "a", list, 1, ".") == Some(map["a.b" := Num(2.0)])
  {
    SingleScalar(2.0);
    NestSingle(map["a.b" := Num(1.0)], Num(2.0));
    assert map["a.b" := Num(1.0)]["a.b" := Num(2.0)] == map["a.b" := Num(2.0)];
    assert FlattenItems(map["a.b" := Num(2.0)], "a", list, 2, ".") == Some(map["a.b" := Num(2.0)]);
  }

  lemma SingleScalar(n: real)
    ensures Flatten(Obj([("b", Num(n))]), ".") == Some(map["b" := Num(n)])
  {
    var v := Obj([("b", Num(n))]);
    assert FlattenMember(map[], "b", Num(n), ".") == Some(map["b" := Num(n)]);
    assert FlattenMembers(v, 1, ".", map["b" := Num(n)]) == Some(map["b" := Num(n)]);
  }

  lemma NestSingle(acc: Flat, x: Value)
    ensures Nest(acc, "a", ".", map["b" := x]) == acc["a.b" := x]
  {
    NestEmpty(acc, "a", ".");
    NestUpdate(acc, "a", ".", map[], "b", x);
    assert map[]["b" := x] == map["b" := x];
    assert "a" + "." + "b" == "a.b";
  }

  /** Nesting nothing leaves the accumulator as it is. */
  lemma NestEmpty(acc: Flat, key: string, delim: string)
    ensures Nest(acc, key, delim, map[]) == acc
  {
    var r := Nest(acc, key, delim, map[]);
    forall p
      ensures p in r <==> p in acc
      ensures p in r ==> r[p] == acc[p]
    {
      NestLookup(acc, key, delim, map[], p);
    }
    Maps.MapsEqual(r, acc);
  }

  /** A list element that is not a dict, anywhere in a top-level list, makes the whole result `None`. */
  lemma NonRecordItemFails(v: Value, delim: string, k: nat, e: nat)
    requires v.Obj? && k < |v.members|
    requires v.members[k].1.Arr? && e < |v.members[k].1.items| && !v.members[k].1.items[e].Obj?
    ensures Flatten(v, delim) == None
  {
    MemberFailurePropagates(v, 0, delim, map[], k, e);
  }

  lemma {:induction false} MemberFailurePropagates(v: Value, i: nat, delim: string, acc: Flat, k: nat, e: nat)
    requires v.Obj? && i <= k < |v.members|
    requires v.members[k].1.Arr? && e < |v.members[k].1.items| && !v.members[k].1.items[e].Obj?
    ensures FlattenMembers(v, i, delim, acc) == None
    decreases k - i
  {
    var (key, x) := v.members[i];
    if i == k {
      ItemFailurePropagates(acc, key, x, 0, delim, e);
    } else {
      match FlattenMember(acc, key, x, delim)
      case None =>
      case Some(acc') => MemberFailurePropagates(v, i + 1, delim, acc', k, e);
    }
  }

  lemma {:induction false} ItemFailurePropagates(acc: Flat, key: string, x: Value, j: nat, delim: string, e: nat)
    requires x.Arr? && j <= e < |x.items| && !x.items[e].Obj?
    ensures FlattenItems(acc, key, x, j, delim) == None
    decreases e - j
  {
    if j < e {
      match Flatten(x.items[j], delim)
      case None =>
      case Some(sub) => ItemFailurePropagates(Nest(acc, key, delim, sub), key, x, j + 1, delim, e);
    }
  }

  /** The records `flattenJson` accepts: a dict whose members are scalars, accepted records, or lists
      of accepted records, at any depth. */
  predicate Shaped(v: Value)
    decreases v, 1
  {
    v.Obj? && forall m | 0 <= m < |v.members| :: Fits(v.members[m].1)
  }

  /** A member value `flattenJson` can take: a scalar, an accepted record, or a list of them. */
  predicate Fits(x: Value)
    decreases x, 2
  {
    match x
    case Arr(items) => forall j | 0 <= j < |items| :: Shaped(items[j])
    case Obj(_) => Shaped(x)
    case _ => true
  }

  /** A record flattens exactly when it is accepted: any list element that is not a dict, however
      deep, makes the whole flattening `None`, and nothing else does. */
  lemma {:induction false} FlattenShaped(v: Value, delim: string)
    ensures Flatten(v, delim).Some? <==> Shaped(v)
    decreases v, 2
  {
    if v.Obj? {
      MembersShaped(v, 0, delim, map[]);
    }
  }

  lemma {:induction false} MembersShaped(v: Value, i: nat, delim: string, acc: Flat)
    requires v.Obj? && i <= |v.members|
    ensures FlattenMembers(v, i, delim, acc).Some? <==> forall m | i <= m < |v.members| :: Fits(v.members[m].1)
    decreases v, 1, |v.members| - i
  {
    if i < |v.members| {
      var (key, x) := v.members[i];
      MemberShaped(acc, key, x, delim);
      match FlattenMember(acc, key, x, delim)
      case None =>
      case Some(acc') => MembersShaped(v, i + 1, delim, acc');
    }
  }

  lemma {:induction false} MemberShaped(acc: Flat, key: string, x: Value, delim: string)
    ensures FlattenMember(acc, key, x, delim).Some? <==> Fits(x)
    decreases x, 3
  {
    match x
    case Arr(_) => ItemsShaped(acc, key, x, 0, delim);
    case Obj(_) => FlattenShaped(x, delim);
    case _ =>
  }

  lemma {:induction false} ItemsShaped(acc: Flat, key: string, x: Value, j: nat, delim: string)
    requires x.Arr? && j <= |x.items|
    ensures FlattenItems(acc, key, x, j, delim).Some? <==> forall k | j <= k < |x.items| :: Shaped(x.items[k])
    decreases x, 1, |x.items| - j
  {
    if j < |x.items| {
      FlattenShaped(x.items[j], delim);
      match Flatten(x.items[j], delim)
      case None =>
      case Some(sub) => ItemsShaped(Nest(acc, key, delim, sub), key, x, j + 1, delim);
    }
  }

  /** A list element that is not a dict fails the record even two levels down. */
  lemma NestedNonRecordFails()
    ensures Flatten(Obj([("a", Obj([("b", Arr([Num(1.0)]))]))]), ".") == None
  {
    var inner := Obj([("b", Arr([Num(1.0)]))]);
    FlattenShaped(Obj([("a", inner)]), ".");
    assert inner.members[0].1 == Arr([Num(1.0)]);
    assert !Fits(Arr([Num(1.0)])) by { assert Arr([Num(1.0)]).items[0] == Num(1.0); }
    assert !Shaped(inner);
  }

  /** The entries of the corpus summary: the elements of a list, or the document itself. */
  function Entries(doc: Value): seq<Value> {
    if doc.Arr? then doc.items else [doc]
  }

  /** Some flattened entry has an `identifier`, the column `from_records` is asked to index by. */
  predicate HasIdentifier(rows: seq<Flat>) {
    exists e | 0 <= e < |rows| :: "identifier" in rows[e]
  }

  /** getDataAllFields: one flattened row per entry; `None` as soon as one entry cannot be
      flattened, or when no entry has an `identifier` (the table cannot then be built). */
  method DataAllFields(doc: Value) returns (rows: Option<seq<Flat>>)
    ensures rows.Some? <==>
      && (forall e | 0 <= e < |Entries(doc)| :: Flatten(Entries(doc)[e], ".").Some?)
      && exists e | 0 <= e < |Entries(doc)| :: Flatten(Entries(doc)[e], ".").Some? && "identifier" in Flatten(Entries(doc)[e], ".").value
    ensures rows.Some? ==> |rows.value| == |Entries(doc)|
    ensures rows.Some? ==> forall e | 0 <= e < |Entries(doc)| :: rows.value[e] == Flatten(Entries(doc)[e], ".").value
    ensures rows.Some? && doc.Arr? ==>
      |rows.value| == |doc.items| && forall e | 0 <= e < |doc.items| :: Some(rows.value[e]) == Flatten(doc.items[e], ".")
    ensures rows.Some? && !doc.Arr? ==> |rows.value| == 1 && Flatten(doc, ".") == Some(rows.value[0])
  {
    var entries := Entries(doc);
    var flattenAll: seq<Flat> := [];
    var e := 0;
    while e < |entries|
      invariant 0 <= e <= |entries| && |flattenAll| == e
      invariant forall f | 0 <= f < e :: Flatten(entries[f], ".") == Some(flattenAll[f])
    {
      var row := FlattenJson(entries[e], ".");
      if row.None? {
        return None;
      }
      flattenAll := flattenAll + [row.value];
      e := e + 1;
    }
    if !HasIdentifier(flattenAll) {
      return None;
    }
    return Some(flattenAll);
  }
}
