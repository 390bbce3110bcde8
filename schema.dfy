/** The schema weight model (getSchemaFields): every top-level property of the schema becomes one
    row, or one row per child of the definition its `items.$ref` names, weighted by its position and
    its required / recommended / optional class. */
module Schema {
  import opened Wrappers
  import opened Json
  import Strings
  import Sorting

  /** Fields, Parent, ParentWeight, Weight, OptionalWeight. */
  datatype SchemaRow = SchemaRow(fields: string, parent: string, parentWeight: real, weight: real, optionalWeight: int)

  /** The optionality offset: required first, then the recommended names, then everything else. */
  function Optionality(isRequired: bool, name: string, recommended: seq<string>): (w: int)
    ensures w in {0, 50, 100}
    ensures w == 0 <==> isRequired
    ensures w == 50 <==> !isRequired && name in recommended
  {
    if isRequired then 0 else if name in recommended then 50 else 100
  }

  /** Whether `name` is listed under the schema's `required` (a KeyError or TypeError is `None`). */
  function IsRequired(schema: Value, name: string): Option<bool> {
    var required :- Get(schema, "required");
    Has(required, name)
  }

  /** `spec["weight"] + offset`. */
  function WeightPlus(spec: Value, offset: real): Option<real> {
    var w :- Get(spec, "weight");
    var n :- AsNumber(w);
    Some(n + offset)
  }

  /** `spec["weight"] / 1000`. */
  function WeightThousandth(spec: Value): Option<real> {
    var w :- Get(spec, "weight");
    var n :- AsNumber(w);
    Some(n / 1000.0)
  }

  /** The parent weight: the property's own weight, else the weight of the definition of the same
      name, else 99 when that definition exists, else 100; plus the optionality offset. */
  function ParentWeight(schema: Value, name: string, spec: Value, opt: int): (r: Option<real>)
    ensures Has(spec, "weight") == Some(true) ==> r == WeightPlus(spec, opt as real)
    ensures Has(spec, "weight") == Some(false) && Get(schema, "definitions").Some? ==>
      var defs := Get(schema, "definitions").value;
      && (Has(defs, name) == Some(false) ==> r == Some(100.0 + opt as real))
      && (Get(defs, name).Some? && Has(Get(defs, name).value, "weight") == Some(true) ==>
            r == WeightPlus(Get(defs, name).value, opt as real))
      && (Get(defs, name).Some? && Has(Get(defs, name).value, "weight") == Some(false) ==>
            r == Some(99.0 + opt as real))
  {
    var hasWeight :- Has(spec, "weight");
    if hasWeight then WeightPlus(spec, opt as real)
    else
      var defs :- Get(schema, "definitions");
      var isDefinition :- Has(defs, name);
      if isDefinition then
        var definition :- Get(defs, name);
        var defHasWeight :- Has(definition, "weight");
        if defHasWeight then WeightPlus(definition, opt as real) else Some(99.0 + opt as real)
      else Some(100.0 + opt as real)
  }

  /** A child's weight: its own weight / 1000, else the weight / 1000 of the definition of the same
      name, else 0.099 when that definition exists, else 0.1. */
  function ChildWeight(defs: Value, name: string, spec: Value): (r: Option<real>)
    ensures Has(spec, "weight") == Some(true) ==> r == WeightThousandth(spec)
    ensures Has(spec, "weight") == Some(false) && Has(defs, name) == Some(false) ==> r == Some(0.1)
    ensures Has(spec, "weight") == Some(false) && Get(defs, name).Some? ==>
      && (Has(Get(defs, name).value, "weight") == Some(true) ==> r == WeightThousandth(Get(defs, name).value))
      && (Has(Get(defs, name).value, "weight") == Some(false) ==> r == Some(0.099))
  {
    var hasWeight :- Has(spec, "weight");
    if hasWeight then WeightThousandth(spec)
    else
      var isDefinition :- Has(defs, name);
      if isDefinition then
        var definition :- Get(defs, name);
        var defHasWeight :- Has(definition, "weight");
        if defHasWeight then WeightThousandth(definition) else Some(0.099)
      else Some(0.1)
  }

  /** One row per child of a definition, in the definition's order, named `parent.child`. */
  function ChildRows(defs: Value, parent: string, pw: real, opt: int, children: seq<(string, Value)>): (r: Option<seq<SchemaRow>>)
    ensures r.Some? <==> forall c | 0 <= c < |children| :: ChildWeight(defs, children[c].0, children[c].1).Some?
    ensures r.Some? ==> |r.value| == |children|
    ensures r.Some? ==> forall c | 0 <= c < |children| ::
      && r.value[c].fields == parent + "." + children[c].0
      && r.value[c].parent == parent
      && r.value[c].parentWeight == pw
      && r.value[c].optionalWeight == opt
      && Some(r.value[c].weight) == ChildWeight(defs, children[c].0, children[c].1)
    decreases |children|
  {
    if children == [] then Some([])
    else
      var last := |children| - 1;
      var init :- ChildRows(defs, parent, pw, opt, children[..last]);
      var w :- ChildWeight(defs, children[last].0, children[last].1);
      Some(init + [SchemaRow(parent + "." + children[last].0, parent, pw, w, opt)])
  }

  /** Where an `items.$ref` leads: an error on the way, nothing to expand (the definition is
      missing or has no `properties`), or the definitions and the children of the one named. */
  datatype Expansion = Failed | Nothing | Children(defs: Value, children: seq<(string, Value)>)

  /** Follow `items["$ref"]` to the definition named by its last `/`-segment. */
  function ResolveReference(schema: Value, items: Value): Expansion {
    match Get(items, "$ref")
    case None => Failed
    case Some(reference) =>
      if !reference.Str? then Failed
      else
        var defItem := Strings.AfterLast(reference.s, '/');
        match Get(schema, "definitions")
        case None => Failed
        case Some(defs) =>
          match Has(defs, defItem)
          case None => Failed
          case Some(isDefinition) =>
            if !isDefinition then Nothing
            else
              match Get(defs, defItem)
              case None => Failed
              case Some(definition) =>
                match Has(definition, "properties")
                case None => Failed
                case Some(hasProperties) =>
                  if !hasProperties then Nothing
                  else
                    match Get(definition, "properties")
                    case None => Failed
                    case Some(properties) => if properties.Obj? then Children(defs, properties.members) else Failed
  }

  /** The rows `items.$ref` expands to: none when the definition it names is missing or has no
      `properties`. */
  function ExpandedRows(schema: Value, name: string, items: Value, pw: real, opt: int): (r: Option<seq<SchemaRow>>)
    ensures r.Some? ==> forall row | row in r.value :: row.parent == name && row.parentWeight == pw && row.optionalWeight == opt
  {
    match ResolveReference(schema, items)
    case Failed => None
    case Nothing => Some([])
    case Children(defs, children) => ChildRows(defs, name, pw, opt, children)
  }

  /** The rows a property contributes once its weights are known: itself, when it has no `items`
      or its `items` has no `$ref`; otherwise the expansion of the definition. */
  function ShapedRows(schema: Value, name: string, spec: Value, pw: real, opt: int): (r: Option<seq<SchemaRow>>)
    ensures r.Some? ==> forall row | row in r.value :: row.parent == name && row.parentWeight == pw && row.optionalWeight == opt
  {
    var leaf := [SchemaRow(name, name, pw, pw, opt)];
    var hasItems :- Has(spec, "items");
    if !hasItems then Some(leaf)
    else
      var items :- Get(spec, "items");
      var hasRef :- Has(items, "$ref");
      if !hasRef then Some(leaf)
      else ExpandedRows(schema, name, items, pw, opt)
  }

  /** The rows one top-level property contributes. */
  function PropertyRows(schema: Value, name: string, spec: Value, recommended: seq<string>): (r: Option<seq<SchemaRow>>)
    ensures r.Some? ==> IsRequired(schema, name).Some?
    ensures r.Some? ==> forall row | row in r.value ::
      && row.parent == name
      && row.optionalWeight == Optionality(IsRequired(schema, name).value, name, recommended)
      && Some(row.parentWeight) == ParentWeight(schema, name, spec, row.optionalWeight)
  {
    var isRequired :- IsRequired(schema, name);
    var opt := Optionality(isRequired, name, recommended);
    var pw :- ParentWeight(schema, name, spec, opt);
    ShapedRows(schema, name, spec, pw, opt)
  }

  /** The parts joined in order; `None` as soon as one part is. */
  function Concat<T>(parts: seq<Option<seq<T>>>): (r: Option<seq<T>>)
    ensures r.Some? <==> forall p | 0 <= p < |parts| :: parts[p].Some?
    ensures r.Some? ==> forall x | x in r.value :: exists p | 0 <= p < |parts| :: parts[p].Some? && x in parts[p].value
  {
    if parts == [] then Some([])
    else
      var last := |parts| - 1;
      assert forall p | 0 <= p < last :: parts[..last][p] == parts[p];
      var init :- Concat(parts[..last]);
      var rows :- parts[last];
      Some(init + rows)
  }

  /** Every row of every part is in the joined rows. */
  lemma {:induction false} ConcatIncludes<T>(parts: seq<Option<seq<T>>>, p: nat, x: T)
    requires Concat(parts).Some? && p < |parts| && parts[p].Some? && x in parts[p].value
    ensures x in Concat(parts).value
    decreases |parts|
  {
    var last := |parts| - 1;
    if p < last {
      assert parts[..last][p] == parts[p];
      ConcatIncludes(parts[..last], p, x);
    }
  }

  /** The rows of each property, in the order of `properties`. */
  function PerProperty(schema: Value, props: seq<(string, Value)>, recommended: seq<string>): (parts: seq<Option<seq<SchemaRow>>>)
    ensures |parts| == |props|
    ensures forall p | 0 <= p < |props| :: parts[p] == PropertyRows(schema, props[p].0, props[p].1, recommended)
  {
    seq(|props|, p requires 0 <= p < |props| => PropertyRows(schema, props[p].0, props[p].1, recommended))
  }

  /** The schema table's sort columns: ParentWeight, Parent, Weight. */
  function SchemaKey(row: SchemaRow): Sorting.SortKey {
    Sorting.SortKey(Some(row.parentWeight), Some(row.parent), Some(row.weight), "")
  }

  /** The sorted schema table, `None` where getSchemaFields returns None. */
  function SchemaFields(schema: Value, recommended: seq<string>): Option<seq<SchemaRow>> {
    var properties :- Get(schema, "properties");
    if !properties.Obj? then None
    else
      var rows :- Concat(PerProperty(schema, properties.members, recommended));
      Some(Sorting.SortBy(rows, SchemaKey))
  }

  /** getSchemaFields: the property loop appends each property's rows to `schemaSort`, which is
      then sorted on (ParentWeight, Parent, Weight). */
  method GetSchemaFields(schema: Value, recommended: seq<string>) returns (r: Option<seq<SchemaRow>>)
    ensures r == SchemaFields(schema, recommended)
  {
    var properties := Get(schema, "properties");
    if properties.None? || !properties.value.Obj? {
      return None;
    }
    var props := properties.value.members;
    ghost var parts := PerProperty(schema, props, recommended);
    var schemaSort: seq<SchemaRow> := [];
    for i := 0 to |props|
      invariant Concat(parts[..i]) == Some(schemaSort)
    {
      var next := AppendPropertyRows(schema, props[i].0, props[i].1, recommended, schemaSort);
      assert parts[..i + 1][..i] == parts[..i];
      if next.None? {
        assert parts[i].None?;
        return None;
      }
      schemaSort := next.value;
    }
    assert parts[..|props|] == parts;
    return Some(Sorting.SortBy(schemaSort, SchemaKey));
  }

  /** The body of the property loop: classify, weigh, then append the property or its children. */
  method AppendPropertyRows(schema: Value, name: string, spec: Value, recommended: seq<string>, schemaSort: seq<SchemaRow>)
    returns (r: Option<seq<SchemaRow>>)
    ensures r.Some? <==> PropertyRows(schema, name, spec, recommended).Some?
    ensures r.Some? ==> r.value == schemaSort + PropertyRows(schema, name, spec, recommended).value
  {
    var required := Get(schema, "required");
    if required.None? {
      return None;
    }
    var isRequired := Has(required.value, name);
    if isRequired.None? {
      return None;
    }
    var optWt := Optionality(isRequired.value, name, recommended);
    var parentWt := ParentWeight(schema, name, spec, optWt);
    if parentWt.None? {
      return None;
    }
    var pw := parentWt.value;
    var hasItems := Has(spec, "items");
    if hasItems.None? {
      return None;
    }
    if !hasItems.value {
      return Some(schemaSort + [SchemaRow(name, name, pw, pw, optWt)]);
    }
    var items := Get(spec, "items");
    if items.None? {
      return None;
    }
    var hasRef := Has(items.value, "$ref");
    if hasRef.None? {
      return None;
    }
    if !hasRef.value {
      return Some(schemaSort + [SchemaRow(name, name, pw, pw, optWt)]);
    }
    r := AppendExpandedRows(schema, name, items.value, pw, optWt, schemaSort);
  }

  /** The `$ref` branch of the property loop. */
  method AppendExpandedRows(schema: Value, name: string, items: Value, pw: real, optWt: int, schemaSort: seq<SchemaRow>)
    returns (r: Option<seq<SchemaRow>>)
    ensures r.Some? <==> ExpandedRows(schema, name, items, pw, optWt).Some?
    ensures r.Some? ==> r.value == schemaSort + ExpandedRows(schema, name, items, pw, optWt).value
  {
    var expansion := ResolveReference(schema, items);
    match expansion
    case Failed =>
      r := None;
    case Nothing =>
      r := Some(schemaSort);
      assert r.value == schemaSort + [];
    case Children(defs, children) =>
      r := AppendChildRows(defs, name, pw, optWt, children, schemaSort);
  }

  /** The child loop: one row per child of the definition. */
  method AppendChildRows(defs: Value, name: string, pw: real, optWt: int, children: seq<(string, Value)>, schemaSort: seq<SchemaRow>)
    returns (r: Option<seq<SchemaRow>>)
    ensures r.Some? <==> ChildRows(defs, name, pw, optWt, children).Some?
    ensures r.Some? ==> r.value == schemaSort + ChildRows(defs, name, pw, optWt, children).value
  {
    var rows := schemaSort;
    ghost var added: seq<SchemaRow> := [];
    for c := 0 to |children|
      invariant ChildRows(defs, name, pw, optWt, children[..c]) == Some(added)
      invariant rows == schemaSort + added
    {
      var childWt := ChildWeight(defs, children[c].0, children[c].1);
      assert children[..c + 1][..c] == children[..c];
      if childWt.None? {
        assert !ChildRows(defs, name, pw, optWt, children).Some?;
        return None;
      }
      var row := SchemaRow(name + "." + children[c].0, name, pw, childWt.value, optWt);
      rows := rows + [row];
      added := added + [row];
    }
    assert children[..|children|] == children;
    return Some(rows);
  }

  /** A property without `items`, or whose `items` has no `$ref`, is a single row that is its own
      parent, with its parent weight as its weight. */
  lemma LeafProperty(schema: Value, name: string, spec: Value, recommended: seq<string>)
    requires PropertyRows(schema, name, spec, recommended).Some?
    requires Has(spec, "items") == Some(false)
          || (Get(spec, "items").Some? && Has(Get(spec, "items").value, "$ref") == Some(false))
    ensures var opt := Optionality(IsRequired(schema, name).value, name, recommended);
      var pw := ParentWeight(schema, name, spec, opt).value;
      PropertyRows(schema, name, spec, recommended).value == [SchemaRow(name, name, pw, pw, opt)]
  {
  }

  /** A `$ref` whose definition has `properties` resolves to that definition's children. */
  lemma ResolvesToChildren(schema: Value, items: Value, children: seq<(string, Value)>)
    requires Get(items, "$ref").Some? && Get(items, "$ref").value.Str?
    requires var defItem := Strings.AfterLast(Get(items, "$ref").value.s, '/');
      && Get(schema, "definitions").Some?
      && Get(Get(schema, "definitions").value, defItem).Some?
      && Get(Get(Get(schema, "definitions").value, defItem).value, "properties") == Some(Obj(children))
    ensures ResolveReference(schema, items) == Children(Get(schema, "definitions").value, children)
  {
    var defItem := Strings.AfterLast(Get(items, "$ref").value.s, '/');
    var defs := Get(schema, "definitions").value;
    var definition := Get(defs, defItem).value;
    assert Get(items, "$ref") == Some(Get(items, "$ref").value);
    assert Get(schema, "definitions") == Some(defs);
    assert Has(defs, defItem) == Some(true);
    assert Get(defs, defItem) == Some(definition);
    assert Has(definition, "properties") == Some(true);
  }

  /** A `$ref` whose definition is missing, or has no `properties`, resolves to nothing. */
  lemma ResolvesToNothing(schema: Value, items: Value)
    requires Get(items, "$ref").Some? && Get(items, "$ref").value.Str?
    requires var defItem := Strings.AfterLast(Get(items, "$ref").value.s, '/');
      && Get(schema, "definitions").Some?
      && (|| Has(Get(schema, "definitions").value, defItem) == Some(false)
          || (&& Get(Get(schema, "definitions").value, defItem).Some?
              && Has(Get(Get(schema, "definitions").value, defItem).value, "properties") == Some(false)))
    ensures ResolveReference(schema, items) == Nothing
  {
    var defItem := Strings.AfterLast(Get(items, "$ref").value.s, '/');
    var defs := Get(schema, "definitions").value;
    if Has(defs, defItem) == Some(true) {
      assert Get(defs, defItem).Some?;
    }
  }

  /** A property whose `items.$ref` names a definition with `properties` is replaced by one row per
      child, in the definition's order, named `name.child`; the property gets no row of its own. */
  lemma ExpandedProperty(schema: Value, name: string, spec: Value, recommended: seq<string>, children: seq<(string, Value)>)
    requires PropertyRows(schema, name, spec, recommended).Some?
    requires Get(spec, "items").Some? && Get(Get(spec, "items").value, "$ref").Some?
    requires Get(Get(spec, "items").value, "$ref").value.Str?
    requires var defItem := Strings.AfterLast(Get(Get(spec, "items").value, "$ref").value.s, '/');
      && Get(schema, "definitions").Some?
      && Get(Get(schema, "definitions").value, defItem).Some?
      && Get(Get(Get(schema, "definitions").value, defItem).value, "properties") == Some(Obj(children))
    ensures var rows := PropertyRows(schema, name, spec, recommended).value;
      && |rows| == |children|
      && (forall c | 0 <= c < |children| :: rows[c].fields == name + "." + children[c].0 && rows[c].parent == name)
      && (forall c | 0 <= c < |children| ::
            Some(rows[c].weight) == ChildWeight(Get(schema, "definitions").value, children[c].0, children[c].1))
      && forall row | row in rows :: row.fields != name
  {
    var rows := PropertyRows(schema, name, spec, recommended).value;
    var opt := Optionality(IsRequired(schema, name).value, name, recommended);
    var pw := ParentWeight(schema, name, spec, opt).value;
    var items := Get(spec, "items").value;
    var defs := Get(schema, "definitions").value;
    ResolvesToChildren(schema, items, children);
    assert Some(rows) == ShapedRows(schema, name, spec, pw, opt);
    assert Some(rows) == ChildRows(defs, name, pw, opt, children);
    forall row | row in rows
      ensures row.fields != name
    {
      var c :| 0 <= c < |rows| && rows[c] == row;
      assert |row.fields| > |name|;
    }
  }

  /** A `$ref` whose definition is missing, or has no `properties`, yields no rows at all. */
  lemma UnresolvedReference(schema: Value, name: string, spec: Value, recommended: seq<string>)
    requires PropertyRows(schema, name, spec, recommended).Some?
    requires Get(spec, "items").Some? && Get(Get(spec, "items").value, "$ref").Some?
    requires Get(Get(spec, "items").value, "$ref").value.Str?
    requires var defItem := Strings.AfterLast(Get(Get(spec, "items").value, "$ref").value.s, '/');
      && Get(schema, "definitions").Some?
      && (|| Has(Get(schema, "definitions").value, defItem) == Some(false)
          || (&& Get(Get(schema, "definitions").value, defItem).Some?
              && Has(Get(Get(schema, "definitions").value, defItem).value, "properties") == Some(false)))
    ensures PropertyRows(schema, name, spec, recommended).value == []
  {
    var opt := Optionality(IsRequired(schema, name).value, name, recommended);
    var pw := ParentWeight(schema, name, spec, opt).value;
    ResolvesToNothing(schema, Get(spec, "items").value);
    assert PropertyRows(schema, name, spec, recommended) == ShapedRows(schema, name, spec, pw, opt);
  }

  /** Every row of the table descends from a top-level property: it is one of that property's
      `PropertyRows`, its Parent is that property's name, its OptionalWeight is 0, 50 or 100 as the name is required, recommended (and not
      required) or neither, and its ParentWeight is the one derived for that property. */
  lemma TableRowsDescend(schema: Value, recommended: seq<string>, row: SchemaRow)
    requires SchemaFields(schema, recommended).Some? && row in SchemaFields(schema, recommended).value
    ensures var props := Get(schema, "properties").value.members;
      exists p | 0 <= p < |props| ::
        && props[p].0 == row.parent
        && Some(row.parentWeight) == ParentWeight(schema, row.parent, props[p].1, row.optionalWeight)
        && PropertyRows(schema, props[p].0, props[p].1, recommended).Some?
        && row in PropertyRows(schema, props[p].0, props[p].1, recommended).value
    ensures IsRequired(schema, row.parent).Some?
    ensures row.optionalWeight == 0 <==> IsRequired(schema, row.parent) == Some(true)
    ensures row.optionalWeight == 50 <==> IsRequired(schema, row.parent) == Some(false) && row.parent in recommended
    ensures row.optionalWeight == 100 <==> IsRequired(schema, row.parent) == Some(false) && row.parent !in recommended
  {
    var props := Get(schema, "properties").value.members;
    var parts := PerProperty(schema, props, recommended);
    var rows := Concat(parts).value;
    assert row in multiset(Sorting.SortBy(rows, SchemaKey));
    assert row in rows;
    var p :| 0 <= p < |parts| && parts[p].Some? && row in parts[p].value;
    assert parts[p] == PropertyRows(schema, props[p].0, props[p].1, recommended);
  }

  /** Every row a top-level property contributes is in the sorted table. */
  lemma PropertyRowsInTable(schema: Value, recommended: seq<string>, p: nat)
    requires SchemaFields(schema, recommended).Some?
    requires Get(schema, "properties").Some? && Get(schema, "properties").value.Obj?
    requires p < |Get(schema, "properties").value.members|
    ensures var prop := Get(schema, "properties").value.members[p];
      && PropertyRows(schema, prop.0, prop.1, recommended).Some?
      && forall row | row in PropertyRows(schema, prop.0, prop.1, recommended).value ::
           row in SchemaFields(schema, recommended).value
  {
    var props := Get(schema, "properties").value.members;
    var parts := PerProperty(schema, props, recommended);
    var rows := Concat(parts).value;
    assert parts[p] == PropertyRows(schema, props[p].0, props[p].1, recommended);
    forall row | row in parts[p].value
      ensures row in SchemaFields(schema, recommended).value
    {
      ConcatIncludes(parts, p, row);
      assert row in multiset(Sorting.SortBy(rows, SchemaKey));
    }
  }

  /** In the sorted table, the rows that share a parent (and its weight) stand together: a row
      between two of them has the same parent. */
  lemma ParentGroupsContiguous(table: seq<SchemaRow>, i: nat, j: nat, k: nat)
    requires Sorting.Sorted(table, SchemaKey)
    requires i < j < k < |table|
    requires table[i].parent == table[k].parent && table[i].parentWeight == table[k].parentWeight
    ensures table[j].parent == table[i].parent && table[j].parentWeight == table[i].parentWeight
  {
    var a, b, c := SchemaKey(table[i]), SchemaKey(table[j]), SchemaKey(table[k]);
    assert Sorting.KeyLessEq(a, b) && Sorting.KeyLessEq(b, c);
    assert table[j].parentWeight == table[i].parentWeight;
    if Sorting.StringBefore(a.second, b.second) {
      Sorting.StringBeforeTransitive(a.second, b.second, c.second);
      Sorting.StringBeforeAsymmetric(a.second, b.second);
    }
    if Sorting.StringBefore(b.second, c.second) {
      Sorting.StringBeforeAsymmetric(b.second, c.second);
    }
  }
}
