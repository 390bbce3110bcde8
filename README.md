# State of the data: a verified model of the field-coverage report

`sotd.py` builds a "state of the data" report for 360Giving grant files. It does four things:

- It reads the 360Giving JSON schema into a table of fields. Each top-level property becomes one row. A property whose `items.$ref` names a definition becomes one row per child of that definition instead. Each row carries a parent weight, a field weight and an optionality offset: 0 for required fields, 50 for recommended fields, 100 for the rest. The table is sorted on those weights.
- It flattens the corpus summary document (`data_all.json`) into one dotted-path row per publisher file, indexed by the file's identifier.
- It counts, for every record file, how often each normalised field path has a value. `grants.item.` and `.item` are removed from the path.
- It merges those counts into a frequency matrix: one row per path, one column per file. It attaches the schema columns to the matrix, sorts it, and collects each file's metadata row from the summary table.

This project models those four steps in Dafny and proves what they compute.

| module | file | models |
|---|---|---|
| `Wrappers` | `wrappers.dfy` | `Option` and `Result`, and `Collect`: a sequence of results becomes the first error or all the values |
| `Maps` | `maps.dfy` | map extensionality |
| `Strings` | `strings.dfy` | `str.replace` (every leftmost non-overlapping occurrence), the last field of `str.split(sep)`, and Python's string order |
| `Json` | `json.dfy` | loaded JSON values, and Python's `in`, subscript and arithmetic on them, where a `TypeError` or `KeyError` is `None` |
| `Sorting` | `sorting.dfy` | `sort_values` over up to four columns: ascending, NaN last in each column, stable |
| `Schema` | `schema.dfy` | `getSchemaFields` |
| `Flatten` | `flatten.dfy` | `flattenJson` and `getDataAllFields` |
| `Counting` | `counting.dfy` | the per-file counting in `getColumnFields`: identifier, `keyList`, `keyFreq` |
| `Matrix` | `matrix.dfy` | `dfFreq` as `DataFrame.add(..., fill_value=0)` accumulates it |
| `Columns` | `columns.dfy` | the rest of `getColumnFields`: the file loop, the metadata rows, the schema join and the final sort |

## How the model is shaped

Each loop of the source is a `method`, proved against a specification function:

- `GetSchemaFields` and its `Append*` helpers: the property loop and the child loop.
- `FlattenJson`: the member loop, the list loop and the recursion.
- `WriteNested`: the `for j in get.keys()` loop.
- `DataAllFields`: the entry loop.
- `CollectPaths` and `CountKeys`: the two counting loops.
- `ReadFiles` and `ReadFile`: the file loop.
- `AssignSchemaColumns`: the column assignment.

pandas operations are functions: `sort_values` is `Sorting.SortBy`, `DataFrame.add` is `Matrix.Add`, and `.loc` is `Columns.Cell`.

A Python dict is a sequence of members in document order, the order Python 3.7 and later iterate a loaded dict in. `json.load` keeps one member per key. A flattened record is a `map` from path to scalar.

Numbers are exact reals. Where the source evaluates `True + 50`, booleans count as 0 and 1.

Where the source's behaviour is surprising, the model follows the code:

- A `$ref` whose definition is missing, or has no `properties`, contributes no rows at all. This includes no row for the property itself (`Schema.UnresolvedReference`).
- The schema table is sorted on ParentWeight, Parent and Weight only. Rows that tie keep their schema order, because the sort is stable.
- `dfFreq` starts with a row labelled `Fields`. That row is kept and reaches the final table (`Matrix.SeedRowKept`, `Columns.TableRows`). It has no counts unless some value event's prefix normalises to `Fields`. That happens for a top-level or grant-level key `Fields`, or for a key `Fields.item` (`Counting.GrantKeyNamedFields`, `Columns.RowCounts`). It has no schema columns unless the schema table has a row for `Fields`, which only a leaf property of that name gives; a property `Fields` whose `$ref` resolves yields only `Fields.child` rows (`Columns.JoinRow`, `Schema.ExpandedProperty`).
- The schema columns are assigned by index alignment. A path that only the schema knows never gets a row in the frequency table (`Columns.TableRows`).
- When no summary entry has an `identifier`, `from_records(..., index="identifier")` raises. `getDataAllFields` then returns None (`Flatten.DataAllFields`).
- `.replace(".item", "")` does not stop at key boundaries. `grants.item.x.itemName` is counted under `xName` (`Counting.NormaliseItemKey`).
- The publisher is looked up before the file is read. The other metadata columns are looked up after the counting. The first file whose metadata cannot be read ends the run with that `KeyError` (`Columns.PublisherFirst`, `Columns.FirstFailureStops`).

## Model

| member | source | states |
|---|---|---|
| Schema.Optionality | sotd.py:95-100 | the offset is 0 exactly when the property is required, 50 exactly when it is not required but recommended, and 100 otherwise |
| Schema.ParentWeight | sotd.py:101-109 | the parent weight is the property's own weight when it has one; otherwise the same-named definition's weight; 99 when that definition has no weight; 100 when there is no such definition. The offset is added in each case. A weight is read by `Json.AsNumber`: a number as it is, a boolean as 0 or 1, and anything else raises |
| Schema.ChildWeight | sotd.py:124-132 | a child's weight is its own weight / 1000; otherwise the same-named definition's weight / 1000; 0.099 when that definition has no weight; 0.1 when there is no such definition. Weights are read by `Json.AsNumber` |
| Schema.ChildRows | sotd.py:123-133 | the children give rows exactly when every child's weight can be computed: one row per child, in order, named `parent.child`, with the parent's weights and the child's weight |
| Schema.ExpandedRows | sotd.py:118-133 | every row of an expansion has the property as its parent and carries the property's parent weight and offset |
| Schema.PropertyRows | sotd.py:93-133 | every row a property contributes has that property as parent, the offset for its required/recommended class, and the parent weight derived for it |
| Schema.GetSchemaFields | sotd.py:78-141 | the property loop and the sort return exactly the sorted schema table, or None where one property fails |
| Schema.SchemaFields | sotd.py:86-140 | the specification of getSchemaFields: each property's rows in order, stably sorted on ParentWeight, Parent, Weight. What it computes is stated by `Schema.TableRowsDescend`, `Schema.PropertyRowsInTable` and `Schema.ParentGroupsContiguous` |
| Schema.AppendPropertyRows | sotd.py:93-133 | one pass of the property loop fails exactly when the property's rows cannot be computed; otherwise it appends exactly those rows |
| Schema.AppendExpandedRows | sotd.py:118-133 | the `$ref` branch appends exactly the expansion's rows, nothing for an unresolved reference, and fails where the expansion does |
| Schema.AppendChildRows | sotd.py:123-133 | the child loop appends one row per child, in order, and fails exactly when some child's weight cannot be computed |
| Schema.LeafProperty | sotd.py:112-117 | a property without `items`, or whose `items` has no `$ref`, is one row that is its own parent, with its parent weight as its weight |
| Schema.ResolvesToChildren | sotd.py:120-123 | a `$ref` whose last `/`-segment names a definition with `properties` resolves to that definition's children |
| Schema.ResolvesToNothing | sotd.py:120-122 | a `$ref` naming a missing definition, or one without `properties`, resolves to nothing |
| Schema.ExpandedProperty | sotd.py:118-133 | an expanded property gives one row per child of the definition, named `name.child`, each with that child's weight, and no row named after the property itself |
| Schema.UnresolvedReference | sotd.py:120-122 | a property whose `$ref` cannot be resolved contributes no rows |
| Schema.TableRowsDescend | sotd.py:93-138 | every row of the sorted table is one of the rows that some top-level property contributes (`PropertyRows`): its parent is that property, its parent weight is the one derived for it, and its offset is 0/50/100 exactly as the parent is required, recommended, or neither |
| Schema.PropertyRowsInTable | sotd.py:93-138 | conversely, when the table is built, every row that any top-level property contributes is in it; with `TableRowsDescend`, a row is in the table exactly when some top-level property contributes it |
| Schema.ConcatIncludes | sotd.py:114-133 | every row appended for any property is among the rows collected in `schemaSort` |
| Schema.ParentGroupsContiguous | sotd.py:138 | in the sorted table, any row between two rows with the same parent and parent weight has that same parent and parent weight |
| Json.LookupFirst | sotd.py:102 | a dict lookup finds a value exactly when some member has the key, and answers with the first such member's value |
| Json.Has | sotd.py:101 | `key in x` answers for a dict, a list or a string, and raises for any other type; on a dict it is key membership |
| Json.Get | sotd.py:102 | `x[key]` answers exactly when `x` is a dict holding the key |
| Flatten.Nest | sotd.py:153-158 | writing `get` under `key + delim` puts each nested value at its prefixed path, keeps every other earlier path, adds nothing else, and keeps the record scalar |
| Flatten.Flatten | sotd.py:143-163 | a value that is not a dict flattens to None, and any flattening holds only scalars |
| Flatten.FlattenMember | sotd.py:150-160 | an empty list member adds nothing, and a member keeps the record scalar |
| Flatten.MemberRules | sotd.py:150-160 | a scalar member is written at its own key; a dict member's flattening is written under `key + delim` over the earlier paths (`Flatten.Nest`); a dict member that cannot be flattened fails the record |
| Flatten.MixedRecord | sotd.py:149-160 | `{"a": 1, "b": {"c": "x"}}` flattens to `{"a": 1, "b.c": "x"}` |
| Flatten.FlattenJson | sotd.py:143-163 | the recursive walk over members and list elements returns exactly the flattening |
| Flatten.WriteNested | sotd.py:153-154 | the inner key loop writes exactly `Nest`, whatever order the keys come in |
| Flatten.NestUpdate | sotd.py:154 | nesting one more key is one more map update, at the prefixed path |
| Flatten.ScalarRecord | sotd.py:159-160 | a record with only scalar members flattens to exactly its own keys and values |
| Flatten.LastItemWins | sotd.py:150-154 | for a list member, every path the last element produces holds that element's value, whatever the earlier elements wrote |
| Flatten.SequenceCollapse | sotd.py:150-154 | `{"a": [{"b": 1}, {"b": 2}]}` flattens to `{"a.b": 2}` |
| Flatten.NonRecordItemFails | sotd.py:151-162 | a list element that is not a dict, in a list held by a top-level member, makes the whole record's flattening None |
| Flatten.FlattenShaped | sotd.py:143-163 | a value flattens exactly when it is a dict whose members are scalars, such dicts, or lists of such dicts, at any depth. A list element that is not a dict anywhere below makes the result None, and nothing else does |
| Flatten.NestedNonRecordFails | sotd.py:150-162 | `{"a": {"b": [1]}}` flattens to None: the failing list element sits two levels down |
| Flatten.DataAllFields | sotd.py:165-181 | the summary gives rows exactly when every entry flattens and some entry has an `identifier`. A list summary then gives one row per element, in order, each that element's flattening; any other summary gives the single row of its own flattening |
| Counting.FileIdentifier | sotd.py:197 | a file `dir/name.json`, with no other `.json` in the path and no separator in its name, is identified by `name` |
| Counting.Identifier | sotd.py:197 | a file's identifier: its path with every `.json` removed, after the last separator. `Counting.FileIdentifier` states what it gives for an ordinary file path |
| Counting.JsonSuffixRemoved | sotd.py:197 | removing every `.json` from a path that has one only at its end leaves the rest |
| Counting.GrantFieldPath | sotd.py:203 | a grant field whose path holds neither removed string is counted under its own path |
| Counting.NormaliseGrantField | sotd.py:203 | `grants.item.amountAwarded` is counted as `amountAwarded` |
| Counting.NormaliseItemKey | sotd.py:203 | `grants.item.x.itemName` is counted as `xName` |
| Counting.GrantKeyNamedFields | sotd.py:203 | a grant-level key `Fields` is counted under `Fields`, the seed row's label |
| Counting.Normalise | sotd.py:203 | the path an event prefix is counted under: every `grants.item.`, then every `.item`, removed. `Counting.GrantFieldPath`, `Counting.NormaliseGrantField` and `Counting.NormaliseItemKey` state what it gives |
| Counting.Tally | sotd.py:204-207 | the counted keys are exactly the keys in the list |
| Counting.CountFields | sotd.py:200-207 | the two loops give each normalised path of a value event with its number of occurrences |
| Counting.CollectPaths | sotd.py:200-203 | `keyList` is the normalised prefix of each value event, in stream order |
| Counting.FieldPaths | sotd.py:200-203 | `keyList` as a function of the event stream. `Counting.PathPerValueEvent` and `Counting.PathsComeFromValueEvents` state what it holds |
| Counting.CountKeys | sotd.py:204-207 | `keyFreq` maps each key of the list to its number of occurrences |
| Counting.TallyAppend | sotd.py:205-206 | counting one more key raises its count by one, from zero for a new key, and changes no other count |
| Counting.PathPerValueEvent | sotd.py:200-203 | `keyList` has exactly one path per value event |
| Counting.PathsComeFromValueEvents | sotd.py:200-203 | a path is in `keyList` exactly when some value event's prefix normalises to it |
| Counting.TallyTotal | sotd.py:204-207 | the counts add up to the length of `keyList` |
| Counting.CountsSumToValueEvents | sotd.py:200-207 | a file's counts add up to its number of value events |
| Matrix.Add | sotd.py:211-213 | adding a file unites the rows with the file's paths and the columns with its identifier, and keeps every cell inside the frame |
| Matrix.Merge | sotd.py:192-213 | `dfFreq` after adding each file in turn. `Matrix.MergeRows`, `Matrix.MergeCols`, `Matrix.MergeCellDefined`, `Matrix.MergeCellValue` and `Matrix.MergeOrderIndependent` state what it holds |
| Matrix.AddCell | sotd.py:213 | after adding a file, a cell is defined exactly when it was already defined or the file observed it, and its value is the sum of both sides |
| Matrix.AddCommutes | sotd.py:213 | adding two files in either order gives the same matrix |
| Matrix.MergeOrderIndependent | sotd.py:192-213 | the matrix depends only on the multiset of files, not on the order in which they are listed |
| Matrix.MergeRows | sotd.py:189-213 | a path is a row exactly when it was a row at the start or some file has a value at it |
| Matrix.MergeCols | sotd.py:189-213 | a column exists exactly when it existed at the start or is some file's identifier |
| Matrix.MergeCellDefined | sotd.py:192-213 | a cell is defined exactly when it was defined at the start or some file observed that path under that identifier |
| Matrix.MergeCellValue | sotd.py:192-213 | a cell holds its starting value plus the counts every file with that identifier has for that path |
| Matrix.DocumentColumn | sotd.py:211-213 | for a file with a unique identifier, its column has a cell exactly at the paths it observed, holding that file's count |
| Matrix.SeedRowKept | sotd.py:189 | the seed row `Fields` is always a row of the matrix |
| Matrix.MergeWellFormed | sotd.py:189-213 | every defined cell stays inside the matrix's rows and columns |
| Columns.SchemaRowFor | sotd.py:216-219 | a path has a schema row exactly when some schema row is indexed by it, and the row returned is one of those |
| Columns.JoinRow | sotd.py:216-220 | `In Schema` holds exactly when Weight is present, which is exactly when the path is in the schema table. The schema columns are then a schema row for that path, and are all NaN otherwise. The counts are exactly the row's defined cells |
| Columns.FrequencyTable | sotd.py:216-225 | the final table is sorted on (ParentWeight, Parent, Weight, Fields) and holds every row of the matrix exactly once, joined with the schema table |
| Columns.AssignSchemaColumns | sotd.py:216-220 | the column assignment joins every row of the matrix exactly once, and adds no other row |
| Columns.SortedJoinedRows | sotd.py:225 | sorting the joined rows gives a frequency table |
| Columns.FrequencyTableUnique | sotd.py:225 | the frequency table is fully determined by the matrix and the schema table |
| Columns.SummaryRow | sotd.py:198 | a summary row is found exactly when some row is indexed by the identifier, and the row returned is such a row |
| Columns.Cell | sotd.py:198 | `dfAll.loc[identifier, column]`: KeyError for a missing identifier or column, NaN for a row without the column. `Columns.CellRead` states what a successful lookup reads |
| Columns.Metadata | sotd.py:208 | the metadata row of one file, its columns read in the source's order. `Columns.MetadataFromSummary` and `Columns.PublisherFirst` state when it exists and what it holds |
| Columns.MetadataFromSummary | sotd.py:208 | a file has a metadata row exactly when its identifier indexes a summary row and every metadata column exists. A missing identifier is a KeyError. Each of the seven columns (publisher, download time, licence, prefix, title, file type, validity) holds that row's value, and is NaN exactly where the row lacks it |
| Columns.CellRead | sotd.py:198 | a `.loc` lookup that succeeds reads the identifier's row: the row's value, or NaN exactly where the row lacks the column |
| Columns.FirstFailureStops | sotd.py:192-208 | the run fails with the error of the first file whose metadata cannot be read |
| Columns.AllFilesRead | sotd.py:192-226 | when every file's metadata can be read, the metadata table has each file's row, in file order |
| Columns.PublisherFirst | sotd.py:198 | a file whose publisher cannot be looked up fails with that lookup's error |
| Columns.ColumnFields | sotd.py:183-227 | getColumnFields fails exactly with the first metadata error. Otherwise it returns every file's metadata row, in order, and a frequency table of the matrix of all files' counts. Each file's column is its identifier (`Columns.Identifiers`) with the tally of its normalised paths (`Columns.Documents`) |
| Columns.ReadFiles | sotd.py:192-213 | the file loop returns the metadata table and the matrix merged from every file, or the first metadata error |
| Columns.ReadFile | sotd.py:192-213 | one file fails exactly when its metadata does, with the same error; otherwise it yields its metadata row and its identifier with its path counts |
| Columns.MergeStep | sotd.py:213 | merging one more file is one more `add` |
| Columns.TableRows | sotd.py:189-213 | the final table has a row exactly for the seed row `Fields` and for each path some file has a value at |
| Columns.RowCounts | sotd.py:200-213 | for a file with a unique identifier, the count in that file's column of a joined row (which every frequency-table row is) is present exactly when the file has a value at the path, and is that path's number of occurrences |
| Sorting.KeyLessEqTotal | sotd.py:225 | any two sort keys are ordered one way or the other |
| Sorting.KeyLessEqTransitive | sotd.py:225 | the sort order is transitive |
| Sorting.KeyLessEqAntisymmetric | sotd.py:225 | two keys each sorting before the other are equal |
| Sorting.Insert | sotd.py:138 | inserting into a sorted sequence keeps it sorted and adds exactly the one element |
| Sorting.SortBy | sotd.py:138 | the result is sorted and a permutation of the input |
| Sorting.InsertStable | sotd.py:138 | inserting an element puts it after every element with an equal key |
| Sorting.SortByStable | sotd.py:138 | rows with equal keys keep their original relative order |
| Sorting.SortedUnique | sotd.py:225 | when no two distinct rows share a key, a set of distinct rows has only one sorted order |
| Strings.ReplaceAllAbsent | sotd.py:203 | replacing a pattern that does not occur changes nothing |
| Strings.ReplaceAll | sotd.py:203 | `str.replace`: every leftmost non-overlapping occurrence replaced. `Strings.ReplaceAllLeftmost` and `Strings.ReplaceAllAbsent` state what it gives |
| Strings.ReplaceAllLeftmost | sotd.py:203 | replacement starts at the leftmost occurrence: everything before it is kept, it is replaced, and the rest is processed in turn |
| Strings.AfterLastSuffix | sotd.py:197 | the last field of a split is the longest suffix without the separator |
| Strings.AfterLast | sotd.py:197 | `s.split(sep)[-1]`. `Strings.AfterLastSuffix` and `Strings.AfterLastAppend` state what it gives |
| Strings.AfterLastAppend | sotd.py:197 | the part after a separator followed by no other separator is the last field |
| Strings.LessEqTotal | sotd.py:138 | Python's string order is total |
| Strings.LessEqAntisymmetric | sotd.py:138 | two strings each at most the other are equal |
| Strings.LessEqTransitive | sotd.py:138 | Python's string order is transitive |

## Left out

- Downloading and unpacking the tarball and the schema (`checkParams`, `get_members`, `getTar`, `getSchema`), opening files and `json.load`. These are I/O; the model takes the loaded values as parameters.
- `main`, its argument parsing, its messages and `to_csv`. The recommended-field list it passes is a parameter of `Schema.SchemaFields`.
- The ijson tokenizer. A record file is its event stream of `(prefix, event)` pairs; the values are never used, and parse errors are not modelled.
- `eventList`: it is built and never read.
- Floating point. Weights are exact reals, so `w / 1000` and the sums of counts are exact.
- pandas' column order, the `Fields` column moved to the front, and the dtypes of the frames. The frequency table is a sequence of rows with named columns.
- Dict iteration order under Python 3.5, which the source header names: there a loaded dict iterates in hash order, which can change from run to run. That order decides two things the model fixes by document order. One is the order of tied rows in the stable schema sort (sotd.py:138), for example children that all default to 0.1. The other is which of two colliding flattened paths wins (sotd.py:149-160).
- Repeated keys in one JSON object: `json.load` keeps the last. The model takes objects whose keys are already distinct.
- Schema.SchemaFields: a `properties` or a definition's `properties` that is not a dict is an error here. For the top-level `properties`, the source would iterate an empty list or string into an empty table. For a definition's `properties` that is an empty list or string, it would add no child rows for that property; any other non-dict fails there in both.
- Columns.SummaryRow: when several summary rows share an identifier, the first is used. pandas would answer with a Series.
- Columns.SchemaRowFor: when several schema rows share a path, the first is used. pandas' index alignment would raise.
- Identifiers that coincide with the frequency frame's own column names (`Parent`, `Weight`, …). pandas would overwrite those columns.
- Strings.ReplaceAll: requires a non-empty pattern. The source only replaces non-empty literals.
- Flatten.DataAllFields: an entry that cannot be flattened makes the whole result None. The exception pandas raises on a `None` record is not modelled beyond that.
- The broad `except` clauses beyond the ones above. Only `TypeError`, `KeyError` and `AttributeError` on the modelled operations are modelled, as `None` or `Err`.
