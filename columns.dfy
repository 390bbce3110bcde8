/** getColumnFields: count every record file, merge the counts into the frequency matrix, attach
    the schema columns to its rows, sort it, and collect each file's metadata row from the summary
    table. */
module Columns {
  import opened Wrappers
  import opened Json
  import Flatten
  import Counting
  import Schema
  import Sorting
  import Matrix

  /** A row of the frequency table: Fields, Parent, ParentWeight, Weight, OptionalWeight, In Schema,
      then the count of each identifier column where it is not NaN. */
  datatype FreqRow = FreqRow(
    fields: string,
    parent: Option<string>,
    parentWeight: Option<real>,
    weight: Option<real>,
    optionalWeight: Option<int>,
    inSchema: bool,
    counts: map<string, nat>)

  /** The schema table row indexed by `path`, the first one if several are. */
  function SchemaRowFor(schema: seq<Schema.SchemaRow>, path: string): (r: Option<Schema.SchemaRow>)
    ensures r.Some? <==> exists i | 0 <= i < |schema| :: schema[i].fields == path
    ensures r.Some? ==> r.value in schema && r.value.fields == path
  {
    if schema == [] then None
    else if schema[0].fields == path then Some(schema[0])
    else
      var r := SchemaRowFor(schema[1..], path);
      assert forall i | 1 <= i < |schema| :: schema[1..][i - 1] == schema[i];
      r
  }

  /** The row of the matrix for `path` with the schema columns assigned by index alignment and
      `In Schema` set where Weight is not NaN. */
  function JoinRow(m: Matrix.Matrix, schema: seq<Schema.SchemaRow>, path: string): (r: FreqRow)
    ensures r.fields == path
    ensures r.inSchema <==> r.weight.Some?
    ensures r.inSchema <==> exists i | 0 <= i < |schema| :: schema[i].fields == path
    ensures r.inSchema ==> r.parent.Some? && r.parentWeight.Some? && r.optionalWeight.Some?
    ensures r.inSchema ==> exists i | 0 <= i < |schema| ::
      schema[i] == Schema.SchemaRow(path, r.parent.value, r.parentWeight.value, r.weight.value, r.optionalWeight.value)
    ensures !r.inSchema ==> r.parent.None? && r.parentWeight.None? && r.optionalWeight.None?
    ensures Matrix.WellFormed(m) ==> forall c :: c in r.counts <==> (path, c) in m.cells
    ensures forall c | c in r.counts :: (path, c) in m.cells && r.counts[c] == m.cells[(path, c)]
  {
    var counts := map c | c in m.cols && (path, c) in m.cells :: m.cells[(path, c)];
    match SchemaRowFor(schema, path)
    case None => FreqRow(path, None, None, None, None, false, counts)
    case Some(s) => FreqRow(path, Some(s.parent), Some(s.parentWeight), Some(s.weight), Some(s.optionalWeight), true, counts)
  }

  /** The sort columns of the frequency table: ParentWeight, Parent, Weight, Fields. */
  function FreqKey(r: FreqRow): Sorting.SortKey {
    Sorting.SortKey(r.parentWeight, r.parent, r.weight, r.fields)
  }

  /** `table` lists the rows of `m`, one row per path and none other, each joined with the schema
      table, in sort order. */
  predicate IsFrequencyTable(table: seq<FreqRow>, m: Matrix.Matrix, schema: seq<Schema.SchemaRow>) {
    && Sorting.Sorted(table, FreqKey)
    && (forall i | 0 <= i < |table| :: table[i].fields in m.rows && table[i] == JoinRow(m, schema, table[i].fields))
    && (forall p | p in m.rows :: exists i | 0 <= i < |table| :: table[i].fields == p)
    && (forall i, j | 0 <= i < j < |table| :: table[i].fields != table[j].fields)
  }

  /** An element at two places of a sequence is counted twice. */
  lemma DuplicateCounted<T>(s: seq<T>, i: nat, j: nat)
    requires i < j < |s| && s[i] == s[j]
    ensures multiset(s)[s[i]] >= 2
  {
    assert s == s[..j] + [s[j]] + s[j + 1..];
    assert s[..j][i] == s[i];
    assert multiset(s) == multiset(s[..j]) + multiset{s[j]} + multiset(s[j + 1..]);
  }

  /** Every row of `m` joined once, in any order. */
  ghost predicate JoinedRows(rows: seq<FreqRow>, m: Matrix.Matrix, schema: seq<Schema.SchemaRow>) {
    && (forall i | 0 <= i < |rows| :: rows[i].fields in m.rows && rows[i] == JoinRow(m, schema, rows[i].fields))
    && (forall p | p in m.rows :: exists i | 0 <= i < |rows| :: rows[i].fields == p)
    && (forall x :: multiset(rows)[x] <= 1)
  }

  /** The schema columns are assigned to the rows of the matrix, then the rows are sorted on
      (ParentWeight, Parent, Weight, Fields). */
  method FrequencyTable(m: Matrix.Matrix, schema: seq<Schema.SchemaRow>) returns (table: seq<FreqRow>)
    ensures IsFrequencyTable(table, m, schema)
  {
    var unsorted := AssignSchemaColumns(m, schema);
    table := Sorting.SortBy(unsorted, FreqKey);
    SortedJoinedRows(unsorted, table, m, schema);
  }

  /** `dfFreq["Parent"] = dfSchema["Parent"]` and the other schema columns, row by row. */
  method AssignSchemaColumns(m: Matrix.Matrix, schema: seq<Schema.SchemaRow>) returns (unsorted: seq<FreqRow>)
    ensures JoinedRows(unsorted, m, schema)
  {
    unsorted := [];
    var todo := m.rows;
    while todo != {}
      invariant todo <= m.rows
      invariant forall i | 0 <= i < |unsorted| ::
        unsorted[i].fields in m.rows - todo && unsorted[i] == JoinRow(m, schema, unsorted[i].fields)
      invariant forall p | p in m.rows - todo :: exists i | 0 <= i < |unsorted| :: unsorted[i].fields == p
      invariant forall x :: multiset(unsorted)[x] <= 1
      decreases todo
    {
      var path :| path in todo;
      var row := JoinRow(m, schema, path);
      assert row !in unsorted;
      ghost var before, pending := unsorted, todo;
      unsorted := unsorted + [row];
      todo := todo - {path};
      assert multiset(unsorted) == multiset(before) + multiset{row};
      forall p | p in m.rows - todo
        ensures exists i | 0 <= i < |unsorted| :: unsorted[i].fields == p
      {
        if p == path {
          assert unsorted[|before|].fields == p;
        } else {
          assert p in m.rows - pending;
          var i :| 0 <= i < |before| && before[i].fields == p;
          assert unsorted[i] == before[i];
        }
      }
    }
    assert m.rows - todo == m.rows;
  }

  /** Sorting the joined rows gives the frequency table. */
  lemma SortedJoinedRows(unsorted: seq<FreqRow>, table: seq<FreqRow>, m: Matrix.Matrix, schema: seq<Schema.SchemaRow>)
    requires JoinedRows(unsorted, m, schema)
    requires Sorting.Sorted(table, FreqKey) && multiset(table) == multiset(unsorted)
    ensures IsFrequencyTable(table, m, schema)
  {
    forall i | 0 <= i < |table|
      ensures table[i].fields in m.rows && table[i] == JoinRow(m, schema, table[i].fields)
    {
      assert table[i] in multiset(unsorted);
    }
    forall p | p in m.rows
      ensures exists i | 0 <= i < |table| :: table[i].fields == p
    {
      var k :| 0 <= k < |unsorted| && unsorted[k].fields == p;
      assert unsorted[k] in multiset(table);
    }
    forall i, j | 0 <= i < j < |table|
      ensures table[i].fields != table[j].fields
    {
      if table[i].fields == table[j].fields {
        DuplicateCounted(table, i, j);
      }
    }
  }

  /** The frequency table is fully determined by the matrix and the schema table: its sort keys
      end in the path, which is unique, so no two rows tie. */
  lemma FrequencyTableUnique(t1: seq<FreqRow>, t2: seq<FreqRow>, m: Matrix.Matrix, schema: seq<Schema.SchemaRow>)
    requires IsFrequencyTable(t1, m, schema) && IsFrequencyTable(t2, m, schema)
    ensures t1 == t2
  {
    forall x
      ensures x in t1 <==> x in t2
    {
      if x in t1 {
        var i :| 0 <= i < |t1| && t1[i] == x;
        assert x.fields in m.rows;
        var k :| 0 <= k < |t2| && t2[k].fields == x.fields;
        assert t2[k] == x;
      }
      if x in t2 {
        var k :| 0 <= k < |t2| && t2[k] == x;
        assert x.fields in m.rows;
        var i :| 0 <= i < |t1| && t1[i].fields == x.fields;
        assert t1[i] == x;
      }
    }
    forall x, y | x in t1 && y in t1 && FreqKey(x) == FreqKey(y)
      ensures x == y
    {
      var i :| 0 <= i < |t1| && t1[i] == x;
      var j :| 0 <= j < |t1| && t1[j] == y;
    }
    Sorting.SortedUnique(t1, t2, FreqKey);
  }

  /** Why a file's metadata cannot be read: `dfAll.loc[identifier, column]` raises KeyError. */
  datatype Error = MissingIdentifier(identifier: string) | MissingColumn(column: string)

  /** Identifier, Publisher, Downloaded, License, Prefix, Title, Type, Valid; a NaN cell is `None`. */
  datatype MetaRow = MetaRow(
    identifier: string,
    publisher: Option<Value>,
    downloaded: Option<Value>,
    license: Option<Value>,
    prefix: Option<Value>,
    title: Option<Value>,
    fileType: Option<Value>,
    valid: Option<Value>)

  /** A summary row is indexed by `id`. */
  predicate IndexedBy(row: Flatten.Flat, id: string) {
    "identifier" in row && row["identifier"] == Str(id)
  }

  /** Some summary row has the column. */
  predicate HasColumn(summary: seq<Flatten.Flat>, column: string) {
    exists e | 0 <= e < |summary| :: column in summary[e]
  }

  /** The summary row indexed by `id`, the first one if several are. */
  function SummaryRow(summary: seq<Flatten.Flat>, id: string): (r: Option<Flatten.Flat>)
    ensures r.Some? <==> exists e | 0 <= e < |summary| :: IndexedBy(summary[e], id)
    ensures r.Some? ==> r.value in summary && IndexedBy(r.value, id)
  {
    if summary == [] then None
    else if IndexedBy(summary[0], id) then Some(summary[0])
    else
      var r := SummaryRow(summary[1..], id);
      assert forall e | 1 <= e < |summary| :: summary[1..][e - 1] == summary[e];
      r
  }

  /** `dfAll.loc[id, column]`: KeyError when no row is indexed by `id` or no row has the column;
      NaN (`None`) when the row lacks the column. */
  function Cell(summary: seq<Flatten.Flat>, id: string, column: string): Result<Option<Value>, Error> {
    match SummaryRow(summary, id)
    case None => Err(MissingIdentifier(id))
    case Some(row) =>
      if !HasColumn(summary, column) then Err(MissingColumn(column))
      else if column in row then Ok(Some(row[column]))
      else Ok(None)
  }

  /** The metadata row of one file, its columns read in the order the source reads them. */
  function Metadata(summary: seq<Flatten.Flat>, id: string): Result<MetaRow, Error> {
    var publisher :- Cell(summary, id, "publisher.name");
    var downloaded :- Cell(summary, id, "datagetter_metadata.datetime_downloaded");
    var license :- Cell(summary, id, "datagetter_metadata.acceptable_license");
    var prefix :- Cell(summary, id, "publisher.prefix");
    var title :- Cell(summary, id, "distribution.title");
    var fileType :- Cell(summary, id, "datagetter_metadata.file_type");
    var valid :- Cell(summary, id, "datagetter_metadata.valid");
    Ok(MetaRow(id, publisher, downloaded, license, prefix, title, fileType, valid))
  }

  /** The metadata row, or the error, of each file in order. */
  function MetaResults(summary: seq<Flatten.Flat>, ids: seq<string>): (rs: seq<Result<MetaRow, Error>>)
    ensures |rs| == |ids|
    ensures forall i | 0 <= i < |ids| :: rs[i] == Metadata(summary, ids[i])
  {
    seq(|ids|, i requires 0 <= i < |ids| => Metadata(summary, ids[i]))
  }

  /** The metadata rows of the files in order, or the error of the first file that has none. */
  function MetaTable(summary: seq<Flatten.Flat>, ids: seq<string>): Result<seq<MetaRow>, Error> {
    Collect(MetaResults(summary, ids))
  }

  /** A file's metadata is that of the first summary row indexed by its identifier; it exists
      exactly when such a row exists and every column is present in some row. */
  lemma MetadataFromSummary(summary: seq<Flatten.Flat>, id: string)
    ensures Metadata(summary, id).Ok? <==>
      && SummaryRow(summary, id).Some?
      && HasColumn(summary, "publisher.name")
      && HasColumn(summary, "datagetter_metadata.datetime_downloaded")
      && HasColumn(summary, "datagetter_metadata.acceptable_license")
      && HasColumn(summary, "publisher.prefix")
      && HasColumn(summary, "distribution.title")
      && HasColumn(summary, "datagetter_metadata.file_type")
      && HasColumn(summary, "datagetter_metadata.valid")
    ensures SummaryRow(summary, id).None? ==> Metadata(summary, id) == Err(MissingIdentifier(id))
    ensures Metadata(summary, id).Ok? ==>
      var row, meta := SummaryRow(summary, id).value, Metadata(summary, id).value;
      && meta.identifier == id
      && ReadFrom(row, "publisher.name", meta.publisher)
      && ReadFrom(row, "datagetter_metadata.datetime_downloaded", meta.downloaded)
      && ReadFrom(row, "datagetter_metadata.acceptable_license", meta.license)
      && ReadFrom(row, "publisher.prefix", meta.prefix)
      && ReadFrom(row, "distribution.title", meta.title)
      && ReadFrom(row, "datagetter_metadata.file_type", meta.fileType)
      && ReadFrom(row, "datagetter_metadata.valid", meta.valid)
  {
    MetadataExists(summary, id);
    if Metadata(summary, id).Ok? {
      MetadataColumns(summary, id);
    }
  }

  lemma MetadataExists(summary: seq<Flatten.Flat>, id: string)
    ensures Metadata(summary, id).Ok? <==>
      && SummaryRow(summary, id).Some?
      && HasColumn(summary, "publisher.name")
      && HasColumn(summary, "datagetter_metadata.datetime_downloaded")
      && HasColumn(summary, "datagetter_metadata.acceptable_license")
      && HasColumn(summary, "publisher.prefix")
      && HasColumn(summary, "distribution.title")
      && HasColumn(summary, "datagetter_metadata.file_type")
      && HasColumn(summary, "datagetter_metadata.valid")
    ensures SummaryRow(summary, id).None? ==> Metadata(summary, id) == Err(MissingIdentifier(id))
  {
  }

  lemma MetadataColumns(summary: seq<Flatten.Flat>, id: string)
    requires Metadata(summary, id).Ok?
    ensures SummaryRow(summary, id).Some?
    ensures var row, meta := SummaryRow(summary, id).value, Metadata(summary, id).value;
      && meta.identifier == id
      && ReadFrom(row, "publisher.name", meta.publisher)
      && ReadFrom(row, "datagetter_metadata.datetime_downloaded", meta.downloaded)
      && ReadFrom(row, "datagetter_metadata.acceptable_license", meta.license)
      && ReadFrom(row, "publisher.prefix", meta.prefix)
      && ReadFrom(row, "distribution.title", meta.title)
      && ReadFrom(row, "datagetter_metadata.file_type", meta.fileType)
      && ReadFrom(row, "datagetter_metadata.valid", meta.valid)
  {
    var c1 := Cell(summary, id, "publisher.name");
    var c2 := Cell(summary, id, "datagetter_metadata.datetime_downloaded");
    var c3 := Cell(summary, id, "datagetter_metadata.acceptable_license");
    var c4 := Cell(summary, id, "publisher.prefix");
    var c5 := Cell(summary, id, "distribution.title");
    var c6 := Cell(summary, id, "datagetter_metadata.file_type");
    var c7 := Cell(summary, id, "datagetter_metadata.valid");
    assert c1.Ok? && c2.Ok? && c3.Ok? && c4.Ok? && c5.Ok? && c6.Ok? && c7.Ok?;
    assert Metadata(summary, id).value
        == MetaRow(id, c1.value, c2.value, c3.value, c4.value, c5.value, c6.value, c7.value);
    CellRead(summary, id, "publisher.name");
    CellRead(summary, id, "datagetter_metadata.datetime_downloaded");
    CellRead(summary, id, "datagetter_metadata.acceptable_license");
    CellRead(summary, id, "publisher.prefix");
    CellRead(summary, id, "distribution.title");
    CellRead(summary, id, "datagetter_metadata.file_type");
    CellRead(summary, id, "datagetter_metadata.valid");
  }

  /** A lookup that succeeds reads the identifier's row: its value, or NaN where it lacks the column. */
  lemma CellRead(summary: seq<Flatten.Flat>, id: string, column: string)
    requires Cell(summary, id, column).Ok?
    ensures SummaryRow(summary, id).Some?
    ensures ReadFrom(SummaryRow(summary, id).value, column, Cell(summary, id, column).value)
  {
  }

  /** A metadata column holds the row's value, or NaN (`None`) exactly where the row lacks it. */
  predicate ReadFrom(row: Flatten.Flat, column: string, cell: Option<Value>) {
    && (column in row <==> cell.Some?)
    && (column in row ==> cell.value == row[column])
  }

  /** The run stops at the first file whose metadata cannot be read, with that file's error; when
      every file's can, the table holds each file's row in order. */
  lemma FirstFailureStops(summary: seq<Flatten.Flat>, ids: seq<string>, k: nat)
    requires k < |ids| && Metadata(summary, ids[k]).Err?
    requires forall j | 0 <= j < k :: Metadata(summary, ids[j]).Ok?
    ensures MetaTable(summary, ids) == Err(Metadata(summary, ids[k]).error)
  {
    CollectFirstError(MetaResults(summary, ids), k);
  }

  lemma AllFilesRead(summary: seq<Flatten.Flat>, ids: seq<string>)
    requires forall j | 0 <= j < |ids| :: Metadata(summary, ids[j]).Ok?
    ensures MetaTable(summary, ids).Ok? && |MetaTable(summary, ids).value| == |ids|
    ensures forall j | 0 <= j < |ids| :: MetaTable(summary, ids).value[j] == Metadata(summary, ids[j]).value
  {
    CollectAllOk(MetaResults(summary, ids));
  }

  /** The publisher is read first: a file without one fails with the publisher lookup's error. */
  lemma PublisherFirst(summary: seq<Flatten.Flat>, id: string)
    requires Cell(summary, id, "publisher.name").Err?
    ensures Metadata(summary, id) == Err(Cell(summary, id, "publisher.name").error)
  {
  }

  /** A record file: its path and its ijson event stream. */
  type File = (string, seq<Counting.Event>)

  /** The identifier of each file. */
  function Identifiers(files: seq<File>, sep: char): seq<string> {
    seq(|files|, i requires 0 <= i < |files| => Counting.Identifier(files[i].0, sep))
  }

  /** Each file as a column of the matrix: its identifier and its path counts. */
  function Documents(files: seq<File>, sep: char): seq<Matrix.Document> {
    seq(|files|, i requires 0 <= i < |files| =>
      (Counting.Identifier(files[i].0, sep), Counting.Tally(Counting.FieldPaths(files[i].1))))
  }

  /** getColumnFields: read every file into the metadata rows and the matrix, then attach the
      schema columns and sort. A file whose metadata cannot be read ends the run with that error. */
  method ColumnFields(files: seq<File>, summary: seq<Flatten.Flat>, schema: seq<Schema.SchemaRow>, sep: char)
    returns (r: Result<(seq<MetaRow>, seq<FreqRow>), Error>)
    ensures MetaTable(summary, Identifiers(files, sep)).Err? ==> r == Err(MetaTable(summary, Identifiers(files, sep)).error)
    ensures MetaTable(summary, Identifiers(files, sep)).Ok? ==> r.Ok? && r.value.0 == MetaTable(summary, Identifiers(files, sep)).value
    ensures r.Ok? ==> IsFrequencyTable(r.value.1, Matrix.Merge(Matrix.Initial, Documents(files, sep)), schema)
  {
    var read := ReadFiles(files, summary, sep);
    if read.Err? {
      return Err(read.error);
    }
    var (metaData, dfFreq) := read.value;
    var table := FrequencyTable(dfFreq, schema);
    return Ok((metaData, table));
  }

  /** The loop over the files: for each, read its publisher, count its paths, read its metadata
      row and add its counts to `dfFreq`; the first file whose metadata cannot be read stops it. */
  method ReadFiles(files: seq<File>, summary: seq<Flatten.Flat>, sep: char)
    returns (r: Result<(seq<MetaRow>, Matrix.Matrix), Error>)
    ensures MetaTable(summary, Identifiers(files, sep)).Err? ==> r == Err(MetaTable(summary, Identifiers(files, sep)).error)
    ensures MetaTable(summary, Identifiers(files, sep)).Ok? ==>
      r == Ok((MetaTable(summary, Identifiers(files, sep)).value, Matrix.Merge(Matrix.Initial, Documents(files, sep))))
  {
    ghost var results := MetaResults(summary, Identifiers(files, sep));
    ghost var docs := Documents(files, sep);
    var metaData: seq<MetaRow> := [];
    var dfFreq := Matrix.Initial;
    for i := 0 to |files|
      invariant Collect(results[..i]) == Ok(metaData)
      invariant dfFreq == Matrix.Merge(Matrix.Initial, docs[..i])
    {
      CollectStep(results, i);
      var read := ReadFile(files[i], summary, sep);
      if read.Err? {
        CollectFailsEarly(results, i + 1);
        return Err(read.error);
      }
      var (meta, doc) := read.value;
      metaData := metaData + [meta];
      MergeStep(docs, i);
      dfFreq := Matrix.Add(dfFreq, doc);
    }
    assert results[..|files|] == results && docs[..|files|] == docs;
    return Ok((metaData, dfFreq));
  }

  /** The body of the loop for one file: its publisher, its path counts, then its metadata row. */
  method ReadFile(file: File, summary: seq<Flatten.Flat>, sep: char) returns (r: Result<(MetaRow, Matrix.Document), Error>)
    ensures var id := Counting.Identifier(file.0, sep);
      && (r.Err? <==> Metadata(summary, id).Err?)
      && (r.Err? ==> r.error == Metadata(summary, id).error)
      && (r.Ok? ==> r.value == (Metadata(summary, id).value, (id, Counting.Tally(Counting.FieldPaths(file.1)))))
  {
    var identifier := Counting.Identifier(file.0, sep);
    var publisher := Cell(summary, identifier, "publisher.name");
    if publisher.Err? {
      PublisherFirst(summary, identifier);
      return Err(publisher.error);
    }
    var keyFreq := Counting.CountFields(file.1);
    var meta := Metadata(summary, identifier);
    if meta.Err? {
      return Err(meta.error);
    }
    return Ok((meta.value, (identifier, keyFreq)));
  }

  /** One more file's counts added to the matrix. */
  lemma MergeStep(docs: seq<Matrix.Document>, i: nat)
    requires i < |docs|
    ensures Matrix.Merge(Matrix.Initial, docs[..i + 1]) == Matrix.Add(Matrix.Merge(Matrix.Initial, docs[..i]), docs[i])
  {
    assert docs[..i + 1][..i] == docs[..i] && docs[..i + 1][i] == docs[i];
  }

  /** The rows of the frequency table: the seed row `Fields` and every path a file has a value at;
      a path only the schema table knows gets no row. */
  lemma TableRows(table: seq<FreqRow>, files: seq<File>, sep: char, schema: seq<Schema.SchemaRow>, path: string)
    requires IsFrequencyTable(table, Matrix.Merge(Matrix.Initial, Documents(files, sep)), schema)
    ensures (exists i | 0 <= i < |table| :: table[i].fields == path) <==>
      path == Matrix.SeedRow || exists d | 0 <= d < |files| :: path in Counting.FieldPaths(files[d].1)
  {
    var docs := Documents(files, sep);
    Matrix.MergeRows(Matrix.Initial, docs, path);
    if exists d | 0 <= d < |files| :: path in Counting.FieldPaths(files[d].1) {
      var d :| 0 <= d < |files| && path in Counting.FieldPaths(files[d].1);
      assert path in docs[d].1;
    }
  }

  /** A path's count for a file with a unique identifier is the number of that file's value
      events whose prefix normalises to the path; a path the file never reaches has no count. Every
      row of the frequency table is such a joined row (`IsFrequencyTable`). */
  lemma RowCounts(files: seq<File>, sep: char, schema: seq<Schema.SchemaRow>, path: string, d: nat)
    requires d < |files|
    requires forall e | 0 <= e < |files| && e != d :: Counting.Identifier(files[e].0, sep) != Counting.Identifier(files[d].0, sep)
    ensures var row := JoinRow(Matrix.Merge(Matrix.Initial, Documents(files, sep)), schema, path);
      var id, keys := Counting.Identifier(files[d].0, sep), Counting.FieldPaths(files[d].1);
      && (id in row.counts <==> path in keys)
      && (id in row.counts ==> row.counts[id] == multiset(keys)[path])
  {
    var docs := Documents(files, sep);
    Matrix.MergeWellFormed(Matrix.Initial, docs);
    Matrix.DocumentColumn(docs, d, path);
  }
}
