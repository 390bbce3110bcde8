/** The frequency matrix `dfFreq` as getColumnFields accumulates it: one row per field path, one
    column per document identifier, and a cell only where some document observed the path. */
module Matrix {
  import Maps

  /** The row `dfFreq` is created with. */
  const SeedRow := "Fields"

  /** A document's identifier and the count of each path in it. */
  type Document = (string, map<string, nat>)

  /** Row labels, count columns, and the defined cells keyed by (row, column); a missing cell is
      pandas' NaN. */
  datatype Matrix = Matrix(rows: set<string>, cols: set<string>, cells: map<(string, string), nat>)

  /** Every defined cell lies in a row and a column of the matrix. */
  predicate WellFormed(m: Matrix) {
    forall rc | rc in m.cells :: rc.0 in m.rows && rc.1 in m.cols
  }

  /** `dfFreq` before the first document: the seed row and no count column. */
  const Initial := Matrix({SeedRow}, {}, map[])

  /** A cell read as a number, NaN as 0, as `add` with `fill_value=0` reads a one-sided gap. */
  function CellOf(m: Matrix, rc: (string, string)): nat {
    if rc in m.cells then m.cells[rc] else 0
  }

  /** What one document adds to a cell. */
  function Contribution(doc: Document, rc: (string, string)): nat {
    if rc.1 == doc.0 && rc.0 in doc.1 then doc.1[rc.0] else 0
  }

  /** `dfFreq.add(df, fill_value=0)` for the one-column frame of a document: rows and columns are
      united; a cell present on one side only is taken with the other side as 0; a cell present
      on neither side stays NaN. */
  function Add(m: Matrix, doc: Document): (r: Matrix)
    ensures r.rows == m.rows + doc.1.Keys && r.cols == m.cols + {doc.0}
    ensures WellFormed(m) ==> WellFormed(r)
  {
    var id, counts := doc.0, doc.1;
    var added := set row | row in counts :: (row, id);
    Matrix(m.rows + counts.Keys, m.cols + {id},
      map rc | rc in m.cells.Keys + added ::
        if rc.1 == id && rc.0 in counts then CellOf(m, rc) + counts[rc.0] else m.cells[rc])
  }

  /** A cell after `Add`: defined when it was before or the document observed it, and the sum of
      both sides. */
  lemma AddCell(m: Matrix, doc: Document, rc: (string, string))
    ensures rc in Add(m, doc).cells <==> rc in m.cells || (rc.1 == doc.0 && rc.0 in doc.1)
    ensures CellOf(Add(m, doc), rc) == CellOf(m, rc) + Contribution(doc, rc)
  {
    if rc.1 == doc.0 && rc.0 in doc.1 {
      assert rc in set row | row in doc.1 :: (row, doc.0);
    }
  }

  /** Adding two documents in either order gives the same matrix. */
  lemma AddCommutes(m: Matrix, a: Document, b: Document)
    ensures Add(Add(m, a), b) == Add(Add(m, b), a)
  {
    var ab, ba := Add(Add(m, a), b), Add(Add(m, b), a);
    forall rc
      ensures rc in ab.cells <==> rc in ba.cells
      ensures rc in ab.cells ==> ab.cells[rc] == ba.cells[rc]
    {
      AddCommutesAt(m, a, b, rc);
      if rc in ab.cells {
        assert CellOf(ab, rc) == ab.cells[rc] && CellOf(ba, rc) == ba.cells[rc];
      }
    }
    Maps.MapsEqual(ab.cells, ba.cells);
    assert ab.rows == m.rows + a.1.Keys + b.1.Keys && ba.rows == m.rows + b.1.Keys + a.1.Keys;
    assert ab.cols == m.cols + {a.0, b.0} == ba.cols;
  }

  /** One cell of `AddCommutes`. */
  lemma AddCommutesAt(m: Matrix, a: Document, b: Document, rc: (string, string))
    ensures rc in Add(Add(m, a), b).cells <==> rc in Add(Add(m, b), a).cells
    ensures CellOf(Add(Add(m, a), b), rc) == CellOf(Add(Add(m, b), a), rc)
  {
    AddCell(m, a, rc);
    AddCell(m, b, rc);
    AddCell(Add(m, a), b, rc);
    AddCell(Add(m, b), a, rc);
  }

  /** The accumulator after the documents in order: `dfFreq = dfFreq.add(df, fill_value=0)`. */
  function Merge(m: Matrix, docs: seq<Document>): Matrix
    decreases |docs|
  {
    if docs == [] then m
    else Add(Merge(m, docs[..|docs| - 1]), docs[|docs| - 1])
  }

  /** A document can be added last wherever it stands in the sequence. */
  lemma {:induction false} MergeMoveLast(m: Matrix, a: seq<Document>, x: Document, b: seq<Document>)
    ensures Merge(m, a + [x] + b) == Add(Merge(m, a + b), x)
    decreases |b|
  {
    if b == [] {
      assert a + [x] + b == a + [x] && (a + [x])[..|a|] == a && a + b == a;
    } else {
      var init, y := b[..|b| - 1], b[|b| - 1];
      assert (a + [x] + b)[..|a + [x] + b| - 1] == a + [x] + init;
      assert (a + b)[..|a + b| - 1] == a + init;
      MergeMoveLast(m, a, x, init);
      AddCommutes(Merge(m, a + init), x, y);
    }
  }

  /** The matrix does not depend on the order of the documents. */
  lemma {:induction false} MergeOrderIndependent(m: Matrix, docs: seq<Document>, other: seq<Document>)
    requires multiset(docs) == multiset(other)
    ensures Merge(m, docs) == Merge(m, other)
    decreases |docs|
  {
    if docs != [] {
      var init, x := docs[..|docs| - 1], docs[|docs| - 1];
      assert docs == init + [x];
      assert x in multiset(other);
      var k :| 0 <= k < |other| && other[k] == x;
      var a, b := other[..k], other[k + 1..];
      assert other == a + [x] + b;
      assert multiset(other) == multiset(a) + multiset{x} + multiset(b);
      assert multiset(docs) == multiset(init) + multiset{x};
      assert multiset(a + b) == multiset(a) + multiset(b);
      assert multiset(init) == multiset(docs) - multiset{x};
      assert multiset(a + b) == multiset(other) - multiset{x};
      MergeOrderIndependent(m, init, a + b);
      MergeMoveLast(m, a, x, b);
    } else {
      assert |other| == |multiset(other)| == 0;
    }
  }

  /** The row labels: the seed rows and every path some document observed. */
  lemma {:induction false} MergeRows(m: Matrix, docs: seq<Document>, path: string)
    ensures path in Merge(m, docs).rows <==> path in m.rows || PathObserved(docs, path)
    decreases |docs|
  {
    if docs != [] {
      MergeRows(m, docs[..|docs| - 1], path);
      PathObservedStep(docs, path);
    }
  }

  /** Some document observed the path. */
  predicate PathObserved(docs: seq<Document>, path: string) {
    exists d | 0 <= d < |docs| :: path in docs[d].1
  }

  lemma PathObservedStep(docs: seq<Document>, path: string)
    requires docs != []
    ensures PathObserved(docs, path) <==> PathObserved(docs[..|docs| - 1], path) || path in docs[|docs| - 1].1
  {
    var init := docs[..|docs| - 1];
    if PathObserved(docs, path) {
      var d :| 0 <= d < |docs| && path in docs[d].1;
      if d < |init| {
        assert init[d] == docs[d];
      }
    }
    if PathObserved(init, path) {
      var d :| 0 <= d < |init| && path in init[d].1;
      assert docs[d] == init[d];
    }
  }

  /** The count columns: one per identifier. */
  lemma {:induction false} MergeCols(m: Matrix, docs: seq<Document>, col: string)
    ensures col in Merge(m, docs).cols <==> col in m.cols || Identified(docs, col)
    decreases |docs|
  {
    if docs != [] {
      MergeCols(m, docs[..|docs| - 1], col);
      IdentifiedStep(docs, col);
    }
  }

  /** Some document has the identifier. */
  predicate Identified(docs: seq<Document>, col: string) {
    exists d | 0 <= d < |docs| :: docs[d].0 == col
  }

  lemma IdentifiedStep(docs: seq<Document>, col: string)
    requires docs != []
    ensures Identified(docs, col) <==> Identified(docs[..|docs| - 1], col) || docs[|docs| - 1].0 == col
  {
    var init := docs[..|docs| - 1];
    if Identified(docs, col) {
      var d :| 0 <= d < |docs| && docs[d].0 == col;
      if d < |init| {
        assert init[d] == docs[d];
      }
    }
    if Identified(init, col) {
      var d :| 0 <= d < |init| && init[d].0 == col;
      assert docs[d] == init[d];
    }
  }

  /** The total the documents contribute to one cell. */
  function CellSum(docs: seq<Document>, rc: (string, string)): nat
    decreases |docs|
  {
    if docs == [] then 0
    else CellSum(docs[..|docs| - 1], rc) + Contribution(docs[|docs| - 1], rc)
  }

  /** A cell is defined exactly when it was at the start or some document with that identifier
      observed the path. */
  lemma {:induction false} MergeCellDefined(m: Matrix, docs: seq<Document>, rc: (string, string))
    ensures rc in Merge(m, docs).cells <==> rc in m.cells || Observed(docs, rc)
    decreases |docs|
  {
    if docs != [] {
      var last := |docs| - 1;
      MergeCellDefined(m, docs[..last], rc);
      AddCell(Merge(m, docs[..last]), docs[last], rc);
      ObservedStep(docs, rc);
    }
  }

  /** Some document with the cell's identifier observed its path. */
  predicate Observed(docs: seq<Document>, rc: (string, string)) {
    exists d | 0 <= d < |docs| :: docs[d].0 == rc.1 && rc.0 in docs[d].1
  }

  lemma ObservedStep(docs: seq<Document>, rc: (string, string))
    requires docs != []
    ensures Observed(docs, rc) <==>
      Observed(docs[..|docs| - 1], rc) || (docs[|docs| - 1].0 == rc.1 && rc.0 in docs[|docs| - 1].1)
  {
    var init := docs[..|docs| - 1];
    if Observed(docs, rc) {
      var d :| 0 <= d < |docs| && docs[d].0 == rc.1 && rc.0 in docs[d].1;
      if d < |init| {
        assert init[d] == docs[d];
      }
    }
    if Observed(init, rc) {
      var d :| 0 <= d < |init| && init[d].0 == rc.1 && rc.0 in init[d].1;
      assert docs[d] == init[d];
    }
  }

  /** A cell holds the sum of the counts the documents with that identifier have for the path. */
  lemma {:induction false} MergeCellValue(m: Matrix, docs: seq<Document>, rc: (string, string))
    ensures CellOf(Merge(m, docs), rc) == CellOf(m, rc) + CellSum(docs, rc)
    decreases |docs|
  {
    if docs != [] {
      var last := |docs| - 1;
      MergeCellValue(m, docs[..last], rc);
      AddCell(Merge(m, docs[..last]), docs[last], rc);
    }
  }

  /** Only the documents with the column's identifier add to it. */
  lemma {:induction false} CellSumSingle(docs: seq<Document>, d: nat, path: string)
    requires d < |docs|
    requires forall e | 0 <= e < |docs| && e != d :: docs[e].0 != docs[d].0
    ensures CellSum(docs, (path, docs[d].0)) == Contribution(docs[d], (path, docs[d].0))
    decreases |docs|
  {
    var last := |docs| - 1;
    var init := docs[..last];
    if d < last {
      assert forall e | 0 <= e < |init| :: init[e] == docs[e];
      CellSumSingle(init, d, path);
      assert init[d] == docs[d];
    } else {
      CellSumNone(init, (path, docs[d].0));
    }
  }

  /** Documents of other identifiers add nothing to a column. */
  lemma {:induction false} CellSumNone(docs: seq<Document>, rc: (string, string))
    requires forall e | 0 <= e < |docs| :: docs[e].0 != rc.1
    ensures CellSum(docs, rc) == 0
    decreases |docs|
  {
    if docs != [] {
      var last := |docs| - 1;
      assert forall e | 0 <= e < last :: docs[..last][e] == docs[e];
      CellSumNone(docs[..last], rc);
    }
  }

  /** With distinct identifiers, each column is one document's counts: a cell is defined exactly
      where that document observed the path, and holds its count there. */
  lemma DocumentColumn(docs: seq<Document>, d: nat, path: string)
    requires d < |docs|
    requires forall e | 0 <= e < |docs| && e != d :: docs[e].0 != docs[d].0
    ensures (path, docs[d].0) in Merge(Initial, docs).cells <==> path in docs[d].1
    ensures path in docs[d].1 ==> Merge(Initial, docs).cells[(path, docs[d].0)] == docs[d].1[path]
  {
    var rc := (path, docs[d].0);
    MergeCellDefined(Initial, docs, rc);
    MergeCellValue(Initial, docs, rc);
    CellSumSingle(docs, d, path);
  }

  /** The seed row is never dropped. */
  lemma SeedRowKept(docs: seq<Document>)
    ensures SeedRow in Merge(Initial, docs).rows
  {
    MergeRows(Initial, docs, SeedRow);
  }

  /** The accumulator keeps its cells inside its rows and columns. */
  lemma {:induction false} MergeWellFormed(m: Matrix, docs: seq<Document>)
    requires WellFormed(m)
    ensures WellFormed(Merge(m, docs))
    decreases |docs|
  {
    if docs != [] {
      MergeWellFormed(m, docs[..|docs| - 1]);
    }
  }
}
