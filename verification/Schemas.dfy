/**
 How a dataset reconciles the schemas of its files: under `strict` every file must match
 the first, under `drop` only the columns common to all files are exposed.
 */
module Schemas {
  import opened Sequences
  import opened Files

  type Schema = seq<Column>

  predicate DistinctNames(columns: Schema) {
    forall i, j :: 0 <= i < j < |columns| ==> columns[i].name != columns[j].name
  }

  /** A file the writer can produce: at least one column, distinct names, non-empty cells. */
  predicate WellFormed(f: File) {
    && f.columns != [] && DistinctNames(f.columns)
    && forall k :: 0 <= k < |f.columns| ==> f.columns[k].dtype.itemsize > 0
  }

  type StoredFile = f: File | WellFormed(f) witness File(0, [], [Column("", Dtype("", 1, 1, true))])

  /** `columns` offers `c` under the same dtype. */
  predicate Offers(columns: Schema, c: Column) {
    HasColumn(columns, c.name) && DtypeOf(columns, c.name) == c.dtype
  }

  /** Among distinct names, to offer a column is to have it. */
  lemma OffersIffHas(columns: Schema, c: Column)
    requires DistinctNames(columns)
    ensures Offers(columns, c) <==> c in columns
  {
    if c in columns {
      var k :| 0 <= k < |columns| && columns[k] == c;
      FindName(columns, k);
    }
    if Offers(columns, c) {
      assert columns[Find(columns, c.name).value] == c;
    }
  }

  /** Every column of `schema` can be read from a file with these columns. */
  predicate Exposes(columns: Schema, schema: Schema) {
    forall k :: 0 <= k < |schema| ==> Offers(columns, schema[k])
  }

  predicate AllExpose(readers: seq<Schema>, schema: Schema) {
    forall r :: 0 <= r < |readers| ==> Exposes(readers[r], schema)
  }

  /** `_validate_against`: the same names, each under the same dtype; the order is free. */
  predicate Matches(columns: Schema, reference: Schema) {
    && Exposes(columns, reference)
    && forall k :: 0 <= k < |columns| ==> HasColumn(reference, columns[k].name)
  }

  lemma {:induction false} FindName(columns: Schema, k: nat)
    requires DistinctNames(columns) && k < |columns|
    ensures Find(columns, columns[k].name) == Some(k)
  {
    var at := Find(columns, columns[k].name);
    assert at.Some?;
    assert columns[at.value].name == columns[k].name;
  }

  /** The same names and, under each, the same dtype. */
  ghost predicate SameColumns(a: Schema, b: Schema) {
    forall c :: c in a <==> c in b
  }

  /** A reader matches exactly the references that have its own columns, in any order. */
  lemma MatchesExact(columns: Schema, reference: Schema)
    requires DistinctNames(columns) && DistinctNames(reference)
    ensures Matches(columns, reference) <==> SameColumns(columns, reference)
  {
    if Matches(columns, reference) {
      MatchesSame(columns, reference);
    }
    if SameColumns(columns, reference) {
      SameMatches(columns, reference);
    }
  }

  lemma MatchesSame(columns: Schema, reference: Schema)
    requires DistinctNames(columns) && Matches(columns, reference)
    ensures SameColumns(columns, reference)
  {
    forall c ensures c in columns <==> c in reference {
      OffersIffHas(columns, c);
      if c in reference {
        var k :| 0 <= k < |reference| && reference[k] == c;
        assert Offers(columns, reference[k]);
      }
      if c in columns {
        var k :| 0 <= k < |columns| && columns[k] == c;
        var at := Find(reference, c.name).value;
        OffersIffHas(columns, reference[at]);
        var i :| 0 <= i < |columns| && columns[i] == reference[at];
        FindName(columns, i);
        FindName(columns, k);
      }
    }
  }

  lemma SameMatches(columns: Schema, reference: Schema)
    requires DistinctNames(columns) && DistinctNames(reference) && SameColumns(columns, reference)
    ensures Matches(columns, reference)
  {
    forall k | 0 <= k < |columns| ensures HasColumn(reference, columns[k].name) {
      assert columns[k] in columns;
      OffersIffHas(reference, columns[k]);
    }
    forall k | 0 <= k < |reference| ensures Offers(columns, reference[k]) {
      assert reference[k] in reference;
      OffersIffHas(columns, reference[k]);
    }
  }

  lemma SelfExposes(columns: Schema)
    requires DistinctNames(columns)
    ensures Exposes(columns, columns)
  {
    forall k | 0 <= k < |columns| ensures Offers(columns, columns[k]) {
      FindName(columns, k);
    }
  }

  lemma ExposedColumn(columns: Schema, schema: Schema, name: string)
    requires Exposes(columns, schema) && HasColumn(schema, name)
    ensures HasColumn(columns, name) && DtypeOf(columns, name) == DtypeOf(schema, name)
  {
    assert Offers(columns, schema[Find(schema, name).value]);
  }

  // ---- strict ----

  /** Whether readers pass, one by one; the first one sets a missing reference. */
  predicate Reconcile(reference: Option<Schema>, readers: seq<Schema>)
    decreases |readers|
  {
    if readers == [] then true
    else match reference
      case None => Reconcile(Some(readers[0]), readers[1..])
      case Some(schema) => Matches(readers[0], schema) && Reconcile(reference, readers[1..])
  }

  /** An empty schema counts as no reference at all. */
  function Reference(schema: Schema): Option<Schema> {
    if schema == [] then None else Some(schema)
  }

  /** The schema after a successful strict append. */
  function StrictSchema(schema: Schema, readers: seq<Schema>): Schema {
    if schema != [] || readers == [] then schema else readers[0]
  }

  lemma {:induction false} ReconcileExact(schema: Schema, readers: seq<Schema>)
    requires DistinctNames(schema) && forall r :: 0 <= r < |readers| ==> DistinctNames(readers[r])
    ensures Reconcile(Some(schema), readers) <==>
            forall r :: 0 <= r < |readers| ==> SameColumns(readers[r], schema)
  {
    hide Matches;
    hide SameColumns;
    if readers != [] {
      MatchesExact(readers[0], schema);
      ReconcileExact(schema, readers[1..]);
      assert forall r :: 1 <= r < |readers| ==> readers[r] == readers[1..][r - 1];
    }
  }

  /** A strict append passes exactly if every reader has the columns of the schema, or else of the first reader. */
  lemma StrictExact(schema: Schema, readers: seq<Schema>)
    requires DistinctNames(schema) && forall r :: 0 <= r < |readers| ==> DistinctNames(readers[r])
    ensures Reconcile(Reference(schema), readers) <==>
            forall r :: 0 <= r < |readers| ==>
              SameColumns(readers[r], if schema == [] then readers[0] else schema)
  {
    if schema != [] {
      ReconcileExact(schema, readers);
    } else if readers != [] {
      ReconcileExact(readers[0], readers[1..]);
      assert forall r :: 1 <= r < |readers| ==> readers[r] == readers[1..][r - 1];
    }
  }

  /** The loop of `append` over the new readers. */
  method CheckStrict(schema: Schema, readers: seq<Schema>) returns (ok: bool)
    ensures ok == Reconcile(Reference(schema), readers)
    ensures DistinctNames(schema) && (forall r :: 0 <= r < |readers| ==> DistinctNames(readers[r])) ==>
              (ok <==> forall r :: 0 <= r < |readers| ==>
                         SameColumns(readers[r], if schema == [] then readers[0] else schema))
  {
    if DistinctNames(schema) && forall r :: 0 <= r < |readers| ==> DistinctNames(readers[r]) {
      StrictExact(schema, readers);
    }
    var reference := Reference(schema);
    for k := 0 to |readers|
      invariant Reconcile(Reference(schema), readers) == Reconcile(reference, readers[k..])
    {
      assert readers[k..][0] == readers[k] && readers[k..][1..] == readers[k + 1..];
      match reference
      case None =>
        reference := Some(readers[k]);
      case Some(expected) =>
        if !Matches(readers[k], expected) {
          return false;
        }
    }
    return true;
  }

  /** Passing readers all expose the reference. */
  lemma {:induction false} ReconcileExposes(schema: Schema, readers: seq<Schema>)
    requires Reconcile(Some(schema), readers)
    ensures AllExpose(readers, schema)
  {
    if readers != [] {
      ReconcileExposes(schema, readers[1..]);
      forall r | 0 <= r < |readers| ensures Exposes(readers[r], schema) {
        if r > 0 {
          assert readers[r] == readers[1..][r - 1];
        }
      }
    }
  }

  lemma NewReadersExpose(schema: Schema, readers: seq<Schema>)
    requires Reconcile(Reference(schema), readers)
    requires forall r :: 0 <= r < |readers| ==> DistinctNames(readers[r])
    ensures AllExpose(readers, StrictSchema(schema, readers))
  {
    if schema != [] {
      ReconcileExposes(schema, readers);
    } else if readers != [] {
      SelfExposes(readers[0]);
      ReconcileExposes(readers[0], readers[1..]);
      forall r | 0 <= r < |readers| ensures Exposes(readers[r], readers[0]) {
        if r > 0 {
          assert readers[r] == readers[1..][r - 1];
        }
      }
    }
  }

  /**
   When a strict append keeps every exposed column readable from every file, exactly:
   the dataset was empty, or had a schema already, or gains none. The failing case is a
   dataset of files without any column, whose schema then looks like "not set yet".
   */
  lemma StrictAppendExact(children: seq<Schema>, schema: Schema, readers: seq<Schema>)
    requires AllExpose(children, schema) && Reconcile(Reference(schema), readers)
    requires forall r :: 0 <= r < |readers| ==> DistinctNames(readers[r])
    requires schema == [] ==> forall r :: 0 <= r < |children| ==> children[r] == []
    ensures AllExpose(children + readers, StrictSchema(schema, readers))
       <==> children == [] || schema != [] || readers == [] || readers[0] == []
  {
    var after := StrictSchema(schema, readers);
    NewReadersExpose(schema, readers);
    if children == [] || schema != [] || readers == [] || readers[0] == [] {
      forall r | 0 <= r < |children + readers| ensures Exposes((children + readers)[r], after) {
        if r < |children| {
          assert Exposes(children[r], schema);
        } else {
          assert Exposes(readers[r - |children|], after);
        }
      }
    } else {
      assert !Offers(children[0], after[0]);
      assert (children + readers)[0] == children[0];
    }
  }

  /** A file without columns, then a file with one: accepted, and the column is not in the first. */
  lemma StrictAppendCounterexample()
    ensures var c := Column("x", Dtype("<f8", 8, 8, true));
            Reconcile(Reference(StrictSchema([], [[]])), [[c]]) && !AllExpose([[], [c]], StrictSchema([], [[c]]))
  {
    var c := Column("x", Dtype("<f8", 8, 8, true));
    assert Find([c][1..], "x") == None;
    assert !Offers([], c);
    assert [[], [c]][0] == [];
    assert StrictSchema([], [[c]])[0] == c;
  }

  // ---- drop ----

  /** Every later reader has the column under the same dtype. */
  predicate Common(c: Column, rest: seq<Schema>) {
    forall r :: 0 <= r < |rest| ==> Offers(rest[r], c)
  }

  function KeepCommon(columns: Schema, rest: seq<Schema>): Schema {
    if columns == [] then []
    else
      KeepCommon(columns[..|columns| - 1], rest)
      + (if Common(columns[|columns| - 1], rest) then [columns[|columns| - 1]] else [])
  }

  /** `_common_schema`: the first reader's columns, in its order, that all others share. */
  function CommonSchema(readers: seq<Schema>): Schema {
    if readers == [] then [] else KeepCommon(readers[0], readers[1..])
  }

  /** Exactly the shared columns are kept. */
  lemma {:induction false} KeepCommonExact(columns: Schema, rest: seq<Schema>, c: Column)
    ensures c in KeepCommon(columns, rest) <==> c in columns && Common(c, rest)
  {
    if columns != [] {
      var n := |columns| - 1;
      KeepCommonExact(columns[..n], rest, c);
      assert columns == columns[..n] + [columns[n]];
    }
  }

  predicate InAll(c: Column, readers: seq<Schema>) {
    forall r :: 0 <= r < |readers| ==> c in readers[r]
  }

  /** Kept are the first reader's columns that all offer: among distinct names, those that all have. */
  lemma CommonSchemaExact(readers: seq<Schema>, c: Column)
    requires readers != [] && DistinctNames(readers[0])
    ensures c in CommonSchema(readers) <==>
              c in readers[0] && forall r :: 0 <= r < |readers| ==> Offers(readers[r], c)
    ensures (forall r :: 0 <= r < |readers| ==> DistinctNames(readers[r])) ==>
              (c in CommonSchema(readers) <==> InAll(c, readers))
  {
    KeepCommonExact(readers[0], readers[1..], c);
    OffersIffHas(readers[0], c);
    assert Common(c, readers[1..]) <==> forall r :: 1 <= r < |readers| ==> Offers(readers[r], c) by {
      assert forall r :: 1 <= r < |readers| ==> readers[r] == readers[1..][r - 1];
      assert forall r :: 0 <= r < |readers[1..]| ==> readers[1..][r] == readers[r + 1];
    }
    if forall r :: 0 <= r < |readers| ==> DistinctNames(readers[r]) {
      forall r | 0 <= r < |readers| ensures Offers(readers[r], c) <==> c in readers[r] {
        OffersIffHas(readers[r], c);
      }
    }
  }

  /** The kept columns stand in the first reader's order. */
  lemma {:induction false} KeepCommonOrder(columns: Schema, rest: seq<Schema>)
    requires DistinctNames(columns)
    ensures InOrderOf(KeepCommon(columns, rest), columns) && DistinctNames(KeepCommon(columns, rest))
  {
    if columns != [] {
      var n := |columns| - 1;
      var kept := KeepCommon(columns[..n], rest);
      KeepCommonOrder(columns[..n], rest);
      forall i | 0 <= i < |kept| ensures exists p :: 0 <= p < n && columns[p] == kept[i] {
        KeepCommonExact(columns[..n], rest, kept[i]);
        var p :| 0 <= p < n && columns[..n][p] == kept[i];
        assert columns[p] == kept[i];
      }
      assert InOrderOf(kept, columns) by {
        forall i, j, p, q | 0 <= i < j < |kept| && At(columns, p, kept[i]) && At(columns, q, kept[j]) ensures p < q {
          assert p < n && q < n && At(columns[..n], p, kept[i]) && At(columns[..n], q, kept[j]);
        }
      }
    }
  }

  predicate At(columns: Schema, p: int, c: Column) { 0 <= p < |columns| && columns[p] == c }

  ghost predicate InOrderOf(kept: Schema, columns: Schema) {
    forall i, j, p, q :: 0 <= i < j < |kept| && At(columns, p, kept[i]) && At(columns, q, kept[j]) ==> p < q
  }

  lemma CommonSchemaOrder(readers: seq<Schema>)
    requires readers != [] && DistinctNames(readers[0])
    ensures InOrderOf(CommonSchema(readers), readers[0]) && DistinctNames(CommonSchema(readers))
  {
    KeepCommonOrder(readers[0], readers[1..]);
  }

  /** A drop append is accepted exactly if the files have a column in common, or there is none. */
  lemma DropExact(readers: seq<Schema>)
    requires forall r :: 0 <= r < |readers| ==> DistinctNames(readers[r])
    ensures DropAccepts(readers) <==>
            readers == [] || exists c :: InAll(c, readers)
  {
    if readers != [] {
      if CommonSchema(readers) != [] {
        CommonSchemaExact(readers, CommonSchema(readers)[0]);
      }
      if c :| InAll(c, readers) {
        CommonSchemaExact(readers, c);
      }
    }
  }

  lemma CommonSchemaExposed(readers: seq<Schema>)
    requires forall r :: 0 <= r < |readers| ==> DistinctNames(readers[r])
    ensures AllExpose(readers, CommonSchema(readers))
  {
    var schema := CommonSchema(readers);
    forall r, k | 0 <= r < |readers| && 0 <= k < |schema| ensures Offers(readers[r], schema[k]) {
      CommonSchemaExact(readers, schema[k]);
      OffersIffHas(readers[r], schema[k]);
    }
  }

  /** Filtering again with more readers filters the first result. */
  lemma {:induction false} KeepCommonShrinks(columns: Schema, a: seq<Schema>, b: seq<Schema>)
    ensures KeepCommon(columns, a + b) == KeepCommon(KeepCommon(columns, a), a + b)
  {
    if columns != [] {
      var n := |columns| - 1;
      var c := columns[n];
      KeepCommonShrinks(columns[..n], a, b);
      assert Common(c, a + b) ==> Common(c, a) by {
        if Common(c, a + b) {
          forall r | 0 <= r < |a| ensures Offers(a[r], c) {
            assert Offers((a + b)[r], c);
          }
        }
      }
      var kept := KeepCommon(columns[..n], a);
      if Common(c, a) {
        KeepCommonLast(kept, c, a + b);
      } else {
        assert KeepCommon(columns, a) == kept + [] == kept;
      }
    }
  }

  lemma KeepCommonLast(kept: Schema, c: Column, rest: seq<Schema>)
    ensures KeepCommon(kept + [c], rest) == KeepCommon(kept, rest) + (if Common(c, rest) then [c] else [])
  {
    assert (kept + [c])[..|kept + [c]| - 1] == kept;
  }

  /** A successful drop append: some column is left, or there is no file at all. */
  predicate DropAccepts(readers: seq<Schema>) { readers == [] || CommonSchema(readers) != [] }

  /** Appending the groups one after another; `None` as soon as one append is refused. */
  function DropRun(readers: seq<Schema>, groups: seq<seq<Schema>>): Option<seq<Schema>>
    decreases |groups|
  {
    if groups == [] then Some(readers)
    else if !DropAccepts(readers + groups[0]) then None
    else DropRun(readers + groups[0], groups[1..])
  }

  /** Once no column is left, more files do not bring one back. */
  lemma DropRefusalStays(readers: seq<Schema>, more: seq<Schema>)
    requires !DropAccepts(readers)
    ensures !DropAccepts(readers + more)
  {
    assert (readers + more)[0] == readers[0];
    assert (readers + more)[1..] == readers[1..] + more;
    KeepCommonShrinks(readers[0], readers[1..], more);
  }

  /** How the files are grouped into appends changes neither acceptance nor the schema. */
  lemma {:induction false} DropGrouping(readers: seq<Schema>, groups: seq<seq<Schema>>)
    requires DropAccepts(readers)
    ensures DropRun(readers, groups).Some? <==> DropAccepts(readers + Flat(groups))
    ensures DropRun(readers, groups).Some? ==> DropRun(readers, groups).value == readers + Flat(groups)
    decreases |groups|
  {
    if groups == [] {
      assert readers + Flat(groups) == readers;
    } else {
      FlatFirst(groups);
      assert readers + Flat(groups) == (readers + groups[0]) + Flat(groups[1..]);
      if DropAccepts(readers + groups[0]) {
        DropGrouping(readers + groups[0], groups[1..]);
      } else {
        DropRefusalStays(readers + groups[0], Flat(groups[1..]));
      }
    }
  }

  lemma FlatFirst<T>(parts: seq<seq<T>>)
    requires parts != []
    ensures Flat(parts) == parts[0] + Flat(parts[1..])
  {
    FlatAppend([parts[0]], parts[1..]);
    FlatSingle(parts[0]);
    assert [parts[0]] + parts[1..] == parts;
  }
}
