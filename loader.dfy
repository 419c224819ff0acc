/**
 * The whole `load` run over a parsed complex table: row resolution, the multidata insert
 * (column pruning, row selection, flag coercion, existing-key filter), and the
 * composition and registry builder, with the store's contents given as parameters.
 */
module Loader {
  import opened Wrappers
  import opened Seqs
  import opened Frames
  import opened Resolution
  import opened Composition

  /**
   * What a run appends to the `multidata`, `complex_composition` and `complex` tables,
   * and the KeyError it ends with, if any. Each write happens before any later failure.
   */
  datatype LoadOutcome = LoadOutcome(
    multidata: seq<Row>,
    composition: seq<(int, int)>,
    registry: seq<int>,
    failure: Option<LoadError>)

  /**
   * Lines 41-59: the rows appended to `multidata`, given the accepted positions; nothing
   * when the table has no rows or no columns.
   */
  function MultidataRows(columns: seq<string>, rows: seq<Row>, indices: seq<int>, existing: seq<string>,
                         truthy: Cell -> bool): Result<seq<Row>, LoadError>
    requires forall k :: 0 <= k < |indices| ==> 0 <= indices[k] < |rows|
  {
    if |rows| == 0 || |columns| == 0 then Ok([])
    else
      var removal := RemovalColumns(columns);
      var kept := Filter(columns, Outside(removal));
      var selected := SelectRows(DropKeys(rows, removal), indices);
      match FirstAbsent(FLAG_COLUMNS, ColumnSet(kept))
      case Some(c) => Err(MissingColumn(c))
      case None =>
        if KEY_COLUMN !in kept then Err(MissingColumn(KEY_COLUMN))
        else Ok(DropExisting(CoerceFlags(selected, truthy), existing))
  }

  /** The run of `load`: each stage in turn, stopping at the first KeyError. */
  function LoadSpec(columns: seq<string>, rows: seq<Row>, proteins: map<string, int>, existing: seq<string>,
                    newComplexes: map<string, int>, truthy: Cell -> bool): LoadOutcome
  {
    match ResolveAll(rows, proteins)
    case Err(e) => LoadOutcome([], [], [], Some(e))
    case Ok(res) =>
      ResolveAllIndices(rows, proteins);
      match MultidataRows(columns, rows, res.completeIndices, existing, truthy)
      case Err(e) => LoadOutcome([], [], [], Some(e))
      case Ok(written) =>
        ResolveAllKeyOrder(rows, proteins);
        match Build(res.complexMap.keys, res.complexMap.lists, newComplexes)
        case Err(e) => LoadOutcome(written, [], [], Some(e))
        case Ok(ins) => LoadOutcome(written, ins.composition, ins.registry, None)
  }

  lemma SelectedShape(columns: seq<string>, rows: seq<Row>, indices: seq<int>)
    requires Rectangular(columns, rows)
    requires forall k :: 0 <= k < |indices| ==> 0 <= indices[k] < |rows|
    ensures Rectangular(columns, SelectRows(rows, indices))
  {
  }

  lemma FilteredShape(columns: seq<string>, rows: seq<Row>, keep: Row -> bool)
    requires Rectangular(columns, rows)
    ensures Rectangular(columns, Filter(rows, keep))
  {
    var r := Filter(rows, keep);
    forall i | 0 <= i < |r|
      ensures r[i].Keys == ColumnSet(columns)
    {
      assert r[i] in rows;
    }
  }

  /**
   * Lines 41-59 on the loader's frame: nothing for an empty frame; otherwise the column
   * removal in place, the accepted rows, the flag coercion and the existing-key filter.
   */
  method WriteMultidata(complexDf: Frame, completeIndices: seq<int>, existing: seq<string>, truthy: Cell -> bool)
    returns (r: Result<seq<Row>, LoadError>)
    requires complexDf.Valid()
    requires forall k :: 0 <= k < |completeIndices| ==> 0 <= completeIndices[k] < |complexDf.rows|
    modifies complexDf
    ensures r == MultidataRows(old(complexDf.columns), old(complexDf.rows), completeIndices, existing, truthy)
    ensures complexDf.Valid()
    ensures old(complexDf.IsEmpty()) ==>
      complexDf.columns == old(complexDf.columns) && complexDf.rows == old(complexDf.rows)
    ensures !old(complexDf.IsEmpty()) ==>
      && complexDf.columns == Filter(old(complexDf.columns), KeepsColumn)
      && complexDf.rows == DropKeys(old(complexDf.rows), RemovalColumns(old(complexDf.columns)))
  {
    if complexDf.IsEmpty() {
      return Ok([]);
    }
    var removalColumns := RemovalColumns(complexDf.columns);
    PrunedColumns(complexDf.columns);
    complexDf.Drop(removalColumns);
    SelectedShape(complexDf.columns, complexDf.rows, completeIndices);
    var selected := new Frame(complexDf.columns, SelectRows(complexDf.rows, completeIndices));
    var absent := FirstAbsent(FLAG_COLUMNS, ColumnSet(selected.columns));
    if absent.Some? {
      return Err(MissingColumn(absent.value));
    }
    selected.AsFlags(truthy);
    if KEY_COLUMN !in selected.columns {
      return Err(MissingColumn(KEY_COLUMN));
    }
    FilteredShape(selected.columns, selected.rows, IsNew(existing));
    var filtered := new Frame(selected.columns, DropExisting(selected.rows, existing));
    r := Ok(filtered.rows);
  }

  /** `load` on the parsed table; the DataFrame is pruned and coerced in place. */
  method Load(columns: seq<string>, rows: seq<Row>, proteins: map<string, int>, existing: seq<string>,
              newComplexes: map<string, int>, truthy: Cell -> bool) returns (out: LoadOutcome)
    requires Rectangular(columns, rows)
    ensures out == LoadSpec(columns, rows, proteins, existing, newComplexes, truthy)
  {
    var complexDf := new Frame(columns, rows);
    var resolved := ResolveRows(complexDf.rows, proteins);
    if resolved.Err? {
      return LoadOutcome([], [], [], Some(resolved.error));
    }
    var completeIndices := resolved.value.completeIndices;
    var complexMap := resolved.value.complexMap;
    ResolveAllIndices(rows, proteins);
    ResolveAllKeyOrder(rows, proteins);

    var written := WriteMultidata(complexDf, completeIndices, existing, truthy);
    if written.Err? {
      return LoadOutcome([], [], [], Some(written.error));
    }
    var multidata := written.value;

    var built := BuildInserts(complexMap, newComplexes);
    if built.Err? {
      return LoadOutcome(multidata, [], [], Some(built.error));
    }
    out := LoadOutcome(multidata, built.value.composition, built.value.registry, None);
  }

  // ----- which rows reach `multidata` -----

  /** The rows the insert writes: accepted, with a complex key that is not stored yet. */
  ghost predicate Inserted(row: Row, proteins: map<string, int>, existing: seq<string>)
  {
    Accepted(row, proteins) && KEY_COLUMN in row && !IsExistingKey(row[KEY_COLUMN], existing)
  }

  /** The reference for the insert: each inserted row, pruned and coerced, in table order. */
  ghost function NewAcceptedRows(rows: seq<Row>, proteins: map<string, int>, existing: seq<string>,
                                 labels: seq<string>, truthy: Cell -> bool): seq<Row>
  {
    if rows == [] then []
    else
      var n := |rows| - 1;
      NewAcceptedRows(rows[..n], proteins, existing, labels, truthy) +
      (if Inserted(rows[n], proteins, existing) then [CoerceRow(rows[n] - ColumnSet(labels), truthy)] else [])
  }

  function AcceptedBy(proteins: map<string, int>): Row -> bool
  {
    row => Accepted(row, proteins)
  }

  /** Line 50 keeps exactly the accepted rows, in their original order. */
  lemma {:induction false} SelectAccepted(rows: seq<Row>, proteins: map<string, int>)
    requires ResolveAll(rows, proteins).Ok?
    ensures var idx := ResolveAll(rows, proteins).value.completeIndices;
      (forall k :: 0 <= k < |idx| ==> 0 <= idx[k] < |rows|) &&
      SelectRows(rows, idx) == Filter(rows, AcceptedBy(proteins))
  {
    ResolveAllIndices(rows, proteins);
    if rows != [] {
      var n := |rows| - 1;
      var pre := rows[..n];
      PrefixOk(rows, proteins);
      ResolveAllIndices(pre, proteins);
      SelectAccepted(pre, proteins);
      SelectStep(rows, proteins);
    }
  }

  /** The step of `SelectAccepted` from the table without its last row to the whole table. */
  lemma SelectStep(rows: seq<Row>, proteins: map<string, int>)
    requires rows != [] && ResolveAll(rows, proteins).Ok?
    requires var idx := ResolveAll(rows, proteins).value.completeIndices;
      forall k :: 0 <= k < |idx| ==> 0 <= idx[k] < |rows|
    requires ResolveAll(rows[..|rows| - 1], proteins).Ok?
    requires var acc := ResolveAll(rows[..|rows| - 1], proteins).value.completeIndices;
      && (forall k :: 0 <= k < |acc| ==> 0 <= acc[k] < |rows| - 1)
      && SelectRows(rows[..|rows| - 1], acc) == Filter(rows[..|rows| - 1], AcceptedBy(proteins))
    ensures var idx := ResolveAll(rows, proteins).value.completeIndices;
      SelectRows(rows, idx) == Filter(rows, AcceptedBy(proteins))
  {
    var n := |rows| - 1;
    var pre := rows[..n];
    var acc := ResolveAll(pre, proteins).value.completeIndices;
    LastRow(rows, proteins);
    SelectOfPrefix(rows, n, acc);
    FilterLast(rows, AcceptedBy(proteins));
    if Accepted(rows[n], proteins) {
      SelectAppend(rows, acc);
    }
  }

  lemma SelectOfPrefix(rows: seq<Row>, n: int, idx: seq<int>)
    requires 0 <= n <= |rows|
    requires forall k :: 0 <= k < |idx| ==> 0 <= idx[k] < n
    ensures SelectRows(rows, idx) == SelectRows(rows[..n], idx)
  {
  }

  lemma SelectAppend(rows: seq<Row>, idx: seq<int>)
    requires rows != []
    requires forall k :: 0 <= k < |idx| ==> 0 <= idx[k] < |rows|
    ensures SelectRows(rows, idx + [|rows| - 1]) == SelectRows(rows, idx) + [rows[|rows| - 1]]
  {
  }

  /** The pipeline of lines 47-59 on the rows at `idx`. */
  function Pipeline(rows: seq<Row>, idx: seq<int>, labels: seq<string>, existing: seq<string>,
                    truthy: Cell -> bool): seq<Row>
    requires forall k :: 0 <= k < |idx| ==> 0 <= idx[k] < |rows|
  {
    DropExisting(CoerceFlags(SelectRows(DropKeys(rows, labels), idx), truthy), existing)
  }

  lemma PipelineOfPrefix(rows: seq<Row>, n: int, idx: seq<int>, labels: seq<string>, existing: seq<string>,
                         truthy: Cell -> bool)
    requires 0 <= n <= |rows|
    requires forall k :: 0 <= k < |idx| ==> 0 <= idx[k] < n
    ensures Pipeline(rows, idx, labels, existing, truthy) == Pipeline(rows[..n], idx, labels, existing, truthy)
  {
    assert SelectRows(DropKeys(rows, labels), idx) == SelectRows(DropKeys(rows[..n], labels), idx);
  }

  lemma PipelineAppend(rows: seq<Row>, idx: seq<int>, labels: seq<string>, existing: seq<string>,
                       truthy: Cell -> bool)
    requires rows != [] && KEY_COLUMN in rows[|rows| - 1] && KEY_COLUMN !in labels
    requires forall k :: 0 <= k < |idx| ==> 0 <= idx[k] < |rows| - 1
    ensures var n := |rows| - 1;
      Pipeline(rows, idx + [n], labels, existing, truthy) ==
        Pipeline(rows, idx, labels, existing, truthy) +
        (if IsExistingKey(rows[n][KEY_COLUMN], existing) then [] else [CoerceRow(rows[n] - ColumnSet(labels), truthy)])
  {
    var n := |rows| - 1;
    var a := CoerceFlags(SelectRows(DropKeys(rows, labels), idx), truthy);
    var x := CoerceRow(rows[n] - ColumnSet(labels), truthy);
    CoercedAppend(rows, idx, labels, truthy);
    FilterAppend(a, x, IsNew(existing));
    CoercedKey(rows[n], labels, truthy);
  }

  lemma CoercedAppend(rows: seq<Row>, idx: seq<int>, labels: seq<string>, truthy: Cell -> bool)
    requires rows != []
    requires forall k :: 0 <= k < |idx| ==> 0 <= idx[k] < |rows| - 1
    ensures var n := |rows| - 1;
      CoerceFlags(SelectRows(DropKeys(rows, labels), idx + [n]), truthy) ==
        CoerceFlags(SelectRows(DropKeys(rows, labels), idx), truthy) + [CoerceRow(rows[n] - ColumnSet(labels), truthy)]
  {
  }

  /** The complex key passes the column removal and the flag coercion unchanged. */
  lemma CoercedKey(row: Row, labels: seq<string>, truthy: Cell -> bool)
    requires KEY_COLUMN in row && KEY_COLUMN !in labels
    ensures KEY_COLUMN in CoerceRow(row - ColumnSet(labels), truthy)
    ensures CoerceRow(row - ColumnSet(labels), truthy)[KEY_COLUMN] == row[KEY_COLUMN]
  {
    assert KEY_COLUMN !in FLAG_COLUMNS;
  }

  /**
   * Lines 47-59 on the accepted positions: exactly the inserted rows, each pruned and
   * coerced, in table order.
   */
  lemma {:induction false} PipelineInserts(rows: seq<Row>, proteins: map<string, int>, existing: seq<string>,
                                           labels: seq<string>, truthy: Cell -> bool)
    requires ResolveAll(rows, proteins).Ok? && KEY_COLUMN !in labels
    ensures var idx := ResolveAll(rows, proteins).value.completeIndices;
      (forall k :: 0 <= k < |idx| ==> 0 <= idx[k] < |rows|) &&
      Pipeline(rows, idx, labels, existing, truthy) == NewAcceptedRows(rows, proteins, existing, labels, truthy)
  {
    ResolveAllIndices(rows, proteins);
    if rows != [] {
      var n := |rows| - 1;
      var pre := rows[..n];
      PrefixOk(rows, proteins);
      ResolveAllIndices(pre, proteins);
      PipelineInserts(pre, proteins, existing, labels, truthy);
      var acc := ResolveAll(pre, proteins).value.completeIndices;
      PipelineOfPrefix(rows, n, acc, labels, existing, truthy);
      if Accepted(rows[n], proteins) {
        assert n in ResolveAll(rows, proteins).value.completeIndices;
        PipelineAppend(rows, acc, labels, existing, truthy);
      }
    }
  }

  /** The inserted rows in the reference are exactly the pruned, coerced copies of the inserted input rows. */
  lemma {:induction false} NewAcceptedMembers(rows: seq<Row>, proteins: map<string, int>, existing: seq<string>,
                                              labels: seq<string>, truthy: Cell -> bool, w: Row)
    ensures w in NewAcceptedRows(rows, proteins, existing, labels, truthy) <==>
              exists i :: 0 <= i < |rows| && Inserted(rows[i], proteins, existing) &&
                w == CoerceRow(rows[i] - ColumnSet(labels), truthy)
  {
    if rows != [] {
      var n := |rows| - 1;
      var pre := rows[..n];
      NewAcceptedMembers(pre, proteins, existing, labels, truthy, w);
      assert forall i :: 0 <= i < n ==> pre[i] == rows[i];
    }
  }

  /** A table with rows whose resolution completes has the reference columns, so it is not empty. */
  lemma ResolvedTableHasColumns(columns: seq<string>, rows: seq<Row>, proteins: map<string, int>)
    requires Rectangular(columns, rows) && rows != [] && ResolveAll(rows, proteins).Ok?
    ensures PROTEIN_COLUMNS[0] in columns
  {
    ResolveAllFaults(rows, proteins);
    assert RowFault(rows[0], proteins).None?;
    assert PROTEIN_COLUMNS[0] in rows[0];
  }

  /**
   * On a non-empty table the insert raises exactly when a flag column or the key column is
   * missing: the first missing flag column, otherwise the key column.
   */
  lemma MultidataMissingColumns(columns: seq<string>, rows: seq<Row>, indices: seq<int>, existing: seq<string>,
                                truthy: Cell -> bool)
    requires forall k :: 0 <= k < |indices| ==> 0 <= indices[k] < |rows|
    requires |rows| > 0 && |columns| > 0
    ensures var r := MultidataRows(columns, rows, indices, existing, truthy);
      && (r.Err? <==> FirstAbsent(FLAG_COLUMNS, ColumnSet(columns)).Some? || KEY_COLUMN !in columns)
      && (r.Err? && FirstAbsent(FLAG_COLUMNS, ColumnSet(columns)).Some? ==>
            r.error == MissingColumn(FirstAbsent(FLAG_COLUMNS, ColumnSet(columns)).value))
      && (r.Err? && FirstAbsent(FLAG_COLUMNS, ColumnSet(columns)).None? ==> r.error == MissingColumn(KEY_COLUMN))
  {
    var removal := RemovalColumns(columns);
    var kept := Filter(columns, Outside(removal));
    KeyAndFlagsKept();
    assert forall k :: 0 <= k < |FLAG_COLUMNS| ==> (FLAG_COLUMNS[k] in kept <==> FLAG_COLUMNS[k] in columns);
    assert FirstAbsent(FLAG_COLUMNS, ColumnSet(kept)) == FirstAbsent(FLAG_COLUMNS, ColumnSet(columns)) by {
      FirstAbsentSame(FLAG_COLUMNS, ColumnSet(kept), ColumnSet(columns));
    }
    assert KEY_COLUMN in kept <==> KEY_COLUMN in columns;
  }

  lemma {:induction false} FirstAbsentSame(cols: seq<string>, p: set<string>, q: set<string>)
    requires forall k :: 0 <= k < |cols| ==> (cols[k] in p <==> cols[k] in q)
    ensures FirstAbsent(cols, p) == FirstAbsent(cols, q)
  {
    if cols != [] {
      assert forall k :: 0 <= k < |cols[1..]| ==> cols[1..][k] == cols[k + 1];
      FirstAbsentSame(cols[1..], p, q);
    }
  }

  /**
   * When the insert goes ahead, it writes exactly the accepted rows whose key is not
   * stored yet, without the removed columns and with boolean flags, in table order.
   */
  lemma MultidataContents(columns: seq<string>, rows: seq<Row>, proteins: map<string, int>, existing: seq<string>,
                          truthy: Cell -> bool)
    requires Rectangular(columns, rows) && ResolveAll(rows, proteins).Ok?
    ensures var idx := ResolveAll(rows, proteins).value.completeIndices;
      (forall k :: 0 <= k < |idx| ==> 0 <= idx[k] < |rows|) &&
      (MultidataRows(columns, rows, idx, existing, truthy).Ok? ==>
         MultidataRows(columns, rows, idx, existing, truthy).value ==
           NewAcceptedRows(rows, proteins, existing, RemovalColumns(columns), truthy))
  {
    ResolveAllIndices(rows, proteins);
    var removal := RemovalColumns(columns);
    KeyAndFlagsKept();
    PipelineInserts(rows, proteins, existing, removal, truthy);
    if rows != [] {
      ResolvedTableHasColumns(columns, rows, proteins);
    }
  }

  // ----- what a run writes -----

  /** The run gets past the resolution loop and the multidata insert, up to the builder. */
  predicate ReachesBuilder(columns: seq<string>, rows: seq<Row>, proteins: map<string, int>, existing: seq<string>,
                           truthy: Cell -> bool)
  {
    && ResolveAll(rows, proteins).Ok?
    && (ResolveAllIndices(rows, proteins);
        MultidataRows(columns, rows, ResolveAll(rows, proteins).value.completeIndices, existing, truthy).Ok?)
  }

  /**
   * A KeyError in the loop or the insert leaves every table as it was; a KeyError in the
   * builder leaves the multidata insert done and nothing else. Only a run that reaches the
   * builder can end without error.
   */
  lemma StageFailures(columns: seq<string>, rows: seq<Row>, proteins: map<string, int>, existing: seq<string>,
                      newComplexes: map<string, int>, truthy: Cell -> bool)
    ensures var out := LoadSpec(columns, rows, proteins, existing, newComplexes, truthy);
      && (ResolveAll(rows, proteins).Err? ==> out == LoadOutcome([], [], [], Some(ResolveAll(rows, proteins).error)))
      && (!ReachesBuilder(columns, rows, proteins, existing, truthy) ==>
            out.failure.Some? && out.multidata == [] && out.composition == [] && out.registry == [])
      && (out.failure.Some? ==> out.composition == [] && out.registry == [])
      && (out.failure.None? ==> ReachesBuilder(columns, rows, proteins, existing, truthy))
    ensures var out := LoadSpec(columns, rows, proteins, existing, newComplexes, truthy);
      var res := ResolveAll(rows, proteins);
      ReachesBuilder(columns, rows, proteins, existing, truthy) ==>
        && (forall k :: 0 <= k < |res.value.completeIndices| ==> 0 <= res.value.completeIndices[k] < |rows|)
        && out.multidata == MultidataRows(columns, rows, res.value.completeIndices, existing, truthy).value
  {
    if ReachesBuilder(columns, rows, proteins, existing, truthy) {
      BuilderStage(columns, rows, proteins, existing, newComplexes, truthy);
    }
  }

  /** The run that reaches the builder: the multidata insert is done, and the builder decides the rest. */
  lemma BuilderStage(columns: seq<string>, rows: seq<Row>, proteins: map<string, int>, existing: seq<string>,
                     newComplexes: map<string, int>, truthy: Cell -> bool)
    requires ReachesBuilder(columns, rows, proteins, existing, truthy)
    ensures var res := ResolveAll(rows, proteins).value;
      (forall k :: 0 <= k < |res.completeIndices| ==> 0 <= res.completeIndices[k] < |rows|) &&
      res.complexMap.Valid()
    ensures var res := ResolveAll(rows, proteins).value;
      var out := LoadSpec(columns, rows, proteins, existing, newComplexes, truthy);
      var built := Build(res.complexMap.keys, res.complexMap.lists, newComplexes);
      && out.multidata == MultidataRows(columns, rows, res.completeIndices, existing, truthy).value
      && (built.Ok? ==> out.failure.None? && out.composition == built.value.composition && out.registry == built.value.registry)
      && (built.Err? ==> out.failure == Some(built.error) && out.composition == [] && out.registry == [])
  {
    ResolveAllIndices(rows, proteins);
    ResolveAllKeyOrder(rows, proteins);
  }

  /** No partial complexes, multidata: every written row is an inserted input row, pruned and coerced. */
  lemma WrittenRowsInserted(columns: seq<string>, rows: seq<Row>, proteins: map<string, int>, existing: seq<string>,
                            newComplexes: map<string, int>, truthy: Cell -> bool)
    requires Rectangular(columns, rows)
    ensures var out := LoadSpec(columns, rows, proteins, existing, newComplexes, truthy);
      forall w :: w in out.multidata ==>
        exists i :: 0 <= i < |rows| && Inserted(rows[i], proteins, existing) &&
          w == CoerceRow(rows[i] - ColumnSet(RemovalColumns(columns)), truthy)
  {
    var out := LoadSpec(columns, rows, proteins, existing, newComplexes, truthy);
    if ReachesBuilder(columns, rows, proteins, existing, truthy) {
      var labels := RemovalColumns(columns);
      BuilderStage(columns, rows, proteins, existing, newComplexes, truthy);
      MultidataContents(columns, rows, proteins, existing, truthy);
      forall w | w in out.multidata
        ensures exists i :: 0 <= i < |rows| && Inserted(rows[i], proteins, existing) &&
                  w == CoerceRow(rows[i] - ColumnSet(labels), truthy)
      {
        NewAcceptedMembers(rows, proteins, existing, labels, truthy, w);
      }
    }
  }

  /** `id` is the stored id of the complex key of some accepted row. */
  ghost predicate IdOfAccepted(rows: seq<Row>, proteins: map<string, int>, newComplexes: map<string, int>, id: int)
  {
    exists i :: 0 <= i < |rows| && Accepted(rows[i], proteins) && KEY_COLUMN in rows[i] &&
      ComplexId(rows[i][KEY_COLUMN], newComplexes) == Some(id)
  }

  /** `pair` joins the stored id of an accepted row's key with a protein id of that row's own list. */
  ghost predicate PairOfAccepted(rows: seq<Row>, proteins: map<string, int>, newComplexes: map<string, int>,
                                 pair: (int, int))
  {
    exists i :: 0 <= i < |rows| && Accepted(rows[i], proteins) && KEY_COLUMN in rows[i] &&
      ComplexId(rows[i][KEY_COLUMN], newComplexes) == Some(pair.0) && pair.1 in RowIds(rows[i], proteins)
  }

  /** No partial complexes, registry: every entry is the id of an accepted row's complex key. */
  lemma RegistryFromAccepted(columns: seq<string>, rows: seq<Row>, proteins: map<string, int>, existing: seq<string>,
                             newComplexes: map<string, int>, truthy: Cell -> bool)
    ensures var out := LoadSpec(columns, rows, proteins, existing, newComplexes, truthy);
      forall t :: 0 <= t < |out.registry| ==> IdOfAccepted(rows, proteins, newComplexes, out.registry[t])
  {
    var out := LoadSpec(columns, rows, proteins, existing, newComplexes, truthy);
    StageFailures(columns, rows, proteins, existing, newComplexes, truthy);
    if ReachesBuilder(columns, rows, proteins, existing, truthy) {
      BuilderStage(columns, rows, proteins, existing, newComplexes, truthy);
      var m := ResolveAll(rows, proteins).value.complexMap;
      if Build(m.keys, m.lists, newComplexes).Ok? {
        var registry := Build(m.keys, m.lists, newComplexes).value.registry;
        IdsFromRows(rows, proteins, newComplexes, m, registry);
        assert out.registry == registry;
      }
    }
  }

  /** The builder's registry entries over the complex map, each traced to an accepted row. */
  lemma IdsFromRows(rows: seq<Row>, proteins: map<string, int>, newComplexes: map<string, int>,
                    m: ComplexMap, registry: seq<int>)
    requires ResolveAll(rows, proteins).Ok? && m == ResolveAll(rows, proteins).value.complexMap && m.Valid()
    requires Build(m.keys, m.lists, newComplexes).Ok?
    requires registry == Build(m.keys, m.lists, newComplexes).value.registry
    ensures forall t :: 0 <= t < |registry| ==> IdOfAccepted(rows, proteins, newComplexes, registry[t])
  {
    BuildCounts(m.keys, m.lists, newComplexes);
    forall t | 0 <= t < |registry|
      ensures IdOfAccepted(rows, proteins, newComplexes, registry[t])
    {
      ListFromRow(rows, proteins, m.keys[t]);
    }
  }

  /** A pair built from a key of the complex map comes from an accepted row with that key. */
  lemma PairFromRow(rows: seq<Row>, proteins: map<string, int>, newComplexes: map<string, int>, key: Cell,
                    pair: (int, int))
    requires ResolveAll(rows, proteins).Ok? && key in ResolveAll(rows, proteins).value.complexMap.lists
    requires ComplexId(key, newComplexes) == Some(pair.0)
    requires pair.1 in ResolveAll(rows, proteins).value.complexMap.lists[key]
    ensures PairOfAccepted(rows, proteins, newComplexes, pair)
  {
    ListFromRow(rows, proteins, key);
  }

  /**
   * No partial complexes, composition: every pair joins the id of an accepted row's
   * complex key with a protein id of that row's own list.
   */
  lemma CompositionFromAccepted(columns: seq<string>, rows: seq<Row>, proteins: map<string, int>, existing: seq<string>,
                                newComplexes: map<string, int>, truthy: Cell -> bool)
    ensures var out := LoadSpec(columns, rows, proteins, existing, newComplexes, truthy);
      forall t :: 0 <= t < |out.composition| ==> PairOfAccepted(rows, proteins, newComplexes, out.composition[t])
  {
    var out := LoadSpec(columns, rows, proteins, existing, newComplexes, truthy);
    StageFailures(columns, rows, proteins, existing, newComplexes, truthy);
    if ReachesBuilder(columns, rows, proteins, existing, truthy) {
      BuilderStage(columns, rows, proteins, existing, newComplexes, truthy);
      var m := ResolveAll(rows, proteins).value.complexMap;
      if Build(m.keys, m.lists, newComplexes).Ok? {
        var composition := Build(m.keys, m.lists, newComplexes).value.composition;
        PairsFromRows(rows, proteins, newComplexes, m, composition);
        assert out.composition == composition;
      }
    }
  }

  /** The builder's pairs over the complex map, each traced to an accepted row. */
  lemma PairsFromRows(rows: seq<Row>, proteins: map<string, int>, newComplexes: map<string, int>,
                      m: ComplexMap, composition: seq<(int, int)>)
    requires ResolveAll(rows, proteins).Ok? && m == ResolveAll(rows, proteins).value.complexMap && m.Valid()
    requires Build(m.keys, m.lists, newComplexes).Ok?
    requires composition == Build(m.keys, m.lists, newComplexes).value.composition
    ensures forall t :: 0 <= t < |composition| ==> PairOfAccepted(rows, proteins, newComplexes, composition[t])
  {
    BuildPairs(m.keys, m.lists, newComplexes);
    forall t | 0 <= t < |composition|
      ensures PairOfAccepted(rows, proteins, newComplexes, composition[t])
    {
      var j :| 0 <= j < |m.keys| && ComplexId(m.keys[j], newComplexes) == Some(composition[t].0) &&
               composition[t].1 in m.lists[m.keys[j]];
      PairFromRow(rows, proteins, newComplexes, m.keys[j], composition[t]);
    }
  }

  /**
   * Every written multidata row has exactly the columns the removal filter keeps, and its
   * flag columns hold booleans.
   */
  lemma WrittenShape(columns: seq<string>, rows: seq<Row>, proteins: map<string, int>, existing: seq<string>,
                     newComplexes: map<string, int>, truthy: Cell -> bool)
    requires Rectangular(columns, rows)
    ensures var out := LoadSpec(columns, rows, proteins, existing, newComplexes, truthy);
      forall w :: w in out.multidata ==> w.Keys == (set c | c in columns && KeepsColumn(c))
    ensures var out := LoadSpec(columns, rows, proteins, existing, newComplexes, truthy);
      forall w: Row, c: string :: w in out.multidata && c in w && c in FLAG_COLUMNS ==> w[c].Flag?
  {
    var out := LoadSpec(columns, rows, proteins, existing, newComplexes, truthy);
    var labels := RemovalColumns(columns);
    WrittenRowsInserted(columns, rows, proteins, existing, newComplexes, truthy);
    forall w | w in out.multidata
      ensures w.Keys == (set c | c in columns && KeepsColumn(c))
    {
      var i :| 0 <= i < |rows| && Inserted(rows[i], proteins, existing) && w == CoerceRow(rows[i] - ColumnSet(labels), truthy);
      PrunedRowKeys(columns, rows[i], truthy);
    }
  }

  lemma PrunedRowKeys(columns: seq<string>, row: Row, truthy: Cell -> bool)
    requires row.Keys == ColumnSet(columns)
    ensures CoerceRow(row - ColumnSet(RemovalColumns(columns)), truthy).Keys == (set c | c in columns && KeepsColumn(c))
  {
  }

  /**
   * Loading a table whose accepted complexes are all stored already writes no multidata
   * row.
   */
  lemma RerunWritesNothing(columns: seq<string>, rows: seq<Row>, proteins: map<string, int>, existing: seq<string>,
                           newComplexes: map<string, int>, truthy: Cell -> bool)
    requires Rectangular(columns, rows)
    requires forall i :: 0 <= i < |rows| && Accepted(rows[i], proteins) && KEY_COLUMN in rows[i] ==>
               IsExistingKey(rows[i][KEY_COLUMN], existing)
    ensures LoadSpec(columns, rows, proteins, existing, newComplexes, truthy).multidata == []
  {
    if ReachesBuilder(columns, rows, proteins, existing, truthy) {
      BuilderStage(columns, rows, proteins, existing, newComplexes, truthy);
      MultidataContents(columns, rows, proteins, existing, truthy);
      NothingInserted(rows, proteins, existing, RemovalColumns(columns), truthy);
    }
  }

  lemma {:induction false} NothingInserted(rows: seq<Row>, proteins: map<string, int>, existing: seq<string>,
                                           labels: seq<string>, truthy: Cell -> bool)
    requires forall i :: 0 <= i < |rows| ==> !Inserted(rows[i], proteins, existing)
    ensures NewAcceptedRows(rows, proteins, existing, labels, truthy) == []
  {
    if rows != [] {
      var n := |rows| - 1;
      assert forall i :: 0 <= i < n ==> rows[..n][i] == rows[i];
      NothingInserted(rows[..n], proteins, existing, labels, truthy);
    }
  }

  /**
   * The builder succeeds exactly when every accepted row's complex key has an id in
   * `new_complexes`; either way the multidata insert stays done.
   */
  lemma BuilderNeedsIds(columns: seq<string>, rows: seq<Row>, proteins: map<string, int>, existing: seq<string>,
                        newComplexes: map<string, int>, truthy: Cell -> bool)
    requires ReachesBuilder(columns, rows, proteins, existing, truthy)
    ensures var out := LoadSpec(columns, rows, proteins, existing, newComplexes, truthy);
      out.failure.None? <==>
        forall i :: 0 <= i < |rows| && Accepted(rows[i], proteins) && KEY_COLUMN in rows[i] ==>
          ComplexId(rows[i][KEY_COLUMN], newComplexes).Some?
    ensures var out := LoadSpec(columns, rows, proteins, existing, newComplexes, truthy);
      out.failure.Some? ==> out.failure.value.MissingComplexId?
  {
    var out := LoadSpec(columns, rows, proteins, existing, newComplexes, truthy);
    BuilderStage(columns, rows, proteins, existing, newComplexes, truthy);
    var m := ResolveAll(rows, proteins).value.complexMap;
    BuildFailure(m.keys, m.lists, newComplexes);
    if out.failure.None? {
      forall i | 0 <= i < |rows| && Accepted(rows[i], proteins) && KEY_COLUMN in rows[i]
        ensures ComplexId(rows[i][KEY_COLUMN], newComplexes).Some?
      {
        ComplexMapKeys(rows, proteins, rows[i][KEY_COLUMN]);
      }
    } else {
      var k :| 0 <= k < |m.keys| && ComplexId(m.keys[k], newComplexes).None?;
      ListFromRow(rows, proteins, m.keys[k]);
    }
  }

  /**
   * With `new_complexes` read back after the insert (it holds every stored key and every
   * written row's key), the builder succeeds as long as no accepted row has a null key.
   */
  lemma BuilderSucceedsAfterInsert(columns: seq<string>, rows: seq<Row>, proteins: map<string, int>, existing: seq<string>,
                                   newComplexes: map<string, int>, truthy: Cell -> bool)
    requires Rectangular(columns, rows)
    requires ReachesBuilder(columns, rows, proteins, existing, truthy)
    requires forall i :: 0 <= i < |rows| && Accepted(rows[i], proteins) && KEY_COLUMN in rows[i] ==> rows[i][KEY_COLUMN].Text?
    requires forall s :: s in existing ==> s in newComplexes
    requires forall w: Row :: (w in LoadSpec(columns, rows, proteins, existing, newComplexes, truthy).multidata &&
               KEY_COLUMN in w && w[KEY_COLUMN].Text?) ==> w[KEY_COLUMN].text in newComplexes
    ensures LoadSpec(columns, rows, proteins, existing, newComplexes, truthy).failure == None
  {
    BuilderStage(columns, rows, proteins, existing, newComplexes, truthy);
    MultidataContents(columns, rows, proteins, existing, truthy);
    KeyAndFlagsKept();
    AcceptedKeysHaveIds(rows, proteins, existing, RemovalColumns(columns), newComplexes, truthy);
    BuilderNeedsIds(columns, rows, proteins, existing, newComplexes, truthy);
  }

  /** When the written rows' keys and the stored keys all have ids, so does every accepted text key. */
  lemma AcceptedKeysHaveIds(rows: seq<Row>, proteins: map<string, int>, existing: seq<string>, labels: seq<string>,
                            newComplexes: map<string, int>, truthy: Cell -> bool)
    requires KEY_COLUMN !in labels
    requires forall i :: 0 <= i < |rows| && Accepted(rows[i], proteins) && KEY_COLUMN in rows[i] ==> rows[i][KEY_COLUMN].Text?
    requires forall s :: s in existing ==> s in newComplexes
    requires forall w: Row :: (w in NewAcceptedRows(rows, proteins, existing, labels, truthy) &&
               KEY_COLUMN in w && w[KEY_COLUMN].Text?) ==> w[KEY_COLUMN].text in newComplexes
    ensures forall i :: 0 <= i < |rows| && Accepted(rows[i], proteins) && KEY_COLUMN in rows[i] ==>
              ComplexId(rows[i][KEY_COLUMN], newComplexes).Some?
  {
    forall i | 0 <= i < |rows| && Accepted(rows[i], proteins) && KEY_COLUMN in rows[i]
      ensures ComplexId(rows[i][KEY_COLUMN], newComplexes).Some?
    {
      if !IsExistingKey(rows[i][KEY_COLUMN], existing) {
        var w := CoerceRow(rows[i] - ColumnSet(labels), truthy);
        NewAcceptedMembers(rows, proteins, existing, labels, truthy, w);
        CoercedKey(rows[i], labels, truthy);
      }
    }
  }

  /** An accepted row with a null complex key makes the builder raise. */
  lemma NullKeyFails(columns: seq<string>, rows: seq<Row>, proteins: map<string, int>, existing: seq<string>,
                     newComplexes: map<string, int>, truthy: Cell -> bool, i: int)
    requires ReachesBuilder(columns, rows, proteins, existing, truthy)
    requires 0 <= i < |rows| && Accepted(rows[i], proteins) && KEY_COLUMN in rows[i] && rows[i][KEY_COLUMN].Null?
    ensures LoadSpec(columns, rows, proteins, existing, newComplexes, truthy).failure.Some?
  {
    BuilderNeedsIds(columns, rows, proteins, existing, newComplexes, truthy);
  }

  /**
   * The stored-complex case: when every accepted complex is stored already and
   * `new_complexes` holds the stored keys, the run writes no multidata row yet still
   * appends a registry entry for every accepted complex, under its stored id.
   */
  lemma RerunStillRegisters(columns: seq<string>, rows: seq<Row>, proteins: map<string, int>, existing: seq<string>,
                            newComplexes: map<string, int>, truthy: Cell -> bool)
    requires Rectangular(columns, rows)
    requires ReachesBuilder(columns, rows, proteins, existing, truthy)
    requires forall i :: 0 <= i < |rows| && Accepted(rows[i], proteins) && KEY_COLUMN in rows[i] ==>
               IsExistingKey(rows[i][KEY_COLUMN], existing)
    requires forall s :: s in existing ==> s in newComplexes
    ensures var out := LoadSpec(columns, rows, proteins, existing, newComplexes, truthy);
      out.multidata == [] && out.failure == None
    ensures var out := LoadSpec(columns, rows, proteins, existing, newComplexes, truthy);
      forall i :: 0 <= i < |rows| && Accepted(rows[i], proteins) && KEY_COLUMN in rows[i] ==>
        rows[i][KEY_COLUMN].Text? && newComplexes[rows[i][KEY_COLUMN].text] in out.registry
  {
    var out := LoadSpec(columns, rows, proteins, existing, newComplexes, truthy);
    RerunWritesNothing(columns, rows, proteins, existing, newComplexes, truthy);
    BuilderNeedsIds(columns, rows, proteins, existing, newComplexes, truthy);
    BuilderStage(columns, rows, proteins, existing, newComplexes, truthy);
    var m := ResolveAll(rows, proteins).value.complexMap;
    BuildCounts(m.keys, m.lists, newComplexes);
    forall i | 0 <= i < |rows| && Accepted(rows[i], proteins) && KEY_COLUMN in rows[i]
      ensures newComplexes[rows[i][KEY_COLUMN].text] in out.registry
    {
      var c := rows[i][KEY_COLUMN];
      ComplexMapKeys(rows, proteins, c);
      var k :| 0 <= k < |m.keys| && m.keys[k] == c;
      assert out.registry[k] == newComplexes[c.text];
    }
  }

  /**
   * With every accepted key stored already, the builder still appends, for each key, one
   * pair per protein of the latest accepted row with that key, under the stored id.
   */
  lemma RerunStillComposes(columns: seq<string>, rows: seq<Row>, proteins: map<string, int>, existing: seq<string>,
                           newComplexes: map<string, int>, truthy: Cell -> bool)
    requires Rectangular(columns, rows)
    requires ReachesBuilder(columns, rows, proteins, existing, truthy)
    requires forall i :: 0 <= i < |rows| && Accepted(rows[i], proteins) && KEY_COLUMN in rows[i] ==>
               IsExistingKey(rows[i][KEY_COLUMN], existing)
    requires forall s :: s in existing ==> s in newComplexes
    ensures var out := LoadSpec(columns, rows, proteins, existing, newComplexes, truthy);
      forall i, p :: LatestWithKey(rows, proteins, i) && p in RowIds(rows[i], proteins) ==>
        rows[i][KEY_COLUMN].Text? && (newComplexes[rows[i][KEY_COLUMN].text], p) in out.composition
  {
    var out := LoadSpec(columns, rows, proteins, existing, newComplexes, truthy);
    RerunStillRegisters(columns, rows, proteins, existing, newComplexes, truthy);
    BuilderStage(columns, rows, proteins, existing, newComplexes, truthy);
    var m := ResolveAll(rows, proteins).value.complexMap;
    assert Build(m.keys, m.lists, newComplexes).Ok?;
    BuildPairs(m.keys, m.lists, newComplexes);
    forall i, p | LatestWithKey(rows, proteins, i) && p in RowIds(rows[i], proteins)
      ensures rows[i][KEY_COLUMN].Text? && (newComplexes[rows[i][KEY_COLUMN].text], p) in out.composition
    {
      var c := rows[i][KEY_COLUMN];
      LaterRowOverwrites(rows, proteins, i);
      var k :| 0 <= k < |m.keys| && m.keys[k] == c;
      assert ComplexId(m.keys[k], newComplexes) == Some(newComplexes[c.text]);
    }
  }

  // ----- composition counts per row -----

  /** No two accepted rows carry the same complex key. */
  ghost predicate UniqueKeys(rows: seq<Row>, proteins: map<string, int>)
  {
    forall i, j ::
      (0 <= i < j < |rows| && Accepted(rows[i], proteins) && KEY_COLUMN in rows[i] &&
       Accepted(rows[j], proteins) && KEY_COLUMN in rows[j]) ==> rows[i][KEY_COLUMN] != rows[j][KEY_COLUMN]
  }

  /** The number of ids the accepted rows resolve, summed over the table. */
  ghost function AcceptedIdCount(rows: seq<Row>, proteins: map<string, int>): nat
  {
    if rows == [] then 0
    else
      var n := |rows| - 1;
      AcceptedIdCount(rows[..n], proteins) + (if Accepted(rows[n], proteins) then |RowIds(rows[n], proteins)| else 0)
  }

  lemma {:induction false} MembersFrame(keys: seq<Cell>, l1: map<Cell, seq<int>>, l2: map<Cell, seq<int>>)
    requires KeysListed(keys, l1) && KeysListed(keys, l2)
    requires forall k :: 0 <= k < |keys| ==> l1[keys[k]] == l2[keys[k]]
    ensures Members(keys, l1) == Members(keys, l2)
  {
    if keys != [] {
      var n := |keys| - 1;
      assert forall k :: 0 <= k < n ==> keys[..n][k] == keys[k];
      MembersFrame(keys[..n], l1, l2);
    }
  }

  /** Appending a fresh key with its list adds that list's length to the member count. */
  lemma MembersAppend(keys: seq<Cell>, lists: map<Cell, seq<int>>, key: Cell, ids: seq<int>)
    requires KeysListed(keys, lists) && key !in keys
    ensures KeysListed(keys + [key], lists[key := ids])
    ensures Members(keys + [key], lists[key := ids]) == Members(keys, lists) + |ids|
  {
    var ks := keys + [key];
    assert ks[..|keys|] == keys;
    MembersFrame(keys, lists, lists[key := ids]);
  }

  /**
   * With distinct complex keys, the registry gets one entry per accepted row and the
   * composition one pair per id each accepted row resolved.
   */
  lemma {:induction false} UniqueKeyCounts(rows: seq<Row>, proteins: map<string, int>)
    requires ResolveAll(rows, proteins).Ok? && UniqueKeys(rows, proteins)
    ensures var res := ResolveAll(rows, proteins).value;
      && KeysListed(res.complexMap.keys, res.complexMap.lists)
      && |res.complexMap.keys| == |res.completeIndices|
      && Members(res.complexMap.keys, res.complexMap.lists) == AcceptedIdCount(rows, proteins)
  {
    ResolveAllKeyOrder(rows, proteins);
    if rows != [] {
      var pre := rows[..|rows| - 1];
      PrefixOk(rows, proteins);
      UniquePrefix(rows, proteins);
      UniqueKeyCounts(pre, proteins);
      ResolveAllKeyOrder(pre, proteins);
      if Accepted(rows[|rows| - 1], proteins) {
        FreshKey(rows, proteins);
      }
      UniqueKeyStep(rows, proteins);
    }
  }

  /** The step of `UniqueKeyCounts` from the table without its last row to the whole table. */
  lemma UniqueKeyStep(rows: seq<Row>, proteins: map<string, int>)
    requires rows != [] && ResolveAll(rows, proteins).Ok?
    requires ResolveAll(rows[..|rows| - 1], proteins).Ok?
    requires var acc := ResolveAll(rows[..|rows| - 1], proteins).value;
      && acc.complexMap.Valid()
      && (Accepted(rows[|rows| - 1], proteins) ==>
            KEY_COLUMN in rows[|rows| - 1] && rows[|rows| - 1][KEY_COLUMN] !in acc.complexMap.lists)
      && KeysListed(acc.complexMap.keys, acc.complexMap.lists)
      && |acc.complexMap.keys| == |acc.completeIndices|
      && Members(acc.complexMap.keys, acc.complexMap.lists) == AcceptedIdCount(rows[..|rows| - 1], proteins)
    ensures var res := ResolveAll(rows, proteins).value;
      && KeysListed(res.complexMap.keys, res.complexMap.lists)
      && |res.complexMap.keys| == |res.completeIndices|
      && Members(res.complexMap.keys, res.complexMap.lists) == AcceptedIdCount(rows, proteins)
  {
    var n := |rows| - 1;
    LastRow(rows, proteins);
    assert AcceptedIdCount(rows, proteins)
      == AcceptedIdCount(rows[..n], proteins) + (if Accepted(rows[n], proteins) then |RowIds(rows[n], proteins)| else 0);
    CountsStep(ResolveAll(rows[..n], proteins).value, ResolveAll(rows, proteins).value, rows[n], n, proteins);
  }

  /** One row of the loop, on the loop's state alone: the counts grow by the row's ids when it is accepted. */
  lemma CountsStep(acc: Resolution, res: Resolution, row: Row, n: int, proteins: map<string, int>)
    requires acc.complexMap.Valid() && KeysListed(acc.complexMap.keys, acc.complexMap.lists)
    requires |acc.complexMap.keys| == |acc.completeIndices|
    requires Accepted(row, proteins) ==>
      && KEY_COLUMN in row && row[KEY_COLUMN] !in acc.complexMap.lists
      && res == Resolution(acc.completeIndices + [n], acc.complexMap.Put(row[KEY_COLUMN], RowIds(row, proteins)))
    requires !Accepted(row, proteins) ==> res == acc
    ensures KeysListed(res.complexMap.keys, res.complexMap.lists)
    ensures |res.complexMap.keys| == |res.completeIndices|
    ensures Members(res.complexMap.keys, res.complexMap.lists) ==
              Members(acc.complexMap.keys, acc.complexMap.lists) + (if Accepted(row, proteins) then |RowIds(row, proteins)| else 0)
  {
    if Accepted(row, proteins) {
      MembersAppend(acc.complexMap.keys, acc.complexMap.lists, row[KEY_COLUMN], RowIds(row, proteins));
    }
  }

  lemma UniquePrefix(rows: seq<Row>, proteins: map<string, int>)
    requires rows != [] && UniqueKeys(rows, proteins)
    ensures UniqueKeys(rows[..|rows| - 1], proteins)
  {
    var pre := rows[..|rows| - 1];
    assert forall i :: 0 <= i < |pre| ==> pre[i] == rows[i];
  }

  /** With distinct keys, an accepted last row brings a key the earlier rows did not put in the map. */
  lemma FreshKey(rows: seq<Row>, proteins: map<string, int>)
    requires rows != [] && ResolveAll(rows, proteins).Ok? && UniqueKeys(rows, proteins)
    requires Accepted(rows[|rows| - 1], proteins)
    ensures ResolveAll(rows[..|rows| - 1], proteins).Ok?
    ensures KEY_COLUMN in rows[|rows| - 1]
    ensures rows[|rows| - 1][KEY_COLUMN] !in ResolveAll(rows[..|rows| - 1], proteins).value.complexMap.lists
  {
    var n := |rows| - 1;
    var pre := rows[..n];
    PrefixOk(rows, proteins);
    ResolveAllIndices(rows, proteins);
    assert n in ResolveAll(rows, proteins).value.completeIndices;
    var key := rows[n][KEY_COLUMN];
    assert forall i :: 0 <= i < n ==> pre[i] == rows[i];
    ComplexMapKeys(pre, proteins, key);
  }

  /**
   * A run without error appends as many composition pairs as the complex map's lists hold
   * ids and one registry entry per key; with distinct complex keys that is one entry per
   * accepted row and, in total, as many pairs as the accepted rows resolved ids (which
   * pairs each complex gets is `CompositionPerComplex`).
   */
  lemma CompositionCounts(columns: seq<string>, rows: seq<Row>, proteins: map<string, int>, existing: seq<string>,
                          newComplexes: map<string, int>, truthy: Cell -> bool)
    requires LoadSpec(columns, rows, proteins, existing, newComplexes, truthy).failure.None?
    ensures var out := LoadSpec(columns, rows, proteins, existing, newComplexes, truthy);
      var m := ResolveAll(rows, proteins).value.complexMap;
      && KeysListed(m.keys, m.lists)
      && |out.composition| == Members(m.keys, m.lists)
      && |out.registry| == |m.keys|
    ensures var out := LoadSpec(columns, rows, proteins, existing, newComplexes, truthy);
      UniqueKeys(rows, proteins) ==>
        |out.registry| == |ResolveAll(rows, proteins).value.completeIndices| &&
        |out.composition| == AcceptedIdCount(rows, proteins)
  {
    StageFailures(columns, rows, proteins, existing, newComplexes, truthy);
    BuilderStage(columns, rows, proteins, existing, newComplexes, truthy);
    var m := ResolveAll(rows, proteins).value.complexMap;
    BuildCounts(m.keys, m.lists, newComplexes);
    if UniqueKeys(rows, proteins) {
      UniqueKeyCounts(rows, proteins);
    }
  }

  /**
   * Per complex: in a run without error, the latest accepted row for a key, whose id no
   * other accepted key shares, has its resolved ids as that id's partners, one pair per
   * non-null reference, repeats included, in column order.
   */
  lemma CompositionPerComplex(columns: seq<string>, rows: seq<Row>, proteins: map<string, int>, existing: seq<string>,
                              newComplexes: map<string, int>, truthy: Cell -> bool, i: int)
    requires LoadSpec(columns, rows, proteins, existing, newComplexes, truthy).failure.None?
    requires LatestWithKey(rows, proteins, i)
    requires forall j ::
               (0 <= j < |rows| && Accepted(rows[j], proteins) && KEY_COLUMN in rows[j] &&
                rows[j][KEY_COLUMN] != rows[i][KEY_COLUMN]) ==>
               ComplexId(rows[j][KEY_COLUMN], newComplexes) != ComplexId(rows[i][KEY_COLUMN], newComplexes)
    ensures ComplexId(rows[i][KEY_COLUMN], newComplexes).Some?
    ensures Partners(LoadSpec(columns, rows, proteins, existing, newComplexes, truthy).composition,
                     ComplexId(rows[i][KEY_COLUMN], newComplexes).value) == RowIds(rows[i], proteins)
  {
    var out := LoadSpec(columns, rows, proteins, existing, newComplexes, truthy);
    StageFailures(columns, rows, proteins, existing, newComplexes, truthy);
    BuilderStage(columns, rows, proteins, existing, newComplexes, truthy);
    var m := ResolveAll(rows, proteins).value.complexMap;
    var c := rows[i][KEY_COLUMN];
    assert Build(m.keys, m.lists, newComplexes).Ok?;
    BuildFailure(m.keys, m.lists, newComplexes);
    LaterRowOverwrites(rows, proteins, i);
    var k :| 0 <= k < |m.keys| && m.keys[k] == c;
    forall j | 0 <= j < |m.keys| && j != k
      ensures ComplexId(m.keys[j], newComplexes) != ComplexId(m.keys[k], newComplexes)
    {
      ComplexMapKeys(rows, proteins, m.keys[j]);
    }
    BuildPartners(m.keys, m.lists, newComplexes, k);
  }

  // ----- the one-row scenarios -----

  const SCENARIO_COLUMNS: seq<string> := [KEY_COLUMN] + PROTEIN_COLUMNS + FLAG_COLUMNS

  /** Complex `C1` over one protein reference; the other references are null, the flags are `1`. */
  function ScenarioRow(reference: string): Row
  {
    map[KEY_COLUMN := Text("C1"),
        "protein_1_id" := Text(reference), "protein_2_id" := Null, "protein_3_id" := Null, "protein_4_id" := Null,
        "receptor" := Text("1"), "receptor_highlight" := Text("1"), "adhesion" := Text("1"),
        "other" := Text("1"), "transporter" := Text("1"), "secreted_highlight" := Text("1")]
  }

  lemma ScenarioShape(reference: string)
    ensures ScenarioRow(reference).Keys == ColumnSet(SCENARIO_COLUMNS)
    ensures KEY_COLUMN in ScenarioRow(reference) && ScenarioRow(reference)[KEY_COLUMN] == Text("C1")
  {
  }

  lemma ScenarioScan(reference: string, proteins: map<string, int>)
    ensures ScanRow(ScenarioRow(reference), proteins) ==
              if reference in proteins then Ok(Some([proteins[reference]])) else Ok(None)
  {
    ScenarioCells(reference);
    OneReference(reference, proteins);
  }

  lemma ScenarioCells(reference: string)
    ensures HasReferenceColumns(ScenarioRow(reference))
    ensures FirstAbsent(PROTEIN_COLUMNS, ScenarioRow(reference).Keys) == None
    ensures Cells(ScenarioRow(reference)) == [Text(reference), Null, Null, Null]
  {
    var row := ScenarioRow(reference);
    assert row[PROTEIN_COLUMNS[0]] == Text(reference);
    assert row[PROTEIN_COLUMNS[1]] == Null;
    assert row[PROTEIN_COLUMNS[2]] == Null;
    assert row[PROTEIN_COLUMNS[3]] == Null;
  }

  /** Cells with one reference followed by three nulls: complete when it resolves, with its id alone. */
  lemma OneReference(reference: string, proteins: map<string, int>)
    ensures var cells := [Text(reference), Null, Null, Null];
      && (Complete(cells, proteins) <==> reference in proteins)
      && (reference in proteins ==> KnownIds(cells, proteins) == [proteins[reference]])
  {
    var one := [Text(reference)];
    assert [] + [Text(reference)] == one;
    KnownIdsStep([], Text(reference), proteins);
    CompleteStep([], Text(reference), proteins);
    KnownIdsStep(one, Null, proteins);
    CompleteStep(one, Null, proteins);
    KnownIdsStep(one + [Null], Null, proteins);
    CompleteStep(one + [Null], Null, proteins);
    KnownIdsStep(one + [Null] + [Null], Null, proteins);
    CompleteStep(one + [Null] + [Null], Null, proteins);
    assert one + [Null] + [Null] + [Null] == [Text(reference), Null, Null, Null];
  }

  lemma ScenarioColumns()
    ensures forall k :: 0 <= k < |FLAG_COLUMNS| ==> FLAG_COLUMNS[k] in SCENARIO_COLUMNS
    ensures FirstAbsent(FLAG_COLUMNS, ColumnSet(SCENARIO_COLUMNS)) == None
    ensures KEY_COLUMN in SCENARIO_COLUMNS
  {
    assert forall k :: 0 <= k < |FLAG_COLUMNS| ==> SCENARIO_COLUMNS[k + 5] == FLAG_COLUMNS[k];
  }

  lemma OneRowResolution(row: Row, proteins: map<string, int>)
    requires KEY_COLUMN in row && ScanRow(row, proteins).Ok?
    ensures ResolveAll([row], proteins) ==
              match ScanRow(row, proteins).value
              case None => Ok(Resolution([], ComplexMap([], map[])))
              case Some(ids) => Ok(Resolution([0], ComplexMap([row[KEY_COLUMN]], map[row[KEY_COLUMN] := ids])))
  {
    assert [row][..0] == [];
    match ScanRow(row, proteins).value
    case None =>
    case Some(ids) =>
      var empty := Resolution([], ComplexMap([], map[]));
      assert ResolveAll([row][..0], proteins) == Ok(empty);
      assert empty.completeIndices + [0] == [0];
      assert empty.complexMap.Put(row[KEY_COLUMN], ids) == ComplexMap([row[KEY_COLUMN]], map[row[KEY_COLUMN] := ids]);
  }

  lemma OneRowReaches(row: Row, proteins: map<string, int>, existing: seq<string>, truthy: Cell -> bool)
    requires row.Keys == ColumnSet(SCENARIO_COLUMNS) && KEY_COLUMN in row && ScanRow(row, proteins).Ok?
    ensures ReachesBuilder(SCENARIO_COLUMNS, [row], proteins, existing, truthy)
    ensures forall k :: 0 <= k < |ResolveAll([row], proteins).value.completeIndices| ==>
              0 <= ResolveAll([row], proteins).value.completeIndices[k] < 1
  {
    ScenarioColumns();
    OneRowResolution(row, proteins);
    ResolveAllIndices([row], proteins);
    MultidataMissingColumns(SCENARIO_COLUMNS, [row], ResolveAll([row], proteins).value.completeIndices, existing, truthy);
  }

  lemma OneRowInsert(row: Row, proteins: map<string, int>, existing: seq<string>, truthy: Cell -> bool)
    requires row.Keys == ColumnSet(SCENARIO_COLUMNS) && KEY_COLUMN in row && ScanRow(row, proteins).Ok?
    ensures ReachesBuilder(SCENARIO_COLUMNS, [row], proteins, existing, truthy)
    ensures forall k :: 0 <= k < |ResolveAll([row], proteins).value.completeIndices| ==>
              0 <= ResolveAll([row], proteins).value.completeIndices[k] < 1
    ensures MultidataRows(SCENARIO_COLUMNS, [row], ResolveAll([row], proteins).value.completeIndices, existing, truthy).value ==
              if Inserted(row, proteins, existing)
              then [CoerceRow(row - ColumnSet(RemovalColumns(SCENARIO_COLUMNS)), truthy)] else []
  {
    var rows := [row];
    var labels := RemovalColumns(SCENARIO_COLUMNS);
    OneRowReaches(row, proteins, existing, truthy);
    MultidataContents(SCENARIO_COLUMNS, rows, proteins, existing, truthy);
    assert rows[..0] == [];
    assert NewAcceptedRows(rows, proteins, existing, labels, truthy) ==
             if Inserted(row, proteins, existing) then [CoerceRow(row - ColumnSet(labels), truthy)] else [];
  }

  /** A one-row table over the scenario columns whose reference cells all resolve. */
  lemma OneRowAccepted(row: Row, ids: seq<int>, proteins: map<string, int>, existing: seq<string>,
                       newComplexes: map<string, int>, truthy: Cell -> bool)
    requires row.Keys == ColumnSet(SCENARIO_COLUMNS) && KEY_COLUMN in row && row[KEY_COLUMN].Text?
    requires ScanRow(row, proteins) == Ok(Some(ids))
    requires row[KEY_COLUMN].text !in existing && row[KEY_COLUMN].text in newComplexes
    ensures LoadSpec(SCENARIO_COLUMNS, [row], proteins, existing, newComplexes, truthy) ==
              LoadOutcome([CoerceRow(row - ColumnSet(RemovalColumns(SCENARIO_COLUMNS)), truthy)],
                          Pairs(newComplexes[row[KEY_COLUMN].text], ids), [newComplexes[row[KEY_COLUMN].text]], None)
  {
    OneRowResolution(row, proteins);
    OneRowInsert(row, proteins, existing, truthy);
    BuilderStage(SCENARIO_COLUMNS, [row], proteins, existing, newComplexes, truthy);
    SingleKey(row[KEY_COLUMN], map[row[KEY_COLUMN] := ids], newComplexes);
  }

  /** A one-row table over the scenario columns with a reference that does not resolve. */
  lemma OneRowRejected(row: Row, proteins: map<string, int>, existing: seq<string>,
                       newComplexes: map<string, int>, truthy: Cell -> bool)
    requires row.Keys == ColumnSet(SCENARIO_COLUMNS) && KEY_COLUMN in row
    requires ScanRow(row, proteins) == Ok(None)
    ensures LoadSpec(SCENARIO_COLUMNS, [row], proteins, existing, newComplexes, truthy) == LoadOutcome([], [], [], None)
  {
    OneRowResolution(row, proteins);
    OneRowInsert(row, proteins, existing, truthy);
    BuilderStage(SCENARIO_COLUMNS, [row], proteins, existing, newComplexes, truthy);
  }

  /**
   * One complex `C1` over one resolvable protein, not stored before and stored by the
   * insert: one multidata row for `C1`, one registry entry and one composition pair, both
   * under the id `C1` is stored with.
   */
  lemma ScenarioOneComplex(reference: string, proteins: map<string, int>, existing: seq<string>,
                           newComplexes: map<string, int>, truthy: Cell -> bool)
    requires reference in proteins && "C1" !in existing && "C1" in newComplexes
    ensures var out := LoadSpec(SCENARIO_COLUMNS, [ScenarioRow(reference)], proteins, existing, newComplexes, truthy);
      && out.failure == None
      && |out.multidata| == 1 && KEY_COLUMN in out.multidata[0] && out.multidata[0][KEY_COLUMN] == Text("C1")
      && out.registry == [newComplexes["C1"]]
      && out.composition == [(newComplexes["C1"], proteins[reference])]
  {
    ScenarioShape(reference);
    ScenarioScan(reference, proteins);
    OneRowOneId(ScenarioRow(reference), proteins[reference], proteins, existing, newComplexes, truthy);
  }

  /** A one-row table for `C1` whose row resolves to the single protein id `pid`. */
  lemma OneRowOneId(row: Row, pid: int, proteins: map<string, int>, existing: seq<string>,
                    newComplexes: map<string, int>, truthy: Cell -> bool)
    requires row.Keys == ColumnSet(SCENARIO_COLUMNS) && KEY_COLUMN in row && row[KEY_COLUMN] == Text("C1")
    requires ScanRow(row, proteins) == Ok(Some([pid]))
    requires "C1" !in existing && "C1" in newComplexes
    ensures var out := LoadSpec(SCENARIO_COLUMNS, [row], proteins, existing, newComplexes, truthy);
      && out.failure == None
      && |out.multidata| == 1 && KEY_COLUMN in out.multidata[0] && out.multidata[0][KEY_COLUMN] == Text("C1")
      && out.registry == [newComplexes["C1"]]
      && out.composition == [(newComplexes["C1"], pid)]
  {
    OneRowAccepted(row, [pid], proteins, existing, newComplexes, truthy);
    OneOutcome(row, pid, newComplexes["C1"], truthy);
  }

  lemma OneOutcome(row: Row, pid: int, id: int, truthy: Cell -> bool)
    requires KEY_COLUMN in row
    ensures var w := CoerceRow(row - ColumnSet(RemovalColumns(SCENARIO_COLUMNS)), truthy);
      KEY_COLUMN in w && w[KEY_COLUMN] == row[KEY_COLUMN]
    ensures Pairs(id, [pid]) == [(id, pid)]
  {
    KeyAndFlagsKept();
    CoercedKey(row, RemovalColumns(SCENARIO_COLUMNS), truthy);
  }

  /** The same row with a reference no protein has: nothing is written at all, and no error. */
  lemma ScenarioUnknownProtein(reference: string, proteins: map<string, int>, existing: seq<string>,
                               newComplexes: map<string, int>, truthy: Cell -> bool)
    requires reference !in proteins
    ensures LoadSpec(SCENARIO_COLUMNS, [ScenarioRow(reference)], proteins, existing, newComplexes, truthy) ==
              LoadOutcome([], [], [], None)
  {
    ScenarioShape(reference);
    ScenarioScan(reference, proteins);
    OneRowRejected(ScenarioRow(reference), proteins, existing, newComplexes, truthy);
  }

  /**
   * The same row read from a one-row file: the empty reference columns are dropped as
   * all-missing before the loop, so the loop's lookup of `protein_2_id` raises and nothing
   * is written.
   */
  lemma ScenarioEmptyColumnsDropped(reference: string, columns: seq<string>, proteins: map<string, int>,
                                    existing: seq<string>, newComplexes: map<string, int>, truthy: Cell -> bool)
    ensures var row := ScenarioRow(reference) - {PROTEIN_COLUMNS[1], PROTEIN_COLUMNS[2], PROTEIN_COLUMNS[3]};
      LoadSpec(columns, [row], proteins, existing, newComplexes, truthy) ==
        LoadOutcome([], [], [], Some(MissingColumn(PROTEIN_COLUMNS[1])))
  {
    var row := ScenarioRow(reference) - {PROTEIN_COLUMNS[1], PROTEIN_COLUMNS[2], PROTEIN_COLUMNS[3]};
    assert PROTEIN_COLUMNS[0] in row && PROTEIN_COLUMNS[1] !in row;
    assert FirstAbsent(PROTEIN_COLUMNS, row.Keys) == Some(PROTEIN_COLUMNS[1]);
    assert ScanRow(row, proteins) == Err(MissingColumn(PROTEIN_COLUMNS[1]));
    assert [row][..0] == [];
    assert ResolveAll([row], proteins) == Err(MissingColumn(PROTEIN_COLUMNS[1]));
  }
}
