/**
 * Row resolution: for every row, the non-null protein references are looked up in the
 * protein map; a row is accepted only when every one of them resolves. Accepted rows
 * record their protein id list under their complex key and their position.
 */
module Resolution {
  import opened Wrappers
  import opened Seqs
  import opened Frames

  predicate HasReferenceColumns(row: Row)
  {
    forall k :: 0 <= k < |PROTEIN_COLUMNS| ==> PROTEIN_COLUMNS[k] in row
  }

  /** The four reference cells of a row, in column order. */
  function Cells(row: Row): seq<Cell>
    requires HasReferenceColumns(row)
  {
    seq(|PROTEIN_COLUMNS|, k requires 0 <= k < |PROTEIN_COLUMNS| => row[PROTEIN_COLUMNS[k]])
  }

  /** A non-null reference cell. */
  predicate IsReference(c: Cell)
  {
    !c.Null?
  }

  /** `proteins.get(cell) is not None`. */
  predicate Resolves(c: Cell, proteins: map<string, int>)
  {
    c.Text? && c.text in proteins
  }

  /** No reference is unknown: `missing` stays false. */
  predicate Complete(cells: seq<Cell>, proteins: map<string, int>)
  {
    forall k :: 0 <= k < |cells| ==> cells[k].Null? || Resolves(cells[k], proteins)
  }

  /** The ids of the references that resolve, in column order: what `protein_id_list` accumulates. */
  function KnownIds(cells: seq<Cell>, proteins: map<string, int>): seq<int>
  {
    if cells == [] then []
    else
      var n := |cells| - 1;
      KnownIds(cells[..n], proteins) + (if Resolves(cells[n], proteins) then [proteins[cells[n].text]] else [])
  }

  /** One more cell adds its id when it resolves, and nothing otherwise. */
  lemma KnownIdsStep(seen: seq<Cell>, cell: Cell, proteins: map<string, int>)
    ensures KnownIds(seen + [cell], proteins) ==
              KnownIds(seen, proteins) + (if Resolves(cell, proteins) then [proteins[cell.text]] else [])
  {
    assert (seen + [cell])[..|seen|] == seen;
  }

  /** One more cell keeps the cells complete exactly when it is null or resolves. */
  lemma CompleteStep(seen: seq<Cell>, cell: Cell, proteins: map<string, int>)
    ensures Complete(seen + [cell], proteins) <==> Complete(seen, proteins) && (cell.Null? || Resolves(cell, proteins))
  {
    var longer := seen + [cell];
    assert forall k :: 0 <= k < |seen| ==> longer[k] == seen[k];
    assert longer[|seen|] == cell;
  }

  /**
   * For complete cells the accumulated ids are one per non-null reference, in order:
   * the k-th id is the id of the k-th non-null cell.
   */
  lemma {:induction false} CompleteKnownIds(cells: seq<Cell>, proteins: map<string, int>)
    requires Complete(cells, proteins)
    ensures |KnownIds(cells, proteins)| == |Filter(cells, IsReference)|
    ensures forall k :: 0 <= k < |KnownIds(cells, proteins)| ==>
              Resolves(Filter(cells, IsReference)[k], proteins) &&
              KnownIds(cells, proteins)[k] == proteins[Filter(cells, IsReference)[k].text]
  {
    if cells != [] {
      var n := |cells| - 1;
      var pre := cells[..n];
      assert cells == pre + [cells[n]];
      CompleteStep(pre, cells[n], proteins);
      CompleteKnownIds(pre, proteins);
      FilterAppend(pre, cells[n], IsReference);
    }
  }

  /**
   * What lines 26-35 decide about one row: a KeyError for an absent reference column,
   * `Some(protein_id_list)` when the row is accepted, `None` when a reference is unknown.
   */
  function ScanRow(row: Row, proteins: map<string, int>): Result<Option<seq<int>>, LoadError>
  {
    match FirstAbsent(PROTEIN_COLUMNS, row.Keys)
    case Some(c) => Err(MissingColumn(c))
    case None =>
      var cells := Cells(row);
      if Complete(cells, proteins) then Ok(Some(KnownIds(cells, proteins))) else Ok(None)
  }

  predicate Accepted(row: Row, proteins: map<string, int>)
  {
    ScanRow(row, proteins).Ok? && ScanRow(row, proteins).value.Some?
  }

  /** The protein id list of an accepted row. */
  function RowIds(row: Row, proteins: map<string, int>): seq<int>
    requires Accepted(row, proteins)
  {
    ScanRow(row, proteins).value.value
  }

  lemma CellsComplete(row: Row, proteins: map<string, int>)
    requires HasReferenceColumns(row)
    ensures Complete(Cells(row), proteins) <==>
              forall k :: 0 <= k < |PROTEIN_COLUMNS| ==>
                row[PROTEIN_COLUMNS[k]].Null? || Resolves(row[PROTEIN_COLUMNS[k]], proteins)
  {
    var cells := Cells(row);
    assert forall k :: 0 <= k < |PROTEIN_COLUMNS| ==> cells[k] == row[PROTEIN_COLUMNS[k]];
  }

  /**
   * A row whose reference columns are all present is accepted exactly when each of its
   * non-null references resolves; a null cell neither rejects it nor adds an id. The ids
   * are those of the non-null columns, one each, in column order.
   */
  lemma RowAcceptance(row: Row, proteins: map<string, int>) returns (pos: seq<int>)
    requires HasReferenceColumns(row)
    ensures ScanRow(row, proteins).Ok?
    ensures Accepted(row, proteins) <==>
              forall k :: 0 <= k < |PROTEIN_COLUMNS| ==>
                row[PROTEIN_COLUMNS[k]].Null? || Resolves(row[PROTEIN_COLUMNS[k]], proteins)
    ensures Accepted(row, proteins) ==>
              && |RowIds(row, proteins)| == |pos|
              && Increasing(pos)
              && (forall p :: 0 <= p < |PROTEIN_COLUMNS| ==> (!row[PROTEIN_COLUMNS[p]].Null? <==> p in pos))
              && (forall k :: 0 <= k < |pos| ==>
                    0 <= pos[k] < |PROTEIN_COLUMNS| &&
                    Resolves(row[PROTEIN_COLUMNS[pos[k]]], proteins) &&
                    RowIds(row, proteins)[k] == proteins[row[PROTEIN_COLUMNS[pos[k]]].text])
  {
    var cells := Cells(row);
    assert forall k :: 0 <= k < |PROTEIN_COLUMNS| ==> PROTEIN_COLUMNS[k] in row.Keys;
    assert FirstAbsent(PROTEIN_COLUMNS, row.Keys) == None;
    CellsComplete(row, proteins);
    pos := FilterPositions(cells, IsReference);
    if Complete(cells, proteins) {
      CompleteKnownIds(cells, proteins);
    }
  }

  /** A row that lacks a reference column raises the KeyError of the first one it lacks. */
  lemma AbsentColumnRaises(row: Row, proteins: map<string, int>)
    requires !HasReferenceColumns(row)
    ensures ScanRow(row, proteins).Err?
    ensures exists k :: 0 <= k < |PROTEIN_COLUMNS| && PROTEIN_COLUMNS[k] !in row &&
              (forall m :: 0 <= m < k ==> PROTEIN_COLUMNS[m] in row) &&
              ScanRow(row, proteins).error == MissingColumn(PROTEIN_COLUMNS[k])
  {
    var k :| 0 <= k < |PROTEIN_COLUMNS| && PROTEIN_COLUMNS[k] !in row;
    var m := 0;
    while PROTEIN_COLUMNS[m] in row
      invariant 0 <= m <= k
      invariant forall n :: 0 <= n < m ==> PROTEIN_COLUMNS[n] in row
      decreases k - m
    {
      m := m + 1;
    }
  }

  /** Lines 30-35 on one reference cell: a null cell is skipped, an unknown reference sets `missing`. */
  method ScanCell(cell: Cell, proteins: map<string, int>, missing: bool, ids: seq<int>)
    returns (missing': bool, ids': seq<int>)
    ensures missing' <==> missing || !(cell.Null? || Resolves(cell, proteins))
    ensures ids' == ids + (if Resolves(cell, proteins) then [proteins[cell.text]] else [])
  {
    missing', ids' := missing, ids;
    if !cell.Null? {
      var proteinId := if cell.Text? && cell.text in proteins then Some(proteins[cell.text]) else None;
      if proteinId.None? {
        missing' := true;
      } else {
        ids' := ids + [proteinId.value];
      }
    }
  }

  /** The inner loop of lines 26-35 on one row. */
  method ResolveRow(row: Row, proteins: map<string, int>) returns (r: Result<Option<seq<int>>, LoadError>)
    ensures r == ScanRow(row, proteins)
  {
    var missing := false;
    var proteinIdList: seq<int> := [];
    ghost var seen: seq<Cell> := [];
    for j := 0 to |PROTEIN_COLUMNS|
      invariant |seen| == j
      invariant forall k :: 0 <= k < j ==> PROTEIN_COLUMNS[k] in row
      invariant forall k :: 0 <= k < j ==> seen[k] == row[PROTEIN_COLUMNS[k]]
      invariant missing <==> !Complete(seen, proteins)
      invariant proteinIdList == KnownIds(seen, proteins)
    {
      var column := PROTEIN_COLUMNS[j];
      if column !in row {
        assert FirstAbsent(PROTEIN_COLUMNS, row.Keys) == Some(column);
        return Err(MissingColumn(column));
      }
      var cell := row[column];
      missing, proteinIdList := ScanCell(cell, proteins, missing, proteinIdList);
      CompleteStep(seen, cell, proteins);
      KnownIdsStep(seen, cell, proteins);
      seen := seen + [cell];
    }
    assert seen == Cells(row);
    if missing {
      r := Ok(None);
    } else {
      r := Ok(Some(proteinIdList));
    }
  }

  // ----- the loop over all rows -----

  /** `complex_map`: a Python dict, whose keys iterate in first-insertion order. */
  datatype ComplexMap = ComplexMap(keys: seq<Cell>, lists: map<Cell, seq<int>>)
  {
    /** The key order has no repeats and holds exactly the dictionary's keys. */
    ghost predicate Valid()
    {
      && (forall a, b :: 0 <= a < b < |keys| ==> keys[a] != keys[b])
      && (forall c :: c in lists <==> c in keys)
    }

    /** `complex_map[key] = ids`: a new key goes last, a present one keeps its place and takes the new list. */
    function Put(key: Cell, ids: seq<int>): (m: ComplexMap)
      ensures Valid() ==> m.Valid()
    {
      if key in lists then ComplexMap(keys, lists[key := ids]) else ComplexMap(keys + [key], lists[key := ids])
    }
  }

  /** `complete_indices` and `complex_map` after the loop. */
  datatype Resolution = Resolution(completeIndices: seq<int>, complexMap: ComplexMap)

  /** Lines 25-38 over the whole table: the first KeyError, or the accepted positions and the complex map. */
  function ResolveAll(rows: seq<Row>, proteins: map<string, int>): Result<Resolution, LoadError>
  {
    if rows == [] then Ok(Resolution([], ComplexMap([], map[])))
    else
      var n := |rows| - 1;
      match ResolveAll(rows[..n], proteins)
      case Err(e) => Err(e)
      case Ok(acc) =>
        match ScanRow(rows[n], proteins)
        case Err(e) => Err(e)
        case Ok(None) => Ok(acc)
        case Ok(Some(ids)) =>
          if KEY_COLUMN !in rows[n] then Err(MissingColumn(KEY_COLUMN))
          else Ok(Resolution(acc.completeIndices + [n], acc.complexMap.Put(rows[n][KEY_COLUMN], ids)))
  }

  /** Once a prefix of the table has raised, the whole loop raises the same error. */
  lemma {:induction false} ErrorPersists(rows: seq<Row>, m: nat, proteins: map<string, int>)
    requires m <= |rows| && ResolveAll(rows[..m], proteins).Err?
    ensures ResolveAll(rows, proteins) == ResolveAll(rows[..m], proteins)
    decreases |rows| - m
  {
    if m < |rows| {
      var n := |rows| - 1;
      assert rows[..n][..m] == rows[..m];
      ErrorPersists(rows[..n], m, proteins);
    } else {
      assert rows[..m] == rows;
    }
  }

  /** The loop over the rows, lines 25-38. */
  method ResolveRows(rows: seq<Row>, proteins: map<string, int>) returns (r: Result<Resolution, LoadError>)
    ensures r == ResolveAll(rows, proteins)
  {
    var completeIndices: seq<int> := [];
    var complexMap := ComplexMap([], map[]);
    for i := 0 to |rows|
      invariant ResolveAll(rows[..i], proteins) == Ok(Resolution(completeIndices, complexMap))
    {
      assert rows[..i + 1][..i] == rows[..i];
      var scan := ResolveRow(rows[i], proteins);
      if scan.Err? {
        ErrorPersists(rows, i + 1, proteins);
        return Err(scan.error);
      }
      if scan.value.Some? {
        if KEY_COLUMN !in rows[i] {
          ErrorPersists(rows, i + 1, proteins);
          return Err(MissingColumn(KEY_COLUMN));
        }
        complexMap := complexMap.Put(rows[i][KEY_COLUMN], scan.value.value);
        completeIndices := completeIndices + [i];
      }
    }
    assert rows[..|rows|] == rows;
    r := Ok(Resolution(completeIndices, complexMap));
  }

  // ----- what the loop over all rows guarantees -----

  /** The KeyError one row raises in the loop, if any. */
  function RowFault(row: Row, proteins: map<string, int>): Option<LoadError>
  {
    match ScanRow(row, proteins)
    case Err(e) => Some(e)
    case Ok(None) => None
    case Ok(Some(_)) => if KEY_COLUMN in row then None else Some(MissingColumn(KEY_COLUMN))
  }

  /** One step of the loop in terms of the last row's fault. */
  lemma FaultStep(rows: seq<Row>, proteins: map<string, int>)
    requires rows != []
    ensures var pre := ResolveAll(rows[..|rows| - 1], proteins);
      && (pre.Err? ==> ResolveAll(rows, proteins) == pre)
      && (pre.Ok? ==> (ResolveAll(rows, proteins).Err? <==> RowFault(rows[|rows| - 1], proteins).Some?))
      && (pre.Ok? && ResolveAll(rows, proteins).Err? ==>
            ResolveAll(rows, proteins).error == RowFault(rows[|rows| - 1], proteins).value)
  {
  }

  /** The loop completes exactly when no row raises, and otherwise raises the first row's error. */
  lemma {:induction false} ResolveAllFaults(rows: seq<Row>, proteins: map<string, int>)
    ensures ResolveAll(rows, proteins).Ok? <==> forall i :: 0 <= i < |rows| ==> RowFault(rows[i], proteins).None?
    ensures ResolveAll(rows, proteins).Err? ==>
              exists i :: 0 <= i < |rows| && RowFault(rows[i], proteins) == Some(ResolveAll(rows, proteins).error) &&
                forall j :: 0 <= j < i ==> RowFault(rows[j], proteins).None?
  {
    if rows != [] {
      var n := |rows| - 1;
      var pre := rows[..n];
      ResolveAllFaults(pre, proteins);
      FaultStep(rows, proteins);
      assert forall i :: 0 <= i < n ==> pre[i] == rows[i];
      if ResolveAll(pre, proteins).Err? {
        var i :| 0 <= i < n && RowFault(pre[i], proteins) == Some(ResolveAll(pre, proteins).error) &&
                 forall j :: 0 <= j < i ==> RowFault(pre[j], proteins).None?;
        assert RowFault(rows[i], proteins) == Some(ResolveAll(rows, proteins).error);
      } else if RowFault(rows[n], proteins).Some? {
        assert RowFault(rows[n], proteins) == Some(ResolveAll(rows, proteins).error);
      }
    }
  }

  /** While the whole loop completes, so does the loop over any prefix. */
  lemma PrefixOk(rows: seq<Row>, proteins: map<string, int>)
    requires rows != [] && ResolveAll(rows, proteins).Ok?
    ensures ResolveAll(rows[..|rows| - 1], proteins).Ok?
  {
  }

  /** One step of the loop: an accepted last row is appended and put in the map, any other leaves both as they were. */
  lemma LastRow(rows: seq<Row>, proteins: map<string, int>)
    requires rows != [] && ResolveAll(rows, proteins).Ok?
    ensures ResolveAll(rows[..|rows| - 1], proteins).Ok?
    ensures var n := |rows| - 1;
      var acc := ResolveAll(rows[..n], proteins).value;
      if Accepted(rows[n], proteins) then
        && KEY_COLUMN in rows[n]
        && ResolveAll(rows, proteins).value
           == Resolution(acc.completeIndices + [n], acc.complexMap.Put(rows[n][KEY_COLUMN], RowIds(rows[n], proteins)))
      else ResolveAll(rows, proteins).value == acc
  {
  }

  /**
   * `complete_indices` is strictly increasing and holds exactly the positions of the
   * accepted rows; each accepted row has a complex key.
   */
  lemma {:induction false} ResolveAllIndices(rows: seq<Row>, proteins: map<string, int>)
    requires ResolveAll(rows, proteins).Ok?
    ensures var idx := ResolveAll(rows, proteins).value.completeIndices;
      && Increasing(idx)
      && (forall k :: 0 <= k < |idx| ==> 0 <= idx[k] < |rows| && KEY_COLUMN in rows[idx[k]])
      && (forall i :: 0 <= i < |rows| ==> (i in idx <==> Accepted(rows[i], proteins)))
  {
    if rows != [] {
      var n := |rows| - 1;
      var pre := rows[..n];
      PrefixOk(rows, proteins);
      ResolveAllIndices(pre, proteins);
      assert forall i :: 0 <= i < n ==> pre[i] == rows[i];
    }
  }

  /** The complex keys of the rows at `idx`, in that order. */
  function AcceptedKeys(rows: seq<Row>, idx: seq<int>): seq<Cell>
    requires forall k :: 0 <= k < |idx| ==> 0 <= idx[k] < |rows| && KEY_COLUMN in rows[idx[k]]
  {
    seq(|idx|, k requires 0 <= k < |idx| => rows[idx[k]][KEY_COLUMN])
  }

  /**
   * `complex_map` iterates its keys in the order in which accepted rows first brought
   * them, each once.
   */
  lemma {:induction false} ResolveAllKeyOrder(rows: seq<Row>, proteins: map<string, int>)
    requires ResolveAll(rows, proteins).Ok?
    ensures var res := ResolveAll(rows, proteins).value;
      forall k :: 0 <= k < |res.completeIndices| ==>
        0 <= res.completeIndices[k] < |rows| && KEY_COLUMN in rows[res.completeIndices[k]]
    ensures var res := ResolveAll(rows, proteins).value;
      res.complexMap.Valid() && res.complexMap.keys == Distinct(AcceptedKeys(rows, res.completeIndices))
  {
    ResolveAllIndices(rows, proteins);
    if rows != [] {
      var n := |rows| - 1;
      var pre := rows[..n];
      PrefixOk(rows, proteins);
      ResolveAllIndices(pre, proteins);
      ResolveAllKeyOrder(pre, proteins);
      KeyOrderStep(rows, proteins);
    }
  }

  /** The step of `ResolveAllKeyOrder` from the table without its last row to the whole table. */
  lemma KeyOrderStep(rows: seq<Row>, proteins: map<string, int>)
    requires rows != [] && ResolveAll(rows, proteins).Ok?
    requires ResolveAll(rows[..|rows| - 1], proteins).Ok?
    requires var acc := ResolveAll(rows[..|rows| - 1], proteins).value;
      (forall k :: 0 <= k < |acc.completeIndices| ==>
         0 <= acc.completeIndices[k] < |rows| - 1 && KEY_COLUMN in rows[acc.completeIndices[k]]) &&
      acc.complexMap.Valid() && acc.complexMap.keys == Distinct(AcceptedKeys(rows[..|rows| - 1], acc.completeIndices))
    requires var res := ResolveAll(rows, proteins).value;
      forall k :: 0 <= k < |res.completeIndices| ==>
        0 <= res.completeIndices[k] < |rows| && KEY_COLUMN in rows[res.completeIndices[k]]
    ensures var res := ResolveAll(rows, proteins).value;
      res.complexMap.Valid() && res.complexMap.keys == Distinct(AcceptedKeys(rows, res.completeIndices))
  {
    var n := |rows| - 1;
    var pre := rows[..n];
    var acc := ResolveAll(pre, proteins).value;
    AcceptedKeysOfPrefix(rows, n, acc.completeIndices);
    if Accepted(rows[n], proteins) {
      var key := rows[n][KEY_COLUMN];
      var keys := AcceptedKeys(pre, acc.completeIndices);
      assert AcceptedKeys(rows, acc.completeIndices + [n]) == keys + [key];
      DistinctPut(acc.complexMap, keys, key, RowIds(rows[n], proteins));
    }
  }

  lemma AcceptedKeysOfPrefix(rows: seq<Row>, n: int, idx: seq<int>)
    requires 0 <= n <= |rows|
    requires forall k :: 0 <= k < |idx| ==> 0 <= idx[k] < n && KEY_COLUMN in rows[idx[k]]
    ensures AcceptedKeys(rows, idx) == AcceptedKeys(rows[..n], idx)
  {
  }

  /** Assigning into the dict follows the first-occurrence order of the keys assigned. */
  lemma DistinctPut(m: ComplexMap, s: seq<Cell>, x: Cell, ids: seq<int>)
    requires m.Valid() && m.keys == Distinct(s)
    ensures m.Put(x, ids).Valid() && m.Put(x, ids).keys == Distinct(s + [x])
  {
    assert (s + [x])[..|s|] == s;
  }

  /** Row `i` is accepted and no later accepted row carries its complex key. */
  ghost predicate LatestWithKey(rows: seq<Row>, proteins: map<string, int>, i: int)
  {
    && 0 <= i < |rows| && Accepted(rows[i], proteins) && KEY_COLUMN in rows[i]
    && forall j :: i < j < |rows| && Accepted(rows[j], proteins) && KEY_COLUMN in rows[j] ==>
         rows[j][KEY_COLUMN] != rows[i][KEY_COLUMN]
  }

  /** Rows sharing a complex key: the list stored under it is the last accepted row's. */
  lemma {:induction false} LaterRowOverwrites(rows: seq<Row>, proteins: map<string, int>, i: int)
    requires ResolveAll(rows, proteins).Ok?
    requires LatestWithKey(rows, proteins, i)
    ensures var m := ResolveAll(rows, proteins).value.complexMap;
      rows[i][KEY_COLUMN] in m.lists && m.lists[rows[i][KEY_COLUMN]] == RowIds(rows[i], proteins)
  {
    var n := |rows| - 1;
    var pre := rows[..n];
    PrefixOk(rows, proteins);
    if i < n {
      assert forall j :: 0 <= j < n ==> pre[j] == rows[j];
      assert LatestWithKey(pre, proteins, i);
      LaterRowOverwrites(pre, proteins, i);
    }
  }

  /** A key is in `complex_map` exactly when some accepted row carries it. */
  lemma ComplexMapKeys(rows: seq<Row>, proteins: map<string, int>, c: Cell)
    requires ResolveAll(rows, proteins).Ok?
    ensures c in ResolveAll(rows, proteins).value.complexMap.lists <==>
              exists i :: 0 <= i < |rows| && Accepted(rows[i], proteins) && KEY_COLUMN in rows[i] && rows[i][KEY_COLUMN] == c
  {
    var res := ResolveAll(rows, proteins).value;
    ResolveAllIndices(rows, proteins);
    ResolveAllKeyOrder(rows, proteins);
    var keys := AcceptedKeys(rows, res.completeIndices);
    if c in res.complexMap.lists {
      assert c in keys;
      var k :| 0 <= k < |keys| && keys[k] == c;
      assert Accepted(rows[res.completeIndices[k]], proteins);
    }
    if exists i :: 0 <= i < |rows| && Accepted(rows[i], proteins) && KEY_COLUMN in rows[i] && rows[i][KEY_COLUMN] == c {
      var i :| 0 <= i < |rows| && Accepted(rows[i], proteins) && KEY_COLUMN in rows[i] && rows[i][KEY_COLUMN] == c;
      assert i in res.completeIndices;
      var k :| 0 <= k < |res.completeIndices| && res.completeIndices[k] == i;
      assert keys[k] == c;
    }
  }

  /** Every list in `complex_map` is the id list of an accepted row carrying its key. */
  lemma {:induction false} ListFromRow(rows: seq<Row>, proteins: map<string, int>, c: Cell)
    requires ResolveAll(rows, proteins).Ok?
    requires c in ResolveAll(rows, proteins).value.complexMap.lists
    ensures exists i :: 0 <= i < |rows| && Accepted(rows[i], proteins) && KEY_COLUMN in rows[i] &&
              rows[i][KEY_COLUMN] == c && ResolveAll(rows, proteins).value.complexMap.lists[c] == RowIds(rows[i], proteins)
  {
    var n := |rows| - 1;
    var pre := rows[..n];
    PrefixOk(rows, proteins);
    if !(Accepted(rows[n], proteins) && rows[n][KEY_COLUMN] == c) {
      ListFromRow(pre, proteins, c);
      var i :| 0 <= i < n && Accepted(pre[i], proteins) && KEY_COLUMN in pre[i] &&
               pre[i][KEY_COLUMN] == c && ResolveAll(pre, proteins).value.complexMap.lists[c] == RowIds(pre[i], proteins);
      assert pre[i] == rows[i];
    }
  }
}
