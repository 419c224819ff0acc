/**
 * The parsed complex table as the loader sees it after `read_csv` and `dropna`:
 * cells, rows, the named columns, and the table operations of the loader
 * (column pruning, positional row selection, flag coercion, existing-key filter).
 */
module Frames {
  import opened Wrappers
  import opened Seqs

  /** A parsed cell: `Null` is pandas' missing value (the CSV writes it as '-' or leaves the field empty), `Flag` is what `astype(bool)` yields. */
  datatype Cell = Null | Text(text: string) | Flag(on: bool)

  /** One row of the table, from column name to cell. */
  type Row = map<string, Cell>

  /** The KeyErrors the loader can raise: a column the code indexes is absent, or `new_complexes` lacks a complex key. */
  datatype LoadError = MissingColumn(name: string) | MissingComplexId(key: Cell)

  const KEY_COLUMN: string := "uniprot"
  const PROTEIN_COLUMNS: seq<string> := ["protein_1_id", "protein_2_id", "protein_3_id", "protein_4_id"]
  const FLAG_COLUMNS: seq<string> :=
    ["receptor", "receptor_highlight", "adhesion", "other", "transporter", "secreted_highlight"]

  function ColumnSet(columns: seq<string>): set<string>
  {
    set c | c in columns
  }

  /** The shape of a DataFrame: every row has exactly the frame's columns. */
  ghost predicate Rectangular(columns: seq<string>, rows: seq<Row>)
  {
    forall i :: 0 <= i < |rows| ==> rows[i].Keys == ColumnSet(columns)
  }

  /** The first of `cols` that is not `present`: the column whose lookup raises a KeyError first. */
  function FirstAbsent(cols: seq<string>, present: set<string>): (r: Option<string>)
    ensures r.None? <==> forall k :: 0 <= k < |cols| ==> cols[k] in present
    ensures forall k :: 0 <= k < |cols| && cols[k] !in present && (forall m :: 0 <= m < k ==> cols[m] in present)
              ==> r == Some(cols[k])
  {
    if cols == [] then None
    else if cols[0] !in present then Some(cols[0])
    else
      var r := FirstAbsent(cols[1..], present);
      assert forall k :: 1 <= k < |cols| ==> cols[k] == cols[1..][k - 1];
      r
  }

  // ----- column pruning -----

  predicate OccursAt(s: string, sub: string, i: nat)
  {
    i + |sub| <= |s| && s[i..i + |sub|] == sub
  }

  /** Python's `sub in s` on strings: the empty string is in every string, a longer one in none. */
  predicate Contains(s: string, sub: string)
    ensures sub == [] ==> Contains(s, sub)
    ensures Contains(s, sub) ==> |sub| <= |s|
    ensures |sub| <= |s| && s[..|sub|] == sub ==> Contains(s, sub)
  {
    assert OccursAt(s, sub, 0) <==> |sub| <= |s| && s[..|sub|] == sub;
    exists i: nat :: i <= |s| && OccursAt(s, sub, i)
  }

  /** A string lacking one of the characters of `sub` does not contain `sub`. */
  lemma NotContainedWithout(s: string, sub: string, j: nat)
    requires j < |sub| && sub[j] !in s
    ensures !Contains(s, sub)
  {
  }

  /** The filter of the removal step: columns naming a protein reference, a name, or an unnamed index. */
  predicate IsRemovalColumn(name: string)
  {
    Contains(name, "protein_") || Contains(name, "Name_") || Contains(name, "Unnamed")
  }

  predicate KeepsColumn(name: string)
  {
    !IsRemovalColumn(name)
  }

  /** `removal_columns`: the columns to drop, in frame order. */
  function RemovalColumns(columns: seq<string>): (r: seq<string>)
    ensures forall c :: c in r <==> c in columns && IsRemovalColumn(c)
  {
    Filter(columns, IsRemovalColumn)
  }

  /** The four protein reference columns are always among the removed ones. */
  lemma ReferenceColumnsRemoved()
    ensures forall k :: 0 <= k < |PROTEIN_COLUMNS| ==> IsRemovalColumn(PROTEIN_COLUMNS[k])
  {
    forall k | 0 <= k < |PROTEIN_COLUMNS|
      ensures IsRemovalColumn(PROTEIN_COLUMNS[k])
    {
      var c := PROTEIN_COLUMNS[k];
      assert c[0..8] == "protein_";
      assert OccursAt(c, "protein_", 0);
    }
  }

  /** A lower-case name without one of the letters of `protein_` is kept. */
  lemma KeptWithout(c: string, j: nat)
    requires j < 8 && "protein_"[j] !in c
    requires forall i :: 0 <= i < |c| ==> 'a' <= c[i] <= 'z' || c[i] == '_'
    ensures KeepsColumn(c)
  {
    NotContainedWithout(c, "Name_", 0);
    NotContainedWithout(c, "Unnamed", 0);
    NotContainedWithout(c, "protein_", j);
  }

  /** The complex key and the six flags survive the removal. */
  lemma KeyAndFlagsKept()
    ensures KeepsColumn(KEY_COLUMN)
    ensures forall k :: 0 <= k < |FLAG_COLUMNS| ==> KeepsColumn(FLAG_COLUMNS[k])
  {
    KeptWithout("uniprot", 7);
    FirstFlagsKept();
    LastFlagsKept();
  }

  lemma FirstFlagsKept()
    ensures KeepsColumn("receptor") && KeepsColumn("receptor_highlight") && KeepsColumn("adhesion")
  {
    KeptWithout("receptor", 7);
    KeptWithout("receptor_highlight", 6);
    KeptWithout("adhesion", 7);
  }

  lemma LastFlagsKept()
    ensures KeepsColumn("other") && KeepsColumn("transporter") && KeepsColumn("secreted_highlight")
  {
    KeptWithout("other", 7);
    KeptWithout("transporter", 7);
    KeptWithout("secreted_highlight", 0);
  }

  function Outside(labels: seq<string>): string -> bool
  {
    c => c !in labels
  }

  /** Every row without the cells of `labels`. */
  function DropKeys(rows: seq<Row>, labels: seq<string>): (r: seq<Row>)
    ensures |r| == |rows|
    ensures forall i :: 0 <= i < |r| ==> r[i].Keys == rows[i].Keys - ColumnSet(labels)
    ensures forall i, c :: 0 <= i < |r| && c in r[i] ==> r[i][c] == rows[i][c]
  {
    seq(|rows|, i requires 0 <= i < |rows| => rows[i] - ColumnSet(labels))
  }

  /** The loader's DataFrame, which the column removal changes in place. */
  class Frame {
    var columns: seq<string>
    var rows: seq<Row>

    ghost predicate Valid()
      reads this
    {
      Rectangular(columns, rows)
    }

    constructor (columns: seq<string>, rows: seq<Row>)
      requires Rectangular(columns, rows)
      ensures Valid() && this.columns == columns && this.rows == rows
    {
      this.columns := columns;
      this.rows := rows;
    }

    /** `DataFrame.empty`: no rows or no columns, so that the frame holds no cell. */
    predicate IsEmpty()
      reads this
      ensures Valid() ==> (IsEmpty() <==> forall i :: 0 <= i < |rows| ==> rows[i].Keys == {})
    {
      assert Valid() && |rows| > 0 && |columns| > 0 ==> columns[0] in rows[0].Keys;
      assert |columns| == 0 ==> ColumnSet(columns) == {};
      |rows| == 0 || |columns| == 0
    }

    /** `drop(labels, axis=1, inplace=True)`: the labels must be columns of the frame. */
    method Drop(labels: seq<string>)
      requires Valid()
      requires forall k :: 0 <= k < |labels| ==> labels[k] in columns
      modifies this
      ensures Valid()
      ensures columns == Filter(old(columns), Outside(labels))
      ensures rows == DropKeys(old(rows), labels)
    {
      var kept := Filter(columns, Outside(labels));
      assert ColumnSet(kept) == ColumnSet(columns) - ColumnSet(labels);
      columns := kept;
      rows := DropKeys(rows, labels);
    }

    /** `df[bools] = df[bools].astype(bool)`: the flag columns must be columns of the frame. */
    method AsFlags(truthy: Cell -> bool)
      requires Valid()
      requires forall k :: 0 <= k < |FLAG_COLUMNS| ==> FLAG_COLUMNS[k] in columns
      modifies this
      ensures Valid()
      ensures columns == old(columns)
      ensures rows == CoerceFlags(old(rows), truthy)
    {
      rows := CoerceFlags(rows, truthy);
    }
  }

  /**
   * The pruned column list: exactly the columns the removal filter does not match, in
   * their original order.
   */
  lemma PrunedColumns(columns: seq<string>)
    ensures Filter(columns, Outside(RemovalColumns(columns))) == Filter(columns, KeepsColumn)
  {
    FilterCongruent(columns, Outside(RemovalColumns(columns)), KeepsColumn);
  }

  // ----- row selection, flag coercion, existing-key filter -----

  /** `iloc[indices, :]`: the rows at the given positions, in the order the positions are listed. */
  function SelectRows(rows: seq<Row>, indices: seq<int>): (r: seq<Row>)
    requires forall k :: 0 <= k < |indices| ==> 0 <= indices[k] < |rows|
    ensures |r| == |indices|
    ensures forall k :: 0 <= k < |indices| ==> r[k] == rows[indices[k]]
    ensures forall row :: row in r ==> row in rows
  {
    seq(|indices|, k requires 0 <= k < |indices| => rows[indices[k]])
  }

  /**
   * `astype(bool)` on the flag columns of one row; `truthy` stands for the truth value
   * pandas gives the parsed cell.
   */
  function CoerceRow(row: Row, truthy: Cell -> bool): (r: Row)
    ensures r.Keys == row.Keys
    ensures forall c :: c in r && c in FLAG_COLUMNS ==> r[c].Flag?
    ensures forall c :: c in r && c !in FLAG_COLUMNS ==> r[c] == row[c]
  {
    map c | c in row :: if c in FLAG_COLUMNS then Flag(truthy(row[c])) else row[c]
  }

  function CoerceFlags(rows: seq<Row>, truthy: Cell -> bool): (r: seq<Row>)
    ensures |r| == |rows|
  {
    seq(|rows|, i requires 0 <= i < |rows| => CoerceRow(rows[i], truthy))
  }

  /** `x in existing_complexes`: only a text key can equal a stored key. */
  predicate IsExistingKey(key: Cell, existing: seq<string>)
  {
    key.Text? && key.text in existing
  }

  function IsNew(existing: seq<string>): Row -> bool
  {
    row => KEY_COLUMN in row ==> !IsExistingKey(row[KEY_COLUMN], existing)
  }

  /** The boolean mask of the existing-key filter: rows whose key is already stored are left out. */
  function DropExisting(rows: seq<Row>, existing: seq<string>): (r: seq<Row>)
    ensures forall row :: row in r && KEY_COLUMN in row ==> !IsExistingKey(row[KEY_COLUMN], existing)
  {
    Filter(rows, IsNew(existing))
  }
}
