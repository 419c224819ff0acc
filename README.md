# Complex loader model

A Dafny model of `load` in `cellcommdb/collections/complex.py`. The function loads a table of
protein complexes into the cellcommdb store. The table has one row per complex:
- a `uniprot` key;
- up to four protein references, `protein_1_id`..`protein_4_id`;
- six flag columns;
- descriptive columns.

The loader works in four stages:

1. **Row resolution.** Each non-null reference is looked up in the protein map, which goes from
   external key to internal id. A row is accepted only when every non-null reference resolves.
   An accepted row stores its id list under its key in `complex_map`, a dict that keeps
   insertion order, and its position in `complete_indices`.
2. **Multidata insert.** This stage runs only when the table is not empty.
   - Columns that name a protein reference, a name or an unnamed index are dropped in place.
   - The accepted rows are selected by position.
   - The flags become booleans.
   - Rows whose key is already stored are filtered out.
   - What remains is appended to `multidata`.
3. **Id lookup.** The ids of the stored complexes are read back from the store.
4. **Composition and registry.** For each key of `complex_map`, in dict order, the loader emits
   one `(complex id, protein id)` pair per resolved protein and one registry entry.

Every KeyError the code can raise is modelled as an error value. It is either a column the code
indexes but the table lacks, or a complex key with no id in the store. The outcome of a run
records what was appended before the error, so a failed lookup in stage 4 still leaves the
stage 2 insert done.

The model follows the code's own form:
- `Resolution.ResolveRow` and `Resolution.ResolveRows` are the two nested loops of stage 1;
  `Resolution.ScanCell` is the body of the inner one.
- `Composition.BuildInserts` is the outer loop of stage 4, and `Composition.AppendPairs` is its inner loop.
- `Frames.Frame` is the DataFrame. Its columns are dropped and its flags coerced in place.
- `Loader.WriteMultidata` runs stage 2 on the frame.
- `Loader.Load` runs the stages in the source's order.

Each method is proved equal to a specification function:
- `ScanRow` for `ResolveRow`;
- `ResolveAll` for `ResolveRows`;
- `MultidataRows` for `WriteMultidata`;
- `Build` for `BuildInserts`;
- `LoadSpec` for `Load`.

The lemmas then state what those functions guarantee.

Files:
- `wrappers.dfy`: `Option` and `Result`.
- `seqs.dfy`: sequence filtering, positions and first occurrences.
- `frames.dfy`: cells, rows, the frame and the column and row filters.
- `resolution.dfy`: stage 1.
- `composition.dfy`: stage 4.
- `loader.dfy`: the whole run, what it writes, and the one-row scenarios.

Two behaviours of the code deserve a note:
- A one-row table for complex `C1` with one resolvable reference and the other three
  references null writes one multidata row, one registry entry and one composition pair
  (`Loader.ScenarioOneComplex`). This holds for the parsed table as the model takes it, with
  the reference columns present. Read from a one-row file, `dropna(axis=1, how='all')` at
  line 20 removes the all-null reference columns, so the loop's `row['protein_2_id']` raises
  a KeyError and nothing is written (`Loader.ScenarioEmptyColumnsDropped`).
- A re-run writes no new multidata rows. The filter at line 58 leaves `complex_map` untouched,
  so the builder still appends a registry entry for every accepted complex
  (`Loader.RerunStillRegisters`). It also appends a composition pair for every protein of that
  complex, under the stored id (`Loader.RerunStillComposes`).

## Model

| member | source | states |
|---|---|---|
| `Resolution.RowAcceptance` | cellcommdb/collections/complex.py:26-36 | A row with the four reference columns is accepted exactly when each non-null reference resolves. Null cells never reject it. Its ids are one per non-null column, in column order, each the id of that column's protein. |
| `Resolution.AbsentColumnRaises` | cellcommdb/collections/complex.py:28-30 | A row lacking a reference column raises the KeyError of the first such column. |
| `Resolution.CompleteKnownIds` | cellcommdb/collections/complex.py:30-35 | When every non-null reference resolves, the accumulated list has one id per non-null cell, in order. |
| `Resolution.ScanCell` | cellcommdb/collections/complex.py:30-35 | One reference cell sets `missing` exactly when it is not null and does not resolve. A resolving cell appends its own id to the list; any other cell leaves the list as it was. |
| `Resolution.ResolveRow` | cellcommdb/collections/complex.py:26-36 | The inner loop over the four reference columns returns the error, the rejection, or the id list that `ScanRow` defines. |
| `Resolution.ComplexMap.Put` | cellcommdb/collections/complex.py:37 | Assigning into the dict keeps its keys distinct and its key order matching its contents. |
| `Resolution.ResolveRows` | cellcommdb/collections/complex.py:25-38 | The loop over the rows yields the first KeyError, or `complete_indices` and `complex_map`, as `ResolveAll` defines. |
| `Resolution.ResolveAllFaults` | cellcommdb/collections/complex.py:25-38 | The loop completes exactly when no row raises. Otherwise it raises the first raising row's error. |
| `Resolution.ResolveAllIndices` | cellcommdb/collections/complex.py:25-38 | `complete_indices` is strictly increasing and in range. It holds a position exactly when that row is accepted, and every accepted row has a key. |
| `Resolution.ResolveAllKeyOrder` | cellcommdb/collections/complex.py:24-37 | `complex_map` iterates its keys once each, in the order accepted rows first brought them. |
| `Resolution.LaterRowOverwrites` | cellcommdb/collections/complex.py:37 | For rows sharing a key, the stored list is the last accepted row's ids. |
| `Resolution.ComplexMapKeys` | cellcommdb/collections/complex.py:36-37 | A key is in `complex_map` exactly when some accepted row carries it. |
| `Resolution.ListFromRow` | cellcommdb/collections/complex.py:37 | Every stored list is the id list of an accepted row carrying that key. |
| `Frames.Contains` | cellcommdb/collections/complex.py:44 | Python's substring test: the empty string is in every string, a prefix is in its string, and no string holds a longer one. |
| `Frames.RemovalColumns` | cellcommdb/collections/complex.py:43-45 | The removal list holds exactly the table's columns that contain `protein_`, `Name_` or `Unnamed`. |
| `Frames.ReferenceColumnsRemoved` | cellcommdb/collections/complex.py:43-45 | The four reference columns always match the removal filter. |
| `Frames.KeyAndFlagsKept` | cellcommdb/collections/complex.py:43-59 | The key column and the six flag columns never match it. |
| `Frames.Frame.IsEmpty` | cellcommdb/collections/complex.py:41 | On a rectangular frame, `empty` holds exactly when no row has a cell. |
| `Frames.Frame.Drop` | cellcommdb/collections/complex.py:47 | Dropping in place leaves the other columns in their order. Every row loses exactly the dropped cells, and the frame stays rectangular. |
| `Frames.PrunedColumns` | cellcommdb/collections/complex.py:43-47 | After the drop, the columns are exactly those the filter does not match, in their original order. |
| `Frames.SelectRows` | cellcommdb/collections/complex.py:50 | Positional selection: one row per listed position, in the listed order, each the input row at that position. |
| `Frames.Frame.AsFlags` | cellcommdb/collections/complex.py:53-55 | The in-place coercion turns every row's flag cells into booleans and leaves the columns alone. |
| `Frames.CoerceRow` | cellcommdb/collections/complex.py:53-55 | A coerced row keeps its columns. Its flag cells are booleans and every other cell is unchanged. |
| `Frames.DropExisting` | cellcommdb/collections/complex.py:58-59 | No row left by the filter has a key already stored. |
| `Loader.SelectAccepted` | cellcommdb/collections/complex.py:50 | Selecting `complete_indices` keeps exactly the accepted rows, in table order. |
| `Loader.PipelineInserts` | cellcommdb/collections/complex.py:47-59 | The drop, selection, coercion and filter together give each accepted row with an unstored key, pruned and coerced, in table order. |
| `Loader.MultidataMissingColumns` | cellcommdb/collections/complex.py:53-59 | On a non-empty table the insert raises exactly when a flag column or the key column is absent: the first absent flag column, else the key column. |
| `Loader.MultidataContents` | cellcommdb/collections/complex.py:41-59 | When the insert goes ahead, it writes exactly the accepted rows whose key is not stored yet, pruned and coerced, in table order. |
| `Loader.WriteMultidata` | cellcommdb/collections/complex.py:41-59 | The frame changes in place. An empty table is left as it was and writes nothing. Otherwise the frame keeps exactly the columns the removal filter spares, and its rows lose the removed cells. The result is the rows `MultidataRows` specifies after selection, coercion and filter, or the KeyError of a missing flag or key column. |
| `Loader.Load` | cellcommdb/collections/complex.py:14-89 | The whole run, with the frame changed in place, gives the writes and the error `LoadSpec` defines. |
| `Loader.StageFailures` | cellcommdb/collections/complex.py:25-89 | An error in the loop or the insert writes nothing. Once the insert is done, its rows are the multidata written whether or not the builder fails. A builder error writes no pair and no registry entry. |
| `Loader.WrittenRowsInserted` | cellcommdb/collections/complex.py:25-61 | Every written multidata row is an accepted row with an unstored key, pruned and coerced, so no rejected row is written. |
| `Loader.RegistryFromAccepted` | cellcommdb/collections/complex.py:69-75 | Every registry entry is the id of an accepted row's key. |
| `Loader.CompositionFromAccepted` | cellcommdb/collections/complex.py:69-75 | Every composition pair joins an accepted row's key id with a protein id from that row's own list. |
| `Loader.WrittenShape` | cellcommdb/collections/complex.py:43-55 | Every written row has exactly the columns the filter keeps, and its flags are booleans. |
| `Loader.RerunWritesNothing` | cellcommdb/collections/complex.py:58-61 | When every accepted key is already stored, no multidata row is written. |
| `Loader.BuilderNeedsIds` | cellcommdb/collections/complex.py:69-75 | Once past the insert, the run succeeds exactly when every accepted row's key has an id in `new_complexes`. Any failure is that lookup's. |
| `Loader.BuilderSucceedsAfterInsert` | cellcommdb/collections/complex.py:61-75 | Suppose `new_complexes` holds every stored key and every written row's key, and no accepted key is null. Then the builder succeeds. |
| `Loader.NullKeyFails` | cellcommdb/collections/complex.py:37-72 | An accepted row with a null key makes the builder's lookup raise. |
| `Loader.RerunStillRegisters` | cellcommdb/collections/complex.py:58-75 | With every accepted key stored already, the run writes no multidata row. It still appends each accepted complex's stored id to the registry. |
| `Loader.RerunStillComposes` | cellcommdb/collections/complex.py:58-75 | With every accepted key stored already, each protein of the latest accepted row for a key is still paired with that key's stored id in the composition. |
| `Loader.UniqueKeyCounts` | cellcommdb/collections/complex.py:25-38 | With distinct keys, `complex_map` has one key per accepted row. Its lists hold as many ids as the accepted rows resolved. |
| `Loader.CompositionCounts` | cellcommdb/collections/complex.py:69-75 | A successful run appends as many pairs as the lists hold ids and one registry entry per key. With distinct keys, that is one entry per accepted row and, in total, as many pairs as the accepted rows resolved ids. |
| `Loader.CompositionPerComplex` | cellcommdb/collections/complex.py:25-75 | In a run without error, take the latest accepted row for a key whose id no other accepted key shares. The proteins paired with that id are exactly the row's resolved ids, in column order, one pair per non-null reference, an id repeated as often as the row resolves it. |
| `Composition.ComplexId` | cellcommdb/collections/complex.py:72 | The lookup finds an id exactly for a text key stored in `new_complexes`, and it is that key's id. A null key never has one. |
| `Composition.BuildInserts` | cellcommdb/collections/complex.py:69-75 | The nested loop gives the first failed lookup, or the pairs and registry entries `Build` defines. |
| `Composition.AppendPairs` | cellcommdb/collections/complex.py:73-74 | The inner loop appends one (complex id, protein) pair per listed protein, in list order, after the pairs already collected. |
| `Composition.BuildFailure` | cellcommdb/collections/complex.py:71-72 | The builder succeeds exactly when every key has an id. Otherwise it raises for the first key without one. |
| `Composition.BuildCounts` | cellcommdb/collections/complex.py:71-75 | On success there is one registry entry per key, in key order, each that key's id. The pairs count the proteins across the lists. |
| `Composition.BuildPairs` | cellcommdb/collections/complex.py:73-74 | On success the pairs are exactly the (key id, protein) combinations of the lists, in both directions. |
| `Composition.BuildPartners` | cellcommdb/collections/complex.py:71-75 | On success, a key whose id no other key shares is paired with exactly its list, in list order and with repeats. |
| `Composition.BuildNoPartners` | cellcommdb/collections/complex.py:71-75 | On success, an id that no key has is paired with no protein. |
| `Composition.PartnersPairs` | cellcommdb/collections/complex.py:73-74 | The inner loop's block for one complex pairs every listed protein, in order, with that complex's id and with no other id. |
| `Composition.SingleKey` | cellcommdb/collections/complex.py:69-75 | For one key, the builder yields one pair per listed protein and one registry entry under the key's id. A key with no id fails with that key. |
| `Loader.ScenarioOneComplex` | cellcommdb/collections/complex.py:25-75 | Take one row `C1` with one resolvable reference and the other references null, not stored before and stored by the insert. It yields one multidata row, one registry entry and one pair. |
| `Loader.ScenarioUnknownProtein` | cellcommdb/collections/complex.py:25-75 | The same row with an unknown reference writes nothing and raises nothing. |
| `Loader.ScenarioEmptyColumnsDropped` | cellcommdb/collections/complex.py:20-30 | The same row, once its empty reference columns are dropped, raises the KeyError for `protein_2_id` and writes nothing. |

## Left out

- Reading the CSV (`read_csv` with `-` as the missing marker) and `dropna` of all-missing columns (lines 19-20). Pandas parsing is a foreign library, so the parsed table is the input: column names, and rows mapping each column to a null, text or flag cell. Numeric parsing of cells is not modelled either; references and keys are text.
- The default file path (lines 11-12) is environment plumbing.
- The store queries (lines 14-17 and 65-66) are I/O. The stored keys, the protein map and the ids read back after the insert are parameters. That the read-back ids include the inserted rows is a hypothesis of `Loader.BuilderSucceedsAfterInsert`, not a computed fact.
- The `to_sql` writes (lines 61-62, 77-89) are storage side effects. They are modelled as the appended rows, pairs and registry ids in the outcome. The output frames' column names and storage errors are not modelled.
- `astype(bool)` (lines 53-55) uses numpy truthiness on parsed values. It is a parameter `truthy` from cell to boolean.
- Pandas' missing value is a single `Null` cell. NaN identity in dict keys and in `in` tests is not modelled: every null key is the same key and never equals a stored key.
- KeyError messages: the model records only the first missing column or key. Pandas lists all missing flag columns at line 55.
- `iterrows` indices are positions. This holds for the default index `read_csv` gives, and `iloc` at line 50 is positional.
- Frames.Frame.Drop: requires its labels to be columns. The removal list is built from the frame's own columns, so the KeyError of an absent label cannot arise.
- Frames.Frame.AsFlags: requires the flag columns. Their absence is modelled as an error before the call, in `Loader.Load` and `Loader.MultidataRows`.
- Transactions, sessions and concurrency are not modelled. The run is a single sequential computation.
