# CellPhoneDB collector reconciliation, modelled in Dafny

This project models the reconciliation core of `Collector` in
`cellcommdb/collection.py`. The collector imports three kinds of records into
the CellPhoneDB store: genes, proteins and complexes. CSV reading, SQL
queries and commits are stripped away. What is left is pure functions over
sequences of rows, a snapshot of the stored state, and key -> id maps.

- `common.dfy` (`Common`): `Option` and `Result`, and cell values. It also
  holds `Positions`, the strictly increasing list of the row indices a
  filter keeps, and `Dedupe`, first-occurrence de-duplication. "In input
  order" is stated through these two.
- `columns.dfy` (`Columns`): `_remove_not_defined_columns`.
- `gene.dfy` (`GeneImport`): `Collector.gene`.
- `protein_merge.dfy` (`ProteinMerge`): the nested `merge_protein_values`
  and `setNonEmptyStrings`. It folds one group of rows that share an
  accession, with reference definitions to check the fold against:
  `LastNonNull`, `LastId` and `AnyFlags`.
- `protein.dfy` (`ProteinReconcile`): `Collector.protein` with
  `_get_existent_proteines`. It covers projection, id nulling, the append of
  the stored rows, `drop_duplicates`, the per-group merge, the split into
  inserts and updates, and the per-row update loop.
- `complex.dfy` (`ComplexReconcile`): `Collector.complex`. It covers slot
  resolution, the `complex_map` loop, inserts of complete rows with new
  names, and the composition edges.

Representation choices:

- A null cell is a column missing from the row's `map<Column, Value>`.
- The boolean flags are the `set<Flag>` of flags that are true.
- A gene name may be null (`Option<string>`); gene import passes it through to the table unchanged.
- Ids the store assigns are inputs:
  - the uniprot -> id index read before an import;
  - the name -> id map re-read after complexes are appended.

Behaviours of the code that the model keeps as written:

- **Protein merge is last-non-null-wins.** The group is the incoming rows
  followed by the stored rows (`cellcommdb/collection.py:108`), and every
  later non-null cell overwrites the earlier one (lines 115-120). So a
  descriptive column ends with the LAST non-null value of the group: a
  stored non-null value beats the input, and the input only fills stored
  nulls.
- **A missing complex name raises.** A complex name absent from the
  re-read name -> id map raises `KeyError` at line 212; it is not skipped.
  The model returns `Failure(name)` for it.
- **Existing complex names get edges.** Composition edges are emitted for
  every complete name (lines 178 and 211-214), including names that were
  already stored and so were not inserted again (lines 199-200).
- **Duplicate complex names.** Complete rows that repeat a new name are all
  inserted (lines 199-203). The last complete row's member list wins in
  `complex_map` (line 178).
- **Duplicate new Ensembl ids.** Gene import filters incoming rows only
  against the stored Ensembl ids (lines 33-34), so incoming rows that
  repeat an unstored Ensembl id are all emitted.

## Model

| member | source | states |
|---|---|---|
| Columns.RemoveNotDefinedColumns | cellcommdb/collection.py:46-53 | the kept columns are exactly the header columns the table defines, in header order (the k-th kept column is the header entry at the k-th defined position) |
| GeneImport.Gene | cellcommdb/collection.py:15-40 | the k-th emitted gene is the k-th incoming row whose Ensembl id is not stored, with its name; its protein id is the index's id when the reference resolves and null otherwise |
| GeneImport.GeneFilterAndResolution | cellcommdb/collection.py:23-39 | no stored Ensembl id is emitted again; every unstored row is emitted with its resolved protein id; a row whose reference is null or unknown is still emitted, with a null protein id |
| ProteinReconcile.ExistentProteins | cellcommdb/collection.py:66-73 | the fetched rows are exactly the stored rows whose accession occurs among the incoming rows, in table order |
| ProteinReconcile.GroupIsFilter | cellcommdb/collection.py:113 | the group of an accession is every row of the frame with that accession, in frame order, and no other row |
| ProteinReconcile.GroupOfExistent | cellcommdb/collection.py:66-73 | for an incoming accession, the fetched rows with that accession are all of the stored rows with it |
| ProteinReconcile.Prepare | cellcommdb/collection.py:98-102 | every prepared incoming row has a null id, keeps its accession, flags and row position, and holds exactly its cells in the defined columns |
| Common.DedupeIsFirstOccurrences | cellcommdb/collection.py:110 | de-duplication keeps exactly the elements at their first occurrence, in the order those occurrences come in the input |
| ProteinReconcile.DropDuplicates | cellcommdb/collection.py:110 | the accessions of the kept rows are the distinct accessions in first-occurrence order, and each kept row is the first row of its accession |
| ProteinMerge.LastNonNull | cellcommdb/collection.py:113-120 | reference value of a merged cell: null exactly when the column is null in every row of the group, otherwise the value of a row after which the column is null in every row |
| ProteinMerge.LastId | cellcommdb/collection.py:113-120 | reference value of a merged id: null exactly when every id in the group is null, otherwise an id after which every id is null |
| ProteinMerge.AnyFlags | cellcommdb/collection.py:122 | a flag is set exactly when it is set in some row of the group |
| ProteinMerge.OverlayIsLastNonNull | cellcommdb/collection.py:115-120 | after the fold, a cell is the group's last non-null cell, or the starting row's cell when the group is null there |
| ProteinMerge.OverlayIsLastId | cellcommdb/collection.py:115-120 | after the fold, the id is the group's last non-null id, or the starting row's id when every id in the group is null |
| ProteinMerge.SetNonEmpty | cellcommdb/collection.py:115-116 | one overwrite step: each non-null cell of the group row replaces the target's cell, a null cell leaves it; a non-null id replaces the target's id; every other cell of the target is kept |
| ProteinMerge.Overlay | cellcommdb/collection.py:115-120 | folding every row of the group never loses a non-null cell of the starting row, and every non-null cell of the result is in the starting row or in some group row |
| ProteinMerge.MergeProteinValues | cellcommdb/collection.py:112-124 | the merged row keeps every non-null cell of the starting row, takes the accession of the group, and has a flag set exactly when some row of the group has it set |
| ProteinMerge.MergeFromFirstRow | cellcommdb/collection.py:112-124 | merging a group from its own first row gives the last non-null cell per column |
| ProteinMerge.MergedIdAndFlags | cellcommdb/collection.py:112-124 | merging a group from its own first row gives the last non-null id and the OR of every flag |
| ProteinMerge.IncomingThenStored | cellcommdb/collection.py:108-124 | with incoming rows first and stored rows after, a stored non-null cell wins and a stored null is filled from the input |
| ProteinMerge.IncomingThenStoredIdFlags | cellcommdb/collection.py:108-124 | with incoming rows first and stored rows after, each flag is the OR over both parts, so a stored true flag stays true; when the incoming ids are null, the id is the stored one |
| ProteinMerge.MergeIdempotent | cellcommdb/collection.py:108-124 | merging the same incoming rows against a stored row that holds the cells and flags an earlier import produced gives that row back unchanged, whatever id the store gave it |
| ProteinReconcile.Merged | cellcommdb/collection.py:106-129 | the reconciled frame holds one row per distinct incoming accession, in first-occurrence order |
| ProteinReconcile.MergedRow | cellcommdb/collection.py:98-129 | a reconciled row's cell is the last non-null cell of its incoming rows then its stored rows: a stored non-null value wins and a stored null is filled from the input; its flags are the OR over both, so a stored flag is never cleared; its id is the stored id, or null when the accession is not stored |
| ProteinReconcile.MergedIdIsStoredId | cellcommdb/collection.py:98-129 | a reconciled row has a null id exactly when its accession is not stored, and otherwise carries the id of a stored row with that accession |
| ProteinReconcile.NewProteins | cellcommdb/collection.py:131-134 | the rows to append are the reconciled rows with a null id, in frame order, without the id column |
| ProteinReconcile.UpdateRows | cellcommdb/collection.py:136 | the rows to update are the reconciled rows that carry an id, in frame order |
| ProteinReconcile.ProteinPartition | cellcommdb/collection.py:98-136 | every insert is an incoming accession that is not stored; every update is an incoming accession and carries a stored row's id; every unstored incoming accession is inserted and every stored one updated; inserts and updates together number the distinct incoming accessions |
| ProteinReconcile.Protein | cellcommdb/collection.py:86-146 | every inserted and every updated row is an incoming accession, every update carries an id, the inserted accessions are distinct, and inserts and updates together number the distinct incoming accessions |
| ProteinReconcile.ProteinKeepsKeysUnique | cellcommdb/collection.py:126-136 | if the stored accessions are distinct, they stay distinct once the inserted rows are added: an import never creates a second row for an accession |
| ProteinReconcile.NoIdMeansUnstored | cellcommdb/collection.py:98-131 | when every stored row has an id, a reconciled row with a null id has an accession that is not stored |
| ProteinReconcile.WriteUpdate | cellcommdb/collection.py:136-146 | every column of the reconciled row is written to the stored record, a null cell as null; accession, id and flags come from the reconciled row; columns outside the reconciled row keep their stored cells |
| ComplexReconcile.ResolveSlots | cellcommdb/collection.py:167-177 | a row resolves exactly when each of its non-null slots is in the protein index; null slots are skipped; the members are the resolved ids of the non-null slots in slot order, duplicates kept |
| ComplexReconcile.CompleteNames | cellcommdb/collection.py:164-179 | the names of the complete rows, in row order |
| ComplexReconcile.Assign | cellcommdb/collection.py:178 | after `complex_map[name] = ids` the name maps to exactly those ids; every other key keeps its presence and its members; earlier keys keep their place at the front of the key order, an existing key adds no entry and a new key adds exactly one, and a key order that lists exactly the keys once each still does |
| ComplexReconcile.BuildComplexMap | cellcommdb/collection.py:164-179 | the map's key order is the order in which complete names first occur; a name is a key exactly when some row with it is complete; its members are those of the last complete row with that name |
| ComplexReconcile.ComplexInserts | cellcommdb/collection.py:182-203 | the appended complexes are the complete rows whose name is not stored, in row order, without their member slots |
| ComplexReconcile.ComplexInsertRule | cellcommdb/collection.py:191-203 | every appended complex has an unstored name and comes from a complete row; every complete row with an unstored name is appended; two complete rows that repeat an unstored name are both appended |
| ComplexReconcile.Fan | cellcommdb/collection.py:213-214 | one edge per member, pairing the complex id with that member in order |
| ComplexReconcile.CompositionEdges | cellcommdb/collection.py:206-214 | the edge loop succeeds exactly when every name in the map has a re-read id; otherwise it fails on the first name without one; every edge pairs some name's id with one of that name's members |
| ComplexReconcile.EdgeFanOut | cellcommdb/collection.py:210-214 | for distinct names with distinct ids, the edges carrying a name's id are exactly that name's members, in order: one edge per member, none paired with another complex's members |
| ComplexReconcile.ComplexEdges | cellcommdb/collection.py:199-214 | on success, every name in the map, stored before or not, has an id, and its edges are exactly its members |
| ComplexReconcile.AllOrNothing | cellcommdb/collection.py:173-214 | a name none of whose rows fully resolves is not inserted, not in the map, and no edge carries its id |
| ComplexReconcile.MapNamesStoredOrInserted | cellcommdb/collection.py:164-203 | every name in `complex_map` was stored before the import or is the name of an appended complex |
| ComplexReconcile.ComplexEdgesAfterReread | cellcommdb/collection.py:199-214 | when the re-read name -> id map covers the stored names and the appended ones and is injective, the edge loop succeeds and every name's edges are exactly its members |
| ComplexReconcile.Complex | cellcommdb/collection.py:148-221 | no appended complex has a stored name; when the edge loop fails, the name it fails on has no re-read id and was either stored before or appended by this import |

## Left out

- Reading CSV files, default file paths, `to_sql`, the `db.session` queries and commits, `app_context` and the `__main__` block are I/O. The stored state is passed in as a snapshot: stored Ensembl ids, stored protein rows, stored complex names and the uniprot -> id index.
- `_get_column_table_names` introspects SQLAlchemy. The table's column set is a parameter of `ProteinReconcile.Protein`.
- `table_to_dict` and `_get_db_existent_proteines` are unused by the import paths.
- The `astype(bool)` conversions are pandas coercion. Flags are already boolean, as a set of the true flags.
- The `isinstance(x, int)` test in gene import is modelled as a lookup in the uniprot -> id map.
- `dropna(axis=1, how='all')` on the complex frame is pandas data-shape handling. Member slots are always present, possibly null. In the code, a slot column such as `protein_4_id` that is null in every row is deleted at line 161, and line 171 then raises `KeyError` on the first row, before anything is inserted; the model does not represent that failure.
- The substring-based removal of the `protein_`, `Name_`, `Unnamed` and `comments` columns of the complex frame is data-shape handling. Complex rows carry member slots separately from their descriptive cells.
- `iloc` is applied to `iterrows` labels; the model assumes the frame's labels are positions.
- Auto-increment ids, the re-fetch of ids, per-row commits, partial failure and store errors are persistence concerns. The ids the store assigns are the input map `refetched`.
- `ComplexReconcile.EdgeFanOut`: requires distinct names with distinct ids, because two names sharing an id would share edges. Ids are the complex table's key, so the re-read map is injective.
- A missing `id` column in the protein file would raise; the model assumes the column is present.
- Cell values are text or integers. Floating-point cells, and pandas' NaN-for-null in numeric columns, are not modelled.
- `ProteinReconcile.WriteUpdate`: the written columns are a parameter, because they are the reconciled frame's columns. The descriptive cells, accession, id and flags are written as the loop writes them.
- `ProteinMerge.MergeIdempotent`: re-import idempotence is stated for one accession's group. It is not stated for the whole store after two imports, because the store is not modelled.
- Interpreter semantics: the code mixes Python versions. `complex_map` is iterated in insertion order, which holds for Python 3.7 and later dicts, while line 139 calls `.iteritems()`, which only Python 2 dicts have. The model takes the insertion-ordered reading for `ComplexReconcile.BuildComplexMap` and `ComplexReconcile.CompositionEdges`; under Python 2 the order of edges across complexes, and which of several missing names raises first, would be arbitrary. Under Python 3, line 139 raises `AttributeError` on the first row to update, so no update would be written; `ProteinReconcile.WriteUpdate` models the loop as evidently intended.
- Null natural keys are not modelled: the accession, the Ensembl id and the complex name are plain strings. In the code a null Ensembl id, for example, passes the filter at lines 33-34 and is appended.
