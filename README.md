# bamboo aggregation engine, modelled in Dafny

This project models the aggregation engine of bamboo, `bamboo/core/aggregator.py`.
An aggregation (a sum, a count, …) of some columns of a parent dataset, grouped
by some group columns, is stored as a linked *aggregated dataset*. The parent
keeps a dictionary from the group signature (`join_groups(groups)`) to the id of
that child. The engine does four things:

- `aggregated_dataset` creates the child, saves the result into it, and then
  records the link in the parent's dictionary.
- `Aggregator.save` computes the aggregation and stamps it with the parent's id.
  It then takes one of two paths:
  - if no child is linked under these groups, it creates one;
  - otherwise it joins the new result onto the child's rows with `group_join`
    and replaces the child's observations.
- `Aggregator.update` refreshes the child after the parent changes:
  - it takes the child's rows that came from this parent and deletes them from
    the child;
  - it recomputes those rows, either with the aggregation's `reduce` (allowed
    only for ungrouped aggregations that define one) or with `updated_dframe`;
  - it appends the result to the child's remaining rows, stamps the whole
    table with the parent id, and stores it.
- `group_join` is a pandas left join on the group columns. Without groups it
  is a join on the row index.

The model is split into four modules:

- `Frames` (frames.dfy) holds the tables:
  - a frame is a list of columns and a list of rows;
  - a row maps column names to values, and `Missing` is the null pandas fills in;
  - the module also has the frame helpers the engine uses: the parent-id stamp
    `add_parent_column`, the per-parent filter `rows_for_parent_id`, the row
    removal `remove_parent_observations`, `drop` and `concat`.
- `Join` (join.dfy) holds `group_join` as a function on frames, with the lemmas
  that make it a left join.
- `Storage` (storage.dfy) holds:
  - `Dataset`, a class whose `observations` and link dictionary its methods
    update in place;
  - `Store`, the datasets that exist, by id;
  - the group signature `join_groups`.
- `Aggregation` (aggregator.py's own module) holds:
  - the method `aggregated_dataset`;
  - the class `Aggregator`, with methods `Save` and `Update` that change
    datasets;
  - the pure table transforms of `updated_dframe`;
  - the lemmas about what `update` leaves behind.

One would expect `update` to stamp only the recomputed rows and to leave the
provenance of other parents' rows alone. The code
(bamboo/core/aggregator.py:100-101) stamps the whole concatenation with the
current parent's id. The model follows the code: `AfterUpdate` stamps every
row, and `UpdateClaimsAllRows` proves that afterwards no row of the child is
attributed to any other parent.

## Model

| member | source | states |
|---|---|---|
| Join.GroupJoinShape | bamboo/core/aggregator.py:8-12 | for `Join.GroupJoin`, the definition of `group_join` (its other properties are the `Join` rows below): the joined frame has exactly the columns of `left` plus the non-key columns of `other`, is well formed, and has at least as many rows as `left` |
| Join.JoinKeepsLeftRows | bamboo/core/aggregator.py:8-12 | with or without groups, taking the attached columns off the result rows gives exactly the rows of `left` (a row is there if and only if it is a left row) |
| Join.JoinNeverAddsForeignKeys | bamboo/core/aggregator.py:9-12 | with groups, the keys of the result are exactly the keys of `left`: a row of `other` whose key is not in `left` never shows up |
| Join.JoinAttachesMatches | bamboo/core/aggregator.py:9-12 | with groups, every attached value comes from a row of `other` with the same key, or is `Missing` when `other` has no row with that key |
| Join.JoinWithUniqueKeys | bamboo/core/aggregator.py:9-12 | when `other` has one row per key, the result is `left` row for row and in order, each row extended with the values of the matching row, or with `Missing` when there is none |
| Join.JoinOnIndex | bamboo/core/aggregator.py:12 | without groups, row `i` of `left` is kept and gets the columns of row `i` of `other`, or `Missing` past the end of `other` |
| Join.JoinPreservesOrder | bamboo/core/aggregator.py:9-12 | the key join of `xs + ys` is the join of `xs` followed by the join of `ys`, so the left rows keep their order |
| Join.KeyJoinRowsSound | bamboo/core/aggregator.py:9-12 | every row of the key join is a left row extended by a matching row of `other`, or filled with `Missing` when no row matches |
| Join.KeyJoinRowsComplete | bamboo/core/aggregator.py:9-12 | every left row contributes a row to the key join |
| Join.KeyJoinRowsUnique | bamboo/core/aggregator.py:9-12 | when `other` has unique keys, the key join has exactly one row per left row, row `i` coming from left row `i` |
| Join.MatchesFacts | bamboo/core/aggregator.py:9-12 | the rows of `other` a left row is joined with are exactly those with its key |
| Storage.JoinGroups | bamboo/core/aggregator.py:29 | the signature of no groups is empty, that of one group is its name, and a longer one starts with the first name |
| Storage.JoinGroupsInjective | bamboo/core/aggregator.py:29-31 | distinct lists of plain group names have distinct signatures, so each group list has its own link |
| Storage.Dataset.constructor | bamboo/core/aggregator.py:25 | a created dataset has no observations and no links |
| Storage.Dataset.Dframe | bamboo/core/aggregator.py:89-90 | with `keep_parent_ids` the observations as stored; without, the same rows in the same order, each without its parent-id cell |
| Storage.Dataset.SaveObservations | bamboo/core/aggregator.py:26 | the observations become the old ones concatenated with the new frame; the links are unchanged |
| Storage.Dataset.ReplaceObservations | bamboo/core/aggregator.py:80 | the observations become exactly the given frame; the links are unchanged |
| Storage.Dataset.RemoveParentObservations | bamboo/core/aggregator.py:93 | exactly the rows stamped with the parent's id are removed; the links are unchanged |
| Storage.Dataset.UpdateAggregatedDatasets | bamboo/core/aggregator.py:32 | the link dictionary becomes the one written back; the observations are unchanged |
| Storage.Store.Create | bamboo/core/aggregator.py:25 | a fresh, empty dataset is filed under a new id, nothing else changes, and the store stays valid |
| Frames.AddParentColumn | bamboo/core/aggregator.py:71 | the stamped frame has the old columns plus the parent-id column, as many rows, and stays well formed |
| Frames.AddParentColumnRows | bamboo/core/aggregator.py:101 | every stamped row carries the parent's id and keeps all its other cells |
| Frames.RowsForParentId | bamboo/core/aggregator.py:89-90 | a row is selected if and only if it is a row of the frame stamped with the given parent id; the columns are unchanged |
| Frames.RowsWithoutParentId | bamboo/core/aggregator.py:93 | a row remains if and only if it is a row of the frame not stamped with the given parent id |
| Frames.SelectPartition | bamboo/core/aggregator.py:89-93 | the rows taken out and the rows left behind together are the old rows, nothing lost and nothing duplicated |
| Frames.SelectAppend | bamboo/core/aggregator.py:89-93 | selecting by provenance distributes over concatenation, so it keeps the order of rows |
| Frames.DropColumns | bamboo/core/aggregator.py:114 | dropping named columns that exist removes exactly them, keeps the row count and keeps the frame well formed |
| Frames.WithoutRows | bamboo/core/aggregator.py:114 | each row loses exactly the dropped cells |
| Frames.Concat | bamboo/core/aggregator.py:100 | the concatenation has the union of the columns and as many rows as both frames together, and is well formed when both are; what each row holds is stated by `Frames.ConcatRows` |
| Frames.ConcatRows | bamboo/core/aggregator.py:100 | the rows of the first frame come first, then the rows of the second, each padded with `Missing` to the joint columns |
| Frames.ConcatOntoEmpty | bamboo/core/aggregator.py:26 | saving a frame into a new, empty dataset stores exactly that frame |
| Frames.StampThenStrip | bamboo/core/aggregator.py:101-104 | stamping and then dropping the parent-id column is the same as dropping it |
| Aggregation.AggregatedDataset | bamboo/core/aggregator.py:15-34 | a fresh child is filed under the new id and holds exactly `dframe` before the link is written; the parent's dictionary gains only the link from the signature to the child's id; the parent's rows are unchanged; the lookup for `groups` returns the child that was recorded, and the lookup for every other list of plain group names is unchanged |
| Aggregation.NewColumns | bamboo/core/aggregator.py:112 | the new columns are exactly the computed columns that are not group columns |
| Aggregation.StaleFacts | bamboo/core/aggregator.py:114-115 | after the drop, the join is defined and attaches exactly the old columns the fresh result lacks |
| Aggregation.Refresh | bamboo/core/aggregator.py:112-115 | the refreshed frame has every column of the fresh result and of the old slice, is well formed, has at least as many rows as the fresh result, and every fresh row is among its rows once the stale columns are taken off |
| Aggregation.RefreshFreshWins | bamboo/core/aggregator.py:112-115 | fresh values win: once the stale columns are taken off the refreshed rows, a row is there if and only if it is a fresh row, whatever the old slice held in the recomputed columns; row for row only under the conditions of `Aggregation.RefreshRowForRow` |
| Aggregation.RefreshRowForRow | bamboo/core/aggregator.py:112-115 | without groups, or with one old row per key, the refreshed frame is the fresh result row for row, in order |
| Aggregation.RefreshKeepsStaleValues | bamboo/core/aggregator.py:114-115 | with groups, a kept old column of a refreshed row has the value an old row with the same key had, or `Missing` when the key is new |
| Aggregation.AfterUpdate | bamboo/core/aggregator.py:93-102 | the new observations have one row per kept row from other parents plus one per recomputed row, all stamped with the current parent, and are well formed |
| Aggregation.UpdateSplice | bamboo/core/aggregator.py:100-102 | apart from the stamp, the new observations are the kept rows followed by the recomputed rows, each padded to the new columns |
| Aggregation.UpdateSpliceExact | bamboo/core/aggregator.py:100-102 | when the recomputed rows have the child's columns, the new observations without the stamp are exactly the kept rows followed by the recomputed rows |
| Aggregation.UpdateClaimsAllRows | bamboo/core/aggregator.py:101 | after the restamp no row of the child is attributed to any other parent |
| Aggregation.Aggregator.constructor | bamboo/core/aggregator.py:46-60 | the aggregator keeps its arguments and builds its aggregation object from the catalog entry for the type |
| Aggregation.Aggregator.Save | bamboo/core/aggregator.py:62-82 | a new child is created if and only if no child is linked for the groups (the lookup `dataset.aggregated_dataset`, defined by `Storage.Store.AggregatedDatasetOf`); it holds the stamped fresh result and has no links. Otherwise nothing is created, the parent's dictionary is unchanged, and the child's rows become the join of its old rows with the stamped fresh result while its own links stay as they were. Either way a child is linked afterwards, the lookup for every other list of plain group names is unchanged, and `new_dframe` is exactly what that child stores |
| Aggregation.Aggregator.MergeInto | bamboo/core/aggregator.py:77-80 | the linked child's observations become the join of its old rows with the computed result; the child's own links, the store, the parent's links and (when the child is not the parent) the parent's rows are unchanged |
| Aggregation.Aggregator.UpdatedDframe | bamboo/core/aggregator.py:106-117 | the result has every column of the fresh evaluation and of the old slice, is well formed, and once the stale columns are taken off its rows, a row is there if and only if it is a freshly evaluated row; row for row only under the conditions of `Aggregation.RefreshRowForRow` |
| Aggregation.Aggregator.Update | bamboo/core/aggregator.py:84-104 | the slice rebuilt is exactly the child's rows from this parent. It is rebuilt by `reduce` exactly when the flag is set, there are no groups and the aggregation defines `reduce` (the `__is_reducible` rule, defined by `Aggregation.Aggregator.IsReducible`); a grouped aggregation, an unset flag or a missing `reduce` always falls back to `updated_dframe`. The child's new observations are its other rows followed by the rebuilt slice, all stamped; its links are unchanged; the child's rows without the stamp are returned |

## Left out

- pandas index labels: rows are addressed by position. `rows_for_parent_id` keeps the original index labels in pandas, so the index join of an ungrouped `updated_dframe` (bamboo/core/aggregator.py:115) aligns the fresh result's labels with the slice's original child labels. Where those labels differ, pandas fills the kept old columns with `Missing`, while the model gives them the old values of the slice row at the same position.
- Join.GroupJoinShape: states the set of result columns, not their order. The function itself puts the left columns first, then the attached ones.
- Frames.Concat: states the set of columns, not their order; pandas may sort the union of unequal column sets.
- The in-place `set_index` that `group_join` does on its argument `other`: no caller reads `other` afterwards, so only the returned frame is modelled.
- pandas errors become preconditions (`JoinDefined`, `RefreshDefined`, `MergeDefined`, `DropColumns`' requirement that the labels exist):
  - the `KeyError` for a missing key column;
  - the `ValueError` for overlapping non-key columns;
  - the error of `drop` for a label that is not a column.
- dtypes, floating point and the aggregation math behind `eval` and `reduce`: these are uninterpreted functions carried by a `Strategy` value.
- `AGGREGATIONS.get` on an unknown type (bamboo/core/aggregator.py:59-60): the constructor requires a known type.
- `parse_columns` is a foreign call (bamboo/lib/parsing is not part of this model). It is a `Resolver` parameter that sees the dataset through its id.
- The persistence behind `Dataset`: MongoDB reads and writes, and the `reload_` flag of `dframe`. Only the effect on the in-memory fields is modelled; bamboo/core/dataset.py is not part of this model.
- Storage.Dataset.Dframe: assumes the default `dframe()` drops the parent-id column, as `keep_parent_ids=False` suggests.
- Storage.JoinGroups: assumes the group names are joined with `,`.
- `add_parent_column` and `rows_for_parent_id`: these come from bamboo/core/frame.py, which is not part of this model. They are modelled as "stamp every row with the id, adding the column when absent" and "keep the rows whose parent-id cell is the id".
- The uuid that `create` draws is a parameter, and its freshness is a precondition.
- Concurrency, and the window between removing and replacing a child's rows: the code has no locking, and the model runs sequentially.
