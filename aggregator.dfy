/**
 * The aggregation engine of bamboo/core/aggregator.py: storing an
 * aggregation as a linked child dataset (`aggregated_dataset`,
 * `Aggregator.save`) and splicing a recomputed slice of a parent's rows
 * into that child (`Aggregator.update`, `updated_dframe`).
 */
module Aggregation {
  import opened Frames
  import opened Join
  import opened Storage

  /** A column argument of an aggregation: one value per row. */
  type Column = seq<Value>
  type Columns = seq<Column>

  /**
   * An aggregation object: `eval(columns)` and, when the aggregation defines
   * one, `reduce(dframe, columns)`. The arithmetic behind them is not modelled.
   */
  datatype Strategy = Strategy(eval: Columns -> Frame, reduce: Option<(Frame, Columns) -> Frame>)

  /** An entry of `AGGREGATIONS`: builds the aggregation object from name, groups and dframe. */
  type StrategyClass = (string, seq<string>, Frame) -> Strategy

  /** `parse_columns(dataset, formula, name, dframe)`, seeing the dataset through its id. */
  type Resolver = (DatasetId, string, string, Frame) -> Columns

  /**
   * aggregated_dataset: create a child dataset holding `dframe`, then record
   * it in the parent's dictionary under the signature of `groups`.
   */
  method AggregatedDataset(store: Store, dataset: Dataset, dframe: Frame, groups: seq<string>, newId: DatasetId)
    returns (child: Dataset)
    requires store.Valid() && store.Holds(dataset)
    requires newId !in store.datasets
    requires WellFormed(dframe)
    modifies store, dataset
    ensures fresh(child) && child.id == newId
    ensures store.datasets == old(store.datasets)[newId := child]
    ensures child.observations == dframe && child.aggregated == map[]
    ensures dataset.aggregated == old(dataset.aggregated)[JoinGroups(groups) := newId]
    ensures dataset.observations == old(dataset.observations)
    ensures store.AggregatedDatasetOf(dataset, groups) == Some(child)
    ensures forall g :: PlainNames(g) && PlainNames(groups) && g != groups ==>
              store.AggregatedDatasetOf(dataset, g) == old(store.AggregatedDatasetOf(dataset, g))
    ensures store.Valid()
  {
    child := store.Create(newId);
    child.SaveObservations(dframe);
    ConcatOntoEmpty(dframe);
    // the child exists and holds its rows before any link names it
    assert child.observations == dframe && store.Valid();
    var groupStr := JoinGroups(groups);
    var links := dataset.aggregated;
    links := links[groupStr := child.id];
    dataset.UpdateAggregatedDatasets(links);
    forall g | PlainNames(g) && PlainNames(groups) && g != groups
      ensures JoinGroups(g) != groupStr
    {
      if JoinGroups(g) == groupStr {
        JoinGroupsInjective(g, groups);
      }
    }
  }

  /** The non-group columns of a computed result: the ones `updated_dframe` drops from the old slice. */
  function NewColumns(groups: seq<string>, computed: Frame): (r: seq<string>)
    ensures ColumnSet(r) == ColumnSet(computed.columns) - ColumnSet(groups)
  {
    Keep(computed.columns, ColumnSet(groups))
  }

  /**
   * What the drop and the join in `updated_dframe` need: both frames well
   * formed, every computed non-group column present in the old slice, and the
   * groups present in both.
   */
  predicate RefreshDefined(groups: seq<string>, computed: Frame, slice: Frame)
  {
    && WellFormed(computed)
    && WellFormed(slice)
    && ColumnSet(NewColumns(groups, computed)) <= ColumnSet(slice.columns)
    && (|groups| > 0 ==> ColumnSet(groups) <= ColumnSet(computed.columns) && ColumnSet(groups) <= ColumnSet(slice.columns))
  }

  /** The old slice without the columns the computed result recomputes. */
  function Stale(groups: seq<string>, computed: Frame, slice: Frame): (r: Frame)
    requires RefreshDefined(groups, computed, slice)
  {
    DropColumns(slice, NewColumns(groups, computed))
  }

  /** The columns of the slice that the computed result does not have: the ones the join attaches. */
  function StaleColumns(computed: Frame, slice: Frame): (cs: set<string>)
  {
    ColumnSet(slice.columns) - ColumnSet(computed.columns)
  }

  lemma StaleFacts(groups: seq<string>, computed: Frame, slice: Frame)
    requires RefreshDefined(groups, computed, slice)
    ensures JoinDefined(groups, computed, Stale(groups, computed, slice))
    ensures ColumnSet(Attached(groups, Stale(groups, computed, slice))) == StaleColumns(computed, slice)
    ensures Stale(groups, computed, slice).rows == Stripped(slice.rows, ColumnSet(NewColumns(groups, computed)))
  {
    var stale := Stale(groups, computed, slice);
    assert ColumnSet(Attached(groups, stale)) == StaleColumns(computed, slice);
  }

  /**
   * The table transform of `updated_dframe`: drop from the old slice every
   * column the computed result recomputes, then join the rest onto the computed
   * result. Nothing is lost: the result has every column of both.
   */
  function Refresh(groups: seq<string>, computed: Frame, slice: Frame): (r: Frame)
    requires RefreshDefined(groups, computed, slice)
    ensures ColumnSet(r.columns) == ColumnSet(computed.columns) + ColumnSet(slice.columns)
    ensures WellFormed(r)
    ensures |r.rows| >= |computed.rows|
    ensures forall x :: x in computed.rows ==> x in Stripped(r.rows, StaleColumns(computed, slice))
  {
    StaleFacts(groups, computed, slice);
    GroupJoinShape(groups, computed, Stale(groups, computed, slice));
    JoinKeepsLeftRows(groups, computed, Stale(groups, computed, slice));
    GroupJoin(groups, computed, Stale(groups, computed, slice))
  }

  /**
   * Fresh values win: taking the stale columns off the refreshed rows gives
   * back exactly the rows of the computed result.
   */
  lemma RefreshFreshWins(groups: seq<string>, computed: Frame, slice: Frame)
    requires RefreshDefined(groups, computed, slice)
    ensures forall x :: x in Stripped(Refresh(groups, computed, slice).rows, StaleColumns(computed, slice)) <==> x in computed.rows
  {
    StaleFacts(groups, computed, slice);
    JoinKeepsLeftRows(groups, computed, Stale(groups, computed, slice));
  }

  /**
   * Without groups, or when the old slice has one row per key, the refreshed
   * table is the computed result row for row, in order, with the stale columns added.
   */
  lemma RefreshRowForRow(groups: seq<string>, computed: Frame, slice: Frame)
    requires RefreshDefined(groups, computed, slice)
    requires groups == [] || UniqueKeys(groups, slice.rows)
    ensures Stripped(Refresh(groups, computed, slice).rows, StaleColumns(computed, slice)) == computed.rows
  {
    var stale := Stale(groups, computed, slice);
    StaleFacts(groups, computed, slice);
    if groups == [] {
      JoinOnIndex(computed, stale);
      KeepNothing(stale.columns);
      assert ColumnSet(groups) == {};
    } else {
      StrippedKeys(groups, slice.rows, ColumnSet(NewColumns(groups, computed)));
      JoinWithUniqueKeys(groups, computed, stale);
    }
  }

  /**
   * With groups, a stale column of a refreshed row keeps the value it had in
   * an old row with the same key, or is `Missing` when the key is new.
   */
  lemma RefreshKeepsStaleValues(groups: seq<string>, computed: Frame, slice: Frame)
    requires RefreshDefined(groups, computed, slice) && |groups| > 0
    ensures forall x, c :: x in Refresh(groups, computed, slice).rows && c in StaleColumns(computed, slice) ==>
              || Get(x, c) in MatchValues(groups, KeyOf(groups, x), c, slice.rows)
              || (KeyOf(groups, x) !in Keys(groups, slice.rows) && Get(x, c) == Missing)
  {
    var stale := Stale(groups, computed, slice);
    StaleFacts(groups, computed, slice);
    StrippedKeys(groups, slice.rows, ColumnSet(NewColumns(groups, computed)));
    JoinAttachesMatches(groups, computed, stale);
  }

  /**
   * The child's observations after `update`: its rows from other parents,
   * without the provenance column, followed by the recomputed slice, the
   * whole table then stamped with `parent`.
   */
  function AfterUpdate(observations: Frame, parent: DatasetId, recomputed: Frame): (r: Frame)
    ensures |r.rows| == |RowsWithoutParentId(observations, parent).rows| + |recomputed.rows|
    ensures forall x :: x in r.rows ==> FromParent(x, parent)
    ensures WellFormed(observations) && WellFormed(recomputed) ==> WellFormed(r)
  {
    var rest := Without(RowsWithoutParentId(observations, parent), {PARENT_ID});
    AddParentColumnRows(Concat(rest, recomputed), parent);
    AddParentColumn(Concat(rest, recomputed), parent)
  }

  /**
   * Apart from the provenance stamp, the new observations are the rows kept
   * from other parents followed by the recomputed rows, each widened to the
   * new columns.
   */
  lemma UpdateSplice(observations: Frame, parent: DatasetId, recomputed: Frame)
    ensures var body := Without(AfterUpdate(observations, parent, recomputed), {PARENT_ID});
            var rest := Without(RowsWithoutParentId(observations, parent), {PARENT_ID});
            && |body.rows| == |rest.rows| + |recomputed.rows|
            && (forall k :: 0 <= k < |rest.rows| ==> body.rows[k] == Pad(rest.rows[k], ColumnSet(body.columns)))
            && (forall k :: 0 <= k < |recomputed.rows| ==>
                  body.rows[|rest.rows| + k] == Pad(recomputed.rows[k] - {PARENT_ID}, ColumnSet(body.columns)))
  {
    var rest := Without(RowsWithoutParentId(observations, parent), {PARENT_ID});
    assert AfterUpdate(observations, parent, recomputed) == AddParentColumn(Concat(rest, recomputed), parent);
    assert forall x :: x in rest.rows ==> PARENT_ID !in x;
    StrippedStampedConcat(rest, recomputed, parent);
  }

  /**
   * When the recomputed slice has the child's columns, the new observations,
   * without the provenance column, are exactly the kept rows followed by the
   * recomputed rows.
   */
  lemma UpdateSpliceExact(observations: Frame, parent: DatasetId, recomputed: Frame)
    requires WellFormed(observations) && WellFormed(recomputed)
    requires ColumnSet(recomputed.columns) - {PARENT_ID} == ColumnSet(observations.columns) - {PARENT_ID}
    ensures Without(AfterUpdate(observations, parent, recomputed), {PARENT_ID}).rows ==
            Without(RowsWithoutParentId(observations, parent), {PARENT_ID}).rows +
            Without(recomputed, {PARENT_ID}).rows
  {
    var rest := Without(RowsWithoutParentId(observations, parent), {PARENT_ID});
    StrippedStampedConcatSame(rest, recomputed, parent);
  }

  /**
   * The stamp at the end of `update` covers the whole table: afterwards no
   * row of the child is attributed to any other parent.
   */
  lemma UpdateClaimsAllRows(observations: Frame, parent: DatasetId, recomputed: Frame, other: DatasetId)
    requires other != parent
    ensures RowsForParentId(AfterUpdate(observations, parent, recomputed), other).rows == []
  {
    SelectNone(AfterUpdate(observations, parent, recomputed).rows, other);
  }

  /** Aggregating `columns` of `dframe` by `groups`, and keeping the last table it stored. */
  class Aggregator {
    const columns: Columns
    const dframe: Frame
    const groups: seq<string>
    const name: string
    const aggregation: Strategy
    /** `new_dframe`: the table the last `save` stored; absent before any `save`. */
    var newDframe: Option<Frame>

    /** The aggregation object is built by the catalog entry for `kind`. */
    constructor (dframe: Frame, groups: seq<string>, kind: string, name: string, columns: Columns,
                 catalog: map<string, StrategyClass>)
      requires kind in catalog
      ensures this.columns == columns && this.dframe == dframe && this.groups == groups && this.name == name
      ensures aggregation == catalog[kind](name, groups, dframe)
      ensures newDframe == None
    {
      this.columns := columns;
      this.dframe := dframe;
      this.groups := groups;
      this.name := name;
      aggregation := catalog[kind](name, groups, dframe);
      newDframe := None;
    }

    /** `__is_reducible`: the aggregation is not grouped and defines `reduce`. */
    function IsReducible(): (b: bool)
    {
      groups == [] && aggregation.reduce.Some?
    }

    /** The computed result of `save`: `eval(columns)` stamped with the parent's id. */
    function Stamped(parent: DatasetId): (r: Frame)
    {
      AddParentColumn(aggregation.eval(columns), parent)
    }

    /** The datasets `save` may change besides the parent: the linked child, if any. */
    function LinkedSet(store: Store, dataset: Dataset): (s: set<Dataset>)
      reads store, dataset
    {
      match store.AggregatedDatasetOf(dataset, groups)
      case None => {}
      case Some(c) => {c}
    }

    /** What the merge path of `save` needs for its join to succeed. */
    ghost predicate MergeDefined(store: Store, dataset: Dataset)
      reads store, dataset, LinkedSet(store, dataset)
    {
      match store.AggregatedDatasetOf(dataset, groups)
      case None => true
      case Some(c) => JoinDefined(groups, c.Dframe(false), Stamped(dataset.id))
    }

    /**
     * save: store the computed result in a new child when no child is linked
     * for these groups, otherwise merge it into the linked child; either way
     * remember the stored table.
     */
    method Save(store: Store, dataset: Dataset, newId: DatasetId)
      requires store.Valid() && store.Holds(dataset)
      requires newId !in store.datasets
      requires WellFormed(aggregation.eval(columns))
      requires MergeDefined(store, dataset)
      modifies this, store, dataset, LinkedSet(store, dataset)
      ensures store.Valid()
      ensures store.AggregatedDatasetOf(dataset, groups).Some?
      ensures newDframe == Some(store.AggregatedDatasetOf(dataset, groups).value.observations)
      ensures forall g :: PlainNames(g) && PlainNames(groups) && g != groups ==>
                store.AggregatedDatasetOf(dataset, g) == old(store.AggregatedDatasetOf(dataset, g))
      ensures old(store.AggregatedDatasetOf(dataset, groups)).None? ==>
                && newId in store.datasets
                && store.datasets == old(store.datasets)[newId := store.datasets[newId]]
                && fresh(store.datasets[newId])
                && store.AggregatedDatasetOf(dataset, groups) == Some(store.datasets[newId])
                && store.datasets[newId].observations == Stamped(dataset.id)
                && store.datasets[newId].aggregated == map[]
                && dataset.aggregated == old(dataset.aggregated)[JoinGroups(groups) := newId]
                && dataset.observations == old(dataset.observations)
      ensures old(store.AggregatedDatasetOf(dataset, groups)).Some? ==>
                && store.datasets == old(store.datasets)
                && dataset.aggregated == old(dataset.aggregated)
                && store.AggregatedDatasetOf(dataset, groups) == old(store.AggregatedDatasetOf(dataset, groups))
                && store.AggregatedDatasetOf(dataset, groups).value.observations ==
                   GroupJoin(groups, old(store.AggregatedDatasetOf(dataset, groups).value.Dframe(false)), Stamped(dataset.id))
                && store.AggregatedDatasetOf(dataset, groups).value.aggregated ==
                   old(store.AggregatedDatasetOf(dataset, groups).value.aggregated)
                && (store.AggregatedDatasetOf(dataset, groups).value != dataset ==>
                      dataset.observations == old(dataset.observations))
    {
      var computed := AddParentColumn(aggregation.eval(columns), dataset.id);
      var linked := store.AggregatedDatasetOf(dataset, groups);
      var stored: Frame;
      if linked.None? {
        var child := AggregatedDataset(store, dataset, computed, groups, newId);
        stored := computed;
      } else {
        stored := MergeInto(store, dataset, linked.value, computed);
      }
      newDframe := Some(stored);
    }

    /**
     * The merge path of `save`: join the computed result onto the linked
     * child's rows and make the joined table the child's observations. Only
     * the child changes, so every dataset keeps its links.
     */
    method MergeInto(store: Store, dataset: Dataset, child: Dataset, computed: Frame) returns (merged: Frame)
      requires store.Valid() && store.AggregatedDatasetOf(dataset, groups) == Some(child)
      requires JoinDefined(groups, child.Dframe(false), computed)
      modifies child
      ensures store.Valid()
      ensures child.observations == merged
      ensures merged == GroupJoin(groups, old(child.Dframe(false)), computed)
      ensures child.aggregated == old(child.aggregated)
      ensures store.datasets == old(store.datasets)
      ensures store.AggregatedDatasetOf(dataset, groups) == Some(child)
      ensures dataset.aggregated == old(dataset.aggregated)
      ensures child != dataset ==> dataset.observations == old(dataset.observations)
    {
      merged := GroupJoin(groups, child.Dframe(false), computed);
      child.ReplaceObservations(merged);
    }

    /** `eval` on the columns `parse_columns` builds for `formula`. */
    function Evaluated(parent: DatasetId, formula: string, resolve: Resolver): (r: Frame)
    {
      aggregation.eval(resolve(parent, formula, name, dframe))
    }

    /**
     * updated_dframe: evaluate the aggregation afresh on the parsed formula
     * and refresh the old slice with it; the result carries every column of both.
     */
    function UpdatedDframe(parent: DatasetId, formula: string, slice: Frame, resolve: Resolver): (r: Frame)
      requires RefreshDefined(groups, Evaluated(parent, formula, resolve), slice)
      ensures ColumnSet(r.columns) == ColumnSet(Evaluated(parent, formula, resolve).columns) + ColumnSet(slice.columns)
      ensures WellFormed(r)
      ensures forall x :: x in Stripped(r.rows, StaleColumns(Evaluated(parent, formula, resolve), slice)) <==>
                x in Evaluated(parent, formula, resolve).rows
    {
      RefreshFreshWins(groups, Evaluated(parent, formula, resolve), slice);
      Refresh(groups, Evaluated(parent, formula, resolve), slice)
    }

    /**
     * update: take out the child's rows from `dataset`, recompute them by
     * `reduce` when allowed or by `updated_dframe` otherwise, append them to
     * the child's remaining rows, stamp the whole table and return it without
     * the provenance column.
     */
    method Update(dataset: Dataset, child: Dataset, formula: string, reducible: bool, resolve: Resolver)
      returns (result: Frame)
      requires !(reducible && IsReducible()) ==>
                 RefreshDefined(groups, Evaluated(dataset.id, formula, resolve), RowsForParentId(child.observations, dataset.id))
      modifies child
      ensures child.observations ==
                AfterUpdate(old(child.observations), dataset.id,
                  if reducible && IsReducible()
                  then aggregation.reduce.value(RowsForParentId(old(child.observations), dataset.id), columns)
                  else UpdatedDframe(dataset.id, formula, RowsForParentId(old(child.observations), dataset.id), resolve))
      ensures groups != [] || !reducible || aggregation.reduce.None? ==>
                child.observations ==
                  AfterUpdate(old(child.observations), dataset.id,
                    UpdatedDframe(dataset.id, formula, RowsForParentId(old(child.observations), dataset.id), resolve))
      ensures reducible && groups == [] && aggregation.reduce.Some? ==>
                child.observations ==
                  AfterUpdate(old(child.observations), dataset.id,
                    aggregation.reduce.value(RowsForParentId(old(child.observations), dataset.id), columns))
      ensures child.aggregated == old(child.aggregated)
      ensures result == child.Dframe(false)
    {
      var parent := dataset.id;
      var slice := RowsForParentId(child.Dframe(true), parent);
      child.RemoveParentObservations(parent);
      var recomputed: Frame;
      if reducible && IsReducible() {
        recomputed := aggregation.reduce.value(slice, columns);
      } else {
        recomputed := UpdatedDframe(parent, formula, slice, resolve);
      }
      var merged := Concat(child.Dframe(false), recomputed);
      merged := AddParentColumn(merged, parent);
      child.ReplaceObservations(merged);
      result := child.Dframe(false);
    }
  }
}
