/**
 * The dataset side of the aggregation engine: a dataset's observations and
 * its dictionary of linked aggregated datasets, the group signature that
 * keys that dictionary, and the store that creates datasets and finds them
 * by id. Only the effect of each call on the in-memory state is modelled.
 */
module Storage {
  import opened Frames

  type DatasetId = string

  /** The separator `join_groups` puts between group names. */
  const GROUP_SEPARATOR: char := ','

  /** `join_groups`: the group names joined by the separator; the dictionary key of an aggregation. */
  function JoinGroups(groups: seq<string>): (s: string)
    ensures groups == [] ==> s == ""
    ensures |groups| == 1 ==> s == groups[0]
    ensures |groups| > 1 ==> |s| > |groups[0]|
    ensures |groups| > 0 ==> s[..|groups[0]|] == groups[0]
  {
    if groups == [] then ""
    else if |groups| == 1 then groups[0]
    else groups[0] + [GROUP_SEPARATOR] + JoinGroups(groups[1..])
  }

  /** A group name the signature can be read back from. */
  predicate PlainName(g: string)
  {
    g != [] && GROUP_SEPARATOR !in g
  }

  predicate PlainNames(groups: seq<string>)
  {
    forall g :: g in groups ==> PlainName(g)
  }

  /** The tail of a signature of two or more groups. */
  lemma JoinGroupsTail(groups: seq<string>)
    requires |groups| > 1
    ensures JoinGroups(groups)[|groups[0]|] == GROUP_SEPARATOR
    ensures JoinGroups(groups)[|groups[0]| + 1..] == JoinGroups(groups[1..])
  {
    var s := JoinGroups(groups);
    assert s == groups[0] + [GROUP_SEPARATOR] + JoinGroups(groups[1..]);
  }

  /** A separator follows the first name of a signature of two or more groups. */
  lemma SeparatorAfterHead(groups: seq<string>)
    ensures |groups| > 1 ==> JoinGroups(groups)[|groups[0]|] == GROUP_SEPARATOR
  {
    if |groups| > 1 {
      JoinGroupsTail(groups);
    }
  }

  /** The first group name of a signature can be read back: it ends at the first separator. */
  lemma JoinGroupsHead(a: seq<string>, b: seq<string>)
    requires PlainNames(a) && PlainNames(b) && a != [] && b != []
    requires JoinGroups(a) == JoinGroups(b)
    ensures a[0] == b[0]
  {
    assert a[0] in a && b[0] in b;
    SeparatorAfterHead(a);
    SeparatorAfterHead(b);
  }

  /**
   * Distinct lists of plain group names have distinct signatures, so two
   * aggregations with different groups never overwrite each other's link.
   */
  lemma {:induction false} JoinGroupsInjective(a: seq<string>, b: seq<string>)
    requires PlainNames(a) && PlainNames(b)
    requires JoinGroups(a) == JoinGroups(b)
    ensures a == b
  {
    assert a != [] ==> a[0] in a;
    assert b != [] ==> b[0] in b;
    if a != [] && b != [] {
      JoinGroupsHead(a, b);
      if |a| == 1 && |b| == 1 {
        assert a == [a[0]] && b == [b[0]];
      } else if |a| > 1 && |b| > 1 {
        JoinGroupsTail(a);
        JoinGroupsTail(b);
        assert PlainNames(a[1..]) by {
          forall g | g in a[1..] ensures PlainName(g) { assert g in a; }
        }
        assert PlainNames(b[1..]) by {
          forall g | g in b[1..] ensures PlainName(g) { assert g in b; }
        }
        JoinGroupsInjective(a[1..], b[1..]);
        assert a == [a[0]] + a[1..] && b == [b[0]] + b[1..];
      }
    }
  }

  /** A dataset: its observations and its links to aggregated datasets. */
  class Dataset {
    const id: DatasetId
    var observations: Frame
    /** `aggregated_datasets_dict`: group signature to the id of the aggregated dataset. */
    var aggregated: map<string, DatasetId>

    /** A new dataset holds no observations and no links. */
    constructor (id: DatasetId)
      ensures this.id == id
      ensures observations == Frame([], [])
      ensures aggregated == map[]
    {
      this.id := id;
      observations := Frame([], []);
      aggregated := map[];
    }

    /** `dframe(keep_parent_ids=...)`: the observations, without the provenance column unless asked for. */
    function Dframe(keepParentIds: bool): (r: Frame)
      reads this
      ensures keepParentIds ==> r == observations
      ensures !keepParentIds ==> ColumnSet(r.columns) == ColumnSet(observations.columns) - {PARENT_ID}
      ensures |r.rows| == |observations.rows|
      ensures !keepParentIds ==> forall x :: x in r.rows ==> PARENT_ID !in x
      ensures !keepParentIds ==> forall k :: 0 <= k < |r.rows| ==> r.rows[k] == observations.rows[k] - {PARENT_ID}
      ensures WellFormed(observations) ==> WellFormed(r)
    {
      WithoutRows(observations, {PARENT_ID});
      if keepParentIds then observations else Without(observations, {PARENT_ID})
    }

    /** `save_observations`: the rows of `f` are appended to the observations. */
    method SaveObservations(f: Frame)
      modifies this
      ensures observations == Concat(old(observations), f)
      ensures aggregated == old(aggregated)
    {
      observations := Concat(observations, f);
    }

    /** `replace_observations`: the observations become exactly `f`. */
    method ReplaceObservations(f: Frame)
      modifies this
      ensures observations == f
      ensures aggregated == old(aggregated)
    {
      observations := f;
    }

    /** `remove_parent_observations`: the rows whose provenance is `parent` are deleted. */
    method RemoveParentObservations(parent: DatasetId)
      modifies this
      ensures observations == RowsWithoutParentId(old(observations), parent)
      ensures aggregated == old(aggregated)
    {
      observations := RowsWithoutParentId(observations, parent);
    }

    /** `update({AGGREGATED_DATASETS: links})`: the link dictionary is written back. */
    method UpdateAggregatedDatasets(links: map<string, DatasetId>)
      modifies this
      ensures aggregated == links
      ensures observations == old(observations)
    {
      aggregated := links;
    }
  }

  /** The datasets that exist, by id: what `create` adds to and `find_one` reads. */
  class Store {
    var datasets: map<DatasetId, Dataset>

    constructor ()
      ensures datasets == map[]
      ensures Valid()
    {
      datasets := map[];
    }

    /**
     * Every dataset is filed under its own id, and every link it records
     * names a dataset that exists.
     */
    ghost predicate Valid()
      reads this, datasets.Values
    {
      && (forall k :: k in datasets ==> datasets[k].id == k)
      && (forall k, s :: k in datasets && s in datasets[k].aggregated ==> datasets[k].aggregated[s] in datasets)
    }

    /** `d` is the dataset filed under its id. */
    predicate Holds(d: Dataset)
      reads this
    {
      d.id in datasets && datasets[d.id] == d
    }

    /** `create`: a new, empty dataset under an id no dataset has. */
    method Create(newId: DatasetId) returns (d: Dataset)
      requires Valid()
      requires newId !in datasets
      modifies this
      ensures fresh(d)
      ensures d.id == newId && d.observations == Frame([], []) && d.aggregated == map[]
      ensures datasets == old(datasets)[newId := d]
      ensures Valid()
    {
      d := new Dataset(newId);
      datasets := datasets[newId := d];
    }

    /**
     * `aggregated_dataset(groups)`: the dataset linked from `dataset` under
     * the signature of `groups`, or nothing when there is no such link.
     */
    function AggregatedDatasetOf(dataset: Dataset, groups: seq<string>): (r: Option<Dataset>)
      reads this, dataset
    {
      var key := JoinGroups(groups);
      if key in dataset.aggregated && dataset.aggregated[key] in datasets then
        Some(datasets[dataset.aggregated[key]])
      else
        None
    }
  }
}
