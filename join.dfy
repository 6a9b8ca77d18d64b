/**
 * group_join: a left join of two frames on the group-key columns, or on the
 * row index when there are no groups (bamboo/core/aggregator.py:8-12).
 */
module Join {
  import opened Frames

  /** The columns of `other` that the join attaches: all but the key columns. */
  function Attached(groups: seq<string>, other: Frame): (a: seq<string>)
  {
    Keep(other.columns, ColumnSet(groups))
  }

  /**
   * What pandas needs for `set_index` and `join` to succeed: the keys are
   * columns of both frames, and no attached column clashes with a column of
   * `left` (pandas raises on overlapping columns when no suffix is given).
   */
  predicate JoinDefined(groups: seq<string>, left: Frame, other: Frame)
  {
    && WellFormed(left)
    && WellFormed(other)
    && (|groups| > 0 ==>
          ColumnSet(groups) <= ColumnSet(left.columns) && ColumnSet(groups) <= ColumnSet(other.columns))
    && ColumnSet(left.columns) !! ColumnSet(Attached(groups, other))
  }

  /** The values of the key columns of `x`, in the order of `groups`. */
  function KeyOf(groups: seq<string>, x: Row): (key: seq<Value>)
  {
    seq(|groups|, i requires 0 <= i < |groups| => Get(x, groups[i]))
  }

  /** Two rows agree on every key column. */
  predicate SameKey(groups: seq<string>, x: Row, y: Row)
  {
    KeyOf(groups, x) == KeyOf(groups, y)
  }

  /** The keys that occur in `rows`. */
  function Keys(groups: seq<string>, rows: seq<Row>): (ks: set<seq<Value>>)
  {
    set i | 0 <= i < |rows| :: KeyOf(groups, rows[i])
  }

  /** `rows` with the columns `att` taken off every row. */
  function Stripped(rows: seq<Row>, att: set<string>): (s: seq<Row>)
  {
    seq(|rows|, k requires 0 <= k < |rows| => rows[k] - att)
  }

  /** The values column `c` takes in the rows of `orows` whose key is `key`. */
  function MatchValues(groups: seq<string>, key: seq<Value>, c: string, orows: seq<Row>): (vs: set<Value>)
  {
    set j | 0 <= j < |orows| && KeyOf(groups, orows[j]) == key :: Get(orows[j], c)
  }

  /** At most one row per key: what a group-by result guarantees. */
  predicate UniqueKeys(groups: seq<string>, rows: seq<Row>)
  {
    forall i, j :: 0 <= i < j < |rows| ==> !SameKey(groups, rows[i], rows[j])
  }

  /** The rows of `rows`, in order, whose key equals the key of `l`. */
  function Matches(groups: seq<string>, l: Row, rows: seq<Row>): (ms: seq<Row>)
  {
    if rows == [] then []
    else (if SameKey(groups, l, rows[0]) then [rows[0]] else []) + Matches(groups, l, rows[1..])
  }

  /** The matches are exactly the rows of `rows` with the key of `l`. */
  lemma {:induction false} MatchesFacts(groups: seq<string>, l: Row, rows: seq<Row>)
    ensures forall m :: m in Matches(groups, l, rows) ==> m in rows && SameKey(groups, l, m)
    ensures forall m :: m in rows && SameKey(groups, l, m) ==> m in Matches(groups, l, rows)
  {
    if rows != [] {
      MatchesFacts(groups, l, rows[1..]);
      assert rows == [rows[0]] + rows[1..];
    }
  }

  /** `l` with the attached columns taken from `r` (`Missing` where `r` has none). */
  function Extend(l: Row, r: Row, att: set<string>): (e: Row)
  {
    l + map c | c in att :: Get(r, c)
  }

  /** The rows one left row contributes: one per match, or one filled with `Missing`. */
  function JoinRow(groups: seq<string>, l: Row, orows: seq<Row>, att: set<string>): (xs: seq<Row>)
  {
    var ms := Matches(groups, l, orows);
    if ms == [] then [Extend(l, map[], att)]
    else seq(|ms|, i requires 0 <= i < |ms| => Extend(l, ms[i], att))
  }

  function KeyJoinRows(groups: seq<string>, lrows: seq<Row>, orows: seq<Row>, att: set<string>): (xs: seq<Row>)
  {
    if lrows == [] then []
    else JoinRow(groups, lrows[0], orows, att) + KeyJoinRows(groups, lrows[1..], orows, att)
  }

  /** Join on the row index: left row `i` is extended with row `i` of `other`, if any. */
  function IndexJoinRows(lrows: seq<Row>, orows: seq<Row>, att: set<string>): (xs: seq<Row>)
  {
    seq(|lrows|, i requires 0 <= i < |lrows| => Extend(lrows[i], if i < |orows| then orows[i] else map[], att))
  }

  /** Row `x` of the result came from left row `l`: extended by a match, or filled when none exists. */
  predicate JoinedFrom(groups: seq<string>, x: Row, l: Row, orows: seq<Row>, att: set<string>)
  {
    || (x == Extend(l, map[], att) && forall j :: 0 <= j < |orows| ==> !SameKey(groups, l, orows[j]))
    || exists j :: 0 <= j < |orows| && SameKey(groups, l, orows[j]) && x == Extend(l, orows[j], att)
  }

  lemma ExtendFacts(l: Row, r: Row, att: set<string>)
    requires l.Keys !! att
    ensures Extend(l, r, att).Keys == l.Keys + att
    ensures Extend(l, r, att) - att == l
    ensures forall c :: c in att ==> Extend(l, r, att)[c] == Get(r, c)
  {
    var e := Extend(l, r, att);
    assert (e - att).Keys == l.Keys;
  }

  lemma {:induction false} JoinRowFacts(groups: seq<string>, l: Row, orows: seq<Row>, att: set<string>)
    ensures |JoinRow(groups, l, orows, att)| >= 1
    ensures forall x :: x in JoinRow(groups, l, orows, att) ==> JoinedFrom(groups, x, l, orows, att)
    ensures UniqueKeys(groups, orows) ==> |JoinRow(groups, l, orows, att)| == 1
  {
    var ms := Matches(groups, l, orows);
    MatchesFacts(groups, l, orows);
    forall x | x in JoinRow(groups, l, orows, att)
      ensures JoinedFrom(groups, x, l, orows, att)
    {
      if ms == [] {
        forall j | 0 <= j < |orows|
          ensures !SameKey(groups, l, orows[j])
        {
          assert orows[j] in orows;
        }
      } else {
        var i :| 0 <= i < |ms| && x == Extend(l, ms[i], att);
        assert ms[i] in ms;
        var j :| 0 <= j < |orows| && orows[j] == ms[i];
      }
    }
    if UniqueKeys(groups, orows) {
      MatchesAtMostOne(groups, l, orows);
    }
  }

  lemma MatchesNonEmpty(groups: seq<string>, l: Row, rows: seq<Row>)
    ensures Matches(groups, l, rows) != [] ==> exists j :: 0 <= j < |rows| && SameKey(groups, l, rows[j])
  {
    var ms := Matches(groups, l, rows);
    MatchesFacts(groups, l, rows);
    if ms != [] {
      assert ms[0] in ms;
    }
  }

  lemma {:induction false} MatchesAtMostOne(groups: seq<string>, l: Row, rows: seq<Row>)
    requires UniqueKeys(groups, rows)
    ensures |Matches(groups, l, rows)| <= 1
  {
    if rows != [] {
      assert UniqueKeys(groups, rows[1..]) by {
        forall i, j | 0 <= i < j < |rows[1..]|
          ensures !SameKey(groups, rows[1..][i], rows[1..][j])
        {
          assert rows[1..][i] == rows[i + 1] && rows[1..][j] == rows[j + 1];
        }
      }
      MatchesAtMostOne(groups, l, rows[1..]);
      if SameKey(groups, l, rows[0]) {
        MatchesNonEmpty(groups, l, rows[1..]);
        if Matches(groups, l, rows[1..]) != [] {
          assert false;
        }
      }
    }
  }

  lemma {:induction false} KeyJoinRowsLength(groups: seq<string>, lrows: seq<Row>, orows: seq<Row>, att: set<string>)
    ensures |KeyJoinRows(groups, lrows, orows, att)| >= |lrows|
  {
    if lrows != [] {
      JoinRowFacts(groups, lrows[0], orows, att);
      KeyJoinRowsLength(groups, lrows[1..], orows, att);
    }
  }

  /** Every row of the key join comes from some left row. */
  lemma {:induction false} KeyJoinRowsSound(groups: seq<string>, lrows: seq<Row>, orows: seq<Row>, att: set<string>)
    ensures forall x :: x in KeyJoinRows(groups, lrows, orows, att) ==>
              exists i :: 0 <= i < |lrows| && JoinedFrom(groups, x, lrows[i], orows, att)
  {
    if lrows != [] {
      var head := JoinRow(groups, lrows[0], orows, att);
      var tail := KeyJoinRows(groups, lrows[1..], orows, att);
      JoinRowFacts(groups, lrows[0], orows, att);
      KeyJoinRowsSound(groups, lrows[1..], orows, att);
      forall x | x in head + tail
        ensures exists i :: 0 <= i < |lrows| && JoinedFrom(groups, x, lrows[i], orows, att)
      {
        if x in head {
          assert JoinedFrom(groups, x, lrows[0], orows, att);
        } else {
          assert x in tail;
          var i :| 0 <= i < |lrows[1..]| && JoinedFrom(groups, x, lrows[1..][i], orows, att);
          assert lrows[1..][i] == lrows[i + 1];
        }
      }
    }
  }

  /** Every left row contributes at least one row to the key join. */
  lemma {:induction false} KeyJoinRowsComplete(groups: seq<string>, lrows: seq<Row>, orows: seq<Row>, att: set<string>)
    ensures forall i :: 0 <= i < |lrows| ==>
              exists x :: x in KeyJoinRows(groups, lrows, orows, att) && JoinedFrom(groups, x, lrows[i], orows, att)
  {
    if lrows != [] {
      var head := JoinRow(groups, lrows[0], orows, att);
      var tail := KeyJoinRows(groups, lrows[1..], orows, att);
      JoinRowFacts(groups, lrows[0], orows, att);
      KeyJoinRowsComplete(groups, lrows[1..], orows, att);
      forall i | 0 <= i < |lrows|
        ensures exists x :: x in head + tail && JoinedFrom(groups, x, lrows[i], orows, att)
      {
        if i == 0 {
          assert head[0] in head;
          assert head[0] in head + tail;
        } else {
          assert lrows[1..][i - 1] == lrows[i];
          var x :| x in tail && JoinedFrom(groups, x, lrows[1..][i - 1], orows, att);
          assert x in head + tail;
        }
      }
    }
  }

  lemma {:induction false} KeyJoinRowsUnique(groups: seq<string>, lrows: seq<Row>, orows: seq<Row>, att: set<string>)
    requires UniqueKeys(groups, orows)
    ensures |KeyJoinRows(groups, lrows, orows, att)| == |lrows|
    ensures forall i :: 0 <= i < |lrows| ==>
              JoinedFrom(groups, KeyJoinRows(groups, lrows, orows, att)[i], lrows[i], orows, att)
  {
    if lrows != [] {
      var head := JoinRow(groups, lrows[0], orows, att);
      var tail := KeyJoinRows(groups, lrows[1..], orows, att);
      JoinRowFacts(groups, lrows[0], orows, att);
      assert head[0] in head;
      KeyJoinRowsUnique(groups, lrows[1..], orows, att);
      forall i | 0 <= i < |lrows|
        ensures JoinedFrom(groups, (head + tail)[i], lrows[i], orows, att)
      {
        if i > 0 {
          assert (head + tail)[i] == tail[i - 1];
          assert lrows[1..][i - 1] == lrows[i];
        }
      }
    }
  }

  lemma {:induction false} KeyJoinRowsAppend(groups: seq<string>, xs: seq<Row>, ys: seq<Row>, orows: seq<Row>, att: set<string>)
    ensures KeyJoinRows(groups, xs + ys, orows, att) == KeyJoinRows(groups, xs, orows, att) + KeyJoinRows(groups, ys, orows, att)
  {
    if xs == [] {
      assert xs + ys == ys;
    } else {
      var head := JoinRow(groups, xs[0], orows, att);
      assert (xs + ys)[0] == xs[0];
      assert (xs + ys)[1..] == xs[1..] + ys;
      calc {
        KeyJoinRows(groups, xs + ys, orows, att);
        head + KeyJoinRows(groups, xs[1..] + ys, orows, att);
        { KeyJoinRowsAppend(groups, xs[1..], ys, orows, att); }
        head + (KeyJoinRows(groups, xs[1..], orows, att) + KeyJoinRows(groups, ys, orows, att));
        (head + KeyJoinRows(groups, xs[1..], orows, att)) + KeyJoinRows(groups, ys, orows, att);
      }
    }
  }

  /** The attached columns are disjoint from every left row and exclude the keys. */
  lemma AttachedDisjoint(groups: seq<string>, left: Frame, other: Frame)
    requires JoinDefined(groups, left, other)
    ensures forall l :: l in left.rows ==> l.Keys !! ColumnSet(Attached(groups, other))
    ensures forall g :: g in groups ==> g !in ColumnSet(Attached(groups, other))
  {
  }

  /**
   * group_join(groups, left, other): with groups, a left join of `left` with
   * `other` keyed by the group columns; without, a join on the row index.
   * `other` is indexed by the groups in place first; no caller reads it
   * afterwards, so only the returned frame is modelled.
   */
  function GroupJoin(groups: seq<string>, left: Frame, other: Frame): (r: Frame)
    requires JoinDefined(groups, left, other)
  {
    var att := ColumnSet(Attached(groups, other));
    Frame(left.columns + Attached(groups, other),
          if |groups| > 0 then KeyJoinRows(groups, left.rows, other.rows, att)
          else IndexJoinRows(left.rows, other.rows, att))
  }

  /**
   * The joined frame has the columns of `left` and the non-key columns of
   * `other`, is well formed, and has at least one row per left row.
   */
  lemma GroupJoinShape(groups: seq<string>, left: Frame, other: Frame)
    requires JoinDefined(groups, left, other)
    ensures ColumnSet(GroupJoin(groups, left, other).columns) ==
            ColumnSet(left.columns) + (ColumnSet(other.columns) - ColumnSet(groups))
    ensures WellFormed(GroupJoin(groups, left, other))
    ensures |GroupJoin(groups, left, other).rows| >= |left.rows|
  {
    var r := GroupJoin(groups, left, other);
    var extra := Attached(groups, other);
    var att := ColumnSet(extra);
    var cols := left.columns + extra;
    DistinctAppend(left.columns, extra);
    AttachedDisjoint(groups, left, other);
    forall x | x in r.rows
      ensures x.Keys == ColumnSet(cols)
    {
      if |groups| > 0 {
        KeyJoinRowsSound(groups, left.rows, other.rows, att);
        var i :| 0 <= i < |left.rows| && JoinedFrom(groups, x, left.rows[i], other.rows, att);
        assert left.rows[i] in left.rows;
        if x != Extend(left.rows[i], map[], att) {
          var j :| 0 <= j < |other.rows| && x == Extend(left.rows[i], other.rows[j], att);
          ExtendFacts(left.rows[i], other.rows[j], att);
        } else {
          ExtendFacts(left.rows[i], map[], att);
        }
      } else {
        var i :| 0 <= i < |r.rows| && r.rows[i] == x;
        assert left.rows[i] in left.rows;
        ExtendFacts(left.rows[i], if i < |other.rows| then other.rows[i] else map[], att);
      }
    }
    if |groups| > 0 {
      KeyJoinRowsLength(groups, left.rows, other.rows, att);
    }
  }

  /** A left row no row of `orows` matches has a key that does not occur in `orows`. */
  lemma NoMatchingKey(groups: seq<string>, l: Row, orows: seq<Row>)
    requires forall j :: 0 <= j < |orows| ==> !SameKey(groups, l, orows[j])
    ensures KeyOf(groups, l) !in Keys(groups, orows)
  {
  }

  /** The values a matching row supplies are among the values for that key. */
  lemma ValuesFromMatch(groups: seq<string>, l: Row, orows: seq<Row>, j: int, att: set<string>)
    requires 0 <= j < |orows| && SameKey(groups, l, orows[j])
    ensures forall c :: c in att ==> Get(Extend(l, orows[j], att), c) in MatchValues(groups, KeyOf(groups, l), c, orows)
  {
    forall c | c in att
      ensures Get(Extend(l, orows[j], att), c) in MatchValues(groups, KeyOf(groups, l), c, orows)
    {
      assert Get(Extend(l, orows[j], att), c) == Get(orows[j], c);
    }
  }

  /** What one result row owes to its left row `l`. */
  lemma JoinedFromFacts(groups: seq<string>, x: Row, l: Row, orows: seq<Row>, att: set<string>)
    requires JoinedFrom(groups, x, l, orows, att)
    requires l.Keys !! att
    requires forall g :: g in groups ==> g !in att
    ensures x.Keys == l.Keys + att
    ensures x - att == l
    ensures KeyOf(groups, x) == KeyOf(groups, l)
    ensures forall c :: c in att ==>
              || Get(x, c) in MatchValues(groups, KeyOf(groups, l), c, orows)
              || (KeyOf(groups, l) !in Keys(groups, orows) && Get(x, c) == Missing)
  {
    var r: Row;
    if x == Extend(l, map[], att) && forall j :: 0 <= j < |orows| ==> !SameKey(groups, l, orows[j]) {
      r := map[];
      NoMatchingKey(groups, l, orows);
    } else {
      var j :| 0 <= j < |orows| && SameKey(groups, l, orows[j]) && x == Extend(l, orows[j], att);
      r := orows[j];
      ValuesFromMatch(groups, l, orows, j, att);
    }
    ExtendFacts(l, r, att);
    KeyOfStripped(groups, x, att);
  }

  /**
   * A left join keeps the left side: taking the attached columns off the
   * result rows gives back exactly the rows of `left`.
   */
  lemma JoinKeepsLeftRows(groups: seq<string>, left: Frame, other: Frame)
    requires JoinDefined(groups, left, other)
    ensures forall x :: x in Stripped(GroupJoin(groups, left, other).rows, ColumnSet(Attached(groups, other))) <==>
              x in left.rows
  {
    if |groups| > 0 {
      KeyJoinFromLeft(groups, left, other);
      KeyJoinCoversLeft(groups, left, other);
    } else {
      assert groups == [];
      JoinOnIndex(left, other);
      KeepNothing(other.columns);
      assert ColumnSet(groups) == {};
    }
  }

  lemma KeyJoinFromLeft(groups: seq<string>, left: Frame, other: Frame)
    requires JoinDefined(groups, left, other) && |groups| > 0
    ensures forall x :: x in Stripped(GroupJoin(groups, left, other).rows, ColumnSet(Attached(groups, other))) ==>
              x in left.rows
  {
    var r := GroupJoin(groups, left, other);
    var att := ColumnSet(Attached(groups, other));
    var s := Stripped(r.rows, att);
    AttachedDisjoint(groups, left, other);
    KeyJoinRowsSound(groups, left.rows, other.rows, att);
    forall k | 0 <= k < |s|
      ensures s[k] in left.rows
    {
      assert r.rows[k] in r.rows;
      var i :| 0 <= i < |left.rows| && JoinedFrom(groups, r.rows[k], left.rows[i], other.rows, att);
      assert left.rows[i] in left.rows;
      JoinedFromFacts(groups, r.rows[k], left.rows[i], other.rows, att);
    }
  }

  lemma KeyJoinCoversLeft(groups: seq<string>, left: Frame, other: Frame)
    requires JoinDefined(groups, left, other) && |groups| > 0
    ensures forall i :: 0 <= i < |left.rows| ==>
              left.rows[i] in Stripped(GroupJoin(groups, left, other).rows, ColumnSet(Attached(groups, other)))
  {
    var r := GroupJoin(groups, left, other);
    var att := ColumnSet(Attached(groups, other));
    var s := Stripped(r.rows, att);
    AttachedDisjoint(groups, left, other);
    KeyJoinRowsComplete(groups, left.rows, other.rows, att);
    forall i | 0 <= i < |left.rows|
      ensures left.rows[i] in s
    {
      var x :| x in r.rows && JoinedFrom(groups, x, left.rows[i], other.rows, att);
      assert left.rows[i] in left.rows;
      JoinedFromFacts(groups, x, left.rows[i], other.rows, att);
      var k :| 0 <= k < |r.rows| && r.rows[k] == x;
      assert s[k] == left.rows[i];
    }
  }

  /**
   * The result has exactly the keys of `left`. This is the left-join drop
   * law: a row of `other` whose key is not a key of `left` never shows up.
   */
  lemma JoinNeverAddsForeignKeys(groups: seq<string>, left: Frame, other: Frame)
    requires JoinDefined(groups, left, other) && |groups| > 0
    ensures Keys(groups, GroupJoin(groups, left, other).rows) == Keys(groups, left.rows)
  {
    JoinKeysFromLeft(groups, left, other);
    LeftKeysInJoin(groups, left, other);
  }

  lemma JoinKeysFromLeft(groups: seq<string>, left: Frame, other: Frame)
    requires JoinDefined(groups, left, other) && |groups| > 0
    ensures Keys(groups, GroupJoin(groups, left, other).rows) <= Keys(groups, left.rows)
  {
    var r := GroupJoin(groups, left, other);
    var att := ColumnSet(Attached(groups, other));
    AttachedDisjoint(groups, left, other);
    KeyJoinRowsSound(groups, left.rows, other.rows, att);
    forall key | key in Keys(groups, r.rows)
      ensures key in Keys(groups, left.rows)
    {
      var k :| 0 <= k < |r.rows| && KeyOf(groups, r.rows[k]) == key;
      assert r.rows[k] in r.rows;
      var i :| 0 <= i < |left.rows| && JoinedFrom(groups, r.rows[k], left.rows[i], other.rows, att);
      assert left.rows[i] in left.rows;
      JoinedFromFacts(groups, r.rows[k], left.rows[i], other.rows, att);
    }
  }

  lemma LeftKeysInJoin(groups: seq<string>, left: Frame, other: Frame)
    requires JoinDefined(groups, left, other) && |groups| > 0
    ensures Keys(groups, left.rows) <= Keys(groups, GroupJoin(groups, left, other).rows)
  {
    var r := GroupJoin(groups, left, other);
    var att := ColumnSet(Attached(groups, other));
    AttachedDisjoint(groups, left, other);
    KeyJoinCoversLeft(groups, left, other);
    forall key | key in Keys(groups, left.rows)
      ensures key in Keys(groups, r.rows)
    {
      var i :| 0 <= i < |left.rows| && KeyOf(groups, left.rows[i]) == key;
      assert left.rows[i] in Stripped(r.rows, att);
      var k :| 0 <= k < |r.rows| && Stripped(r.rows, att)[k] == left.rows[i];
      KeyOfStripped(groups, r.rows[k], att);
      assert KeyOf(groups, r.rows[k]) in Keys(groups, r.rows);
    }
  }

  /** Taking off columns that are not key columns leaves the key alone. */
  lemma KeyOfStripped(groups: seq<string>, x: Row, att: set<string>)
    requires forall g :: g in groups ==> g !in att
    ensures KeyOf(groups, x - att) == KeyOf(groups, x)
  {
    forall i | 0 <= i < |groups|
      ensures KeyOf(groups, x - att)[i] == KeyOf(groups, x)[i]
    {
      assert groups[i] in groups;
    }
  }

  /**
   * An attached value of a result row is the value of that column in a row
   * of `other` with the same key, or `Missing` when `other` has no such row.
   */
  lemma JoinAttachesMatches(groups: seq<string>, left: Frame, other: Frame)
    requires JoinDefined(groups, left, other) && |groups| > 0
    ensures forall x, c :: x in GroupJoin(groups, left, other).rows && c in Attached(groups, other) ==>
              || Get(x, c) in MatchValues(groups, KeyOf(groups, x), c, other.rows)
              || (KeyOf(groups, x) !in Keys(groups, other.rows) && Get(x, c) == Missing)
  {
    var r := GroupJoin(groups, left, other);
    var att := ColumnSet(Attached(groups, other));
    AttachedDisjoint(groups, left, other);
    KeyJoinRowsSound(groups, left.rows, other.rows, att);
    forall x, c | x in r.rows && c in Attached(groups, other)
      ensures || Get(x, c) in MatchValues(groups, KeyOf(groups, x), c, other.rows)
              || (KeyOf(groups, x) !in Keys(groups, other.rows) && Get(x, c) == Missing)
    {
      var i :| 0 <= i < |left.rows| && JoinedFrom(groups, x, left.rows[i], other.rows, att);
      assert left.rows[i] in left.rows;
      JoinedFromFacts(groups, x, left.rows[i], other.rows, att);
    }
  }

  /**
   * When `other` has one row per key (a group-by result), the join has
   * exactly the rows of `left`, in order, each extended with the values of
   * the row of `other` with its key, or with `Missing` when there is none.
   */
  lemma JoinWithUniqueKeys(groups: seq<string>, left: Frame, other: Frame)
    requires JoinDefined(groups, left, other) && |groups| > 0
    requires UniqueKeys(groups, other.rows)
    ensures Stripped(GroupJoin(groups, left, other).rows, ColumnSet(Attached(groups, other))) == left.rows
    ensures forall i, j, c :: (0 <= i < |left.rows| && 0 <= j < |other.rows| &&
              SameKey(groups, left.rows[i], other.rows[j]) && c in Attached(groups, other)) ==>
              Get(GroupJoin(groups, left, other).rows[i], c) == Get(other.rows[j], c)
    ensures forall i, c :: (0 <= i < |left.rows| && c in Attached(groups, other) &&
              KeyOf(groups, left.rows[i]) !in Keys(groups, other.rows)) ==>
              Get(GroupJoin(groups, left, other).rows[i], c) == Missing
  {
    var r := GroupJoin(groups, left, other);
    var att := ColumnSet(Attached(groups, other));
    AttachedDisjoint(groups, left, other);
    KeyJoinRowsUnique(groups, left.rows, other.rows, att);
    forall i | 0 <= i < |left.rows|
      ensures r.rows[i] - att == left.rows[i]
      ensures forall j, c :: 0 <= j < |other.rows| && SameKey(groups, left.rows[i], other.rows[j]) && c in att ==>
                Get(r.rows[i], c) == Get(other.rows[j], c)
      ensures forall c :: c in att && KeyOf(groups, left.rows[i]) !in Keys(groups, other.rows) ==>
                Get(r.rows[i], c) == Missing
    {
      var l := left.rows[i];
      assert l in left.rows;
      JoinedFromFacts(groups, r.rows[i], l, other.rows, att);
      if !(r.rows[i] == Extend(l, map[], att) && forall j :: 0 <= j < |other.rows| ==> !SameKey(groups, l, other.rows[j])) {
        var j0 :| 0 <= j0 < |other.rows| && SameKey(groups, l, other.rows[j0]) && r.rows[i] == Extend(l, other.rows[j0], att);
        ExtendFacts(l, other.rows[j0], att);
        forall j | 0 <= j < |other.rows| && SameKey(groups, l, other.rows[j])
          ensures j == j0
        {
          assert SameKey(groups, other.rows[j], other.rows[j0]);
        }
      } else {
        ExtendFacts(l, map[], att);
      }
    }
  }

  /**
   * Without groups the join is on the row index: row `i` of `left` gets the
   * columns of row `i` of `other`, or `Missing` past the end of `other`.
   */
  lemma JoinOnIndex(left: Frame, other: Frame)
    requires JoinDefined([], left, other)
    ensures Stripped(GroupJoin([], left, other).rows, ColumnSet(other.columns)) == left.rows
    ensures forall i, c :: 0 <= i < |left.rows| && c in other.columns ==>
              Get(GroupJoin([], left, other).rows[i], c) == if i < |other.rows| then Get(other.rows[i], c) else Missing
  {
    var r := GroupJoin([], left, other);
    KeepNothing(other.columns);
    assert ColumnSet([]) == {};
    var att := ColumnSet(other.columns);
    forall i | 0 <= i < |left.rows|
      ensures r.rows[i] - att == left.rows[i]
      ensures forall c :: c in other.columns ==> Get(r.rows[i], c) == if i < |other.rows| then Get(other.rows[i], c) else Missing
    {
      assert left.rows[i] in left.rows;
      ExtendFacts(left.rows[i], if i < |other.rows| then other.rows[i] else map[], att);
    }
  }

  /**
   * The keyed join of `xs + ys` is the join of `xs` followed by the join of
   * `ys`: each left row contributes its own block, in the order of `left`.
   */
  lemma JoinPreservesOrder(groups: seq<string>, cols: seq<string>, xs: seq<Row>, ys: seq<Row>, other: Frame)
    requires JoinDefined(groups, Frame(cols, xs + ys), other) && |groups| > 0
    ensures JoinDefined(groups, Frame(cols, xs), other) && JoinDefined(groups, Frame(cols, ys), other)
    ensures GroupJoin(groups, Frame(cols, xs + ys), other).rows ==
            GroupJoin(groups, Frame(cols, xs), other).rows + GroupJoin(groups, Frame(cols, ys), other).rows
  {
    assert forall r :: r in xs ==> r in xs + ys;
    assert forall r :: r in ys ==> r in xs + ys;
    KeyJoinRowsAppend(groups, xs, ys, other.rows, ColumnSet(Attached(groups, other)));
  }

  /** Taking off non-key columns changes neither the keys nor the other columns' values per key. */
  lemma StrippedKeys(groups: seq<string>, rows: seq<Row>, cols: set<string>)
    requires forall g :: g in groups ==> g !in cols
    ensures Keys(groups, Stripped(rows, cols)) == Keys(groups, rows)
    ensures forall key, c :: c !in cols ==> MatchValues(groups, key, c, Stripped(rows, cols)) == MatchValues(groups, key, c, rows)
    ensures UniqueKeys(groups, rows) ==> UniqueKeys(groups, Stripped(rows, cols))
  {
    var s := Stripped(rows, cols);
    forall k | 0 <= k < |rows|
      ensures KeyOf(groups, s[k]) == KeyOf(groups, rows[k])
    {
      KeyOfStripped(groups, rows[k], cols);
    }
    forall key, c | c !in cols
      ensures MatchValues(groups, key, c, s) == MatchValues(groups, key, c, rows)
    {
      forall v | v in MatchValues(groups, key, c, rows)
        ensures v in MatchValues(groups, key, c, s)
      {
        var j :| 0 <= j < |rows| && KeyOf(groups, rows[j]) == key && v == Get(rows[j], c);
        assert Get(s[j], c) == v;
      }
    }
  }
}
