/**
 * In-memory tables ("frames") as the aggregation engine sees them, and the
 * frame operations it borrows from pandas and from bamboo's frame helpers:
 * the parent-id stamp, the per-parent row filter, column drops and
 * concatenation.
 */
module Frames {

  datatype Option<T> = None | Some(value: T)

  /** A cell value; `Missing` is the null a join or a concatenation fills in. */
  datatype Value = Missing | Number(n: int) | Text(s: string)

  /** A row maps column names to values. */
  type Row = map<string, Value>

  /** A table: an ordered list of column names and an ordered list of rows. */
  datatype Frame = Frame(columns: seq<string>, rows: seq<Row>)

  /** The reserved provenance column naming the parent dataset of a row. */
  const PARENT_ID: string := "parent_dataset_id"

  function ColumnSet(cols: seq<string>): (s: set<string>)
  {
    set c | c in cols
  }

  predicate Distinct(cols: seq<string>)
  {
    forall i, j :: 0 <= i < j < |cols| ==> cols[i] != cols[j]
  }

  /** Every frame pandas hands around: distinct columns, a value in every cell. */
  predicate WellFormed(f: Frame)
  {
    && Distinct(f.columns)
    && forall r :: r in f.rows ==> r.Keys == ColumnSet(f.columns)
  }

  /** The value of column `c` in `r`, `Missing` where the row has no such column. */
  function Get(r: Row, c: string): (v: Value)
  {
    if c in r then r[c] else Missing
  }

  lemma DistinctAppend(xs: seq<string>, ys: seq<string>)
    requires Distinct(xs) && Distinct(ys)
    requires ColumnSet(xs) !! ColumnSet(ys)
    ensures Distinct(xs + ys)
    ensures ColumnSet(xs + ys) == ColumnSet(xs) + ColumnSet(ys)
  {
    forall i, j | 0 <= i < j < |xs + ys|
      ensures (xs + ys)[i] != (xs + ys)[j]
    {
      if i < |xs| && |xs| <= j {
        assert (xs + ys)[i] in ColumnSet(xs);
        assert (xs + ys)[j] in ColumnSet(ys);
      }
    }
  }

  /** The names of `cols`, in order, that are not in `excluded`. */
  function Keep(cols: seq<string>, excluded: set<string>): (r: seq<string>)
    ensures ColumnSet(r) == ColumnSet(cols) - excluded
    ensures Distinct(cols) ==> Distinct(r)
    ensures |r| <= |cols|
  {
    if cols == [] then []
    else
      var rest := Keep(cols[1..], excluded);
      assert ColumnSet(cols) == {cols[0]} + ColumnSet(cols[1..]);
      if cols[0] in excluded then rest
      else
        assert ColumnSet([cols[0]] + rest) == {cols[0]} + ColumnSet(rest);
        assert Distinct(cols) ==> Distinct([cols[0]] + rest) by {
          if Distinct(cols) {
            assert cols[0] !in ColumnSet(cols[1..]);
            DistinctAppend([cols[0]], rest);
          }
        }
        [cols[0]] + rest
  }

  lemma KeepNothing(cols: seq<string>)
    ensures Keep(cols, {}) == cols
  {
    if cols != [] {
      KeepNothing(cols[1..]);
    }
  }

  /**
   * add_parent_column (bamboo/core/frame.py): every row is stamped with the
   * parent dataset id; the column is added when it is not there yet.
   */
  function AddParentColumn(f: Frame, id: string): (r: Frame)
    ensures ColumnSet(r.columns) == ColumnSet(f.columns) + {PARENT_ID}
    ensures |r.rows| == |f.rows|
    ensures WellFormed(f) ==> WellFormed(r)
  {
    var cols := if PARENT_ID in f.columns then f.columns else f.columns + [PARENT_ID];
    assert ColumnSet(cols) == ColumnSet(f.columns) + {PARENT_ID};
    assert PARENT_ID !in f.columns ==> Distinct(f.columns) ==> Distinct(cols) by {
      if PARENT_ID !in f.columns && Distinct(f.columns) {
        DistinctAppend(f.columns, [PARENT_ID]);
      }
    }
    Frame(cols, seq(|f.rows|, k requires 0 <= k < |f.rows| => f.rows[k][PARENT_ID := Text(id)]))
  }

  /** Every stamped row carries `id` and keeps its other cells. */
  lemma AddParentColumnRows(f: Frame, id: string)
    ensures forall k :: 0 <= k < |f.rows| ==>
              AddParentColumn(f, id).rows[k].Keys == f.rows[k].Keys + {PARENT_ID} &&
              AddParentColumn(f, id).rows[k][PARENT_ID] == Text(id)
    ensures forall k, c :: 0 <= k < |f.rows| && c in f.rows[k] && c != PARENT_ID ==>
              AddParentColumn(f, id).rows[k][c] == f.rows[k][c]
  {
  }

  /** Whether `r` carries the provenance of parent `id`. */
  predicate FromParent(r: Row, id: string)
  {
    Get(r, PARENT_ID) == Text(id)
  }

  /** The rows of `rows`, in order, whose provenance is `id` (`own`) or is not (`!own`). */
  function Select(rows: seq<Row>, id: string, own: bool): (r: seq<Row>)
    ensures |r| <= |rows|
    ensures forall x :: x in r ==> x in rows && FromParent(x, id) == own
    ensures forall x :: x in rows && FromParent(x, id) == own ==> x in r
  {
    if rows == [] then []
    else (if FromParent(rows[0], id) == own then [rows[0]] else []) + Select(rows[1..], id, own)
  }

  /** The two selections split `rows` exactly: nothing lost, nothing duplicated. */
  lemma {:induction false} SelectPartition(rows: seq<Row>, id: string)
    ensures |Select(rows, id, true)| + |Select(rows, id, false)| == |rows|
    ensures multiset(Select(rows, id, true)) + multiset(Select(rows, id, false)) == multiset(rows)
  {
    if rows != [] {
      SelectPartition(rows[1..], id);
      assert rows == [rows[0]] + rows[1..];
    }
  }

  /** Selection distributes over concatenation, so it keeps the order of rows. */
  lemma {:induction false} SelectAppend(xs: seq<Row>, ys: seq<Row>, id: string, own: bool)
    ensures Select(xs + ys, id, own) == Select(xs, id, own) + Select(ys, id, own)
  {
    if xs == [] {
      assert xs + ys == ys;
    } else {
      var head := if FromParent(xs[0], id) == own then [xs[0]] else [];
      assert (xs + ys)[0] == xs[0];
      assert (xs + ys)[1..] == xs[1..] + ys;
      calc {
        Select(xs + ys, id, own);
        head + Select(xs[1..] + ys, id, own);
        { SelectAppend(xs[1..], ys, id, own); }
        head + (Select(xs[1..], id, own) + Select(ys, id, own));
        (head + Select(xs[1..], id, own)) + Select(ys, id, own);
      }
    }
  }

  /** rows_for_parent_id (bamboo/core/frame.py): the rows whose provenance is `id`. */
  function RowsForParentId(f: Frame, id: string): (r: Frame)
    ensures r.columns == f.columns
    ensures WellFormed(f) ==> WellFormed(r)
    ensures forall x :: x in r.rows <==> x in f.rows && FromParent(x, id)
  {
    Frame(f.columns, Select(f.rows, id, true))
  }

  /** The rows that remain once the rows whose provenance is `id` are removed. */
  function RowsWithoutParentId(f: Frame, id: string): (r: Frame)
    ensures r.columns == f.columns
    ensures WellFormed(f) ==> WellFormed(r)
    ensures forall x :: x in r.rows <==> x in f.rows && !FromParent(x, id)
  {
    Frame(f.columns, Select(f.rows, id, false))
  }

  /** The frame without the columns in `cols` (absent ones are ignored). */
  function Without(f: Frame, cols: set<string>): (r: Frame)
    ensures ColumnSet(r.columns) == ColumnSet(f.columns) - cols
    ensures |r.rows| == |f.rows|
    ensures WellFormed(f) ==> WellFormed(r)
  {
    Frame(Keep(f.columns, cols), seq(|f.rows|, k requires 0 <= k < |f.rows| => f.rows[k] - cols))
  }

  /** Each row loses exactly the dropped cells and keeps every other value. */
  lemma WithoutRows(f: Frame, cols: set<string>)
    ensures forall k :: 0 <= k < |f.rows| ==> Without(f, cols).rows[k] == f.rows[k] - cols
  {
  }

  /** pandas `drop(labels, axis=1)`: every label must name a column. */
  function DropColumns(f: Frame, labels: seq<string>): (r: Frame)
    requires ColumnSet(labels) <= ColumnSet(f.columns)
    ensures ColumnSet(r.columns) == ColumnSet(f.columns) - ColumnSet(labels)
    ensures |r.rows| == |f.rows|
    ensures WellFormed(f) ==> WellFormed(r)
  {
    Without(f, ColumnSet(labels))
  }

  /** `r` widened to exactly the columns `cols`, missing cells filled with `Missing`. */
  function Pad(r: Row, cols: set<string>): (p: Row)
  {
    map c | c in cols :: Get(r, c)
  }

  lemma PadIdentity(r: Row, cols: set<string>)
    requires r.Keys == cols
    ensures Pad(r, cols) == r
  {
  }

  /**
   * pandas `concat([a, b])`: the rows of `a` then the rows of `b`, over the
   * union of their columns, each row padded with `Missing`.
   */
  function Concat(a: Frame, b: Frame): (r: Frame)
    ensures ColumnSet(r.columns) == ColumnSet(a.columns) + ColumnSet(b.columns)
    ensures |r.rows| == |a.rows| + |b.rows|
    ensures WellFormed(a) && WellFormed(b) ==> WellFormed(r)
  {
    var extra := Keep(b.columns, ColumnSet(a.columns));
    var cols := a.columns + extra;
    assert ColumnSet(cols) == ColumnSet(a.columns) + ColumnSet(extra);
    assert Distinct(a.columns) && Distinct(b.columns) ==> Distinct(cols) by {
      if Distinct(a.columns) && Distinct(b.columns) {
        DistinctAppend(a.columns, extra);
      }
    }
    Frame(cols, PadAll(a.rows, b.rows, ColumnSet(cols)))
  }

  /** The rows of `xs` then of `ys`, each widened to exactly `cols`. */
  function PadAll(xs: seq<Row>, ys: seq<Row>, cols: set<string>): (rs: seq<Row>)
    ensures |rs| == |xs| + |ys|
    ensures forall x :: x in rs ==> x.Keys == cols
  {
    var rs := seq(|xs| + |ys|, k requires 0 <= k < |xs| + |ys| => Pad(if k < |xs| then xs[k] else ys[k - |xs|], cols));
    assert forall k :: 0 <= k < |rs| ==> rs[k].Keys == cols by {
      forall k | 0 <= k < |rs| ensures rs[k].Keys == cols {
        var r := if k < |xs| then xs[k] else ys[k - |xs|];
        assert rs[k] == Pad(r, cols);
      }
    }
    rs
  }

  /** The rows of `a` come first, then the rows of `b`, each widened to the joint columns. */
  lemma ConcatRows(a: Frame, b: Frame)
    ensures var r := Concat(a, b);
            && (forall k :: 0 <= k < |a.rows| ==> r.rows[k] == Pad(a.rows[k], ColumnSet(r.columns)))
            && (forall k :: 0 <= k < |b.rows| ==> r.rows[|a.rows| + k] == Pad(b.rows[k], ColumnSet(r.columns)))
  {
  }

  /** Concatenating onto an empty, column-less frame gives back the frame. */
  lemma ConcatOntoEmpty(f: Frame)
    requires WellFormed(f)
    ensures Concat(Frame([], []), f) == f
  {
    var e := Frame([], []);
    var r := Concat(e, f);
    assert ColumnSet(e.columns) == {};
    KeepNothing(f.columns);
    assert r.columns == f.columns;
    var all := ColumnSet(f.columns);
    assert |r.rows| == |f.rows|;
    ConcatRows(e, f);
    forall k | 0 <= k < |f.rows|
      ensures r.rows[k] == f.rows[k]
    {
      assert f.rows[k] in f.rows;
      PadIdentity(f.rows[k], all);
    }
    assert r.rows == f.rows;
  }

  /** Stamping and then dropping the provenance column is the same as dropping it. */
  lemma StampThenStrip(f: Frame, id: string)
    ensures ColumnSet(Without(AddParentColumn(f, id), {PARENT_ID}).columns) == ColumnSet(f.columns) - {PARENT_ID}
    ensures Without(AddParentColumn(f, id), {PARENT_ID}).rows == Without(f, {PARENT_ID}).rows
  {
    var g := AddParentColumn(f, id);
    var a := Without(g, {PARENT_ID});
    var b := Without(f, {PARENT_ID});
    WithoutRows(g, {PARENT_ID});
    WithoutRows(f, {PARENT_ID});
    forall k | 0 <= k < |a.rows|
      ensures a.rows[k] == b.rows[k]
    {
      assert a.rows[k] == g.rows[k] - {PARENT_ID};
      assert g.rows[k] == f.rows[k][PARENT_ID := Text(id)];
      StampRowStrip(f.rows[k], Text(id));
    }
  }

  lemma StampRowStrip(m: Row, v: Value)
    ensures m[PARENT_ID := v] - {PARENT_ID} == m - {PARENT_ID}
  {
  }

  /** Widening and then dropping a column is dropping it and then widening. */
  lemma PadDrop(r: Row, cols: set<string>, c: string)
    ensures Pad(r, cols) - {c} == Pad(r - {c}, cols - {c})
  {
  }

  /**
   * Apart from the provenance column, stamping a concatenation leaves the
   * rows of `a` then the rows of `b`, each widened to the joint columns.
   */
  lemma StrippedStampedConcat(a: Frame, b: Frame, id: string)
    requires forall x :: x in a.rows ==> PARENT_ID !in x
    ensures var body := Without(AddParentColumn(Concat(a, b), id), {PARENT_ID});
            && |body.rows| == |a.rows| + |b.rows|
            && ColumnSet(body.columns) == (ColumnSet(a.columns) + ColumnSet(b.columns)) - {PARENT_ID}
            && (forall k :: 0 <= k < |a.rows| ==> body.rows[k] == Pad(a.rows[k], ColumnSet(body.columns)))
            && (forall k :: 0 <= k < |b.rows| ==> body.rows[|a.rows| + k] == Pad(b.rows[k] - {PARENT_ID}, ColumnSet(body.columns)))
  {
    var joined := Concat(a, b);
    var all := ColumnSet(joined.columns);
    StampThenStrip(joined, id);
    var body := Without(AddParentColumn(joined, id), {PARENT_ID});
    var cols := all - {PARENT_ID};
    ConcatRows(a, b);
    WithoutRows(joined, {PARENT_ID});
    forall k | 0 <= k < |a.rows|
      ensures body.rows[k] == Pad(a.rows[k], cols)
    {
      assert body.rows[k] == Without(joined, {PARENT_ID}).rows[k];
      PadDrop(a.rows[k], all, PARENT_ID);
      assert a.rows[k] in a.rows;
      assert a.rows[k] - {PARENT_ID} == a.rows[k];
    }
    forall k | 0 <= k < |b.rows|
      ensures body.rows[|a.rows| + k] == Pad(b.rows[k] - {PARENT_ID}, cols)
    {
      assert body.rows[|a.rows| + k] == Without(joined, {PARENT_ID}).rows[|a.rows| + k];
      PadDrop(b.rows[k], all, PARENT_ID);
    }
  }

  /** No row carries the provenance `id`, so selecting them finds nothing. */
  lemma {:induction false} SelectNone(rows: seq<Row>, id: string)
    requires forall x :: x in rows ==> !FromParent(x, id)
    ensures Select(rows, id, true) == []
  {
    if rows != [] {
      assert rows[0] in rows;
      SelectNone(rows[1..], id);
    }
  }

  /**
   * When `b` has the columns of `a` (besides the provenance column), the
   * stamped concatenation without that column is `a`'s rows then `b`'s rows.
   */
  lemma StrippedStampedConcatSame(a: Frame, b: Frame, id: string)
    requires WellFormed(a) && WellFormed(b)
    requires PARENT_ID !in ColumnSet(a.columns)
    requires ColumnSet(b.columns) - {PARENT_ID} == ColumnSet(a.columns)
    ensures Without(AddParentColumn(Concat(a, b), id), {PARENT_ID}).rows == a.rows + Without(b, {PARENT_ID}).rows
  {
    var body := Without(AddParentColumn(Concat(a, b), id), {PARENT_ID});
    var bs := Without(b, {PARENT_ID});
    var cols := ColumnSet(a.columns);
    assert forall x :: x in a.rows ==> PARENT_ID !in x;
    StrippedStampedConcat(a, b, id);
    assert ColumnSet(body.columns) == cols;
    WithoutRows(b, {PARENT_ID});
    assert WellFormed(bs) && ColumnSet(bs.columns) == cols;
    forall k | 0 <= k < |body.rows|
      ensures body.rows[k] == (a.rows + bs.rows)[k]
    {
      if k < |a.rows| {
        assert a.rows[k] in a.rows;
        PadIdentity(a.rows[k], cols);
      } else {
        var j := k - |a.rows|;
        assert body.rows[|a.rows| + j] == Pad(b.rows[j] - {PARENT_ID}, cols);
        assert bs.rows[j] in bs.rows;
        PadIdentity(bs.rows[j], cols);
      }
    }
  }
}
