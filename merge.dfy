/** `merge_overlapping_rows` of pdf2data/pdf.py: consecutive table rows whose
    extents along the row axis overlap are folded into one, the later row's
    entries overwriting the earlier one's under a shared header. */
module Merge {
  import opened Errors
  import opened Seqs
  import opened Geometry
  import opened TextLines
  import opened Rows

  type Entries = map<string, TextLine>

  // ---- `get_row_extent` ----

  /** The coordinates `attr` of the lines a row holds. */
  ghost function Coords(row: Entries, attr: Attr): set<real> {
    set k | k in row :: Get(row[k], attr)
  }

  lemma CoordsNonEmpty(row: Entries, attr: Attr)
    requires |row| != 0
    ensures Coords(row, attr) != {}
  {
    var k :| k in row;
    assert Get(row[k], attr) in Coords(row, attr);
  }

  lemma SomeElement(s: set<real>)
    requires s != {}
    ensures exists x :: x in s
  {
    if forall x :: x !in s {
      assert false;
    }
  }

  lemma AnotherElement(s: set<real>, x: real)
    requires x in s && s != {x}
    ensures exists y :: y in s && y != x
  {
    if forall y | y in s :: y == x {
      assert false;
    }
  }

  /** Builtin `min` over a non-empty collection of numbers. */
  ghost function Least(s: set<real>): (r: real)
    requires s != {}
    ensures r in s && forall y | y in s :: r <= y
  {
    SomeElement(s);
    var x :| x in s;
    if s == {x} then x
    else
      AnotherElement(s, x);
      var m := Least(s - {x});
      assert forall y | y in s :: y == x || y in s - {x};
      if x <= m then x else m
  }

  /** Builtin `max` over a non-empty collection of numbers. */
  ghost function Greatest(s: set<real>): (r: real)
    requires s != {}
    ensures r in s && forall y | y in s :: y <= r
  {
    SomeElement(s);
    var x :| x in s;
    if s == {x} then x
    else
      AnotherElement(s, x);
      var m := Greatest(s - {x});
      assert forall y | y in s :: y == x || y in s - {x};
      if x >= m then x else m
  }

  /** The extent of a row along the row axis. */
  datatype Span = Span(lo: real, hi: real)

  /** `span` runs from the least row minimum to the greatest row maximum of
      the row's lines. */
  ghost predicate IsExtent(row: Entries, minAttr: Attr, maxAttr: Attr, span: Span) {
    (exists k | k in row :: Get(row[k], minAttr) == span.lo)
    && (exists k | k in row :: Get(row[k], maxAttr) == span.hi)
    && forall k | k in row :: span.lo <= Get(row[k], minAttr) && Get(row[k], maxAttr) <= span.hi
  }

  /** `get_row_extent`: `min` of the row minima and `max` of the row maxima of
      the row's lines; `min` of nothing raises `ValueError`. */
  ghost function Extent(row: Entries, minAttr: Attr, maxAttr: Attr): (r: Result<Span>)
    ensures r.Err? <==> |row| == 0
    ensures r.Err? ==> r.error == EmptySequence
  {
    if |row| == 0 then Err(EmptySequence)
    else
      CoordsNonEmpty(row, minAttr);
      CoordsNonEmpty(row, maxAttr);
      Ok(Span(Least(Coords(row, minAttr)), Greatest(Coords(row, maxAttr))))
  }

  /** The extent of a row with lines runs from its least row minimum to its
      greatest row maximum: both are attained and bound every line. */
  lemma ExtentIsExtent(row: Entries, minAttr: Attr, maxAttr: Attr)
    requires |row| != 0
    ensures IsExtent(row, minAttr, maxAttr, Extent(row, minAttr, maxAttr).value)
  {
    var span := Extent(row, minAttr, maxAttr).value;
    forall k | k in row ensures span.lo <= Get(row[k], minAttr) && Get(row[k], maxAttr) <= span.hi {
      assert Get(row[k], minAttr) in Coords(row, minAttr) && Get(row[k], maxAttr) in Coords(row, maxAttr);
    }
  }

  /** Only the extent is an extent: a span attained by the row's lines and
      bounding all of them is the one `get_row_extent` computes. */
  lemma ExtentUnique(row: Entries, minAttr: Attr, maxAttr: Attr, span: Span)
    requires IsExtent(row, minAttr, maxAttr, span)
    ensures Extent(row, minAttr, maxAttr) == Ok(span)
  {
    var lows, highs := Coords(row, minAttr), Coords(row, maxAttr);
    var kLo :| kLo in row && Get(row[kLo], minAttr) == span.lo;
    var kHi :| kHi in row && Get(row[kHi], maxAttr) == span.hi;
    assert span.lo in lows && span.hi in highs;
    forall y | y in lows ensures span.lo <= y {
      var k :| k in row && Get(row[k], minAttr) == y;
    }
    forall y | y in highs ensures y <= span.hi {
      var k :| k in row && Get(row[k], maxAttr) == y;
    }
    LeastIs(lows, span.lo);
    GreatestIs(highs, span.hi);
  }

  /** A member below all the others is the least. */
  lemma LeastIs(s: set<real>, x: real)
    requires x in s && forall y | y in s :: x <= y
    ensures Least(s) == x
  {
    var m := Least(s);
    assert m <= x && x <= m;
  }

  /** A member above all the others is the greatest. */
  lemma GreatestIs(s: set<real>, x: real)
    requires x in s && forall y | y in s :: y <= x
    ensures Greatest(s) == x
  {
    var m := Greatest(s);
    assert x <= m && m <= x;
  }

  /** One pass over the row's lines, keeping the running `min` and `max`. */
  method RowExtent(row: Row, minAttr: Attr, maxAttr: Attr) returns (r: Result<Span>)
    ensures r == Extent(row.entries, minAttr, maxAttr)
  {
    var entries := row.entries;
    var todo := entries.Keys;
    if todo == {} {
      return Err(EmptySequence);
    }
    var k0 :| k0 in todo;
    var lo, hi := Get(entries[k0], minAttr), Get(entries[k0], maxAttr);
    ghost var kLo, kHi := k0, k0;
    todo := todo - {k0};
    while todo != {}
      invariant todo <= entries.Keys
      invariant kLo in entries && Get(entries[kLo], minAttr) == lo
      invariant kHi in entries && Get(entries[kHi], maxAttr) == hi
      invariant forall k | k in entries && k !in todo :: lo <= Get(entries[k], minAttr) && Get(entries[k], maxAttr) <= hi
      decreases todo
    {
      var k :| k in todo;
      if Get(entries[k], minAttr) < lo {
        lo, kLo := Get(entries[k], minAttr), k;
      }
      if Get(entries[k], maxAttr) > hi {
        hi, kHi := Get(entries[k], maxAttr), k;
      }
      todo := todo - {k};
    }
    ExtentUnique(entries, minAttr, maxAttr, Span(lo, hi));
    r := Ok(Span(lo, hi));
  }

  // ---- the fold ----

  /** `get_row_extent` for the row attributes being merged on. */
  ghost function ExtentFn(minAttr: Attr, maxAttr: Attr): Entries -> Result<Span> {
    row => Extent(row, minAttr, maxAttr)
  }

  /** One comparison of the fold: `Ok(true)` when the row `next` is to be
      folded into the accumulated row `acc`. Both extents are computed first,
      and `overlap` asserts that the next row's extent is well-formed. */
  ghost function Overlaps(extentOf: Entries -> Result<Span>, acc: Entries, next: Entries): Result<bool> {
    var span :- extentOf(acc);
    var nextSpan :- extentOf(next);
    if !(nextSpan.lo <= nextSpan.hi) then Err(AssertionFailed)
    else Ok(Overlap(span.lo, span.hi, nextSpan.lo, nextSpan.hi) != 0.0)
  }

  /** The state of the loop: the rows emitted so far and the accumulated row. */
  datatype Fold = Fold(done: seq<Entries>, acc: Entries)

  /** The state of the loop once it has looked at the first `n` rows, or the
      first error: the accumulated row starts as the first row, and each next
      row is folded into it or starts the next one. */
  ghost function MergePrefix(extentOf: Entries -> Result<Span>, rows: seq<Entries>, n: nat): Result<Fold>
    requires 1 <= n <= |rows|
    decreases n
  {
    if n == 1 then Ok(Fold([], rows[0]))
    else
      var st :- MergePrefix(extentOf, rows, n - 1);
      var fold :- Overlaps(extentOf, st.acc, rows[n - 1]);
      if fold then Ok(Fold(st.done, st.acc + rows[n - 1]))
      else Ok(Fold(st.done + [st.acc], rows[n - 1]))
  }

  /** Reference definition of `merge_overlapping_rows` on the row contents:
      after the last row the accumulated row is emitted too. */
  ghost function MergeRows(extentOf: Entries -> Result<Span>, rows: seq<Entries>): Result<seq<Entries>> {
    if rows == [] then Ok([])
    else
      var st :- MergePrefix(extentOf, rows, |rows|);
      Ok(st.done + [st.acc])
  }

  /** The row at `k` starts a run of the fold: it is the first row, or the
      fold reached it without error and found it not to overlap the
      accumulated row. Each run is folded into the row that starts it. */
  ghost predicate StartsRun(extentOf: Entries -> Result<Span>, rows: seq<Entries>, k: nat)
    requires k < |rows|
  {
    k == 0 || (MergePrefix(extentOf, rows, k).Ok?
               && Overlaps(extentOf, MergePrefix(extentOf, rows, k).value.acc, rows[k]) == Ok(false))
  }

  /** The positions among the first `n` rows that start a run, in order. */
  ghost function RunStarts(extentOf: Entries -> Result<Span>, rows: seq<Entries>, n: nat): (r: seq<nat>)
    requires 1 <= n <= |rows|
    decreases n
    ensures |r| > 0 && r[0] == 0 && Increasing(r)
    ensures forall t | 0 <= t < |r| :: r[t] < n
  {
    if n == 1 then [0]
    else RunStarts(extentOf, rows, n - 1) + (if StartsRun(extentOf, rows, n - 1) then [n - 1] else [])
  }

  /** A position is listed in `RunStarts` exactly when it starts a run. */
  lemma {:induction false} RunStartsSpec(extentOf: Entries -> Result<Span>, rows: seq<Entries>, n: nat)
    requires 1 <= n <= |rows|
    ensures forall k | 0 <= k < n :: k in RunStarts(extentOf, rows, n) <==> StartsRun(extentOf, rows, k)
    decreases n
  {
    if n > 1 {
      RunStartsSpec(extentOf, rows, n - 1);
    }
  }

  /** Once the loop has failed it stays failed with the same error. */
  lemma {:induction false} ErrSticks(extentOf: Entries -> Result<Span>, rows: seq<Entries>, n: nat, m: nat)
    requires 1 <= n <= m <= |rows| && MergePrefix(extentOf, rows, n).Err?
    ensures MergePrefix(extentOf, rows, m) == MergePrefix(extentOf, rows, n)
    decreases m
  {
    if m > n {
      ErrSticks(extentOf, rows, n, m - 1);
    }
  }

  /** One pass of the loop body, as the reference definition takes it. */
  lemma PrefixStep(extentOf: Entries -> Result<Span>, rows: seq<Entries>, n: nat, done: seq<Entries>, acc: Entries)
    requires 1 <= n < |rows| && MergePrefix(extentOf, rows, n) == Ok(Fold(done, acc))
    ensures Overlaps(extentOf, acc, rows[n]).Err? ==> MergePrefix(extentOf, rows, n + 1) == Err(Overlaps(extentOf, acc, rows[n]).error)
    ensures Overlaps(extentOf, acc, rows[n]).Err? ==> MergeRows(extentOf, rows) == Err(Overlaps(extentOf, acc, rows[n]).error)
    ensures Overlaps(extentOf, acc, rows[n]) == Ok(true) ==> MergePrefix(extentOf, rows, n + 1) == Ok(Fold(done, acc + rows[n]))
    ensures Overlaps(extentOf, acc, rows[n]) == Ok(false) ==> MergePrefix(extentOf, rows, n + 1) == Ok(Fold(done + [acc], rows[n]))
  {
    if Overlaps(extentOf, acc, rows[n]).Err? {
      ErrSticks(extentOf, rows, n + 1, |rows|);
    }
  }

  /** The extents of the accumulated row and of the next one, compared as
      the loop body of `merge_overlapping_rows` does. */
  method RowsOverlap(row: Row, nextRow: Row, minAttr: Attr, maxAttr: Attr) returns (r: Result<bool>)
    ensures r == Overlaps(ExtentFn(minAttr, maxAttr), row.entries, nextRow.entries)
  {
    var span := RowExtent(row, minAttr, maxAttr);
    if span.Err? {
      return Err(span.error);
    }
    var next := RowExtent(nextRow, minAttr, maxAttr);
    if next.Err? {
      return Err(next.error);
    }
    if !(next.value.lo <= next.value.hi) {
      return Err(AssertionFailed);
    }
    r := Ok(Overlap(span.value.lo, span.value.hi, next.value.lo, next.value.hi) != 0.0);
  }

  /** One more pass of the loop: an overlapping row starts no run, and a row
      that does not overlap starts its own. */
  lemma RunStartsStep(extentOf: Entries -> Result<Span>, orig: seq<Entries>, iRow: nat, done: seq<Entries>, acc: Entries)
    requires 1 <= iRow < |orig| && MergePrefix(extentOf, orig, iRow) == Ok(Fold(done, acc))
    ensures Overlaps(extentOf, acc, orig[iRow]) == Ok(true) ==> RunStarts(extentOf, orig, iRow + 1) == RunStarts(extentOf, orig, iRow)
    ensures Overlaps(extentOf, acc, orig[iRow]) == Ok(false) ==> RunStarts(extentOf, orig, iRow + 1) == RunStarts(extentOf, orig, iRow) + [iRow]
  {
  }

  /** The state of the loop of `merge_overlapping_rows` once it has looked at
      the first `iRow` rows: `newRows` are the rows emitted so far, at the
      increasing positions `leaders`, and `row` is the accumulated row, at
      position `cur`; every other row, whether folded into an accumulated row
      or not looked at yet, still holds its original entries `orig`, and the
      contents agree with the reference fold. */
  ghost predicate Merging(extentOf: Entries -> Result<Span>, rows: seq<Row>, orig: seq<Entries>,
                          newRows: seq<Row>, row: Row, iRow: nat,
                          leaders: seq<nat>, cur: nat, done: seq<Entries>, acc: Entries)
    reads rows
  {
    |orig| == |rows| && cur < iRow <= |rows| && row == rows[cur]
    && Increasing(leaders) && (forall t | 0 <= t < |leaders| :: leaders[t] < cur)
    && newRows == Pick(rows, leaders)
    && (forall k | 0 <= k < |rows| && k != cur && k !in leaders :: rows[k].entries == orig[k])
    && leaders + [cur] == RunStarts(extentOf, orig, iRow)
    && Contents(newRows) == done && row.entries == acc
    && MergePrefix(extentOf, orig, iRow) == Ok(Fold(done, acc))
  }

  /** Once the last accumulated row, at `cur`, is emitted after the rows at
      `leaders`, a row that is not among the emitted ones still holds its
      original entries. */
  lemma FoldedKept(rows: seq<Row>, orig: seq<Entries>, leaders: seq<nat>, cur: nat)
    requires |orig| == |rows| && cur < |rows| && forall t | 0 <= t < |leaders| :: leaders[t] < |rows|
    requires forall k | 0 <= k < |rows| && k != cur && k !in leaders :: rows[k].entries == orig[k]
    ensures forall k | 0 <= k < |rows| && rows[k] !in Pick(rows, leaders + [cur]) :: rows[k].entries == orig[k]
  {
    PickedAt(rows, leaders + [cur]);
  }

  /** One pass of the loop of `merge_overlapping_rows`, over the row at
      `iRow`: when its extent overlaps the accumulated row's, its entries are
      folded into the accumulated row in place; otherwise the accumulated row
      is emitted and the row at `iRow` becomes the accumulated one. */
  method MergeStep(rows: seq<Row>, minAttr: Attr, maxAttr: Attr, newRows: seq<Row>, row: Row, iRow: nat,
                   ghost orig: seq<Entries>, ghost leaders: seq<nat>, ghost cur: nat, ghost done: seq<Entries>, ghost acc: Entries)
    returns (fold: Result<bool>, newRows': seq<Row>, row': Row,
             ghost leaders': seq<nat>, ghost cur': nat, ghost done': seq<Entries>, ghost acc': Entries)
    requires Distinct(rows) && iRow < |rows|
    requires Merging(ExtentFn(minAttr, maxAttr), rows, orig, newRows, row, iRow, leaders, cur, done, acc)
    modifies row
    ensures fold.Err? ==> MergeRows(ExtentFn(minAttr, maxAttr), orig) == Err(fold.error)
    ensures fold.Ok? ==> Merging(ExtentFn(minAttr, maxAttr), rows, orig, newRows', row', iRow + 1, leaders', cur', done', acc')
  {
    var nextRow := rows[iRow];
    DistinctAt(rows, cur);
    NotPicked(rows, leaders, cur);
    fold := RowsOverlap(row, nextRow, minAttr, maxAttr);
    PrefixStep(ExtentFn(minAttr, maxAttr), orig, iRow, done, acc);
    RunStartsStep(ExtentFn(minAttr, maxAttr), orig, iRow, done, acc);
    newRows', row', leaders', cur', done', acc' := newRows, row, leaders, cur, done, acc;
    if fold == Ok(true) {
      row.entries := row.entries + nextRow.entries;
      acc' := row.entries;
      forall k | 0 <= k < |rows| && k != cur && k !in leaders ensures rows[k].entries == orig[k] {
        assert rows[k] != row;
      }
    } else if fold == Ok(false) {
      PickSnoc(rows, leaders, cur, iRow);
      newRows', row' := newRows + [row], nextRow;
      leaders', cur', done', acc' := leaders + [cur], iRow, done + [acc], orig[iRow];
    }
  }

  /** `merge_overlapping_rows`: folds each row into the current one while
      their extents overlap, otherwise emits the current row and moves on.
      Folding updates the current row's dict in place. */
  method MergeOverlappingRows(rows: seq<Row>, minAttr: Attr, maxAttr: Attr) returns (r: Result<seq<Row>>)
    requires Distinct(rows)
    modifies rows
    ensures r.Ok? ==> MergeRows(ExtentFn(minAttr, maxAttr), old(Contents(rows))) == Ok(Contents(r.value))
    ensures r.Err? ==> MergeRows(ExtentFn(minAttr, maxAttr), old(Contents(rows))) == Err(r.error)
    // the result is the empty input itself, or input rows kept in their order, each once
    ensures rows == [] ==> r == Ok(rows)
    ensures r.Ok? ==> Subsequence(r.value, rows) && Distinct(r.value)
    // the rows returned are the input rows that start a run, each extended in place by the rest of its run
    ensures r.Ok? && rows != [] ==> r.value == Pick(rows, RunStarts(ExtentFn(minAttr, maxAttr), old(Contents(rows)), |rows|))
    // a row folded into another one keeps its own entries
    ensures r.Ok? ==> forall k | 0 <= k < |rows| && rows[k] !in r.value :: rows[k].entries == old(rows[k].entries)
  {
    if |rows| == 0 {
      assert Contents(rows) == [];
      return Ok(rows);
    }
    ghost var orig := Contents(rows);
    var newRows: seq<Row> := [];
    var row := rows[0];
    var iRow := 1;
    ghost var leaders: seq<nat>, cur: nat, done: seq<Entries>, acc := [], 0, [], orig[0];
    while iRow < |rows|
      invariant Merging(ExtentFn(minAttr, maxAttr), rows, orig, newRows, row, iRow, leaders, cur, done, acc)
    {
      var fold;
      fold, newRows, row, leaders, cur, done, acc := MergeStep(rows, minAttr, maxAttr, newRows, row, iRow, orig, leaders, cur, done, acc);
      if fold.Err? {
        return Err(fold.error);
      }
      iRow := iRow + 1;
    }
    PickSnoc(rows, leaders, cur, |rows|);
    FoldedKept(rows, orig, leaders, cur);
    assert Contents(newRows + [row]) == done + [acc];
    newRows := newRows + [row];
    leaders := leaders + [cur];
    PickDistinct(rows, leaders);
    r := Ok(newRows);
  }
}
