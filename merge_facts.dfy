/** What the fold of `merge_overlapping_rows` guarantees about its result,
    stated on the reference definition `Merge.MergeRows`. */
module MergeFacts {
  import opened Errors
  import opened TextLines
  import opened Merge

  // ---- nothing is lost, later values win ----

  /** All the rows' entries in one dict, each row updating the ones before
      it, as `dict.update` does. */
  ghost function Union(rows: seq<Entries>): Entries {
    if rows == [] then map[] else Union(rows[..|rows| - 1]) + rows[|rows| - 1]
  }

  /** Updating a dict with two dicts one after the other is updating it with
      their union. */
  lemma UpdateTwice(a: Entries, b: Entries, c: Entries)
    ensures (a + b) + c == a + (b + c)
  {
  }

  /** Emitting the accumulated row leaves the union unchanged. */
  lemma UnionSnoc(rows: seq<Entries>, row: Entries)
    ensures Union(rows + [row]) == Union(rows) + row
  {
    assert (rows + [row])[..|rows|] == rows;
  }

  /** The union of the first `n` rows is the union of the first `n - 1`
      updated with row `n - 1`. */
  lemma UnionPrefix(rows: seq<Entries>, n: nat)
    requires 1 <= n <= |rows|
    ensures Union(rows[..n]) == Union(rows[..n - 1]) + rows[n - 1]
  {
    assert rows[..n] == rows[..n - 1] + [rows[n - 1]];
    UnionSnoc(rows[..n - 1], rows[n - 1]);
  }

  /** Along the fold, the rows emitted so far followed by the accumulated row
      hold the union of the rows looked at. */
  lemma {:induction false} PrefixUnion(extentOf: Entries -> Result<Span>, rows: seq<Entries>, n: nat)
    requires 1 <= n <= |rows| && MergePrefix(extentOf, rows, n).Ok?
    ensures Union(MergePrefix(extentOf, rows, n).value.done) + MergePrefix(extentOf, rows, n).value.acc == Union(rows[..n])
    decreases n
  {
    UnionPrefix(rows, n);
    if n > 1 {
      var prev := MergePrefix(extentOf, rows, n - 1).value;
      PrefixUnion(extentOf, rows, n - 1);
      PrefixStep(extentOf, rows, n - 1, prev.done, prev.acc);
      if Overlaps(extentOf, prev.acc, rows[n - 1]) == Ok(true) {
        UpdateTwice(Union(prev.done), prev.acc, rows[n - 1]);
      } else {
        UnionSnoc(prev.done, prev.acc);
      }
    }
  }

  /** The merged rows hold, together, exactly the entries of the input rows,
      a later row's line winning over an earlier one's under the same
      header. */
  lemma MergeKeepsUnion(extentOf: Entries -> Result<Span>, rows: seq<Entries>)
    requires MergeRows(extentOf, rows).Ok?
    ensures Union(MergeRows(extentOf, rows).value) == Union(rows)
  {
    if rows != [] {
      var st := MergePrefix(extentOf, rows, |rows|).value;
      PrefixUnion(extentOf, rows, |rows|);
      UnionSnoc(st.done, st.acc);
      assert rows[..|rows|] == rows;
    }
  }

  // ---- length ----

  /** Along the fold, at most one row is emitted per row looked at, the
      first one excepted. */
  lemma {:induction false} PrefixLength(extentOf: Entries -> Result<Span>, rows: seq<Entries>, n: nat)
    requires 1 <= n <= |rows| && MergePrefix(extentOf, rows, n).Ok?
    ensures |MergePrefix(extentOf, rows, n).value.done| <= n - 1
    decreases n
  {
    if n > 1 {
      PrefixLength(extentOf, rows, n - 1);
    }
  }

  /** Merging gives back no rows for no rows, and otherwise at least one row
      and never more rows than it was given. */
  lemma MergeLength(extentOf: Entries -> Result<Span>, rows: seq<Entries>)
    requires MergeRows(extentOf, rows).Ok?
    ensures rows == [] ==> MergeRows(extentOf, rows).value == []
    ensures rows != [] ==> 1 <= |MergeRows(extentOf, rows).value| <= |rows|
  {
    if rows != [] {
      PrefixLength(extentOf, rows, |rows|);
    }
  }

  // ---- rows that do not overlap ----

  lemma SliceSnoc(rows: seq<Entries>, m: nat)
    requires m < |rows|
    ensures rows[..m] + [rows[m]] == rows[..m + 1]
  {
  }

  /** How the extent of row `i` compares with the extent of the row before it. */
  ghost function Gap(extentOf: Entries -> Result<Span>, rows: seq<Entries>, i: nat): Result<bool>
    requires 1 <= i < |rows|
  {
    Overlaps(extentOf, rows[i - 1], rows[i])
  }

  /** Among the first `n` rows, no row's extent overlaps the extent of the
      row before it. */
  ghost predicate SeparatedUpTo(extentOf: Entries -> Result<Span>, rows: seq<Entries>, n: nat)
    requires n <= |rows|
  {
    forall i | 1 <= i < n :: Gap(extentOf, rows, i) == Ok(false)
  }

  /** With no overlaps so far, every row looked at but the last is emitted
      as it is, and the last one is the accumulated row. */
  lemma {:induction false} PrefixSeparated(extentOf: Entries -> Result<Span>, rows: seq<Entries>, n: nat)
    requires 1 <= n <= |rows| && SeparatedUpTo(extentOf, rows, n)
    ensures MergePrefix(extentOf, rows, n) == Ok(Fold(rows[..n - 1], rows[n - 1]))
    decreases n
  {
    if n > 1 {
      assert Gap(extentOf, rows, n - 1) == Ok(false);
      PrefixSeparated(extentOf, rows, n - 1);
      PrefixStep(extentOf, rows, n - 1, rows[..n - 2], rows[n - 2]);
      SliceSnoc(rows, n - 2);
    }
  }

  /** Conversely, when one row has been emitted per row looked at, the first
      excepted, no row looked at overlapped the one before it. */
  lemma {:induction false} PrefixUnfolded(extentOf: Entries -> Result<Span>, rows: seq<Entries>, n: nat)
    requires 1 <= n <= |rows| && MergePrefix(extentOf, rows, n).Ok?
    requires |MergePrefix(extentOf, rows, n).value.done| == n - 1
    ensures SeparatedUpTo(extentOf, rows, n)
    decreases n
  {
    if n > 1 {
      var prev := MergePrefix(extentOf, rows, n - 1);
      assert prev.Ok?;
      PrefixLength(extentOf, rows, n - 1);
      PrefixStep(extentOf, rows, n - 1, prev.value.done, prev.value.acc);
      PrefixUnfolded(extentOf, rows, n - 1);
      PrefixSeparated(extentOf, rows, n - 1);
      assert Gap(extentOf, rows, n - 1) == Ok(false);
    }
  }

  /** Merging leaves the rows as they are, in their order, exactly when no
      row's extent overlaps the extent of the row before it. */
  lemma MergeSeparated(extentOf: Entries -> Result<Span>, rows: seq<Entries>)
    ensures MergeRows(extentOf, rows) == Ok(rows) <==> SeparatedUpTo(extentOf, rows, |rows|)
  {
    if rows != [] {
      if SeparatedUpTo(extentOf, rows, |rows|) {
        PrefixSeparated(extentOf, rows, |rows|);
        assert rows[..|rows| - 1] + [rows[|rows| - 1]] == rows;
      }
      if MergeRows(extentOf, rows) == Ok(rows) {
        var st := MergePrefix(extentOf, rows, |rows|).value;
        assert |st.done + [st.acc]| == |rows|;
        PrefixUnfolded(extentOf, rows, |rows|);
      }
    }
  }

  // ---- failures ----

  /** Along the fold, the accumulated row holds a line under every header of
      the last row looked at. */
  lemma {:induction false} PrefixCovers(extentOf: Entries -> Result<Span>, rows: seq<Entries>, n: nat)
    requires 1 <= n <= |rows| && MergePrefix(extentOf, rows, n).Ok?
    ensures rows[n - 1].Keys <= MergePrefix(extentOf, rows, n).value.acc.Keys
    decreases n
  {
    if n > 1 {
      PrefixCovers(extentOf, rows, n - 1);
    }
  }

  /** `extentOf` fails exactly on a row without lines, as `min` of nothing
      does. */
  ghost predicate FailsOnEmpty(extentOf: Entries -> Result<Span>) {
    forall row :: (extentOf(row).Err? <==> |row| == 0) && (extentOf(row).Err? ==> extentOf(row).error == EmptySequence)
  }

  /** `get_row_extent` fails exactly on a row without lines. */
  lemma ExtentFailsOnEmpty(minAttr: Attr, maxAttr: Attr)
    ensures FailsOnEmpty(ExtentFn(minAttr, maxAttr))
  {
    var extentOf := ExtentFn(minAttr, maxAttr);
    forall row ensures (extentOf(row).Err? <==> |row| == 0) && (extentOf(row).Err? ==> extentOf(row).error == EmptySequence) {
      assert extentOf(row) == Extent(row, minAttr, maxAttr);
    }
  }

  /** A row whose lines span an empty range: its least row minimum lies above
      its greatest row maximum. */
  ghost predicate Inverted(extentOf: Entries -> Result<Span>, row: Entries) {
    extentOf(row).Ok? && extentOf(row).value.hi < extentOf(row).value.lo
  }

  /** What the error `e` says about the rows: `min` of nothing (a row without
      lines), or the assertion in `overlap` (a row after the first whose
      extent is inverted). */
  ghost predicate Explains(extentOf: Entries -> Result<Span>, rows: seq<Entries>, e: Error) {
    (e == EmptySequence && exists i | 0 <= i < |rows| :: |rows[i]| == 0)
    || (e == AssertionFailed && exists i | 1 <= i < |rows| :: Inverted(extentOf, rows[i]))
  }

  /** A failed comparison: one of the two rows has no lines, or the next
      row's extent is inverted. */
  lemma OverlapsError(extentOf: Entries -> Result<Span>, acc: Entries, next: Entries)
    requires FailsOnEmpty(extentOf) && Overlaps(extentOf, acc, next).Err?
    ensures var e := Overlaps(extentOf, acc, next).error;
            (e == EmptySequence && (|acc| == 0 || |next| == 0))
            || (e == AssertionFailed && Inverted(extentOf, next))
  {
  }

  lemma {:induction false} PrefixError(extentOf: Entries -> Result<Span>, rows: seq<Entries>, n: nat)
    requires FailsOnEmpty(extentOf)
    requires 1 <= n <= |rows| && MergePrefix(extentOf, rows, n).Err?
    ensures Explains(extentOf, rows, MergePrefix(extentOf, rows, n).error)
    decreases n
  {
    var prev := MergePrefix(extentOf, rows, n - 1);
    if prev.Err? {
      ErrSticks(extentOf, rows, n - 1, n);
      PrefixError(extentOf, rows, n - 1);
    } else {
      var acc, next := prev.value.acc, rows[n - 1];
      PrefixStep(extentOf, rows, n - 1, prev.value.done, acc);
      OverlapsError(extentOf, acc, next);
      var e := Overlaps(extentOf, acc, next).error;
      if e == AssertionFailed {
        assert 1 <= n - 1 < |rows| && Inverted(extentOf, rows[n - 1]);
      } else if |acc| == 0 {
        PrefixCovers(extentOf, rows, n - 1);
        assert rows[n - 2].Keys == {};
        assert 0 <= n - 2 < |rows| && |rows[n - 2]| == 0;
      } else {
        assert 0 <= n - 1 < |rows| && |rows[n - 1]| == 0;
      }
    }
  }

  /** When merging fails, a row is to blame: one without lines, or one after
      the first whose extent is inverted. */
  lemma MergeError(rows: seq<Entries>, minAttr: Attr, maxAttr: Attr)
    requires MergeRows(ExtentFn(minAttr, maxAttr), rows).Err?
    ensures Explains(ExtentFn(minAttr, maxAttr), rows, MergeRows(ExtentFn(minAttr, maxAttr), rows).error)
  {
    ExtentFailsOnEmpty(minAttr, maxAttr);
    PrefixError(ExtentFn(minAttr, maxAttr), rows, |rows|);
  }

  /** Rows that all hold lines, none after the first with an inverted extent,
      are merged without error. */
  lemma MergeSucceeds(rows: seq<Entries>, minAttr: Attr, maxAttr: Attr)
    requires forall i | 0 <= i < |rows| :: |rows[i]| != 0
    requires forall i | 1 <= i < |rows| :: !Inverted(ExtentFn(minAttr, maxAttr), rows[i])
    ensures MergeRows(ExtentFn(minAttr, maxAttr), rows).Ok?
  {
    if MergeRows(ExtentFn(minAttr, maxAttr), rows).Err? {
      MergeError(rows, minAttr, maxAttr);
    }
  }
}
