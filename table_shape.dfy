/** What a table built by `find_table` looks like: which clusters fail, how
    many rows there are, in which order, and where every body line ends up. */
module TableShape {
  import opened Errors
  import opened Seqs
  import opened TextLines
  import opened Selection
  import opened Lookup
  import opened Table

  // ---- one row ----

  /** Every line of the cluster finds a header. */
  predicate KeysOk(keyOf: TextLine -> Result<string>, ls: seq<TextLine>) {
    forall i | 0 <= i < |ls| :: keyOf(ls[i]).Ok?
  }

  /** No two lines of the cluster find the same header. */
  predicate KeysDistinct(keyOf: TextLine -> Result<string>, ls: seq<TextLine>) {
    forall i, j | 0 <= i < j < |ls| :: keyOf(ls[i]) != keyOf(ls[j])
  }

  /** One more line: the row built so far, extended by the new line under its
      header, which must not be taken yet. */
  lemma BuildRowSnoc(keyOf: TextLine -> Result<string>, ls: seq<TextLine>)
    requires ls != []
    ensures var pre, l := ls[..|ls| - 1], ls[|ls| - 1];
            BuildRow(keyOf, ls).Ok? <==>
              && BuildRow(keyOf, pre).Ok?
              && keyOf(l).Ok?
              && keyOf(l).value !in BuildRow(keyOf, pre).value
    ensures var pre, l := ls[..|ls| - 1], ls[|ls| - 1];
            BuildRow(keyOf, ls).Ok? ==>
              BuildRow(keyOf, ls).value
              == BuildRow(keyOf, pre).value[keyOf(l).value := l]
  {
  }

  /** A row that was built holds every line of its cluster under that line's
      header. */
  lemma {:induction false} BuildRowHolds(keyOf: TextLine -> Result<string>, ls: seq<TextLine>)
    requires BuildRow(keyOf, ls).Ok?
    ensures KeysOk(keyOf, ls)
    ensures var row := BuildRow(keyOf, ls).value;
            forall i | 0 <= i < |ls| ::
              keyOf(ls[i]).value in row
              && row[keyOf(ls[i]).value] == ls[i]
  {
    if ls != [] {
      var pre, l := ls[..|ls| - 1], ls[|ls| - 1];
      BuildRowSnoc(keyOf, ls);
      BuildRowHolds(keyOf, pre);
      var rowPre := BuildRow(keyOf, pre).value;
      var key := keyOf(l).value;
      forall i | 0 <= i < |ls|
        ensures keyOf(ls[i]).Ok?
        ensures keyOf(ls[i]).value in rowPre[key := l]
        ensures rowPre[key := l][keyOf(ls[i]).value] == ls[i]
      {
        if i < |pre| {
          assert ls[i] == pre[i];
        }
      }
    }
  }

  /** No two lines of a built row share a header. */
  lemma {:induction false} BuildRowDistinct(keyOf: TextLine -> Result<string>, ls: seq<TextLine>)
    requires BuildRow(keyOf, ls).Ok?
    ensures KeysDistinct(keyOf, ls)
  {
    if ls != [] {
      var pre, l := ls[..|ls| - 1], ls[|ls| - 1];
      BuildRowSnoc(keyOf, ls);
      BuildRowDistinct(keyOf, pre);
      BuildRowHolds(keyOf, pre);
      forall i, j | 0 <= i < j < |ls| ensures keyOf(ls[i]) != keyOf(ls[j]) {
        assert ls[i] == pre[i];
        if j < |pre| {
          assert ls[j] == pre[j];
        }
      }
    }
  }

  /** A built row holds nothing but the headers of its lines, one entry per line. */
  lemma {:induction false} BuildRowOnly(keyOf: TextLine -> Result<string>, ls: seq<TextLine>)
    requires BuildRow(keyOf, ls).Ok?
    ensures var row := BuildRow(keyOf, ls).value;
            && |row| == |ls|
            && forall k | k in row :: exists i | 0 <= i < |ls| :: keyOf(ls[i]) == Ok(k)
  {
    if ls != [] {
      var pre, l := ls[..|ls| - 1], ls[|ls| - 1];
      BuildRowSnoc(keyOf, ls);
      BuildRowOnly(keyOf, pre);
      var rowPre := BuildRow(keyOf, pre).value;
      var key := keyOf(l).value;
      assert |rowPre[key := l]| == |rowPre| + 1;
      forall k | k in rowPre[key := l] ensures exists i | 0 <= i < |ls| :: keyOf(ls[i]) == Ok(k) {
        if k != key {
          var i :| 0 <= i < |pre| && keyOf(pre[i]) == Ok(k);
          assert ls[i] == pre[i];
        } else {
          assert ls[|ls| - 1] == l;
        }
      }
    }
  }

  /** A row that was built holds every line of its cluster under that line's
      header, and nothing else. */
  lemma BuildRowOk(keyOf: TextLine -> Result<string>, ls: seq<TextLine>)
    requires BuildRow(keyOf, ls).Ok?
    ensures KeysOk(keyOf, ls) && KeysDistinct(keyOf, ls)
    ensures var row := BuildRow(keyOf, ls).value;
            && |row| == |ls|
            && (forall i | 0 <= i < |ls| ::
                  keyOf(ls[i]).value in row
                  && row[keyOf(ls[i]).value] == ls[i])
            && (forall k | k in row :: exists i | 0 <= i < |ls| :: keyOf(ls[i]) == Ok(k))
  {
    BuildRowHolds(keyOf, ls);
    BuildRowDistinct(keyOf, ls);
    BuildRowOnly(keyOf, ls);
  }

  /** A cluster whose lines all find distinct headers builds a row. */
  lemma {:induction false} BuildRowOfKeys(keyOf: TextLine -> Result<string>, ls: seq<TextLine>)
    requires KeysOk(keyOf, ls) && KeysDistinct(keyOf, ls)
    ensures BuildRow(keyOf, ls).Ok?
  {
    if ls != [] {
      var pre, l := ls[..|ls| - 1], ls[|ls| - 1];
      forall i | 0 <= i < |pre| ensures pre[i] == ls[i] { }
      BuildRowOfKeys(keyOf, pre);
      BuildRowOk(keyOf, pre);
      BuildRowSnoc(keyOf, ls);
      assert keyOf(ls[|ls| - 1]).Ok?;
    }
  }

  /** `find_table` fills a row exactly when every line of the cluster finds a
      header and no two of them find the same one. */
  lemma BuildRowOkIff(keyOf: TextLine -> Result<string>, ls: seq<TextLine>)
    ensures BuildRow(keyOf, ls).Ok? <==> KeysOk(keyOf, ls) && KeysDistinct(keyOf, ls)
  {
    if BuildRow(keyOf, ls).Ok? {
      BuildRowOk(keyOf, ls);
    } else if KeysOk(keyOf, ls) && KeysDistinct(keyOf, ls) {
      BuildRowOfKeys(keyOf, ls);
    }
  }

  /** Some line of the cluster finds no header, failing with `e`. */
  predicate KeyFails(keyOf: TextLine -> Result<string>, ls: seq<TextLine>, e: Error) {
    exists n | 0 <= n < |ls| :: keyOf(ls[n]) == Err(e)
  }

  /** Two lines of the cluster find the header `key`. */
  predicate KeyTwice(keyOf: TextLine -> Result<string>, ls: seq<TextLine>, key: string) {
    exists i, j | 0 <= i < j < |ls| :: keyOf(ls[i]) == Ok(key) && keyOf(ls[j]) == Ok(key)
  }

  /** A row that cannot be built fails with the error of a line that finds no
      header, or with `ValueError` naming a header that two lines found. */
  lemma {:induction false} BuildRowErr(keyOf: TextLine -> Result<string>, ls: seq<TextLine>)
    requires BuildRow(keyOf, ls).Err?
    ensures var e := BuildRow(keyOf, ls).error;
            KeyFails(keyOf, ls, e) || (e.DuplicateKey? && KeyTwice(keyOf, ls, e.key))
  {
    var pre, l := ls[..|ls| - 1], ls[|ls| - 1];
    var e := BuildRow(keyOf, ls).error;
    forall i | 0 <= i < |pre| ensures pre[i] == ls[i] { }
    if BuildRow(keyOf, pre).Err? {
      BuildRowErr(keyOf, pre);
      if KeyFails(keyOf, pre, e) {
        var n :| 0 <= n < |pre| && keyOf(pre[n]) == Err(e);
        assert keyOf(ls[n]) == Err(e);
      } else {
        var i, j :| 0 <= i < j < |pre| && keyOf(pre[i]) == Ok(e.key) && keyOf(pre[j]) == Ok(e.key);
        assert keyOf(ls[i]) == Ok(e.key) && keyOf(ls[j]) == Ok(e.key);
      }
    } else if keyOf(l).Err? {
      assert keyOf(ls[|ls| - 1]) == Err(e);
    } else {
      BuildRowOk(keyOf, pre);
      var key := keyOf(l).value;
      var i :| 0 <= i < |pre| && keyOf(pre[i]) == Ok(key);
      assert keyOf(ls[i]) == Ok(e.key);
      assert keyOf(ls[|ls| - 1]) == Ok(e.key);
    }
  }

  // ---- the rows of a table ----

  /** The rows of the clusters `keys`: one per cluster, each the row built from
      that cluster, as long as every cluster builds. */
  lemma {:induction false} TableRowsOk(keyOf: TextLine -> Result<string>, rowAttr: Attr, lines: seq<TextLine>, keys: seq<real>)
    ensures TableRows(keyOf, rowAttr, lines, keys).Ok? <==>
              forall i | 0 <= i < |keys| :: BuildRow(keyOf, Group(lines, rowAttr, keys[i])).Ok?
    ensures TableRows(keyOf, rowAttr, lines, keys).Ok? ==>
              var rows := TableRows(keyOf, rowAttr, lines, keys).value;
              && |rows| == |keys|
              && forall i | 0 <= i < |keys| :: BuildRow(keyOf, Group(lines, rowAttr, keys[i])) == Ok(rows[i])
  {
    if TableRows(keyOf, rowAttr, lines, keys).Ok? {
      TableRowsValues(keyOf, rowAttr, lines, keys);
    } else if forall i | 0 <= i < |keys| :: BuildRow(keyOf, Group(lines, rowAttr, keys[i])).Ok? {
      TableRowsBuild(keyOf, rowAttr, lines, keys);
    }
  }

  /** Built rows: one per cluster, each the row built from that cluster. */
  lemma {:induction false} TableRowsValues(keyOf: TextLine -> Result<string>, rowAttr: Attr, lines: seq<TextLine>, keys: seq<real>)
    requires TableRows(keyOf, rowAttr, lines, keys).Ok?
    ensures var rows := TableRows(keyOf, rowAttr, lines, keys).value;
            && |rows| == |keys|
            && forall i | 0 <= i < |keys| :: BuildRow(keyOf, Group(lines, rowAttr, keys[i])) == Ok(rows[i])
  {
    if keys != [] {
      var pre := keys[..|keys| - 1];
      TableRowsValues(keyOf, rowAttr, lines, pre);
      var prev := TableRows(keyOf, rowAttr, lines, pre).value;
      var rows := TableRows(keyOf, rowAttr, lines, keys).value;
      assert rows == prev + [BuildRow(keyOf, Group(lines, rowAttr, keys[|keys| - 1])).value];
      forall i | 0 <= i < |keys| ensures BuildRow(keyOf, Group(lines, rowAttr, keys[i])) == Ok(rows[i]) {
        if i < |pre| {
          assert pre[i] == keys[i] && rows[i] == prev[i];
        }
      }
    }
  }

  /** When every cluster builds, so does the table. */
  lemma {:induction false} TableRowsBuild(keyOf: TextLine -> Result<string>, rowAttr: Attr, lines: seq<TextLine>, keys: seq<real>)
    requires forall i | 0 <= i < |keys| :: BuildRow(keyOf, Group(lines, rowAttr, keys[i])).Ok?
    ensures TableRows(keyOf, rowAttr, lines, keys).Ok?
  {
    if keys != [] {
      var pre := keys[..|keys| - 1];
      forall i | 0 <= i < |pre| ensures BuildRow(keyOf, Group(lines, rowAttr, pre[i])).Ok? {
        assert pre[i] == keys[i];
      }
      TableRowsBuild(keyOf, rowAttr, lines, pre);
      assert BuildRow(keyOf, Group(lines, rowAttr, keys[|keys| - 1])).Ok?;
    }
  }

  /** A table that cannot be built fails with the error of the first cluster
      that cannot. */
  lemma {:induction false} TableRowsErr(keyOf: TextLine -> Result<string>, rowAttr: Attr, lines: seq<TextLine>, keys: seq<real>)
    requires TableRows(keyOf, rowAttr, lines, keys).Err?
    ensures exists i | 0 <= i < |keys| ::
              && BuildRow(keyOf, Group(lines, rowAttr, keys[i])) == Err(TableRows(keyOf, rowAttr, lines, keys).error)
              && forall j | 0 <= j < i :: BuildRow(keyOf, Group(lines, rowAttr, keys[j])).Ok?
  {
    var pre := keys[..|keys| - 1];
    forall i | 0 <= i < |pre| ensures pre[i] == keys[i] { }
    if TableRows(keyOf, rowAttr, lines, pre).Err? {
      TableRowsErr(keyOf, rowAttr, lines, pre);
    } else {
      TableRowsOk(keyOf, rowAttr, lines, pre);
      assert BuildRow(keyOf, Group(lines, rowAttr, keys[|keys| - 1])) == Err(TableRows(keyOf, rowAttr, lines, keys).error);
    }
  }

  /** The headers, sorted by column minimum as `find_table` does first. */
  function SortedHeaders(headers: seq<TextLine>, axes: Axes): seq<TextLine> {
    SortBy(headers, KeyOf(axes.colMin))
  }

  /** The cluster coordinates in the order `find_table` visits them. */
  function ClusterKeys(lines: seq<TextLine>, axes: Axes): seq<real> {
    RowKeys(ValuesOf(lines, axes.rowMin), axes.reverseSort)
  }

  /** `find_table`'s result in terms of the sorted headers and the visiting
      order of the clusters. */
  lemma TableUnfold(headers: seq<TextLine>, lines: seq<TextLine>, axes: Axes, headingBias: string)
    ensures BuiltTable(headers, lines, axes, headingBias)
            == TableRows(KeyFn(SortedHeaders(headers, axes), axes, headingBias), axes.rowMin, lines, ClusterKeys(lines, axes))
  {
  }

  /** Every line of the cluster finds a header, and no two the same one. */
  predicate ClusterBuilds(keyOf: TextLine -> Result<string>, ls: seq<TextLine>) {
    KeysOk(keyOf, ls) && KeysDistinct(keyOf, ls)
  }

  /** The rows of the clusters `keys` are built exactly when every one of
      those clusters builds. */
  lemma TableRowsOkIff(keyOf: TextLine -> Result<string>, rowAttr: Attr, lines: seq<TextLine>, keys: seq<real>)
    ensures TableRows(keyOf, rowAttr, lines, keys).Ok? <==>
              forall v | v in keys :: ClusterBuilds(keyOf, Group(lines, rowAttr, v))
  {
    TableRowsOk(keyOf, rowAttr, lines, keys);
    forall v ensures BuildRow(keyOf, Group(lines, rowAttr, v)).Ok? <==> ClusterBuilds(keyOf, Group(lines, rowAttr, v)) {
      BuildRowOkIff(keyOf, Group(lines, rowAttr, v));
    }
    if !TableRows(keyOf, rowAttr, lines, keys).Ok? {
      var i :| 0 <= i < |keys| && !BuildRow(keyOf, Group(lines, rowAttr, keys[i])).Ok?;
      assert keys[i] in keys;
    }
  }

  /** `find_table` succeeds exactly when, in every cluster, every line finds a
      header and no two lines find the same one. */
  lemma TableOkIff(headers: seq<TextLine>, lines: seq<TextLine>, axes: Axes, headingBias: string)
    ensures BuiltTable(headers, lines, axes, headingBias).Ok? <==>
              forall v | v in ValuesOf(lines, axes.rowMin) ::
                ClusterBuilds(KeyFn(SortedHeaders(headers, axes), axes, headingBias), Group(lines, axes.rowMin, v))
  {
    var keyOf := KeyFn(SortedHeaders(headers, axes), axes, headingBias);
    TableUnfold(headers, lines, axes, headingBias);
    TableRowsOkIff(keyOf, axes.rowMin, lines, ClusterKeys(lines, axes));
    RowKeysMembers(ValuesOf(lines, axes.rowMin), axes.reverseSort);
  }

  /** A table that cannot be built fails with the error of a line that finds
      no header, or with `ValueError` naming a header that two lines of one
      cluster found. */
  lemma TableRowsErrCause(keyOf: TextLine -> Result<string>, rowAttr: Attr, lines: seq<TextLine>, keys: seq<real>)
    requires TableRows(keyOf, rowAttr, lines, keys).Err?
    ensures var e := TableRows(keyOf, rowAttr, lines, keys).error;
            exists v | v in keys ::
              KeyFails(keyOf, Group(lines, rowAttr, v), e) || (e.DuplicateKey? && KeyTwice(keyOf, Group(lines, rowAttr, v), e.key))
  {
    TableRowsErr(keyOf, rowAttr, lines, keys);
    var e := TableRows(keyOf, rowAttr, lines, keys).error;
    var i :| 0 <= i < |keys| && BuildRow(keyOf, Group(lines, rowAttr, keys[i])) == Err(e);
    BuildRowErr(keyOf, Group(lines, rowAttr, keys[i]));
  }

  /** No line's header choice fails with `DuplicateKey`: only the row does. */
  lemma LineKeyFails(hs: seq<TextLine>, axes: Axes, headingBias: string, ls: seq<TextLine>, e: Error)
    requires KeyFails(KeyFn(hs, axes, headingBias), ls, e)
    ensures e in {AssertionFailed, UnrecognizedBias, EmptySequence, Tie}
  {
    var n :| 0 <= n < |ls| && KeyFn(hs, axes, headingBias)(ls[n]) == Err(e);
    assert LineKey(hs, axes, headingBias, ls[n]) == Err(e);
  }

  /** A failing `find_table` raises what `find_table` can raise: the
      assertion on a line's span, `ValueError` for an unknown bias, the
      builtin errors of `min`/`max`, or `ValueError` for a header that two
      lines of one cluster both found. */
  lemma TableErr(headers: seq<TextLine>, lines: seq<TextLine>, axes: Axes, headingBias: string)
    requires BuiltTable(headers, lines, axes, headingBias).Err?
    ensures var e := BuiltTable(headers, lines, axes, headingBias).error;
            || e in {AssertionFailed, UnrecognizedBias, EmptySequence, Tie}
            || (e.DuplicateKey? && exists v | v in ValuesOf(lines, axes.rowMin) ::
                  KeyTwice(KeyFn(SortedHeaders(headers, axes), axes, headingBias), Group(lines, axes.rowMin, v), e.key))
  {
    var hs, keys := SortedHeaders(headers, axes), ClusterKeys(lines, axes);
    var keyOf := KeyFn(hs, axes, headingBias);
    TableUnfold(headers, lines, axes, headingBias);
    var e := TableRows(keyOf, axes.rowMin, lines, keys).error;
    TableRowsErrCause(keyOf, axes.rowMin, lines, keys);
    RowKeysMembers(ValuesOf(lines, axes.rowMin), axes.reverseSort);
    var v :| v in keys && (KeyFails(keyOf, Group(lines, axes.rowMin, v), e) || (e.DuplicateKey? && KeyTwice(keyOf, Group(lines, axes.rowMin, v), e.key)));
    if KeyFails(keyOf, Group(lines, axes.rowMin, v), e) {
      LineKeyFails(hs, axes, headingBias, Group(lines, axes.rowMin, v), e);
    }
  }

  // ---- what a table holds ----

  /** `row` is the row of the cluster `v`: as large as the cluster, each entry
      a line of it stored under the header that line found. */
  predicate RowOfCluster(keyOf: TextLine -> Result<string>, rowAttr: Attr, lines: seq<TextLine>, v: real, row: map<string, TextLine>) {
    && |row| == |Group(lines, rowAttr, v)|
    && forall k | k in row :: row[k] in lines && Get(row[k], rowAttr) == v && keyOf(row[k]) == Ok(k)
  }

  lemma BuildRowShape(keyOf: TextLine -> Result<string>, rowAttr: Attr, lines: seq<TextLine>, v: real)
    requires BuildRow(keyOf, Group(lines, rowAttr, v)).Ok?
    ensures RowOfCluster(keyOf, rowAttr, lines, v, BuildRow(keyOf, Group(lines, rowAttr, v)).value)
  {
    var g := Group(lines, rowAttr, v);
    var row := BuildRow(keyOf, g).value;
    BuildRowOk(keyOf, g);
    GroupSpec(lines, rowAttr, v);
    forall k | k in row ensures row[k] in lines && Get(row[k], rowAttr) == v && keyOf(row[k]) == Ok(k) {
      var n :| 0 <= n < |g| && keyOf(g[n]) == Ok(k);
      assert g[n] in g;
    }
  }

  /** A line whose row coordinate is visited is stored in that cluster's row. */
  lemma RowsCover(keyOf: TextLine -> Result<string>, rowAttr: Attr, lines: seq<TextLine>, keys: seq<real>, l: TextLine)
    requires TableRows(keyOf, rowAttr, lines, keys).Ok?
    requires l in lines && Get(l, rowAttr) in keys
    ensures var rows := TableRows(keyOf, rowAttr, lines, keys).value;
            exists i, k | 0 <= i < |rows| && k in rows[i] :: rows[i][k] == l
  {
    TableRowsOk(keyOf, rowAttr, lines, keys);
    var rows := TableRows(keyOf, rowAttr, lines, keys).value;
    var i :| 0 <= i < |keys| && keys[i] == Get(l, rowAttr);
    var g := Group(lines, rowAttr, keys[i]);
    GroupSpec(lines, rowAttr, keys[i]);
    BuildRowOk(keyOf, g);
    var n :| 0 <= n < |g| && g[n] == l;
    assert keyOf(g[n]).value in rows[i] && rows[i][keyOf(g[n]).value] == l;
  }

  /** The number of entries in all rows together. */
  function EntryCount(rows: seq<map<string, TextLine>>): nat {
    if rows == [] then 0 else |rows[0]| + EntryCount(rows[1..])
  }

  lemma {:induction false} EntryCountConcat(rows: seq<map<string, TextLine>>, lines: seq<TextLine>, attr: Attr, keys: seq<real>)
    requires |rows| == |keys|
    requires forall i | 0 <= i < |keys| :: |rows[i]| == |Group(lines, attr, keys[i])|
    ensures EntryCount(rows) == |Concat(lines, attr, keys)|
  {
    if keys != [] {
      EntryCountConcat(rows[1..], lines, attr, keys[1..]);
    }
  }

  /** The groups of distinct keys that cover every line's value hold every
      line once. */
  lemma {:induction false} ConcatCovers(lines: seq<TextLine>, attr: Attr, keys: seq<real>)
    requires Distinct(keys)
    requires forall i | 0 <= i < |lines| :: Get(lines[i], attr) in keys
    ensures multiset(Concat(lines, attr, keys)) == multiset(lines)
  {
    if lines == [] {
      ConcatEmpty(attr, keys);
    } else {
      var pre, l := lines[..|lines| - 1], lines[|lines| - 1];
      assert forall i | 0 <= i < |pre| :: pre[i] == lines[i];
      ConcatCovers(pre, attr, keys);
      ConcatSnoc(pre, l, attr, keys);
      assert lines == pre + [l];
    }
  }

  lemma {:induction false} ConcatEmpty(attr: Attr, keys: seq<real>)
    ensures Concat([], attr, keys) == []
  {
    if keys != [] {
      ConcatEmpty(attr, keys[1..]);
    }
  }

  /** The rows of the clusters `keys`: one per key, each the row of its
      cluster. */
  lemma RowsShape(keyOf: TextLine -> Result<string>, rowAttr: Attr, lines: seq<TextLine>, keys: seq<real>)
    requires TableRows(keyOf, rowAttr, lines, keys).Ok?
    ensures var rows := TableRows(keyOf, rowAttr, lines, keys).value;
            && |rows| == |keys|
            && forall i | 0 <= i < |rows| :: RowOfCluster(keyOf, rowAttr, lines, keys[i], rows[i])
  {
    TableRowsOk(keyOf, rowAttr, lines, keys);
    var rows := TableRows(keyOf, rowAttr, lines, keys).value;
    forall i | 0 <= i < |rows| ensures RowOfCluster(keyOf, rowAttr, lines, keys[i], rows[i]) {
      BuildRowShape(keyOf, rowAttr, lines, keys[i]);
    }
  }

  /** The header a line finds is the text of one of the headers given. */
  lemma KeyIsHeaderText(headers: seq<TextLine>, axes: Axes, headingBias: string, l: TextLine, k: string)
    requires LineKey(SortedHeaders(headers, axes), axes, headingBias, l) == Ok(k)
    ensures exists h | h in headers :: h.text == k
  {
    var hs := SortedHeaders(headers, axes);
    var n :| 0 <= n < |hs| && hs[n].text == k;
    assert hs[n] in multiset(hs);
  }

  /** Where `find_table`'s rows come from: one row per distinct row coordinate,
      each as large as its cluster, each entry a line of that cluster stored
      under the text of a header, the one that line found. */
  lemma TableEntries(headers: seq<TextLine>, lines: seq<TextLine>, axes: Axes, headingBias: string)
    requires BuiltTable(headers, lines, axes, headingBias).Ok?
    ensures var rows, keys := BuiltTable(headers, lines, axes, headingBias).value, ClusterKeys(lines, axes);
            && |rows| == |ValuesOf(lines, axes.rowMin)| == |keys|
            && (forall i | 0 <= i < |rows| :: |rows[i]| == |Group(lines, axes.rowMin, keys[i])|)
            && forall i, k | 0 <= i < |rows| && k in rows[i] ::
                 && rows[i][k] in lines
                 && Get(rows[i][k], axes.rowMin) == keys[i]
                 && LineKey(SortedHeaders(headers, axes), axes, headingBias, rows[i][k]) == Ok(k)
                 && exists h | h in headers :: h.text == k
  {
    var hs, keys := SortedHeaders(headers, axes), ClusterKeys(lines, axes);
    var keyOf := KeyFn(hs, axes, headingBias);
    TableUnfold(headers, lines, axes, headingBias);
    RowsShape(keyOf, axes.rowMin, lines, keys);
    RowKeysMembers(ValuesOf(lines, axes.rowMin), axes.reverseSort);
    var rows := TableRows(keyOf, axes.rowMin, lines, keys).value;
    forall i | 0 <= i < |rows| ensures |rows[i]| == |Group(lines, axes.rowMin, keys[i])| {
      assert RowOfCluster(keyOf, axes.rowMin, lines, keys[i], rows[i]);
    }
    forall i, k | 0 <= i < |rows| && k in rows[i]
      ensures rows[i][k] in lines && Get(rows[i][k], axes.rowMin) == keys[i]
      ensures LineKey(hs, axes, headingBias, rows[i][k]) == Ok(k)
      ensures exists h | h in headers :: h.text == k
    {
      assert RowOfCluster(keyOf, axes.rowMin, lines, keys[i], rows[i]);
      assert keyOf(rows[i][k]) == Ok(k);
      KeyIsHeaderText(headers, axes, headingBias, rows[i][k], k);
    }
  }

  /** The rows run in the order `find_table` promises: by descending row
      coordinate when `reverse_sort` is set, ascending otherwise. */
  lemma TableOrder(headers: seq<TextLine>, lines: seq<TextLine>, axes: Axes, headingBias: string)
    requires BuiltTable(headers, lines, axes, headingBias).Ok?
    ensures var rows := BuiltTable(headers, lines, axes, headingBias).value;
            forall i, j, a, b | 0 <= i < j < |rows| && a in rows[i] && b in rows[j] ::
              if axes.reverseSort then Get(rows[i][a], axes.rowMin) > Get(rows[j][b], axes.rowMin)
              else Get(rows[i][a], axes.rowMin) < Get(rows[j][b], axes.rowMin)
  {
    var keys := ClusterKeys(lines, axes);
    var keyOf := KeyFn(SortedHeaders(headers, axes), axes, headingBias);
    TableUnfold(headers, lines, axes, headingBias);
    RowsShape(keyOf, axes.rowMin, lines, keys);
    ValuesOfSpec(lines, axes.rowMin);
    RowKeysOrder(ValuesOf(lines, axes.rowMin), axes.reverseSort);
    RowKeysMembers(ValuesOf(lines, axes.rowMin), axes.reverseSort);
    var rows := TableRows(keyOf, axes.rowMin, lines, keys).value;
    forall i, j, a, b | 0 <= i < j < |rows| && a in rows[i] && b in rows[j]
      ensures if axes.reverseSort then Get(rows[i][a], axes.rowMin) > Get(rows[j][b], axes.rowMin)
              else Get(rows[i][a], axes.rowMin) < Get(rows[j][b], axes.rowMin)
    {
      assert RowOfCluster(keyOf, axes.rowMin, lines, keys[i], rows[i]);
      assert RowOfCluster(keyOf, axes.rowMin, lines, keys[j], rows[j]);
    }
  }

  /** Every body line is stored in the table, and the table holds exactly as
      many entries as there are body lines: no line is stored twice. */
  lemma TableStoresEachLine(headers: seq<TextLine>, lines: seq<TextLine>, axes: Axes, headingBias: string)
    requires BuiltTable(headers, lines, axes, headingBias).Ok?
    ensures var rows := BuiltTable(headers, lines, axes, headingBias).value;
            && (forall l | l in lines :: exists i, k | 0 <= i < |rows| && k in rows[i] :: rows[i][k] == l)
            && EntryCount(rows) == |lines|
  {
    var hs, keys := SortedHeaders(headers, axes), ClusterKeys(lines, axes);
    var keyOf := KeyFn(hs, axes, headingBias);
    var values := ValuesOf(lines, axes.rowMin);
    TableUnfold(headers, lines, axes, headingBias);
    ValuesOfSpec(lines, axes.rowMin);
    RowKeysMembers(values, axes.reverseSort);
    RowKeysOrder(values, axes.reverseSort);
    var rows := TableRows(keyOf, axes.rowMin, lines, keys).value;
    forall l | l in lines ensures exists i, k | 0 <= i < |rows| && k in rows[i] :: rows[i][k] == l {
      var n :| 0 <= n < |lines| && lines[n] == l;
      RowsCover(keyOf, axes.rowMin, lines, keys, l);
    }
    RowsShape(keyOf, axes.rowMin, lines, keys);
    forall i | 0 <= i < |keys| ensures |rows[i]| == |Group(lines, axes.rowMin, keys[i])| {
      assert RowOfCluster(keyOf, axes.rowMin, lines, keys[i], rows[i]);
    }
    EntryCountConcat(rows, lines, axes.rowMin, keys);
    ConcatCovers(lines, axes.rowMin, keys);
    assert |multiset(Concat(lines, axes.rowMin, keys))| == |multiset(lines)|;
  }
}
