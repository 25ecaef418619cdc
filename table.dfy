/** The table builder: `find_table`, `find_row_table` and `find_col_table` of
    pdf2data/pdf.py. Body lines are clustered by their row coordinate; the
    clusters are visited in sorted order, and each line is stored in its
    cluster's row under the text of the header it belongs to. */
module Table {
  import opened Errors
  import opened Seqs
  import opened Geometry
  import opened TextLines
  import opened Selection
  import opened Lookup
  import opened Rows

  /** Which coordinates play the row and column roles, and whether the row
      clusters are visited in descending order (`reverse_sort`). */
  datatype Axes = Axes(rowMin: Attr, rowMax: Attr, colMin: Attr, colMax: Attr, reverseSort: bool)

  /** Rows run down the page: clusters by `y0`, columns along `x`, top row first. */
  const RowAxes := Axes(Y0, Y1, X0, X1, true)

  /** Rows run across the page: clusters by `x0`, columns along `y`, leftmost first. */
  const ColAxes := Axes(X0, X1, Y0, Y1, false)

  // ---- choosing the header of one line ----

  /** Overlap of a header's column span with the line's span `[lmin, lmax]`. */
  function OverlapWith(h: TextLine, axes: Axes, lmin: real, lmax: real): real
    requires lmin <= lmax
  {
    Overlap(Get(h, axes.colMin), Get(h, axes.colMax), lmin, lmax)
  }

  /** Positions (below `n`) of the headers the line overlaps: `possible_headers`. */
  function OverlapIndices(hs: seq<TextLine>, axes: Axes, lmin: real, lmax: real, n: nat): (r: seq<nat>)
    requires lmin <= lmax && n <= |hs|
    ensures forall i | 0 <= i < |r| :: r[i] < n && OverlapWith(hs[r[i]], axes, lmin, lmax) > 0.0
  {
    if n == 0 then []
    else
      OverlapIndices(hs, axes, lmin, lmax, n - 1)
      + (if OverlapWith(hs[n - 1], axes, lmin, lmax) != 0.0 then [n - 1] else [])
  }

  /** Positions (below `n`) of the headers starting at or before `lmin`. */
  function LeftIndices(hs: seq<TextLine>, axes: Axes, lmin: real, n: nat): (r: seq<nat>)
    requires n <= |hs|
    ensures forall i | 0 <= i < |r| :: r[i] < n && Get(hs[r[i]], axes.colMin) <= lmin
  {
    if n == 0 then []
    else
      LeftIndices(hs, axes, lmin, n - 1)
      + (if Get(hs[n - 1], axes.colMin) <= lmin then [n - 1] else [])
  }

  /** Positions listed in `pre`, all below `n - 1`, followed by possibly
      `n - 1`, are in increasing order. */
  lemma AppendIncreasing(pre: seq<nat>, tail: seq<nat>, n: nat)
    requires Increasing(pre) && forall i | 0 <= i < |pre| :: pre[i] < n - 1
    requires tail == [] || (n > 0 && tail == [n - 1])
    ensures Increasing(pre + tail)
  {
    var r := pre + tail;
    forall i, j | 0 <= i < j < |r| ensures r[i] < r[j] {
      if j < |pre| {
        assert r[i] == pre[i] && r[j] == pre[j];
      } else {
        assert r[i] == pre[i];
      }
    }
  }

  lemma {:induction false} OverlapIndicesIncreasing(hs: seq<TextLine>, axes: Axes, lmin: real, lmax: real, n: nat)
    requires lmin <= lmax && n <= |hs|
    ensures Increasing(OverlapIndices(hs, axes, lmin, lmax, n))
  {
    if n > 0 {
      OverlapIndicesIncreasing(hs, axes, lmin, lmax, n - 1);
      AppendIncreasing(OverlapIndices(hs, axes, lmin, lmax, n - 1),
        if OverlapWith(hs[n - 1], axes, lmin, lmax) != 0.0 then [n - 1] else [], n);
    }
  }

  lemma {:induction false} LeftIndicesIncreasing(hs: seq<TextLine>, axes: Axes, lmin: real, n: nat)
    requires n <= |hs|
    ensures Increasing(LeftIndices(hs, axes, lmin, n))
  {
    if n > 0 {
      LeftIndicesIncreasing(hs, axes, lmin, n - 1);
      AppendIncreasing(LeftIndices(hs, axes, lmin, n - 1),
        if Get(hs[n - 1], axes.colMin) <= lmin then [n - 1] else [], n);
    }
  }

  /** The column minimum of the headers at the positions `idx`. */
  function ColMins(hs: seq<TextLine>, axes: Axes, idx: seq<nat>): (r: seq<real>)
    requires forall i | 0 <= i < |idx| :: idx[i] < |hs|
    ensures |r| == |idx|
    ensures forall i | 0 <= i < |idx| :: r[i] == Get(hs[idx[i]], axes.colMin)
  {
    seq(|idx|, i requires 0 <= i < |idx| => Get(hs[idx[i]], axes.colMin))
  }

  /** Distance from a header's column centre to `center`. */
  function CenterDistance(h: TextLine, axes: Axes, center: real): real {
    Abs(0.5 * (Get(h, axes.colMin) + Get(h, axes.colMax)) - center)
  }

  function CenterDistances(hs: seq<TextLine>, axes: Axes, center: real): (r: seq<real>)
    ensures |r| == |hs|
    ensures forall k | 0 <= k < |hs| :: r[k] == CenterDistance(hs[k], axes, center)
  {
    seq(|hs|, k requires 0 <= k < |hs| => CenterDistance(hs[k], axes, center))
  }

  /** The header of a line that overlaps none: by `headingBias`, the header
      whose centre is nearest to the line's ("centered") or the last header
      starting at or before the line ("min"); any other bias is an error. */
  function FallbackHeader(hs: seq<TextLine>, axes: Axes, headingBias: string, lmin: real, lmax: real): (r: Result<string>)
    ensures r.Ok? ==> exists k | 0 <= k < |hs| :: hs[k].text == r.value
    ensures r.Err? ==> r.error in {UnrecognizedBias, EmptySequence, Tie}
    ensures r == Err(UnrecognizedBias) <==> headingBias != "centered" && headingBias != "min"
  {
    if headingBias == "centered" then
      var i :- ArgMin(CenterDistances(hs, axes, (lmin + lmax) * 0.5));
      Ok(hs[i].text)
    else if headingBias == "min" then
      var left := LeftIndices(hs, axes, lmin, |hs|);
      var j :- ArgMax(ColMins(hs, axes, left));
      Ok(hs[left[j]].text)
    else
      Err(UnrecognizedBias)
  }

  /** The header, among several the line overlaps (positions `possible`), with
      the smallest column minimum. */
  function LeftmostHeader(hs: seq<TextLine>, axes: Axes, possible: seq<nat>): (r: Result<string>)
    requires forall i | 0 <= i < |possible| :: possible[i] < |hs|
    ensures r.Ok? ==> exists i | 0 <= i < |possible| :: hs[possible[i]].text == r.value
    ensures r.Err? ==> r.error in {EmptySequence, Tie}
  {
    var j :- ArgMin(ColMins(hs, axes, possible));
    Ok(hs[possible[j]].text)
  }

  /** `possible_headers` is empty only when no header is overlapped. */
  lemma {:induction false} OverlapIndicesEmpty(hs: seq<TextLine>, axes: Axes, lmin: real, lmax: real, n: nat)
    requires lmin <= lmax && n <= |hs|
    ensures |OverlapIndices(hs, axes, lmin, lmax, n)| == 0 ==>
              forall k | 0 <= k < n :: OverlapWith(hs[k], axes, lmin, lmax) == 0.0
  {
    if n > 0 {
      OverlapIndicesEmpty(hs, axes, lmin, lmax, n - 1);
    }
  }

  /** Every overlapped header below `n` sits at some position of
      `possible_headers`. */
  lemma {:induction false} OverlapPosition(hs: seq<TextLine>, axes: Axes, lmin: real, lmax: real, m: nat, n: nat)
    requires lmin <= lmax && m < n <= |hs| && OverlapWith(hs[m], axes, lmin, lmax) > 0.0
    ensures exists b | 0 <= b < |OverlapIndices(hs, axes, lmin, lmax, n)| :: OverlapIndices(hs, axes, lmin, lmax, n)[b] == m
  {
    var pre := OverlapIndices(hs, axes, lmin, lmax, n - 1);
    var p := OverlapIndices(hs, axes, lmin, lmax, n);
    assert p == pre + (if OverlapWith(hs[n - 1], axes, lmin, lmax) != 0.0 then [n - 1] else []);
    if m == n - 1 {
      assert p[|pre|] == m;
    } else {
      OverlapPosition(hs, axes, lmin, lmax, m, n - 1);
      var b :| 0 <= b < |pre| && pre[b] == m;
      assert p[b] == m;
    }
  }

  /** Every header below `n` starting at or before `lmin` sits at some
      position of the "min" candidates. */
  lemma {:induction false} LeftPosition(hs: seq<TextLine>, axes: Axes, lmin: real, m: nat, n: nat)
    requires m < n <= |hs| && Get(hs[m], axes.colMin) <= lmin
    ensures exists b | 0 <= b < |LeftIndices(hs, axes, lmin, n)| :: LeftIndices(hs, axes, lmin, n)[b] == m
  {
    var pre := LeftIndices(hs, axes, lmin, n - 1);
    var p := LeftIndices(hs, axes, lmin, n);
    assert p == pre + (if Get(hs[n - 1], axes.colMin) <= lmin then [n - 1] else []);
    if m == n - 1 {
      assert p[|pre|] == m;
    } else {
      LeftPosition(hs, axes, lmin, m, n - 1);
      var b :| 0 <= b < |pre| && pre[b] == m;
      assert p[b] == m;
    }
  }

  /** The key of a line spanning `[lmin, lmax]`, among headers `hs` sorted by
      column minimum: the text of the one header it overlaps, of the leftmost
      of several, or of the fallback choice when it overlaps none. */
  function ChooseHeader(hs: seq<TextLine>, axes: Axes, headingBias: string, lmin: real, lmax: real): (r: Result<string>)
    requires lmin <= lmax
    ensures r.Ok? ==> exists k | 0 <= k < |hs| :: hs[k].text == r.value
    ensures r.Err? ==> r.error in {UnrecognizedBias, EmptySequence, Tie}
    // the bias is only looked at for a line that overlaps no header
    ensures r == Err(UnrecognizedBias) ==>
              headingBias != "centered" && headingBias != "min"
              && forall k | 0 <= k < |hs| :: OverlapWith(hs[k], axes, lmin, lmax) == 0.0
  {
    var possible := OverlapIndices(hs, axes, lmin, lmax, |hs|);
    if |possible| == 0 then
      OverlapIndicesEmpty(hs, axes, lmin, lmax, |hs|);
      FallbackHeader(hs, axes, headingBias, lmin, lmax)
    else if |possible| == 1 then
      Ok(hs[possible[0]].text)
    else
      LeftmostHeader(hs, axes, possible)
  }

  // ---- the header-choice rules ----

  function ColMin(h: TextLine, axes: Axes): real {
    Get(h, axes.colMin)
  }

  predicate Overlaps(h: TextLine, axes: Axes, lmin: real, lmax: real)
    requires lmin <= lmax
  {
    OverlapWith(h, axes, lmin, lmax) > 0.0
  }

  /** Header `k` overlaps the line and starts strictly before every other
      header the line overlaps. */
  predicate LeftmostOverlap(hs: seq<TextLine>, axes: Axes, lmin: real, lmax: real, k: nat)
    requires lmin <= lmax
  {
    k < |hs| && Overlaps(hs[k], axes, lmin, lmax)
    && forall j | 0 <= j < |hs| && j != k && Overlaps(hs[j], axes, lmin, lmax) :: ColMin(hs[k], axes) < ColMin(hs[j], axes)
  }

  /** Header `k`'s centre is strictly nearer to `center` than any other's. */
  predicate Nearest(hs: seq<TextLine>, axes: Axes, center: real, k: nat) {
    k < |hs| && forall j | 0 <= j < |hs| && j != k :: CenterDistance(hs[k], axes, center) < CenterDistance(hs[j], axes, center)
  }

  /** Header `k` starts at or before `lmin`, strictly after every other header
      that does. */
  predicate NearestLeft(hs: seq<TextLine>, axes: Axes, lmin: real, k: nat) {
    k < |hs| && ColMin(hs[k], axes) <= lmin
    && forall j | 0 <= j < |hs| && j != k && ColMin(hs[j], axes) <= lmin :: ColMin(hs[j], axes) < ColMin(hs[k], axes)
  }

  /** Two headers starting at the same position, at or before `lmin`. */
  predicate SharedLeftStart(hs: seq<TextLine>, axes: Axes, lmin: real, i: nat, j: nat) {
    i < j < |hs| && ColMin(hs[i], axes) <= lmin && ColMin(hs[i], axes) == ColMin(hs[j], axes)
  }

  /** No header overlapped: `possible_headers` is empty. */
  lemma {:induction false} NoOverlapIndices(hs: seq<TextLine>, axes: Axes, lmin: real, lmax: real, n: nat)
    requires lmin <= lmax && n <= |hs|
    requires forall k | 0 <= k < |hs| :: !Overlaps(hs[k], axes, lmin, lmax)
    ensures OverlapIndices(hs, axes, lmin, lmax, n) == []
  {
    if n > 0 {
      NoOverlapIndices(hs, axes, lmin, lmax, n - 1);
    }
  }

  /** Exactly header `k` overlapped: `possible_headers` holds it alone. */
  lemma {:induction false} OneOverlapIndices(hs: seq<TextLine>, axes: Axes, lmin: real, lmax: real, k: nat, n: nat)
    requires lmin <= lmax && n <= |hs| && k < |hs| && Overlaps(hs[k], axes, lmin, lmax)
    requires forall j | 0 <= j < |hs| && j != k :: !Overlaps(hs[j], axes, lmin, lmax)
    ensures k < n ==> OverlapIndices(hs, axes, lmin, lmax, n) == [k]
    ensures n <= k ==> OverlapIndices(hs, axes, lmin, lmax, n) == []
  {
    if n > 0 {
      var pre := OverlapIndices(hs, axes, lmin, lmax, n - 1);
      OneOverlapIndices(hs, axes, lmin, lmax, k, n - 1);
      var last := OverlapWith(hs[n - 1], axes, lmin, lmax);
      assert OverlapIndices(hs, axes, lmin, lmax, n) == pre + (if last != 0.0 then [n - 1] else []);
      if n - 1 == k {
        assert last != 0.0;
      } else {
        assert !Overlaps(hs[n - 1], axes, lmin, lmax);
        assert last == 0.0;
      }
    }
  }

  /** A line that overlaps no header gets the bias-driven fallback. */
  lemma ChooseNoOverlap(hs: seq<TextLine>, axes: Axes, headingBias: string, lmin: real, lmax: real)
    requires lmin <= lmax
    requires forall k | 0 <= k < |hs| :: !Overlaps(hs[k], axes, lmin, lmax)
    ensures ChooseHeader(hs, axes, headingBias, lmin, lmax) == FallbackHeader(hs, axes, headingBias, lmin, lmax)
  {
    NoOverlapIndices(hs, axes, lmin, lmax, |hs|);
  }

  /** A line that overlaps exactly one header gets that header's text,
      whatever the bias. */
  lemma ChooseOneOverlap(hs: seq<TextLine>, axes: Axes, headingBias: string, lmin: real, lmax: real, k: nat)
    requires lmin <= lmax && k < |hs| && Overlaps(hs[k], axes, lmin, lmax)
    requires forall j | 0 <= j < |hs| && j != k :: !Overlaps(hs[j], axes, lmin, lmax)
    ensures ChooseHeader(hs, axes, headingBias, lmin, lmax) == Ok(hs[k].text)
  {
    OneOverlapIndices(hs, axes, lmin, lmax, k, |hs|);
  }

  /** Headers picked in increasing position from a list sorted by column
      start have non-decreasing column starts. */
  lemma ColMinsAscending(hs: seq<TextLine>, axes: Axes, idx: seq<nat>)
    requires SortedBy(hs, KeyOf(axes.colMin))
    requires Increasing(idx) && forall i | 0 <= i < |idx| :: idx[i] < |hs|
    ensures NonDecreasing(ColMins(hs, axes, idx))
  {
    var ks := ColMins(hs, axes, idx);
    forall a, b | 0 <= a < b < |ks| ensures ks[a] <= ks[b] {
      assert idx[a] < idx[b];
    }
  }

  /** Among overlapped headers sorted by column start, `min` takes the first
      unless the second starts at the same position. */
  lemma LeftmostHeaderSorted(hs: seq<TextLine>, axes: Axes, possible: seq<nat>)
    requires SortedBy(hs, KeyOf(axes.colMin))
    requires Increasing(possible) && forall i | 0 <= i < |possible| :: possible[i] < |hs|
    requires |possible| >= 2
    ensures LeftmostHeader(hs, axes, possible)
            == if ColMin(hs[possible[1]], axes) == ColMin(hs[possible[0]], axes) then Err(Tie)
               else Ok(hs[possible[0]].text)
  {
    ColMinsAscending(hs, axes, possible);
    ArgMinAscending(ColMins(hs, axes, possible));
  }

  /** Over headers sorted by column start, the first overlapped header is
      leftmost exactly when the second starts strictly after it. */
  lemma FirstOverlapLeftmost(hs: seq<TextLine>, axes: Axes, lmin: real, lmax: real)
    requires lmin <= lmax && SortedBy(hs, KeyOf(axes.colMin))
    requires |OverlapIndices(hs, axes, lmin, lmax, |hs|)| >= 2
    ensures var p := OverlapIndices(hs, axes, lmin, lmax, |hs|);
            ColMin(hs[p[1]], axes) != ColMin(hs[p[0]], axes) ==> LeftmostOverlap(hs, axes, lmin, lmax, p[0])
    ensures var p := OverlapIndices(hs, axes, lmin, lmax, |hs|);
            ColMin(hs[p[1]], axes) == ColMin(hs[p[0]], axes) ==> forall k: nat :: !LeftmostOverlap(hs, axes, lmin, lmax, k)
  {
    var p := OverlapIndices(hs, axes, lmin, lmax, |hs|);
    OverlapIndicesIncreasing(hs, axes, lmin, lmax, |hs|);
    assert p[0] < p[1];
    assert Overlaps(hs[p[0]], axes, lmin, lmax) && Overlaps(hs[p[1]], axes, lmin, lmax);
    forall m | 0 <= m < |hs| && Overlaps(hs[m], axes, lmin, lmax)
      ensures ColMin(hs[p[0]], axes) <= ColMin(hs[m], axes)
      ensures m != p[0] ==> ColMin(hs[p[1]], axes) <= ColMin(hs[m], axes)
    {
      OverlapAfterFirst(hs, axes, lmin, lmax, m);
    }
  }

  /** Over headers sorted by column start, every overlapped header starts no
      earlier than the first overlapped one, and, unless it is the first, no
      earlier than the second. */
  lemma OverlapAfterFirst(hs: seq<TextLine>, axes: Axes, lmin: real, lmax: real, m: nat)
    requires lmin <= lmax && SortedBy(hs, KeyOf(axes.colMin))
    requires m < |hs| && Overlaps(hs[m], axes, lmin, lmax)
    ensures var p := OverlapIndices(hs, axes, lmin, lmax, |hs|);
            |p| > 0 && ColMin(hs[p[0]], axes) <= ColMin(hs[m], axes)
            && (m != p[0] ==> |p| > 1 && ColMin(hs[p[1]], axes) <= ColMin(hs[m], axes))
  {
    var p := OverlapIndices(hs, axes, lmin, lmax, |hs|);
    OverlapPosition(hs, axes, lmin, lmax, m, |hs|);
    var b :| 0 <= b < |p| && p[b] == m;
    OverlapIndicesIncreasing(hs, axes, lmin, lmax, |hs|);
    ColMinsAscending(hs, axes, p);
    NonDecreasingFront(ColMins(hs, axes, p), b);
  }

  /** A line that overlaps several headers (sorted by column start) gets the
      text of the one that starts strictly first, and raises when no single
      one does. */
  lemma ChooseSeveralOverlaps(hs: seq<TextLine>, axes: Axes, headingBias: string, lmin: real, lmax: real, i: nat, j: nat)
    requires lmin <= lmax && SortedBy(hs, KeyOf(axes.colMin))
    requires i < j < |hs| && Overlaps(hs[i], axes, lmin, lmax) && Overlaps(hs[j], axes, lmin, lmax)
    ensures var r := ChooseHeader(hs, axes, headingBias, lmin, lmax);
            (r.Ok? <==> exists k: nat :: LeftmostOverlap(hs, axes, lmin, lmax, k))
            && (r.Ok? ==> exists k: nat :: LeftmostOverlap(hs, axes, lmin, lmax, k) && r.value == hs[k].text)
            && (r.Err? ==> r.error == Tie)
  {
    var p := OverlapIndices(hs, axes, lmin, lmax, |hs|);
    TwoOverlapIndices(hs, axes, lmin, lmax, i, j);
    assert ChooseHeader(hs, axes, headingBias, lmin, lmax) == LeftmostHeader(hs, axes, p);
    OverlapIndicesIncreasing(hs, axes, lmin, lmax, |hs|);
    LeftmostHeaderSorted(hs, axes, p);
    FirstOverlapLeftmost(hs, axes, lmin, lmax);
    if ColMin(hs[p[1]], axes) != ColMin(hs[p[0]], axes) {
      assert LeftmostOverlap(hs, axes, lmin, lmax, p[0]);
    }
  }

  /** Two overlapped headers put two positions in `possible_headers`. */
  lemma TwoOverlapIndices(hs: seq<TextLine>, axes: Axes, lmin: real, lmax: real, i: nat, j: nat)
    requires lmin <= lmax
    requires i < j < |hs| && Overlaps(hs[i], axes, lmin, lmax) && Overlaps(hs[j], axes, lmin, lmax)
    ensures |OverlapIndices(hs, axes, lmin, lmax, |hs|)| >= 2
  {
    var p := OverlapIndices(hs, axes, lmin, lmax, |hs|);
    OverlapPosition(hs, axes, lmin, lmax, i, |hs|);
    OverlapPosition(hs, axes, lmin, lmax, j, |hs|);
    var a :| 0 <= a < |p| && p[a] == i;
    var b :| 0 <= b < |p| && p[b] == j;
    assert a != b;
  }

  /** Under the "centered" bias, the fallback is the header whose centre is
      strictly nearest to the line's; no headers at all raise, and so does a
      distance equal to the smallest one before it. */
  lemma FallbackCentered(hs: seq<TextLine>, axes: Axes, lmin: real, lmax: real)
    ensures var r, ds := FallbackHeader(hs, axes, "centered", lmin, lmax), CenterDistances(hs, axes, (lmin + lmax) * 0.5);
            (r == Err(EmptySequence) <==> |hs| == 0)
            && (r.Err? ==> r.error == EmptySequence || r.error == Tie)
            && (r.Ok? ==> exists k: nat :: Nearest(hs, axes, (lmin + lmax) * 0.5, k) && r.value == hs[k].text)
            && (|hs| > 0 && Distinct(ds) ==> r.Ok?)
            && (r == Err(Tie) <==> exists j | 0 <= j < |ds| :: TiesRunningBest(ds, false, j))
  {
    var r := FallbackHeader(hs, axes, "centered", lmin, lmax);
    if r.Ok? {
      var k := ArgMin(CenterDistances(hs, axes, (lmin + lmax) * 0.5)).value;
      assert Nearest(hs, axes, (lmin + lmax) * 0.5, k);
    }
  }

  /** No candidate for the "min" fallback exactly when every header starts
      after the line. */
  lemma {:induction false} LeftEmpty(hs: seq<TextLine>, axes: Axes, lmin: real, n: nat)
    requires n <= |hs|
    ensures |LeftIndices(hs, axes, lmin, n)| == 0 <==> forall k | 0 <= k < n :: ColMin(hs[k], axes) > lmin
  {
    if n > 0 {
      LeftEmpty(hs, axes, lmin, n - 1);
    }
  }

  /** Candidates whose starts strictly increase never share a start. */
  lemma StrictLeftNotShared(hs: seq<TextLine>, axes: Axes, lmin: real, i: nat, j: nat)
    requires StrictlyIncreasing(ColMins(hs, axes, LeftIndices(hs, axes, lmin, |hs|)))
    ensures !SharedLeftStart(hs, axes, lmin, i, j)
  {
    if i < j < |hs| && ColMin(hs[i], axes) <= lmin && ColMin(hs[j], axes) <= lmin {
      var left := LeftIndices(hs, axes, lmin, |hs|);
      var ks := ColMins(hs, axes, left);
      LeftPosition(hs, axes, lmin, i, |hs|);
      LeftPosition(hs, axes, lmin, j, |hs|);
      var a :| 0 <= a < |left| && left[a] == i;
      var b :| 0 <= b < |left| && left[b] == j;
      LeftIndicesIncreasing(hs, axes, lmin, |hs|);
      assert ks[a] < ks[b];
    }
  }

  /** Over headers sorted by column start, the candidates' starts strictly
      increase exactly when no two candidates start at the same position. */
  lemma LeftStrict(hs: seq<TextLine>, axes: Axes, lmin: real)
    requires SortedBy(hs, KeyOf(axes.colMin))
    ensures StrictlyIncreasing(ColMins(hs, axes, LeftIndices(hs, axes, lmin, |hs|)))
            <==> !exists i: nat, j: nat :: SharedLeftStart(hs, axes, lmin, i, j)
  {
    var left := LeftIndices(hs, axes, lmin, |hs|);
    var ks := ColMins(hs, axes, left);
    if StrictlyIncreasing(ks) {
      forall i: nat, j: nat ensures !SharedLeftStart(hs, axes, lmin, i, j) {
        StrictLeftNotShared(hs, axes, lmin, i, j);
      }
    } else {
      LeftIndicesIncreasing(hs, axes, lmin, |hs|);
      ColMinsAscending(hs, axes, left);
      var a, b :| 0 <= a < b < |ks| && !(ks[a] < ks[b]);
      assert left[a] < left[b];
      assert SharedLeftStart(hs, axes, lmin, left[a], left[b]);
    }
  }

  /** When the candidates' starts strictly increase, the last candidate is
      the one starting last at or before the line. */
  lemma LastLeftNearest(hs: seq<TextLine>, axes: Axes, lmin: real)
    requires |LeftIndices(hs, axes, lmin, |hs|)| > 0
    requires StrictlyIncreasing(ColMins(hs, axes, LeftIndices(hs, axes, lmin, |hs|)))
    ensures var left := LeftIndices(hs, axes, lmin, |hs|); NearestLeft(hs, axes, lmin, left[|left| - 1])
  {
    var left := LeftIndices(hs, axes, lmin, |hs|);
    var ks := ColMins(hs, axes, left);
    var k := left[|left| - 1];
    forall m | 0 <= m < |hs| && m != k && ColMin(hs[m], axes) <= lmin
      ensures ColMin(hs[m], axes) < ColMin(hs[k], axes)
    {
      LeftPosition(hs, axes, lmin, m, |hs|);
      var b :| 0 <= b < |left| && left[b] == m;
      assert ks[b] < ks[|left| - 1];
    }
  }

  /** Under the "min" bias, with headers sorted by column start, the fallback
      is the header that starts last at or before the line. It raises when no
      header starts that early, and also whenever two such headers start at
      the same position, even if neither is the last. */
  lemma FallbackMin(hs: seq<TextLine>, axes: Axes, lmin: real, lmax: real)
    requires SortedBy(hs, KeyOf(axes.colMin))
    ensures var r := FallbackHeader(hs, axes, "min", lmin, lmax);
            (r == Err(EmptySequence) <==> forall k | 0 <= k < |hs| :: ColMin(hs[k], axes) > lmin)
            && (r == Err(Tie) <==> exists i: nat, j: nat :: SharedLeftStart(hs, axes, lmin, i, j))
            && (r.Ok? ==> exists k: nat :: NearestLeft(hs, axes, lmin, k) && r.value == hs[k].text)
            && (r.Err? ==> r.error == EmptySequence || r.error == Tie)
  {
    var left := LeftIndices(hs, axes, lmin, |hs|);
    FallbackMinLast(hs, axes, lmin, lmax);
    LeftEmpty(hs, axes, lmin, |hs|);
    LeftStrict(hs, axes, lmin);
    if |left| > 0 && StrictlyIncreasing(ColMins(hs, axes, left)) {
      LastLeftNearest(hs, axes, lmin);
    }
  }

  /** Under the "min" bias, with headers sorted by column start, `max` takes
      the last candidate, unless two candidates start at the same position. */
  lemma FallbackMinLast(hs: seq<TextLine>, axes: Axes, lmin: real, lmax: real)
    requires SortedBy(hs, KeyOf(axes.colMin))
    ensures var left := LeftIndices(hs, axes, lmin, |hs|);
            FallbackHeader(hs, axes, "min", lmin, lmax)
            == if |left| == 0 then Err(EmptySequence)
               else if StrictlyIncreasing(ColMins(hs, axes, left)) then Ok(hs[left[|left| - 1]].text)
               else Err(Tie)
  {
    var left := LeftIndices(hs, axes, lmin, |hs|);
    if |left| > 0 {
      LeftIndicesIncreasing(hs, axes, lmin, |hs|);
      ColMinsAscending(hs, axes, left);
      ArgMaxAscending(ColMins(hs, axes, left));
    }
  }

  /** The bias only matters for a line that overlaps no header; any bias other
      than "centered" and "min" is then rejected. */
  lemma ChooseBias(hs: seq<TextLine>, axes: Axes, bias1: string, bias2: string, lmin: real, lmax: real)
    requires lmin <= lmax
    ensures (exists k | 0 <= k < |hs| :: Overlaps(hs[k], axes, lmin, lmax)) ==>
              ChooseHeader(hs, axes, bias1, lmin, lmax) == ChooseHeader(hs, axes, bias2, lmin, lmax)
    ensures (forall k | 0 <= k < |hs| :: !Overlaps(hs[k], axes, lmin, lmax)) && bias1 != "centered" && bias1 != "min" ==>
              ChooseHeader(hs, axes, bias1, lmin, lmax) == Err(UnrecognizedBias)
  {
    if forall k | 0 <= k < |hs| :: !Overlaps(hs[k], axes, lmin, lmax) {
      ChooseNoOverlap(hs, axes, bias1, lmin, lmax);
    } else {
      var k :| 0 <= k < |hs| && Overlaps(hs[k], axes, lmin, lmax);
      OverlapPosition(hs, axes, lmin, lmax, k, |hs|);
    }
  }

  /** The key of body line `l`, after the code's assertion that its column
      span is well-formed. */
  function LineKey(hs: seq<TextLine>, axes: Axes, headingBias: string, l: TextLine): (r: Result<string>)
    ensures r == Err(AssertionFailed) <==> Get(l, axes.colMin) > Get(l, axes.colMax)
    ensures r.Err? ==> r.error in {AssertionFailed, UnrecognizedBias, EmptySequence, Tie}
    ensures r.Ok? ==> exists k | 0 <= k < |hs| :: hs[k].text == r.value
  {
    var lmin := Get(l, axes.colMin);
    var lmax := Get(l, axes.colMax);
    if lmin <= lmax then ChooseHeader(hs, axes, headingBias, lmin, lmax) else Err(AssertionFailed)
  }

  // ---- rows and tables ----

  /** The header choice of one table, as a function of the line. */
  function KeyFn(hs: seq<TextLine>, axes: Axes, headingBias: string): TextLine -> Result<string> {
    l => LineKey(hs, axes, headingBias, l)
  }

  /** The row dict built from the lines of one cluster, each stored under
      `keyOf` of it, or the first error. */
  function BuildRow(keyOf: TextLine -> Result<string>, ls: seq<TextLine>): Result<map<string, TextLine>> {
    if ls == [] then Ok(map[])
    else
      var row :- BuildRow(keyOf, ls[..|ls| - 1]);
      var l := ls[|ls| - 1];
      var key :- keyOf(l);
      if key in row then Err(DuplicateKey(key)) else Ok(row[key := l])
  }

  /** The rows of the clusters `keys` of `lines`, in that order, or the first error. */
  function TableRows(keyOf: TextLine -> Result<string>, rowAttr: Attr, lines: seq<TextLine>, keys: seq<real>)
    : Result<seq<map<string, TextLine>>>
  {
    if keys == [] then Ok([])
    else
      var rows :- TableRows(keyOf, rowAttr, lines, keys[..|keys| - 1]);
      var row :- BuildRow(keyOf, Group(lines, rowAttr, keys[|keys| - 1]));
      Ok(rows + [row])
  }

  /** The order in which `sorted(..., reverse=reverse)` puts distinct numbers. */
  function RowOrder(reverse: bool): real -> real {
    if reverse then (v: real) => -v else (v: real) => v
  }

  /** The cluster coordinates in visiting order. */
  function RowKeys(values: seq<real>, reverse: bool): seq<real> {
    SortBy(values, RowOrder(reverse))
  }

  /** The cluster coordinates are visited each exactly as often as they occur. */
  lemma RowKeysMembers(values: seq<real>, reverse: bool)
    ensures |RowKeys(values, reverse)| == |values|
    ensures forall v :: v in RowKeys(values, reverse) <==> v in values
  {
    var ks := RowKeys(values, reverse);
    forall v ensures v in ks <==> v in values {
      assert v in ks <==> v in multiset(ks);
      assert v in values <==> v in multiset(values);
    }
  }

  lemma RowKeyIn(values: seq<real>, reverse: bool, i: nat)
    requires i < |RowKeys(values, reverse)|
    ensures RowKeys(values, reverse)[i] in values
  {
    var ks := RowKeys(values, reverse);
    assert ks[i] in multiset(ks);
  }

  /** Distinct coordinates are visited descending when `reverse` is set and
      ascending otherwise. */
  lemma RowKeysOrder(values: seq<real>, reverse: bool)
    requires Distinct(values)
    ensures Distinct(RowKeys(values, reverse))
    ensures forall i, j | 0 <= i < j < |values| ::
              if reverse then RowKeys(values, reverse)[i] > RowKeys(values, reverse)[j]
              else RowKeys(values, reverse)[i] < RowKeys(values, reverse)[j]
  {
    var ks := RowKeys(values, reverse);
    SortByDistinct(values, RowOrder(reverse));
    forall i, j | 0 <= i < j < |values|
      ensures if reverse then ks[i] > ks[j] else ks[i] < ks[j]
    {
      assert RowOrder(reverse)(ks[i]) <= RowOrder(reverse)(ks[j]);
      assert ks[i] != ks[j];
    }
  }

  /** Reference definition of what `find_table` returns. */
  function BuiltTable(headers: seq<TextLine>, lines: seq<TextLine>, axes: Axes, headingBias: string)
    : Result<seq<map<string, TextLine>>>
  {
    var hs := SortBy(headers, KeyOf(axes.colMin));
    TableRows(KeyFn(hs, axes, headingBias), axes.rowMin, lines, RowKeys(ValuesOf(lines, axes.rowMin), axes.reverseSort))
  }

  // ---- the imperative builder ----

  lemma {:induction false} BuildRowPrefixErr(keyOf: TextLine -> Result<string>, ls: seq<TextLine>, m: nat)
    requires m <= |ls| && BuildRow(keyOf, ls[..m]).Err?
    ensures BuildRow(keyOf, ls) == BuildRow(keyOf, ls[..m])
    decreases |ls|
  {
    if m < |ls| {
      var pre := ls[..|ls| - 1];
      assert pre[..m] == ls[..m];
      BuildRowPrefixErr(keyOf, pre, m);
    } else {
      assert ls[..m] == ls;
    }
  }

  lemma {:induction false} TableRowsPrefixErr(keyOf: TextLine -> Result<string>, rowAttr: Attr, lines: seq<TextLine>, keys: seq<real>, m: nat)
    requires m <= |keys| && TableRows(keyOf, rowAttr, lines, keys[..m]).Err?
    ensures TableRows(keyOf, rowAttr, lines, keys) == TableRows(keyOf, rowAttr, lines, keys[..m])
    decreases |keys|
  {
    if m < |keys| {
      var pre := keys[..|keys| - 1];
      assert pre[..m] == keys[..m];
      TableRowsPrefixErr(keyOf, rowAttr, lines, pre, m);
    } else {
      assert keys[..m] == keys;
    }
  }

  /** The inner loop of `find_table`: a fresh row holding each line of one
      cluster under its header's text, or the error of the first line that
      raises. */
  method FillRow(hs: seq<TextLine>, axes: Axes, headingBias: string, rowLines: seq<TextLine>)
    returns (row: Row, err: Option<Error>)
    ensures fresh(row)
    ensures err.None? ==> BuildRow(KeyFn(hs, axes, headingBias), rowLines) == Ok(row.entries)
    ensures err.Some? ==> BuildRow(KeyFn(hs, axes, headingBias), rowLines) == Err(err.value)
  {
    row := new Row();
    ghost var keyOf := KeyFn(hs, axes, headingBias);
    var j := 0;
    while j < |rowLines|
      invariant 0 <= j <= |rowLines|
      invariant BuildRow(keyOf, rowLines[..j]) == Ok(row.entries)
    {
      var l := rowLines[j];
      BuildRowStep(keyOf, rowLines, j, row.entries);
      var lmin := Get(l, axes.colMin);
      var lmax := Get(l, axes.colMax);
      if !(lmin <= lmax) {
        assert keyOf(l) == Err(AssertionFailed);
        err := Some(AssertionFailed);
      } else {
        var key := ChooseHeader(hs, axes, headingBias, lmin, lmax);
        assert keyOf(l) == key;
        if key.Err? {
          err := Some(key.error);
        } else if key.value in row.entries {
          err := Some(DuplicateKey(key.value));
        } else {
          row.entries := row.entries[key.value := l];
          j := j + 1;
          continue;
        }
      }
      // this line raised, so the whole cluster does
      BuildRowPrefixErr(keyOf, rowLines, j + 1);
      return;
    }
    assert rowLines[..j] == rowLines;
    err := None;
  }

  /** One more line: the row built from the lines before it, extended by the
      line under its key unless the key is taken or cannot be found. */
  lemma BuildRowStep(keyOf: TextLine -> Result<string>, ls: seq<TextLine>, j: nat, row: map<string, TextLine>)
    requires j < |ls| && BuildRow(keyOf, ls[..j]) == Ok(row)
    ensures keyOf(ls[j]).Err? ==> BuildRow(keyOf, ls[..j + 1]) == Err(keyOf(ls[j]).error)
    ensures keyOf(ls[j]).Ok? && keyOf(ls[j]).value in row ==> BuildRow(keyOf, ls[..j + 1]) == Err(DuplicateKey(keyOf(ls[j]).value))
    ensures keyOf(ls[j]).Ok? && keyOf(ls[j]).value !in row ==> BuildRow(keyOf, ls[..j + 1]) == Ok(row[keyOf(ls[j]).value := ls[j]])
  {
    assert ls[..j + 1][..j] == ls[..j];
  }

  /** One more cluster: the rows so far, then the new cluster's row. */
  lemma TableRowsStep(keyOf: TextLine -> Result<string>, rowAttr: Attr, lines: seq<TextLine>, keys: seq<real>, i: nat)
    requires i < |keys|
    ensures TableRows(keyOf, rowAttr, lines, keys[..i + 1])
            == (var rows :- TableRows(keyOf, rowAttr, lines, keys[..i]);
                var row :- BuildRow(keyOf, Group(lines, rowAttr, keys[i]));
                Ok(rows + [row]))
  {
    assert keys[..i + 1][..i] == keys[..i];
  }

  /** The outer loop of `find_table`: one fresh row per cluster key, in the
      order of `keys`, or the error of the first line that raises. */
  method FillRows(hs: seq<TextLine>, axes: Axes, headingBias: string, lines: seq<TextLine>, rowLookup: AttrDict, keys: seq<real>)
    returns (r: Result<seq<Row>>)
    requires rowLookup == AttrLookup(lines, axes.rowMin)
    requires forall i | 0 <= i < |keys| :: keys[i] in rowLookup.keys
    ensures r.Ok? ==> TableRows(KeyFn(hs, axes, headingBias), axes.rowMin, lines, keys) == Ok(Contents(r.value))
    ensures r.Err? ==> TableRows(KeyFn(hs, axes, headingBias), axes.rowMin, lines, keys) == Err(r.error)
    ensures r.Ok? ==> Distinct(r.value) && forall k | 0 <= k < |r.value| :: fresh(r.value[k])
  {
    var rows: seq<Row> := [];
    var i := 0;
    while i < |keys|
      invariant 0 <= i <= |keys| && |rows| == i
      invariant Distinct(rows) && forall k | 0 <= k < i :: fresh(rows[k])
      invariant TableRows(KeyFn(hs, axes, headingBias), axes.rowMin, lines, keys[..i]) == Ok(Contents(rows))
    {
      AttrLookupGroup(lines, axes.rowMin, keys[i]);
      var rowLines := rowLookup.groups[keys[i]];
      var row, err := FillRow(hs, axes, headingBias, rowLines);
      TableRowsStep(KeyFn(hs, axes, headingBias), axes.rowMin, lines, keys, i);
      if err.Some? {
        TableRowsPrefixErr(KeyFn(hs, axes, headingBias), axes.rowMin, lines, keys, i + 1);
        r := Err(err.value);
        return;
      }
      assert Contents(rows + [row]) == Contents(rows) + [row.entries];
      rows := rows + [row];
      i := i + 1;
    }
    assert keys[..i] == keys;
    r := Ok(rows);
  }

  /** `find_table`: sorts the headers by column minimum, clusters the body
      lines by row minimum, and fills one fresh row per cluster, in sorted
      cluster order, rejecting a second line for a key already in the row. */
  method FindTable(headers: seq<TextLine>, lines: seq<TextLine>, axes: Axes, headingBias: string := "centered")
    returns (r: Result<seq<Row>>)
    ensures r.Ok? <==> BuiltTable(headers, lines, axes, headingBias).Ok?
    ensures r.Err? ==> BuiltTable(headers, lines, axes, headingBias) == Err(r.error)
    ensures r.Ok? ==> Contents(r.value) == BuiltTable(headers, lines, axes, headingBias).value
    ensures r.Ok? ==> Distinct(r.value) && forall k | 0 <= k < |r.value| :: fresh(r.value[k])
  {
    var hs := SortBy(headers, KeyOf(axes.colMin));
    var rowLookup := GetAttrLookup(lines, axes.rowMin);
    var keys := RowKeys(rowLookup.keys, axes.reverseSort);
    forall i | 0 <= i < |keys| ensures keys[i] in rowLookup.keys {
      RowKeyIn(rowLookup.keys, axes.reverseSort, i);
    }
    r := FillRows(hs, axes, headingBias, lines, rowLookup, keys);
  }

  /** `find_row_table`: rows run down the page, top row first. */
  method FindRowTable(headers: seq<TextLine>, lines: seq<TextLine>, headingBias: string := "centered")
    returns (r: Result<seq<Row>>)
    ensures r.Ok? <==> BuiltTable(headers, lines, RowAxes, headingBias).Ok?
    ensures r.Err? ==> BuiltTable(headers, lines, RowAxes, headingBias) == Err(r.error)
    ensures r.Ok? ==> Contents(r.value) == BuiltTable(headers, lines, RowAxes, headingBias).value
    ensures r.Ok? ==> Distinct(r.value) && forall k | 0 <= k < |r.value| :: fresh(r.value[k])
  {
    r := FindTable(headers, lines, RowAxes, headingBias);
  }

  /** `find_col_table`: rows run across the page, leftmost first. */
  method FindColTable(headers: seq<TextLine>, lines: seq<TextLine>, headingBias: string := "centered")
    returns (r: Result<seq<Row>>)
    ensures r.Ok? <==> BuiltTable(headers, lines, ColAxes, headingBias).Ok?
    ensures r.Err? ==> BuiltTable(headers, lines, ColAxes, headingBias) == Err(r.error)
    ensures r.Ok? ==> Contents(r.value) == BuiltTable(headers, lines, ColAxes, headingBias).value
    ensures r.Ok? ==> Distinct(r.value) && forall k | 0 <= k < |r.value| :: fresh(r.value[k])
  {
    r := FindTable(headers, lines, ColAxes, headingBias);
  }
}
