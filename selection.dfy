/** Python builtins that the table builder leans on, with their exact
    behaviour on the inputs the engine gives them.

    `min` and `max` are applied to `(number, TextLine)` tuples. Comparing two
    tuples whose numbers are equal goes on to compare the TextLine objects,
    which define no ordering: that raises `TypeError` (`Tie`). An empty
    argument raises `ValueError` (`EmptySequence`). `sorted` is stable. */
module Selection {
  import opened Errors
  import opened Seqs

  /** Whether `a` replaces `b` as the running best of a scan. */
  predicate Beats(a: real, b: real, wantMax: bool) {
    if wantMax then a > b else a < b
  }

  /** The number at `j` equals the running best of a scan over the numbers
      before it: it equals one of them and none of them beats it. This is
      where builtin `min`/`max` go on to compare the paired objects. */
  predicate TiesRunningBest(ks: seq<real>, wantMax: bool, j: nat)
    requires j < |ks|
  {
    (exists p | 0 <= p < j :: ks[p] == ks[j]) && forall q | 0 <= q < j :: !Beats(ks[q], ks[j], wantMax)
  }

  /** The scan of builtin `min`/`max` from position `i` on, `best` being the
      running best so far. */
  function Scan(ks: seq<real>, wantMax: bool, best: nat, i: nat): (r: Result<nat>)
    requires best < i <= |ks|
    decreases |ks| - i
    ensures r.Err? ==> r.error == Tie
    // a result strictly beats every other number
    ensures BestSoFar(ks, wantMax, best, i) ==>
              r.Ok? ==> r.value < |ks| && forall j | 0 <= j < |ks| && j != r.value :: Beats(ks[r.value], ks[j], wantMax)
    // numbers that are all distinct never tie
    ensures Distinct(ks) ==> r.Ok?
    // the scan raises exactly when a later number ties with the running best
    ensures BestSoFar(ks, wantMax, best, i) ==>
              (r.Err? <==> exists j | i <= j < |ks| :: TiesRunningBest(ks, wantMax, j))
  {
    if i == |ks| then Ok(best)
    else
      TieAt(ks, wantMax, best, i);
      if ks[i] == ks[best] then Err(Tie)
      else if Beats(ks[i], ks[best], wantMax) then Scan(ks, wantMax, i, i + 1)
      else Scan(ks, wantMax, best, i + 1)
  }

  /** `best` strictly beats every other number before `i`. */
  predicate BestSoFar(ks: seq<real>, wantMax: bool, best: nat, i: nat)
    requires best < i <= |ks|
  {
    forall j | 0 <= j < i && j != best :: Beats(ks[best], ks[j], wantMax)
  }

  /** The number at `i` ties with the running best exactly when it equals the
      best number so far. */
  lemma TieAt(ks: seq<real>, wantMax: bool, best: nat, i: nat)
    requires best < i < |ks|
    ensures BestSoFar(ks, wantMax, best, i) ==> (TiesRunningBest(ks, wantMax, i) <==> ks[i] == ks[best])
  {
  }

  /** Position of the entry builtin `min` returns, over a sequence of numbers
      each paired with a distinct object. */
  function ArgMin(ks: seq<real>): (r: Result<nat>)
    ensures r == Err(EmptySequence) <==> |ks| == 0
    ensures r.Err? ==> r.error == EmptySequence || r.error == Tie
    ensures r.Ok? ==> r.value < |ks| && forall j | 0 <= j < |ks| && j != r.value :: ks[r.value] < ks[j]
    ensures |ks| > 0 && Distinct(ks) ==> r.Ok?
    ensures r == Err(Tie) <==> exists j | 0 <= j < |ks| :: TiesRunningBest(ks, false, j)
  {
    if |ks| == 0 then Err(EmptySequence) else Scan(ks, false, 0, 1)
  }

  /** Position of the entry builtin `max` returns, likewise. */
  function ArgMax(ks: seq<real>): (r: Result<nat>)
    ensures r == Err(EmptySequence) <==> |ks| == 0
    ensures r.Err? ==> r.error == EmptySequence || r.error == Tie
    ensures r.Ok? ==> r.value < |ks| && forall j | 0 <= j < |ks| && j != r.value :: ks[r.value] > ks[j]
    ensures |ks| > 0 && Distinct(ks) ==> r.Ok?
    ensures r == Err(Tie) <==> exists j | 0 <= j < |ks| :: TiesRunningBest(ks, true, j)
  {
    if |ks| == 0 then Err(EmptySequence) else Scan(ks, true, 0, 1)
  }

  /** A later equal number that the running best already beat does not
      raise, while an equal pair ahead of a strictly smaller number does. */
  lemma ArgMinTieExamples()
    ensures ArgMin([3.0, 0.0, 3.0]) == Ok(1)
    ensures ArgMin([3.0, 3.0, 0.0]) == Err(Tie)
    ensures ArgMax([1.0, 3.0, 1.0]) == Ok(1)
  {
  }

  predicate NonDecreasing(ks: seq<real>) {
    forall i, j | 0 <= i < j < |ks| :: ks[i] <= ks[j]
  }

  /** In a non-decreasing sequence the first element is a lower bound, and
      the second one bounds every element after the first. */
  lemma NonDecreasingFront(ks: seq<real>, b: nat)
    requires NonDecreasing(ks) && b < |ks|
    ensures ks[0] <= ks[b] && (b > 0 ==> ks[1] <= ks[b])
  {
  }

  predicate StrictlyIncreasing(ks: seq<real>) {
    forall i, j | 0 <= i < j < |ks| :: ks[i] < ks[j]
  }

  lemma {:induction false} ScanMinAscending(ks: seq<real>, i: nat)
    requires NonDecreasing(ks) && 0 < i <= |ks|
    requires forall j | 0 < j < i :: ks[0] < ks[j]
    ensures Scan(ks, false, 0, i) == if i < |ks| && ks[i] == ks[0] then Err(Tie) else Ok(0)
    decreases |ks| - i
  {
    if i < |ks| && ks[i] != ks[0] {
      ScanMinAscending(ks, i + 1);
    }
  }

  /** On numbers in ascending order, `min` yields the first one unless the
      first two are equal, in which case it raises. */
  lemma ArgMinAscending(ks: seq<real>)
    requires NonDecreasing(ks) && |ks| > 0
    ensures ArgMin(ks) == if |ks| > 1 && ks[1] == ks[0] then Err(Tie) else Ok(0)
  {
    if |ks| > 1 && ks[1] != ks[0] {
      ScanMinAscending(ks, 2);
    }
  }

  predicate IncreasingBelow(ks: seq<real>, n: nat) {
    forall a, b | 0 <= a < b < n && b < |ks| :: ks[a] < ks[b]
  }

  lemma {:induction false} ScanMaxAscending(ks: seq<real>, i: nat)
    requires NonDecreasing(ks) && 0 < i <= |ks|
    requires IncreasingBelow(ks, i)
    ensures Scan(ks, true, i - 1, i) == if StrictlyIncreasing(ks) then Ok(|ks| - 1) else Err(Tie)
    decreases |ks| - i
  {
    if i < |ks| {
      if ks[i] == ks[i - 1] {
        assert !StrictlyIncreasing(ks) by { assert ks[i - 1] == ks[i]; }
      } else {
        assert IncreasingBelow(ks, i + 1) by {
          forall a, b | 0 <= a < b < i + 1 && b < |ks| ensures ks[a] < ks[b] {
            if b == i { assert ks[a] <= ks[i - 1]; }
          }
        }
        ScanMaxAscending(ks, i + 1);
      }
    }
  }

  /** On numbers in ascending order, `max` yields the last one when no two are
      equal, and raises otherwise: a tie anywhere in the scan is fatal, not only
      a tie at the maximum. */
  lemma ArgMaxAscending(ks: seq<real>)
    requires NonDecreasing(ks) && |ks| > 0
    ensures ArgMax(ks) == if StrictlyIncreasing(ks) then Ok(|ks| - 1) else Err(Tie)
  {
    ScanMaxAscending(ks, 1);
  }

  // ---- `sorted(s, key=key)`: a stable sort ----

  predicate SortedBy<T>(s: seq<T>, key: T -> real) {
    forall i, j | 0 <= i < j < |s| :: key(s[i]) <= key(s[j])
  }

  /** The elements of `s` whose key is `k`, in their order in `s`. */
  function WithKey<T>(s: seq<T>, key: T -> real, k: real): seq<T> {
    if s == [] then []
    else (if key(s[0]) == k then [s[0]] else []) + WithKey(s[1..], key, k)
  }

  /** Puts `x` in front of the first element whose key is not smaller. */
  function Insert<T(==)>(x: T, s: seq<T>, key: T -> real): (r: seq<T>)
    ensures |r| == |s| + 1
    ensures multiset(r) == multiset(s) + multiset{x}
  {
    if s == [] then [x]
    else if key(x) <= key(s[0]) then [x] + s
    else
      assert s == [s[0]] + s[1..];
      [s[0]] + Insert(x, s[1..], key)
  }

  lemma {:induction false} InsertSorted<T>(x: T, s: seq<T>, key: T -> real)
    requires SortedBy(s, key)
    ensures SortedBy(Insert(x, s, key), key)
  {
    if s != [] && key(x) > key(s[0]) {
      InsertSorted(x, s[1..], key);
      var r := Insert(x, s, key);
      assert r[1..] == Insert(x, s[1..], key);
      forall j | 0 < j < |r| ensures key(r[0]) <= key(r[j]) {
        assert r[j] in multiset(s[1..]) + multiset{x} by {
          assert r[j] in multiset(r[1..]);
        }
        if r[j] != x {
          assert r[j] in s[1..];
        }
      }
    }
  }

  lemma {:induction false} InsertWithKey<T>(x: T, s: seq<T>, key: T -> real, k: real)
    ensures WithKey(Insert(x, s, key), key, k) == (if key(x) == k then [x] else []) + WithKey(s, key, k)
  {
    var r := Insert(x, s, key);
    if s == [] {
      assert r == [x];
    } else if key(x) <= key(s[0]) {
      assert r == [x] + s;
      assert r[1..] == s;
    } else {
      var t := Insert(x, s[1..], key);
      InsertWithKey(x, s[1..], key, k);
      assert r == [s[0]] + t;
      assert r[1..] == t;
      assert WithKey(r, key, k) == (if key(s[0]) == k then [s[0]] else []) + WithKey(t, key, k);
      assert WithKey(s, key, k) == (if key(s[0]) == k then [s[0]] else []) + WithKey(s[1..], key, k);
    }
  }

  function SortBy<T(==)>(s: seq<T>, key: T -> real): (r: seq<T>)
    ensures |r| == |s|
    ensures multiset(r) == multiset(s)
    ensures SortedBy(r, key)
  {
    if s == [] then []
    else
      var t := SortBy(s[1..], key);
      InsertSorted(s[0], t, key);
      assert s == [s[0]] + s[1..];
      Insert(s[0], t, key)
  }

  /** `sorted` is stable: elements with equal keys keep their relative order. */
  lemma {:induction false} SortByStable<T>(s: seq<T>, key: T -> real, k: real)
    ensures WithKey(SortBy(s, key), key, k) == WithKey(s, key, k)
  {
    if s != [] {
      SortByStable(s[1..], key, k);
      InsertWithKey(s[0], SortBy(s[1..], key), key, k);
      assert WithKey(s, key, k) == (if key(s[0]) == k then [s[0]] else []) + WithKey(s[1..], key, k);
    }
  }

  lemma {:induction false} InsertDistinct<T>(x: T, s: seq<T>, key: T -> real)
    requires Distinct(s) && x !in s
    ensures Distinct(Insert(x, s, key))
  {
    if s != [] && key(x) > key(s[0]) {
      InsertDistinct(x, s[1..], key);
      var t := Insert(x, s[1..], key);
      assert s[0] !in s[1..] by {
        forall j | 0 <= j < |s[1..]| ensures s[1..][j] != s[0] { assert s[1..][j] == s[j + 1]; }
      }
      assert s[0] !in t by {
        assert s[0] in s;
        assert s[0] != x;
        assert multiset(t) == multiset(s[1..]) + multiset{x};
        assert s[0] !in multiset(s[1..]);
        assert s[0] !in multiset(t);
      }
      assert Insert(x, s, key) == [s[0]] + t;
    }
  }

  /** Sorting a sequence without repeats gives one without repeats. */
  lemma {:induction false} SortByDistinct<T>(s: seq<T>, key: T -> real)
    requires Distinct(s)
    ensures Distinct(SortBy(s, key))
  {
    if s != [] {
      SortByDistinct(s[1..], key);
      assert s[0] !in s[1..] by {
        forall j | 0 <= j < |s[1..]| ensures s[1..][j] != s[0] { assert s[1..][j] == s[j + 1]; }
      }
      assert s[0] !in SortBy(s[1..], key) by {
        assert s[0] !in multiset(s[1..]);
      }
      InsertDistinct(s[0], SortBy(s[1..], key), key);
    }
  }
}
