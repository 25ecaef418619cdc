/** Grouping of text lines by one coordinate, and the searches built on it:
    `get_attr_lookup`, `find_lines_with` and `find_attr_group_matching` of
    pdf2data/pdf.py. A regular expression is abstracted as a value of a type
    `P` together with `search`, which stands for `regex.search(text)` and
    yields a match object of type `M` or `None`. */
module Lookup {
  import opened Errors
  import opened Seqs
  import opened TextLines

  /** The distinct values of `attr` among `lines`, in order of first
      appearance (the key order of the Python dict). */
  function ValuesOf(lines: seq<TextLine>, attr: Attr): seq<real> {
    if lines == [] then []
    else
      var pre := ValuesOf(lines[..|lines| - 1], attr);
      var v := Get(lines[|lines| - 1], attr);
      if v in pre then pre else pre + [v]
  }

  /** The lines whose `attr` is exactly `v`, in input order. */
  function Group(lines: seq<TextLine>, attr: Attr, v: real): seq<TextLine> {
    if lines == [] then []
    else
      var l := lines[|lines| - 1];
      Group(lines[..|lines| - 1], attr, v) + (if Get(l, attr) == v then [l] else [])
  }

  /** A dict from attribute values to lists of lines, with its key order. */
  datatype AttrDict = AttrDict(keys: seq<real>, groups: map<real, seq<TextLine>>)

  /** Reference definition of what `get_attr_lookup` returns. */
  function AttrLookup(lines: seq<TextLine>, attr: Attr): (lk: AttrDict)
    ensures lk.groups.Keys == set v | v in lk.keys
  {
    var ks := ValuesOf(lines, attr);
    AttrDict(ks, map v | v in ks :: Group(lines, attr, v))
  }

  /** The list a lookup holds under one of its keys. */
  lemma AttrLookupGroup(lines: seq<TextLine>, attr: Attr, v: real)
    requires v in AttrLookup(lines, attr).keys
    ensures v in AttrLookup(lines, attr).groups
    ensures AttrLookup(lines, attr).groups[v] == Group(lines, attr, v)
  {
  }

  /** `keys` and `result` are the dict that `get_attr_lookup` has built after
      reading `lines`. */
  ghost predicate Tracks(lines: seq<TextLine>, attr: Attr, keys: seq<real>, result: map<real, seq<TextLine>>) {
    && keys == ValuesOf(lines, attr)
    && (forall w :: w in result <==> w in keys)
    && (forall w | w in keys :: result[w] == Group(lines, attr, w))
  }

  /** One `setdefault(value, []).append(line)` keeps the dict in step with the
      lines read so far. */
  lemma TracksSnoc(lines: seq<TextLine>, l: TextLine, attr: Attr, keys: seq<real>, result: map<real, seq<TextLine>>)
    requires Tracks(lines, attr, keys, result)
    ensures var v := Get(l, attr);
            if v in result then Tracks(lines + [l], attr, keys, result[v := result[v] + [l]])
            else Tracks(lines + [l], attr, keys + [v], result[v := [l]])
  {
    var v := Get(l, attr);
    ValuesOfSnoc(lines, l, attr);
    if v !in result {
      GroupAbsent(lines, attr, v);
    }
    var keys' := if v in result then keys else keys + [v];
    var result' := if v in result then result[v := result[v] + [l]] else result[v := [l]];
    forall w | w in keys' ensures result'[w] == Group(lines + [l], attr, w) {
      GroupSnoc(lines, l, attr, w);
    }
  }

  /** `get_attr_lookup`: one pass over the lines, appending each to the list
      of its attribute value (`setdefault(...).append`). */
  method GetAttrLookup(lines: seq<TextLine>, attr: Attr) returns (lk: AttrDict)
    ensures lk == AttrLookup(lines, attr)
  {
    var keys: seq<real> := [];
    var result: map<real, seq<TextLine>> := map[];
    var i := 0;
    while i < |lines|
      invariant 0 <= i <= |lines|
      invariant Tracks(lines[..i], attr, keys, result)
    {
      var l := lines[i];
      var v := Get(l, attr);
      assert lines[..i + 1] == lines[..i] + [l];
      TracksSnoc(lines[..i], l, attr, keys, result);
      if v in result {
        result := result[v := result[v] + [l]];
      } else {
        result := result[v := [l]];
        keys := keys + [v];
      }
      i := i + 1;
    }
    assert lines[..i] == lines;
    lk := AttrDict(keys, result);
    LookupOfTracked(lines, attr, keys, result);
  }

  /** A dict that holds each key's group, and only those keys, is the lookup. */
  lemma LookupOfTracked(lines: seq<TextLine>, attr: Attr, keys: seq<real>, result: map<real, seq<TextLine>>)
    requires Tracks(lines, attr, keys, result)
    ensures AttrDict(keys, result) == AttrLookup(lines, attr)
  {
    var g := map v | v in keys :: Group(lines, attr, v);
    assert g == AttrLookup(lines, attr).groups;
    assert forall w :: w in g <==> w in keys;
    forall w | w in result ensures w in g && result[w] == g[w] { }
    assert result.Keys == g.Keys;
    assert result == g;
  }

  // ---- the lookup is a partition of the lines ----

  lemma ValuesOfSnoc(lines: seq<TextLine>, l: TextLine, attr: Attr)
    ensures ValuesOf(lines + [l], attr) == if Get(l, attr) in ValuesOf(lines, attr) then ValuesOf(lines, attr) else ValuesOf(lines, attr) + [Get(l, attr)]
  {
    assert (lines + [l])[..|lines|] == lines;
  }

  lemma GroupSnoc(lines: seq<TextLine>, l: TextLine, attr: Attr, v: real)
    ensures Group(lines + [l], attr, v) == Group(lines, attr, v) + if Get(l, attr) == v then [l] else []
  {
    assert (lines + [l])[..|lines|] == lines;
  }

  /** A value that is not a key has an empty group. */
  lemma {:induction false} GroupAbsent(lines: seq<TextLine>, attr: Attr, v: real)
    requires v !in ValuesOf(lines, attr)
    ensures Group(lines, attr, v) == []
  {
    if lines != [] {
      GroupAbsent(lines[..|lines| - 1], attr, v);
    }
  }

  /** The keys are exactly the attribute values present, each once. */
  lemma {:induction false} ValuesOfSpec(lines: seq<TextLine>, attr: Attr)
    ensures Distinct(ValuesOf(lines, attr))
    ensures forall v :: v in ValuesOf(lines, attr) <==> exists i | 0 <= i < |lines| :: Get(lines[i], attr) == v
  {
    if lines != [] {
      var pre := lines[..|lines| - 1];
      ValuesOfSpec(pre, attr);
      forall v ensures v in ValuesOf(lines, attr) <==> exists i | 0 <= i < |lines| :: Get(lines[i], attr) == v {
        if v in ValuesOf(lines, attr) && v != Get(lines[|lines| - 1], attr) {
          var i :| 0 <= i < |pre| && Get(pre[i], attr) == v;
          assert lines[i] == pre[i];
        }
        if exists i | 0 <= i < |lines| :: Get(lines[i], attr) == v {
          var i :| 0 <= i < |lines| && Get(lines[i], attr) == v;
          if i < |pre| { assert pre[i] == lines[i]; }
        }
      }
    }
  }

  /** The group of `v` holds exactly the lines whose attribute is `v`. */
  lemma {:induction false} GroupSpec(lines: seq<TextLine>, attr: Attr, v: real)
    ensures forall l :: l in Group(lines, attr, v) <==> l in lines && Get(l, attr) == v
    ensures |Group(lines, attr, v)| <= |lines|
  {
    if lines != [] {
      var pre := lines[..|lines| - 1];
      GroupSpec(pre, attr, v);
      assert lines == pre + [lines[|lines| - 1]];
    }
  }

  /** A group keeps the lines in their input order. */
  lemma {:induction false} GroupInOrder(lines: seq<TextLine>, attr: Attr, v: real)
    ensures Subsequence(Group(lines, attr, v), lines)
  {
    if lines == [] {
      assert Group(lines, attr, v) == Pick(lines, []);
    } else {
      var pre, l := lines[..|lines| - 1], lines[|lines| - 1];
      GroupInOrder(pre, attr, v);
      SubsequenceSnoc(Group(pre, attr, v), pre, l, Get(l, attr) == v);
      assert lines == pre + [l];
    }
  }

  /** The groups of `keys` laid end to end, in key order. */
  function Concat(lines: seq<TextLine>, attr: Attr, keys: seq<real>): seq<TextLine> {
    if keys == [] then [] else Group(lines, attr, keys[0]) + Concat(lines, attr, keys[1..])
  }

  lemma {:induction false} ConcatAppendKey(lines: seq<TextLine>, attr: Attr, keys: seq<real>, v: real)
    ensures Concat(lines, attr, keys + [v]) == Concat(lines, attr, keys) + Group(lines, attr, v)
  {
    if keys != [] {
      assert (keys + [v])[1..] == keys[1..] + [v];
      ConcatAppendKey(lines, attr, keys[1..], v);
    }
  }

  lemma ConcatCons(lines: seq<TextLine>, attr: Attr, keys: seq<real>)
    requires keys != []
    ensures multiset(Concat(lines, attr, keys)) == multiset(Group(lines, attr, keys[0])) + multiset(Concat(lines, attr, keys[1..]))
  {
  }

  /** A line whose value is among distinct keys is counted under exactly one
      of them. */
  lemma CountOnce(l: TextLine, v: real, keys: seq<real>)
    requires Distinct(keys) && keys != []
    ensures (if v in keys then multiset{l} else multiset{})
            == (if v == keys[0] then multiset{l} else multiset{}) + (if v in keys[1..] then multiset{l} else multiset{})
  {
    DistinctTail(keys);
    assert keys == [keys[0]] + keys[1..];
  }

  lemma Regroup<T>(a: multiset<T>, b: multiset<T>, c: multiset<T>, d: multiset<T>)
    ensures (a + b) + (c + d) == (a + c) + (b + d)
  {
  }

  /** One more line adds it once to the groups of distinct keys when its
      value is among them, and adds nothing otherwise. */
  lemma {:induction false} ConcatSnoc(lines: seq<TextLine>, l: TextLine, attr: Attr, keys: seq<real>)
    requires Distinct(keys)
    ensures multiset(Concat(lines + [l], attr, keys))
            == multiset(Concat(lines, attr, keys)) + (if Get(l, attr) in keys then multiset{l} else multiset{})
  {
    if keys != [] {
      var v, k, rest := Get(l, attr), keys[0], keys[1..];
      var inHead: multiset<TextLine> := if v == k then multiset{l} else multiset{};
      var inRest: multiset<TextLine> := if v in rest then multiset{l} else multiset{};
      var g, c := multiset(Group(lines, attr, k)), multiset(Concat(lines, attr, rest));
      DistinctTail(keys);
      ConcatSnoc(lines, l, attr, rest);
      GroupSnoc(lines, l, attr, k);
      ConcatCons(lines + [l], attr, keys);
      ConcatCons(lines, attr, keys);
      CountOnce(l, v, keys);
      Regroup(g, inHead, c, inRest);
    }
  }

  /** The groups of the distinct values, laid end to end, hold every line
      once. */
  lemma {:induction false} ConcatValues(lines: seq<TextLine>, attr: Attr)
    ensures multiset(Concat(lines, attr, ValuesOf(lines, attr))) == multiset(lines)
  {
    if lines != [] {
      var pre := lines[..|lines| - 1];
      var l := lines[|lines| - 1];
      var v := Get(l, attr);
      var ks0 := ValuesOf(pre, attr);
      assert lines == pre + [l];
      ConcatValues(pre, attr);
      ValuesOfSpec(pre, attr);
      ValuesOfSnoc(pre, l, attr);
      ConcatSnoc(pre, l, attr, ks0);
      if v in ks0 {
        assert multiset(Concat(lines, attr, ks0)) == multiset(pre) + multiset{l};
      } else {
        GroupAbsent(pre, attr, v);
        GroupSnoc(pre, l, attr, v);
        ConcatAppendKey(lines, attr, ks0, v);
        assert Group(lines, attr, v) == [l];
        assert multiset(Concat(lines, attr, ks0)) == multiset(pre);
      }
    }
  }

  /** Every line lands in exactly one group: the groups of the lookup,
      laid end to end, are a permutation of the input. */
  lemma AttrLookupPartition(lines: seq<TextLine>, attr: Attr)
    ensures var lk := AttrLookup(lines, attr);
            (forall v | v in lk.keys :: lk.groups[v] == Group(lines, attr, v))
            && multiset(Concat(lines, attr, lk.keys)) == multiset(lines)
  {
    ConcatValues(lines, attr);
  }

  /** Each line is found in the group keyed by its own attribute value. */
  lemma LineInOwnGroup(lines: seq<TextLine>, attr: Attr, i: nat)
    requires i < |lines|
    ensures var lk := AttrLookup(lines, attr); var v := Get(lines[i], attr);
            v in lk.groups && lines[i] in lk.groups[v]
  {
    ValuesOfSpec(lines, attr);
    GroupSpec(lines, attr, Get(lines[i], attr));
  }

  // ---- `find_lines_with` ----

  /** The lines in which `regex` is found, in input order. */
  function MatchingLines<P, M>(search: (P, string) -> Option<M>, regex: P, lines: seq<TextLine>): seq<TextLine> {
    if lines == [] then []
    else
      var l := lines[|lines| - 1];
      MatchingLines(search, regex, lines[..|lines| - 1]) + (if search(regex, l.text).Some? then [l] else [])
  }

  lemma {:induction false} MatchingLinesSpec<P, M>(search: (P, string) -> Option<M>, regex: P, lines: seq<TextLine>)
    ensures forall l :: l in MatchingLines(search, regex, lines) <==> l in lines && search(regex, l.text).Some?
    ensures |MatchingLines(search, regex, lines)| <= |lines|
  {
    if lines != [] {
      MatchingLinesSpec(search, regex, lines[..|lines| - 1]);
      assert lines == lines[..|lines| - 1] + [lines[|lines| - 1]];
    }
  }

  /** The matching lines keep their input order. */
  lemma {:induction false} MatchingLinesInOrder<P, M>(search: (P, string) -> Option<M>, regex: P, lines: seq<TextLine>)
    ensures Subsequence(MatchingLines(search, regex, lines), lines)
  {
    if lines == [] {
      assert MatchingLines(search, regex, lines) == Pick(lines, []);
    } else {
      var pre, l := lines[..|lines| - 1], lines[|lines| - 1];
      MatchingLinesInOrder(search, regex, pre);
      SubsequenceSnoc(MatchingLines(search, regex, pre), pre, l, search(regex, l.text).Some?);
      assert lines == pre + [l];
    }
  }

  /** `find_lines_with`: the pairs (line, match object) for the lines in
      which `regex` is found, in input order. */
  method FindLinesWith<P, M>(search: (P, string) -> Option<M>, regex: P, lines: seq<TextLine>)
    returns (result: seq<(TextLine, M)>)
    ensures |result| == |MatchingLines(search, regex, lines)|
    ensures forall k | 0 <= k < |result| ::
              result[k].0 == MatchingLines(search, regex, lines)[k] && search(regex, result[k].0.text) == Some(result[k].1)
  {
    result := [];
    var i := 0;
    while i < |lines|
      invariant 0 <= i <= |lines|
      invariant |result| == |MatchingLines(search, regex, lines[..i])|
      invariant forall k | 0 <= k < |result| ::
                  result[k].0 == MatchingLines(search, regex, lines[..i])[k] && search(regex, result[k].0.text) == Some(result[k].1)
    {
      var l := lines[i];
      assert lines[..i + 1][..i] == lines[..i];
      var m := search(regex, l.text);
      if m.Some? {
        result := result + [(l, m.value)];
      }
      i := i + 1;
    }
    assert lines[..i] == lines;
  }

  // ---- `find_attr_group_matching` ----

  /** Some line of the input has `v` as its attribute value. */
  predicate Present(lines: seq<TextLine>, attr: Attr, v: real) {
    exists i | 0 <= i < |lines| :: Get(lines[i], attr) == v
  }

  /** `pattern` is found in a line whose attribute is `v`. */
  predicate FoundAt<P, M>(search: (P, string) -> Option<M>, pattern: P, lines: seq<TextLine>, attr: Attr, v: real) {
    exists i | 0 <= i < |lines| :: Get(lines[i], attr) == v && search(pattern, lines[i].text).Some?
  }

  /** Every pattern is found in at least one line whose attribute is `v`. */
  predicate GroupMatches<P, M>(search: (P, string) -> Option<M>, patterns: seq<P>, lines: seq<TextLine>, attr: Attr, v: real) {
    forall k | 0 <= k < |patterns| :: FoundAt(search, patterns[k], lines, attr, v)
  }

  /** `pattern` is found in some line of `group`. */
  predicate Found<P, M>(search: (P, string) -> Option<M>, pattern: P, group: seq<TextLine>) {
    exists i | 0 <= i < |group| :: search(pattern, group[i].text).Some?
  }

  /** The test of the list comprehension: every pattern found in some line of
      the group. */
  predicate AllFound<P, M>(search: (P, string) -> Option<M>, patterns: seq<P>, group: seq<TextLine>) {
    forall k | 0 <= k < |patterns| :: Found(search, patterns[k], group)
  }

  /** The attribute values whose group passes the test, in key order. */
  function Qualifying<P, M>(search: (P, string) -> Option<M>, patterns: seq<P>, keys: seq<real>, groups: map<real, seq<TextLine>>): (r: seq<real>)
    requires forall k | k in keys :: k in groups
    ensures forall v :: v in r <==> v in keys && AllFound(search, patterns, groups[v])
    ensures Distinct(keys) ==> Distinct(r)
  {
    if keys == [] then []
    else
      var rest := Qualifying(search, patterns, keys[1..], groups);
      assert Distinct(keys) ==> Distinct(keys[1..]) && keys[0] !in keys[1..] by {
        if Distinct(keys) {
          forall j | 0 <= j < |keys[1..]| ensures keys[1..][j] != keys[0] { assert keys[1..][j] == keys[j + 1]; }
          forall i, j | 0 <= i < j < |keys[1..]| ensures keys[1..][i] != keys[1..][j] {
            assert keys[1..][i] == keys[i + 1] && keys[1..][j] == keys[j + 1];
          }
        }
      }
      assert forall v :: v in keys <==> v == keys[0] || v in keys[1..];
      (if AllFound(search, patterns, groups[keys[0]]) then [keys[0]] else []) + rest
  }

  /** The test on a group of the lookup is the test on the lines with that value. */
  lemma AllFoundInGroup<P, M>(search: (P, string) -> Option<M>, patterns: seq<P>, lines: seq<TextLine>, attr: Attr, v: real)
    ensures AllFound(search, patterns, Group(lines, attr, v)) <==> GroupMatches(search, patterns, lines, attr, v)
  {
    var g := Group(lines, attr, v);
    GroupSpec(lines, attr, v);
    forall pattern ensures Found(search, pattern, g) <==> FoundAt(search, pattern, lines, attr, v) {
      if Found(search, pattern, g) {
        var j :| 0 <= j < |g| && search(pattern, g[j].text).Some?;
        assert g[j] in g;
        var i :| 0 <= i < |lines| && lines[i] == g[j];
      }
      if FoundAt(search, pattern, lines, attr, v) {
        var i :| 0 <= i < |lines| && Get(lines[i], attr) == v && search(pattern, lines[i].text).Some?;
        assert lines[i] in g;
        var j :| 0 <= j < |g| && g[j] == lines[i];
      }
    }
  }

  /** The values the comprehension keeps are exactly the present values whose
      lines match every pattern, each kept once. */
  lemma QualifyingSpec<P, M>(search: (P, string) -> Option<M>, patterns: seq<P>, attr: Attr, lines: seq<TextLine>)
    ensures var lk := AttrLookup(lines, attr);
            var result := Qualifying(search, patterns, lk.keys, lk.groups);
            Distinct(result)
            && forall w :: w in result <==> Present(lines, attr, w) && GroupMatches(search, patterns, lines, attr, w)
  {
    var lk := AttrLookup(lines, attr);
    ValuesOfSpec(lines, attr);
    forall w ensures w in Qualifying(search, patterns, lk.keys, lk.groups) <==> Present(lines, attr, w) && GroupMatches(search, patterns, lines, attr, w) {
      AllFoundInGroup(search, patterns, lines, attr, w);
    }
  }

  /** `find_attr_group_matching`: the one attribute value whose lines contain
      a match of every pattern. No such value raises `GroupNotFound`; two or
      more raise `RuntimeError`. */
  method FindAttrGroupMatching<P, M>(search: (P, string) -> Option<M>, patterns: seq<P>, attr: Attr, lines: seq<TextLine>)
    returns (r: Result<real>)
    ensures r.Ok? || r == Err(GroupNotFound) || r == Err(AmbiguousGroup)
    ensures r.Ok? ==> Present(lines, attr, r.value) && GroupMatches(search, patterns, lines, attr, r.value)
    ensures r.Ok? ==> forall w | Present(lines, attr, w) && GroupMatches(search, patterns, lines, attr, w) :: w == r.value
    ensures r == Err(GroupNotFound) <==> forall w | Present(lines, attr, w) :: !GroupMatches(search, patterns, lines, attr, w)
    ensures r == Err(AmbiguousGroup) <==>
              exists w1, w2 :: w1 != w2 && Present(lines, attr, w1) && GroupMatches(search, patterns, lines, attr, w1)
                               && Present(lines, attr, w2) && GroupMatches(search, patterns, lines, attr, w2)
  {
    var attrLookup := GetAttrLookup(lines, attr);
    var result := Qualifying(search, patterns, attrLookup.keys, attrLookup.groups);
    QualifyingSpec(search, patterns, attr, lines);
    if |result| < 1 {
      r := Err(GroupNotFound);
      return;
    }
    if |result| > 1 {
      assert result[0] != result[1];
      assert result[0] in result && result[1] in result;
      r := Err(AmbiguousGroup);
      return;
    }
    r := Ok(result[0]);
    assert result[0] in result;
    assert forall w | w in result :: w == result[0];
  }
}
