/**
 SemanticTextChunker of src/ingestion/pipeline.py, from the sentences and the distances
 between neighbouring windows onwards. Distances and percentiles are exact reals.
 */
module SemanticChunking {
  import opened Common
  import opened Texts
  import opened RecursiveChunking
  import ChunkerLaws

  // ---------------------------------------------------------------- _percentile

  function InsertReal(sorted: seq<real>, x: real): seq<real> {
    if sorted == [] || sorted[|sorted| - 1] <= x then sorted + [x]
    else InsertReal(sorted[..|sorted| - 1], x) + [sorted[|sorted| - 1]]
  }

  /** sorted(data) */
  function SortReals(data: seq<real>): (sorted: seq<real>)
    ensures |sorted| == |data|
  {
    if data == [] then []
    else
      InsertLength(SortReals(data[..|data| - 1]), data[|data| - 1]);
      InsertReal(SortReals(data[..|data| - 1]), data[|data| - 1])
  }

  lemma {:induction false} InsertLength(sorted: seq<real>, x: real)
    ensures |InsertReal(sorted, x)| == |sorted| + 1
  {
    if sorted != [] {
      InsertLength(sorted[..|sorted| - 1], x);
    }
  }

  /** Linear interpolation between the elements around position k. */
  function Interpolate(s: seq<real>, k: real): real
    requires s != [] && 0.0 <= k <= (|s| - 1) as real
  {
    var f := k.Floor;
    var c := if f + 1 < |s| - 1 then f + 1 else |s| - 1;
    s[f] + (k - f as real) * (s[c] - s[f])
  }

  function Position(n: nat, percentile: real): (k: real)
    requires n >= 1 && 0.0 <= percentile <= 100.0
    ensures 0.0 <= k <= (n - 1) as real
  {
    PositionBounds(n, percentile);
    (n - 1) as real * (percentile / 100.0)
  }

  lemma PositionBounds(n: nat, percentile: real)
    requires n >= 1 && 0.0 <= percentile <= 100.0
    ensures 0.0 <= (n - 1) as real * (percentile / 100.0) <= (n - 1) as real
  {
    var m, q := (n - 1) as real, percentile / 100.0;
    assert 0.0 <= q <= 1.0;
    assert m * q <= m * 1.0;
  }

  function Percentile(data: seq<real>, percentile: real): real
    requires 0.0 <= percentile <= 100.0
  {
    if data == [] then 0.0 else Interpolate(SortReals(data), Position(|data|, percentile))
  }

  ghost predicate Ascending(s: seq<real>) {
    forall i, k | 0 <= i < k < |s| :: s[i] <= s[k]
  }

  lemma {:induction false} InsertAdds(sorted: seq<real>, x: real)
    ensures multiset(InsertReal(sorted, x)) == multiset(sorted) + multiset{x}
  {
    if sorted != [] {
      InsertAdds(sorted[..|sorted| - 1], x);
      assert sorted == sorted[..|sorted| - 1] + [sorted[|sorted| - 1]];
    }
  }

  lemma {:induction false} InsertSorts(sorted: seq<real>, x: real, top: real)
    requires Ascending(sorted) && x <= top && forall i | 0 <= i < |sorted| :: sorted[i] <= top
    ensures Ascending(InsertReal(sorted, x))
    ensures forall i | 0 <= i < |InsertReal(sorted, x)| :: InsertReal(sorted, x)[i] <= top
  {
    if sorted != [] && x < sorted[|sorted| - 1] {
      InsertSorts(sorted[..|sorted| - 1], x, sorted[|sorted| - 1]);
    }
  }

  lemma InsertKeepsAscending(sorted: seq<real>, x: real)
    requires Ascending(sorted)
    ensures Ascending(InsertReal(sorted, x))
  {
    InsertSorts(sorted, x, if sorted != [] && sorted[|sorted| - 1] > x then sorted[|sorted| - 1] else x);
  }

  lemma {:induction false} SortSorts(data: seq<real>)
    ensures Ascending(SortReals(data)) && multiset(SortReals(data)) == multiset(data)
  {
    if data != [] {
      var n := |data| - 1;
      var rest := SortReals(data[..n]);
      SortSorts(data[..n]);
      InsertAdds(rest, data[n]);
      InsertKeepsAscending(rest, data[n]);
      assert data == data[..n] + [data[n]];
    }
  }

  lemma LastIsGreatest(a: seq<real>, x: real)
    requires Ascending(a) && x in a
    ensures x <= a[|a| - 1]
  {
  }

  lemma WithoutLast(a: seq<real>, b: seq<real>)
    requires a != [] && b != [] && a[|a| - 1] == b[|b| - 1] && multiset(a) == multiset(b)
    ensures multiset(a[..|a| - 1]) == multiset(b[..|b| - 1])
  {
    assert a == a[..|a| - 1] + [a[|a| - 1]] && b == b[..|b| - 1] + [b[|b| - 1]];
    assert multiset(a[..|a| - 1]) == multiset(a) - multiset{a[|a| - 1]};
    assert multiset(b[..|b| - 1]) == multiset(b) - multiset{b[|b| - 1]};
  }

  lemma SameMembers(a: seq<real>, b: seq<real>, x: real)
    requires multiset(a) == multiset(b) && x in a
    ensures x in b
  {
    assert x in multiset(a);
    assert x in multiset(b);
  }

  lemma {:induction false} AscendingIsUnique(a: seq<real>, b: seq<real>)
    requires Ascending(a) && Ascending(b) && multiset(a) == multiset(b) && |a| == |b|
    ensures a == b
  {
    if a != [] {
      var n := |a| - 1;
      SameMembers(a, b, a[n]);
      SameMembers(b, a, b[n]);
      LastIsGreatest(a, b[n]);
      LastIsGreatest(b, a[n]);
      WithoutLast(a, b);
      AscendingIsUnique(a[..n], b[..n]);
      assert a == a[..n] + [a[n]] && b == b[..n] + [b[n]];
    }
  }

  /** The percentile does not depend on the order of the data. */
  lemma PercentileIgnoresOrder(a: seq<real>, b: seq<real>, percentile: real)
    requires multiset(a) == multiset(b) && 0.0 <= percentile <= 100.0
    ensures Percentile(a, percentile) == Percentile(b, percentile)
  {
    assert |a| == |multiset(a)| == |multiset(b)| == |b|;
    SortSorts(a);
    SortSorts(b);
    AscendingIsUnique(SortReals(a), SortReals(b));
  }

  lemma InterpolateBetween(s: seq<real>, k: real)
    requires s != [] && Ascending(s) && 0.0 <= k <= (|s| - 1) as real
    ensures s[k.Floor] <= Interpolate(s, k)
    ensures Interpolate(s, k) <= s[if k.Floor + 1 < |s| - 1 then k.Floor + 1 else |s| - 1]
  {
    var f := k.Floor;
    var c := if f + 1 < |s| - 1 then f + 1 else |s| - 1;
    var t, d := k - f as real, s[c] - s[f];
    assert 0.0 <= t <= 1.0 && d >= 0.0;
    Scaled(t, d);
    assert Interpolate(s, k) == s[f] + t * d;
  }

  lemma Scaled(t: real, d: real)
    requires 0.0 <= t <= 1.0 && d >= 0.0
    ensures 0.0 <= t * d <= d
  {
    assert t * d <= 1.0 * d;
  }

  lemma InterpolateMonotone(s: seq<real>, k: real, m: real)
    requires s != [] && Ascending(s) && 0.0 <= k <= m <= (|s| - 1) as real
    ensures Interpolate(s, k) <= Interpolate(s, m)
  {
    var f := k.Floor;
    if f == m.Floor {
      var c := if f + 1 < |s| - 1 then f + 1 else |s| - 1;
      var d := s[c] - s[f];
      assert (m - f as real) * d - (k - f as real) * d == (m - k) * d;
      assert (m - k) * d >= 0.0;
    } else {
      InterpolateBetween(s, k);
      InterpolateBetween(s, m);
    }
  }

  lemma PositionMonotone(n: nat, p: real, q: real)
    requires n >= 1 && 0.0 <= p <= q <= 100.0
    ensures Position(n, p) <= Position(n, q)
  {
    var m, x, y := (n - 1) as real, p / 100.0, q / 100.0;
    var d := m * (y - x);
    assert d >= 0.0 by { Product(m, 0.0, y - x); }
    assert Position(n, q) == Position(n, p) + d;
  }

  lemma PositionExtremes(n: nat)
    requires n >= 1
    ensures Position(n, 0.0) == 0.0 && Position(n, 100.0) == (n - 1) as real
  {
  }

  lemma Product(m: real, x: real, y: real)
    requires m >= 0.0 && x <= y
    ensures m * x <= m * y
  {
  }

  /** The percentile grows with its parameter, from the least value at 0 to the greatest at 100. */
  lemma PercentileIsMonotone(data: seq<real>, p: real, q: real)
    requires data != [] && 0.0 <= p <= q <= 100.0
    ensures Percentile(data, p) <= Percentile(data, q)
  {
    SortSorts(data);
    PositionMonotone(|data|, p, q);
    InterpolateMonotone(SortReals(data), Position(|data|, p), Position(|data|, q));
  }

  lemma PercentileExtremes(data: seq<real>)
    requires data != []
    ensures Percentile(data, 0.0) in data && Percentile(data, 100.0) in data
    ensures forall x | x in data :: Percentile(data, 0.0) <= x <= Percentile(data, 100.0)
  {
    var s, n := SortReals(data), |data|;
    SortSorts(data);
    PositionExtremes(n);
    assert Percentile(data, 0.0) == s[0] && Percentile(data, 100.0) == s[n - 1];
    InData(data, 0);
    InData(data, n - 1);
    forall x | x in data ensures s[0] <= x <= s[n - 1] {
      assert x in multiset(s);
      var i :| 0 <= i < |s| && s[i] == x;
    }
  }

  lemma InData(data: seq<real>, i: nat)
    requires i < |data|
    ensures SortReals(data)[i] in data
  {
    SortSorts(data);
    assert SortReals(data)[i] in multiset(SortReals(data));
  }

  /**
   Between two neighbours of the sorted data the percentile runs linearly: where p percent of the
   way lies a fraction t beyond the f-th, it is (1 - t) of that one and t of the next.
   */
  lemma PercentileInterpolates(data: seq<real>, sorted: seq<real>, p: real, f: nat, t: real)
    requires Ascending(sorted) && multiset(sorted) == multiset(data) && 0.0 <= p <= 100.0
    requires f + 1 < |sorted| && 0.0 <= t < 1.0 && (|sorted| - 1) as real * p == 100.0 * (f as real + t)
    ensures Percentile(data, p) == (1.0 - t) * sorted[f] + t * sorted[f + 1]
  {
    SortedIs(data, sorted);
    PositionAt(|data|, p, f, t);
    PercentileIs(data, p, sorted, f as real + t);
    InterpolateAt(sorted, f, t);
  }

  lemma PercentileIs(data: seq<real>, p: real, sorted: seq<real>, k: real)
    requires data != [] && 0.0 <= p <= 100.0 && SortReals(data) == sorted && Position(|data|, p) == k
    ensures Percentile(data, p) == Interpolate(sorted, k)
  {
  }

  lemma InterpolateAt(s: seq<real>, f: nat, t: real)
    requires f + 1 < |s| && 0.0 <= t < 1.0
    ensures Interpolate(s, f as real + t) == (1.0 - t) * s[f] + t * s[f + 1]
  {
    var k := f as real + t;
    var share, d := k - f as real, s[f + 1] - s[f];
    assert k.Floor == f && share == t;
    assert Interpolate(s, k) == s[f] + share * d;
    Mix(s[f], s[f + 1], t);
  }

  lemma Mix(a: real, b: real, t: real)
    ensures a + t * (b - a) == (1.0 - t) * a + t * b
  {
  }

  lemma SortedIs(data: seq<real>, sorted: seq<real>)
    requires Ascending(sorted) && multiset(sorted) == multiset(data)
    ensures |sorted| == |data| && SortReals(data) == sorted
  {
    assert |sorted| == |multiset(sorted)| == |multiset(data)| == |data|;
    SortSorts(data);
    AscendingIsUnique(sorted, SortReals(data));
  }

  lemma PositionAt(n: nat, p: real, f: nat, t: real)
    requires n >= 1 && 0.0 <= p <= 100.0 && 0.0 <= t < 1.0 && (n - 1) as real * p == 100.0 * (f as real + t)
    ensures Position(n, p) == f as real + t && Position(n, p).Floor == f
  {
    var m := (n - 1) as real;
    assert m * (p / 100.0) == (m * p) / 100.0;
  }

  // ---------------------------------------------------------------- grouping the sentences

  /** A new chunk begins behind sentence i. There is no distance behind the last one. */
  predicate IsCut(distances: seq<real>, threshold: real, i: nat) {
    i < |distances| && distances[i] >= threshold
  }

  /** The loop over the sentences from number i on, with the open group so far. */
  function GroupsFrom(sentences: seq<string>, distances: seq<real>, threshold: real, i: nat,
                      open: seq<string>): seq<seq<string>>
    requires i <= |sentences|
    decreases |sentences| - i
  {
    if i == |sentences| then
      if open != [] then [open] else []
    else
      var open' := open + [sentences[i]];
      if IsCut(distances, threshold, i) then [open'] + GroupsFrom(sentences, distances, threshold, i + 1, [])
      else GroupsFrom(sentences, distances, threshold, i + 1, open')
  }

  function Groups(sentences: seq<string>, distances: seq<real>, percentile: real): seq<seq<string>>
    requires 0.0 <= percentile <= 100.0
  {
    GroupsFrom(sentences, distances, Percentile(distances, percentile), 0, [])
  }

  function JoinAll(groups: seq<seq<string>>): (r: seq<string>)
    ensures |r| == |groups|
  {
    seq(|groups|, i requires 0 <= i < |groups| => Join(" ", groups[i]))
  }

  /** A chunk over the limit goes through the recursive chunker. */
  function LimitedOne(chunk: string, maxSize: nat): seq<string>
    requires maxSize >= 1
  {
    if |chunk| > maxSize then ChunksOf(Config(maxSize, 0), chunk) else [chunk]
  }

  function LimitedEach(chunks: seq<string>, maxSize: nat): (r: seq<seq<string>>)
    requires maxSize >= 1
    ensures |r| == |chunks|
  {
    seq(|chunks|, i requires 0 <= i < |chunks| => LimitedOne(chunks[i], maxSize))
  }

  function Limited(chunks: seq<string>, maxSize: nat): seq<string>
    requires maxSize >= 1
  {
    ChunkerLaws.Concat(LimitedEach(chunks, maxSize))
  }

  /** Blank chunks are dropped, the others stripped. */
  function Stripped(chunks: seq<string>): seq<string> {
    if chunks == [] then []
    else
      var last := chunks[|chunks| - 1];
      Stripped(chunks[..|chunks| - 1]) + (if NotBlank(last) then [Strip(last)] else [])
  }

  function SemanticChunks(sentences: seq<string>, distances: seq<real>, percentile: real, maxSize: nat): seq<string>
    requires 0.0 <= percentile <= 100.0 && maxSize >= 1
  {
    if |sentences| <= 1 then sentences
    else Stripped(Limited(JoinAll(Groups(sentences, distances, percentile)), maxSize))
  }

  lemma {:induction false} GroupsFlatten(sentences: seq<string>, distances: seq<real>, threshold: real, i: nat,
                                         open: seq<string>)
    requires i <= |sentences|
    ensures ChunkerLaws.Concat(GroupsFrom(sentences, distances, threshold, i, open)) == open + sentences[i..]
    ensures forall g | g in GroupsFrom(sentences, distances, threshold, i, open) :: g != []
    decreases |sentences| - i
  {
    var groups := GroupsFrom(sentences, distances, threshold, i, open);
    if i == |sentences| {
      assert open != [] ==> groups[1..] == [];
    } else {
      var open' := open + [sentences[i]];
      assert open + sentences[i..] == open' + sentences[i + 1..];
      if IsCut(distances, threshold, i) {
        GroupsFlatten(sentences, distances, threshold, i + 1, []);
        assert groups[1..] == GroupsFrom(sentences, distances, threshold, i + 1, []);
      } else {
        GroupsFlatten(sentences, distances, threshold, i + 1, open');
      }
    }
  }

  lemma {:induction false} CutMakesTwo(sentences: seq<string>, distances: seq<real>, threshold: real, i: nat,
                                       open: seq<string>, k: nat)
    requires i <= k && k + 1 < |sentences| && IsCut(distances, threshold, k)
    ensures |GroupsFrom(sentences, distances, threshold, i, open)| >= 2
    decreases |sentences| - i
  {
    if IsCut(distances, threshold, i) {
      var later := GroupsFrom(sentences, distances, threshold, i + 1, []);
      GroupsFlatten(sentences, distances, threshold, i + 1, []);
      assert later == [] ==> ChunkerLaws.Concat(later) == [];
      assert |sentences[i + 1..]| > 0;
    } else {
      CutMakesTwo(sentences, distances, threshold, i + 1, open + [sentences[i]], k);
    }
  }

  /** The groups put one after the other are the sentences; from two sentences on there are at least two. */
  lemma GroupsPartition(sentences: seq<string>, distances: seq<real>, percentile: real)
    requires 0.0 <= percentile <= 100.0 && |distances| == |sentences| - 1
    ensures ChunkerLaws.Concat(Groups(sentences, distances, percentile)) == sentences
    ensures forall g | g in Groups(sentences, distances, percentile) :: g != []
    ensures |sentences| >= 2 ==> |Groups(sentences, distances, percentile)| >= 2
  {
    var threshold := Percentile(distances, percentile);
    GroupsFlatten(sentences, distances, threshold, 0, []);
    assert [] + sentences[0..] == sentences;
    if |sentences| >= 2 {
      PercentileIsMonotone(distances, percentile, 100.0);
      PercentileExtremes(distances);
      var k :| 0 <= k < |distances| && distances[k] == Percentile(distances, 100.0);
      CutMakesTwo(sentences, distances, threshold, 0, [], k);
    }
  }

  lemma {:induction false} JoinConcat(sep: string, a: seq<string>, b: seq<string>)
    requires a != [] && b != []
    ensures Join(sep, a + b) == Join(sep, a) + sep + Join(sep, b)
  {
    if |a| == 1 {
      assert (a + b)[1..] == b;
    } else {
      assert (a + b)[1..] == a[1..] + b;
      JoinConcat(sep, a[1..], b);
    }
  }

  /** Joining the initial chunks gives the text that joining the sentences gives. */
  lemma {:induction false} ChunksRejoin(groups: seq<seq<string>>)
    requires forall g | g in groups :: g != []
    ensures Join(" ", JoinAll(groups)) == Join(" ", ChunkerLaws.Concat(groups))
  {
    if |groups| == 1 {
      assert groups == [groups[0]];
      ConcatOne(groups[0]);
    } else if |groups| > 1 {
      var g, later := groups[0], groups[1..];
      assert JoinAll(groups)[1..] == JoinAll(later);
      assert g in groups && forall h | h in later :: h in groups;
      assert ChunkerLaws.Concat(later) == later[0] + ChunkerLaws.Concat(later[1..]);
      assert later[0] in later && later[0] != [];
      assert |ChunkerLaws.Concat(later)| > 0;
      ChunksRejoin(later);
      JoinConcat(" ", g, ChunkerLaws.Concat(later));
    }
  }

  /** Each coarse group is a run of one or more neighbouring fine groups. */
  ghost predicate Merges(coarse: seq<seq<string>>, fine: seq<seq<string>>)
    decreases |coarse|
  {
    if coarse == [] then fine == []
    else exists n :: 1 <= n <= |fine| && coarse[0] == ChunkerLaws.Concat(fine[..n]) && Merges(coarse[1..], fine[n..])
  }

  lemma {:induction false} ConcatAppend(a: seq<seq<string>>, b: seq<seq<string>>)
    ensures ChunkerLaws.Concat(a + b) == ChunkerLaws.Concat(a) + ChunkerLaws.Concat(b)
  {
    if a == [] {
      assert a + b == b;
    } else {
      assert (a + b)[1..] == a[1..] + b;
      ConcatAppend(a[1..], b);
    }
  }

  lemma ConcatOne(g: seq<string>)
    ensures ChunkerLaws.Concat([g]) == g
  {
    assert [g][1..] == [];
  }

  lemma MergeHead(head: seq<seq<string>>, coarse: seq<seq<string>>, fine: seq<seq<string>>)
    requires head != [] && Merges(coarse, fine)
    ensures Merges([ChunkerLaws.Concat(head)] + coarse, head + fine)
  {
    var all, n := head + fine, |head|;
    assert all[..n] == head && all[n..] == fine;
    assert ([ChunkerLaws.Concat(head)] + coarse)[1..] == coarse;
    assert 1 <= n <= |all| && ChunkerLaws.Concat(head) == ChunkerLaws.Concat(all[..n]) && Merges(coarse, all[n..]);
  }

  /** `closed` are the fine groups that the open coarse group already covers. */
  lemma {:induction false} HigherThresholdMerges(sentences: seq<string>, distances: seq<real>, low: real,
                                                 high: real, i: nat,
                                                 closed: seq<seq<string>>, open: seq<string>)
    requires i <= |sentences| && low <= high && |distances| < |sentences|
    requires closed != [] && i == |sentences| ==> open != []
    ensures Merges(GroupsFrom(sentences, distances, high, i, ChunkerLaws.Concat(closed) + open),
                   closed + GroupsFrom(sentences, distances, low, i, open))
    decreases |sentences| - i
  {
    var covered := ChunkerLaws.Concat(closed) + open;
    if i == |sentences| {
      if open != [] {
        CloseGroup(closed, open, [], []);
        assert [covered] + [] == [covered] && [open] + [] == [open];
      } else {
        assert closed == [] && covered == [];
      }
    } else {
      var open' := open + [sentences[i]];
      assert covered + [sentences[i]] == ChunkerLaws.Concat(closed) + open';
      if IsCut(distances, high, i) {
        HigherThresholdMerges(sentences, distances, low, high, i + 1, [], []);
        NothingOpen(GroupsFrom(sentences, distances, low, i + 1, []));
        CloseGroup(closed, open', GroupsFrom(sentences, distances, high, i + 1, []),
                   GroupsFrom(sentences, distances, low, i + 1, []));
      } else if IsCut(distances, low, i) {
        HigherThresholdMerges(sentences, distances, low, high, i + 1, closed + [open'], []);
        ExtendClosed(closed, open');
        assert closed + ([open'] + GroupsFrom(sentences, distances, low, i + 1, []))
            == closed + [open'] + GroupsFrom(sentences, distances, low, i + 1, []);
      } else {
        HigherThresholdMerges(sentences, distances, low, high, i + 1, closed, open');
      }
    }
  }

  lemma NothingOpen(fine: seq<seq<string>>)
    ensures ChunkerLaws.Concat([]) + [] == []
    ensures [] + fine == fine
  {
  }

  lemma ExtendClosed(closed: seq<seq<string>>, open: seq<string>)
    ensures ChunkerLaws.Concat(closed + [open]) == ChunkerLaws.Concat(closed) + open
    ensures ChunkerLaws.Concat(closed + [open]) + [] == ChunkerLaws.Concat(closed) + open
  {
    ConcatAppend(closed, [open]);
    ConcatOne(open);
  }

  /** A coarse cut closes the open fine group as well. */
  lemma CloseGroup(closed: seq<seq<string>>, open: seq<string>, coarse: seq<seq<string>>, fine: seq<seq<string>>)
    requires Merges(coarse, fine)
    ensures Merges([ChunkerLaws.Concat(closed) + open] + coarse, closed + ([open] + fine))
  {
    ExtendClosed(closed, open);
    Regroup(closed, [open], [], fine);
    MergeHead(closed + [open], coarse, fine);
  }

  /** Raising the percentile only merges neighbouring groups. */
  lemma RaisingPercentileMerges(sentences: seq<string>, distances: seq<real>, p: real, q: real)
    requires 0.0 <= p <= q <= 100.0 && |distances| == |sentences| - 1
    ensures Merges(Groups(sentences, distances, q), Groups(sentences, distances, p))
  {
    if distances != [] {
      PercentileIsMonotone(distances, p, q);
    }
    HigherThresholdMerges(sentences, distances, Percentile(distances, p), Percentile(distances, q), 0, [], []);
    var nothing: seq<string> := [];
    assert ChunkerLaws.Concat([]) + nothing == nothing;
    assert [] + Groups(sentences, distances, p) == Groups(sentences, distances, p);
  }

  // ---------------------------------------------------------------- chunk sizes

  ghost predicate WithinLimit(chunks: seq<string>, maxSize: nat) {
    forall c | c in chunks :: |c| <= maxSize
  }

  lemma {:induction false} ConcatWithin(groups: seq<seq<string>>, n: nat)
    requires forall i | 0 <= i < |groups| :: WithinLimit(groups[i], n)
    ensures WithinLimit(ChunkerLaws.Concat(groups), n)
  {
    if groups != [] {
      ConcatWithin(groups[1..], n);
    }
  }

  lemma OneWithin(chunk: string, maxSize: nat)
    requires maxSize >= 1
    ensures WithinLimit(LimitedOne(chunk, maxSize), maxSize)
  {
    ChunkerLaws.ChunkSizes(Config(maxSize, 0), chunk);
  }

  lemma LimitedWithin(chunks: seq<string>, maxSize: nat)
    requires maxSize >= 1
    ensures WithinLimit(Limited(chunks, maxSize), maxSize)
  {
    forall i | 0 <= i < |chunks| ensures WithinLimit(LimitedEach(chunks, maxSize)[i], maxSize) {
      OneWithin(chunks[i], maxSize);
    }
    ConcatWithin(LimitedEach(chunks, maxSize), maxSize);
  }

  /** One turn of the loop over the chunks. */
  lemma LimitedStep(chunks: seq<string>, i: nat, maxSize: nat)
    requires maxSize >= 1 && i < |chunks|
    ensures Limited(chunks[..i + 1], maxSize) == Limited(chunks[..i], maxSize) + LimitedOne(chunks[i], maxSize)
  {
    var before, one := LimitedEach(chunks[..i], maxSize), LimitedOne(chunks[i], maxSize);
    assert LimitedEach(chunks[..i + 1], maxSize) == before + [one];
    ConcatAppend(before, [one]);
    ConcatOne(one);
  }

  lemma {:induction false} StrippedWithin(chunks: seq<string>, n: nat)
    requires forall c | c in chunks :: |c| <= n
    ensures forall c | c in Stripped(chunks) :: 0 < |c| <= n
  {
    if chunks != [] {
      var last := chunks[|chunks| - 1];
      StrippedWithin(chunks[..|chunks| - 1], n);
      StripShrinks(last);
      assert last in chunks;
    }
  }

  /**
   Every chunk keeps to max_chunk_size unless the text is a single sentence that does not: that
   one is returned as it is. From two sentences on no chunk is empty either.
   */
  lemma SemanticChunkSizes(sentences: seq<string>, distances: seq<real>, percentile: real, maxSize: nat)
    requires 0.0 <= percentile <= 100.0 && maxSize >= 1
    ensures WithinLimit(SemanticChunks(sentences, distances, percentile, maxSize), maxSize) <==>
            (|sentences| == 1 ==> |sentences[0]| <= maxSize)
    ensures |sentences| >= 2 ==> forall c | c in SemanticChunks(sentences, distances, percentile, maxSize) :: c != ""
  {
    if |sentences| >= 2 {
      var joined := JoinAll(Groups(sentences, distances, percentile));
      LimitedWithin(joined, maxSize);
      StrippedWithin(Limited(joined, maxSize), maxSize);
    } else if |sentences| == 1 {
      assert sentences[0] in sentences;
    }
  }

  /** A single sentence of five characters against a limit of four. */
  lemma LongSentenceStaysWhole()
    ensures SemanticChunks(["abcd."], [], 60.0, 4) == ["abcd."]
    ensures !WithinLimit(SemanticChunks(["abcd."], [], 60.0, 4), 4)
  {
    assert "abcd." in ["abcd."];
  }

  // ---------------------------------------------------------------- the object

  class SemanticTextChunker {
    const thresholdPercentile: real
    const maxChunkSize: nat

    constructor (thresholdPercentile: real, maxChunkSize: nat)
      requires 0.0 <= thresholdPercentile <= 100.0 && maxChunkSize >= 1
      ensures this.thresholdPercentile == thresholdPercentile && this.maxChunkSize == maxChunkSize
    {
      this.thresholdPercentile := thresholdPercentile;
      this.maxChunkSize := maxChunkSize;
    }

    /** The indices whose distance reaches the threshold. */
    method SplitIndices(distances: seq<real>, threshold: real) returns (indices: set<nat>)
      ensures forall i: nat :: i in indices <==> IsCut(distances, threshold, i)
    {
      indices := {};
      var i := 0;
      while i < |distances|
        invariant 0 <= i <= |distances|
        invariant forall k: nat :: k in indices <==> k < i && IsCut(distances, threshold, k)
      {
        if distances[i] >= threshold {
          indices := indices + {i};
        }
        i := i + 1;
      }
    }

    method GroupSentences(sentences: seq<string>, distances: seq<real>, threshold: real) returns (chunks: seq<string>)
      ensures chunks == JoinAll(GroupsFrom(sentences, distances, threshold, 0, []))
    {
      var cuts := SplitIndices(distances, threshold);
      chunks := [];
      ghost var closed: seq<seq<string>> := [];
      var open: seq<string> := [];
      var i := 0;
      while i < |sentences|
        invariant 0 <= i <= |sentences|
        invariant chunks == JoinAll(closed)
        invariant closed + GroupsFrom(sentences, distances, threshold, i, open)
               == GroupsFrom(sentences, distances, threshold, 0, [])
      {
        open := open + [sentences[i]];
        if i in cuts {
          ghost var later := GroupsFrom(sentences, distances, threshold, i + 1, []);
          assert closed + ([open] + later) == (closed + [open]) + later;
          chunks := chunks + [Join(" ", open)];
          closed := closed + [open];
          open := [];
        }
        i := i + 1;
      }
      if open != [] {
        chunks := chunks + [Join(" ", open)];
        closed := closed + [open];
      }
    }

    method EnforceLimit(chunks: seq<string>) returns (limited: seq<string>)
      requires maxChunkSize >= 1
      ensures limited == Limited(chunks, maxChunkSize)
    {
      limited := [];
      var fallback := new RecursiveTextChunker(maxChunkSize, 0);
      var i := 0;
      while i < |chunks|
        invariant 0 <= i <= |chunks|
        invariant limited == Limited(chunks[..i], maxChunkSize)
      {
        LimitedStep(chunks, i, maxChunkSize);
        var finer := [chunks[i]];
        if |chunks[i]| > maxChunkSize {
          finer := fallback.Chunk(chunks[i]);
        }
        limited := limited + finer;
        i := i + 1;
      }
      assert chunks[..i] == chunks;
    }

    /** [c.strip() for c in final_chunks if c.strip()] */
    static method StripAll(all: seq<string>) returns (chunks: seq<string>)
      ensures chunks == Stripped(all)
    {
      chunks := [];
      var i := 0;
      while i < |all|
        invariant 0 <= i <= |all|
        invariant chunks == Stripped(all[..i])
      {
        assert all[..i + 1][..i] == all[..i];
        if NotBlank(all[i]) {
          chunks := chunks + [Strip(all[i])];
        }
        i := i + 1;
      }
      assert all[..i] == all;
    }

    /** `distances` come from the embedder, one for each pair of neighbouring sentences. */
    method Chunk(sentences: seq<string>, distances: seq<real>) returns (chunks: seq<string>)
      requires 0.0 <= thresholdPercentile <= 100.0 && maxChunkSize >= 1
      requires |sentences| >= 2 ==> |distances| == |sentences| - 1
      ensures chunks == SemanticChunks(sentences, distances, thresholdPercentile, maxChunkSize)
      ensures |sentences| <= 1 ==> chunks == sentences
    {
      if |sentences| <= 1 {
        return sentences;
      }
      var threshold := Percentile(distances, thresholdPercentile);
      var grouped := GroupSentences(sentences, distances, threshold);
      var limited := EnforceLimit(grouped);
      chunks := StripAll(limited);
    }
  }
}
