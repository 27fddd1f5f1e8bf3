/**
 Reciprocal Rank Fusion, src/retrieval/service.py: two ranked lists become one. Scores are
 exact reals; the rounding of the displayed score is not part of this model.
 */
module Fusion {
  import opened Common

  type Id = int

  /** A row of a retriever: the chunk and everything else that is shown about it. */
  datatype Row = Row(id: Id, details: string)

  datatype RankedChunk = RankedChunk(id: Id, details: string, score: real)

  const RRF_K: nat := 60

  // ---------------------------------------------------------------- scores

  function Weight(rank: nat): real
    requires rank >= 1
  {
    1.0 / (RRF_K + rank) as real
  }

  /** The sum over all occurrences in one list. Ranks count from 1. */
  function ScoreIn(rows: seq<Row>, id: Id): real {
    if rows == [] then 0.0
    else ScoreIn(rows[..|rows| - 1], id) + (if rows[|rows| - 1].id == id then Weight(|rows|) else 0.0)
  }

  function Score(dense: seq<Row>, sparse: seq<Row>, id: Id): real {
    ScoreIn(dense, id) + ScoreIn(sparse, id)
  }

  predicate Found(rows: seq<Row>, id: Id) {
    exists i | 0 <= i < |rows| :: rows[i].id == id
  }

  predicate NoRepeats(rows: seq<Row>) {
    forall i, k | 0 <= i < k < |rows| :: rows[i].id != rows[k].id
  }

  lemma {:induction false} ScoreOfAbsent(rows: seq<Row>, id: Id)
    requires !Found(rows, id)
    ensures ScoreIn(rows, id) == 0.0
  {
    if rows != [] {
      ScoreOfAbsent(rows[..|rows| - 1], id);
    }
  }

  lemma {:induction false} ScoreOfOnly(rows: seq<Row>, i: nat)
    requires NoRepeats(rows) && i < |rows|
    ensures ScoreIn(rows, rows[i].id) == Weight(i + 1)
  {
    var n := |rows| - 1;
    if i == n {
      ScoreOfAbsent(rows[..n], rows[i].id);
    } else {
      ScoreOfOnly(rows[..n], i);
    }
  }

  // ---------------------------------------------------------------- the order of the answer

  /** The keys of the score dictionary in insertion order. */
  function Keys(rows: seq<Row>): seq<Id> {
    if rows == [] then []
    else
      var before, last := Keys(rows[..|rows| - 1]), rows[|rows| - 1].id;
      if last in before then before else before + [last]
  }

  /** x goes behind everything that scores at least as much. */
  function Insert(sorted: seq<Id>, scores: map<Id, real>, x: Id): (r: seq<Id>)
    requires x in scores && forall y | y in sorted :: y in scores
    ensures |r| == |sorted| + 1
    ensures forall y :: y in r <==> y == x || y in sorted
  {
    if sorted == [] then [x]
    else
      var rest, last := sorted[..|sorted| - 1], sorted[|sorted| - 1];
      assert sorted == rest + [last] && last in sorted;
      if scores[last] >= scores[x] then sorted + [x] else Insert(rest, scores, x) + [last]
  }

  /** sorted(..., reverse=True): by score, and equal scores keep their order. */
  function SortByScore(ids: seq<Id>, scores: map<Id, real>): (sorted: seq<Id>)
    requires forall y | y in ids :: y in scores
    ensures |sorted| == |ids|
    ensures forall y :: y in sorted <==> y in ids
  {
    if ids == [] then []
    else
      assert ids == ids[..|ids| - 1] + [ids[|ids| - 1]];
      Insert(SortByScore(ids[..|ids| - 1], scores), scores, ids[|ids| - 1])
  }

  /** a comes before b. */
  ghost predicate Earlier(ids: seq<Id>, a: Id, b: Id) {
    exists i, k :: 0 <= i < k < |ids| && ids[i] == a && ids[k] == b
  }

  /** The order the answer must have: higher score first, first appearance breaking ties. */
  ghost predicate Outranks(ids: seq<Id>, scores: map<Id, real>, a: Id, b: Id)
    requires a in scores && b in scores
  {
    scores[a] > scores[b] || (scores[a] == scores[b] && Earlier(ids, a, b))
  }

  ghost predicate Ranked(sorted: seq<Id>, ids: seq<Id>, scores: map<Id, real>)
    requires forall y | y in sorted :: y in scores
  {
    forall i, k | 0 <= i < k < |sorted| :: Outranks(ids, scores, sorted[i], sorted[k])
  }

  lemma {:induction false} InsertRanks(sorted: seq<Id>, ids: seq<Id>, scores: map<Id, real>, x: Id)
    requires x in scores && forall y | y in sorted :: y in scores
    requires Ranked(sorted, ids, scores)
    requires forall y | y in sorted :: Earlier(ids, y, x)
    ensures Ranked(Insert(sorted, scores, x), ids, scores)
  {
    var r := Insert(sorted, scores, x);
    if sorted == [] || scores[sorted[|sorted| - 1]] >= scores[x] {
      forall i, k | 0 <= i < k < |r| ensures Outranks(ids, scores, r[i], r[k]) {
        if k == |sorted| {
          assert sorted[i] in sorted;
          assert i < |sorted| - 1 ==> Outranks(ids, scores, sorted[i], sorted[|sorted| - 1]);
        }
      }
    } else {
      var n := |sorted| - 1;
      InsertRanks(sorted[..n], ids, scores, x);
      var r' := Insert(sorted[..n], scores, x);
      forall i, k | 0 <= i < k < |r| ensures Outranks(ids, scores, r[i], r[k]) {
        if k < |r'| {
          assert Outranks(ids, scores, r'[i], r'[k]);
        } else if r[i] != x {
          assert r'[i] in sorted[..n];
          var p :| 0 <= p < n && sorted[p] == r'[i];
          assert Outranks(ids, scores, sorted[p], sorted[n]);
        }
      }
    }
  }

  ghost predicate Distinct(ids: seq<Id>) {
    forall i, k | 0 <= i < k < |ids| :: ids[i] != ids[k]
  }

  lemma EarlierGrows(ids: seq<Id>, more: seq<Id>, a: Id, b: Id)
    requires Earlier(ids, a, b)
    ensures Earlier(ids + more, a, b)
  {
    var i, k :| 0 <= i < k < |ids| && ids[i] == a && ids[k] == b;
    assert (ids + more)[i] == a && (ids + more)[k] == b;
  }

  lemma {:induction false} SortRanks(ids: seq<Id>, scores: map<Id, real>)
    requires forall y | y in ids :: y in scores
    ensures Ranked(SortByScore(ids, scores), ids, scores)
  {
    if ids != [] {
      var n := |ids| - 1;
      assert ids == ids[..n] + [ids[n]];
      SortRanks(ids[..n], scores);
      var rest := SortByScore(ids[..n], scores);
      forall i, k | 0 <= i < k < |rest| ensures Outranks(ids, scores, rest[i], rest[k]) {
        if scores[rest[i]] == scores[rest[k]] {
          EarlierGrows(ids[..n], [ids[n]], rest[i], rest[k]);
        }
      }
      forall y | y in rest ensures Earlier(ids, y, ids[n]) {
        var i :| 0 <= i < n && ids[..n][i] == y;
        assert ids[i] == y;
      }
      InsertRanks(rest, ids, scores, ids[n]);
    }
  }

  lemma {:induction false} KeysAreDistinct(rows: seq<Row>)
    ensures Distinct(Keys(rows))
    ensures forall id :: id in Keys(rows) <==> Found(rows, id)
  {
    if rows != [] {
      var n := |rows| - 1;
      KeysAreDistinct(rows[..n]);
      forall id ensures id in Keys(rows) <==> Found(rows, id) {
        assert Found(rows, id) <==> Found(rows[..n], id) || rows[n].id == id;
      }
    }
  }

  /** Ranked by distinct keys, an element never comes both before and behind another. */
  lemma OutranksIsStrict(ids: seq<Id>, scores: map<Id, real>, a: Id, b: Id)
    requires Distinct(ids) && a in scores && b in scores && Outranks(ids, scores, a, b)
    ensures a != b && !Outranks(ids, scores, b, a)
  {
    if scores[a] == scores[b] {
      var i, k :| 0 <= i < k < |ids| && ids[i] == a && ids[k] == b;
      assert !Earlier(ids, b, a);
      assert a != b;
    }
  }

  // ---------------------------------------------------------------- the answer

  function Scores(dense: seq<Row>, sparse: seq<Row>): map<Id, real> {
    map id | id in Keys(dense + sparse) :: Score(dense, sparse, id)
  }

  /** All chunks found by either retriever, best first. */
  function Ranking(dense: seq<Row>, sparse: seq<Row>): seq<Id> {
    SortByScore(Keys(dense + sparse), Scores(dense, sparse))
  }

  /** The last row a list has for an id. */
  function LastRow(rows: seq<Row>, id: Id): Row
    requires Found(rows, id)
  {
    if rows[|rows| - 1].id == id then rows[|rows| - 1] else LastRow(rows[..|rows| - 1], id)
  }

  function FirstRow(rows: seq<Row>, id: Id): Row
    requires Found(rows, id)
  {
    if Found(rows[..|rows| - 1], id) then FirstRow(rows[..|rows| - 1], id) else rows[|rows| - 1]
  }

  /** The dense list has priority; within it the last row wins, within the sparse list the first. */
  function RowFor(dense: seq<Row>, sparse: seq<Row>, id: Id): Row
    requires Found(dense, id) || Found(sparse, id)
  {
    if Found(dense, id) then LastRow(dense, id) else FirstRow(sparse, id)
  }

  lemma RankingMembers(dense: seq<Row>, sparse: seq<Row>)
    ensures forall id :: id in Ranking(dense, sparse) <==> Found(dense, id) || Found(sparse, id)
  {
    KeysAreDistinct(dense + sparse);
    forall id ensures Found(dense + sparse, id) <==> Found(dense, id) || Found(sparse, id) {
      if i :| 0 <= i < |dense| && dense[i].id == id {
        assert (dense + sparse)[i].id == id;
      }
      if i :| 0 <= i < |sparse| && sparse[i].id == id {
        assert (dense + sparse)[|dense| + i].id == id;
      }
    }
  }

  /** The i-th entry of the answer. */
  function Entry(dense: seq<Row>, sparse: seq<Row>, i: nat): RankedChunk
    requires i < |Ranking(dense, sparse)|
  {
    var id := Ranking(dense, sparse)[i];
    RankingMembers(dense, sparse);
    assert id in Ranking(dense, sparse);
    RankedChunk(id, RowFor(dense, sparse, id).details, Score(dense, sparse, id))
  }

  // ---------------------------------------------------------------- the loops

  lemma OneRow(rows: seq<Row>, row: Row, id: Id)
    ensures Keys(rows + [row]) == if row.id in Keys(rows) then Keys(rows) else Keys(rows) + [row.id]
    ensures ScoreIn(rows + [row], id) == ScoreIn(rows, id) + (if row.id == id then Weight(|rows| + 1) else 0.0)
    ensures Found(rows + [row], id) <==> Found(rows, id) || row.id == id
    ensures Found(rows + [row], id) ==> LastRow(rows + [row], id) == if row.id == id then row else LastRow(rows, id)
    ensures Found(rows + [row], id) ==>
      FirstRow(rows + [row], id) == if Found(rows, id) then FirstRow(rows, id) else row
    ensures !Found(rows, id) ==> ScoreIn(rows, id) == 0.0
  {
    assert (rows + [row])[..|rows|] == rows;
    if i :| 0 <= i < |rows| && rows[i].id == id {
      assert (rows + [row])[i].id == id;
    }
    assert (rows + [row])[|rows|].id == row.id;
    if !Found(rows, id) {
      ScoreOfAbsent(rows, id);
    }
  }

  /** What the two dictionaries hold about one id. */
  ghost predicate TallyAt(scores: map<Id, real>, metadata: map<Id, Row>, dense: seq<Row>, sparse: seq<Row>, id: Id) {
    && (id in scores <==> Found(dense, id) || Found(sparse, id))
    && (id in metadata <==> Found(dense, id) || Found(sparse, id))
    && (id in scores ==> scores[id] == Score(dense, sparse, id))
    && (id in metadata ==> metadata[id] == RowFor(dense, sparse, id))
  }

  /** The two dictionaries, with the insertion order of their common keys. */
  ghost predicate Tallied(keys: seq<Id>, scores: map<Id, real>, metadata: map<Id, Row>, dense: seq<Row>,
                          sparse: seq<Row>) {
    keys == Keys(dense + sparse) && forall id :: TallyAt(scores, metadata, dense, sparse, id)
  }

  lemma KeyKnown(dense: seq<Row>, sparse: seq<Row>, id: Id)
    ensures id in Keys(dense + sparse) <==> Found(dense, id) || Found(sparse, id)
  {
    KeysAreDistinct(dense + sparse);
    RankingMembers(dense, sparse);
    assert id in Keys(dense + sparse) <==> id in Ranking(dense, sparse);
  }

  function Bumped(scores: map<Id, real>, id: Id, weight: real): map<Id, real> {
    scores[id := (if id in scores then scores[id] else 0.0) + weight]
  }

  lemma TallyDenseAt(scores: map<Id, real>, metadata: map<Id, Row>, dense: seq<Row>, row: Row, id: Id)
    requires TallyAt(scores, metadata, dense, [], id)
    ensures TallyAt(Bumped(scores, row.id, Weight(|dense| + 1)), metadata[row.id := row], dense + [row], [], id)
  {
    OneRow(dense, row, id);
  }

  lemma TallySparseAt(scores: map<Id, real>, metadata: map<Id, Row>, dense: seq<Row>, sparse: seq<Row>, row: Row,
                      id: Id)
    requires TallyAt(scores, metadata, dense, sparse, id)
    ensures TallyAt(Bumped(scores, row.id, Weight(|sparse| + 1)),
                    if row.id in metadata then metadata else metadata[row.id := row], dense, sparse + [row], id)
  {
    OneRow(sparse, row, id);
    if !Found(dense, id) {
      ScoreOfAbsent(dense, id);
    }
  }

  lemma TallyDense(keys: seq<Id>, scores: map<Id, real>, metadata: map<Id, Row>, dense: seq<Row>, row: Row)
    requires Tallied(keys, scores, metadata, dense, [])
    ensures Tallied(if row.id in scores then keys else keys + [row.id], Bumped(scores, row.id, Weight(|dense| + 1)),
                    metadata[row.id := row], dense + [row], [])
  {
    assert dense + [] == dense && dense + [row] + [] == dense + [row];
    assert TallyAt(scores, metadata, dense, [], row.id);
    OneRow(dense, row, row.id);
    KeyKnown(dense, [], row.id);
    var scores', metadata' := Bumped(scores, row.id, Weight(|dense| + 1)), metadata[row.id := row];
    var dense' := dense + [row];
    forall id ensures TallyAt(scores', metadata', dense', [], id) {
      assert TallyAt(scores, metadata, dense, [], id);
      TallyDenseAt(scores, metadata, dense, row, id);
    }
  }

  lemma TallySparse(keys: seq<Id>, scores: map<Id, real>, metadata: map<Id, Row>, dense: seq<Row>, sparse: seq<Row>,
                    row: Row)
    requires Tallied(keys, scores, metadata, dense, sparse)
    ensures Tallied(if row.id in scores then keys else keys + [row.id], Bumped(scores, row.id, Weight(|sparse| + 1)),
                    if row.id in metadata then metadata else metadata[row.id := row], dense, sparse + [row])
  {
    assert dense + (sparse + [row]) == (dense + sparse) + [row];
    assert TallyAt(scores, metadata, dense, sparse, row.id);
    OneRow(dense + sparse, row, row.id);
    KeyKnown(dense, sparse, row.id);
    var scores', sparse' := Bumped(scores, row.id, Weight(|sparse| + 1)), sparse + [row];
    var metadata' := if row.id in metadata then metadata else metadata[row.id := row];
    forall id ensures TallyAt(scores', metadata', dense, sparse', id) {
      assert TallyAt(scores, metadata, dense, sparse, id);
      TallySparseAt(scores, metadata, dense, sparse, row, id);
    }
  }

  lemma NothingTallied()
    ensures Tallied([], map[], map[], [], [])
  {
  }

  /** One turn of the loop over the dense list. */
  method TallyDenseRow(keys: seq<Id>, scores: map<Id, real>, metadata: map<Id, Row>, row: Row, rank: nat,
                       ghost seen: seq<Row>)
    returns (keys': seq<Id>, scores': map<Id, real>, metadata': map<Id, Row>)
    requires rank == |seen| + 1 && Tallied(keys, scores, metadata, seen, [])
    ensures Tallied(keys', scores', metadata', seen + [row], [])
  {
    TallyDense(keys, scores, metadata, seen, row);
    keys' := if row.id in scores then keys else keys + [row.id];
    scores' := Bumped(scores, row.id, Weight(rank));
    metadata' := metadata[row.id := row];
  }

  /** One turn of the loop over the sparse list. */
  method TallySparseRow(keys: seq<Id>, scores: map<Id, real>, metadata: map<Id, Row>, row: Row, rank: nat,
                        ghost dense: seq<Row>, ghost seen: seq<Row>)
    returns (keys': seq<Id>, scores': map<Id, real>, metadata': map<Id, Row>)
    requires rank == |seen| + 1 && Tallied(keys, scores, metadata, dense, seen)
    ensures Tallied(keys', scores', metadata', dense, seen + [row])
  {
    TallySparse(keys, scores, metadata, dense, seen, row);
    keys' := if row.id in scores then keys else keys + [row.id];
    scores' := Bumped(scores, row.id, Weight(rank));
    metadata' := if row.id in metadata then metadata else metadata[row.id := row];
  }

  method TallyDenseRows(dense: seq<Row>) returns (keys: seq<Id>, scores: map<Id, real>, metadata: map<Id, Row>)
    ensures Tallied(keys, scores, metadata, dense, [])
  {
    keys, scores, metadata := [], map[], map[];
    ghost var seen: seq<Row> := [];
    NothingTallied();
    var rank := 1;
    while rank <= |dense|
      invariant 1 <= rank <= |dense| + 1
      invariant seen == dense[..rank - 1]
      invariant Tallied(keys, scores, metadata, seen, [])
    {
      var row := dense[rank - 1];
      keys, scores, metadata := TallyDenseRow(keys, scores, metadata, row, rank, seen);
      seen := seen + [row];
      rank := rank + 1;
    }
    assert seen == dense;
  }

  method TallySparseRows(dense: seq<Row>, sparse: seq<Row>, keys0: seq<Id>, scores0: map<Id, real>,
                         metadata0: map<Id, Row>)
    returns (keys: seq<Id>, scores: map<Id, real>, metadata: map<Id, Row>)
    requires Tallied(keys0, scores0, metadata0, dense, [])
    ensures Tallied(keys, scores, metadata, dense, sparse)
  {
    keys, scores, metadata := keys0, scores0, metadata0;
    ghost var seen: seq<Row> := [];
    var rank := 1;
    while rank <= |sparse|
      invariant 1 <= rank <= |sparse| + 1
      invariant seen == sparse[..rank - 1]
      invariant Tallied(keys, scores, metadata, dense, seen)
    {
      var row := sparse[rank - 1];
      keys, scores, metadata := TallySparseRow(keys, scores, metadata, row, rank, dense, seen);
      seen := seen + [row];
      rank := rank + 1;
    }
    assert seen == sparse;
  }

  lemma TalliedScores(keys: seq<Id>, scores: map<Id, real>, metadata: map<Id, Row>, dense: seq<Row>, sparse: seq<Row>)
    requires Tallied(keys, scores, metadata, dense, sparse)
    ensures scores == Scores(dense, sparse)
    ensures forall id | id in Ranking(dense, sparse) ::
      id in scores && scores[id] == Score(dense, sparse, id) &&
      id in metadata && (Found(dense, id) || Found(sparse, id)) && metadata[id] == RowFor(dense, sparse, id)
  {
    RankingMembers(dense, sparse);
    forall id ensures id in Keys(dense + sparse) <==> id in scores {
      KeyKnown(dense, sparse, id);
      assert TallyAt(scores, metadata, dense, sparse, id);
    }
    forall id | id in Ranking(dense, sparse)
      ensures id in scores && scores[id] == Score(dense, sparse, id) &&
              id in metadata && (Found(dense, id) || Found(sparse, id)) && metadata[id] == RowFor(dense, sparse, id)
    {
      assert TallyAt(scores, metadata, dense, sparse, id);
    }
    forall id | id in scores ensures scores[id] == Score(dense, sparse, id) {
      assert TallyAt(scores, metadata, dense, sparse, id);
    }
    assert scores.Keys == Scores(dense, sparse).Keys;
  }

  /** Every entry of the answer is the one the ranking prescribes, and there are top_k of them if there can be. */
  method ReciprocalRankFusion(dense: seq<Row>, sparse: seq<Row>, topK: nat) returns (results: seq<RankedChunk>)
    ensures |results| == Min(topK, |Ranking(dense, sparse)|)
    ensures forall i | 0 <= i < |results| :: results[i] == Entry(dense, sparse, i)
  {
    var keys, scores, metadata := TallyDenseRows(dense);
    keys, scores, metadata := TallySparseRows(dense, sparse, keys, scores, metadata);
    TalliedScores(keys, scores, metadata, dense, sparse);
    var sorted := SortByScore(keys, scores);
    results := [];
    var i := 0;
    while i < topK && i < |sorted|
      invariant 0 <= i <= |sorted| && i <= topK && |results| == i
      invariant forall k | 0 <= k < i :: results[k] == Entry(dense, sparse, k)
    {
      var id := sorted[i];
      assert id in sorted;
      results := results + [RankedChunk(id, metadata[id].details, scores[id])];
      i := i + 1;
    }
  }

  // ---------------------------------------------------------------- what the answer is worth

  /** a is ahead of b in the full ranking, hence in every answer that shows b. */
  ghost predicate Ahead(dense: seq<Row>, sparse: seq<Row>, a: Id, b: Id) {
    Earlier(Ranking(dense, sparse), a, b)
  }

  /**
   The ranking has every id once, by falling score and, for equal scores, first appearance. So
   an id left out of an answer never scores higher than one that is in it.
   */
  lemma RankingIsSorted(dense: seq<Row>, sparse: seq<Row>, i: nat, k: nat)
    requires i < k < |Ranking(dense, sparse)|
    ensures var r := Ranking(dense, sparse);
      && r[i] != r[k]
      && Score(dense, sparse, r[i]) >= Score(dense, sparse, r[k])
      && (Score(dense, sparse, r[i]) == Score(dense, sparse, r[k]) ==> Earlier(Keys(dense + sparse), r[i], r[k]))
  {
    var r, ids, scores := Ranking(dense, sparse), Keys(dense + sparse), Scores(dense, sparse);
    KeysAreDistinct(dense + sparse);
    SortRanks(ids, scores);
    assert r[i] in r && r[k] in r;
    assert Outranks(ids, scores, r[i], r[k]);
    OutranksIsStrict(ids, scores, r[i], r[k]);
  }

  lemma HigherScoreIsAhead(dense: seq<Row>, sparse: seq<Row>, a: Id, b: Id)
    requires Found(dense, a) || Found(sparse, a)
    requires Found(dense, b) || Found(sparse, b)
    requires Score(dense, sparse, a) > Score(dense, sparse, b)
    ensures Ahead(dense, sparse, a, b)
  {
    var r := Ranking(dense, sparse);
    RankingMembers(dense, sparse);
    assert a in r && b in r;
    var i :| 0 <= i < |r| && r[i] == a;
    var k :| 0 <= k < |r| && r[k] == b;
    if k < i {
      RankingIsSorted(dense, sparse, k, i);
    }
    assert i < k;
  }

  // What an entry says, with the weight written out.

  lemma ScoreCounts(rows: seq<Row>, row: Row, id: Id)
    ensures ScoreIn([], id) == 0.0
    ensures ScoreIn(rows + [row], id)
         == ScoreIn(rows, id) + (if row.id == id then 1.0 / (60 + |rows| + 1) as real else 0.0)
  {
    OneRow(rows, row, id);
  }

  /** The details are those of the last dense row with the id, or else of the first sparse one. */
  lemma {:induction false} LastRowIs(rows: seq<Row>, id: Id) returns (p: nat)
    requires Found(rows, id)
    ensures p < |rows| && LastRow(rows, id) == rows[p] && rows[p].id == id
    ensures forall k | p < k < |rows| :: rows[k].id != id
  {
    p := |rows| - 1;
    if rows[p].id != id {
      p := LastRowIs(rows[..p], id);
    }
  }

  lemma {:induction false} FirstRowIs(rows: seq<Row>, id: Id) returns (p: nat)
    requires Found(rows, id)
    ensures p < |rows| && FirstRow(rows, id) == rows[p] && rows[p].id == id
    ensures forall k | 0 <= k < p :: rows[k].id != id
  {
    p := |rows| - 1;
    if Found(rows[..p], id) {
      p := FirstRowIs(rows[..p], id);
    } else {
      assert forall k | 0 <= k < p :: rows[k] == rows[..p][k];
    }
  }

  lemma EntryDetails(dense: seq<Row>, sparse: seq<Row>, i: nat) returns (p: nat)
    requires i < |Ranking(dense, sparse)|
    ensures var e, id := Entry(dense, sparse, i), Ranking(dense, sparse)[i];
      && e.id == id
      && (if exists k | 0 <= k < |dense| :: dense[k].id == id then
            && p < |dense| && dense[p].id == id && e.details == dense[p].details
            && forall k | p < k < |dense| :: dense[k].id != id
          else
            && p < |sparse| && sparse[p].id == id && e.details == sparse[p].details
            && forall k | 0 <= k < p :: sparse[k].id != id)
  {
    var id := Ranking(dense, sparse)[i];
    RankingMembers(dense, sparse);
    assert id in Ranking(dense, sparse);
    if Found(dense, id) {
      p := LastRowIs(dense, id);
    } else {
      p := FirstRowIs(sparse, id);
    }
  }

  /** An id found at one rank by each retriever scores 1/(60+rank) for each of the two. */
  lemma EntryScore(dense: seq<Row>, sparse: seq<Row>, i: nat)
    requires NoRepeats(dense) && NoRepeats(sparse) && i < |Ranking(dense, sparse)|
    ensures var score, id := Entry(dense, sparse, i).score, Ranking(dense, sparse)[i];
      && (forall p, q | 0 <= p < |dense| && 0 <= q < |sparse| && dense[p].id == sparse[q].id == id ::
            score == 1.0 / (60 + (p + 1)) as real + 1.0 / (60 + (q + 1)) as real)
      && (forall p | 0 <= p < |dense| && dense[p].id == id && !Found(sparse, id) ::
            score == 1.0 / (60 + (p + 1)) as real)
      && (forall q | 0 <= q < |sparse| && sparse[q].id == id && !Found(dense, id) ::
            score == 1.0 / (60 + (q + 1)) as real)
  {
    var score, id := Entry(dense, sparse, i).score, Ranking(dense, sparse)[i];
    forall p | 0 <= p < |dense| && dense[p].id == id ensures ScoreIn(dense, id) == 1.0 / (60 + (p + 1)) as real {
      ScoreOfOnly(dense, p);
    }
    forall q | 0 <= q < |sparse| && sparse[q].id == id ensures ScoreIn(sparse, id) == 1.0 / (60 + (q + 1)) as real {
      ScoreOfOnly(sparse, q);
    }
    if !Found(sparse, id) {
      ScoreOfAbsent(sparse, id);
    }
    if !Found(dense, id) {
      ScoreOfAbsent(dense, id);
    }
    assert score == ScoreIn(dense, id) + ScoreIn(sparse, id);
  }

  /** Wherever b is listed, a is listed no later. */
  ghost predicate NoWorse(rows: seq<Row>, a: Id, b: Id) {
    forall k | 0 <= k < |rows| && rows[k].id == b :: exists i :: 0 <= i <= k && rows[i].id == a
  }

  /** a is listed, and b is not or is listed later. */
  ghost predicate Better(rows: seq<Row>, a: Id, b: Id) {
    exists i :: 0 <= i < |rows| && rows[i].id == a && forall k | 0 <= k < |rows| && rows[k].id == b :: i < k
  }

  lemma WeightDecreases(i: nat, k: nat)
    requires 1 <= i <= k
    ensures 0.0 < Weight(k) <= Weight(i)
    ensures i < k ==> Weight(k) < Weight(i)
  {
  }

  lemma EarlierRowScores(rows: seq<Row>, i: nat, k: nat)
    requires NoRepeats(rows) && i <= k < |rows|
    ensures ScoreIn(rows, rows[i].id) >= ScoreIn(rows, rows[k].id)
    ensures i < k ==> ScoreIn(rows, rows[i].id) > ScoreIn(rows, rows[k].id)
  {
    ScoreOfOnly(rows, i);
    ScoreOfOnly(rows, k);
    WeightDecreases(i + 1, k + 1);
  }

  lemma ListedScores(rows: seq<Row>, id: Id)
    requires NoRepeats(rows)
    ensures ScoreIn(rows, id) >= 0.0
    ensures Found(rows, id) ==> ScoreIn(rows, id) > 0.0
  {
    if i :| 0 <= i < |rows| && rows[i].id == id {
      ScoreOfOnly(rows, i);
      WeightDecreases(i + 1, i + 1);
    } else {
      ScoreOfAbsent(rows, id);
    }
  }

  lemma Positions(rows: seq<Row>, a: Id, b: Id) returns (i: nat, k: nat)
    requires a != b && NoWorse(rows, a, b) && Found(rows, b)
    ensures i < k < |rows| && rows[i].id == a && rows[k].id == b
  {
    k :| 0 <= k < |rows| && rows[k].id == b;
    i :| 0 <= i <= k && rows[i].id == a;
  }

  lemma BetterIsStrict(rows: seq<Row>, a: Id, b: Id)
    requires Better(rows, a, b)
    ensures a != b && Found(rows, a)
  {
  }

  lemma NoWorseScores(rows: seq<Row>, a: Id, b: Id)
    requires a != b && NoRepeats(rows) && NoWorse(rows, a, b)
    ensures ScoreIn(rows, a) >= ScoreIn(rows, b)
    ensures Better(rows, a, b) ==> ScoreIn(rows, a) > ScoreIn(rows, b)
  {
    if Found(rows, b) {
      var i, k := Positions(rows, a, b);
      EarlierRowScores(rows, i, k);
    } else {
      ScoreOfAbsent(rows, b);
      ListedScores(rows, a);
    }
  }

  /** An id ranked no worse by both retrievers and better by one of them is ahead. */
  lemma DominanceWins(dense: seq<Row>, sparse: seq<Row>, a: Id, b: Id)
    requires NoRepeats(dense) && NoRepeats(sparse)
    requires NoWorse(dense, a, b) && NoWorse(sparse, a, b)
    requires Better(dense, a, b) || Better(sparse, a, b)
    requires Found(dense, b) || Found(sparse, b)
    ensures Ahead(dense, sparse, a, b)
  {
    if Better(dense, a, b) {
      BetterIsStrict(dense, a, b);
    } else {
      BetterIsStrict(sparse, a, b);
    }
    NoWorseScores(dense, a, b);
    NoWorseScores(sparse, a, b);
    HigherScoreIsAhead(dense, sparse, a, b);
  }

  lemma ScoreBetween(rows: seq<Row>, id: Id)
    requires NoRepeats(rows) && |rows| <= 61 && Found(rows, id)
    ensures Weight(61) <= ScoreIn(rows, id) <= Weight(1)
  {
    var i :| 0 <= i < |rows| && rows[i].id == id;
    ScoreOfOnly(rows, i);
    WeightDecreases(i + 1, 61);
    WeightDecreases(1, i + 1);
  }

  /** With at most 61 rows a side, agreement of both retrievers beats any rank given by one. */
  lemma ConsensusWins(dense: seq<Row>, sparse: seq<Row>, a: Id, b: Id)
    requires NoRepeats(dense) && NoRepeats(sparse) && |dense| <= 61 && |sparse| <= 61
    requires Found(dense, a) && Found(sparse, a)
    requires Found(dense, b) != Found(sparse, b)
    ensures Ahead(dense, sparse, a, b)
  {
    ScoreBetween(dense, a);
    ScoreBetween(sparse, a);
    if Found(dense, b) {
      ScoreBetween(dense, b);
      ScoreOfAbsent(sparse, b);
    } else {
      ScoreBetween(sparse, b);
      ScoreOfAbsent(dense, b);
    }
    assert Weight(61) + Weight(61) > Weight(1);
    HigherScoreIsAhead(dense, sparse, a, b);
  }

  /** 61 is tight: 62 rows a side in which the last row of both lists ties with the first of one. */
  lemma ConsensusIsTight() returns (dense: seq<Row>, sparse: seq<Row>, a: Id, b: Id)
    ensures NoRepeats(dense) && NoRepeats(sparse) && |dense| == |sparse| == 62
    ensures Found(dense, a) && Found(sparse, a) && Found(dense, b) && !Found(sparse, b)
    ensures !Ahead(dense, sparse, a, b)
  {
    dense := seq(62, i => Row(i, ""));
    sparse := seq(62, i => Row(if i == 61 then 61 else 100 + i, ""));
    a, b := 61, 0;
    assert dense[61].id == a && sparse[61].id == a && dense[0].id == b;
    ScoreOfOnly(dense, 61);
    ScoreOfOnly(sparse, 61);
    ScoreOfOnly(dense, 0);
    ScoreOfAbsent(sparse, b);
    assert Weight(62) + Weight(62) == Weight(1);
    assert Score(dense, sparse, a) == Score(dense, sparse, b);
    if Ahead(dense, sparse, a, b) {
      var r := Ranking(dense, sparse);
      var i, k :| 0 <= i < k < |r| && r[i] == a && r[k] == b;
      RankingIsSorted(dense, sparse, i, k);
      FirstKey(dense + sparse, a);
    }
  }

  /** The first row's id is the first key. */
  lemma {:induction false} FirstKeyIs(rows: seq<Row>)
    requires rows != []
    ensures Keys(rows) != [] && Keys(rows)[0] == rows[0].id
  {
    if |rows| > 1 {
      FirstKeyIs(rows[..|rows| - 1]);
    }
  }

  lemma FirstKey(rows: seq<Row>, a: Id)
    requires rows != []
    ensures !Earlier(Keys(rows), a, rows[0].id)
  {
    FirstKeyIs(rows);
    KeysAreDistinct(rows);
  }

  /** What hybrid_search asks each retriever for, with its default multiplier. */
  function Candidates(topK: nat): nat {
    topK * 2
  }

  ghost predicate ConsensusAlwaysWins(topK: nat) {
    forall dense, sparse, a, b ::
      (&& |dense| <= Candidates(topK) && |sparse| <= Candidates(topK) && NoRepeats(dense) && NoRepeats(sparse)
       && Found(dense, a) && Found(sparse, a) && Found(dense, b) != Found(sparse, b))
      ==> Ahead(dense, sparse, a, b)
  }

  /** So hybrid_search prefers what both retrievers found exactly for top_k up to 30. */
  lemma HybridSearchConsensus(topK: nat)
    ensures ConsensusAlwaysWins(topK) <==> topK <= 30
  {
    if topK <= 30 {
      forall dense, sparse, a, b |
        && |dense| <= Candidates(topK) && |sparse| <= Candidates(topK) && NoRepeats(dense) && NoRepeats(sparse)
        && Found(dense, a) && Found(sparse, a) && Found(dense, b) != Found(sparse, b)
        ensures Ahead(dense, sparse, a, b)
      {
        ConsensusWins(dense, sparse, a, b);
      }
    } else {
      var dense, sparse, a, b := ConsensusIsTight();
    }
  }
}
