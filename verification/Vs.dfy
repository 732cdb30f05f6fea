// The weekly-ranking ingest (internal/ingest/vs.go): every row becomes a fact, a
// review item or a recognized duplicate, and absent members may become zeroes.
module Vs {
  import opened Points
  import opened PointsText
  import opened Wrappers
  import opened Repair
  import opened Assign
  import opened Facts
  import opened Ranking
  import HeaderCards

  const ZERO_CONFIDENCE := 0.90
  const RESIDUAL_CONFIDENCE := 0.85

  // One deduped ranking row: what both fields read, and what a second reading of
  // the points would give if it were asked for.
  datatype Row = Row(screenshotId: int, band: HeaderCards.Band, nameText: string, pointsText: string, pointsConf: real,
                     fromRetry: bool, scores: seq<int>, lateText: string, lateConf: real)

  datatype Reason = NoConfidentMatch | AmbiguousName | UnparseablePoints | PointsOutOfOrder | LowConfidencePoints

  datatype ReviewItem = ReviewItem(screenshotId: int, band: HeaderCards.Band, rawText: string,
                                   candidates: seq<Candidate>, reason: Reason, confidence: real)

  // Where a written value came from.
  datatype Origin = ReadOnce | FromRepair | ReadAgain

  datatype Outcome =
    | Dropped                                             // a second sighting
    | Nameless(item: ReviewItem)                          // nobody it could be attributed to
    | Held(item: ReviewItem)                              // attributed, but its value goes to a human
    | Written(points: int, confidence: real, origin: Origin)

  // ----------------------------------------------------------- one row's fate

  // The points of a row: read, else repaired, else read again inside the window.
  datatype Reading = Unreadable | Reading(points: int, confidence: real, origin: Origin)

  ghost function ReadingOf(row: Row, b: PointsBound): Reading {
    var trimmed := TrimPointsArtifact(row.pointsText);
    var late := InWindow(TrimPointsArtifact(row.lateText), b);
    if ParsePoints(trimmed).Some? then Reading(ParsePoints(trimmed).value, row.pointsConf, ReadOnce)
    else if Repaired(trimmed, b).Some? then Reading(Repaired(trimmed, b).value, row.pointsConf, FromRepair)
    else if !row.fromRetry && late.Some? then Reading(late.value, row.lateConf, ReadAgain)
    else Unreadable
  }

  function NameConfidence(a: Assignment): real {
    if a.phase == Residual then RESIDUAL_CONFIDENCE else a.score as real / 100.0
  }

  function MinReal(x: real, y: real): real {
    if x < y then x else y
  }

  // A window closed on both sides and no wider than the value itself.
  predicate Corroborates(b: PointsBound, points: int) {
    b.lo > 0 && b.hi < MAX_INT64 && b.hi - b.lo <= points
  }

  function Blend(a: Assignment, r: Reading, b: PointsBound): real
    requires r.Reading?
  {
    var conf := MinReal(NameConfidence(a), r.confidence);
    if r.origin != FromRepair && Corroborates(b, r.points) && conf < FACT_GATE then FACT_GATE else conf
  }

  ghost function AttributedOutcome(row: Row, a: Assignment, b: PointsBound): Outcome {
    var r := ReadingOf(row, b);
    if r.Unreadable? then
      Held(ReviewItem(row.screenshotId, row.band,
                      if row.fromRetry then row.pointsText else row.pointsText + " | retry: " + row.lateText, [],
                      UnparseablePoints, 0.0))
    else if !WithinBounds(r.points, b) then
      Held(ReviewItem(row.screenshotId, row.band, row.pointsText, [], PointsOutOfOrder, 0.0))
    else if Blend(a, r, b) < FACT_GATE then
      Held(ReviewItem(row.screenshotId, row.band, row.pointsText, [], LowConfidencePoints, Blend(a, r, b)))
    else
      Written(r.points, Blend(a, r, b), r.origin)
  }

  // What the matcher was choosing between: each member, by its place in the list,
  // with its score against this row.
  function ScoredMembers(scores: seq<int>): (cs: seq<Candidate>)
    ensures |cs| == |scores| && forall j :: 0 <= j < |cs| ==> cs[j] == Candidate(j, scores[j])
  {
    if scores == [] then []
    else ScoredMembers(scores[..|scores| - 1]) + [Candidate(|scores| - 1, scores[|scores| - 1])]
  }

  function CandidatesFor(row: Row): seq<Candidate> {
    Ranked(ScoredMembers(row.scores))
  }

  ghost predicate HasNearMatch(scores: seq<int>) {
    exists j :: 0 <= j < |scores| && scores[j] >= REVIEW_FLOOR
  }

  lemma HeadIsNearIff(row: Row)
    ensures CandidatesFor(row) != [] && CandidatesFor(row)[0].score >= REVIEW_FLOOR <==> HasNearMatch(row.scores)
  {
    var cs := ScoredMembers(row.scores);
    if cs != [] {
      var i := HeadIsFirstBest(cs);
      assert row.scores[i] == cs[i].score;
      assert forall j :: 0 <= j < |cs| ==> row.scores[j] == cs[j].score;
    }
  }

  ghost function OutcomeOf(row: Row, a: Assignment, b: PointsBound): Outcome {
    if a.phase == Duplicate then Dropped
    else if a.member < 0 then
      Nameless(ReviewItem(row.screenshotId, row.band, row.nameText, CandidatesFor(row),
                          if HasNearMatch(row.scores) then AmbiguousName else NoConfidentMatch, 0.0))
    else AttributedOutcome(row, a, b)
  }

  // ------------------------------------------------------------------ tallies

  datatype Tally = Tally(matched: nat, queued: nat, unidentified: nat, duplicates: nat, facts: nat)

  function Count(t: Tally, o: Outcome): Tally {
    match o
    case Dropped => t.(duplicates := t.duplicates + 1)
    case Nameless(_) => t.(unidentified := t.unidentified + 1, queued := t.queued + 1)
    case Held(_) => t.(matched := t.matched + 1, queued := t.queued + 1)
    case Written(_, _, _) => t.(matched := t.matched + 1, facts := t.facts + 1)
  }

  ghost function TallyOf(outcomes: seq<Outcome>): (t: Tally)
    ensures t.matched + t.duplicates + t.unidentified == |outcomes|
    ensures t.facts + t.queued == t.matched + t.unidentified
  {
    if outcomes == [] then Tally(0, 0, 0, 0, 0)
    else Count(TallyOf(outcomes[..|outcomes| - 1]), outcomes[|outcomes| - 1])
  }

  ghost function ReviewsOf(outcomes: seq<Outcome>): seq<ReviewItem> {
    if outcomes == [] then []
    else
      var o := outcomes[|outcomes| - 1];
      ReviewsOf(outcomes[..|outcomes| - 1]) + if o.Nameless? || o.Held? then [o.item] else []
  }

  // The key of a member's points in one capture.
  function PointsKey(memberId: int, periodKey: string, observedAt: int): Key {
    Key(memberId, "vs_points", periodKey, "ocr:vs_ranking", observedAt)
  }

  // The facts the rows write, in row order.
  ghost function RowFacts(rows: seq<Row>, assignments: seq<Assignment>, members: seq<int>, outcomes: seq<Outcome>,
                          periodKey: string, observedAt: int): seq<Fact>
    requires |outcomes| <= |rows| && |outcomes| <= |assignments|
    requires forall n :: 0 <= n < |outcomes| && outcomes[n].Written? ==> 0 <= assignments[n].member < |members|
    decreases |outcomes|
  {
    if outcomes == [] then []
    else
      var n := |outcomes| - 1;
      var o := outcomes[n];
      RowFacts(rows, assignments, members, outcomes[..n], periodKey, observedAt) +
      if o.Written? then
        [Fact(PointsKey(members[assignments[n].member], periodKey, observedAt), o.points as real, rows[n].screenshotId,
              o.confidence)]
      else []
  }

  // The zeroes inferred for the first n members: one for each that no row was given.
  ghost function ZeroFacts(members: seq<int>, placed: set<int>, n: nat, periodKey: string, observedAt: int,
                           shot: int): seq<Fact>
    requires n <= |members|
  {
    if n == 0 then []
    else
      ZeroFacts(members, placed, n - 1, periodKey, observedAt, shot) +
      if n - 1 in placed then []
      else [Fact(PointsKey(members[n - 1], periodKey, observedAt), 0.0, shot, ZERO_CONFIDENCE)]
  }

  ghost function AssignedMembers(assignments: seq<Assignment>): set<int> {
    set i | 0 <= i < |assignments| && assignments[i].member >= 0 :: assignments[i].member
  }

  // ------------------------------------------------------------------ seeding

  // A row that may define other rows' windows: attributed, confidently read at
  // the first attempt, and parsed without repair.
  predicate IsSeed(row: Row, a: Assignment) {
    && a.member >= 0 && row.pointsConf >= FACT_GATE && !row.fromRetry
    && ParsePoints(TrimPointsArtifact(row.pointsText)).Some?
  }

  ghost predicate AreSeeds(rows: seq<Row>, assignments: seq<Assignment>, values: seq<int>, known: seq<bool>) {
    && |rows| == |assignments| == |values| == |known|
    && forall n :: 0 <= n < |rows| ==>
         && known[n] == IsSeed(rows[n], assignments[n])
         && (known[n] ==> ParsePoints(TrimPointsArtifact(rows[n].pointsText)) == Some(values[n]))
  }

  ghost function ScoresOf(rows: seq<Row>): seq<seq<int>> {
    seq(|rows|, n requires 0 <= n < |rows| => rows[n].scores)
  }

  ghost predicate AreOutcomes(rows: seq<Row>, assignments: seq<Assignment>, bounds: seq<PointsBound>,
                              outcomes: seq<Outcome>) {
    && |outcomes| <= |rows| && |rows| == |assignments| == |bounds|
    && forall n :: 0 <= n < |outcomes| ==> outcomes[n] == OutcomeOf(rows[n], assignments[n], bounds[n])
  }

  // Everything one run decided on the way.
  datatype Decisions = Decisions(assignments: seq<Assignment>, values: seq<int>, known: seq<bool>, kept: seq<bool>,
                                 bounds: seq<PointsBound>, outcomes: seq<Outcome>)

  // The decisions a run makes about the rows it read.
  ghost predicate IsVsRun(rows: seq<Row>, d: Decisions) {
    && IsOutcome(ScoresOf(rows), DEFAULT_RESIDUAL, d.assignments)
    && AreSeeds(rows, d.assignments, d.values, d.known)
    && |d.kept| == |rows| && IsLongest(d.values, d.known, Positions(d.kept))
    && AreWindows(d.values, d.kept, d.bounds)
    && |d.outcomes| == |rows| && AreOutcomes(rows, d.assignments, d.bounds, d.outcomes)
  }

  // A duplicate names nobody and nobody is named outside the member list.
  ghost predicate IsUsable(a: Assignment, members: seq<int>) {
    (a.phase == Duplicate ==> a.member < 0) && a.member < |members|
  }

  ghost predicate WritesMembers(d: Decisions, members: seq<int>) {
    && |d.outcomes| == |d.assignments|
    && forall n :: 0 <= n < |d.outcomes| && d.outcomes[n].Written? ==> 0 <= d.assignments[n].member < |members|
  }

  // Absence means zero only on a complete capture that has rows, all of them attributed.
  ghost function InferredZeroes(rows: seq<Row>, d: Decisions, members: seq<int>, complete: bool,
                                periodKey: string, observedAt: int, lastShot: int): seq<Fact>
  {
    if complete && TallyOf(d.outcomes).unidentified == 0 && |rows| > 0 then
      ZeroFacts(members, AssignedMembers(d.assignments), |members|, periodKey, observedAt, lastShot)
    else []
  }

  ghost function AllFacts(rows: seq<Row>, d: Decisions, members: seq<int>, complete: bool,
                          periodKey: string, observedAt: int, lastShot: int): seq<Fact>
    requires |d.outcomes| == |rows| && WritesMembers(d, members)
  {
    RowFacts(rows, d.assignments, members, d.outcomes, periodKey, observedAt) +
    InferredZeroes(rows, d, members, complete, periodKey, observedAt, lastShot)
  }

  // -------------------------------------------------------------- the program

  class VsRun {
    const members: seq<int>
    const periodKey: string
    const observedAt: int
    var matched: nat
    var queued: nat
    var zeroed: nat
    var unidentified: nat
    var duplicates: nat
    var table: Table
    var reviews: seq<ReviewItem>

    constructor (members: seq<int>, periodKey: string, observedAt: int, table: Table)
      ensures this.members == members && this.periodKey == periodKey && this.observedAt == observedAt
      ensures this.table == table && reviews == [] && matched == queued == zeroed == unidentified == duplicates == 0
    {
      this.members, this.periodKey, this.observedAt, this.table := members, periodKey, observedAt, table;
      reviews := [];
      matched, queued, zeroed, unidentified, duplicates := 0, 0, 0, 0, 0;
    }

    method QueueReview(item: ReviewItem)
      modifies this`reviews, this`queued
      ensures reviews == old(reviews) + [item] && queued == old(queued) + 1
    {
      reviews := reviews + [item];
      queued := queued + 1;
    }

    method UpsertFact(f: Fact)
      modifies this`table
      ensures table == Upsert(old(table), f)
    {
      table := Upsert(table, f);
    }

    // The value of one row and how far it is believed.
    method ReadPoints(row: Row, b: PointsBound) returns (r: Reading)
      ensures r == ReadingOf(row, b)
    {
      var trimmed := TrimPointsArtifact(row.pointsText);
      var v := ParsePoints(trimmed);
      if v.Some? {
        return Reading(v.value, row.pointsConf, ReadOnce);
      }
      v := RepairPoints(trimmed, b);
      if v.Some? {
        RepairIsUnique(trimmed, b, v.value, Repaired(trimmed, b).value);
        return Reading(v.value, row.pointsConf, FromRepair);
      }
      if !row.fromRetry {
        v := InWindow(TrimPointsArtifact(row.lateText), b);
        if v.Some? {
          return Reading(v.value, row.lateConf, ReadAgain);
        }
      }
      return Unreadable;
    }

    // Routes one row; reports whether a member was named for it.
    method AttributeRow(row: Row, a: Assignment, b: PointsBound) returns (named: bool, ghost o: Outcome)
      requires a.phase == Duplicate ==> a.member < 0
      requires a.member < |members|
      modifies this`matched, this`queued, this`table, this`reviews
      ensures o == OutcomeOf(row, a, b)
      ensures named == (o.Held? || o.Written?) && (o.Dropped? <==> a.phase == Duplicate)
      ensures matched == old(matched) + if named then 1 else 0
      ensures reviews == old(reviews) + if o.Nameless? || o.Held? then [o.item] else []
      ensures queued == old(queued) + if o.Nameless? || o.Held? then 1 else 0
      ensures o.Written? ==> a.member >= 0 && table == Upsert(old(table),
        Fact(PointsKey(members[a.member], periodKey, observedAt), o.points as real, row.screenshotId, o.confidence))
      ensures !o.Written? ==> table == old(table)
    {
      o := OutcomeOf(row, a, b);
      if a.phase == Duplicate {
        return false, o;
      }
      if a.member < 0 {
        var candidates := CandidatesFor(row);
        HeadIsNearIff(row);
        var reason := if candidates != [] && candidates[0].score >= REVIEW_FLOOR then AmbiguousName
                      else NoConfidentMatch;
        QueueReview(ReviewItem(row.screenshotId, row.band, row.nameText, candidates, reason, 0.0));
        return false, o;
      }
      matched := matched + 1;
      var r := ReadPoints(row, b);
      if r.Unreadable? {
        var raw := if row.fromRetry then row.pointsText else row.pointsText + " | retry: " + row.lateText;
        QueueReview(ReviewItem(row.screenshotId, row.band, raw, [], UnparseablePoints, 0.0));
        return true, o;
      }
      if !WithinBounds(r.points, b) {
        QueueReview(ReviewItem(row.screenshotId, row.band, row.pointsText, [], PointsOutOfOrder, 0.0));
        return true, o;
      }
      var conf := Blend(a, r, b);
      if conf < FACT_GATE {
        QueueReview(ReviewItem(row.screenshotId, row.band, row.pointsText, [], LowConfidencePoints, conf));
        return true, o;
      }
      UpsertFact(Fact(PointsKey(members[a.member], periodKey, observedAt), r.points as real, row.screenshotId, conf));
      return true, o;
    }

    // Which rows may define windows, and with what values.
    static method SeedWindows(rows: seq<Row>, assignments: seq<Assignment>) returns (values: seq<int>, known: seq<bool>)
      requires |rows| == |assignments|
      ensures AreSeeds(rows, assignments, values, known)
    {
      var vs := new int[|rows|](_ => 0);
      var ks := new bool[|rows|](_ => false);
      for n := 0 to |rows|
        invariant forall k :: 0 <= k < n ==>
          && ks[k] == IsSeed(rows[k], assignments[k])
          && (ks[k] ==> ParsePoints(TrimPointsArtifact(rows[k].pointsText)) == Some(vs[k]))
        invariant forall k :: n <= k < |rows| ==> !ks[k]
      {
        if assignments[n].member < 0 {
          continue;
        }
        var v := ParsePoints(TrimPointsArtifact(rows[n].pointsText));
        if v.None? {
          continue;
        }
        if rows[n].pointsConf >= FACT_GATE && !rows[n].fromRetry {
          vs[n], ks[n] := v.value, true;
        }
      }
      values, known := vs[..], ks[..];
    }

    // The score matrix of the rows.
    static method ScoreMatrix(rows: seq<Row>) returns (m: seq<seq<int>>)
      ensures m == ScoresOf(rows)
    {
      m := [];
      for n := 0 to |rows|
        invariant m == ScoresOf(rows[..n])
      {
        m := m + [rows[n].scores];
      }
      assert rows[..|rows|] == rows;
    }

    // The members some row was given.
    static method CollectPlaced(assignments: seq<Assignment>) returns (placed: set<int>)
      ensures placed == AssignedMembers(assignments)
    {
      placed := {};
      for n := 0 to |assignments|
        invariant placed == AssignedMembers(assignments[..n])
      {
        if assignments[n].member >= 0 {
          placed := placed + {assignments[n].member};
        }
        assert assignments[..n + 1] == assignments[..n] + [assignments[n]];
        AssignedGrows(assignments[..n], assignments[n]);
      }
      assert assignments[..|assignments|] == assignments;
    }

    ghost predicate Counts(t: Tally)
      reads this
    {
      matched == t.matched && queued == t.queued && unidentified == t.unidentified && duplicates == t.duplicates
    }

    // The counters, the queue and the table say what these outcomes say.
    ghost predicate Records(rows: seq<Row>, assignments: seq<Assignment>, outcomes: seq<Outcome>, start: Table)
      reads this
      requires |outcomes| <= |rows| == |assignments|
    {
      && (forall k :: 0 <= k < |outcomes| && outcomes[k].Written? ==> 0 <= assignments[k].member < |members|)
      && Tally(matched, queued, unidentified, duplicates, TallyOf(outcomes).facts) == TallyOf(outcomes)
      && reviews == ReviewsOf(outcomes)
      && table == UpsertAll(start, RowFacts(rows, assignments, members, outcomes, periodKey, observedAt))
    }

    method CountNext(row: Row, a: Assignment, b: PointsBound, ghost t: Tally) returns (ghost o: Outcome)
      requires IsUsable(a, members) && Counts(t)
      modifies this`matched, this`queued, this`unidentified, this`duplicates, this`table, this`reviews
      ensures o == OutcomeOf(row, a, b) && Counts(Count(t, o))
      ensures reviews == old(reviews) + if o.Nameless? || o.Held? then [o.item] else []
      ensures o.Written? ==> a.member >= 0 && table == Upsert(old(table),
        Fact(PointsKey(members[a.member], periodKey, observedAt), o.points as real, row.screenshotId, o.confidence))
      ensures !o.Written? ==> table == old(table)
    {
      var named;
      named, o := AttributeRow(row, a, b);
      if a.phase == Duplicate {
        duplicates := duplicates + 1;
      } else if !named {
        unidentified := unidentified + 1;
      }
    }

    // Attributes the next row and counts it.
    method AttributeNext(rows: seq<Row>, assignments: seq<Assignment>, b: PointsBound, n: nat,
                         ghost outcomes: seq<Outcome>, ghost start: Table)
      returns (ghost o: Outcome)
      requires n == |outcomes| < |rows| == |assignments| && IsUsable(assignments[n], members)
      requires Records(rows, assignments, outcomes, start)
      modifies this`matched, this`queued, this`unidentified, this`duplicates, this`table, this`reviews
      ensures o == OutcomeOf(rows[n], assignments[n], b)
      ensures Records(rows, assignments, outcomes + [o], start)
    {
      o := CountNext(rows[n], assignments[n], b, TallyOf(outcomes));
      NextOutcome(rows, assignments, members, outcomes, o, periodKey, observedAt, start);
    }

    // Attributes every row in order.
    method AttributeAll(rows: seq<Row>, assignments: seq<Assignment>, bounds: seq<PointsBound>)
      returns (ghost outcomes: seq<Outcome>)
      requires |rows| == |assignments| == |bounds|
      requires forall n :: 0 <= n < |rows| ==> IsUsable(assignments[n], members)
      requires matched == queued == unidentified == duplicates == 0 && reviews == []
      modifies this`matched, this`queued, this`unidentified, this`duplicates, this`table, this`reviews
      ensures |outcomes| == |rows| && AreOutcomes(rows, assignments, bounds, outcomes)
      ensures Records(rows, assignments, outcomes, old(table))
    {
      outcomes := [];
      for n := 0 to |rows|
        invariant |outcomes| == n && AreOutcomes(rows, assignments, bounds, outcomes)
        invariant Records(rows, assignments, outcomes, old(table))
      {
        ghost var o := AttributeNext(rows, assignments, bounds[n], n, outcomes, old(table));
        outcomes := outcomes + [o];
      }
    }

    // Writes a zero for every member no row was given.
    method InferZeroes(placed: set<int>, shot: int)
      requires zeroed == 0
      modifies this`table, this`zeroed
      ensures zeroed == |ZeroFacts(members, placed, |members|, periodKey, observedAt, shot)|
      ensures table == UpsertAll(old(table), ZeroFacts(members, placed, |members|, periodKey, observedAt, shot))
    {
      for n := 0 to |members|
        invariant zeroed == |ZeroFacts(members, placed, n, periodKey, observedAt, shot)|
        invariant table == UpsertAll(old(table), ZeroFacts(members, placed, n, periodKey, observedAt, shot))
      {
        NextZero(members, placed, n, periodKey, observedAt, shot, old(table));
        if n in placed {
          continue;
        }
        UpsertFact(Fact(PointsKey(members[n], periodKey, observedAt), 0.0, shot, ZERO_CONFIDENCE));
        zeroed := zeroed + 1;
      }
    }

    // Who each row is, and the window its value is judged against.
    static method Decide(rows: seq<Row>, members: seq<int>)
      returns (assignments: seq<Assignment>, bounds: seq<PointsBound>, ghost values: seq<int>, ghost known: seq<bool>,
               ghost kept: seq<bool>)
      requires forall n :: 0 <= n < |rows| ==> |rows[n].scores| == |members|
      ensures IsOutcome(ScoresOf(rows), DEFAULT_RESIDUAL, assignments)
      ensures |rows| == |assignments| == |bounds|
      ensures forall n :: 0 <= n < |rows| ==> IsUsable(assignments[n], members)
      ensures AreSeeds(rows, assignments, values, known)
      ensures |kept| == |rows| && IsLongest(values, known, Positions(kept)) && AreWindows(values, kept, bounds)
    {
      var scores := ScoreMatrix(rows);
      assignments := Assign.Assign(scores, DEFAULT_RESIDUAL);
      OutcomeIsMatching(scores, DEFAULT_RESIDUAL, assignments);
      forall n | 0 <= n < |rows| ensures IsUsable(assignments[n], members) {
        assert IsPlaced(scores[n], DEFAULT_RESIDUAL, assignments[n]);
      }
      var vs, ks := SeedWindows(rows, assignments);
      var keep := MonotonicKnown(vs, ks);
      bounds := PointsBounds(vs, keep);
      values, known, kept := vs, ks, keep;
    }

    // The whole ingest of one capture's rows.
    method IngestVS(rows: seq<Row>, complete: bool, lastShot: int)
      returns (ghost run: Decisions)
      requires forall n :: 0 <= n < |rows| ==> |rows[n].scores| == |members|
      requires matched == queued == zeroed == unidentified == duplicates == 0 && reviews == []
      modifies this
      ensures IsVsRun(rows, run) && WritesMembers(run, members)
      ensures Tally(matched, queued, unidentified, duplicates, TallyOf(run.outcomes).facts) == TallyOf(run.outcomes)
      ensures reviews == ReviewsOf(run.outcomes)
      ensures zeroed == |InferredZeroes(rows, run, members, complete, periodKey, observedAt, lastShot)|
      ensures table == UpsertAll(old(table), AllFacts(rows, run, members, complete, periodKey, observedAt, lastShot))
    {
      ghost var values, known, kept;
      var assignments, bounds;
      assignments, bounds, values, known, kept := Decide(rows, members);
      var placed := CollectPlaced(assignments);
      ghost var outcomes := AttributeAll(rows, assignments, bounds);
      run := Decisions(assignments, values, known, kept, bounds, outcomes);
      if complete && unidentified == 0 && |rows| > 0 {
        InferZeroes(placed, lastShot);
      }
      UpsertInTwoParts(old(table), RowFacts(rows, assignments, members, outcomes, periodKey, observedAt),
                       InferredZeroes(rows, run, members, complete, periodKey, observedAt, lastShot));
    }
  }

  // ------------------------------------------------------- lemmas of the loops

  lemma AssignedGrows(assignments: seq<Assignment>, a: Assignment)
    ensures AssignedMembers(assignments + [a]) ==
            AssignedMembers(assignments) + if a.member >= 0 then {a.member} else {}
  {
    var more := assignments + [a];
    forall j | j in AssignedMembers(assignments) ensures j in AssignedMembers(more) {
      var i :| 0 <= i < |assignments| && assignments[i].member >= 0 && assignments[i].member == j;
      assert more[i] == assignments[i];
    }
    if a.member >= 0 {
      assert more[|assignments|] == a;
    }
  }

  lemma NextZero(members: seq<int>, placed: set<int>, n: nat, periodKey: string, observedAt: int, shot: int, t: Table)
    requires n < |members|
    ensures var fs := ZeroFacts(members, placed, n, periodKey, observedAt, shot);
            var gs := ZeroFacts(members, placed, n + 1, periodKey, observedAt, shot);
      && (n in placed ==> gs == fs)
      && (n !in placed ==>
            && |gs| == |fs| + 1
            && UpsertAll(t, gs) == Upsert(UpsertAll(t, fs),
                                          Fact(PointsKey(members[n], periodKey, observedAt), 0.0, shot,
                                               ZERO_CONFIDENCE)))
  {
    var fs := ZeroFacts(members, placed, n, periodKey, observedAt, shot);
    UpsertOneMore(t, fs, Fact(PointsKey(members[n], periodKey, observedAt), 0.0, shot, ZERO_CONFIDENCE));
  }

  lemma NextOutcome(rows: seq<Row>, assignments: seq<Assignment>, members: seq<int>, outcomes: seq<Outcome>, o: Outcome,
                    periodKey: string, observedAt: int, t: Table)
    requires |outcomes| < |rows| == |assignments|
    requires forall k :: 0 <= k < |outcomes| && outcomes[k].Written? ==> 0 <= assignments[k].member < |members|
    requires o.Written? ==> 0 <= assignments[|outcomes|].member < |members|
    ensures TallyOf(outcomes + [o]) == Count(TallyOf(outcomes), o)
    ensures ReviewsOf(outcomes + [o]) == ReviewsOf(outcomes) + if o.Nameless? || o.Held? then [o.item] else []
    ensures var n := |outcomes|; var fs := RowFacts(rows, assignments, members, outcomes, periodKey, observedAt);
      UpsertAll(t, RowFacts(rows, assignments, members, outcomes + [o], periodKey, observedAt)) ==
      if o.Written? then
        Upsert(UpsertAll(t, fs), Fact(PointsKey(members[assignments[n].member], periodKey, observedAt),
                                      o.points as real, rows[n].screenshotId, o.confidence))
      else UpsertAll(t, fs)
  {
    var more := outcomes + [o];
    assert more[..|outcomes|] == outcomes;
    var n := |outcomes|;
    var fs := RowFacts(rows, assignments, members, outcomes, periodKey, observedAt);
    if o.Written? {
      UpsertOneMore(t, fs, Fact(PointsKey(members[assignments[n].member], periodKey, observedAt), o.points as real,
                                rows[n].screenshotId, o.confidence));
    } else {
      assert RowFacts(rows, assignments, members, more, periodKey, observedAt) == fs;
    }
  }
}
