// What a run of the weekly-ranking ingest reports about itself (internal/ingest/vs.go):
// its counters, its queue and its zeroes, and whom a doubtful row can cost anything.
module VsAccounts {
  import opened Wrappers
  import opened Points
  import opened PointsText
  import opened Repair
  import opened Assign
  import opened Facts
  import opened Vs
  import opened VsResults

  // ------------------------------------------------------------- the counters

  predicate IsDropped(o: Outcome) {
    o.Dropped?
  }

  predicate IsNameless(o: Outcome) {
    o.Nameless?
  }

  predicate IsNamed(o: Outcome) {
    o.Held? || o.Written?
  }

  predicate IsWritten(o: Outcome) {
    o.Written?
  }

  predicate IsQueued(o: Outcome) {
    o.Held? || o.Nameless?
  }

  // The rows whose outcome is of this kind.
  ghost function RowsOf(outcomes: seq<Outcome>, kind: Outcome -> bool): set<int> {
    set n | 0 <= n < |outcomes| && kind(outcomes[n])
  }

  lemma RowsOfOneMore(front: seq<Outcome>, o: Outcome, more: seq<Outcome>, kind: Outcome -> bool)
    requires more == front + [o]
    ensures |RowsOf(more, kind)| == |RowsOf(front, kind)| + if kind(o) then 1 else 0
  {
    var last := |front|;
    if kind(o) {
      assert RowsOf(more, kind) == RowsOf(front, kind) + {last};
    } else {
      assert RowsOf(more, kind) == RowsOf(front, kind);
    }
  }

  lemma {:induction false} CountersAreOfKinds(outcomes: seq<Outcome>)
    ensures var t := TallyOf(outcomes);
      && t.duplicates == |RowsOf(outcomes, IsDropped)| && t.unidentified == |RowsOf(outcomes, IsNameless)|
      && t.matched == |RowsOf(outcomes, IsNamed)| && t.facts == |RowsOf(outcomes, IsWritten)|
      && t.queued == |RowsOf(outcomes, IsQueued)|
    decreases |outcomes|
  {
    if outcomes == [] {
      assert RowsOf([], IsDropped) == RowsOf([], IsNameless) == RowsOf([], IsNamed) == {};
      assert RowsOf([], IsWritten) == RowsOf([], IsQueued) == {};
    } else {
      var front, o := outcomes[..|outcomes| - 1], outcomes[|outcomes| - 1];
      CountersAreOfKinds(front);
      RowsOfOneMore(front, o, outcomes, IsDropped);
      RowsOfOneMore(front, o, outcomes, IsNameless);
      RowsOfOneMore(front, o, outcomes, IsNamed);
      RowsOfOneMore(front, o, outcomes, IsWritten);
      RowsOfOneMore(front, o, outcomes, IsQueued);
    }
  }

  ghost function Attributed(assignments: seq<Assignment>): set<int> {
    set n | 0 <= n < |assignments| && assignments[n].member >= 0
  }

  ghost function Resighted(assignments: seq<Assignment>): set<int> {
    set n | 0 <= n < |assignments| && assignments[n].phase == Duplicate
  }

  ghost function Unclaimed(assignments: seq<Assignment>): set<int> {
    set n | 0 <= n < |assignments| && assignments[n].member < 0 && assignments[n].phase != Duplicate
  }

  ghost predicate EndsByAssignment(o: Outcome, a: Assignment) {
    && (o.Dropped? <==> a.phase == Duplicate) && (IsNamed(o) <==> a.member >= 0)
    && (o.Nameless? <==> a.member < 0 && a.phase != Duplicate)
  }

  lemma KindsAreAssignments(outcomes: seq<Outcome>, assignments: seq<Assignment>)
    requires |outcomes| == |assignments|
    requires forall n :: 0 <= n < |outcomes| ==> EndsByAssignment(outcomes[n], assignments[n])
    ensures RowsOf(outcomes, IsNamed) == Attributed(assignments)
    ensures RowsOf(outcomes, IsDropped) == Resighted(assignments)
    ensures RowsOf(outcomes, IsNameless) == Unclaimed(assignments)
  {
  }

  // The counters count rows: matched those given a member, duplicates those marked as second
  // sightings, unidentified all others.
  lemma CountersCountRows(rows: seq<Row>, d: Decisions)
    requires IsVsRun(rows, d)
    ensures var t := TallyOf(d.outcomes);
      && t.matched == |Attributed(d.assignments)| && t.duplicates == |Resighted(d.assignments)|
      && t.unidentified == |Unclaimed(d.assignments)|
  {
    CountersAreOfKinds(d.outcomes);
    forall n | 0 <= n < |rows| ensures EndsByAssignment(d.outcomes[n], d.assignments[n]) {
      RowEndsByItsAssignment(rows, d, n);
    }
    KindsAreAssignments(d.outcomes, d.assignments);
  }

  lemma RowEndsByItsAssignment(rows: seq<Row>, d: Decisions, n: nat)
    requires IsVsRun(rows, d) && n < |rows|
    ensures EndsByAssignment(d.outcomes[n], d.assignments[n])
  {
    if d.assignments[n].member >= 0 {
      NameIsConfident(rows, d, n);
      AttributedRowEndsAs(rows, d, n);
    } else {
      UnattributedRowEndsAs(rows, d, n);
    }
  }

  // ----------------------------------------------------------------- the queue

  // These items are the queued rows' own, in the rows' order, none left out or added.
  ghost predicate ListsItems(outcomes: seq<Outcome>, items: seq<ReviewItem>, at: seq<int>) {
    && |at| == |items|
    && (forall k {:trigger at[k]} :: 0 <= k < |at| ==> IsItemOf(outcomes, at[k], items[k]))
    && (forall j, k :: 0 <= j < k < |at| ==> at[j] < at[k])
    && forall n :: 0 <= n < |outcomes| && IsQueued(outcomes[n]) ==> n in at
  }

  ghost predicate IsItemOf(outcomes: seq<Outcome>, n: int, item: ReviewItem) {
    0 <= n < |outcomes| && IsQueued(outcomes[n]) && outcomes[n].item == item
  }

  lemma ListsOneMore(outcomes: seq<Outcome>, o: Outcome, items: seq<ReviewItem>, at: seq<int>)
    requires ListsItems(outcomes, items, at)
    ensures if IsQueued(o) then ListsItems(outcomes + [o], items + [o.item], at + [|outcomes|])
            else ListsItems(outcomes + [o], items, at)
  {
    var more := outcomes + [o];
    forall k | 0 <= k < |at| ensures IsItemOf(more, at[k], items[k]) {
      assert IsItemOf(outcomes, at[k], items[k]);
    }
    if IsQueued(o) {
      var longer := at + [|outcomes|];
      assert longer[|at|] == |outcomes|;
      assert forall n :: n in at ==> n in longer;
    }
  }

  lemma {:induction false} QueueListsItems(outcomes: seq<Outcome>) returns (at: seq<int>)
    ensures ListsItems(outcomes, ReviewsOf(outcomes), at)
    decreases |outcomes|
  {
    at := [];
    if outcomes != [] {
      var front, o := outcomes[..|outcomes| - 1], outcomes[|outcomes| - 1];
      at := QueueListsItems(front);
      ListsOneMore(front, o, ReviewsOf(front), at);
      assert outcomes == front + [o];
      at := if IsQueued(o) then at + [|front|] else at;
    }
  }

  // ---------------------------------------------------------------- the zeroes

  // The fact that member m scored nothing.
  ghost predicate IsZeroOf(d: Decisions, members: seq<int>, m: int, periodKey: string, observedAt: int, shot: int,
                           f: Fact) {
    && 0 <= m < |members| && (forall n :: 0 <= n < |d.assignments| ==> d.assignments[n].member != m)
    && f == Fact(Key(members[m], "vs_points", periodKey, "ocr:vs_ranking", observedAt), 0.0, shot, 0.90)
  }

  lemma {:induction false} ZeroesAreOfTheUnplaced(members: seq<int>, placed: set<int>, n: nat, periodKey: string,
                                                  observedAt: int, shot: int, f: Fact)
    requires n <= |members|
    ensures f in ZeroFacts(members, placed, n, periodKey, observedAt, shot) <==>
            exists m :: 0 <= m < n && m !in placed &&
                        f == Fact(PointsKey(members[m], periodKey, observedAt), 0.0, shot, ZERO_CONFIDENCE)
    decreases n
  {
    if n > 0 {
      ZeroesAreOfTheUnplaced(members, placed, n - 1, periodKey, observedAt, shot, f);
    }
  }

  // A zero is inferred exactly for the members no row was given, and only on a complete
  // capture that has rows and leaves none of them nameless.
  lemma ZeroesAreExactly(rows: seq<Row>, d: Decisions, members: seq<int>, complete: bool, periodKey: string,
                         observedAt: int, lastShot: int, f: Fact)
    requires IsVsRun(rows, d)
    ensures f in InferredZeroes(rows, d, members, complete, periodKey, observedAt, lastShot) <==>
            && complete && rows != [] && (forall n :: 0 <= n < |rows| ==> !d.outcomes[n].Nameless?)
            && exists m :: IsZeroOf(d, members, m, periodKey, observedAt, lastShot, f)
  {
    var placed := AssignedMembers(d.assignments);
    ZeroesAreOfTheUnplaced(members, placed, |members|, periodKey, observedAt, lastShot, f);
    CountersAreOfKinds(d.outcomes);
    NoneIffEmpty(d.outcomes, IsNameless);
    forall m | 0 <= m < |members|
      ensures m !in placed <==> forall n :: 0 <= n < |d.assignments| ==> d.assignments[n].member != m
    {
    }
    if m :| 0 <= m < |members| && m !in placed &&
            f == Fact(PointsKey(members[m], periodKey, observedAt), 0.0, lastShot, ZERO_CONFIDENCE) {
      assert IsZeroOf(d, members, m, periodKey, observedAt, lastShot, f);
    }
    if m :| IsZeroOf(d, members, m, periodKey, observedAt, lastShot, f) {
      assert m !in placed;
    }
  }

  lemma NoneIffEmpty(outcomes: seq<Outcome>, kind: Outcome -> bool)
    ensures |RowsOf(outcomes, kind)| == 0 <==> forall n :: 0 <= n < |outcomes| ==> !kind(outcomes[n])
  {
    if forall n :: 0 <= n < |outcomes| ==> !kind(outcomes[n]) {
      assert RowsOf(outcomes, kind) == {};
    }
    if n :| 0 <= n < |outcomes| && kind(outcomes[n]) {
      assert n in RowsOf(outcomes, kind);
    }
  }

  // ------------------------------------------------------------ doubtful rows

  // Points that were read late, or not surely, or that do not parse.
  ghost predicate IsDoubtful(row: Row) {
    row.fromRetry || row.pointsConf < 0.80 || ParsePoints(TrimPointsArtifact(row.pointsText)).None?
  }

  // The same capture, but for what was read of the points of doubtful or unattributed rows.
  ghost predicate DifferInDoubt(rows: seq<Row>, others: seq<Row>, assignments: seq<Assignment>) {
    && |rows| == |others| == |assignments| && ScoresOf(rows) == ScoresOf(others)
    && forall n :: 0 <= n < |rows| ==>
         rows[n] == others[n] || assignments[n].member < 0 || (IsDoubtful(rows[n]) && IsDoubtful(others[n]))
  }

  lemma SeedsAgree(rows: seq<Row>, others: seq<Row>, assignments: seq<Assignment>, values: seq<int>, known: seq<bool>,
                   values': seq<int>, known': seq<bool>)
    requires DifferInDoubt(rows, others, assignments)
    requires AreSeeds(rows, assignments, values, known) && AreSeeds(others, assignments, values', known')
    ensures known == known' && AgreeWhere(known, values, values')
  {
    forall n | 0 <= n < |rows| ensures known[n] == known'[n] && (known[n] ==> values[n] == values'[n]) {
      assert known[n] == IsSeed(rows[n], assignments[n]) && known'[n] == IsSeed(others[n], assignments[n]);
    }
  }

  // What such rows say of their points costs no other row anything: the same seeds are kept,
  // every window stays, and every row that reads the same ends the same.
  lemma DoubtCostsOnlyItself(rows: seq<Row>, d: Decisions, others: seq<Row>, e: Decisions)
    requires IsVsRun(rows, d) && IsVsRun(others, e) && DifferInDoubt(rows, others, d.assignments)
    ensures d.assignments == e.assignments && d.kept == e.kept && d.bounds == e.bounds
    ensures forall n :: 0 <= n < |rows| && rows[n] == others[n] ==> d.outcomes[n] == e.outcomes[n]
  {
    OutcomeIsUnique(ScoresOf(rows), DEFAULT_RESIDUAL, d.assignments, e.assignments);
    SeedsAgree(rows, others, d.assignments, d.values, d.known, e.values, e.known);
    UnknownRowsCannotMoveAWindow(d.values, e.values, d.known, d.kept, e.kept, d.bounds, e.bounds);
  }

  // The rows that may define windows are exactly those given somebody and in no doubt; no
  // other is ever kept.
  lemma SeedsAreTheSureRows(rows: seq<Row>, d: Decisions, n: nat)
    requires IsVsRun(rows, d) && n < |rows|
    ensures d.known[n] <==> d.assignments[n].member >= 0 && !IsDoubtful(rows[n])
    ensures d.kept[n] ==> d.known[n]
  {
    assert d.kept[n] ==> n in Positions(d.kept);
  }
}
