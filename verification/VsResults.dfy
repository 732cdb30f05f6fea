// What holds of every error-free run of the weekly-ranking ingest.
module VsResults {
  import opened Wrappers
  import opened Points
  import opened PointsText
  import opened Repair
  import opened Assign
  import opened Facts
  import opened Ranking
  import opened Vs

  // An attributed row is attributed on evidence that clears the gate.
  lemma NameIsConfident(rows: seq<Row>, d: Decisions, n: nat)
    requires IsVsRun(rows, d) && n < |rows| && d.assignments[n].member >= 0
    ensures NameConfidence(d.assignments[n]) >= FACT_GATE && d.assignments[n].phase != Duplicate
  {
    OutcomeIsMatching(ScoresOf(rows), DEFAULT_RESIDUAL, d.assignments);
    assert IsPlaced(ScoresOf(rows)[n], DEFAULT_RESIDUAL, d.assignments[n]);
  }

  lemma SeedsAreInRange(rows: seq<Row>, assignments: seq<Assignment>, values: seq<int>, known: seq<bool>)
    requires AreSeeds(rows, assignments, values, known)
    ensures InRange(values, known)
  {
    forall i | 0 <= i < |values| && known[i] ensures 0 <= values[i] <= MAX_INT64 {
      ParsedIsInRange(TrimPointsArtifact(rows[i].pointsText));
    }
  }

  // What becomes of a seed depends on its own window alone.
  lemma SeedOutcome(row: Row, a: Assignment, b: PointsBound, v: int)
    requires IsSeed(row, a) && ParsePoints(TrimPointsArtifact(row.pointsText)) == Some(v)
    requires a.phase != Duplicate && NameConfidence(a) >= FACT_GATE
    ensures var o := OutcomeOf(row, a, b);
      if WithinBounds(v, b) then o.Written? && o.points == v && o.origin == ReadOnce
      else o.Held? && o.item.reason == PointsOutOfOrder
  {
    var r := Reading(v, row.pointsConf, ReadOnce);
    assert ReadingOf(row, b) == r;
    assert Blend(a, r, b) >= FACT_GATE;
    assert OutcomeOf(row, a, b) == AttributedOutcome(row, a, b);
  }

  // A confident first read of an attributed row is written when the ordering keeps
  // it, and queued as out of order when the ordering drops it.
  lemma ConfidentReadIsDecidedByOrder(rows: seq<Row>, d: Decisions, n: nat)
    requires IsVsRun(rows, d) && n < |rows| && IsSeed(rows[n], d.assignments[n])
    ensures d.kept[n] ==>
              d.outcomes[n].Written? && d.outcomes[n].points == d.values[n] && d.outcomes[n].origin == ReadOnce
    ensures !d.kept[n] ==> d.outcomes[n].Held? && d.outcomes[n].item.reason == PointsOutOfOrder
  {
    SeedsAreInRange(rows, d.assignments, d.values, d.known);
    KeptIffInsideOwnWindow(d.values, d.known, d.kept, d.bounds, n);
    NameIsConfident(rows, d, n);
    SeedOutcome(rows[n], d.assignments[n], d.bounds[n], d.values[n]);
    assert d.outcomes[n] == OutcomeOf(rows[n], d.assignments[n], d.bounds[n]);
  }

  // What one row's outcome says when it writes.
  lemma WrittenOutcome(row: Row, a: Assignment, b: PointsBound)
    requires OutcomeOf(row, a, b).Written?
    ensures var o := OutcomeOf(row, a, b);
      && WithinBounds(o.points, b) && o.confidence >= FACT_GATE && a.member >= 0
      && ReadingOf(row, b).Reading? && o.points == ReadingOf(row, b).points && o.origin == ReadingOf(row, b).origin
      && o.confidence == Blend(a, ReadingOf(row, b), b)
  {
  }

  lemma WindowOrders(values: seq<int>, known: seq<bool>, kept: seq<bool>, bounds: seq<PointsBound>, n: nat, m: nat,
                     v: int)
    requires |values| == |known| == |kept| && n < |values| && m < |values|
    requires SeedChain(values, known, Positions(kept)) && AreWindows(values, kept, bounds)
    requires WithinBounds(v, bounds[n]) && kept[m]
    ensures m < n ==> values[m] >= v
    ensures m > n ==> values[m] <= v
  {
    NoKeptAboveIsSmaller(values, known, kept, bounds[n].hi, n);
    NoKeptBelowIsGreater(values, known, kept, bounds[n].lo, n);
  }

  // Whatever a row writes, read or repaired or read again, no kept seed above it
  // is smaller and no kept seed below it is greater.
  lemma WrittenInOrder(rows: seq<Row>, d: Decisions, n: nat, m: nat)
    requires IsVsRun(rows, d) && n < |rows| && d.outcomes[n].Written?
    requires m < |rows| && d.kept[m]
    ensures m < n ==> d.values[m] >= d.outcomes[n].points
    ensures m > n ==> d.values[m] <= d.outcomes[n].points
  {
    WrittenOutcome(rows[n], d.assignments[n], d.bounds[n]);
    WindowOrders(d.values, d.known, d.kept, d.bounds, n, m, d.outcomes[n].points);
  }

  // What the value of a row means: as read; else the one repair of it the window
  // admits; else a late second read inside the window; unreadable exactly when there
  // is none of the three.
  lemma ReadingMeans(row: Row, b: PointsBound)
    ensures var t, late, r := TrimPointsArtifact(row.pointsText), ParsePoints(TrimPointsArtifact(row.lateText)),
            ReadingOf(row, b);
      && (r.Reading? && r.origin == ReadOnce <==> ParsePoints(t).Some?)
      && (r.Reading? && r.origin == ReadOnce ==> r.points == ParsePoints(t).value && r.confidence == row.pointsConf)
      && (r.Reading? && r.origin == FromRepair <==> ParsePoints(t).None? && exists v :: IsRepair(t, b, v))
      && (r.Reading? && r.origin == FromRepair ==>
            IsRepair(t, b, r.points) && WithinBounds(r.points, b) && r.confidence == row.pointsConf)
      && (r.Reading? && r.origin == ReadAgain ==>
            && ParsePoints(t).None? && (forall v :: !IsRepair(t, b, v)) && !row.fromRetry
            && late == Some(r.points) && WithinBounds(r.points, b) && r.confidence == row.lateConf)
      && (r.Unreadable? <==>
            && ParsePoints(t).None? && (forall v :: !IsRepair(t, b, v))
            && (row.fromRetry || late.None? || !WithinBounds(late.value, b)))
  {
    var t := TrimPointsArtifact(row.pointsText);
    if Repaired(t, b).Some? {
      RepairIsUnique(t, b, Repaired(t, b).value, Repaired(t, b).value);
    }
  }

  // Kept seeds bracket the value, no further apart than the value is large.
  ghost predicate IsBracketed(d: Decisions, n: nat, points: int) {
    exists a, b :: IsBracket(d, a, n, b, points)
  }

  ghost predicate IsBracket(d: Decisions, a: int, n: nat, b: int, points: int) {
    && |d.kept| == |d.values| && 0 <= a < n < b < |d.kept| && d.kept[a] && d.kept[b]
    && d.values[a] >= points >= d.values[b] && d.values[a] - d.values[b] <= points
  }

  lemma CorroboratedIsBracketed(d: Decisions, n: nat, v: int)
    requires |d.values| == |d.kept| && n < |d.values| && AreWindows(d.values, d.kept, d.bounds)
    requires Corroborates(d.bounds[n], v) && WithinBounds(v, d.bounds[n])
    ensures IsBracketed(d, n, v)
  {
    var a :| 0 <= a < n && d.kept[a] && d.values[a] == d.bounds[n].hi;
    var b :| n < b < |d.values| && d.kept[b] && d.values[b] == d.bounds[n].lo;
    assert IsBracket(d, a, n, b, v);
  }

  // A written row's confidence is what its name and its own reading support, or it is
  // the gate exactly: then the value was read, not repaired, and kept seeds bracket it.
  lemma WrittenConfidence(rows: seq<Row>, d: Decisions, n: nat)
    requires IsVsRun(rows, d) && n < |rows| && d.outcomes[n].Written?
    ensures var o, r := d.outcomes[n], ReadingOf(rows[n], d.bounds[n]);
      && r.Reading? && r.points == o.points && r.origin == o.origin
      && (o.confidence == MinReal(NameConfidence(d.assignments[n]), r.confidence) ||
          (o.confidence == FACT_GATE && o.origin != FromRepair && IsBracketed(d, n, o.points)))
  {
    WrittenOutcome(rows[n], d.assignments[n], d.bounds[n]);
    var o, r := d.outcomes[n], ReadingOf(rows[n], d.bounds[n]);
    if o.confidence != MinReal(NameConfidence(d.assignments[n]), r.confidence) {
      CorroboratedIsBracketed(d, n, o.points);
    }
  }

  // ----------------------------------------------------------- what a row ends as

  // The nearest kept seed above row n, and the nearest below.
  ghost predicate IsNextAbove(d: Decisions, a: int, n: nat)
    requires n < |d.kept|
  {
    0 <= a < n && d.kept[a] && forall q :: a < q < n ==> !d.kept[q]
  }

  ghost predicate IsNextBelow(d: Decisions, b: int, n: nat)
    requires n < |d.kept|
  {
    n < b < |d.kept| && d.kept[b] && forall q :: n < q < b ==> !d.kept[q]
  }

  // There are kept seeds on both sides, the nearest of them inside the open ends and no
  // further apart than the value is large.
  ghost predicate IsTightlyBracketed(d: Decisions, n: nat, points: int)
    requires n < |d.kept| == |d.values|
  {
    exists a, b :: IsNextAbove(d, a, n) && IsNextBelow(d, b, n)
      && 0 < d.values[b] && d.values[a] < MAX_INT64 && d.values[a] - d.values[b] <= points
  }

  lemma NextIsOnlyOne(d: Decisions, n: nat, a: int, e: int, b: int, f: int)
    requires n < |d.kept| && IsNextAbove(d, a, n) && IsNextAbove(d, e, n) && IsNextBelow(d, b, n) &&
             IsNextBelow(d, f, n)
    ensures a == e && b == f
  {
  }

  lemma CorroboratedIffBracketed(d: Decisions, n: nat, points: int)
    requires |d.kept| == |d.values| && n < |d.values| && AreWindows(d.values, d.kept, d.bounds)
    ensures Corroborates(d.bounds[n], points) <==> IsTightlyBracketed(d, n, points)
  {
    var b := d.bounds[n];
    if Corroborates(b, points) {
      var i :| 0 <= i < n && d.kept[i] && b.hi == d.values[i] && forall q :: i < q < n ==> !d.kept[q];
      var k :| n < k < |d.kept| && d.kept[k] && b.lo == d.values[k] && forall q :: n < q < k ==> !d.kept[q];
      assert IsNextAbove(d, i, n) && IsNextBelow(d, k, n);
    }
    if i, k :| IsNextAbove(d, i, n) && IsNextBelow(d, k, n) {
      UpperIsNext(d, n, i);
      LowerIsNext(d, n, k);
      forall e, f | IsNextAbove(d, e, n) && IsNextBelow(d, f, n) ensures e == i && f == k {
        NextIsOnlyOne(d, n, i, e, k, f);
      }
    }
  }

  lemma UpperIsNext(d: Decisions, n: nat, a: int)
    requires |d.kept| == |d.values| && n < |d.values| && AreWindows(d.values, d.kept, d.bounds) && IsNextAbove(d, a, n)
    ensures d.bounds[n].hi == d.values[a]
  {
    assert IsUpper(d.values, d.kept, n, d.bounds[n].hi);
  }

  lemma LowerIsNext(d: Decisions, n: nat, b: int)
    requires |d.kept| == |d.values| && n < |d.values| && AreWindows(d.values, d.kept, d.bounds) && IsNextBelow(d, b, n)
    ensures d.bounds[n].lo == d.values[b]
  {
    assert IsLower(d.values, d.kept, n, d.bounds[n].lo);
  }

  // The reading is sure enough by itself, or read and tightly bracketed by the order.
  ghost predicate IsSure(a: Assignment, r: Reading)
    requires r.Reading?
  {
    NameConfidence(a) >= FACT_GATE && r.confidence >= FACT_GATE
  }

  ghost predicate IsPromoted(d: Decisions, n: nat, r: Reading)
    requires n < |d.kept| == |d.values| && r.Reading?
  {
    r.origin != FromRepair && IsTightlyBracketed(d, n, r.points)
  }

  // Why a row is held, the first of three reasons.
  ghost function HoldReason(r: Reading, b: PointsBound): Reason {
    if r.Unreadable? then UnparseablePoints
    else if r.points < b.lo || r.points > b.hi then PointsOutOfOrder
    else LowConfidencePoints
  }

  // An attributed row is written exactly when it has a reading inside its window that is
  // sure, or promoted; the fact then carries the lesser of the two confidences, or the
  // gate.  Otherwise it is held, for the first of the three reasons that applies.
  lemma AttributedRowEndsAs(rows: seq<Row>, d: Decisions, n: nat)
    requires IsVsRun(rows, d) && n < |rows| && d.assignments[n].member >= 0
    ensures var o, r, name := d.outcomes[n], ReadingOf(rows[n], d.bounds[n]), NameConfidence(d.assignments[n]);
      && (o.Written? <==>
            r.Reading? && WithinBounds(r.points, d.bounds[n]) && (IsSure(d.assignments[n], r) || IsPromoted(d, n, r)))
      && (o.Written? ==> o.points == r.points && o.origin == r.origin)
      && (o.Written? && IsSure(d.assignments[n], r) ==>
            o.confidence == if name < r.confidence then name else r.confidence)
      && (o.Written? && !IsSure(d.assignments[n], r) ==> o.confidence == FACT_GATE)
      && name == (if d.assignments[n].phase == Residual then 0.85 else d.assignments[n].score as real / 100.0)
      && (o.Held? || o.Written?)
      && (o.Held? ==> o.item.reason == HoldReason(r, d.bounds[n]))
  {
    NameIsConfident(rows, d, n);
    assert d.outcomes[n] == OutcomeOf(rows[n], d.assignments[n], d.bounds[n]);
    var r := ReadingOf(rows[n], d.bounds[n]);
    if r.Reading? {
      CorroboratedIffBracketed(d, n, r.points);
    }
  }

  // A row nobody was given: a second sighting is dropped, any other is an item that offers
  // the ranked candidates, near or not.
  lemma UnattributedRowEndsAs(rows: seq<Row>, d: Decisions, n: nat)
    requires IsVsRun(rows, d) && n < |rows| && d.assignments[n].member < 0
    ensures var o := d.outcomes[n];
      && (o.Dropped? <==> d.assignments[n].phase == Duplicate) && (o.Dropped? || o.Nameless?)
      && (o.Nameless? ==>
            && o.item.rawText == rows[n].nameText && o.item.candidates == Ranked(ScoredMembers(rows[n].scores))
            && (o.item.reason == AmbiguousName <==> exists j :: 0 <= j < |rows[n].scores| && rows[n].scores[j] >= 75)
            && (o.item.reason == AmbiguousName || o.item.reason == NoConfidentMatch))
  {
    assert d.outcomes[n] == OutcomeOf(rows[n], d.assignments[n], d.bounds[n]);
  }

  // What a human is shown of a held row's points: both readings when neither could be used.
  ghost function ShownText(row: Row, reason: Reason): string {
    if reason == UnparseablePoints && !row.fromRetry then row.pointsText + " | retry: " + row.lateText
    else row.pointsText
  }

  ghost predicate ShowsRow(item: ReviewItem, row: Row, a: Assignment, r: Reading) {
    && item.screenshotId == row.screenshotId && item.band == row.band
    && (a.member >= 0 ==> item.candidates == [] && item.rawText == ShownText(row, item.reason))
    && (item.reason != LowConfidencePoints ==> item.confidence == 0.0)
    && (item.reason == LowConfidencePoints ==>
          r.Reading? && item.confidence == if NameConfidence(a) < r.confidence then NameConfidence(a) else r.confidence)
  }

  lemma ItemShowsIts(row: Row, a: Assignment, b: PointsBound)
    requires OutcomeOf(row, a, b).Held? || OutcomeOf(row, a, b).Nameless?
    ensures ShowsRow(OutcomeOf(row, a, b).item, row, a, ReadingOf(row, b))
  {
    var r := ReadingOf(row, b);
    if a.member >= 0 && r.Reading? {
      assert Blend(a, r, b) == FACT_GATE || Blend(a, r, b) == MinReal(NameConfidence(a), r.confidence);
    }
  }

  // An item shows the row it is about; only one held for its confidence states one, the
  // lesser of its name's and its reading's.
  lemma ItemsShowTheirRow(rows: seq<Row>, d: Decisions, n: nat)
    requires IsVsRun(rows, d) && n < |rows| && (d.outcomes[n].Held? || d.outcomes[n].Nameless?)
    ensures ShowsRow(d.outcomes[n].item, rows[n], d.assignments[n], ReadingOf(rows[n], d.bounds[n]))
  {
    ItemShowsIts(rows[n], d.assignments[n], d.bounds[n]);
  }

  // ------------------------------------------------------------- a lost digit

  lemma DamagedIsNotTrimmed(s: string, p: nat, c: char)
    requires IsGrouped(s) && p < |s| - 1
    ensures TrimPointsArtifact(s[p := c]) == s[p := c]
  {
    LastIsDigit(s);
  }

  lemma LastIsDigit(s: string)
    requires IsGrouped(s)
    ensures IsDigit(s[|s| - 1])
  {
    if |s| > 3 {
      assert s[|s| - 3..][2] == s[|s| - 1];
    }
  }

  // A row whose points lost a digit to damage, but not the last one, is read as what it
  // said whenever its window is narrower than that digit's place value.
  lemma LostDigitReachesTheRow(row: Row, b: PointsBound, s: string, p: nat, c: char)
    requires IsGrouped(s) && DigitsAndCommas(s) && p < |s| - 1 && IsDigit(s[p]) && IsSeen(s, p, c)
    requires row.pointsText == s[p := c]
    requires Spelled(s) <= MAX_INT64 && WithinBounds(Spelled(s), b)
    requires b.hi - b.lo < Shift(1, DigitsAfter(s, p))
    ensures ReadingOf(row, b) == Reading(Spelled(s), row.pointsConf, FromRepair)
  {
    var t := s[p := c];
    DamagedIsNotTrimmed(s, p, c);
    LostDigitIsRecovered(s, p, c, b);
    RepairIsUnique(t, b, Repaired(t, b).value, Spelled(s));
    DamagedForm(s, p, c);
    DamagedDoesNotParse(t, p);
  }

  lemma DamagedDoesNotParse(t: string, p: nat)
    requires OnlyDamage(t, p) && TrimSpace(t) == t
    ensures ParsePoints(t).None?
  {
    if IsGrouped(t) {
      GroupedIsDigitsAndCommas(t);
    }
  }

  lemma TrimTakesTheLast(s: string, c: char)
    requires IsGrouped(s) && DigitsAndCommas(s) && IsDamage(c)
    ensures TrimPointsArtifact(s[|s| - 1 := c]) == s[..|s| - 1]
  {
    var t := s[|s| - 1 := c];
    assert t[..|t| - 1] == s[..|s| - 1];
    LastIsDigit(s);
  }

  lemma UndamagedHasNoRepair(s: string, b: PointsBound)
    requires DigitsAndCommas(s)
    ensures forall v :: !IsRepair(s, b, v)
  {
    GroupedIsTrim(s);
    TrimOfTrim(s);
  }

  // What is left of a grouped number parses exactly when it had no comma to lose, and
  // then as a tenth.
  lemma FrontParsesIff(s: string)
    requires IsGrouped(s) && DigitsAndCommas(s) && Spelled(s) <= MAX_INT64
    ensures ParsePoints(s[..|s| - 1]).Some? <==> 1 < |s| <= 3
    ensures 1 < |s| <= 3 ==> ParsePoints(s[..|s| - 1]) == Some(Spelled(s) / 10)
  {
    var front := s[..|s| - 1];
    LastIsDigit(s);
    GroupedIsTrim(front);
    ParseTrimmed(front);
    FrontIsGroupedIff(s);
  }

  lemma ReadWithoutRepair(row: Row, b: PointsBound)
    requires forall v :: !IsRepair(TrimPointsArtifact(row.pointsText), b, v)
    ensures var parsed, r := ParsePoints(TrimPointsArtifact(row.pointsText)), ReadingOf(row, b);
      if parsed.Some? then r == Reading(parsed.value, row.pointsConf, ReadOnce)
      else r.Unreadable? || r.origin == ReadAgain
  {
    ReadingMeans(row, b);
  }

  // When it is the last digit that is damaged the trim takes it first, and whatever the
  // window nothing is ever repaired: two or three digits are read as a tenth of what the
  // row said, and any longer number is left to a second reading.
  lemma LastDigitIsNeverRepaired(row: Row, b: PointsBound, s: string, c: char)
    requires IsGrouped(s) && DigitsAndCommas(s) && Spelled(s) <= MAX_INT64 && IsDamage(c)
    requires row.pointsText == s[|s| - 1 := c]
    ensures forall v :: !IsRepair(TrimPointsArtifact(row.pointsText), b, v)
    ensures 1 < |s| <= 3 ==> ReadingOf(row, b) == Reading(Spelled(s) / 10, row.pointsConf, ReadOnce)
    ensures !(1 < |s| <= 3) ==> var r := ReadingOf(row, b); r.Unreadable? || r.origin == ReadAgain
  {
    TrimTakesTheLast(s, c);
    UndamagedHasNoRepair(s[..|s| - 1], b);
    FrontParsesIff(s);
    ReadWithoutRepair(row, b);
  }

  // Without its last digit a grouped number is one still exactly when it has no comma
  // and something is left of it.
  lemma FrontIsGroupedIff(s: string)
    requires IsGrouped(s)
    ensures IsGrouped(s[..|s| - 1]) <==> 1 < |s| <= 3
  {
    if |s| > 3 {
      var head := s[..|s| - 4];
      LastIsDigit(head);
      assert s[..|s| - 1][|s| - 5] == head[|head| - 1];
    }
  }

  // ---------------------------------------------------------------- two ingests

  // Two runs over the same rows decide the same.
  lemma RunsAgree(rows: seq<Row>, d: Decisions, e: Decisions)
    requires IsVsRun(rows, d) && IsVsRun(rows, e)
    ensures d.assignments == e.assignments && d.kept == e.kept && d.bounds == e.bounds && d.outcomes == e.outcomes
  {
    OutcomeIsUnique(ScoresOf(rows), DEFAULT_RESIDUAL, d.assignments, e.assignments);
    assert d.known == e.known;
    assert AgreeWhere(d.known, d.values, e.values);
    UnknownRowsCannotMoveAWindow(d.values, e.values, d.known, d.kept, e.kept, d.bounds, e.bounds);
    assert forall n :: 0 <= n < |rows| ==> d.outcomes[n] == e.outcomes[n];
  }

  // Ingesting a capture a second time leaves the table as the first time left it.
  lemma IngestingTwiceChangesNothing(rows: seq<Row>, d: Decisions, e: Decisions, members: seq<int>, complete: bool,
                                     periodKey: string, observedAt: int, lastShot: int, t: Table)
    requires IsVsRun(rows, d) && IsVsRun(rows, e) && WritesMembers(d, members) && WritesMembers(e, members)
    ensures var once := UpsertAll(t, AllFacts(rows, d, members, complete, periodKey, observedAt, lastShot));
      UpsertAll(once, AllFacts(rows, e, members, complete, periodKey, observedAt, lastShot)) == once
  {
    RunsAgree(rows, d, e);
    ReplayChangesNothing(t, AllFacts(rows, d, members, complete, periodKey, observedAt, lastShot));
  }

  // ---------------------------------------------------------------- the facts

  lemma {:induction false} RowFactsCounted(rows: seq<Row>, assignments: seq<Assignment>, members: seq<int>,
                                           outcomes: seq<Outcome>,
                                           periodKey: string, observedAt: int)
    requires |outcomes| <= |rows| && |outcomes| <= |assignments|
    requires forall n :: 0 <= n < |outcomes| && outcomes[n].Written? ==> 0 <= assignments[n].member < |members|
    ensures |RowFacts(rows, assignments, members, outcomes, periodKey, observedAt)| == TallyOf(outcomes).facts
    decreases |outcomes|
  {
    if outcomes != [] {
      RowFactsCounted(rows, assignments, members, outcomes[..|outcomes| - 1], periodKey, observedAt);
    }
  }

  // Rows are accounted for, and so is what was done with them.
  lemma AccountsBalance(rows: seq<Row>, d: Decisions, members: seq<int>, periodKey: string, observedAt: int)
    requires IsVsRun(rows, d) && WritesMembers(d, members)
    ensures var t := TallyOf(d.outcomes);
      && t.matched + t.duplicates + t.unidentified == |rows|
      && |RowFacts(rows, d.assignments, members, d.outcomes, periodKey, observedAt)| + t.queued ==
         t.matched + t.unidentified
  {
    RowFactsCounted(rows, d.assignments, members, d.outcomes, periodKey, observedAt);
  }

  // f is the fact of some written row among the first ones.
  ghost predicate IsRowFact(rows: seq<Row>, assignments: seq<Assignment>, members: seq<int>, outcomes: seq<Outcome>,
                            periodKey: string, observedAt: int, f: Fact, n: int)
    requires |outcomes| <= |rows| && |outcomes| <= |assignments|
  {
    && 0 <= n < |outcomes| && outcomes[n].Written? && 0 <= assignments[n].member < |members|
    && f.key == PointsKey(members[assignments[n].member], periodKey, observedAt)
    && f.value == outcomes[n].points as real && f.confidence == outcomes[n].confidence
    && f.screenshotId == rows[n].screenshotId
  }

  lemma {:induction false} RowFactHasRow(rows: seq<Row>, assignments: seq<Assignment>, members: seq<int>,
                                         outcomes: seq<Outcome>,
                                         periodKey: string, observedAt: int, k: nat) returns (n: nat)
    requires |outcomes| <= |rows| && |outcomes| <= |assignments|
    requires forall n :: 0 <= n < |outcomes| && outcomes[n].Written? ==> 0 <= assignments[n].member < |members|
    requires k < |RowFacts(rows, assignments, members, outcomes, periodKey, observedAt)|
    ensures IsRowFact(rows, assignments, members, outcomes, periodKey, observedAt,
                      RowFacts(rows, assignments, members, outcomes, periodKey, observedAt)[k], n)
    decreases |outcomes|
  {
    var last := |outcomes| - 1;
    var before := RowFacts(rows, assignments, members, outcomes[..last], periodKey, observedAt);
    if k < |before| {
      n := RowFactHasRow(rows, assignments, members, outcomes[..last], periodKey, observedAt, k);
    } else {
      n := last;
    }
  }

  // Every written row has its fact.
  lemma {:induction false} WrittenRowHasFact(rows: seq<Row>, assignments: seq<Assignment>, members: seq<int>,
                                             outcomes: seq<Outcome>, periodKey: string, observedAt: int, n: nat)
    returns (k: nat)
    requires |outcomes| <= |rows| && |outcomes| <= |assignments|
    requires forall n :: 0 <= n < |outcomes| && outcomes[n].Written? ==> 0 <= assignments[n].member < |members|
    requires n < |outcomes| && outcomes[n].Written?
    ensures k < |RowFacts(rows, assignments, members, outcomes, periodKey, observedAt)|
    ensures IsRowFact(rows, assignments, members, outcomes, periodKey, observedAt,
                      RowFacts(rows, assignments, members, outcomes, periodKey, observedAt)[k], n)
    decreases |outcomes|
  {
    var last := |outcomes| - 1;
    if n < last {
      k := WrittenRowHasFact(rows, assignments, members, outcomes[..last], periodKey, observedAt, n);
    } else {
      k := |RowFacts(rows, assignments, members, outcomes[..last], periodKey, observedAt)|;
    }
  }

  // Every row fact of a run carries what its name and its own reading support, or it
  // was raised to the gate: exactly to it, never for a repair, and only between kept
  // seeds no further apart than the value is large.
  lemma PromotedFactsAreBracketed(rows: seq<Row>, d: Decisions, members: seq<int>, periodKey: string, observedAt: int,
                                  k: nat)
    returns (n: nat)
    requires IsVsRun(rows, d) && WritesMembers(d, members)
    requires k < |RowFacts(rows, d.assignments, members, d.outcomes, periodKey, observedAt)|
    ensures var f := RowFacts(rows, d.assignments, members, d.outcomes, periodKey, observedAt)[k];
      && IsRowFact(rows, d.assignments, members, d.outcomes, periodKey, observedAt, f, n)
      && ReadingOf(rows[n], d.bounds[n]).Reading?
      && var supported := MinReal(NameConfidence(d.assignments[n]), ReadingOf(rows[n], d.bounds[n]).confidence);
         f.confidence != supported ==>
           f.confidence == FACT_GATE && d.outcomes[n].origin != FromRepair && IsBracketed(d, n, d.outcomes[n].points)
  {
    n := RowFactHasRow(rows, d.assignments, members, d.outcomes, periodKey, observedAt, k);
    WrittenConfidence(rows, d, n);
  }

  lemma {:induction false} ZeroFactHasMember(members: seq<int>, placed: set<int>, n: nat, periodKey: string,
                                             observedAt: int, shot: int, k: nat)
    returns (m: nat)
    requires n <= |members| && k < |ZeroFacts(members, placed, n, periodKey, observedAt, shot)|
    ensures m < n && m !in placed
    ensures ZeroFacts(members, placed, n, periodKey, observedAt, shot)[k] ==
            Fact(PointsKey(members[m], periodKey, observedAt), 0.0, shot, ZERO_CONFIDENCE)
    decreases n
  {
    if k < |ZeroFacts(members, placed, n - 1, periodKey, observedAt, shot)| {
      m := ZeroFactHasMember(members, placed, n - 1, periodKey, observedAt, shot, k);
    } else {
      m := n - 1;
    }
  }

  ghost predicate AreDistinct(s: seq<int>) {
    forall i, j :: 0 <= i < j < |s| ==> s[i] != s[j]
  }

  ghost predicate HaveDistinctKeys(fs: seq<Fact>) {
    forall i, j :: 0 <= i < j < |fs| ==> fs[i].key != fs[j].key
  }

  ghost predicate PlacesEachOnce(assignments: seq<Assignment>) {
    forall i, k :: 0 <= i < k < |assignments| && assignments[i].member >= 0 ==>
      assignments[i].member != assignments[k].member
  }

  lemma {:induction false} RowFactsDistinct(rows: seq<Row>, assignments: seq<Assignment>, members: seq<int>,
                                            outcomes: seq<Outcome>,
                                            periodKey: string, observedAt: int)
    requires |outcomes| <= |rows| && |outcomes| <= |assignments| && AreDistinct(members) && PlacesEachOnce(assignments)
    requires forall n :: 0 <= n < |outcomes| && outcomes[n].Written? ==> 0 <= assignments[n].member < |members|
    ensures HaveDistinctKeys(RowFacts(rows, assignments, members, outcomes, periodKey, observedAt))
    decreases |outcomes|
  {
    if outcomes != [] {
      var last := |outcomes| - 1;
      RowFactsDistinct(rows, assignments, members, outcomes[..last], periodKey, observedAt);
      var before := RowFacts(rows, assignments, members, outcomes[..last], periodKey, observedAt);
      forall k | 0 <= k < |before| && outcomes[last].Written?
        ensures before[k].key != PointsKey(members[assignments[last].member], periodKey, observedAt)
      {
        var n := RowFactHasRow(rows, assignments, members, outcomes[..last], periodKey, observedAt, k);
      }
    }
  }

  lemma {:induction false} ZeroFactsDistinct(members: seq<int>, placed: set<int>, n: nat, periodKey: string,
                                             observedAt: int, shot: int)
    requires n <= |members| && AreDistinct(members)
    ensures HaveDistinctKeys(ZeroFacts(members, placed, n, periodKey, observedAt, shot))
    decreases n
  {
    if n > 0 {
      ZeroFactsDistinct(members, placed, n - 1, periodKey, observedAt, shot);
      var before := ZeroFacts(members, placed, n - 1, periodKey, observedAt, shot);
      forall k | 0 <= k < |before| ensures before[k].key != PointsKey(members[n - 1], periodKey, observedAt) {
        var m := ZeroFactHasMember(members, placed, n - 1, periodKey, observedAt, shot, k);
      }
    }
  }

  lemma JoinDistinct(fs: seq<Fact>, gs: seq<Fact>)
    requires HaveDistinctKeys(fs) && HaveDistinctKeys(gs)
    requires forall i, j :: 0 <= i < |fs| && 0 <= j < |gs| ==> fs[i].key != gs[j].key
    ensures HaveDistinctKeys(fs + gs)
  {
  }

  lemma RowAndZeroDiffer(rows: seq<Row>, assignments: seq<Assignment>, members: seq<int>, outcomes: seq<Outcome>,
                         periodKey: string, observedAt: int, shot: int, i: nat, j: nat)
    requires |outcomes| <= |rows| && |outcomes| <= |assignments| && AreDistinct(members)
    requires forall n :: 0 <= n < |outcomes| && outcomes[n].Written? ==> 0 <= assignments[n].member < |members|
    requires i < |RowFacts(rows, assignments, members, outcomes, periodKey, observedAt)|
    requires j < |ZeroFacts(members, AssignedMembers(assignments), |members|, periodKey, observedAt, shot)|
    ensures RowFacts(rows, assignments, members, outcomes, periodKey, observedAt)[i].key !=
            ZeroFacts(members, AssignedMembers(assignments), |members|, periodKey, observedAt, shot)[j].key
  {
    var n := RowFactHasRow(rows, assignments, members, outcomes, periodKey, observedAt, i);
    var m := ZeroFactHasMember(members, AssignedMembers(assignments), |members|, periodKey, observedAt, shot, j);
    assert assignments[n].member in AssignedMembers(assignments);
  }

  // No member gets two facts from one run.
  lemma NoMemberGetsTwoFacts(rows: seq<Row>, d: Decisions, members: seq<int>, complete: bool,
                             periodKey: string, observedAt: int, lastShot: int)
    requires IsVsRun(rows, d) && WritesMembers(d, members) && AreDistinct(members)
    ensures HaveDistinctKeys(AllFacts(rows, d, members, complete, periodKey, observedAt, lastShot))
  {
    OutcomeIsMatching(ScoresOf(rows), DEFAULT_RESIDUAL, d.assignments);
    var fs := RowFacts(rows, d.assignments, members, d.outcomes, periodKey, observedAt);
    var gs := InferredZeroes(rows, d, members, complete, periodKey, observedAt, lastShot);
    RowFactsDistinct(rows, d.assignments, members, d.outcomes, periodKey, observedAt);
    ZeroFactsDistinct(members, AssignedMembers(d.assignments), |members|, periodKey, observedAt, lastShot);
    forall i, j | 0 <= i < |fs| && 0 <= j < |gs| ensures fs[i].key != gs[j].key {
      RowAndZeroDiffer(rows, d.assignments, members, d.outcomes, periodKey, observedAt, lastShot, i, j);
    }
    JoinDistinct(fs, gs);
  }

  // Every fact is at least as confident as the gate.
  lemma RowFactClearsTheGate(rows: seq<Row>, d: Decisions, members: seq<int>, periodKey: string, observedAt: int,
                             k: nat)
    requires IsVsRun(rows, d) && WritesMembers(d, members)
    requires k < |RowFacts(rows, d.assignments, members, d.outcomes, periodKey, observedAt)|
    ensures RowFacts(rows, d.assignments, members, d.outcomes, periodKey, observedAt)[k].confidence >= FACT_GATE
  {
    var n := RowFactHasRow(rows, d.assignments, members, d.outcomes, periodKey, observedAt, k);
    assert d.outcomes[n] == OutcomeOf(rows[n], d.assignments[n], d.bounds[n]);
    WrittenOutcome(rows[n], d.assignments[n], d.bounds[n]);
  }

  lemma EveryFactClearsTheGate(rows: seq<Row>, d: Decisions, members: seq<int>, complete: bool,
                               periodKey: string, observedAt: int, lastShot: int)
    requires IsVsRun(rows, d) && WritesMembers(d, members)
    ensures forall f :: f in AllFacts(rows, d, members, complete, periodKey, observedAt, lastShot) ==>
              f.confidence >= FACT_GATE
  {
    var fs := RowFacts(rows, d.assignments, members, d.outcomes, periodKey, observedAt);
    var gs := InferredZeroes(rows, d, members, complete, periodKey, observedAt, lastShot);
    forall i | 0 <= i < |fs| ensures fs[i].confidence >= FACT_GATE {
      RowFactClearsTheGate(rows, d, members, periodKey, observedAt, i);
    }
    forall j | 0 <= j < |gs| ensures gs[j].confidence >= FACT_GATE {
      var m := ZeroFactHasMember(members, AssignedMembers(d.assignments), |members|, periodKey, observedAt, lastShot,
                                 j);
    }
  }

  // --------------------------------------------------------------- the zeroes

  // Rows that are given somebody, one member each.
  lemma {:induction false} PlacedAreCounted(assignments: seq<Assignment>, outcomes: seq<Outcome>)
    requires |outcomes| == |assignments| && PlacesEachOnce(assignments)
    requires forall n :: 0 <= n < |outcomes| ==>
               (assignments[n].member >= 0 <==> outcomes[n].Held? || outcomes[n].Written?)
    ensures |AssignedMembers(assignments)| == TallyOf(outcomes).matched
    decreases |outcomes|
  {
    if outcomes == [] {
      assert AssignedMembers(assignments) == {};
    } else {
      var last := |outcomes| - 1;
      PlacedAreCounted(assignments[..last], outcomes[..last]);
      LastIsNew(assignments);
    }
  }

  lemma LastIsNew(assignments: seq<Assignment>)
    requires assignments != [] && PlacesEachOnce(assignments)
    ensures var last := |assignments| - 1; var a := assignments[last];
      |AssignedMembers(assignments)| == |AssignedMembers(assignments[..last])| + if a.member >= 0 then 1 else 0
  {
    var last := |assignments| - 1;
    var rest, a := assignments[..last], assignments[last];
    assert assignments == rest + [a];
    AssignedGrows(rest, a);
    assert a.member !in AssignedMembers(rest);
  }

  ghost function PlacedBelow(placed: set<int>, n: nat): set<int> {
    set m | m in placed && 0 <= m < n
  }

  lemma {:induction false} ZeroesCounted(members: seq<int>, placed: set<int>, n: nat, periodKey: string,
                                         observedAt: int, shot: int)
    requires n <= |members|
    ensures |ZeroFacts(members, placed, n, periodKey, observedAt, shot)| + |PlacedBelow(placed, n)| == n
    decreases n
  {
    if n == 0 {
      assert PlacedBelow(placed, 0) == {};
    } else {
      ZeroesCounted(members, placed, n - 1, periodKey, observedAt, shot);
      if n - 1 in placed {
        assert PlacedBelow(placed, n) == PlacedBelow(placed, n - 1) + {n - 1};
      } else {
        assert PlacedBelow(placed, n) == PlacedBelow(placed, n - 1);
      }
    }
  }

  // Zeroes appear only on a complete capture with rows and nobody unidentified;
  // they then account, with the matched rows, for every member exactly.
  lemma ZeroesCompleteTheRoster(rows: seq<Row>, d: Decisions, members: seq<int>, complete: bool,
                                periodKey: string, observedAt: int, lastShot: int)
    requires IsVsRun(rows, d) && WritesMembers(d, members)
    requires forall n :: 0 <= n < |rows| ==> |rows[n].scores| == |members|
    ensures
      var zeroes, t := InferredZeroes(rows, d, members, complete, periodKey, observedAt, lastShot), TallyOf(d.outcomes);
      if complete && t.unidentified == 0 && |rows| > 0 then t.matched + |zeroes| == |members| else zeroes == []
  {
    OutcomeIsMatching(ScoresOf(rows), DEFAULT_RESIDUAL, d.assignments);
    forall n | 0 <= n < |rows|
      ensures d.assignments[n].member >= 0 <==> d.outcomes[n].Held? || d.outcomes[n].Written?
      ensures d.assignments[n].member < |members|
    {
      assert IsPlaced(ScoresOf(rows)[n], DEFAULT_RESIDUAL, d.assignments[n]);
    }
    PlacedAreCounted(d.assignments, d.outcomes);
    ZeroesCounted(members, AssignedMembers(d.assignments), |members|, periodKey, observedAt, lastShot);
    assert PlacedBelow(AssignedMembers(d.assignments), |members|) == AssignedMembers(d.assignments);
  }
}
