// The roster ingest's records and rules (internal/ingest/roster.go): per-group
// trackers, geometric dedupe, the creation budget, and what one reading of a row
// decides, queues and writes.
module Roster {
  import opened Facts
  import opened Ranking
  import HeaderCards
  import PointsText

  const MEMBER_ROW_PITCH := 112

  // One row band this group has been photographed with.
  datatype CollectedRow = CollectedRow(y: int, resolved: bool, reviewed: bool)

  // A tracker's fields, as a value.
  datatype Group = Group(expected: nat, countKnown: bool, resolved: set<int>, contentY: int, rows: seq<CollectedRow>)

  predicate HasBudget(g: Group) {
    g.countKnown && |g.resolved| < g.expected
  }

  // The published account of one group.
  datatype Tally = Tally(expected: nat, expectedKnown: bool, parsed: nat, matchedOrCreated: nat, name: string)

  // ------------------------------------------------------------------- dedupe

  predicate IsNear(a: int, b: int) {
    -MEMBER_ROW_PITCH / 2 <= a - b <= MEMBER_ROW_PITCH / 2
  }

  // idx is the first place within half a pitch of y, or negative.
  ghost predicate IsFirstNear(places: seq<int>, y: int, idx: int) {
    if idx < 0 then forall k :: 0 <= k < |places| ==> !IsNear(y, places[k])
    else idx < |places| && IsNear(y, places[idx]) && forall k :: 0 <= k < idx ==> !IsNear(y, places[k])
  }

  ghost function FirstNear(places: seq<int>, y: int): (idx: int)
    ensures IsFirstNear(places, y, idx) && -1 <= idx
  {
    if places == [] then -1
    else
      var n := |places| - 1;
      var before := FirstNear(places[..n], y);
      if before >= 0 then before else if IsNear(y, places[n]) then n else -1
  }

  lemma FirstNearIsUnique(places: seq<int>, y: int, idx: int)
    requires IsFirstNear(places, y, idx) && idx >= -1
    ensures idx == FirstNear(places, y)
  {
  }

  ghost function Places(rows: seq<CollectedRow>): (places: seq<int>)
    ensures |places| == |rows| && forall k :: 0 <= k < |rows| ==> places[k] == rows[k].y
  {
    if rows == [] then [] else Places(rows[..|rows| - 1]) + [rows[|rows| - 1].y]
  }

  ghost function RowNear(rows: seq<CollectedRow>, y: int): (idx: int)
    ensures -1 <= idx < |rows|
  {
    FirstNear(Places(rows), y)
  }

  // The row photographed here is already somebody, or already in front of a human.
  ghost predicate IsSomebody(rows: seq<CollectedRow>, y: int) {
    RowNear(rows, y) >= 0 && rows[RowNear(rows, y)].resolved
  }

  ghost predicate WasReviewed(rows: seq<CollectedRow>, y: int) {
    RowNear(rows, y) >= 0 && rows[RowNear(rows, y)].reviewed
  }

  function WithRow(rows: seq<CollectedRow>, y: int): seq<CollectedRow> {
    rows + [CollectedRow(y, false, false)]
  }

  function Latched(rows: seq<CollectedRow>, i: nat, resolved: bool): seq<CollectedRow>
    requires i < |rows|
  {
    rows[i := CollectedRow(rows[i].y, resolved, rows[i].reviewed || !resolved)]
  }

  // The rows after a reading at y: of the row it was near, else of a new one.
  ghost function Settled(rows: seq<CollectedRow>, y: int, resolved: bool): seq<CollectedRow> {
    var idx := RowNear(rows, y);
    if idx < 0 then Latched(WithRow(rows, y), |rows|, resolved) else Latched(rows, idx, resolved)
  }

  // -------------------------------------------------------------- what is read

  // A numeric field: what it was read as, whether that parsed, and how sure the engine was.
  datatype FieldRead = FieldRead(metric: string, name: string, raw: string, parsed: bool, value: real, conf: real)

  // Every row is read for its power, its level and its last activity.
  type RowFields = fields: seq<FieldRead> | |fields| == 3
    witness [NO_POWER, NO_LEVEL, NO_ACTIVITY]

  const NO_POWER := FieldRead("power", "power", "", false, 0.0, 0.0)
  const NO_LEVEL := FieldRead("level", "level", "", false, 0.0, 0.0)
  const NO_ACTIVITY := FieldRead("last_active_hours", "last_active", "", false, 0.0, 0.0)

  // What one photograph of a row reads as.
  datatype Sighting = Sighting(band: HeaderCards.Band, name: string, nameConf: real, nameAccepted: bool,
                               scores: map<int, int>, fields: RowFields) {
    // How the name as read scores against a member, 0 when nothing of it matches.
    function Score(memberId: int): int {
      if memberId in scores then scores[memberId] else 0
    }

    predicate IsBlank() {
      PointsText.TrimSpace(name) == ""
    }
  }

  // What one header's text gave: its count may have failed to read.
  datatype HeaderRead = HeaderRead(band: HeaderCards.Band, text: string, name: string, total: nat, known: bool)

  datatype Reason =
    | UnreadableName | AmbiguousName | LowConfidenceName | GroupFull | GroupCountUnknown
    | Unparseable(field: string) | LowConfidence(field: string) | UnparseableHeader | UnmatchedBadge

  datatype Review = Review(shot: int, band: HeaderCards.Band, text: string, candidates: seq<Candidate>, reason: Reason,
                           confidence: real)

  predicate IsNameClass(r: Reason) {
    r.UnreadableName? || r.AmbiguousName? || r.LowConfidenceName? || r.GroupFull? || r.GroupCountUnknown?
  }

  predicate IsFieldClass(r: Reason) {
    r.Unparseable? || r.LowConfidence?
  }

  // ------------------------------------------------------------------ decisions

  datatype Decision = Matches(memberId: int, score: int) | Mints | Asks(reason: Reason)

  function ScoredAgainst(s: Sighting, members: seq<int>): (cs: seq<Candidate>)
    ensures |cs| == |members| && forall j :: 0 <= j < |cs| ==> cs[j] == Candidate(members[j], s.Score(members[j]))
  {
    if members == [] then []
    else
      var last := members[|members| - 1];
      ScoredAgainst(s, members[..|members| - 1]) + [Candidate(last, s.Score(last))]
  }

  function Rank(s: Sighting, members: seq<int>): seq<Candidate> {
    Ranked(ScoredAgainst(s, members))
  }

  function DecisionOn(s: Sighting, ranking: seq<Candidate>, g: Group): (d: Decision)
    ensures d.Asks? ==> IsNameClass(d.reason)
  {
    if s.IsBlank() then Asks(UnreadableName)
    else if ranking != [] && ranking[0].score >= AUTO_ACCEPT then Matches(ranking[0].id, ranking[0].score)
    else if ranking != [] && ranking[0].score >= REVIEW_FLOOR then Asks(AmbiguousName)
    else if !s.nameAccepted then Asks(LowConfidenceName)
    else if HasBudget(g) then Mints
    else Asks(if g.countKnown then GroupFull else GroupCountUnknown)
  }

  // How certain the name is: a new member is, by definition, this member.
  function MatchNorm(d: Decision): real {
    if d.Matches? then d.score as real / 100.0 else 1.0
  }

  // Only a legible stranger is minted, and only out of a known, unspent size; a match
  // is the first member nobody outscores.
  lemma OnlyStrangersAreMinted(s: Sighting, g: Group, members: seq<int>)
    ensures var d := DecisionOn(s, Rank(s, members), g);
      && (d.Mints? <==> && !s.IsBlank() && s.nameAccepted && HasBudget(g)
                        && forall j :: 0 <= j < |members| ==> s.Score(members[j]) < REVIEW_FLOOR)
      && (d.Matches? <==> !s.IsBlank() && exists j :: 0 <= j < |members| && s.Score(members[j]) >= AUTO_ACCEPT)
      && (d.Matches? ==> exists i :: IsBestMember(s, members, i) && d == Matches(members[i], s.Score(members[i])))
  {
    var cs := ScoredAgainst(s, members);
    if members != [] {
      var i := HeadIsFirstBest(cs);
      assert s.Score(members[i]) == cs[i].score;
      forall j | 0 <= j < |members|
        ensures s.Score(members[j]) <= s.Score(members[i]) && (j < i ==> s.Score(members[j]) < s.Score(members[i]))
      {
        assert cs[j].score <= cs[i].score;
      }
      assert IsBestMember(s, members, i);
    }
  }

  // Some member scores that much.
  ghost predicate ScoresAtLeast(s: Sighting, members: seq<int>, floor: int) {
    exists j :: 0 <= j < |members| && s.Score(members[j]) >= floor
  }

  // What a queued row asks: nothing was read of its name; a member comes near it; nobody
  // does, but it was read unsurely; or it is a stranger's, and its group is full or of
  // unknown size.
  lemma AskedFor(s: Sighting, g: Group, members: seq<int>)
    ensures var d := DecisionOn(s, Rank(s, members), g); var read, near := !s.IsBlank(), ScoresAtLeast(s, members, 75);
      && (d == Asks(UnreadableName) <==> s.IsBlank())
      && (d == Asks(AmbiguousName) <==> read && near && !ScoresAtLeast(s, members, 92))
      && (d == Asks(LowConfidenceName) <==> read && !near && !s.nameAccepted)
      && (d == Asks(GroupFull) <==>
            read && !near && s.nameAccepted && g.countKnown && |g.resolved| >= g.expected)
      && (d == Asks(GroupCountUnknown) <==> read && !near && s.nameAccepted && !g.countKnown)
      && (d.Asks? ==> IsNameClass(d.reason))
  {
    var cs := ScoredAgainst(s, members);
    if members != [] {
      var i := HeadIsFirstBest(cs);
      forall j | 0 <= j < |members| ensures s.Score(members[j]) <= s.Score(members[i]) {
        assert cs[j].score <= cs[i].score;
      }
    }
  }

  ghost predicate IsBestMember(s: Sighting, members: seq<int>, i: int) {
    && 0 <= i < |members|
    && (forall j :: 0 <= j < |members| ==> s.Score(members[j]) <= s.Score(members[i]))
    && (forall j :: 0 <= j < i ==> s.Score(members[j]) < s.Score(members[i]))
  }

  // --------------------------------------------------------- what a reading leaves

  function NameItem(s: Sighting, shot: int, ranking: seq<Candidate>, reason: Reason): Review {
    Review(shot, s.band, s.name, if reason.UnreadableName? then [] else ranking, reason,
           if reason.UnreadableName? || reason.LowConfidenceName? then s.nameConf else 0.0)
  }

  // A field is no more certain than the name it hangs on.
  function FieldConfidence(matchNorm: real, f: FieldRead): real {
    if matchNorm < f.conf then matchNorm else f.conf
  }

  // Where a member's facts of one run go.
  datatype Place = Place(memberId: int, shot: int, periodKey: string, observedAt: int)

  function FactOf(at: Place, matchNorm: real, f: FieldRead): Fact {
    Fact(Key(at.memberId, f.metric, at.periodKey, "ocr:alliance_members", at.observedAt), f.value, at.shot,
         FieldConfidence(matchNorm, f))
  }

  ghost function FieldFacts(at: Place, matchNorm: real, fields: seq<FieldRead>): (fs: seq<Fact>)
    ensures forall f :: f in fs ==> f.confidence >= FACT_GATE
  {
    if fields == [] then []
    else
      var f := fields[|fields| - 1];
      FieldFacts(at, matchNorm, fields[..|fields| - 1]) +
      if f.parsed && FieldConfidence(matchNorm, f) >= FACT_GATE then [FactOf(at, matchNorm, f)] else []
  }

  ghost function FieldItems(shot: int, band: HeaderCards.Band, matchNorm: real, fields: seq<FieldRead>): seq<Review> {
    if fields == [] then []
    else
      var f := fields[|fields| - 1];
      var conf := FieldConfidence(matchNorm, f);
      FieldItems(shot, band, matchNorm, fields[..|fields| - 1]) +
      if !f.parsed then [Review(shot, band, f.raw, [], Unparseable(f.name), 0.0)]
      else if conf < FACT_GATE then [Review(shot, band, f.raw, [], LowConfidence(f.name), conf)]
      else []
  }

  // Each field ends as a fact or as an item, never both and never neither.
  lemma {:induction false} EachFieldEndsOnce(at: Place, band: HeaderCards.Band, matchNorm: real, fields: seq<FieldRead>)
    ensures |FieldFacts(at, matchNorm, fields)| + |FieldItems(at.shot, band, matchNorm, fields)| == |fields|
    ensures forall r :: r in FieldItems(at.shot, band, matchNorm, fields) ==> IsFieldClass(r.reason)
    decreases |fields|
  {
    if fields != [] {
      EachFieldEndsOnce(at, band, matchNorm, fields[..|fields| - 1]);
    }
  }

  lemma OneMoreField(at: Place, band: HeaderCards.Band, matchNorm: real, fields: seq<FieldRead>, n: nat)
    requires n < |fields|
    ensures FieldFacts(at, matchNorm, fields[..n + 1]) ==
            FieldFacts(at, matchNorm, fields[..n]) + FieldFacts(at, matchNorm, [fields[n]])
    ensures FieldItems(at.shot, band, matchNorm, fields[..n + 1]) ==
            FieldItems(at.shot, band, matchNorm, fields[..n]) + FieldItems(at.shot, band, matchNorm, [fields[n]])
  {
    assert fields[..n + 1][..n] == fields[..n] && [fields[n]][..0] == [];
  }
}
