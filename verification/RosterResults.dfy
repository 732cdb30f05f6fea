// What a roster run means (internal/ingest/roster.go): when the review gap is zero,
// exact dedupe in any scroll direction, write-once sizes, and the frame that loses
// travel.
module RosterResults {
  import opened Roster
  import opened RosterLog
  import opened RosterIngest
  import opened RosterAccounts
  import HeaderCards

  // ------------------------------------------------------ one group's photographs

  datatype Came = AlreadyKnown | Queried | Identified

  // Where a photograph put its row, and what came of reading it.
  datatype Sight = Sight(y: int, came: Came)

  ghost function SightOf(tr: Track, e: Entry): Sight
    requires tr.Tracked? && e.input.Photo?
  {
    Sight(e.input.y, if !e.outcome.Read? then AlreadyKnown else if DecisionOf(tr, e).Asks? then Queried else Identified)
  }

  ghost function SightsOf(log: Log, k: string): seq<Sight> {
    if log.Empty? then []
    else if IsOf(log.last, k) && TrackAfter(log.front, k).Tracked? then
      SightsOf(log.front, k) + [SightOf(TrackAfter(log.front, k), log.last)]
    else SightsOf(log.front, k)
  }

  ghost function RowsWith(rows: seq<CollectedRow>, s: Sight): seq<CollectedRow> {
    if s.came.AlreadyKnown? then rows else Settled(rows, s.y, s.came.Identified?)
  }

  ghost function RowsAfter(sights: seq<Sight>): seq<CollectedRow> {
    if sights == [] then [] else RowsWith(RowsAfter(sights[..|sights| - 1]), sights[|sights| - 1])
  }

  // Exactly the rows that are somebody by then are not read.
  ghost predicate ReadInTurn(sights: seq<Sight>) {
    sights == [] ||
    var front, last := sights[..|sights| - 1], sights[|sights| - 1];
    ReadInTurn(front) && (last.came.AlreadyKnown? <==> IsSomebody(RowsAfter(front), last.y))
  }

  lemma OneMoreSight(sights: seq<Sight>, s: Sight)
    ensures RowsAfter(sights + [s]) == RowsWith(RowsAfter(sights), s)
    ensures ReadInTurn(sights + [s]) <==>
              ReadInTurn(sights) && (s.came.AlreadyKnown? <==> IsSomebody(RowsAfter(sights), s.y))
  {
    assert (sights + [s])[..|sights|] == sights;
  }

  // A group's rows are what its own photographs make of them, whatever else went on.
  ghost predicate IsSighted(log: Log, k: string) {
    var tr, sights := TrackAfter(log, k), SightsOf(log, k);
    if tr.Absent? then sights == [] else ReadInTurn(sights) && tr.g.rows == RowsAfter(sights)
  }

  lemma SightMovesRows(tr: Track, e: Entry, k: string)
    requires tr.Tracked? && IsOf(e, k)
    ensures Stepped(tr, k, e).Tracked? && Stepped(tr, k, e).g.rows == RowsWith(tr.g.rows, SightOf(tr, e))
  {
  }

  lemma PhotoIsSighted(initial: seq<int>, log: Log, e: Entry, k: string)
    requires IsSighted(log, k) && IsStep(initial, log, e) && IsOf(e, k)
    ensures IsSighted(Log(log, e), k)
  {
    var tr := TrackAfter(log, k);
    SightMovesRows(tr, e, k);
    OneMoreSight(SightsOf(log, k), SightOf(tr, e));
  }

  lemma StepIsSighted(initial: seq<int>, log: Log, e: Entry, k: string)
    requires IsSighted(log, k) && IsStep(initial, log, e)
    ensures IsSighted(Log(log, e), k)
  {
    if IsOf(e, k) {
      PhotoIsSighted(initial, log, e, k);
    }
  }

  lemma {:induction false} RowsAreSighted(initial: seq<int>, log: Log, k: string)
    requires AreSteps(initial, log)
    ensures IsSighted(log, k)
  {
    if log.Log? {
      RowsAreSighted(initial, log.front, k);
      StepIsSighted(initial, log.front, log.last, k);
    }
  }

  // ------------------------------------------------------------- the review gap

  // The row a photograph at y is of: the first near it, else the next one collected.
  ghost function RowAt(rows: seq<CollectedRow>, y: int): nat {
    if RowNear(rows, y) < 0 then |rows| else RowNear(rows, y)
  }

  ghost function RowOfLast(sights: seq<Sight>): nat
    requires sights != []
  {
    RowAt(RowsAfter(sights[..|sights| - 1]), sights[|sights| - 1].y)
  }

  // Some photograph of row r was queried.
  ghost predicate WasQueried(sights: seq<Sight>, r: nat) {
    sights != [] &&
    (WasQueried(sights[..|sights| - 1], r) || (sights[|sights| - 1].came.Queried? && RowOfLast(sights) == r))
  }

  // Some photograph of row r was queried, and a later one identified it.
  ghost predicate IdentifiedLate(sights: seq<Sight>, r: nat) {
    sights != [] &&
    var front := sights[..|sights| - 1];
    IdentifiedLate(front, r) || (sights[|sights| - 1].came.Identified? && RowOfLast(sights) == r &&
                                 WasQueried(front, r))
  }

  ghost predicate NoneLate(sights: seq<Sight>) {
    forall r: nat :: r < |RowsAfter(sights)| ==> !IdentifiedLate(sights, r)
  }

  ghost predicate FlagsTell(sights: seq<Sight>, r: nat) {
    var rows := RowsAfter(sights);
    if r < |rows| then
      (rows[r].reviewed <==> WasQueried(sights, r)) &&
      (rows[r].resolved && rows[r].reviewed <==> IdentifiedLate(sights, r))
    else !WasQueried(sights, r) && !IdentifiedLate(sights, r)
  }

  // The latched flags remember the order of what the photographs gave.
  lemma {:induction false} FlagsRememberOrder(sights: seq<Sight>, r: nat)
    requires ReadInTurn(sights)
    ensures FlagsTell(sights, r)
    decreases |sights|
  {
    if sights != [] {
      FlagsRememberOrder(sights[..|sights| - 1], r);
    }
  }

  ghost predicate NoneBoth(rows: seq<CollectedRow>) {
    forall k :: 0 <= k < |rows| ==> !(rows[k].resolved && rows[k].reviewed)
  }

  lemma {:induction false} CountsByRow(rows: seq<CollectedRow>)
    requires EachSettled(rows)
    ensures CountReviewed(rows) <= |rows| <= CountResolved(rows) + CountReviewed(rows)
    ensures |rows| == CountResolved(rows) + CountReviewed(rows) <==> NoneBoth(rows)
    decreases |rows|
  {
    if rows != [] {
      var n := |rows| - 1;
      CountsByRow(rows[..n]);
      assert NoneBoth(rows) <==> NoneBoth(rows[..n]) && !(rows[n].resolved && rows[n].reviewed);
    }
  }

  // Parsed minus yielded never exceeds the name-class items; it equals them exactly
  // when no row was identified by a photograph later than one that was queried.
  lemma ReviewGap(initial: seq<int>, log: Log, k: string)
    requires AreSteps(initial, log) && TrackAfter(log, k).Tracked?
    ensures var t := TrackAfter(log, k).t;
      && t.parsed - t.matchedOrCreated <= NameItems(log, k) <= t.parsed
      && (t.parsed - t.matchedOrCreated == NameItems(log, k) <==> NoneLate(SightsOf(log, k)))
  {
    BooksBalance(initial, log, k);
    RowsAreSighted(initial, log, k);
    var rows := RowsAfter(SightsOf(log, k));
    CountsByRow(rows);
    forall r: nat | r < |rows| ensures rows[r].resolved && rows[r].reviewed <==> IdentifiedLate(SightsOf(log, k), r) {
      FlagsRememberOrder(SightsOf(log, k), r);
    }
  }

  // --------------------------------------------------------------- exact dedupe

  // The positions collected out of a history: those near none collected before.
  ghost function Collected(ys: seq<int>): seq<int> {
    if ys == [] then []
    else
      var before, y := Collected(ys[..|ys| - 1]), ys[|ys| - 1];
      if FirstNear(before, y) < 0 then before + [y] else before
  }

  ghost function PositionsOf(sights: seq<Sight>): seq<int> {
    if sights == [] then [] else PositionsOf(sights[..|sights| - 1]) + [sights[|sights| - 1].y]
  }

  lemma {:induction false} RowsStandWhereCollected(sights: seq<Sight>)
    requires ReadInTurn(sights)
    ensures Places(RowsAfter(sights)) == Collected(PositionsOf(sights))
    decreases |sights|
  {
    if sights != [] {
      var front, last := sights[..|sights| - 1], sights[|sights| - 1];
      RowsStandWhereCollected(front);
      var ys := PositionsOf(sights);
      assert ys[..|ys| - 1] == PositionsOf(front) && ys[|ys| - 1] == last.y;
      SettlingPlaces(RowsAfter(front), last.y, last.came.Identified?);
    }
  }

  lemma SettlingPlaces(rows: seq<CollectedRow>, y: int, resolved: bool)
    ensures Places(Settled(rows, y, resolved)) == if RowNear(rows, y) < 0 then Places(rows) + [y] else Places(rows)
  {
  }

  // Collected rows stand more than half a pitch apart, whatever was photographed.
  lemma {:induction false} CollectedAreApart(ys: seq<int>, i: nat, j: nat)
    requires i < j < |Collected(ys)|
    ensures !IsNear(Collected(ys)[i], Collected(ys)[j]) && !IsNear(Collected(ys)[j], Collected(ys)[i])
    decreases |ys|
  {
    var before := Collected(ys[..|ys| - 1]);
    if j < |before| {
      CollectedAreApart(ys[..|ys| - 1], i, j);
    } else {
      assert !IsNear(ys[|ys| - 1], before[i]);
    }
  }

  // The true row a position measures, counted in pitches from where the list starts.
  function TrueRow(y: int, origin: int): int {
    (y - origin + MEMBER_ROW_PITCH / 2) / MEMBER_ROW_PITCH
  }

  // Measured to within less than a quarter of the pitch.
  predicate IsCloseToARow(y: int, origin: int) {
    var error := y - origin - MEMBER_ROW_PITCH * TrueRow(y, origin);
    -MEMBER_ROW_PITCH < 4 * error < MEMBER_ROW_PITCH
  }

  ghost predicate AllClose(ys: seq<int>, origin: int) {
    forall k :: 0 <= k < |ys| ==> IsCloseToARow(ys[k], origin)
  }

  ghost function TrueRows(ys: seq<int>, origin: int): set<int> {
    set k | 0 <= k < |ys| :: TrueRow(ys[k], origin)
  }

  lemma NearIffSameRow(y: int, z: int, origin: int)
    requires IsCloseToARow(y, origin) && IsCloseToARow(z, origin)
    ensures IsNear(y, z) <==> TrueRow(y, origin) == TrueRow(z, origin)
  {
  }

  lemma {:induction false} CollectedRowsAreTheTrueRows(ys: seq<int>, origin: int)
    requires AllClose(ys, origin)
    ensures AllClose(Collected(ys), origin) && TrueRows(Collected(ys), origin) == TrueRows(ys, origin)
    decreases |ys|
  {
    if ys != [] {
      var n := |ys| - 1;
      var before := Collected(ys[..n]);
      CollectedRowsAreTheTrueRows(ys[..n], origin);
      assert ys == ys[..n] + [ys[n]];
      TrueRowsGrow(ys[..n], ys[n], origin);
      TrueRowsGrow(before, ys[n], origin);
      var k := FirstNear(before, ys[n]);
      if k >= 0 {
        NearIffSameRow(ys[n], before[k], origin);
        assert TrueRow(before[k], origin) in TrueRows(before, origin);
      }
    }
  }

  lemma TrueRowsGrow(ys: seq<int>, y: int, origin: int)
    ensures TrueRows(ys + [y], origin) == TrueRows(ys, origin) + {TrueRow(y, origin)}
  {
    assert (ys + [y])[|ys|] == y;
    forall r | r in TrueRows(ys, origin) ensures r in TrueRows(ys + [y], origin) {
      var k :| 0 <= k < |ys| && r == TrueRow(ys[k], origin);
      assert (ys + [y])[k] == ys[k];
    }
    forall r | r in TrueRows(ys + [y], origin) ensures r in TrueRows(ys, origin) + {TrueRow(y, origin)} {
      var k :| 0 <= k < |ys| + 1 && r == TrueRow((ys + [y])[k], origin);
      if k < |ys| {
        assert (ys + [y])[k] == ys[k];
      }
    }
  }

  lemma {:induction false} DistinctRowsCount(ys: seq<int>, origin: int)
    requires forall i, j :: 0 <= i < j < |ys| ==> TrueRow(ys[i], origin) != TrueRow(ys[j], origin)
    ensures |TrueRows(ys, origin)| == |ys|
    decreases |ys|
  {
    if ys != [] {
      var n := |ys| - 1;
      DistinctRowsCount(ys[..n], origin);
      TrueRowsGrow(ys[..n], ys[n], origin);
      assert ys == ys[..n] + [ys[n]];
      assert forall k :: 0 <= k < n ==> ys[..n][k] == ys[k];
    }
  }

  // Wherever the list starts, whatever way it scrolled and however often a row was
  // photographed, one row is collected for each true row photographed.
  lemma DedupeIsExact(ys: seq<int>, origin: int)
    requires AllClose(ys, origin)
    ensures |Collected(ys)| == |TrueRows(ys, origin)| && TrueRows(Collected(ys), origin) == TrueRows(ys, origin)
  {
    CollectedRowsAreTheTrueRows(ys, origin);
    var c := Collected(ys);
    forall i, j | 0 <= i < j < |c| ensures TrueRow(c[i], origin) != TrueRow(c[j], origin) {
      CollectedAreApart(ys, i, j);
      NearIffSameRow(c[i], c[j], origin);
    }
    DistinctRowsCount(c, origin);
  }

  // The parsed rows a group is reconciled by are the true rows photographed, and it
  // never minted more members than it states.
  lemma ReconciledMeansSeenWhole(initial: seq<int>, log: Log, k: string, origin: int)
    requires AreSteps(initial, log) && TrackAfter(log, k).Tracked? && AllClose(PositionsOf(SightsOf(log, k)), origin)
    ensures var t, shown := TrackAfter(log, k).t, TrueRows(PositionsOf(SightsOf(log, k)), origin);
      t.parsed == |shown| && Minted(log, k) <= if t.expectedKnown then t.expected else 0
  {
    BooksBalance(initial, log, k);
    RowsAreSighted(initial, log, k);
    RowsStandWhereCollected(SightsOf(log, k));
    DedupeIsExact(PositionsOf(SightsOf(log, k)), origin);
  }

  // ------------------------------------------------------------- whole captures

  // The count of the first header of this group whose count could be read.
  ghost function FirstCount(inputs: seq<Input>, k: string): Size {
    if inputs == [] then Unstated
    else if inputs[0].Note? && inputs[0].rank == k && inputs[0].read.known then Stated(inputs[0].read.total)
    else FirstCount(inputs[1..], k)
  }

  lemma {:induction false} FirstCountOneMore(inputs: seq<Input>, input: Input, k: string)
    ensures FirstCount(inputs + [input], k) ==
            if FirstCount(inputs, k).Stated? then FirstCount(inputs, k) else FirstCount([input], k)
    decreases |inputs|
  {
    if inputs == [] {
      assert [] + [input] == [input];
    } else {
      assert (inputs + [input])[1..] == inputs[1..] + [input];
      FirstCountOneMore(inputs[1..], input, k);
    }
  }

  // The first count read for a group is the one it keeps.
  lemma {:induction false} SizeIsWrittenOnce(inputs: seq<Input>, k: string)
    ensures if ViewIn(inputs, k).Seen? then ViewIn(inputs, k).size == FirstCount(inputs, k)
            else FirstCount(inputs, k) == Unstated
    decreases |inputs|
  {
    if inputs != [] {
      var front, last := inputs[..|inputs| - 1], inputs[|inputs| - 1];
      SizeIsWrittenOnce(front, k);
      FirstCountOneMore(front, last, k);
      assert inputs == front + [last] && [last][1..] == [];
    }
  }

  lemma {:induction false} ContinuedRanksAreSeen(frames: seq<Frame>, k: string, top: int)
    requires k in PrevRanks(frames)
    ensures ViewIn(Script(frames, top), k).Seen?
    decreases |frames|
  {
    var front, f := frames[..|frames| - 1], frames[|frames| - 1];
    if f.badge.Unmatched? {
      ContinuedRanksAreSeen(front, k, top);
      SkippedFrameMovesNothing(Script(front, top), f, k);
    } else {
      FrameMoves(Script(front, top), f, PrevRanks(front), k, top);
    }
  }

  lemma NoneMore(a: seq<Input>, b: seq<Input>)
    requires NoFieldItems(a) && NoFieldItems(b)
    ensures NoFieldItems(a + b)
  {
  }

  lemma {:induction false} CardsHaveNoFieldItems(shot: int, cards: seq<Card>)
    ensures NoFieldItems(CardInputs(shot, cards))
    decreases |cards|
  {
    if cards != [] {
      CardsHaveNoFieldItems(shot, cards[..|cards| - 1]);
      NoneMore(CardInputs(shot, cards[..|cards| - 1]), OneCard(shot, cards[|cards| - 1]));
    }
  }

  lemma FrameHasNoFieldItems(before: seq<Input>, f: Frame, continued: set<string>, top: int)
    ensures NoFieldItems(FrameInputs(before, f, continued, top))
  {
    if f.badge.Convincing? {
      CardsHaveNoFieldItems(f.shot, CardsOf(f));
      var head := HeadInputs(f, continued);
      NoneMore(head, PhotoInputs(before + head, HeadersOf(CardsOf(f)), f.bands, f.shot, top));
    }
  }

  lemma {:induction false} ScriptHasNoFieldItems(frames: seq<Frame>, top: int)
    ensures NoFieldItems(Script(frames, top))
    decreases |frames|
  {
    if frames != [] {
      var front, f := frames[..|frames| - 1], frames[|frames| - 1];
      ScriptHasNoFieldItems(front, top);
      FrameHasNoFieldItems(Script(front, top), f, PrevRanks(front), top);
      NoneMore(Script(front, top), FrameInputs(Script(front, top), f, PrevRanks(front), top));
    }
  }

  // Over a whole capture every field of every resolved row is a fact or an item, and
  // the parsed rows are those of the groups it shows.
  lemma CaptureAddsUp(frames: seq<Frame>, top: int, log: Log, periodKey: string, observedAt: int)
    requires InputsOf(log) == Script(frames, top)
    ensures |WrittenAfter(log, periodKey, observedAt)| + FieldClassIn(QueueAfter(log)) ==
            3 * (TotalsAfter(log).matched + TotalsAfter(log).created)
    ensures TotalsAfter(log).parsed == SumParsed(log, ShownIn(frames))
  {
    ScriptHasNoFieldItems(frames, top);
    FieldsAddUp(log, periodKey, observedAt);
    forall k | TrackAfter(log, k).Tracked? ensures k in ShownIn(frames) {
      ViewIsReplayed(log, k);
      ShownAreSeen(frames, k, top);
    }
    GroupsAddUp(log, ShownIn(frames));
  }

  lemma {:induction false} ScriptGrows(frames: seq<Frame>, i: nat, top: int)
    requires i <= |frames|
    ensures Script(frames[..i], top) <= Script(frames, top)
    decreases |frames|
  {
    if i == |frames| {
      assert frames[..i] == frames;
    } else {
      var front := frames[..|frames| - 1];
      ScriptGrows(front, i, top);
      assert front[..i] == frames[..i];
    }
  }

  // The run as it stood when it had been handed this many inputs.
  ghost function StageOf(log: Log, n: nat): Log {
    if log.Empty? || |InputsOf(log)| <= n then log else StageOf(log.front, n)
  }

  lemma {:induction false} StageIsEarlier(log: Log, n: nat)
    requires n <= |InputsOf(log)|
    ensures InputsOf(StageOf(log, n)) == InputsOf(log)[..n] && Extends(StageOf(log, n), log)
  {
    if |InputsOf(log)| > n {
      StageIsEarlier(log.front, n);
    }
  }

  // What a group holds after any number of frames is only added to by the rest.
  lemma CaptureOnlyLatches(frames: seq<Frame>, i: nat, top: int, initial: seq<int>, log: Log, k: string)
    requires AreSteps(initial, log) && InputsOf(log) == Script(frames, top) && i <= |frames|
    ensures var stage := StageOf(log, |Script(frames[..i], top)|);
      && InputsOf(stage) == Script(frames[..i], top)
      && (TrackAfter(stage, k).Tracked? ==>
            TrackAfter(log, k).Tracked? && Grows(TrackAfter(stage, k).g, TrackAfter(log, k).g))
  {
    ScriptGrows(frames, i, top);
    StageIsEarlier(log, |Script(frames[..i], top)|);
    var stage := StageOf(log, |Script(frames[..i], top)|);
    if TrackAfter(stage, k).Tracked? {
      LogOnlyLatches(initial, stage, log, k);
    }
  }

  // From frame i on, up to frame j, no badge matched.
  ghost predicate AllUnmatched(frames: seq<Frame>, i: nat, j: nat) {
    forall n :: i <= n < j && n < |frames| ==> frames[n].badge.Unmatched?
  }

  // How far frames i to j - 1 scrolled.
  ghost function Travel(frames: seq<Frame>, i: nat, j: nat): int
    requires i <= j <= |frames|
  {
    if i == j then 0 else Travel(frames, i, j - 1) + frames[j - 1].offsetPx
  }

  lemma SkippedFrameChangesNothing(front: seq<Frame>, f: Frame, frames: seq<Frame>, k: string, top: int)
    requires frames == front + [f] && f.badge.Unmatched?
    ensures ViewIn(Script(frames, top), k) == ViewIn(Script(front, top), k) && PrevRanks(frames) == PrevRanks(front)
  {
    assert frames[..|frames| - 1] == front;
    SkippedFrameMovesNothing(Script(front, top), f, k);
  }

  lemma {:induction false} SkippedFramesChangeNothing(start: seq<Frame>, frames: seq<Frame>, k: string, top: int)
    requires start <= frames && AllUnmatched(frames, |start|, |frames|)
    ensures ViewIn(Script(frames, top), k) == ViewIn(Script(start, top), k) && PrevRanks(frames) == PrevRanks(start)
    decreases |frames|
  {
    if |frames| == |start| {
      assert frames == start;
    } else {
      var front, f := frames[..|frames| - 1], frames[|frames| - 1];
      assert frames == front + [f];
      SkippedFramesChangeNothing(start, front, k, top);
      SkippedFrameChangesNothing(front, f, frames, k, top);
    }
  }

  lemma ResumedPlace(start: seq<Frame>, front: seq<Frame>, f: Frame, frames: seq<Frame>, k: string, top: int)
    requires frames == front + [f] && start <= front && AllUnmatched(front, |start|, |front|)
    requires f.badge.Convincing? && k in RanksOf(CardsOf(f)) && k in PrevRanks(start)
    ensures PlaceIn(Script(frames, top), k) == PlaceIn(Script(start, top), k) + f.offsetPx
  {
    assert frames[..|frames| - 1] == front;
    SkippedFramesChangeNothing(start, front, k, top);
    ContinuedRanksAreSeen(start, k, top);
    FrameMoves(Script(front, top), f, PrevRanks(front), k, top);
  }

  // A group on both sides of frames without a rank moves by the last offset alone:
  // right exactly when the frames between did not scroll.
  lemma SkippedFramesLoseTravel(frames: seq<Frame>, i: nat, j: nat, k: string, top: int)
    requires i <= j < |frames| && AllUnmatched(frames, i, j)
    requires frames[j].badge.Convincing? && k in RanksOf(CardsOf(frames[j])) && k in PrevRanks(frames[..i])
    ensures var from, to := PlaceIn(Script(frames[..i], top), k), PlaceIn(Script(frames[..j + 1], top), k);
      to == from + frames[j].offsetPx && (to == from + Travel(frames, i, j + 1) <==> Travel(frames, i, j) == 0)
  {
    ResumedPlace(frames[..i], frames[..j], frames[j], frames[..j + 1], k, top);
  }

  // A frame of group R3, or one whose badge matched nothing, scrolled by this much.
  function ScrolledFrame(offsetPx: int, badge: Badge): Frame {
    Frame(0, offsetPx, badge, HeaderRead(HeaderCards.Band(654, 696), "", "", 0, false), [], [])
  }

  // Between two frames of R3 one that scrolled by 252 is skipped: of 552 pixels the
  // group moves by 300.
  lemma SkippedFrameLosesTravel(frames: seq<Frame>, top: int)
    requires frames == [ScrolledFrame(0, Convincing("R3")), ScrolledFrame(252, Unmatched),
                        ScrolledFrame(300, Convincing("R3"))]
    ensures Travel(frames, 1, 3) == 552
    ensures PlaceIn(Script(frames, top), "R3") == PlaceIn(Script(frames[..1], top), "R3") + 300
  {
    var ranked := CardsOf(frames[2]);
    assert RanksOf(ranked) == {"R3"} by {
      assert ranked[..0] == [] && RanksOf([]) == {};
    }
    assert CardsOf(frames[0]) == ranked && frames[..1][..0] == [];
    assert PrevRanks(frames[..1]) == RanksOf(ranked);
    assert frames[..3] == frames;
    SkippedFramesLoseTravel(frames, 1, 2, "R3", top);
  }
}
