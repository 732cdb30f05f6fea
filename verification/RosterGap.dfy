// A capture over which the review gap opens (internal/ingest/roster.go): one member's
// row, photographed twice.  Its name loses the last letter to the first photograph,
// which queues it, and is read whole by the second, which identifies it.
module RosterGap {
  import opened Ranking
  import opened Names
  import NameScore
  import EditDistance
  import HeaderCards
  import PointsText
  import opened Roster
  import opened RosterLog
  import opened RosterIngest
  import opened RosterAccounts

  const TOP := 704

  // ---------------------------------------------------------------- the capture

  const STICKY := HeaderRead(HeaderCards.Band(654, 696), "Footloose", "Footloose", 0, false)

  // What one photograph reads of the row's name, and how that scores against member 7.
  datatype Glimpse = Glimpse(shot: int, text: string, score: int)

  predicate IsQueried(r: Glimpse) {
    r.text != "" && PointsText.IsTrim(r.text) && REVIEW_FLOOR <= r.score < AUTO_ACCEPT
  }

  predicate IsAccepted(r: Glimpse) {
    r.text != "" && PointsText.IsTrim(r.text) && r.score >= AUTO_ACCEPT
  }

  function SightingOf(r: Glimpse): Sighting {
    Sighting(HeaderCards.Band(704, 816), r.text, 0.9, true, map[7 := r.score], [NO_POWER, NO_LEVEL, NO_ACTIVITY])
  }

  function FrameOf(r: Glimpse): Frame {
    Frame(r.shot, 0, Convincing("R3"), STICKY, [], [SightingOf(r)])
  }

  // What such a frame adds to a run before its row.
  ghost function Headed(log: Log, shot: int, continued: set<string>): Log {
    var item, note := Entry(Item(HeaderItem(shot, STICKY, UnparseableHeader)), Done), Entry(Note("R3", STICKY), Done);
    Log(Log(Log(log, item), note), Entry(Move({"R3"}, continued, 0), Done))
  }

  ghost function Photographed(log: Log, r: Glimpse, who: int): Log {
    Log(log, Entry(Photo("R3", 0, SightingOf(r), r.shot), Read([Candidate(7, r.score)], who)))
  }

  ghost function AskedLog(a: Glimpse): Log {
    Photographed(Headed(Empty, a.shot, {}), a, 0)
  }

  ghost function GapLog(a: Glimpse, b: Glimpse): Log {
    Photographed(Headed(AskedLog(a), b.shot, {"R3"}), b, 7)
  }

  // -------------------------------------------------------------------- the run

  lemma RankedAlone(r: Glimpse)
    ensures Rank(SightingOf(r), [7]) == [Candidate(7, r.score)]
  {
    var c := Candidate(7, r.score);
    assert ScoredAgainst(SightingOf(r), [7]) == [c];
    assert [c][..0] == [] && Ranked([]) == [];
    assert Ranked([c]) == InsertBelowEquals([], c);
  }

  function Verdict(r: Glimpse): Decision {
    if r.score < AUTO_ACCEPT then Asks(AmbiguousName) else Matches(7, r.score)
  }

  // The row is read from a score alone.
  lemma ScoreDecides(r: Glimpse, g: Group)
    requires IsQueried(r) || IsAccepted(r)
    ensures DecisionOn(SightingOf(r), [Candidate(7, r.score)], g) == Verdict(r)
  {
    PointsText.TrimOfTrim(r.text);
  }

  ghost predicate Stands(log: Log, tr: Track) {
    AreSteps([7], log) && MembersAfter([7], log) == [7] && TrackAfter(log, "R3") == tr
  }

  lemma HeadStands(log: Log, shot: int, continued: set<string>, tr: Track)
    requires Stands(log, tr)
    ensures Stands(Headed(log, shot, continued), Noted(tr, STICKY))
  {
    var a := Log(log, Entry(Item(HeaderItem(shot, STICKY, UnparseableHeader)), Done));
    var b := Log(a, Entry(Note("R3", STICKY), Done));
    assert Stands(a, tr);
    assert Stands(b, Noted(tr, STICKY));
  }

  lemma PhotoStands(log: Log, r: Glimpse, who: int, g: Group, t: Tally)
    requires Stands(log, Tracked(g, t)) && !IsSomebody(g.rows, 0)
    requires (IsQueried(r) && who == 0) || (IsAccepted(r) && who == 7)
    ensures Stands(Photographed(log, r, who),
                   Tracked(GroupAfter(g, 0, Verdict(r), who), TallyAfter(g, t, 0, Verdict(r))))
  {
    RankedAlone(r);
    ScoreDecides(r, g);
  }

  lemma OneRow(resolved: bool, reviewed: bool)
    ensures var r := CollectedRow(0, resolved, reviewed); RowNear([], 0) == -1 && RowNear([r], 0) == 0
  {
    var r := CollectedRow(0, resolved, reviewed);
    FirstNearIsUnique(Places([r]), 0, 0);
  }

  const FRESH := Group(0, false, {}, 0, [])
  const ASKED := Group(0, false, {}, 0, [CollectedRow(0, false, true)])
  const KNOWN := Group(0, false, {7}, 0, [CollectedRow(0, true, true)])

  lemma AskedThenKnown(score: int)
    ensures GroupAfter(FRESH, 0, Asks(AmbiguousName), 0) == ASKED && GroupAfter(ASKED, 0, Matches(7, score), 7) == KNOWN
    ensures !IsSomebody(FRESH.rows, 0) && !IsSomebody(ASKED.rows, 0)
    ensures RowNear(FRESH.rows, 0) == -1 && RowNear(ASKED.rows, 0) == 0
  {
    OneRow(false, true);
    var r := CollectedRow(0, false, false);
    assert WithRow([], 0) == [r];
    assert Latched([r], 0, false) == [CollectedRow(0, false, true)];
  }

  lemma AskedStands(a: Glimpse, t: Tally)
    requires IsQueried(a) && t == Tally(0, false, 0, 0, "Footloose")
    ensures Stands(AskedLog(a), Tracked(ASKED, t.(parsed := 1)))
  {
    AskedThenKnown(0);
    HeadStands(Empty, a.shot, {}, Absent);
    PhotoStands(Headed(Empty, a.shot, {}), a, 0, FRESH, t);
    assert TallyAfter(FRESH, t, 0, Verdict(a)) == t.(parsed := 1);
  }

  lemma GapStands(a: Glimpse, b: Glimpse, t: Tally)
    requires IsQueried(a) && IsAccepted(b) && t == Tally(0, false, 1, 0, "Footloose")
    ensures Stands(GapLog(a, b), Tracked(KNOWN, t.(matchedOrCreated := 1)))
  {
    AskedThenKnown(b.score);
    AskedStands(a, t.(parsed := 0));
    var tr := Tracked(ASKED, t);
    assert Noted(tr, STICKY) == tr;
    HeadStands(AskedLog(a), b.shot, {"R3"}, tr);
    PhotoStands(Headed(AskedLog(a), b.shot, {"R3"}), b, 7, ASKED, t);
    assert TallyAfter(ASKED, t, 0, Verdict(b)) == t.(matchedOrCreated := 1);
  }

  // ----------------------------------------------------------------- its inputs

  ghost function CaseInputs(r: Glimpse, continued: set<string>): seq<Input> {
    [Item(HeaderItem(r.shot, STICKY, UnparseableHeader)), Note("R3", STICKY), Move({"R3"}, continued, 0),
     Photo("R3", 0, SightingOf(r), r.shot)]
  }

  lemma CaseHead(r: Glimpse, continued: set<string>)
    ensures HeadInputs(FrameOf(r), continued) == CaseInputs(r, continued)[..3]
    ensures HeadersOf(CardsOf(FrameOf(r))) == [HeaderCards.Header("R3", 654)]
    ensures RanksOf(CardsOf(FrameOf(r))) == {"R3"}
  {
    var card := Card(HeaderCards.Header("R3", 654), STICKY);
    var inputs := CaseInputs(r, continued);
    assert CardsOf(FrameOf(r)) == [card] && [card][..0] == [];
    assert CardInputs(r.shot, [card]) == CardInputs(r.shot, []) + OneCard(r.shot, card);
    assert OneCard(r.shot, card) == inputs[..2];
    assert RanksOf([card]) == RanksOf([]) + {"R3"} == {"R3"};
    assert inputs[..3] == inputs[..2] + [Move({"R3"}, continued, 0)];
  }

  lemma CaseView(v: View, r: Glimpse, continued: set<string>)
    requires v == Unseen || v == Seen(0, Unstated)
    ensures var inputs := CaseInputs(r, continued);
      ViewFrom(v, "R3", inputs[..3]) == ViewFrom(v, "R3", inputs) == Seen(0, Unstated)
  {
    var inputs := CaseInputs(r, continued);
    assert inputs[..1][..0] == [] && inputs[..2][..1] == inputs[..1];
    assert inputs[..3][..2] == inputs[..2] && inputs[..4] == inputs;
    assert ViewFrom(v, "R3", inputs[..1]) == v;
    assert ViewFrom(v, "R3", inputs[..2]) == Seen(0, Unstated);
    assert ViewFrom(v, "R3", inputs[..3]) == Seen(0, Unstated);
  }

  lemma CaseFrame(before: seq<Input>, r: Glimpse, continued: set<string>)
    requires ViewIn(before, "R3") == Unseen || ViewIn(before, "R3") == Seen(0, Unstated)
    ensures FrameInputs(before, FrameOf(r), continued, TOP) == CaseInputs(r, continued)
    ensures ViewIn(before + CaseInputs(r, continued), "R3") == Seen(0, Unstated)
  {
    var f, inputs := FrameOf(r), CaseInputs(r, continued);
    var cards := CardsOf(f);
    CaseHead(r, continued);
    var v, head := ViewIn(before, "R3"), inputs[..3];
    CaseView(v, r, continued);
    ViewOn(Unseen, "R3", before, head);
    ViewOn(Unseen, "R3", before, inputs);
    assert f.bands[..0] == [];
    assert PhotoOf(before + head, HeadersOf(cards), f.bands[0], f.shot, TOP) == inputs[3];
    assert PhotoInputs(before + head, HeadersOf(cards), f.bands, f.shot, TOP) == [inputs[3]];
  }

  lemma CaseScript(a: Glimpse, b: Glimpse)
    ensures Script([FrameOf(a), FrameOf(b)], TOP) == CaseInputs(a, {}) + CaseInputs(b, {"R3"})
  {
    assert [FrameOf(a), FrameOf(b)][..1] == [FrameOf(a)] && [FrameOf(a)][..0] == [];
    assert Script([], TOP) == [] && PrevRanks([]) == {};
    CaseHead(a, {});
    CaseFrame([], a, {});
    assert [] + CaseInputs(a, {}) == CaseInputs(a, {});
    CaseFrame(CaseInputs(a, {}), b, {"R3"});
  }

  lemma OneFrameInputs(log: Log, r: Glimpse, continued: set<string>, who: int)
    ensures InputsOf(Photographed(Headed(log, r.shot, continued), r, who)) == InputsOf(log) + CaseInputs(r, continued)
  {
    var inputs := CaseInputs(r, continued);
    var item := Log(log, Entry(Item(HeaderItem(r.shot, STICKY, UnparseableHeader)), Done));
    var note := Log(item, Entry(Note("R3", STICKY), Done));
    assert InputsOf(item) == InputsOf(log) + inputs[..1];
    assert InputsOf(note) == InputsOf(log) + inputs[..2];
    assert InputsOf(Headed(log, r.shot, continued)) == InputsOf(log) + inputs[..3];
  }

  lemma GapInputs(a: Glimpse, b: Glimpse)
    ensures InputsOf(GapLog(a, b)) == CaseInputs(a, {}) + CaseInputs(b, {"R3"})
  {
    OneFrameInputs(Empty, a, {}, 0);
    OneFrameInputs(AskedLog(a), b, {"R3"}, 7);
    assert [] + CaseInputs(a, {}) == CaseInputs(a, {});
  }

  lemma OneItem(log: Log)
    requires AreSteps([7], log) && TrackAfter(log, "R3").Tracked? && TrackAfter(log, "R3").g == KNOWN
    ensures NameItems(log, "R3") == 1
  {
    BooksBalance([7], log, "R3");
    assert KNOWN.rows[..0] == [];
  }

  // The gap opens over these two frames: a run over them parses one row, yields it, and
  // has queued it.
  ghost predicate OpensTheGap(a: Glimpse, b: Glimpse) {
    var tr := TrackAfter(GapLog(a, b), "R3");
    && AreSteps([7], GapLog(a, b)) && InputsOf(GapLog(a, b)) == Script([FrameOf(a), FrameOf(b)], TOP)
    && tr.Tracked? && tr.t.parsed - tr.t.matchedOrCreated == 0 && NameItems(GapLog(a, b), "R3") == 1
  }

  lemma QueriedThenAccepted(a: Glimpse, b: Glimpse)
    requires IsQueried(a) && IsAccepted(b)
    ensures OpensTheGap(a, b)
  {
    GapStands(a, b, Tally(0, false, 1, 0, "Footloose"));
    CaseScript(a, b);
    GapInputs(a, b);
    OneItem(GapLog(a, b));
  }

  // ------------------------------------------------------------------- the name

  // A reading of the member whose name is w, scored as the matcher scores it.
  ghost function GlimpseOf(w: Word, shot: int, text: string): Glimpse {
    Glimpse(shot, text, NameScore.Score(GlyphsOf(text), GlyphsOf(w)))
  }

  // A plain name that loses its last letter is queried exactly at these lengths.
  lemma LostLetterIsQueriedIff(w: Word)
    requires NameScore.IsASCII(w) && |w| >= 2
    ensures REVIEW_FLOOR <= NameScore.Score(GlyphsOf(EditDistance.Init(w)), GlyphsOf(w)) < AUTO_ACCEPT <==>
              4 <= |w| <= 12
  {
    NameScore.LostLetterScore(w);
    HundredthsOf(|w|, NameScore.Score(GlyphsOf(EditDistance.Init(w)), GlyphsOf(w)));
  }

  lemma HundredthsOf(n: nat, q: int)
    requires n > 0 && q == 100 * (n - 1) / n
    ensures REVIEW_FLOOR <= q < AUTO_ACCEPT <==> 4 <= n <= 12
  {
    NameScore.QuotientAtLeast(100 * (n - 1), n, REVIEW_FLOOR);
    NameScore.QuotientAtLeast(100 * (n - 1), n, AUTO_ACCEPT);
  }

  // Letters only, four to twelve of them.
  predicate IsPlainName(w: Word) {
    4 <= |w| <= 12 && forall i :: 0 <= i < |w| ==> 'a' <= w[i] <= 'z'
  }

  lemma WholeNameScore(w: Word)
    ensures NameScore.Score(GlyphsOf(w), GlyphsOf(w)) == 100
  {
    NameScore.OneWordName(w);
    NameScore.FullScoreIffAlike(GlyphsOf(w), GlyphsOf(w));
  }

  lemma PlainTexts(w: Word)
    requires IsPlainName(w)
    ensures NameScore.IsASCII(w) && PointsText.IsTrim(w)
    ensures EditDistance.Init(w) != "" && PointsText.IsTrim(EditDistance.Init(w))
  {
    forall i | 0 <= i < |w| ensures NameScore.IsCore(w[i]) && !PointsText.IsSpace(w[i]) {
      assert 'a' <= w[i] <= 'z';
    }
  }

  lemma LostLetterGlimpses(w: Word, a: Glimpse, b: Glimpse)
    requires IsPlainName(w) && a == GlimpseOf(w, 1, EditDistance.Init(w)) && b == GlimpseOf(w, 2, w)
    ensures IsQueried(a) && IsAccepted(b)
  {
    PlainTexts(w);
    LostLetterIsQueriedIff(w);
    WholeNameScore(w);
  }

  // Whatever the plain name, losing its last letter to the first photograph and none to
  // the second opens the gap: parsed minus yielded is 0, with a name-class item queued.
  lemma ReviewGapCanOpen(w: Word, a: Glimpse, b: Glimpse)
    requires IsPlainName(w) && a == GlimpseOf(w, 1, EditDistance.Init(w)) && b == GlimpseOf(w, 2, w)
    ensures OpensTheGap(a, b)
  {
    LostLetterGlimpses(w, a, b);
    QueriedThenAccepted(a, b);
  }

  // Lothar is such a name: "lotha" scores 83, and the whole of it 100.
  lemma LotharLosesItsLastLetter(w: Word)
    requires w == "lothar"
    ensures IsPlainName(w) && EditDistance.Init(w) == "lotha"
    ensures GlimpseOf(w, 1, EditDistance.Init(w)).score == 83 && GlimpseOf(w, 2, w).score == 100
  {
    PlainTexts(w);
    NameScore.LostLetterScore(w);
    WholeNameScore(w);
  }
}
