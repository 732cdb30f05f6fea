// A roster run as the log of what it was shown (internal/ingest/roster.go): the
// trackers, the members, the queue and the facts are what replaying the log gives,
// and every entry is what the rules say about the log before it.
module RosterLog {
  import opened Facts
  import opened Ranking
  import opened Roster

  // What a run is handed, in order.
  datatype Input =
    | Item(review: Review)                                              // about a frame or a header
    | Note(rank: string, read: HeaderRead)                              // a header of this group
    | Move(ranks: set<string>, continued: set<string>, offsetPx: int)   // one frame's groups advance
    | Photo(group: string, y: int, s: Sighting, shot: int)              // one band, owned by this group

  // What became of it: a photograph of a row that is already somebody is not read,
  // any other is, and who is the member it resolved to, if any.
  datatype Outcome = Done | Skipped | Read(ranking: seq<Candidate>, who: int)

  datatype Entry = Entry(input: Input, outcome: Outcome)

  datatype Log = Empty | Log(front: Log, last: Entry)

  ghost function InputsOf(log: Log): (inputs: seq<Input>)
  {
    if log.Empty? then [] else InputsOf(log.front) + [log.last.input]
  }

  // A later stage of the same run.
  ghost predicate Extends(a: Log, b: Log) {
    a == b || (b.Log? && Extends(a, b.front))
  }

  lemma {:induction false} ExtendsOn(a: Log, b: Log, c: Log)
    requires Extends(a, b) && Extends(b, c)
    ensures Extends(a, c)
  {
    if b != c {
      ExtendsOn(a, b, c.front);
    }
  }

  // ------------------------------------------------------------------- one group

  datatype Track = Absent | Tracked(g: Group, t: Tally)

  function Noted(tr: Track, read: HeaderRead): Track {
    if tr.Absent? then
      Tracked(Group(read.total, read.known, {}, 0, []), Tally(read.total, read.known, 0, 0, read.name))
    else if !tr.g.countKnown && read.known then
      Tracked(tr.g.(expected := read.total, countKnown := true),
              tr.t.(expected := read.total, expectedKnown := true, name := read.name))
    else tr
  }

  ghost function GroupAfter(g: Group, y: int, d: Decision, who: int): Group {
    g.(resolved := if d.Asks? then g.resolved else g.resolved + {who}, rows := Settled(g.rows, y, !d.Asks?))
  }

  ghost function TallyAfter(g: Group, t: Tally, y: int, d: Decision): Tally {
    t.(parsed := if RowNear(g.rows, y) < 0 then t.parsed + 1 else t.parsed,
       matchedOrCreated := if d.Asks? then t.matchedOrCreated else t.matchedOrCreated + 1)
  }

  ghost function Stepped(tr: Track, k: string, e: Entry): Track {
    match e.input
    case Item(_) => tr
    case Note(rank, read) => if rank == k then Noted(tr, read) else tr
    case Move(ranks, continued, offsetPx) =>
      if tr.Tracked? && k in ranks && k in continued then tr.(g := tr.g.(contentY := tr.g.contentY + offsetPx)) else tr
    case Photo(group, y, s, shot) =>
      if tr.Tracked? && group == k && e.outcome.Read? then
        var d := DecisionOn(s, e.outcome.ranking, tr.g);
        Tracked(GroupAfter(tr.g, y, d, e.outcome.who), TallyAfter(tr.g, tr.t, y, d))
      else tr
  }

  ghost function TrackAfter(log: Log, k: string): Track {
    if log.Empty? then Absent else Stepped(TrackAfter(log.front, k), k, log.last)
  }

  // ------------------------------------------------------------------ the whole run

  // The group an entry's photograph is of, as the log before it leaves that group.
  ghost function Before(log: Log, e: Entry): Track {
    if e.input.Photo? then TrackAfter(log, e.input.group) else Absent
  }

  predicate IsReading(tr: Track, e: Entry) {
    tr.Tracked? && e.input.Photo? && e.outcome.Read?
  }

  function DecisionOf(tr: Track, e: Entry): Decision
    requires IsReading(tr, e)
  {
    DecisionOn(e.input.s, e.outcome.ranking, tr.g)
  }

  ghost function MembersOf(tr: Track, e: Entry): seq<int> {
    if IsReading(tr, e) && DecisionOf(tr, e).Mints? then [e.outcome.who] else []
  }

  ghost function ItemsOf(tr: Track, e: Entry): seq<Review> {
    if e.input.Item? then [e.input.review]
    else if !IsReading(tr, e) then []
    else
      var d := DecisionOf(tr, e);
      if !d.Asks? then FieldItems(e.input.shot, e.input.s.band, MatchNorm(d), e.input.s.fields)
      else if WasReviewed(tr.g.rows, e.input.y) then []
      else [NameItem(e.input.s, e.input.shot, e.outcome.ranking, d.reason)]
  }

  ghost function FactsOf(tr: Track, e: Entry, periodKey: string, observedAt: int): seq<Fact> {
    if IsReading(tr, e) && !DecisionOf(tr, e).Asks? then
      FieldFacts(Place(e.outcome.who, e.input.shot, periodKey, observedAt), MatchNorm(DecisionOf(tr, e)),
                 e.input.s.fields)
    else []
  }

  datatype Totals = Totals(matched: nat, created: nat, parsed: nat)

  ghost function Counted(n: Totals, tr: Track, e: Entry): Totals {
    if !IsReading(tr, e) then n
    else
      var d := DecisionOf(tr, e);
      Totals(n.matched + if d.Matches? then 1 else 0, n.created + if d.Mints? then 1 else 0,
             n.parsed + if RowNear(tr.g.rows, e.input.y) < 0 then 1 else 0)
  }

  ghost function MembersAfter(initial: seq<int>, log: Log): seq<int> {
    if log.Empty? then initial else MembersAfter(initial, log.front) + MembersOf(Before(log.front, log.last), log.last)
  }

  ghost function QueueAfter(log: Log): seq<Review> {
    if log.Empty? then [] else QueueAfter(log.front) + ItemsOf(Before(log.front, log.last), log.last)
  }

  ghost function WrittenAfter(log: Log, periodKey: string, observedAt: int): seq<Fact> {
    if log.Empty? then []
    else WrittenAfter(log.front, periodKey, observedAt) +
         FactsOf(Before(log.front, log.last), log.last, periodKey, observedAt)
  }

  ghost function TotalsAfter(log: Log): Totals {
    if log.Empty? then Totals(0, 0, 0) else Counted(TotalsAfter(log.front), Before(log.front, log.last), log.last)
  }

  // --------------------------------------------------------------------- the rules

  // The photograph's group is known; a row that is somebody is skipped; any other is
  // ranked against the members known by then, and a minted member is a new one.
  ghost predicate IsStep(initial: seq<int>, log: Log, e: Entry) {
    if !e.input.Photo? then e.outcome == Done
    else
      var tr, members := TrackAfter(log, e.input.group), MembersAfter(initial, log);
      && tr.Tracked?
      && if IsSomebody(tr.g.rows, e.input.y) then e.outcome == Skipped
         else
           && e.outcome.Read? && e.outcome.ranking == Rank(e.input.s, members)
           && match DecisionOf(tr, e)
              case Matches(memberId, _) => e.outcome.who == memberId && memberId in members
              case Mints => e.outcome.who !in members
              case Asks(_) => true
  }

  ghost predicate AreSteps(initial: seq<int>, log: Log) {
    log.Empty? || (AreSteps(initial, log.front) && IsStep(initial, log.front, log.last))
  }

  // ---------------------------------------------------------------- what only grows

  // What any stretch of a run may do to a group: the size is written once, rows
  // stay where they were collected, and flags only latch.
  ghost predicate Grows(g: Group, h: Group) {
    && (g.countKnown ==> h.countKnown && h.expected == g.expected)
    && g.resolved <= h.resolved
    && |g.rows| <= |h.rows|
    && forall k :: 0 <= k < |g.rows| ==> OnlyLatched(g.rows[k], h.rows[k])
  }

  predicate OnlyLatched(r: CollectedRow, s: CollectedRow) {
    s.y == r.y && (r.resolved ==> s.resolved) && (r.reviewed ==> s.reviewed)
  }

  lemma GrowsOn(g: Group, h: Group, i: Group)
    requires Grows(g, h) && Grows(h, i)
    ensures Grows(g, i)
  {
    forall k | 0 <= k < |g.rows| ensures OnlyLatched(g.rows[k], i.rows[k]) {
      assert OnlyLatched(g.rows[k], h.rows[k]) && OnlyLatched(h.rows[k], i.rows[k]);
    }
  }

  // A row that is somebody is not read again, so a reading settles one that is not.
  lemma ReadingGrows(g: Group, y: int, d: Decision, who: int)
    requires !IsSomebody(g.rows, y)
    ensures Grows(g, GroupAfter(g, y, d, who))
  {
  }

  lemma StepGrows(initial: seq<int>, log: Log, e: Entry, k: string)
    requires IsStep(initial, log, e) && TrackAfter(log, k).Tracked?
    ensures Stepped(TrackAfter(log, k), k, e).Tracked? &&
            Grows(TrackAfter(log, k).g, Stepped(TrackAfter(log, k), k, e).g)
  {
    var tr := TrackAfter(log, k);
    var next := Stepped(tr, k, e);
    if e.input.Photo? && e.input.group == k && e.outcome.Read? {
      var d := DecisionOn(e.input.s, e.outcome.ranking, tr.g);
      assert next.Tracked? && next.g == GroupAfter(tr.g, e.input.y, d, e.outcome.who);
      ReadingGrows(tr.g, e.input.y, d, e.outcome.who);
    } else {
      assert next.Tracked? && next.g.rows == tr.g.rows;
    }
  }

  // From any stage of a run to any later one.
  lemma {:induction false} LogOnlyLatches(initial: seq<int>, a: Log, b: Log, k: string)
    requires AreSteps(initial, b) && Extends(a, b) && TrackAfter(a, k).Tracked?
    ensures TrackAfter(b, k).Tracked? && Grows(TrackAfter(a, k).g, TrackAfter(b, k).g)
  {
    if a != b {
      LogOnlyLatches(initial, a, b.front, k);
      StepGrows(initial, b.front, b.last, k);
      GrowsOn(TrackAfter(a, k).g, TrackAfter(b.front, k).g, TrackAfter(b, k).g);
    }
  }

  // ------------------------------------------------------------------- one step

  // What a run holds besides its groups.
  datatype Books = Books(members: seq<int>, queue: seq<Review>, table: Table, totals: Totals)

  ghost function BooksAfter(initial: seq<int>, start: Table, log: Log, periodKey: string, observedAt: int): Books {
    Books(MembersAfter(initial, log), QueueAfter(log), UpsertAll(start, WrittenAfter(log, periodKey, observedAt)),
          TotalsAfter(log))
  }

  ghost function AfterEntry(b: Books, tr: Track, e: Entry, periodKey: string, observedAt: int): Books {
    Books(b.members + MembersOf(tr, e), b.queue + ItemsOf(tr, e),
          UpsertAll(b.table, FactsOf(tr, e, periodKey, observedAt)), Counted(b.totals, tr, e))
  }

  // What one reading adds, given what it decided and whether the row was queued before.
  ghost function AfterReading(b: Books, s: Sighting, ranking: seq<Candidate>, d: Decision, reviewed: bool,
                              at: Place): Books {
    match d
    case Asks(reason) => if reviewed then b else b.(queue := b.queue + [NameItem(s, at.shot, ranking, reason)])
    case Matches(_, _) => Resolved(b, s, d, at).(totals := b.totals.(matched := b.totals.matched + 1))
    case Mints =>
      Resolved(b, s, d, at).(members := b.members + [at.memberId], totals := b.totals.(created := b.totals.created + 1))
  }

  // The three fields of a row that is this member.
  ghost function Resolved(b: Books, s: Sighting, d: Decision, at: Place): Books {
    b.(queue := b.queue + FieldItems(at.shot, s.band, MatchNorm(d), s.fields),
       table := UpsertAll(b.table, FieldFacts(at, MatchNorm(d), s.fields)))
  }

  // A row not collected before is one more parsed.
  ghost function WithParsed(b: Books, isNew: bool): Books {
    if isNew then b.(totals := b.totals.(parsed := b.totals.parsed + 1)) else b
  }

  // These are the books of a run with this log.
  ghost predicate IsReplay(initial: seq<int>, start: Table, log: Log, periodKey: string, observedAt: int, b: Books) {
    AreSteps(initial, log) && b == BooksAfter(initial, start, log, periodKey, observedAt)
  }

  lemma OneMoreEntry(initial: seq<int>, start: Table, log: Log, e: Entry, periodKey: string, observedAt: int)
    ensures BooksAfter(initial, start, Log(log, e), periodKey, observedAt) ==
            AfterEntry(BooksAfter(initial, start, log, periodKey, observedAt), Before(log, e), e, periodKey, observedAt)
  {
    UpsertInTwoParts(start, WrittenAfter(log, periodKey, observedAt),
                     FactsOf(Before(log, e), e, periodKey, observedAt));
  }

  // An item about a frame or a header moves no group.
  lemma ItemReplays(initial: seq<int>, start: Table, log: Log, review: Review, periodKey: string, observedAt: int,
                    b: Books)
    requires IsReplay(initial, start, log, periodKey, observedAt, b)
    ensures IsReplay(initial, start, Log(log, Entry(Item(review), Done)), periodKey, observedAt,
                     b.(queue := b.queue + [review]))
  {
    OneMoreEntry(initial, start, log, Entry(Item(review), Done), periodKey, observedAt);
  }

  // Headers and moves add nothing to the books.
  lemma QuietReplays(initial: seq<int>, start: Table, log: Log, input: Input, periodKey: string, observedAt: int,
                     b: Books)
    requires IsReplay(initial, start, log, periodKey, observedAt, b) && (input.Note? || input.Move?)
    ensures IsReplay(initial, start, Log(log, Entry(input, Done)), periodKey, observedAt, b)
  {
    OneMoreEntry(initial, start, log, Entry(input, Done), periodKey, observedAt);
  }

  // Nor does a photograph of a row that is somebody.
  lemma SkippingReplays(initial: seq<int>, start: Table, log: Log, photo: Input, periodKey: string, observedAt: int,
                        b: Books, g: Group, t: Tally)
    requires IsReplay(initial, start, log, periodKey, observedAt, b) && photo.Photo?
    requires TrackAfter(log, photo.group) == Tracked(g, t) && IsSomebody(g.rows, photo.y)
    ensures IsReplay(initial, start, Log(log, Entry(photo, Skipped)), periodKey, observedAt, b)
    ensures TrackAfter(Log(log, Entry(photo, Skipped)), photo.group) == Tracked(g, t)
  {
    OneMoreEntry(initial, start, log, Entry(photo, Skipped), periodKey, observedAt);
  }

  lemma ReadingIsTheEntry(b: Books, tr: Track, e: Entry, periodKey: string, observedAt: int)
    requires IsReading(tr, e)
    ensures AfterEntry(b, tr, e, periodKey, observedAt) ==
      AfterReading(WithParsed(b, RowNear(tr.g.rows, e.input.y) < 0), e.input.s, e.outcome.ranking, DecisionOf(tr, e),
                   WasReviewed(tr.g.rows, e.input.y), Place(e.outcome.who, e.input.shot, periodKey, observedAt))
  {
  }

  // A photograph that is read: the decision is the rules', and who it names fits it.
  ghost predicate IsReadingOf(e: Entry, members: seq<int>, g: Group) {
    && e.input.Photo? && e.outcome.Read? && e.outcome.ranking == Rank(e.input.s, members)
    && !IsSomebody(g.rows, e.input.y)
    && var d := DecisionOn(e.input.s, e.outcome.ranking, g);
       (d.Matches? ==> e.outcome.who == d.memberId) && (d.Mints? ==> e.outcome.who !in members)
  }

  lemma ReadingIsAStep(initial: seq<int>, log: Log, e: Entry, g: Group, t: Tally)
    requires IsReadingOf(e, MembersAfter(initial, log), g) && TrackAfter(log, e.input.group) == Tracked(g, t)
    ensures IsStep(initial, log, e)
  {
    OnlyStrangersAreMinted(e.input.s, g, MembersAfter(initial, log));
  }

  lemma ReadingMovesItsGroup(log: Log, e: Entry, members: seq<int>, g: Group, t: Tally)
    requires IsReadingOf(e, members, g) && TrackAfter(log, e.input.group) == Tracked(g, t)
    ensures var y, d := e.input.y, DecisionOn(e.input.s, e.outcome.ranking, g);
      TrackAfter(Log(log, e), e.input.group) == Tracked(GroupAfter(g, y, d, e.outcome.who), TallyAfter(g, t, y, d))
  {
  }

  lemma ReadingReplays(initial: seq<int>, start: Table, log: Log, e: Entry, periodKey: string, observedAt: int,
                       b: Books, g: Group, t: Tally)
    requires IsReplay(initial, start, log, periodKey, observedAt, b)
    requires IsReadingOf(e, b.members, g) && TrackAfter(log, e.input.group) == Tracked(g, t)
    ensures var y, d := e.input.y, DecisionOn(e.input.s, e.outcome.ranking, g);
      IsReplay(initial, start, Log(log, e), periodKey, observedAt,
               AfterReading(WithParsed(b, RowNear(g.rows, y) < 0), e.input.s, e.outcome.ranking, d,
                            WasReviewed(g.rows, y),
                            Place(e.outcome.who, e.input.shot, periodKey, observedAt)))
  {
    ReadingIsAStep(initial, log, e, g, t);
    OneMoreEntry(initial, start, log, e, periodKey, observedAt);
    ReadingIsTheEntry(b, Tracked(g, t), e, periodKey, observedAt);
  }
}
