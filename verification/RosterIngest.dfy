// The roster ingest over a whole capture (internal/ingest/roster.go): every frame
// names its groups by their headers, moves those it continues, and photographs its
// rows.  The frames alone say what the run is handed; what one shows is arbitrary.
module RosterIngest {
  import opened Facts
  import opened HeaderCards
  import opened Roster
  import opened RosterLog
  import opened RosterRows

  datatype Card = Card(header: Header, read: HeaderRead)

  // The sticky header's rank, when its badge matched one convincingly.
  datatype Badge = Convincing(rank: string) | Unmatched

  datatype Frame = Frame(shot: int, offsetPx: int, badge: Badge, sticky: HeaderRead, cards: seq<Card>,
                         bands: seq<Sighting>)

  // ------------------------------------------------- what inputs leave of a group

  datatype Size = Unstated | Stated(total: nat)

  // Where a group's own scroll stands, and its stated size.
  datatype View = Unseen | Seen(place: int, size: Size)

  function SizeRead(read: HeaderRead): Size {
    if read.known then Stated(read.total) else Unstated
  }

  // A size is written once; a header that failed to read never takes it away.
  ghost function StepView(v: View, k: string, input: Input): View {
    match input
    case Note(rank, read) =>
      if rank != k then v
      else if v.Unseen? then Seen(0, SizeRead(read))
      else if v.size.Unstated? then v.(size := SizeRead(read))
      else v
    case Move(ranks, continued, offsetPx) =>
      if v.Seen? && k in ranks && k in continued then v.(place := v.place + offsetPx) else v
    case Item(_) => v
    case Photo(_, _, _, _) => v
  }

  ghost function ViewFrom(v: View, k: string, inputs: seq<Input>): View {
    if inputs == [] then v else StepView(ViewFrom(v, k, inputs[..|inputs| - 1]), k, inputs[|inputs| - 1])
  }

  ghost function ViewIn(inputs: seq<Input>, k: string): View {
    ViewFrom(Unseen, k, inputs)
  }

  ghost function ViewOf(tr: Track): View {
    if tr.Absent? then Unseen else Seen(tr.g.contentY, if tr.g.countKnown then Stated(tr.g.expected) else Unstated)
  }

  lemma ViewOneMore(v: View, k: string, inputs: seq<Input>, input: Input)
    ensures ViewFrom(v, k, inputs + [input]) == StepView(ViewFrom(v, k, inputs), k, input)
  {
    assert (inputs + [input])[..|inputs|] == inputs;
  }

  lemma {:induction false} ViewOn(v: View, k: string, before: seq<Input>, inputs: seq<Input>)
    ensures ViewFrom(v, k, before + inputs) == ViewFrom(ViewFrom(v, k, before), k, inputs)
    decreases |inputs|
  {
    if inputs == [] {
      assert before + inputs == before;
    } else {
      var front, last := inputs[..|inputs| - 1], inputs[|inputs| - 1];
      ViewOn(v, k, before, front);
      ViewOneMore(v, k, before + front, last);
      assert before + inputs == before + front + [last];
    }
  }

  lemma StepsAlike(tr: Track, k: string, e: Entry)
    ensures ViewOf(Stepped(tr, k, e)) == StepView(ViewOf(tr), k, e.input)
  {
  }

  // Nothing a row turns out to be moves its group or changes its size.
  lemma {:induction false} ViewIsReplayed(log: Log, k: string)
    ensures ViewOf(TrackAfter(log, k)) == ViewIn(InputsOf(log), k)
  {
    if log.Log? {
      ViewIsReplayed(log.front, k);
      StepsAlike(TrackAfter(log.front, k), k, log.last);
      ViewOneMore(Unseen, k, InputsOf(log.front), log.last.input);
    }
  }

  // -------------------------------------------------------- what one frame hands over

  // Every header of the frame, the sticky one first.
  function CardsOf(f: Frame): (cards: seq<Card>)
    requires f.badge.Convincing?
    ensures |cards| > 0
  {
    [Card(Header(f.badge.rank, f.sticky.band.y0), f.sticky)] + f.cards
  }

  function HeadersOf(cards: seq<Card>): (headers: seq<Header>)
    ensures |headers| == |cards| && forall k :: 0 <= k < |cards| ==> headers[k] == cards[k].header
  {
    if cards == [] then [] else HeadersOf(cards[..|cards| - 1]) + [cards[|cards| - 1].header]
  }

  function RanksOf(cards: seq<Card>): (ranks: set<string>)
    ensures forall k :: 0 <= k < |cards| ==> cards[k].header.rank in ranks
  {
    if cards == [] then {} else RanksOf(cards[..|cards| - 1]) + {cards[|cards| - 1].header.rank}
  }

  function HeaderItem(shot: int, read: HeaderRead, reason: Reason): Review {
    Review(shot, read.band, read.text, [], reason, 0.0)
  }

  // A header whose count could not be read is a review item.
  ghost function UnreadItems(shot: int, read: HeaderRead): seq<Input> {
    if read.known then [] else [Item(HeaderItem(shot, read, UnparseableHeader))]
  }

  ghost function CardInputs(shot: int, cards: seq<Card>): seq<Input> {
    if cards == [] then [] else CardInputs(shot, cards[..|cards| - 1]) + OneCard(shot, cards[|cards| - 1])
  }

  ghost function OneCard(shot: int, card: Card): seq<Input> {
    UnreadItems(shot, card.read) + [Note(card.header.rank, card.read)]
  }

  // Every header is noted before any group of the frame moves.
  ghost function HeadInputs(f: Frame, continued: set<string>): seq<Input>
    requires f.badge.Convincing?
  {
    CardInputs(f.shot, CardsOf(f)) + [Move(RanksOf(CardsOf(f)), continued, f.offsetPx)]
  }

  ghost function PlaceIn(inputs: seq<Input>, k: string): int {
    var v := ViewIn(inputs, k);
    if v.Seen? then v.place else 0
  }

  // A row, where the scroll of the group that owns it puts it.
  ghost function PhotoOf(before: seq<Input>, headers: seq<Header>, s: Sighting, shot: int, top: int): Input
    requires |headers| > 0
  {
    var group := Owner(headers, s.band.y0);
    Photo(group, PlaceIn(before, group) + (s.band.y0 - top), s, shot)
  }

  ghost function PhotoInputs(before: seq<Input>, headers: seq<Header>, bands: seq<Sighting>, shot: int,
                             top: int): (photos: seq<Input>)
    requires |headers| > 0
    ensures forall i :: 0 <= i < |photos| ==> photos[i].Photo?
  {
    if bands == [] then []
    else
      PhotoInputs(before, headers, bands[..|bands| - 1], shot, top) +
      [PhotoOf(before, headers, bands[|bands| - 1], shot, top)]
  }

  // A frame whose badge matched nothing is queued, and skipped whole.
  ghost function SkippedInputs(f: Frame): seq<Input> {
    UnreadItems(f.shot, f.sticky) + [Item(HeaderItem(f.shot, f.sticky, UnmatchedBadge))]
  }

  ghost function FrameInputs(before: seq<Input>, f: Frame, continued: set<string>, top: int): seq<Input> {
    if f.badge.Unmatched? then SkippedInputs(f)
    else
      var head := HeadInputs(f, continued);
      head + PhotoInputs(before + head, HeadersOf(CardsOf(f)), f.bands, f.shot, top)
  }

  // The ranks the next frame may continue; a frame without a rank leaves them be.
  ghost function RanksAfter(f: Frame, prev: set<string>): set<string> {
    if f.badge.Unmatched? then prev else RanksOf(CardsOf(f))
  }

  ghost function PrevRanks(frames: seq<Frame>): set<string> {
    if frames == [] then {} else RanksAfter(frames[|frames| - 1], PrevRanks(frames[..|frames| - 1]))
  }

  // All a capture hands to a run.
  ghost function Script(frames: seq<Frame>, top: int): seq<Input> {
    if frames == [] then []
    else
      var front := frames[..|frames| - 1];
      var before := Script(front, top);
      before + FrameInputs(before, frames[|frames| - 1], PrevRanks(front), top)
  }

  ghost function ShownIn(frames: seq<Frame>): set<string> {
    if frames == [] then {} else ShownIn(frames[..|frames| - 1]) + RanksShown(frames[|frames| - 1])
  }

  ghost function RanksShown(f: Frame): set<string> {
    if f.badge.Unmatched? then {} else RanksOf(CardsOf(f))
  }

  // Photographs move no group.
  lemma {:induction false} PhotosMoveNothing(v: View, k: string, photos: seq<Input>)
    requires forall i :: 0 <= i < |photos| ==> photos[i].Photo?
    ensures ViewFrom(v, k, photos) == v
    decreases |photos|
  {
    if photos != [] {
      PhotosMoveNothing(v, k, photos[..|photos| - 1]);
    }
  }

  lemma {:induction false} ItemsMoveNothing(v: View, k: string, items: seq<Input>)
    requires forall i :: 0 <= i < |items| ==> items[i].Item?
    ensures ViewFrom(v, k, items) == v
    decreases |items|
  {
    if items != [] {
      ItemsMoveNothing(v, k, items[..|items| - 1]);
    }
  }

  lemma CardKeepsThePlace(v: View, k: string, shot: int, card: Card)
    ensures var w := ViewFrom(v, k, OneCard(shot, card));
      (w.Seen? <==> v.Seen? || k == card.header.rank) && (v.Seen? ==> w.place == v.place)
  {
    var items, note := UnreadItems(shot, card.read), Note(card.header.rank, card.read);
    assert OneCard(shot, card) == items + [note];
    ItemsMoveNothing(v, k, items);
    ViewOneMore(v, k, items, note);
    assert ViewFrom(v, k, items + [note]) == StepView(v, k, note);
  }

  // Headers never move a group that was seen before.
  lemma {:induction false} CardsKeepThePlace(v: View, k: string, shot: int, cards: seq<Card>)
    ensures var w := ViewFrom(v, k, CardInputs(shot, cards));
      (w.Seen? <==> v.Seen? || k in RanksOf(cards)) && (v.Seen? ==> w.place == v.place)
    decreases |cards|
  {
    if cards != [] {
      var front, last := cards[..|cards| - 1], cards[|cards| - 1];
      CardsKeepThePlace(v, k, shot, front);
      ViewOn(v, k, CardInputs(shot, front), OneCard(shot, last));
      CardKeepsThePlace(ViewFrom(v, k, CardInputs(shot, front)), k, shot, last);
    }
  }

  // One ranked frame: its groups are seen, and those it continues move by its offset.
  lemma FrameMoves(before: seq<Input>, f: Frame, continued: set<string>, k: string, top: int)
    requires f.badge.Convincing?
    ensures var v, w := ViewIn(before, k), ViewIn(before + FrameInputs(before, f, continued, top), k);
      && (w.Seen? <==> v.Seen? || k in RanksOf(CardsOf(f)))
      && (v.Seen? ==> w.place == v.place + if k in RanksOf(CardsOf(f)) && k in continued then f.offsetPx else 0)
  {
    var v, cards, head := ViewIn(before, k), CardsOf(f), HeadInputs(f, continued);
    var photos := PhotoInputs(before + head, HeadersOf(cards), f.bands, f.shot, top);
    ViewOn(Unseen, k, before, head + photos);
    CardsKeepThePlace(v, k, f.shot, cards);
    ViewOneMore(v, k, CardInputs(f.shot, cards), Move(RanksOf(cards), continued, f.offsetPx));
    ViewOn(v, k, head, photos);
    PhotosMoveNothing(ViewFrom(v, k, head), k, photos);
  }

  lemma SkippedFrameMovesNothing(before: seq<Input>, f: Frame, k: string)
    ensures ViewIn(before + SkippedInputs(f), k) == ViewIn(before, k)
  {
    ViewOn(Unseen, k, before, SkippedInputs(f));
    ItemsMoveNothing(ViewIn(before, k), k, SkippedInputs(f));
  }

  // The groups a capture names are those it shows.
  lemma {:induction false} ShownAreSeen(frames: seq<Frame>, k: string, top: int)
    ensures ViewIn(Script(frames, top), k).Seen? <==> k in ShownIn(frames)
    decreases |frames|
  {
    if frames != [] {
      var front, f := frames[..|frames| - 1], frames[|frames| - 1];
      ShownAreSeen(front, k, top);
      if f.badge.Unmatched? {
        SkippedFrameMovesNothing(Script(front, top), f, k);
      } else {
        FrameMoves(Script(front, top), f, PrevRanks(front), k, top);
      }
    }
  }

  // ------------------------------------------------------------------ one frame

  // The run was handed these inputs on top of what it had.
  ghost predicate Hands(was: Log, log: Log, inputs: seq<Input>) {
    Extends(was, log) && InputsOf(log) == InputsOf(was) + inputs
  }

  lemma AddsHands(was: Log, log: Log, input: Input)
    requires Adds(was, log, input)
    ensures Hands(was, log, [input])
  {
  }

  lemma HandsOn(a: Log, b: Log, c: Log, xs: seq<Input>, ys: seq<Input>)
    requires Hands(a, b, xs) && Hands(b, c, ys)
    ensures Hands(a, c, xs + ys)
  {
    ExtendsOn(a, b, c);
  }

  lemma NoneHanded(a: Log)
    ensures Hands(a, a, [])
  {
  }

  // Where the run holds a row to be is where its inputs put it.
  lemma PhotoIsHere(run: RosterRun, headers: seq<Header>, s: Sighting, shot: int, top: int)
    requires run.Valid() && |headers| > 0 && Owner(headers, s.band.y0) in run.groups
    ensures var key := Owner(headers, s.band.y0);
      PhotoOf(InputsOf(run.log), headers, s, shot, top) ==
      Photo(key, run.groups[key].contentY + (s.band.y0 - top), s, shot)
  {
    var key := Owner(headers, s.band.y0);
    assert run.Tracks(key);
    ViewIsReplayed(run.log, key);
  }

  method QueueUnread(run: RosterRun, shot: int, read: HeaderRead)
    requires run.Valid()
    modifies run`queue, run`log
    ensures run.Valid() && Hands(old(run.log), run.log, UnreadItems(shot, read))
  {
    NoneHanded(run.log);
    if !read.known {
      run.QueueFrameItem(HeaderItem(shot, read, UnparseableHeader));
      AddsHands(old(run.log), run.log, Item(HeaderItem(shot, read, UnparseableHeader)));
    }
  }

  method NoteCard(run: RosterRun, shot: int, card: Card)
    requires run.Valid()
    modifies run, run.groups.Values
    ensures run.Valid() && fresh(run.groups.Values - old(run.groups.Values))
    ensures Hands(old(run.log), run.log, OneCard(shot, card))
  {
    QueueUnread(run, shot, card.read);
    ghost var was := run.log;
    run.NoteHeader(card.header.rank, card.read);
    AddsHands(was, run.log, Note(card.header.rank, card.read));
    HandsOn(old(run.log), was, run.log, UnreadItems(shot, card.read), [Note(card.header.rank, card.read)]);
  }

  lemma OneMoreCard(shot: int, cards: seq<Card>, n: nat)
    requires n < |cards|
    ensures CardInputs(shot, cards[..n + 1]) == CardInputs(shot, cards[..n]) + OneCard(shot, cards[n])
  {
    assert cards[..n + 1][..n] == cards[..n];
  }

  method NoteCards(run: RosterRun, shot: int, cards: seq<Card>)
    requires run.Valid()
    modifies run, run.groups.Values
    ensures run.Valid() && fresh(run.groups.Values - old(run.groups.Values))
    ensures Hands(old(run.log), run.log, CardInputs(shot, cards))
  {
    ghost var start, known := run.log, run.groups.Values;
    NoneHanded(run.log);
    for i := 0 to |cards|
      invariant run.Valid() && fresh(run.groups.Values - known)
      invariant Hands(start, run.log, CardInputs(shot, cards[..i]))
    {
      OneMoreCard(shot, cards, i);
      ghost var was, trackers := run.log, run.groups.Values;
      NoteCard(run, shot, cards[i]);
      assert run.groups.Values - known <= (run.groups.Values - trackers) + (trackers - known);
      HandsOn(start, was, run.log, CardInputs(shot, cards[..i]), OneCard(shot, cards[i]));
    }
    assert cards[..|cards|] == cards;
  }

  method SightBand(run: RosterRun, headers: seq<Header>, s: Sighting, shot: int, top: int, ghost photo: Input)
    requires run.Valid() && |headers| > 0 && Owner(headers, s.band.y0) in run.groups
    requires photo == PhotoOf(InputsOf(run.log), headers, s, shot, top)
    modifies run, run.groups.Values
    ensures run.Valid() && run.groups == old(run.groups)
    ensures Hands(old(run.log), run.log, [photo])
  {
    var key := OwnerOf(headers, s.band.y0);
    PhotoIsHere(run, headers, s, shot, top);
    run.Sight(key, run.groups[key].contentY + (s.band.y0 - top), s, shot);
    AddsHands(old(run.log), run.log, photo);
  }

  lemma PhotoStays(before: seq<Input>, headers: seq<Header>, bands: seq<Sighting>, s: Sighting, shot: int, top: int)
    requires |headers| > 0
    ensures PhotoOf(before + PhotoInputs(before, headers, bands, shot, top), headers, s, shot, top) ==
            PhotoOf(before, headers, s, shot, top)
  {
    var k, photos := Owner(headers, s.band.y0), PhotoInputs(before, headers, bands, shot, top);
    ViewOn(Unseen, k, before, photos);
    PhotosMoveNothing(ViewIn(before, k), k, photos);
  }

  lemma OneMorePhoto(before: seq<Input>, headers: seq<Header>, bands: seq<Sighting>, n: nat, shot: int, top: int)
    requires |headers| > 0 && n < |bands|
    ensures PhotoInputs(before, headers, bands[..n + 1], shot, top) ==
            PhotoInputs(before, headers, bands[..n], shot, top) + [PhotoOf(before, headers, bands[n], shot, top)]
  {
    assert bands[..n + 1][..n] == bands[..n];
  }

  method SightBands(run: RosterRun, headers: seq<Header>, bands: seq<Sighting>, shot: int, top: int)
    requires run.Valid() && |headers| > 0
    requires forall k :: 0 <= k < |headers| ==> headers[k].rank in run.groups
    modifies run, run.groups.Values
    ensures run.Valid() && run.groups == old(run.groups)
    ensures Hands(old(run.log), run.log, PhotoInputs(InputsOf(old(run.log)), headers, bands, shot, top))
  {
    ghost var start, before := run.log, InputsOf(run.log);
    NoneHanded(run.log);
    for i := 0 to |bands|
      invariant run.Valid() && run.groups == old(run.groups)
      invariant Hands(start, run.log, PhotoInputs(before, headers, bands[..i], shot, top))
    {
      PhotoStays(before, headers, bands[..i], bands[i], shot, top);
      OneMorePhoto(before, headers, bands, i, shot, top);
      ghost var was, photo := run.log, PhotoOf(before, headers, bands[i], shot, top);
      SightBand(run, headers, bands[i], shot, top, photo);
      HandsOn(start, was, run.log, PhotoInputs(before, headers, bands[..i], shot, top), [photo]);
    }
    assert bands[..|bands|] == bands;
  }

  method SkipFrame(run: RosterRun, f: Frame)
    requires run.Valid()
    modifies run`queue, run`log
    ensures run.Valid()
    ensures Hands(old(run.log), run.log, SkippedInputs(f))
  {
    QueueUnread(run, f.shot, f.sticky);
    ghost var was := run.log;
    run.QueueFrameItem(HeaderItem(f.shot, f.sticky, UnmatchedBadge));
    AddsHands(was, run.log, Item(HeaderItem(f.shot, f.sticky, UnmatchedBadge)));
    HandsOn(old(run.log), was, run.log, UnreadItems(f.shot, f.sticky),
            [Item(HeaderItem(f.shot, f.sticky, UnmatchedBadge))]);
  }

  lemma KeysAreSeen(run: RosterRun, k: string)
    requires run.Valid()
    ensures k in run.groups <==> ViewIn(InputsOf(run.log), k).Seen?
  {
    assert run.Tracks(k);
    ViewIsReplayed(run.log, k);
  }

  // Every rank whose header was noted has a tracker.
  lemma NotedAreTracked(run: RosterRun, was: Log, shot: int, cards: seq<Card>)
    requires run.Valid() && Hands(was, run.log, CardInputs(shot, cards))
    ensures RanksOf(cards) <= run.groups.Keys
  {
    forall k | k in RanksOf(cards) ensures k in run.groups {
      ViewOn(Unseen, k, InputsOf(was), CardInputs(shot, cards));
      CardsKeepThePlace(ViewIn(InputsOf(was), k), k, shot, cards);
      KeysAreSeen(run, k);
    }
  }

  method NoteAndMove(run: RosterRun, f: Frame, continued: set<string>)
    requires run.Valid() && f.badge.Convincing?
    modifies run, run.groups.Values
    ensures run.Valid() && fresh(run.groups.Values - old(run.groups.Values))
    ensures RanksOf(CardsOf(f)) <= run.groups.Keys && Hands(old(run.log), run.log, HeadInputs(f, continued))
  {
    var cards := CardsOf(f);
    NoteCards(run, f.shot, cards);
    NotedAreTracked(run, old(run.log), f.shot, cards);
    ghost var was := run.log;
    run.MoveGroups(RanksOf(cards), continued, f.offsetPx);
    AddsHands(was, run.log, Move(RanksOf(cards), continued, f.offsetPx));
    HandsOn(old(run.log), was, run.log, CardInputs(f.shot, cards), [Move(RanksOf(cards), continued, f.offsetPx)]);
  }

  method IngestRanked(run: RosterRun, f: Frame, continued: set<string>, top: int)
    requires run.Valid() && f.badge.Convincing?
    modifies run, run.groups.Values
    ensures run.Valid() && fresh(run.groups.Values - old(run.groups.Values))
    ensures Hands(old(run.log), run.log, FrameInputs(InputsOf(old(run.log)), f, continued, top))
  {
    NoteAndMove(run, f, continued);
    ghost var was := run.log;
    SightBands(run, HeadersOf(CardsOf(f)), f.bands, f.shot, top);
    HandsOn(old(run.log), was, run.log, HeadInputs(f, continued),
            PhotoInputs(InputsOf(was), HeadersOf(CardsOf(f)), f.bands, f.shot, top));
  }

  // Whatever a run was handed on top of what it had, its flags only latched.
  twostate lemma FramesOnlyLatch(run: RosterRun)
    requires old(run.Valid()) && run.Valid() && Extends(old(run.log), run.log)
    ensures forall k :: k in old(run.groups) ==>
              k in run.groups && Grows(old(run.groups[k].State()), run.groups[k].State())
  {
    forall k | k in old(run.groups)
      ensures k in run.groups && Grows(old(run.groups[k].State()), run.groups[k].State())
    {
      assert old(run.Tracks(k)) && run.Tracks(k);
      LogOnlyLatches(run.initial, old(run.log), run.log, k);
    }
  }

  // One frame hands the run exactly what its headers, its offset and its rows say,
  // and names the ranks the next one may continue.
  method IngestFrame(run: RosterRun, f: Frame, prev: set<string>, top: int) returns (next: set<string>)
    requires run.Valid()
    modifies run, run.groups.Values
    ensures run.Valid() && fresh(run.groups.Values - old(run.groups.Values))
    ensures next == RanksAfter(f, prev)
    ensures Hands(old(run.log), run.log, FrameInputs(InputsOf(old(run.log)), f, prev, top))
    ensures forall k :: k in old(run.groups) ==>
              k in run.groups && Grows(old(run.groups[k].State()), run.groups[k].State())
  {
    if f.badge.Unmatched? {
      SkipFrame(run, f);
      next := prev;
    } else {
      IngestRanked(run, f, prev, top);
      next := RanksOf(CardsOf(f));
    }
    FramesOnlyLatch(run);
  }

  // ------------------------------------------------------------ the whole capture

  datatype Status = Complete | Partial

  // Every group shown stated its size and had exactly that many rows collected.
  ghost predicate IsReconciled(t: map<string, Tally>) {
    forall k :: k in t ==> t[k].expectedKnown && t[k].parsed == t[k].expected
  }

  method Reconcile(t: map<string, Tally>) returns (status: Status)
    ensures status == Complete <==> IsReconciled(t)
  {
    var todo := t.Keys;
    while true
      invariant todo <= t.Keys
      invariant forall k :: k in t && k !in todo ==> t[k].expectedKnown && t[k].parsed == t[k].expected
      decreases |todo|
    {
      if k :| k in todo {
        if !t[k].expectedKnown || t[k].parsed != t[k].expected {
          return Partial;
        }
        todo := todo - {k};
      } else {
        return Complete;
      }
    }
  }

  // The alliance frame's own member count, when it was there and could be read.
  datatype AllianceCount = Unavailable | Checked(total: nat)

  method IngestRoster(frames: seq<Frame>, members: seq<int>, table: Table, periodKey: string, observedAt: int,
                      alliance: AllianceCount, top: int)
    returns (run: RosterRun, status: Status)
    ensures fresh(run) && run.Valid() && run.start == table && run.initial == members
    ensures run.periodKey == periodKey && run.observedAt == observedAt
    ensures InputsOf(run.log) == Script(frames, top) && run.groups.Keys == ShownIn(frames)
    ensures status == Complete <==>
              IsReconciled(run.perGroup) && (alliance.Checked? ==> run.totalParsed == alliance.total)
  {
    run := new RosterRun(members, table, periodKey, observedAt);
    var prevFrameRanks: set<string> := {};
    for i := 0 to |frames|
      invariant fresh(run) && fresh(run.groups.Values) && run.Valid()
      invariant prevFrameRanks == PrevRanks(frames[..i])
      invariant InputsOf(run.log) == Script(frames[..i], top)
    {
      assert frames[..i + 1][..i] == frames[..i];
      prevFrameRanks := IngestFrame(run, frames[i], prevFrameRanks, top);
    }
    assert frames[..|frames|] == frames;
    forall k ensures k in run.groups <==> k in ShownIn(frames) {
      KeysAreSeen(run, k);
      ShownAreSeen(frames, k, top);
    }
    status := Reconcile(run.perGroup);
    if alliance.Checked? && run.totalParsed != alliance.total {
      status := Partial;
    }
  }
}
