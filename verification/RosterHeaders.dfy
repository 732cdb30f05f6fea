// What the headers of a capture leave behind (internal/ingest/roster.go): the items about
// those that could not be read, the name a group is reported under, and who is new.
module RosterHeaders {
  import HeaderCards
  import opened Roster
  import opened RosterLog
  import opened RosterIngest
  import opened RosterOwners

  // ------------------------------------------------------------ unread headers

  // An item shows this header, and nobody to choose from.
  ghost predicate IsAboutHeader(r: Review, f: Frame, read: HeaderRead, reason: Reason) {
    r == Review(f.shot, read.band, read.text, [], reason, 0.0)
  }

  // The item is about a header of the frame that gave no count, or about a badge that
  // matched nothing.
  ghost predicate IsHeaderItem(f: Frame, r: Review) {
    || (f.badge.Unmatched? && IsAboutHeader(r, f, f.sticky, UnmatchedBadge))
    || (!f.sticky.known && IsAboutHeader(r, f, f.sticky, UnparseableHeader))
    || (f.badge.Convincing? && exists c :: IsUnreadCard(f, c, r))
  }

  ghost predicate IsUnreadCard(f: Frame, c: int, r: Review) {
    0 <= c < |f.cards| && !f.cards[c].read.known && IsAboutHeader(r, f, f.cards[c].read, UnparseableHeader)
  }

  ghost predicate IsUnread(shot: int, card: Card, r: Review) {
    !card.read.known && r == HeaderItem(shot, card.read, UnparseableHeader)
  }

  lemma {:induction false} UnreadCardsAreItems(shot: int, cards: seq<Card>, r: Review)
    ensures Item(r) in CardInputs(shot, cards) <==> exists c :: 0 <= c < |cards| && IsUnread(shot, cards[c], r)
    decreases |cards|
  {
    if cards != [] {
      var front, last := cards[..|cards| - 1], cards[|cards| - 1];
      UnreadCardsAreItems(shot, front, r);
      InEither(CardInputs(shot, front), OneCard(shot, last), Item(r));
      if IsUnread(shot, last, r) {
        assert cards[|front|] == last;
      }
    }
  }

  lemma PhotosAreNoItems(photos: seq<Input>, r: Review)
    requires forall i :: 0 <= i < |photos| ==> photos[i].Photo?
    ensures Item(r) !in photos
  {
  }

  lemma RankedHeadersAreItems(before: seq<Input>, f: Frame, continued: set<string>, top: int, r: Review)
    requires f.badge.Convincing?
    ensures Item(r) in FrameInputs(before, f, continued, top) <==> IsHeaderItem(f, r)
  {
    var cards, head := CardsOf(f), HeadInputs(f, continued);
    var photos := PhotoInputs(before + head, HeadersOf(cards), f.bands, f.shot, top);
    UnreadCardsAreItems(f.shot, cards, r);
    PhotosAreNoItems(photos, r);
    assert Item(r) in head + photos <==> Item(r) in CardInputs(f.shot, cards);
    CardsAreStickyAndRest(f, r);
  }

  lemma CardsAreStickyAndRest(f: Frame, r: Review)
    requires f.badge.Convincing?
    ensures (exists c :: 0 <= c < |CardsOf(f)| && IsUnread(f.shot, CardsOf(f)[c], r)) <==> IsHeaderItem(f, r)
  {
    var cards := CardsOf(f);
    assert cards[0].read == f.sticky;
    if c :| IsUnreadCard(f, c, r) {
      assert cards[c + 1] == f.cards[c] && IsUnread(f.shot, cards[c + 1], r);
    }
    if c :| 0 <= c < |cards| && IsUnread(f.shot, cards[c], r) {
      assert c > 0 ==> IsUnreadCard(f, c - 1, r);
    }
    if !f.sticky.known && IsAboutHeader(r, f, f.sticky, UnparseableHeader) {
      assert IsUnread(f.shot, cards[0], r);
    }
  }

  // A frame hands over an item for each header it could not read and for an unmatched badge,
  // and no other.
  lemma UnreadHeadersAreItems(before: seq<Input>, f: Frame, continued: set<string>, top: int, r: Review)
    ensures Item(r) in FrameInputs(before, f, continued, top) <==> IsHeaderItem(f, r)
  {
    if f.badge.Convincing? {
      RankedHeadersAreItems(before, f, continued, top, r);
    } else {
      assert FrameInputs(before, f, continued, top) == SkippedInputs(f);
    }
  }

  // Some frame calls for this item.
  ghost predicate IsCalledFor(frames: seq<Frame>, r: Review) {
    exists i :: 0 <= i < |frames| && IsHeaderItem(frames[i], r)
  }

  lemma CalledForOneMore(front: seq<Frame>, f: Frame, frames: seq<Frame>, r: Review)
    requires frames == front + [f]
    ensures IsCalledFor(frames, r) <==> IsCalledFor(front, r) || IsHeaderItem(f, r)
  {
    if i :| 0 <= i < |front| && IsHeaderItem(front[i], r) {
      assert frames[i] == front[i];
    }
    if IsHeaderItem(f, r) {
      assert frames[|front|] == f;
    }
  }

  ghost predicate HandsItsHeaders(frames: seq<Frame>, top: int, r: Review) {
    Item(r) in Script(frames, top) <==> IsCalledFor(frames, r)
  }

  lemma ItemsOneMore(front: seq<Frame>, f: Frame, frames: seq<Frame>, top: int, r: Review)
    requires frames == front + [f] && HandsItsHeaders(front, top, r)
    ensures HandsItsHeaders(frames, top, r)
  {
    CalledForOneMore(front, f, frames, r);
    var before := Script(front, top);
    ScriptUpTo(front, f, frames, top);
    UnreadHeadersAreItems(before, f, PrevRanks(front), top, r);
    InEither(before, FrameInputs(before, f, PrevRanks(front), top), Item(r));
  }

  lemma {:induction false} ItemsUpTo(frames: seq<Frame>, n: nat, top: int, r: Review)
    requires n <= |frames|
    ensures HandsItsHeaders(frames[..n], top, r)
  {
    if n == 0 {
      assert frames[..0] == [];
    } else {
      ItemsUpTo(frames, n - 1, top, r);
      ItemsOneMore(frames[..n - 1], frames[n - 1], frames[..n], top, r);
    }
  }

  // What a capture hands over about its headers, frame by frame.
  lemma CaptureItemsAreItsHeaders(frames: seq<Frame>, top: int, r: Review)
    ensures Item(r) in Script(frames, top) <==> IsCalledFor(frames, r)
  {
    ItemsUpTo(frames, |frames|, top, r);
    assert frames[..|frames|] == frames;
    assert HandsItsHeaders(frames, top, r);
  }

  lemma InEither(a: seq<Input>, b: seq<Input>, input: Input)
    ensures input in a + b <==> input in a || input in b
  {
  }

  // Whatever is handed over as an item is queued, and every queued item that no row's
  // reading made was handed over.
  lemma {:induction false} HandedItemsAreQueued(log: Log, r: Review)
    ensures Item(r) in InputsOf(log) ==> r in QueueAfter(log)
    ensures r in QueueAfter(log) && r.reason in {UnparseableHeader, UnmatchedBadge} ==> Item(r) in InputsOf(log)
  {
    if log.Log? {
      HandedItemsAreQueued(log.front, r);
      if r in ItemsOf(Before(log.front, log.last), log.last) && !log.last.input.Item? {
        RowItemsAreNoHeaders(Before(log.front, log.last), log.last, r);
      }
    }
  }

  lemma RowItemsAreNoHeaders(tr: Track, e: Entry, r: Review)
    requires r in ItemsOf(tr, e) && !e.input.Item?
    ensures r.reason !in {UnparseableHeader, UnmatchedBadge}
  {
    var d := DecisionOf(tr, e);
    if !d.Asks? {
      FieldItemsAreOfFields(e.input.shot, e.input.s.band, MatchNorm(d), e.input.s.fields, r);
    }
  }

  lemma {:induction false} FieldItemsAreOfFields(shot: int, band: HeaderCards.Band, matchNorm: real,
                                                 fields: seq<FieldRead>, r: Review)
    requires r in FieldItems(shot, band, matchNorm, fields)
    ensures IsFieldClass(r.reason)
    decreases |fields|
  {
    if r in FieldItems(shot, band, matchNorm, fields[..|fields| - 1]) {
      FieldItemsAreOfFields(shot, band, matchNorm, fields[..|fields| - 1], r);
    }
  }

  // The header items of a run's queue are exactly those its frames call for.
  lemma QueuedHeadersAreExact(frames: seq<Frame>, top: int, log: Log, r: Review)
    requires InputsOf(log) == Script(frames, top) && r.reason in {UnparseableHeader, UnmatchedBadge}
    ensures r in QueueAfter(log) <==> IsCalledFor(frames, r)
  {
    CaptureItemsAreItsHeaders(frames, top, r);
    HandedItemsAreQueued(log, r);
  }

  // ----------------------------------------------------------- a group's name

  // The run was handed this reading of a header of group k.
  ghost predicate WasNoted(log: Log, k: string, read: HeaderRead) {
    Note(k, read) in InputsOf(log)
  }

  // A group is reported under the name of one header of its own: the one whose count it
  // kept, if it has a count.
  lemma {:induction false} NameGoesWithTheCount(log: Log, k: string) returns (read: HeaderRead)
    requires TrackAfter(log, k).Tracked?
    ensures WasNoted(log, k, read) && TrackAfter(log, k).g.countKnown == TrackAfter(log, k).t.expectedKnown
    ensures var t := TrackAfter(log, k).t;
      t.name == read.name && t.expectedKnown == read.known && t.expected == read.total
  {
    var e := log.last;
    if TrackAfter(log.front, k).Absent? {
      read := e.input.read;
    } else {
      read := NameGoesWithTheCount(log.front, k);
      var t := TrackAfter(log.front, k).t;
      if e.input.Note? && e.input.rank == k && !t.expectedKnown && e.input.read.known {
        read := e.input.read;
      }
    }
  }

  // ------------------------------------------------------------- who is new

  ghost predicate AreDistinct(s: seq<int>) {
    forall i, j :: 0 <= i < j < |s| ==> s[i] != s[j]
  }

  // A run's created members are the ones its member list grew by, each of them new.
  lemma {:induction false} CreatedAreTheNewMembers(initial: seq<int>, log: Log)
    requires AreSteps(initial, log) && AreDistinct(initial)
    ensures initial <= MembersAfter(initial, log) && AreDistinct(MembersAfter(initial, log))
    ensures TotalsAfter(log).created == |MembersAfter(initial, log)| - |initial|
  {
    if log.Log? {
      CreatedAreTheNewMembers(initial, log.front);
    }
  }
}
