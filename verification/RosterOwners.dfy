// Which group every photograph of a capture is of (internal/ingest/roster.go,
// internal/ingest/headercard.go), from the fields of the frames alone.
module RosterOwners {
  import HeaderCards
  import opened Roster
  import opened RosterLog
  import opened RosterIngest
  import opened RosterResults

  // The last card before the first that starts below y, or the sticky header when there
  // is none: read off the frame's own fields.
  ghost predicate IsOwner(f: Frame, y: int, c: int, rank: string)
    requires f.badge.Convincing?
  {
    && 0 <= c <= |f.cards|
    && (forall j :: 0 <= j < c ==> f.cards[j].header.y0 <= y)
    && (c < |f.cards| ==> f.cards[c].header.y0 > y)
    && rank == if c == 0 then f.badge.rank else f.cards[c - 1].header.rank
  }

  lemma {:induction false} OwnerFromFields(f: Frame, y: int, i: nat) returns (c: nat)
    requires f.badge.Convincing? && i <= |f.cards| && forall j :: 0 <= j < i ==> f.cards[j].header.y0 <= y
    ensures IsOwner(f, y, c, HeadersOf(CardsOf(f))[HeaderCards.OwnerIndex(HeadersOf(CardsOf(f)), y, i)].rank)
    decreases |f.cards| - i
  {
    var headers := HeadersOf(CardsOf(f));
    if i < |f.cards| {
      assert headers[i + 1] == f.cards[i].header;
      if f.cards[i].header.y0 <= y {
        c := OwnerFromFields(f, y, i + 1);
        return;
      }
    }
    c := i;
    assert i > 0 ==> headers[i] == f.cards[i - 1].header;
  }

  // Photograph j of a frame: of its own band, at the place its owner's scroll then has.
  ghost predicate IsPhotoOf(f: Frame, j: int, input: Input, after: seq<Input>, top: int)
    requires f.badge.Convincing? && 0 <= j < |f.bands|
  {
    && input.Photo? && input.s == f.bands[j] && input.shot == f.shot
    && (exists c :: IsOwner(f, f.bands[j].band.y0, c, input.group))
    && input.y == PlaceIn(after, input.group) + (f.bands[j].band.y0 - top)
  }

  lemma {:induction false} PhotosByBand(before: seq<Input>, headers: seq<HeaderCards.Header>, bands: seq<Sighting>,
                                        shot: int, top: int, j: nat)
    requires |headers| > 0 && j < |bands|
    ensures |PhotoInputs(before, headers, bands, shot, top)| == |bands|
    ensures PhotoInputs(before, headers, bands, shot, top)[j] == PhotoOf(before, headers, bands[j], shot, top)
    decreases |bands|
  {
    var front := bands[..|bands| - 1];
    if front != [] {
      PhotosByBand(before, headers, front, shot, top, if j < |front| then j else 0);
    }
  }

  // The last inputs a ranked frame hands over are its photographs, one for each band, each
  // of the group its headers say.
  lemma PhotosGoToTheirOwners(before: seq<Input>, f: Frame, continued: set<string>, top: int, j: nat)
    requires f.badge.Convincing? && j < |f.bands|
    ensures var inputs := FrameInputs(before, f, continued, top); var at := |inputs| - |f.bands| + j;
      |f.bands| <= |inputs| && IsPhotoOf(f, j, inputs[at], before + inputs, top)
  {
    var headers, head := HeadersOf(CardsOf(f)), HeadInputs(f, continued);
    var s := f.bands[j];
    var photos := PhotoInputs(before + head, headers, f.bands, f.shot, top);
    PhotosByBand(before + head, headers, f.bands, f.shot, top, j);
    var c := OwnerFromFields(f, s.band.y0, 0);
    var group := HeaderCards.Owner(headers, s.band.y0);
    PhotoStays(before + head, headers, f.bands, s, f.shot, top);
    assert before + (head + photos) == before + head + photos;
    assert IsOwner(f, s.band.y0, c, group);
  }

  lemma ScriptUpTo(front: seq<Frame>, f: Frame, upTo: seq<Frame>, top: int)
    requires upTo == front + [f]
    ensures Script(upTo, top) == Script(front, top) + FrameInputs(Script(front, top), f, PrevRanks(front), top)
  {
    assert upTo[..|upTo| - 1] == front;
  }

  lemma CountedFromTheEnd(before: seq<Input>, inputs: seq<Input>, upTo: seq<Input>, whole: seq<Input>, n: nat, j: nat)
    requires upTo == before + inputs && upTo <= whole && j < n <= |inputs|
    ensures whole[|upTo| - n + j] == inputs[|inputs| - n + j]
  {
  }

  lemma PhotosInWhole(before: seq<Input>, f: Frame, continued: set<string>, top: int, j: nat, upTo: seq<Input>,
                      whole: seq<Input>)
    requires f.badge.Convincing? && j < |f.bands|
    requires upTo == before + FrameInputs(before, f, continued, top) && upTo <= whole
    ensures var at := |upTo| - |f.bands| + j; 0 <= at < |upTo| && IsPhotoOf(f, j, whole[at], upTo, top)
  {
    PhotosGoToTheirOwners(before, f, continued, top, j);
    CountedFromTheEnd(before, FrameInputs(before, f, continued, top), upTo, whole, |f.bands|, j);
  }

  // The same over a whole capture, of any of its frames.
  lemma CapturePhotosGoToTheirOwners(front: seq<Frame>, f: Frame, upTo: seq<Frame>, frames: seq<Frame>, j: nat,
                                     top: int)
    requires upTo == front + [f] && upTo <= frames && f.badge.Convincing? && j < |f.bands|
    ensures var before := Script(upTo, top); var at := |before| - |f.bands| + j;
      before <= Script(frames, top) && 0 <= at < |before| && IsPhotoOf(f, j, Script(frames, top)[at], before, top)
  {
    ScriptUpTo(front, f, upTo, top);
    assert frames[..|upTo|] == upTo;
    ScriptGrows(frames, |upTo|, top);
    PhotosInWhole(Script(front, top), f, PrevRanks(front), top, j, Script(upTo, top), Script(frames, top));
  }

  ghost predicate IsLastAtOrAbove(f: Frame, y: int, k: int)
    requires 0 <= k < |f.cards|
  {
    f.cards[k].header.y0 <= y && forall j :: k < j < |f.cards| ==> f.cards[j].header.y0 > y
  }

  // With the cards in order down the frame: a row above all of them is the sticky header's,
  // and any other the last card's at or above its top.
  lemma OwnerDownTheFrame(f: Frame, y: int, c: nat, rank: string)
    requires f.badge.Convincing? && IsOwner(f, y, c, rank)
    requires forall j, k :: 0 <= j < k < |f.cards| ==> f.cards[j].header.y0 <= f.cards[k].header.y0
    ensures (forall j :: 0 <= j < |f.cards| ==> f.cards[j].header.y0 > y) ==> rank == f.badge.rank
    ensures forall k :: 0 <= k < |f.cards| && IsLastAtOrAbove(f, y, k) ==> rank == f.cards[k].header.rank
  {
  }

  // What a ranked frame hands over before its photographs: the sticky header first, then
  // the cards, then one move of all their groups.
  lemma HeadIsStickyThenCards(f: Frame, continued: set<string>)
    requires f.badge.Convincing?
    ensures HeadInputs(f, continued) ==
            UnreadItems(f.shot, f.sticky) + [Note(f.badge.rank, f.sticky)] + CardInputs(f.shot, f.cards) +
            [Move(RanksOf(CardsOf(f)), continued, f.offsetPx)]
    ensures forall k :: k in RanksOf(CardsOf(f)) <==>
              k == f.badge.rank || exists c :: 0 <= c < |f.cards| && f.cards[c].header.rank == k
  {
    var first := CardsOf(f)[0];
    CardsAfter(f.shot, first, f.cards);
    forall k ensures k in RanksOf(CardsOf(f)) <==>
                       k == f.badge.rank || exists c :: 0 <= c < |f.cards| && f.cards[c].header.rank == k {
      RanksAreTheCards(CardsOf(f), k);
      if c :| 0 <= c < |f.cards| && f.cards[c].header.rank == k {
        assert CardsOf(f)[c + 1].header.rank == k;
      }
      if c :| 0 <= c < |CardsOf(f)| && CardsOf(f)[c].header.rank == k {
        assert c > 0 ==> f.cards[c - 1].header.rank == k;
      }
    }
  }

  lemma CardInputsOneMore(shot: int, cards: seq<Card>, card: Card)
    ensures CardInputs(shot, cards + [card]) == CardInputs(shot, cards) + OneCard(shot, card)
  {
    assert (cards + [card])[..|cards|] == cards;
  }

  lemma {:induction false} CardsAfter(shot: int, first: Card, cards: seq<Card>)
    ensures CardInputs(shot, [first] + cards) == OneCard(shot, first) + CardInputs(shot, cards)
    decreases |cards|
  {
    if cards == [] {
      CardInputsOneMore(shot, [], first);
      assert [first] + cards == [] + [first];
    } else {
      var front, last := cards[..|cards| - 1], cards[|cards| - 1];
      CardsAfter(shot, first, front);
      CardInputsOneMore(shot, [first] + front, last);
      assert [first] + cards == [first] + front + [last];
    }
  }

  lemma {:induction false} RanksAreTheCards(cards: seq<Card>, k: string)
    ensures k in RanksOf(cards) <==> exists c :: 0 <= c < |cards| && cards[c].header.rank == k
    decreases |cards|
  {
    if cards != [] {
      RanksAreTheCards(cards[..|cards| - 1], k);
    }
  }

  // A row at 1000 below an R2 card at 928, on a frame whose sticky header is R3's: it is
  // R2's, and a row at 800 is R3's.
  lemma RowUnderACard(f: Frame, read: HeaderRead, c: nat, rank: string, d: nat, above: string)
    requires f.badge == Convincing("R3") && f.cards == [Card(HeaderCards.Header("R2", 928), read)]
    requires IsOwner(f, 1000, c, rank) && IsOwner(f, 800, d, above)
    ensures rank == "R2" && above == "R3"
  {
  }
}
