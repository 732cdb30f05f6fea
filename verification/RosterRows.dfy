// One roster ingest over its rows (internal/ingest/roster.go): each photograph of a
// row is a match, a creation or a review item, and the run's state is at every step
// what its log replays to.
module RosterRows {
  import opened Facts
  import opened Ranking
  import HeaderCards
  import opened Roster
  import opened RosterLog

  // One rank group's running state.
  class GroupTracker {
    ghost const rank: string
    var expected: nat
    var countKnown: bool
    var resolved: set<int>
    var contentY: int
    var rows: seq<CollectedRow>

    constructor (rank: string, expected: nat, countKnown: bool)
      ensures this.rank == rank && State() == Group(expected, countKnown, {}, 0, [])
    {
      this.rank, this.expected, this.countKnown := rank, expected, countKnown;
      resolved, contentY, rows := {}, 0, [];
    }

    function State(): Group
      reads this
    {
      Group(expected, countKnown, resolved, contentY, rows)
    }

    // The first collected row within half a pitch, or -1.
    method SeenRow(y: int) returns (idx: int)
      ensures idx == RowNear(rows, y)
    {
      for i := 0 to |rows|
        invariant forall k :: 0 <= k < i ==> !IsNear(y, rows[k].y)
      {
        if IsNear(y, rows[i].y) {
          FirstNearIsUnique(Places(rows), y, i);
          return i;
        }
      }
      FirstNearIsUnique(Places(rows), y, -1);
      return -1;
    }

    // Only an unbroken continuation moves the group.
    method Advance(offsetPx: int, sameGroupAsPrevFrame: bool)
      modifies this`contentY
      ensures contentY == old(contentY) + if sameGroupAsPrevFrame then offsetPx else 0
    {
      if sameGroupAsPrevFrame {
        contentY := contentY + offsetPx;
      }
    }

    method NoteResolved(memberId: int)
      modifies this`resolved
      ensures resolved == old(resolved) + {memberId}
    {
      resolved := resolved + {memberId};
    }
  }

  // What one reading of a row came to.
  datatype Fate = Fate(ranking: seq<Candidate>, decision: Decision, who: int)

  function WithResolved(resolved: set<int>, f: Fate): set<int> {
    if f.decision.Asks? then resolved else resolved + {f.who}
  }

  function Parsing(t: Tally): Tally {
    t.(parsed := t.parsed + 1)
  }

  function Yielding(t: Tally): Tally {
    t.(matchedOrCreated := t.matchedOrCreated + 1)
  }

  function Counting(t: Tally, d: Decision): Tally {
    if d.Asks? then t else Yielding(t)
  }

  lemma NoField(t: Table, at: Place, band: HeaderCards.Band, matchNorm: real, fields: seq<FieldRead>)
    ensures UpsertAll(t, FieldFacts(at, matchNorm, fields[..0])) == t &&
            FieldItems(at.shot, band, matchNorm, fields[..0]) == []
  {
  }

  lemma OneField(t: Table, at: Place, band: HeaderCards.Band, matchNorm: real, f: FieldRead)
    ensures UpsertAll(t, FieldFacts(at, matchNorm, [f])) ==
            if f.parsed && FieldConfidence(matchNorm, f) >= FACT_GATE then Upsert(t, FactOf(at, matchNorm, f)) else t
    ensures FieldItems(at.shot, band, matchNorm, [f]) ==
            if !f.parsed then [Review(at.shot, band, f.raw, [], Unparseable(f.name), 0.0)]
            else if FieldConfidence(matchNorm, f) >= FACT_GATE then []
            else [Review(at.shot, band, f.raw, [], LowConfidence(f.name), FieldConfidence(matchNorm, f))]
  {
    assert [f][..0] == [];
    var fact := FactOf(at, matchNorm, f);
    UpsertOneMore(t, [], fact);
    assert [] + [fact] == [fact];
  }

  lemma OneMoreFieldWritten(t: Table, at: Place, band: HeaderCards.Band, matchNorm: real, fields: seq<FieldRead>,
                            n: nat)
    requires n < |fields|
    ensures UpsertAll(t, FieldFacts(at, matchNorm, fields[..n + 1])) ==
            UpsertAll(UpsertAll(t, FieldFacts(at, matchNorm, fields[..n])), FieldFacts(at, matchNorm, [fields[n]]))
    ensures FieldItems(at.shot, band, matchNorm, fields[..n + 1]) ==
            FieldItems(at.shot, band, matchNorm, fields[..n]) + FieldItems(at.shot, band, matchNorm, [fields[n]])
  {
    OneMoreField(at, band, matchNorm, fields, n);
    UpsertInTwoParts(t, FieldFacts(at, matchNorm, fields[..n]), FieldFacts(at, matchNorm, [fields[n]]));
  }

  lemma NewRowSettles(g: Group, t: Tally, y: int, d: Decision, who: int)
    requires RowNear(g.rows, y) < 0
    ensures GroupAfter(g, y, d, who).rows == Latched(WithRow(g.rows, y), |g.rows|, !d.Asks?)
    ensures TallyAfter(g, t, y, d) == Counting(Parsing(t), d)
    ensures !WasReviewed(g.rows, y)
  {
  }

  lemma SeenRowSettles(g: Group, t: Tally, y: int, d: Decision, who: int)
    requires RowNear(g.rows, y) >= 0
    ensures GroupAfter(g, y, d, who).rows == Latched(g.rows, RowNear(g.rows, y), !d.Asks?)
    ensures TallyAfter(g, t, y, d) == Counting(t, d)
    ensures WasReviewed(g.rows, y) == g.rows[RowNear(g.rows, y)].reviewed
  {
  }

  lemma UpdatedTwice(tallies: map<string, Tally>, key: string, s: Tally, t: Tally)
    requires key in tallies
    ensures tallies[key := s][key := t] == tallies[key := t]
  {
  }

  predicate IsAbout(input: Input, key: string) {
    (input.Photo? && input.group == key) || (input.Note? && input.rank == key)
  }

  // How far a move takes this group.
  function PartOf(move: Input, key: string): int
    requires move.Move?
  {
    if key in move.ranks && key in move.continued then move.offsetPx else 0
  }

  // One more entry, about this input.
  ghost predicate Adds(was: Log, log: Log, input: Input) {
    log.Log? && log.front == was && log.last.input == input
  }

  class RosterRun {
    const periodKey: string
    const observedAt: int
    ghost const initial: seq<int>
    ghost const start: Table
    var groups: map<string, GroupTracker>
    var perGroup: map<string, Tally>
    var members: seq<int>
    var matched: nat
    var created: nat
    var totalParsed: nat
    var queue: seq<Review>
    var table: Table
    ghost var log: Log

    constructor (members: seq<int>, table: Table, periodKey: string, observedAt: int)
      ensures Valid() && groups == map[] && log == Empty
      ensures initial == members && start == table && this.periodKey == periodKey && this.observedAt == observedAt
    {
      initial, start := members, table;
      this.members, this.table := members, table;
      this.periodKey, this.observedAt := periodKey, observedAt;
      groups, perGroup := map[], map[];
      matched, created, totalParsed, queue, log := 0, 0, 0, [], Empty;
    }

    ghost function Holdings(): Books
      reads this
    {
      Books(members, queue, table, Totals(matched, created, totalParsed))
    }

    // The tracker and the tally of this rank are what the log leaves of them.
    ghost predicate Tracks(k: string)
      reads this, groups.Values
    {
      if k in groups then
        k in perGroup && groups[k].rank == k && TrackAfter(log, k) == Tracked(groups[k].State(), perGroup[k])
      else TrackAfter(log, k) == Absent
    }

    ghost predicate TracksAll()
      reads this, groups.Values
    {
      groups.Keys == perGroup.Keys && forall k {:trigger Tracks(k)} :: Tracks(k)
    }

    ghost predicate Replays()
      reads this
    {
      IsReplay(initial, start, log, periodKey, observedAt, Holdings())
    }

    ghost predicate Valid()
      reads this, groups.Values
    {
      Replays() && TracksAll()
    }

    function Tracker(key: string): GroupTracker
      reads this
      requires key in groups
    {
      groups[key]
    }

    method QueueReview(review: Review)
      modifies this`queue
      ensures queue == old(queue) + [review]
    {
      queue := queue + [review];
    }

    method WriteField(at: Place, s: Sighting, matchNorm: real, f: FieldRead)
      modifies this`table, this`queue
      ensures table == UpsertAll(old(table), FieldFacts(at, matchNorm, [f]))
      ensures queue == old(queue) + FieldItems(at.shot, s.band, matchNorm, [f])
    {
      OneField(table, at, s.band, matchNorm, f);
      if !f.parsed {
        QueueReview(Review(at.shot, s.band, f.raw, [], Unparseable(f.name), 0.0));
        return;
      }
      var conf := if matchNorm < f.conf then matchNorm else f.conf;
      if conf < FACT_GATE {
        QueueReview(Review(at.shot, s.band, f.raw, [], LowConfidence(f.name), conf));
        return;
      }
      table := Upsert(table, Fact(Key(at.memberId, f.metric, at.periodKey, "ocr:alliance_members", at.observedAt),
                                  f.value, at.shot, conf));
    }

    // Three numeric fields, each to a fact or to the queue on its own.
    method WriteFacts(memberId: int, shot: int, matchNorm: real, s: Sighting)
      modifies this`table, this`queue
      ensures table == UpsertAll(old(table), FieldFacts(Place(memberId, shot, periodKey, observedAt), matchNorm,
                                                        s.fields))
      ensures queue == old(queue) + FieldItems(shot, s.band, matchNorm, s.fields)
    {
      var at := Place(memberId, shot, periodKey, observedAt);
      NoField(table, at, s.band, matchNorm, s.fields);
      for n := 0 to |s.fields|
        invariant table == UpsertAll(old(table), FieldFacts(at, matchNorm, s.fields[..n]))
        invariant queue == old(queue) + FieldItems(shot, s.band, matchNorm, s.fields[..n])
      {
        OneMoreFieldWritten(old(table), at, s.band, matchNorm, s.fields, n);
        WriteField(at, s, matchNorm, s.fields[n]);
      }
      assert s.fields[..|s.fields|] == s.fields;
    }

    // The store mints an id nobody has.
    method CreateMember() returns (id: int)
      modifies this`members
      ensures id !in old(members) && members == old(members) + [id]
    {
      id := 1;
      for i := 0 to |members|
        invariant forall k :: 0 <= k < i ==> members[k] < id
      {
        if members[i] >= id {
          id := members[i] + 1;
        }
      }
      members := members + [id];
    }

    method QueueNameReview(item: Review, alreadyReviewed: bool) returns (resolved: bool, reviewed: bool)
      modifies this`queue
      ensures !resolved && reviewed == !alreadyReviewed
      ensures queue == old(queue) + if alreadyReviewed then [] else [item]
    {
      if !alreadyReviewed {
        QueueReview(item);
      }
      return false, !alreadyReviewed;
    }

    // The group's public tally and its tracker count the same event.
    method NoteMemberFor(key: string)
      requires key in perGroup
      modifies this`perGroup
      ensures perGroup == old(perGroup)[key := Yielding(old(perGroup[key]))]
    {
      perGroup := perGroup[key := Yielding(perGroup[key])];
    }

    // The row is this member: the tracker, the tally and the facts all say so.
    method Resolve(key: string, memberId: int, shot: int, matchNorm: real, s: Sighting)
      requires key in groups && key in perGroup
      modifies Tracker(key)`resolved, this`perGroup, this`table, this`queue
      ensures groups[key].resolved == old(groups[key].resolved) + {memberId}
      ensures perGroup == old(perGroup)[key := Yielding(old(perGroup[key]))]
      ensures table == UpsertAll(old(table), FieldFacts(Place(memberId, shot, periodKey, observedAt), matchNorm,
                                                        s.fields))
      ensures queue == old(queue) + FieldItems(shot, s.band, matchNorm, s.fields)
    {
      groups[key].NoteResolved(memberId);
      NoteMemberFor(key);
      WriteFacts(memberId, shot, matchNorm, s);
    }

    method Match(key: string, memberId: int, score: int, shot: int, s: Sighting)
      requires key in groups && key in perGroup
      modifies Tracker(key)`resolved, this`perGroup, this`matched, this`table, this`queue
      ensures groups[key].resolved == old(groups[key].resolved) + {memberId}
      ensures perGroup == old(perGroup)[key := Yielding(old(perGroup[key]))]
      ensures Holdings() == AfterReading(old(Holdings()), s, [], Matches(memberId, score), false,
                                         Place(memberId, shot, periodKey, observedAt))
    {
      Resolve(key, memberId, shot, score as real / 100.0, s);
      matched := matched + 1;
    }

    method Mint(key: string, shot: int, s: Sighting) returns (id: int)
      requires key in groups && key in perGroup
      modifies Tracker(key)`resolved, this`perGroup, this`members, this`created, this`table, this`queue
      ensures id !in old(members)
      ensures groups[key].resolved == old(groups[key].resolved) + {id}
      ensures perGroup == old(perGroup)[key := Yielding(old(perGroup[key]))]
      ensures Holdings() == AfterReading(old(Holdings()), s, [], Mints, false, Place(id, shot, periodKey, observedAt))
    {
      id := CreateMember();
      Resolve(key, id, shot, 1.0, s);
      created := created + 1;
    }

    // On top of these books, the run holds what the row's reading for this group came to.
    ghost predicate HasRead(before: Books, g: Group, s: Sighting, shot: int, reviewed: bool, f: Fate)
      reads this
    {
      && f.ranking == Rank(s, before.members) && f.decision == DecisionOn(s, f.ranking, g)
      && (f.decision.Matches? ==> f.who == f.decision.memberId) && (f.decision.Mints? ==> f.who !in before.members)
      && Holdings() == AfterReading(before, s, f.ranking, f.decision, reviewed,
                                    Place(f.who, shot, periodKey, observedAt))
    }

    // Routes one photograph of a row to a match, a creation or the queue.
    method ProcessRow(key: string, s: Sighting, shot: int, alreadyReviewed: bool)
      returns (resolved: bool, reviewed: bool, ghost f: Fate)
      requires key in groups && key in perGroup
      modifies Tracker(key)`resolved, this`perGroup, this`members, this`matched, this`created, this`table, this`queue
      ensures HasRead(old(Holdings()), old(groups[key].State()), s, shot, alreadyReviewed, f)
      ensures resolved == !f.decision.Asks? && reviewed == (f.decision.Asks? && !alreadyReviewed)
      ensures groups[key].resolved == WithResolved(old(groups[key].resolved), f)
      ensures perGroup == old(perGroup)[key := Counting(old(perGroup[key]), f.decision)]
    {
      var candidates := Rank(s, members);
      var decision := DecisionOn(s, candidates, groups[key].State());
      match decision {
        case Asks(reason) =>
          resolved, reviewed := QueueNameReview(NameItem(s, shot, candidates, reason), alreadyReviewed);
          f := Fate(candidates, decision, 0);
        case Matches(memberId, score) =>
          Match(key, memberId, score, shot, s);
          resolved, reviewed, f := true, false, Fate(candidates, decision, memberId);
        case Mints =>
          var id := Mint(key, shot, s);
          resolved, reviewed, f := true, false, Fate(candidates, decision, id);
      }
    }

    method CollectRow(key: string, rowY: int)
      requires key in groups && key in perGroup
      modifies Tracker(key)`rows, this`perGroup, this`totalParsed
      ensures groups[key].rows == WithRow(old(groups[key].rows), rowY)
      ensures perGroup == old(perGroup)[key := Parsing(old(perGroup[key]))]
      ensures Holdings() == WithParsed(old(Holdings()), true)
    {
      groups[key].rows := groups[key].rows + [CollectedRow(rowY, false, false)];
      totalParsed := totalParsed + 1;
      perGroup := perGroup[key := Parsing(perGroup[key])];
    }

    // The row at idx is read, and the tracker latches what came of it.
    method ReadRow(key: string, idx: nat, s: Sighting, shot: int) returns (ghost f: Fate)
      requires key in groups && key in perGroup && idx < |groups[key].rows|
      modifies Tracker(key)`resolved, Tracker(key)`rows
      modifies this`perGroup, this`members, this`matched, this`created, this`table, this`queue
      ensures HasRead(old(Holdings()), old(groups[key].State()), s, shot, old(groups[key].rows)[idx].reviewed, f)
      ensures groups[key].resolved == WithResolved(old(groups[key].resolved), f)
      ensures groups[key].rows == Latched(old(groups[key].rows), idx, !f.decision.Asks?)
      ensures perGroup == old(perGroup)[key := Counting(old(perGroup[key]), f.decision)]
    {
      var row := groups[key].rows[idx];
      var resolved, reviewed;
      resolved, reviewed, f := ProcessRow(key, s, shot, row.reviewed);
      groups[key].rows := groups[key].rows[idx := CollectedRow(row.y, resolved, row.reviewed || reviewed)];
    }

    // A row near none collected: it is, and read at once.
    method CollectNewRow(key: string, rowY: int, s: Sighting, shot: int) returns (ghost f: Fate)
      requires key in groups && key in perGroup
      modifies Tracker(key)`resolved, Tracker(key)`rows
      modifies this`perGroup, this`members, this`matched, this`created, this`totalParsed, this`table, this`queue
      ensures HasRead(WithParsed(old(Holdings()), true), old(groups[key].State()), s, shot, false, f)
      ensures groups[key].resolved == WithResolved(old(groups[key].resolved), f)
      ensures groups[key].rows ==
              Latched(WithRow(old(groups[key].rows), rowY), |old(groups[key].rows)|, !f.decision.Asks?)
      ensures perGroup == old(perGroup)[key := Counting(Parsing(old(perGroup[key])), f.decision)]
    {
      var idx := |groups[key].rows|;
      CollectRow(key, rowY);
      ghost var tallies := perGroup;
      f := ReadRow(key, idx, s, shot);
      UpdatedTwice(old(perGroup), key, tallies[key], Counting(tallies[key], f.decision));
    }

    // A row that is not yet somebody: collected if it is new, then read.
    method CollectAndRead(key: string, rowY: int, near: int, s: Sighting, shot: int) returns (ghost f: Fate)
      requires key in groups && key in perGroup && near == RowNear(groups[key].rows, rowY)
      modifies Tracker(key)`resolved, Tracker(key)`rows
      modifies this`perGroup, this`members, this`matched, this`created, this`totalParsed, this`table, this`queue
      ensures HasRead(WithParsed(old(Holdings()), near < 0), old(groups[key].State()), s, shot,
                      WasReviewed(old(groups[key].rows), rowY), f)
      ensures groups[key].State() == GroupAfter(old(groups[key].State()), rowY, f.decision, f.who)
      ensures perGroup ==
              old(perGroup)[key := TallyAfter(old(groups[key].State()), old(perGroup[key]), rowY, f.decision)]
    {
      ghost var g, t := groups[key].State(), perGroup[key];
      if near < 0 {
        f := CollectNewRow(key, rowY, s, shot);
        NewRowSettles(g, t, rowY, f.decision, f.who);
      } else {
        f := ReadRow(key, near, s, shot);
        SeenRowSettles(g, t, rowY, f.decision, f.who);
      }
    }

    ghost predicate OthersTrack(key: string)
      reads this, groups.Values
    {
      groups.Keys == perGroup.Keys && key in groups && forall k {:trigger Tracks(k)} :: k != key ==> Tracks(k)
    }

    // Only this group's tracker and tally moved.
    twostate lemma OthersStand(key: string)
      requires old(TracksAll()) && log == old(log) && key in groups && groups == old(groups)[key := groups[key]]
      requires groups[key].rank == key
      requires forall gt :: gt in old(groups.Values) && gt != groups[key] ==> unchanged(gt)
      requires key in perGroup && perGroup == old(perGroup)[key := perGroup[key]]
      ensures OthersTrack(key)
    {
      forall k | k != key ensures Tracks(k) {
        assert old(Tracks(k));
        if k in groups {
          assert groups[k] in old(groups.Values);
        }
      }
    }

    // The run holds what this entry leaves of it.
    ghost method Record(key: string, e: Entry)
      requires OthersTrack(key) && groups[key].rank == key && IsAbout(e.input, key)
      requires TrackAfter(Log(log, e), key) == Tracked(groups[key].State(), perGroup[key])
      requires IsReplay(initial, start, Log(log, e), periodKey, observedAt, Holdings())
      modifies this`log
      ensures Valid() && log == Log(old(log), e)
    {
      log := Log(log, e);
      forall k ensures Tracks(k) {
        assert k != key ==> old(Tracks(k));
      }
    }

    // A photograph of a row that is somebody is not read.
    method SkipPhoto(key: string, ghost photo: Input)
      requires Valid() && key in groups && photo.Photo? && photo.group == key && IsSomebody(groups[key].rows, photo.y)
      modifies this`log
      ensures Valid() && Adds(old(log), log, photo)
    {
      assert Tracks(key) && OthersTrack(key);
      SkippingReplays(initial, start, log, photo, periodKey, observedAt, Holdings(), groups[key].State(),
                      perGroup[key]);
      Record(key, Entry(photo, Skipped));
    }

    // The entry of a photograph that is read: all the run holds follows from it.
    method ReadEntry(key: string, rowY: int, near: int, s: Sighting, shot: int) returns (ghost e: Entry)
      requires Replays() && key in groups && key in perGroup && Tracks(key)
      requires near == RowNear(groups[key].rows, rowY) && !IsSomebody(groups[key].rows, rowY)
      modifies Tracker(key)`resolved, Tracker(key)`rows
      modifies this`perGroup, this`members, this`matched, this`created, this`totalParsed, this`table, this`queue
      ensures e.input == Photo(key, rowY, s, shot)
      ensures key in perGroup && perGroup == old(perGroup)[key := perGroup[key]]
      ensures TrackAfter(Log(log, e), key) == Tracked(groups[key].State(), perGroup[key])
      ensures IsReplay(initial, start, Log(log, e), periodKey, observedAt, Holdings())
    {
      ghost var g, t := groups[key].State(), perGroup[key];
      ghost var f := CollectAndRead(key, rowY, near, s, shot);
      e := Entry(Photo(key, rowY, s, shot), Read(f.ranking, f.who));
      ReadingReplays(initial, start, log, e, periodKey, observedAt, old(Holdings()), g, t);
      ReadingMovesItsGroup(log, e, old(members), g, t);
    }

    method ReadPhoto(key: string, rowY: int, near: int, s: Sighting, shot: int)
      requires Valid() && key in groups && near == RowNear(groups[key].rows, rowY) &&
               !IsSomebody(groups[key].rows, rowY)
      modifies Tracker(key)`resolved, Tracker(key)`rows
      modifies this`perGroup, this`members, this`matched, this`created, this`totalParsed, this`table, this`queue,
               this`log
      ensures Valid() && Adds(old(log), log, Photo(key, rowY, s, shot))
    {
      assert Tracks(key);
      ghost var e := ReadEntry(key, rowY, near, s, shot);
      OthersStand(key);
      Record(key, e);
    }

    // One band: a row that is somebody is skipped, any other is collected if it is
    // new, and read.
    method Sight(key: string, rowY: int, s: Sighting, shot: int)
      requires Valid() && key in groups
      modifies Tracker(key)`resolved, Tracker(key)`rows
      modifies this`perGroup, this`members, this`matched, this`created, this`totalParsed, this`table, this`queue,
               this`log
      ensures Valid() && Adds(old(log), log, Photo(key, rowY, s, shot))
    {
      var near := groups[key].SeenRow(rowY);
      if near >= 0 && groups[key].rows[near].resolved {
        SkipPhoto(key, Photo(key, rowY, s, shot));
      } else {
        ReadPhoto(key, rowY, near, s, shot);
      }
    }

    method Track(rank: string, read: HeaderRead)
      requires Valid() && rank !in groups
      modifies this`groups, this`perGroup, this`log
      ensures Valid() && Adds(old(log), log, Note(rank, read))
      ensures fresh(groups.Values - old(groups.Values)) && groups.Keys == old(groups.Keys) + {rank}
    {
      assert Tracks(rank);
      var gt := new GroupTracker(rank, read.total, read.known);
      groups := groups[rank := gt];
      perGroup := perGroup[rank := Tally(read.total, read.known, 0, 0, read.name)];
      QuietReplays(initial, start, log, Note(rank, read), periodKey, observedAt, Holdings());
      OthersStand(rank);
      Record(rank, Entry(Note(rank, read), Done));
    }

    // The first frame that reads the group's count supplies it.
    method GiveCount(rank: string, read: HeaderRead)
      requires rank in groups && rank in perGroup
      modifies Tracker(rank)`expected, Tracker(rank)`countKnown, this`perGroup
      ensures rank in perGroup && perGroup == old(perGroup)[rank := perGroup[rank]]
      ensures Tracked(groups[rank].State(), perGroup[rank]) ==
              Noted(Tracked(old(groups[rank].State()), old(perGroup[rank])), read)
    {
      if !groups[rank].countKnown && read.known {
        groups[rank].expected, groups[rank].countKnown := read.total, true;
        var tally := perGroup[rank];
        perGroup := perGroup[rank := tally.(expected := read.total, expectedKnown := true, name := read.name)];
      }
    }

    method Upgrade(rank: string, read: HeaderRead)
      requires Valid() && rank in groups
      modifies Tracker(rank)`expected, Tracker(rank)`countKnown, this`perGroup, this`log
      ensures Valid() && Adds(old(log), log, Note(rank, read))
    {
      assert Tracks(rank);
      QuietReplays(initial, start, log, Note(rank, read), periodKey, observedAt, Holdings());
      GiveCount(rank, read);
      OthersStand(rank);
      Record(rank, Entry(Note(rank, read), Done));
    }

    // One header sighting: a new tracker, or a first count for one that had none.
    method NoteHeader(rank: string, read: HeaderRead)
      requires Valid()
      modifies this`groups, this`perGroup, this`log, groups.Values
      ensures Valid() && Adds(old(log), log, Note(rank, read))
      ensures fresh(groups.Values - old(groups.Values)) && groups.Keys == old(groups.Keys) + {rank}
    {
      if rank !in groups {
        Track(rank, read);
      } else {
        Upgrade(rank, read);
      }
    }

    method QueueFrameItem(review: Review)
      requires Valid()
      modifies this`queue, this`log
      ensures Valid() && Adds(old(log), log, Item(review))
    {
      ItemReplays(initial, start, log, review, periodKey, observedAt, Holdings());
      QueueReview(review);
      log := Log(log, Entry(Item(review), Done));
      forall k ensures Tracks(k) {
        assert old(Tracks(k));
      }
    }

    // Each group on the frame moves once, and only if the last ranked frame had it.
    method AdvanceAll(ranks: set<string>, continued: set<string>, offsetPx: int)
      requires ranks <= groups.Keys && forall k :: k in groups ==> groups[k].rank == k
      modifies groups.Values`contentY
      ensures forall k :: k in groups ==>
        groups[k].contentY == old(groups[k].contentY) + if k in ranks && k in continued then offsetPx else 0
    {
      var todo := ranks;
      while true
        invariant todo <= ranks
        invariant forall k :: k in groups ==>
          groups[k].contentY ==
          old(groups[k].contentY) + if k in ranks && k !in todo && k in continued then offsetPx else 0
        decreases |todo|
      {
        if k :| k in todo {
          groups[k].Advance(offsetPx, k in continued);
          todo := todo - {k};
        } else {
          return;
        }
      }
    }

    lemma RanksAreKeys()
      requires TracksAll()
      ensures forall k :: k in groups ==> groups[k].rank == k
    {
      forall k | k in groups ensures groups[k].rank == k {
        assert Tracks(k);
      }
    }

    twostate lemma AllMoved()
      requires old(TracksAll()) && groups == old(groups) && perGroup == old(perGroup)
      requires log.Log? && log.front == old(log) && log.last.input.Move?
      requires forall k :: k in groups ==>
        groups[k].State() == old(groups[k].State()).(contentY := old(groups[k].contentY) + PartOf(log.last.input, k))
      ensures TracksAll()
    {
      forall k ensures Tracks(k) {
        assert old(Tracks(k));
      }
    }

    method MoveGroups(ranks: set<string>, continued: set<string>, offsetPx: int)
      requires Valid() && ranks <= groups.Keys
      modifies groups.Values`contentY, this`log
      ensures Valid() && Adds(old(log), log, Move(ranks, continued, offsetPx))
    {
      RanksAreKeys();
      ghost var move := Move(ranks, continued, offsetPx);
      QuietReplays(initial, start, log, move, periodKey, observedAt, Holdings());
      AdvanceAll(ranks, continued, offsetPx);
      log := Log(log, Entry(move, Done));
      AllMoved();
    }
  }
}
