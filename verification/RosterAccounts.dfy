// What a roster run's books say of each group (internal/ingest/roster.go): the
// tally is the tracker's, name-class items are the rows queued, creations stay
// inside the stated size, every field is accounted for, and groups add up.
module RosterAccounts {
  import opened Facts
  import HeaderCards
  import opened Roster
  import opened RosterLog

  ghost function CountResolved(rows: seq<CollectedRow>): nat {
    if rows == [] then 0 else CountResolved(rows[..|rows| - 1]) + if rows[|rows| - 1].resolved then 1 else 0
  }

  ghost function CountReviewed(rows: seq<CollectedRow>): nat {
    if rows == [] then 0 else CountReviewed(rows[..|rows| - 1]) + if rows[|rows| - 1].reviewed then 1 else 0
  }

  ghost predicate EachSettled(rows: seq<CollectedRow>) {
    forall k :: 0 <= k < |rows| ==> rows[k].resolved || rows[k].reviewed
  }

  lemma {:induction false} CountsAfterUpdate(rows: seq<CollectedRow>, i: nat, r: CollectedRow)
    requires i < |rows|
    ensures CountResolved(rows[i := r]) ==
            CountResolved(rows) - (if rows[i].resolved then 1 else 0) + (if r.resolved then 1 else 0)
    ensures CountReviewed(rows[i := r]) ==
            CountReviewed(rows) - (if rows[i].reviewed then 1 else 0) + (if r.reviewed then 1 else 0)
    decreases |rows|
  {
    var n := |rows| - 1;
    if i == n {
      assert rows[i := r][..n] == rows[..n];
    } else {
      CountsAfterUpdate(rows[..n], i, r);
      assert rows[i := r][..n] == rows[..n][i := r];
    }
  }

  // A reading settles one row that was not somebody, and queues it at most once.
  lemma ReadingKeepsCounts(rows: seq<CollectedRow>, y: int, resolved: bool)
    requires !IsSomebody(rows, y) && EachSettled(rows)
    ensures var next := Settled(rows, y, resolved);
      && |next| == |rows| + (if RowNear(rows, y) < 0 then 1 else 0)
      && CountResolved(next) == CountResolved(rows) + (if resolved then 1 else 0)
      && CountReviewed(next) == CountReviewed(rows) + (if resolved || WasReviewed(rows, y) then 0 else 1)
      && EachSettled(next)
  {
    var idx := RowNear(rows, y);
    var all, i := if idx < 0 then WithRow(rows, y) else rows, if idx < 0 then |rows| else idx;
    if idx < 0 {
      assert all[..|rows|] == rows;
    }
    CountsAfterUpdate(all, i, CollectedRow(all[i].y, resolved, all[i].reviewed || !resolved));
  }

  // --------------------------------------------------------------- one group's account

  ghost function NameClassIn(items: seq<Review>): nat {
    if items == [] then 0
    else NameClassIn(items[..|items| - 1]) + if IsNameClass(items[|items| - 1].reason) then 1 else 0
  }

  ghost predicate IsOf(e: Entry, k: string) {
    e.input.Photo? && e.input.group == k
  }

  // The name-class items queued for this group's rows.
  ghost function NameItems(log: Log, k: string): nat {
    if log.Empty? then 0
    else
      NameItems(log.front, k) +
      if IsOf(log.last, k) then NameClassIn(ItemsOf(Before(log.front, log.last), log.last)) else 0
  }

  // The members minted out of this group's rows.
  ghost function Minted(log: Log, k: string): nat {
    if log.Empty? then 0
    else Minted(log.front, k) + if IsOf(log.last, k) then |MembersOf(Before(log.front, log.last), log.last)| else 0
  }

  ghost predicate IsTallied(g: Group, t: Tally) {
    && t.expected == g.expected && t.expectedKnown == g.countKnown
    && t.parsed == |g.rows| && t.matchedOrCreated == CountResolved(g.rows)
  }

  // Creations stay inside the stated size, and there are none while it is unknown.
  ghost predicate IsWithinBudget(g: Group, minted: nat) {
    minted <= |g.resolved| && minted <= if g.countKnown then g.expected else 0
  }

  ghost predicate IsBalanced(g: Group, t: Tally, nameItems: nat, minted: nat, members: seq<int>) {
    && IsTallied(g, t) && IsWithinBudget(g, minted)
    && nameItems == CountReviewed(g.rows) && EachSettled(g.rows)
    && forall m :: m in g.resolved ==> m in members
  }

  lemma {:induction false} FieldItemsAreNotNameClass(shot: int, s: Sighting, matchNorm: real, fields: seq<FieldRead>)
    ensures NameClassIn(FieldItems(shot, s.band, matchNorm, fields)) == 0
    decreases |fields|
  {
    if fields != [] {
      FieldItemsAreNotNameClass(shot, s, matchNorm, fields[..|fields| - 1]);
      var front, items := FieldItems(shot, s.band, matchNorm, fields[..|fields| - 1]),
                          FieldItems(shot, s.band, matchNorm, fields);
      if items != front {
        assert items[..|items| - 1] == front;
      }
    }
  }

  lemma NameClassOfReading(tr: Track, e: Entry)
    requires IsReading(tr, e)
    ensures NameClassIn(ItemsOf(tr, e)) ==
            if DecisionOf(tr, e).Asks? && !WasReviewed(tr.g.rows, e.input.y) then 1 else 0
  {
    var d := DecisionOf(tr, e);
    if d.Asks? {
      var item := NameItem(e.input.s, e.input.shot, e.outcome.ranking, d.reason);
      assert [item][..0] == [];
    } else {
      FieldItemsAreNotNameClass(e.input.shot, e.input.s, MatchNorm(d), e.input.s.fields);
    }
  }

  lemma ReadingKeepsBalance(g: Group, t: Tally, n: nat, minted: nat, members: seq<int>, y: int, d: Decision, who: int)
    requires IsBalanced(g, t, n, minted, members) && !IsSomebody(g.rows, y)
    requires d.Matches? ==> who in members
    requires d.Mints? ==> who !in members && HasBudget(g)
    ensures IsBalanced(GroupAfter(g, y, d, who), TallyAfter(g, t, y, d),
                       n + (if d.Asks? && !WasReviewed(g.rows, y) then 1 else 0),
                       minted + (if d.Mints? then 1 else 0), members + if d.Mints? then [who] else [])
  {
    ReadingKeepsCounts(g.rows, y, !d.Asks?);
    if who in g.resolved {
      assert g.resolved + {who} == g.resolved;
    }
  }

  lemma NotingKeepsBalance(tr: Track, read: HeaderRead, n: nat, minted: nat, members: seq<int>)
    requires tr.Tracked? ==> IsBalanced(tr.g, tr.t, n, minted, members)
    requires tr.Absent? ==> n == minted == 0
    ensures IsBalanced(Noted(tr, read).g, Noted(tr, read).t, n, minted, members)
  {
  }

  // What every step keeps of every group.
  ghost predicate IsAccounted(initial: seq<int>, log: Log, k: string) {
    var tr := TrackAfter(log, k);
    if tr.Absent? then NameItems(log, k) == Minted(log, k) == 0
    else IsBalanced(tr.g, tr.t, NameItems(log, k), Minted(log, k), MembersAfter(initial, log))
  }

  lemma ReadingIsAccounted(initial: seq<int>, log: Log, e: Entry, k: string)
    requires IsAccounted(initial, log, k) && IsStep(initial, log, e) && IsOf(e, k) && e.outcome.Read?
    ensures IsAccounted(initial, Log(log, e), k)
  {
    var tr, members := TrackAfter(log, k), MembersAfter(initial, log);
    var d := DecisionOf(tr, e);
    NameClassOfReading(tr, e);
    ReadingKeepsBalance(tr.g, tr.t, NameItems(log, k), Minted(log, k), members, e.input.y, d, e.outcome.who);
  }

  lemma StepIsAccounted(initial: seq<int>, log: Log, e: Entry, k: string)
    requires IsAccounted(initial, log, k) && IsStep(initial, log, e)
    ensures IsAccounted(initial, Log(log, e), k)
  {
    if IsOf(e, k) && e.outcome.Read? {
      ReadingIsAccounted(initial, log, e, k);
    } else if e.input.Note? && e.input.rank == k {
      NotingKeepsBalance(TrackAfter(log, k), e.input.read, NameItems(log, k), Minted(log, k),
                         MembersAfter(initial, log));
    }
  }

  // In every run the tally of a group is what its tracker holds: collected rows are
  // parsed rows, resolved rows are yielded rows, reviewed rows are name-class items,
  // nobody is minted over the stated size, and every row is settled.
  lemma {:induction false} BooksBalance(initial: seq<int>, log: Log, k: string)
    requires AreSteps(initial, log)
    ensures IsAccounted(initial, log, k)
  {
    if log.Log? {
      BooksBalance(initial, log.front, k);
      StepIsAccounted(initial, log.front, log.last, k);
    }
  }

  // -------------------------------------------------------------------- fields

  ghost function FieldClassIn(items: seq<Review>): nat {
    if items == [] then 0
    else FieldClassIn(items[..|items| - 1]) + if IsFieldClass(items[|items| - 1].reason) then 1 else 0
  }

  lemma {:induction false} FieldClassAdds(a: seq<Review>, b: seq<Review>)
    ensures FieldClassIn(a + b) == FieldClassIn(a) + FieldClassIn(b)
    decreases |b|
  {
    if b == [] {
      assert a + b == a;
    } else {
      FieldClassAdds(a, b[..|b| - 1]);
      assert (a + b)[..|a + b| - 1] == a + b[..|b| - 1];
    }
  }

  lemma {:induction false} AllFieldClass(items: seq<Review>)
    requires forall r :: r in items ==> IsFieldClass(r.reason)
    ensures FieldClassIn(items) == |items|
    decreases |items|
  {
    if items != [] {
      AllFieldClass(items[..|items| - 1]);
      assert items[|items| - 1] in items;
    }
  }

  // No item handed to the run is about a field.
  ghost predicate NoFieldItems(inputs: seq<Input>) {
    forall i :: 0 <= i < |inputs| ==> (inputs[i].Item? ==> !IsFieldClass(inputs[i].review.reason))
  }

  lemma FieldsOfEntry(tr: Track, e: Entry, periodKey: string, observedAt: int)
    requires e.input.Item? ==> !IsFieldClass(e.input.review.reason)
    ensures |FactsOf(tr, e, periodKey, observedAt)| + FieldClassIn(ItemsOf(tr, e)) ==
            if IsReading(tr, e) && !DecisionOf(tr, e).Asks? then 3 else 0
  {
    if e.input.Item? {
      assert [e.input.review][..0] == [];
    } else if IsReading(tr, e) {
      var d := DecisionOf(tr, e);
      if d.Asks? {
        var item := NameItem(e.input.s, e.input.shot, e.outcome.ranking, d.reason);
        assert [item][..0] == [];
      } else {
        var at := Place(e.outcome.who, e.input.shot, periodKey, observedAt);
        EachFieldEndsOnce(at, e.input.s.band, MatchNorm(d), e.input.s.fields);
        AllFieldClass(FieldItems(e.input.shot, e.input.s.band, MatchNorm(d), e.input.s.fields));
      }
    }
  }

  // The three fields of every row that resolved ended as facts or as field items.
  lemma {:induction false} FieldsAddUp(log: Log, periodKey: string, observedAt: int)
    requires NoFieldItems(InputsOf(log))
    ensures |WrittenAfter(log, periodKey, observedAt)| + FieldClassIn(QueueAfter(log)) ==
            3 * (TotalsAfter(log).matched + TotalsAfter(log).created)
  {
    if log.Log? {
      var inputs := InputsOf(log.front);
      assert forall i :: 0 <= i < |inputs| ==> InputsOf(log)[i] == inputs[i];
      assert InputsOf(log)[|inputs|] == log.last.input;
      FieldsAddUp(log.front, periodKey, observedAt);
      var tr := Before(log.front, log.last);
      FieldsOfEntry(tr, log.last, periodKey, observedAt);
      FieldClassAdds(QueueAfter(log.front), ItemsOf(tr, log.last));
    }
  }

  lemma {:induction false} WrittenClearTheGate(log: Log, periodKey: string, observedAt: int, f: Fact)
    requires f in WrittenAfter(log, periodKey, observedAt)
    ensures f.confidence >= FACT_GATE && f.key.periodKey == periodKey && f.key.observedAt == observedAt
  {
    if f in FactsOf(Before(log.front, log.last), log.last, periodKey, observedAt) {
      var e := log.last;
      var d := DecisionOf(Before(log.front, e), e);
      FactsAreOfThisRun(Place(e.outcome.who, e.input.shot, periodKey, observedAt), MatchNorm(d), e.input.s.fields, f);
    } else {
      WrittenClearTheGate(log.front, periodKey, observedAt, f);
    }
  }

  lemma {:induction false} FactsAreOfThisRun(at: Place, matchNorm: real, fields: seq<FieldRead>, f: Fact)
    requires f in FieldFacts(at, matchNorm, fields)
    ensures f.key.periodKey == at.periodKey && f.key.observedAt == at.observedAt && f.key.memberId == at.memberId
    decreases |fields|
  {
    if f in FieldFacts(at, matchNorm, fields[..|fields| - 1]) {
      FactsAreOfThisRun(at, matchNorm, fields[..|fields| - 1], f);
    }
  }

  // This fact is that field's: its value, under its metric, for this member, no more sure
  // than the name or the field and as sure as one of them, and sure enough.
  ghost predicate IsFactOfField(f: Fact, at: Place, matchNorm: real, field: FieldRead) {
    && field.parsed && f.value == field.value && f.screenshotId == at.shot
    && f.key == Key(at.memberId, field.metric, at.periodKey, "ocr:alliance_members", at.observedAt)
    && f.confidence <= matchNorm && f.confidence <= field.conf && f.confidence >= FACT_GATE
    && (f.confidence == matchNorm || f.confidence == field.conf)
  }

  ghost predicate HasFact(fs: seq<Fact>, at: Place, matchNorm: real, field: FieldRead) {
    exists f :: f in fs && IsFactOfField(f, at, matchNorm, field)
  }

  ghost predicate HasField(f: Fact, at: Place, matchNorm: real, fields: seq<FieldRead>) {
    exists field :: field in fields && IsFactOfField(f, at, matchNorm, field)
  }

  // Every fact is a field's, and every field that parsed, sure enough of itself and of its
  // name, has its fact.
  lemma {:induction false} FieldsBecomeFacts(at: Place, matchNorm: real, fields: seq<FieldRead>, f: Fact,
                                             field: FieldRead)
    ensures f in FieldFacts(at, matchNorm, fields) ==> HasField(f, at, matchNorm, fields)
    ensures field in fields && field.parsed && field.conf >= FACT_GATE && matchNorm >= FACT_GATE ==>
              HasFact(FieldFacts(at, matchNorm, fields), at, matchNorm, field)
    decreases |fields|
  {
    if fields != [] {
      var front, last := fields[..|fields| - 1], fields[|fields| - 1];
      var before, all := FieldFacts(at, matchNorm, front), FieldFacts(at, matchNorm, fields);
      FieldsBecomeFacts(at, matchNorm, front, f, field);
      if f in before {
        var of :| of in front && IsFactOfField(f, at, matchNorm, of);
        assert of in fields;
      } else if f in all {
        assert last in fields && IsFactOfField(f, at, matchNorm, last);
      }
      if HasFact(before, at, matchNorm, field) {
        var g :| g in before && IsFactOfField(g, at, matchNorm, field);
        assert g in all;
      } else if field == last && field.parsed && field.conf >= FACT_GATE && matchNorm >= FACT_GATE {
        assert FactOf(at, matchNorm, last) in all && IsFactOfField(FactOf(at, matchNorm, last), at, matchNorm, last);
      }
    }
  }

  // How sure a row is of its member: the name's score in hundredths, or wholly when the
  // member was minted for it.
  ghost predicate IsSureOf(d: Decision, matchNorm: real) {
    matchNorm == if d.Matches? then d.score as real / 100.0 else 1.0
  }

  // Fact f was written for a field of the photograph that ends this stage of the log.
  ghost predicate WasWrittenAt(stage: Log, f: Fact, periodKey: string, observedAt: int) {
    && stage.Log?
    && var tr, e := Before(stage.front, stage.last), stage.last;
       && IsReading(tr, e) && !DecisionOf(tr, e).Asks?
       && exists norm {:trigger IsSureOf(DecisionOf(tr, e), norm)} ::
            IsSureOf(DecisionOf(tr, e), norm) &&
            HasField(f, Place(e.outcome.who, e.input.shot, periodKey, observedAt), norm, e.input.s.fields)
  }

  // Every fact of a run is of a field that some photograph of a resolved row read.
  lemma {:induction false} WrittenFactsAreRead(log: Log, periodKey: string, observedAt: int, f: Fact)
    returns (stage: Log)
    requires f in WrittenAfter(log, periodKey, observedAt)
    ensures Extends(stage, log) && WasWrittenAt(stage, f, periodKey, observedAt)
  {
    var tr, e := Before(log.front, log.last), log.last;
    if f in FactsOf(tr, e, periodKey, observedAt) {
      stage := log;
      var d := DecisionOf(tr, e);
      FieldsBecomeFacts(Place(e.outcome.who, e.input.shot, periodKey, observedAt), MatchNorm(d), e.input.s.fields, f,
                        NO_POWER);
      assert IsSureOf(d, MatchNorm(d));
    } else {
      stage := WrittenFactsAreRead(log.front, periodKey, observedAt, f);
    }
  }

  // This item is about that field: its own text under its label, unparsed, or less sure
  // than the gate by the lesser of the two confidences.
  ghost predicate IsItemOfField(r: Review, shot: int, band: HeaderCards.Band, matchNorm: real, field: FieldRead) {
    && r.shot == shot && r.band == band && r.text == field.raw && r.candidates == []
    && if !field.parsed then r.reason == Unparseable(field.name) && r.confidence == 0.0
       else
         && r.reason == LowConfidence(field.name) && r.confidence < FACT_GATE
         && r.confidence <= matchNorm && r.confidence <= field.conf
         && (r.confidence == matchNorm || r.confidence == field.conf)
  }

  lemma {:induction false} FieldItemsShowTheirFields(shot: int, band: HeaderCards.Band, matchNorm: real,
                                                     fields: seq<FieldRead>, r: Review)
    requires r in FieldItems(shot, band, matchNorm, fields)
    ensures exists field :: field in fields && IsItemOfField(r, shot, band, matchNorm, field)
    decreases |fields|
  {
    var front, last := fields[..|fields| - 1], fields[|fields| - 1];
    if r in FieldItems(shot, band, matchNorm, front) {
      FieldItemsShowTheirFields(shot, band, matchNorm, front, r);
      var field :| field in front && IsItemOfField(r, shot, band, matchNorm, field);
      assert field in fields;
    } else {
      assert IsItemOfField(r, shot, band, matchNorm, last);
    }
  }

  // What a queried photograph puts in front of a human, once per row: its own text, with
  // the ranked members unless nothing was read of it.
  lemma QueriedRowsShowTheirText(initial: seq<int>, log: Log, e: Entry)
    requires IsStep(initial, log, e) && IsReading(Before(log, e), e) && DecisionOf(Before(log, e), e).Asks?
    ensures var items, s, reason := ItemsOf(Before(log, e), e), e.input.s, DecisionOf(Before(log, e), e).reason;
      if WasReviewed(Before(log, e).g.rows, e.input.y) then items == []
      else
        && |items| == 1 && items[0].shot == e.input.shot && items[0].band == s.band && items[0].text == s.name
        && items[0].reason == reason
        && items[0].candidates == (if s.IsBlank() then [] else Rank(s, MembersAfter(initial, log)))
        && items[0].confidence == (if s.IsBlank() || reason == LowConfidenceName then s.nameConf else 0.0)
  {
    AskedFor(e.input.s, Before(log, e).g, MembersAfter(initial, log));
  }

  // -------------------------------------------------------------------- totals

  ghost function ParsedOf(log: Log, k: string): nat {
    var tr := TrackAfter(log, k);
    if tr.Tracked? then tr.t.parsed else 0
  }

  ghost function SumParsed(log: Log, keys: set<string>): nat {
    if keys == {} then 0
    else
      var k :| k in keys;
      ParsedOf(log, k) + SumParsed(log, keys - {k})
  }

  lemma {:induction false} SumWithout(log: Log, keys: set<string>, k: string)
    requires k in keys
    ensures SumParsed(log, keys) == ParsedOf(log, k) + SumParsed(log, keys - {k})
    decreases |keys|
  {
    var j :| j in keys && SumParsed(log, keys) == ParsedOf(log, j) + SumParsed(log, keys - {j});
    if j != k {
      SumWithout(log, keys - {j}, k);
      SumWithout(log, keys - {k}, j);
      assert keys - {j} - {k} == keys - {k} - {j};
    }
  }

  lemma {:induction false} SumStands(log: Log, e: Entry, keys: set<string>)
    requires forall k :: k in keys ==> ParsedOf(Log(log, e), k) == ParsedOf(log, k)
    ensures SumParsed(Log(log, e), keys) == SumParsed(log, keys)
    decreases |keys|
  {
    if keys != {} {
      var k :| k in keys && SumParsed(log, keys) == ParsedOf(log, k) + SumParsed(log, keys - {k});
      SumWithout(Log(log, e), keys, k);
      SumStands(log, e, keys - {k});
    }
  }

  // The parsed rows of all the groups are the run's parsed rows.
  lemma {:induction false} GroupsAddUp(log: Log, keys: set<string>)
    requires forall k :: TrackAfter(log, k).Tracked? ==> k in keys
    ensures TotalsAfter(log).parsed == SumParsed(log, keys)
  {
    if log.Empty? {
      NothingParsed(log, keys);
    } else {
      var e := log.last;
      forall k | TrackAfter(log.front, k).Tracked? ensures k in keys {
        assert TrackAfter(log, k).Tracked?;
      }
      GroupsAddUp(log.front, keys);
      if IsReading(Before(log.front, e), e) {
        var k := e.input.group;
        assert TrackAfter(log.front, k).Tracked?;
        SumWithout(log, keys, k);
        SumWithout(log.front, keys, k);
        SumStands(log.front, e, keys - {k});
      } else {
        SumStands(log.front, e, keys);
      }
    }
  }

  lemma {:induction false} NothingParsed(log: Log, keys: set<string>)
    requires log.Empty?
    ensures SumParsed(log, keys) == 0
    decreases |keys|
  {
    if keys != {} {
      var k :| k in keys && SumParsed(log, keys) == ParsedOf(log, k) + SumParsed(log, keys - {k});
      assert ParsedOf(log, k) == 0;
      NothingParsed(log, keys - {k});
    }
  }
}
