// The facts table (internal/db/analytics.go): one row per key, overwritten only
// by a strictly more confident observation of the same key.
module Facts {

  datatype Key = Key(memberId: int, metric: string, periodKey: string, source: string, observedAt: int)

  datatype Fact = Fact(key: Key, value: real, screenshotId: int, confidence: real)

  type Table = map<Key, Fact>

  // What a leaderboard may be told.
  const FACT_GATE := 0.80

  function Upsert(t: Table, f: Fact): Table {
    if f.key in t && f.confidence <= t[f.key].confidence then t else t[f.key := f]
  }

  function UpsertAll(t: Table, fs: seq<Fact>): Table {
    if fs == [] then t else Upsert(UpsertAll(t, fs[..|fs| - 1]), fs[|fs| - 1])
  }

  lemma UpsertOneMore(t: Table, fs: seq<Fact>, f: Fact)
    ensures UpsertAll(t, fs + [f]) == Upsert(UpsertAll(t, fs), f)
  {
    assert (fs + [f])[..|fs|] == fs;
  }

  lemma {:induction false} UpsertInTwoParts(t: Table, fs: seq<Fact>, gs: seq<Fact>)
    ensures UpsertAll(t, fs + gs) == UpsertAll(UpsertAll(t, fs), gs)
    decreases |gs|
  {
    if gs == [] {
      assert fs + gs == fs;
    } else {
      UpsertInTwoParts(t, fs, gs[..|gs| - 1]);
      assert fs + gs == fs + gs[..|gs| - 1] + [gs[|gs| - 1]];
      UpsertOneMore(t, fs + gs[..|gs| - 1], gs[|gs| - 1]);
    }
  }

  ghost predicate Covers(t: Table, f: Fact) {
    f.key in t && f.confidence <= t[f.key].confidence
  }

  lemma {:induction false} UpsertedIsCovered(t: Table, fs: seq<Fact>, k: nat)
    requires k < |fs|
    ensures Covers(UpsertAll(t, fs), fs[k])
    decreases |fs|
  {
    if k < |fs| - 1 {
      UpsertedIsCovered(t, fs[..|fs| - 1], k);
    }
  }

  lemma {:induction false} CoveredChangesNothing(t: Table, fs: seq<Fact>)
    requires forall k :: 0 <= k < |fs| ==> Covers(t, fs[k])
    ensures UpsertAll(t, fs) == t
    decreases |fs|
  {
    if fs != [] {
      CoveredChangesNothing(t, fs[..|fs| - 1]);
    }
  }

  // Applying a list of upserts a second time changes nothing.
  lemma ReplayChangesNothing(t: Table, fs: seq<Fact>)
    ensures UpsertAll(UpsertAll(t, fs), fs) == UpsertAll(t, fs)
  {
    forall k | 0 <= k < |fs| ensures Covers(UpsertAll(t, fs), fs[k]) {
      UpsertedIsCovered(t, fs, k);
    }
    CoveredChangesNothing(UpsertAll(t, fs), fs);
  }

  // A stored observation survives until a more confident one of the same key.
  lemma {:induction false} OnlyMoreConfidentReplaces(t: Table, fs: seq<Fact>, k: Key)
    requires k in t
    ensures k in UpsertAll(t, fs)
    ensures UpsertAll(t, fs)[k] == t[k] || UpsertAll(t, fs)[k].confidence > t[k].confidence
    ensures (forall i :: 0 <= i < |fs| && fs[i].key == k ==> fs[i].confidence <= t[k].confidence) ==>
              UpsertAll(t, fs)[k] == t[k]
    decreases |fs|
  {
    if fs != [] {
      OnlyMoreConfidentReplaces(t, fs[..|fs| - 1], k);
    }
  }

  // -------------------------------------------------------------- what is stored

  // The observations of one key, in order.
  ghost function OfKey(fs: seq<Fact>, k: Key): seq<Fact> {
    if fs == [] then []
    else OfKey(fs[..|fs| - 1], k) + if fs[|fs| - 1].key == k then [fs[|fs| - 1]] else []
  }

  // All that is known of one key: what was stored, then what is observed.
  ghost function Known(t: Table, fs: seq<Fact>, k: Key): seq<Fact> {
    (if k in t then [t[k]] else []) + OfKey(fs, k)
  }

  // Fact i is the first of the greatest confidence.
  ghost predicate IsFirstMostConfident(fs: seq<Fact>, i: int) {
    && 0 <= i < |fs|
    && (forall j :: 0 <= j < |fs| ==> fs[j].confidence <= fs[i].confidence)
    && (forall j :: 0 <= j < i ==> fs[j].confidence < fs[i].confidence)
  }

  lemma KnownOneMore(t: Table, fs: seq<Fact>, k: Key)
    requires fs != []
    ensures var front, last := Known(t, fs[..|fs| - 1], k), fs[|fs| - 1];
      Known(t, fs, k) == if last.key == k then front + [last] else front
  {
  }

  // What the table holds of a key, whole, is the first of the greatest confidence among
  // all that is known of it; and it holds nothing exactly when nothing is.
  lemma {:induction false} StoredIsTheMostConfident(t: Table, fs: seq<Fact>, k: Key) returns (i: int)
    ensures k in UpsertAll(t, fs) <==> Known(t, fs, k) != []
    ensures k in UpsertAll(t, fs) ==>
              IsFirstMostConfident(Known(t, fs, k), i) && UpsertAll(t, fs)[k] == Known(t, fs, k)[i]
    decreases |fs|
  {
    i := 0;
    if fs != [] {
      var front, last := fs[..|fs| - 1], fs[|fs| - 1];
      var before := Known(t, front, k);
      i := StoredIsTheMostConfident(t, front, k);
      KnownOneMore(t, fs, k);
      if last.key == k && (before == [] || last.confidence > before[i].confidence) {
        i := |before|;
      }
    }
  }

  // The keys are those stored and those observed.
  lemma {:induction false} KeysAreThoseKnown(t: Table, fs: seq<Fact>, k: Key)
    ensures k in UpsertAll(t, fs) <==> k in t || exists i :: 0 <= i < |fs| && fs[i].key == k
    decreases |fs|
  {
    if fs != [] {
      KeysAreThoseKnown(t, fs[..|fs| - 1], k);
    }
  }
}
