// The ranked candidate list a name is matched against (internal/roster/match.go,
// internal/ingest/vs.go): best score first, equal scores in the members' own order.
module Ranking {

  const AUTO_ACCEPT := 92
  const REVIEW_FLOOR := 75

  // A member and its score against one reading.
  datatype Candidate = Candidate(id: int, score: int)

  function InsertBelowEquals(ranked: seq<Candidate>, c: Candidate): seq<Candidate> {
    if ranked == [] || ranked[|ranked| - 1].score >= c.score then ranked + [c]
    else InsertBelowEquals(ranked[..|ranked| - 1], c) + [ranked[|ranked| - 1]]
  }

  // The order the original leaves to its library's stable sort.
  function Ranked(cs: seq<Candidate>): seq<Candidate> {
    if cs == [] then [] else InsertBelowEquals(Ranked(cs[..|cs| - 1]), cs[|cs| - 1])
  }

  ghost predicate NoneBelow(cs: seq<Candidate>, v: int) {
    forall i :: 0 <= i < |cs| ==> cs[i].score >= v
  }

  ghost predicate IsDescending(cs: seq<Candidate>) {
    forall n :: 0 <= n < |cs| ==> NoneBelow(cs[..n], cs[n].score)
  }

  // The candidates of one score, in order.
  ghost function OfScore(cs: seq<Candidate>, v: int): seq<Candidate> {
    if cs == [] then []
    else OfScore(cs[..|cs| - 1], v) + if cs[|cs| - 1].score == v then [cs[|cs| - 1]] else []
  }

  lemma AppendDescends(cs: seq<Candidate>, c: Candidate)
    requires IsDescending(cs) && NoneBelow(cs, c.score)
    ensures IsDescending(cs + [c])
  {
    forall n | 0 <= n <= |cs| ensures NoneBelow((cs + [c])[..n], (cs + [c])[n].score) {
      assert (cs + [c])[..n] == cs[..n];
      assert cs[..|cs|] == cs;
    }
  }

  lemma FrontDescends(cs: seq<Candidate>)
    requires IsDescending(cs) && cs != []
    ensures IsDescending(cs[..|cs| - 1])
  {
    forall n | 0 <= n < |cs| - 1 ensures NoneBelow(cs[..|cs| - 1][..n], cs[n].score) {
      assert cs[..|cs| - 1][..n] == cs[..n];
    }
  }

  lemma {:induction false} InsertDescends(cs: seq<Candidate>, c: Candidate, v: int)
    requires IsDescending(cs)
    ensures IsDescending(InsertBelowEquals(cs, c))
    ensures NoneBelow(cs, v) && c.score >= v ==> NoneBelow(InsertBelowEquals(cs, c), v)
    decreases |cs|
  {
    if cs == [] {
      AppendDescends(cs, c);
    } else {
      var n := |cs| - 1;
      if cs[n].score >= c.score {
        assert NoneBelow(cs[..n], cs[n].score);
        AppendDescends(cs, c);
      } else {
        FrontDescends(cs);
        InsertDescends(cs[..n], c, cs[n].score);
        InsertDescends(cs[..n], c, v);
        assert NoneBelow(cs[..n], cs[n].score);
        AppendDescends(InsertBelowEquals(cs[..n], c), cs[n]);
      }
    }
  }

  lemma {:induction false} InsertKeepsEquals(cs: seq<Candidate>, c: Candidate, v: int)
    ensures OfScore(InsertBelowEquals(cs, c), v) == OfScore(cs, v) + if c.score == v then [c] else []
    decreases |cs|
  {
    if cs != [] && cs[|cs| - 1].score < c.score {
      InsertKeepsEquals(cs[..|cs| - 1], c, v);
      var r := InsertBelowEquals(cs[..|cs| - 1], c);
      assert (r + [cs[|cs| - 1]])[..|r|] == r;
    } else {
      assert (cs + [c])[..|cs|] == cs;
    }
  }

  // Best first, and among equals the order they came in.
  lemma {:induction false} RankedIsTheStableOrder(cs: seq<Candidate>, v: int)
    ensures IsDescending(Ranked(cs)) && OfScore(Ranked(cs), v) == OfScore(cs, v) && |Ranked(cs)| == |cs|
    decreases |cs|
  {
    if cs != [] {
      var front, last := cs[..|cs| - 1], cs[|cs| - 1];
      RankedIsTheStableOrder(front, v);
      InsertDescends(Ranked(front), last, 0);
      InsertKeepsEquals(Ranked(front), last, v);
      InsertGrows(Ranked(front), last);
    }
  }

  lemma {:induction false} OfScoreIsEmptyIff(cs: seq<Candidate>, v: int)
    ensures OfScore(cs, v) == [] <==> forall i :: 0 <= i < |cs| ==> cs[i].score != v
    decreases |cs|
  {
    if cs != [] {
      OfScoreIsEmptyIff(cs[..|cs| - 1], v);
    }
  }

  lemma FrontOfScore(cs: seq<Candidate>, v: int)
    requires cs != []
    ensures OfScore(cs[..|cs| - 1], v) ==
            if cs[|cs| - 1].score == v then OfScore(cs, v)[..|OfScore(cs, v)| - 1] else OfScore(cs, v)
  {
  }

  // Where another list has a candidate scoring as the last of this one, its own last
  // scores no more.
  lemma LastIsNoBetter(a: seq<Candidate>, b: seq<Candidate>)
    requires IsDescending(b) && a != [] && OfScore(a, a[|a| - 1].score) == OfScore(b, a[|a| - 1].score)
    ensures b != [] && b[|b| - 1].score <= a[|a| - 1].score
  {
    var v := a[|a| - 1].score;
    OfScoreIsEmptyIff(a, v);
    OfScoreIsEmptyIff(b, v);
    var i :| 0 <= i < |b| && b[i].score == v;
    if i < |b| - 1 {
      assert NoneBelow(b[..|b| - 1], b[|b| - 1].score);
      assert b[..|b| - 1][i].score == v;
    }
  }

  lemma LastsAgree(a: seq<Candidate>, b: seq<Candidate>)
    requires IsDescending(a) && IsDescending(b) && a != []
    requires forall v {:trigger OfScore(a, v)} :: OfScore(a, v) == OfScore(b, v)
    ensures b != [] && a[|a| - 1] == b[|b| - 1]
  {
    LastIsNoBetter(a, b);
    assert OfScore(a, b[|b| - 1].score) == OfScore(b, b[|b| - 1].score);
    LastIsNoBetter(b, a);
    var v := a[|a| - 1].score;
    assert OfScore(a, v)[|OfScore(a, v)| - 1] == a[|a| - 1];
    assert OfScore(b, v)[|OfScore(b, v)| - 1] == b[|b| - 1];
  }

  // The scores order a descending list but for its equals, and the order of those does
  // the rest.
  lemma {:induction false} DescendingIsUnique(a: seq<Candidate>, b: seq<Candidate>)
    requires IsDescending(a) && IsDescending(b)
    requires forall v {:trigger OfScore(a, v)} :: OfScore(a, v) == OfScore(b, v)
    ensures a == b
    decreases |a|
  {
    if b != [] {
      forall v ensures OfScore(b, v) == OfScore(a, v) {
        assert OfScore(a, v) == OfScore(b, v);
      }
      LastsAgree(b, a);
    }
    if a != [] {
      LastsAgree(a, b);
      var front, rest := a[..|a| - 1], b[..|b| - 1];
      forall v ensures OfScore(front, v) == OfScore(rest, v) {
        assert OfScore(a, v) == OfScore(b, v);
        FrontOfScore(a, v);
        FrontOfScore(b, v);
      }
      FrontDescends(a);
      FrontDescends(b);
      DescendingIsUnique(front, rest);
      assert a == front + [a[|a| - 1]] && b == rest + [b[|b| - 1]];
    }
  }

  // So there is one such ranking only.
  lemma RankedIsTheOnlyOrder(cs: seq<Candidate>, ranked: seq<Candidate>)
    requires IsDescending(ranked) && forall v {:trigger OfScore(ranked, v)} :: OfScore(ranked, v) == OfScore(cs, v)
    ensures ranked == Ranked(cs)
  {
    RankedIsTheStableOrder(cs, 0);
    forall v ensures OfScore(ranked, v) == OfScore(Ranked(cs), v) {
      RankedIsTheStableOrder(cs, v);
    }
    DescendingIsUnique(ranked, Ranked(cs));
  }

  lemma {:induction false} InsertGrows(cs: seq<Candidate>, c: Candidate)
    ensures |InsertBelowEquals(cs, c)| == |cs| + 1
    decreases |cs|
  {
    if cs != [] && cs[|cs| - 1].score < c.score {
      InsertGrows(cs[..|cs| - 1], c);
    }
  }

  lemma {:induction false} HeadAfterInsert(cs: seq<Candidate>, c: Candidate)
    requires IsDescending(cs)
    ensures |InsertBelowEquals(cs, c)| > 0
    ensures InsertBelowEquals(cs, c)[0] == if cs != [] && cs[0].score >= c.score then cs[0] else c
    decreases |cs|
  {
    if cs != [] {
      var n := |cs| - 1;
      if n > 0 {
        assert NoneBelow(cs[..n], cs[n].score) && cs[..n][0] == cs[0];
      }
      if cs[n].score < c.score {
        FrontDescends(cs);
        HeadAfterInsert(cs[..n], c);
      }
    }
  }

  // Candidate i is the first that nobody outscores.
  ghost predicate IsFirstBest(cs: seq<Candidate>, i: int) {
    && 0 <= i < |cs|
    && (forall j :: 0 <= j < |cs| ==> cs[j].score <= cs[i].score)
    && (forall j :: 0 <= j < i ==> cs[j].score < cs[i].score)
  }

  lemma FirstBestSoFar(cs: seq<Candidate>, n: nat, k: int)
    requires n < |cs| && IsFirstBest(cs[..n], k)
    ensures IsFirstBest(cs[..n + 1], if cs[n].score <= cs[k].score then k else n)
  {
    assert forall j :: 0 <= j < n ==> cs[..n + 1][j] == cs[..n][j];
  }

  // The head of the ranking is the first that nobody outscores.
  lemma {:induction false} HeadIsFirstBest(cs: seq<Candidate>) returns (i: int)
    requires cs != []
    ensures IsFirstBest(cs, i) && Ranked(cs) != [] && Ranked(cs)[0] == cs[i]
    decreases |cs|
  {
    var n := |cs| - 1;
    var front := cs[..n];
    assert cs[..n + 1] == cs;
    RankedIsTheStableOrder(front, 0);
    HeadAfterInsert(Ranked(front), cs[n]);
    i := n;
    if n > 0 {
      var k := HeadIsFirstBest(front);
      FirstBestSoFar(cs, n, k);
      i := if cs[n].score <= cs[k].score then k else n;
    }
  }
}
