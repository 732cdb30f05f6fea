// Closed-set assignment of ranking rows to members (internal/roster/assign.go):
// two greedy claim passes with a duplicate check between them.
module Assign {
  import opened Ranking

  const RESIDUAL_FLOOR := 60
  const RESIDUAL_MARGIN := 20

  datatype Phase = Unassigned | Confident | Residual | Duplicate

  // One phase's acceptance rule.
  datatype AssignParams = AssignParams(floor: int, margin: int)

  const CONFIDENT_RULE := AssignParams(AUTO_ACCEPT, 1)
  const DEFAULT_RESIDUAL := AssignParams(RESIDUAL_FLOOR, RESIDUAL_MARGIN)

  // One row's outcome; member is -1 when the row was not resolved.
  datatype Assignment = Assignment(member: int, score: int, phase: Phase)

  const NOBODY := Assignment(-1, 0, Unassigned)

  // The working state: which rows and members are spoken for, and the result.
  datatype State = State(rowTaken: seq<bool>, memTaken: seq<bool>, out: seq<Assignment>) {
    ghost predicate Fits(scores: seq<seq<int>>) {
      && |rowTaken| == |out| == |scores|
      && forall i :: 0 <= i < |scores| ==> |scores[i]| <= |memTaken|
    }
  }

  // ---------------------------------------------------------- what a claim is

  // j is the best free member of a row, the earliest of the equal ones.
  ghost predicate IsTop(row: seq<int>, memTaken: seq<bool>, j: int)
    requires |row| <= |memTaken|
  {
    && 0 <= j < |row| && !memTaken[j] && row[j] >= 0
    && forall k :: 0 <= k < |row| && !memTaken[k] ==> row[k] <= row[j] && (k < j ==> row[k] < row[j])
  }

  // No other free member comes within the margin of j.
  ghost predicate IsClear(row: seq<int>, memTaken: seq<bool>, j: int, margin: int)
    requires |row| <= |memTaken| && 0 <= j < |row|
  {
    forall k :: 0 <= k < |row| && !memTaken[k] && k != j && row[k] >= 0 ==> row[j] - row[k] >= margin
  }

  ghost predicate MayClaim(row: seq<int>, memTaken: seq<bool>, p: AssignParams, j: int)
    requires |row| <= |memTaken|
  {
    IsTop(row, memTaken, j) && row[j] >= p.floor && IsClear(row, memTaken, j, p.margin)
  }

  ghost predicate Eligible(scores: seq<seq<int>>, s: State, p: AssignParams, i: int, j: int)
    requires s.Fits(scores)
  {
    0 <= i < |scores| && !s.rowTaken[i] && MayClaim(scores[i], s.memTaken, p, j)
  }

  // The claim made next: an eligible pair of highest score, the earliest row of those.
  ghost predicate IsBestClaim(scores: seq<seq<int>>, s: State, p: AssignParams, i: int, j: int)
    requires s.Fits(scores)
  {
    && Eligible(scores, s, p, i, j)
    && forall a, b :: Eligible(scores, s, p, a, b) ==>
         scores[a][b] <= scores[i][j] && (a < i ==> scores[a][b] < scores[i][j])
  }

  ghost function Claimed(scores: seq<seq<int>>, s: State, phase: Phase, i: int, j: int): State
    requires s.Fits(scores) && 0 <= i < |scores| && 0 <= j < |scores[i]|
  {
    State(s.rowTaken[i := true], s.memTaken[j := true], s.out[i := Assignment(j, scores[i][j], phase)])
  }

  ghost predicate Exhausted(scores: seq<seq<int>>, s: State, p: AssignParams)
    requires s.Fits(scores)
  {
    forall i, j :: !Eligible(scores, s, p, i, j)
  }

  // Best claims made one after another lead from s to t.
  ghost predicate IsRun(scores: seq<seq<int>>, p: AssignParams, phase: Phase, s: State, claims: seq<(int, int)>,
                        t: State)
    requires s.Fits(scores)
    decreases |claims|
  {
    if claims == [] then
      t == s
    else
      var (i, j) := claims[0];
      IsBestClaim(scores, s, p, i, j) && IsRun(scores, p, phase, Claimed(scores, s, phase, i, j), claims[1..], t)
  }

  // A whole pass goes on until no claim is left.
  ghost predicate IsPass(scores: seq<seq<int>>, p: AssignParams, phase: Phase, s: State, claims: seq<(int, int)>,
                         t: State)
    requires s.Fits(scores)
  {
    IsRun(scores, p, phase, s, claims, t) && t.Fits(scores) && Exhausted(scores, t, p)
  }

  // A row left by the first pass that matches a claimed member at AutoAccept.
  ghost predicate Resights(row: seq<int>, memTaken: seq<bool>)
    requires |row| <= |memTaken|
  {
    exists j :: 0 <= j < |row| && memTaken[j] && row[j] >= AUTO_ACCEPT
  }

  ghost function MarkDuplicates(scores: seq<seq<int>>, s: State): State
    requires s.Fits(scores)
  {
    State(seq(|scores|, i requires 0 <= i < |scores| => s.rowTaken[i] || Resights(scores[i], s.memTaken)),
          s.memTaken,
          seq(|scores|, i requires 0 <= i < |scores| =>
            if !s.rowTaken[i] && Resights(scores[i], s.memTaken) then Assignment(-1, 0, Duplicate) else s.out[i]))
  }

  ghost function Start(scores: seq<seq<int>>, members: nat): State {
    State(seq(|scores|, i => false), seq(members, j => false), seq(|scores|, i => NOBODY))
  }

  ghost predicate IsMemberCount(scores: seq<seq<int>>, n: nat) {
    && (forall i :: 0 <= i < |scores| ==> |scores[i]| <= n)
    && (n == 0 || exists i :: 0 <= i < |scores| && |scores[i]| == n)
  }

  // The full algorithm: the states after each of its three steps.
  ghost predicate IsAssign(scores: seq<seq<int>>, residual: AssignParams, members: nat,
                           first: seq<(int, int)>, s: State, second: seq<(int, int)>, t: State)
  {
    && IsMemberCount(scores, members)
    && IsPass(scores, CONFIDENT_RULE, Confident, Start(scores, members), first, s)
    && IsPass(scores, residual, Residual, MarkDuplicates(scores, s), second, t)
  }

  // -------------------------------------------------------------- the program

  method ScanRow(row: seq<int>, memTaken: array<bool>) returns (top: int, second: int, topJ: int)
    requires |row| <= memTaken.Length
    ensures topJ < 0 ==> top == -1 && topJ == -1 && forall k :: 0 <= k < |row| && !memTaken[k] ==> row[k] < 0
    ensures topJ >= 0 ==> IsTop(row, memTaken[..], topJ) && top == row[topJ]
    ensures topJ >= 0 && second >= 0 ==> exists k :: 0 <= k < |row| && k != topJ && !memTaken[k] && row[k] == second
    ensures topJ >= 0 ==> forall k :: 0 <= k < |row| && k != topJ && !memTaken[k] && row[k] >= 0 ==> row[k] <= second
  {
    top, second, topJ := -1, -1, -1;
    for j := 0 to |row|
      invariant -1 <= topJ < j && -1 <= second <= top
      invariant topJ < 0 ==> top == -1 && second == -1
      invariant topJ >= 0 ==> !memTaken[topJ] && top == row[topJ] >= 0
      invariant forall k :: 0 <= k < j && !memTaken[k] ==> row[k] <= top && (k < topJ ==> row[k] < top)
      invariant second >= 0 ==> exists k :: 0 <= k < j && k != topJ && !memTaken[k] && row[k] == second
      invariant forall k :: 0 <= k < j && k != topJ && !memTaken[k] ==> row[k] <= second
    {
      var s := row[j];
      if memTaken[j] {
      } else if s > top {
        top, second, topJ := s, top, j;
      } else if s > second {
        second := s;
      }
    }
  }

  // The search of one claim round.
  method FindBest(scores: seq<seq<int>>, p: AssignParams, rowTaken: array<bool>, memTaken: array<bool>, ghost s: State)
    returns (bestScore: int, bestRow: int, bestMem: int)
    requires s.Fits(scores) && s.rowTaken == rowTaken[..] && s.memTaken == memTaken[..]
    ensures bestRow < 0 ==> Exhausted(scores, s, p)
    ensures bestRow >= 0 ==> IsBestClaim(scores, s, p, bestRow, bestMem) && bestScore == scores[bestRow][bestMem]
  {
    bestScore, bestRow, bestMem := -1, -1, -1;
    for i := 0 to |scores|
      invariant -1 <= bestRow < i && bestScore >= -1
      invariant bestRow < 0 ==> bestScore == -1
      invariant bestRow >= 0 ==> Eligible(scores, s, p, bestRow, bestMem) && bestScore == scores[bestRow][bestMem]
      invariant forall a, b :: a < i && Eligible(scores, s, p, a, b) ==>
        scores[a][b] <= bestScore && (a < bestRow ==> scores[a][b] < bestScore)
    {
      if rowTaken[i] {
        continue;
      }
      var row := scores[i];
      var top, second, topJ := ScanRow(row, memTaken);
      RowVerdict(row, s.memTaken, p, top, second, topJ);
      if topJ < 0 || top < p.floor {
        continue;
      }
      if second >= 0 && top - second < p.margin {
        continue;
      }
      if top > bestScore {
        bestScore, bestRow, bestMem := top, i, topJ;
      }
    }
  }

  lemma RowVerdict(row: seq<int>, memTaken: seq<bool>, p: AssignParams, top: int, second: int, topJ: int)
    requires |row| <= |memTaken|
    requires topJ < 0 ==> forall k :: 0 <= k < |row| && !memTaken[k] ==> row[k] < 0
    requires topJ >= 0 ==> IsTop(row, memTaken, topJ) && top == row[topJ]
    requires topJ >= 0 && second >= 0 ==> exists k :: 0 <= k < |row| && k != topJ && !memTaken[k] && row[k] == second
    requires topJ >= 0 ==> forall k :: 0 <= k < |row| && k != topJ && !memTaken[k] && row[k] >= 0 ==> row[k] <= second
    ensures forall j :: MayClaim(row, memTaken, p, j) <==>
      j == topJ && topJ >= 0 && top >= p.floor && !(second >= 0 && top - second < p.margin)
  {
  }

  ghost function FreeRows(rowTaken: seq<bool>): set<int> {
    set i | 0 <= i < |rowTaken| && !rowTaken[i]
  }

  lemma {:induction false} RunThenClaim(scores: seq<seq<int>>, p: AssignParams, phase: Phase, s: State,
                                        claims: seq<(int, int)>, t: State, i: int, j: int)
    requires s.Fits(scores) && IsRun(scores, p, phase, s, claims, t)
    requires t.Fits(scores) && IsBestClaim(scores, t, p, i, j)
    ensures IsRun(scores, p, phase, s, claims + [(i, j)], Claimed(scores, t, phase, i, j))
    decreases |claims|
  {
    if claims == [] {
      assert claims + [(i, j)] == [(i, j)] && [(i, j)][1..] == [];
    } else {
      RunThenClaim(scores, p, phase, Claimed(scores, s, phase, claims[0].0, claims[0].1), claims[1..], t, i, j);
      assert (claims + [(i, j)])[1..] == claims[1..] + [(i, j)];
    }
  }

  lemma ClaimUsesARow(scores: seq<seq<int>>, s: State, p: AssignParams, phase: Phase, i: int, j: int)
    requires s.Fits(scores) && Eligible(scores, s, p, i, j)
    ensures |FreeRows(Claimed(scores, s, phase, i, j).rowTaken)| < |FreeRows(s.rowTaken)|
    ensures Claimed(scores, s, phase, i, j).Fits(scores)
  {
    assert FreeRows(s.rowTaken[i := true]) == FreeRows(s.rowTaken) - {i};
  }

  // One round of the pass: the best claim, if there is one, is made in place.
  method ClaimBest(scores: seq<seq<int>>, p: AssignParams, phase: Phase,
                   rowTaken: array<bool>, memTaken: array<bool>, out: array<Assignment>)
    returns (bestRow: int, ghost bestMem: int)
    requires rowTaken != memTaken
    requires State(rowTaken[..], memTaken[..], out[..]).Fits(scores)
    modifies rowTaken, memTaken, out
    ensures bestRow < 0 ==>
      && State(rowTaken[..], memTaken[..], out[..]) == old(State(rowTaken[..], memTaken[..], out[..]))
      && Exhausted(scores, State(rowTaken[..], memTaken[..], out[..]), p)
    ensures bestRow >= 0 ==>
      && IsBestClaim(scores, old(State(rowTaken[..], memTaken[..], out[..])), p, bestRow, bestMem)
      && State(rowTaken[..], memTaken[..], out[..]) ==
         Claimed(scores, old(State(rowTaken[..], memTaken[..], out[..])), phase, bestRow, bestMem)
  {
    ghost var s := State(rowTaken[..], memTaken[..], out[..]);
    var bestScore, row, mem := FindBest(scores, p, rowTaken, memTaken, s);
    bestRow, bestMem := row, mem;
    if bestRow >= 0 {
      rowTaken[bestRow], memTaken[mem] := true, true;
      out[bestRow] := Assignment(mem, bestScore, phase);
      assert State(rowTaken[..], memTaken[..], out[..]) == Claimed(scores, s, phase, bestRow, bestMem);
    }
  }

  // One claim pass, updating the three slices in place.
  method Claim(scores: seq<seq<int>>, p: AssignParams, phase: Phase,
               rowTaken: array<bool>, memTaken: array<bool>, out: array<Assignment>)
    returns (ghost claims: seq<(int, int)>)
    requires rowTaken != memTaken
    requires State(rowTaken[..], memTaken[..], out[..]).Fits(scores)
    modifies rowTaken, memTaken, out
    ensures IsPass(scores, p, phase, old(State(rowTaken[..], memTaken[..], out[..])), claims,
                   State(rowTaken[..], memTaken[..], out[..]))
  {
    ghost var start := State(rowTaken[..], memTaken[..], out[..]);
    ghost var s := start;
    claims := [];
    while true
      invariant s == State(rowTaken[..], memTaken[..], out[..]) && s.Fits(scores)
      invariant IsRun(scores, p, phase, start, claims, s)
      decreases |FreeRows(s.rowTaken)|
    {
      ghost var mem;
      var row;
      row, mem := ClaimBest(scores, p, phase, rowTaken, memTaken, out);
      if row < 0 {
        return;
      }
      RunThenClaim(scores, p, phase, start, claims, s, row, mem);
      ClaimUsesARow(scores, s, p, phase, row, mem);
      claims := claims + [(row, mem)];
      s := Claimed(scores, s, phase, row, mem);
    }
  }

  // Marks and withholds second sightings of members the first pass claimed.
  method MarkResightings(scores: seq<seq<int>>, rowTaken: array<bool>, memTaken: array<bool>, out: array<Assignment>)
    requires rowTaken != memTaken
    requires State(rowTaken[..], memTaken[..], out[..]).Fits(scores)
    modifies rowTaken, out
    ensures State(rowTaken[..], memTaken[..], out[..]) ==
            MarkDuplicates(scores, old(State(rowTaken[..], memTaken[..], out[..])))
  {
    ghost var s := State(rowTaken[..], memTaken[..], out[..]);
    ghost var t := MarkDuplicates(scores, s);
    for i := 0 to |scores|
      invariant forall k :: 0 <= k < i ==> rowTaken[k] == t.rowTaken[k] && out[k] == t.out[k]
      invariant forall k :: i <= k < |scores| ==> rowTaken[k] == s.rowTaken[k] && out[k] == s.out[k]
    {
      if rowTaken[i] {
        continue;
      }
      var row := scores[i];
      for j := 0 to |row|
        invariant !rowTaken[i] && rowTaken[i] == s.rowTaken[i] && out[i] == s.out[i]
        invariant forall k :: 0 <= k < j ==> !(memTaken[k] && row[k] >= AUTO_ACCEPT)
        invariant forall k :: 0 <= k < i ==> rowTaken[k] == t.rowTaken[k] && out[k] == t.out[k]
        invariant forall k :: i < k < |scores| ==> rowTaken[k] == s.rowTaken[k] && out[k] == s.out[k]
      {
        if memTaken[j] && row[j] >= AUTO_ACCEPT {
          assert Resights(row, s.memTaken);
          out[i] := Assignment(-1, 0, Duplicate);
          rowTaken[i] := true;
          break;
        }
      }
    }
  }

  // The widest row decides how many members there are.
  method CountMembers(scores: seq<seq<int>>) returns (n: nat)
    ensures IsMemberCount(scores, n)
  {
    n := 0;
    for k := 0 to |scores|
      invariant forall i :: 0 <= i < k ==> |scores[i]| <= n
      invariant n == 0 || exists i :: 0 <= i < k && |scores[i]| == n
    {
      if |scores[k]| > n {
        n := |scores[k]|;
      }
    }
  }

  // One outcome per row.
  method Assign(scores: seq<seq<int>>, residual: AssignParams) returns (out: seq<Assignment>)
    ensures IsOutcome(scores, residual, out)
  {
    var res := new Assignment[|scores|](_ => NOBODY);
    var memberCount := CountMembers(scores);
    var rowTaken := new bool[|scores|](_ => false);
    var memTaken := new bool[memberCount](_ => false);
    assert State(rowTaken[..], memTaken[..], res[..]) == Start(scores, memberCount);
    ghost var first := Claim(scores, CONFIDENT_RULE, Confident, rowTaken, memTaken, res);
    ghost var s := State(rowTaken[..], memTaken[..], res[..]);
    MarkResightings(scores, rowTaken, memTaken, res);
    ghost var second := Claim(scores, residual, Residual, rowTaken, memTaken, res);
    out := res[..];
    assert IsAssign(scores, residual, memberCount, first, s, second, State(rowTaken[..], memTaken[..], res[..]));
  }

  ghost predicate IsOutcome(scores: seq<seq<int>>, residual: AssignParams, out: seq<Assignment>) {
    exists members, first, s, second, t :: IsAssign(scores, residual, members, first, s, second, t) && out == t.out
  }

  // ------------------------------------------------------------ main results

  // A state both passes keep: results and taken marks say the same thing, and
  // no member is given twice.
  ghost predicate Consistent(scores: seq<seq<int>>, s: State)
    requires s.Fits(scores)
  {
    && (forall i :: 0 <= i < |scores| && s.out[i].member >= 0 ==>
          && s.rowTaken[i] && s.out[i].member < |scores[i]|
          && s.memTaken[s.out[i].member] && s.out[i].score == scores[i][s.out[i].member])
    && (forall i :: 0 <= i < |scores| ==>
          && (s.out[i].member >= 0 <==> s.out[i].phase in {Confident, Residual})
          && (s.rowTaken[i] <==> s.out[i].phase != Unassigned)
          && s.out[i].member >= -1)
    && (forall i, k :: 0 <= i < k < |scores| && s.out[i].member >= 0 ==> s.out[i].member != s.out[k].member)
    && (forall j :: 0 <= j < |s.memTaken| && s.memTaken[j] ==> exists i :: 0 <= i < |scores| && s.out[i].member == j)
  }

  lemma ClaimKeepsConsistent(scores: seq<seq<int>>, s: State, p: AssignParams, phase: Phase, i: int, j: int)
    requires s.Fits(scores) && Consistent(scores, s) && phase in {Confident, Residual}
    requires Eligible(scores, s, p, i, j)
    ensures Consistent(scores, Claimed(scores, s, phase, i, j))
  {
    var t := Claimed(scores, s, phase, i, j);
    assert s.out[i].member < 0;
    forall m | 0 <= m < |t.memTaken| && t.memTaken[m]
      ensures exists k :: 0 <= k < |scores| && t.out[k].member == m
    {
      if m == j {
        assert t.out[i].member == j;
      } else {
        var k :| 0 <= k < |scores| && s.out[k].member == m;
        assert t.out[k] == s.out[k];
      }
    }
  }

  // What a run changes: it takes free rows and free members, pairs them at the
  // floor or above under its own phase, and leaves every taken row alone.
  ghost predicate RunChanges(scores: seq<seq<int>>, p: AssignParams, phase: Phase, s: State, t: State)
    requires s.Fits(scores)
  {
    && t.Fits(scores) && |t.memTaken| == |s.memTaken|
    && (forall i :: 0 <= i < |scores| && (s.rowTaken[i] || !t.rowTaken[i]) ==>
          t.out[i] == s.out[i] && (s.rowTaken[i] ==> t.rowTaken[i]))
    && (forall i :: 0 <= i < |scores| && !s.rowTaken[i] && t.rowTaken[i] ==>
          && t.out[i].phase == phase && 0 <= t.out[i].member < |s.memTaken|
          && t.out[i].score >= p.floor && !s.memTaken[t.out[i].member])
    && (forall j :: 0 <= j < |s.memTaken| && s.memTaken[j] ==> t.memTaken[j])
  }

  lemma ClaimChanges(scores: seq<seq<int>>, p: AssignParams, phase: Phase, s: State, i: int, j: int, t: State)
    requires s.Fits(scores) && Consistent(scores, s) && phase in {Confident, Residual}
    requires Eligible(scores, s, p, i, j)
    requires RunChanges(scores, p, phase, Claimed(scores, s, phase, i, j), t)
    ensures RunChanges(scores, p, phase, s, t)
  {
  }

  lemma {:induction false} RunFacts(scores: seq<seq<int>>, p: AssignParams, phase: Phase, s: State,
                                    claims: seq<(int, int)>, t: State)
    requires s.Fits(scores) && Consistent(scores, s) && phase in {Confident, Residual}
    requires IsRun(scores, p, phase, s, claims, t)
    ensures RunChanges(scores, p, phase, s, t) && Consistent(scores, t)
    decreases |claims|
  {
    if claims != [] {
      var (i, j) := claims[0];
      ClaimKeepsConsistent(scores, s, p, phase, i, j);
      RunFacts(scores, p, phase, Claimed(scores, s, phase, i, j), claims[1..], t);
      ClaimChanges(scores, p, phase, s, i, j, t);
    }
  }

  // No two members score the same against this row at v or above.
  ghost predicate TieFree(row: seq<int>, v: int) {
    forall a, b :: 0 <= a < b < |row| && row[a] == row[b] ==> row[a] < v
  }

  // The pair is not one both sides would rather have: the row holds a member
  // scoring at least as much, or the member's row scores at least as much.
  ghost predicate Settled(scores: seq<seq<int>>, s: State, i: int, j: int)
    requires s.Fits(scores) && 0 <= i < |scores| && 0 <= j < |scores[i]|
  {
    || (s.out[i].member >= 0 && s.out[i].score >= scores[i][j])
    || exists k :: 0 <= k < |scores| && s.out[k].member == j && s.out[k].score >= scores[i][j]
  }

  ghost predicate OpenOrSettled(scores: seq<seq<int>>, s: State, i: int, j: int)
    requires s.Fits(scores) && 0 <= i < |scores| && 0 <= j < |scores[i]|
  {
    (!s.rowTaken[i] && !s.memTaken[j]) || Settled(scores, s, i, j)
  }

  lemma BestFree(row: seq<int>, memTaken: seq<bool>, j: int) returns (top: int)
    requires |row| <= |memTaken| && 0 <= j < |row| && !memTaken[j] && row[j] >= 0
    ensures IsTop(row, memTaken, top) && row[top] >= row[j]
  {
    top := j;
    for k := 0 to |row|
      invariant 0 <= top < |row| && !memTaken[top] && row[top] >= row[j]
      invariant forall m :: 0 <= m < k && !memTaken[m] ==> row[m] <= row[top] && (m < top ==> row[m] < row[top])
      invariant top == j || top < k
      invariant top == j ==> forall m :: 0 <= m < k && !memTaken[m] ==> row[m] < row[j] || m >= j
    {
      if !memTaken[k] && (row[k] > row[top] || (row[k] == row[top] && k < top)) {
        top := k;
      }
    }
  }

  // A free row may claim its best free member whenever nothing ties there.
  lemma TieFreeRowMayClaim(scores: seq<seq<int>>, s: State, i: int, j: int) returns (top: int)
    requires s.Fits(scores) && 0 <= i < |scores| && 0 <= j < |scores[i]|
    requires !s.rowTaken[i] && !s.memTaken[j]
    requires scores[i][j] >= AUTO_ACCEPT && TieFree(scores[i], scores[i][j])
    ensures Eligible(scores, s, CONFIDENT_RULE, i, top) && scores[i][top] >= scores[i][j]
  {
    top := BestFree(scores[i], s.memTaken, j);
  }

  lemma ClaimKeepsSettled(scores: seq<seq<int>>, s: State, i: int, j: int, a: int, b: int)
    requires s.Fits(scores) && Consistent(scores, s)
    requires 0 <= i < |scores| && 0 <= j < |scores[i]|
    requires scores[i][j] >= AUTO_ACCEPT && TieFree(scores[i], scores[i][j])
    requires OpenOrSettled(scores, s, i, j)
    requires IsBestClaim(scores, s, CONFIDENT_RULE, a, b)
    ensures OpenOrSettled(scores, Claimed(scores, s, Confident, a, b), i, j)
  {
    var t := Claimed(scores, s, Confident, a, b);
    if !s.rowTaken[i] && !s.memTaken[j] {
      var top := TieFreeRowMayClaim(scores, s, i, j);
      assert scores[i][top] <= scores[a][b];
      if i == a {
        assert t.out[i].score >= scores[i][j];
      } else if j == b {
        assert t.out[a].member == j;
      }
    } else if k :| 0 <= k < |scores| && s.out[k].member == j && s.out[k].score >= scores[i][j] {
      assert t.out[k] == s.out[k];
    }
  }

  lemma {:induction false} RunKeepsSettled(scores: seq<seq<int>>, s: State, claims: seq<(int, int)>, t: State, i: int,
                                           j: int)
    requires s.Fits(scores) && Consistent(scores, s)
    requires 0 <= i < |scores| && 0 <= j < |scores[i]|
    requires scores[i][j] >= AUTO_ACCEPT && TieFree(scores[i], scores[i][j])
    requires OpenOrSettled(scores, s, i, j)
    requires IsRun(scores, CONFIDENT_RULE, Confident, s, claims, t) && t.Fits(scores)
    ensures OpenOrSettled(scores, t, i, j)
    decreases |claims|
  {
    if claims != [] {
      var (a, b) := claims[0];
      ClaimKeepsSettled(scores, s, i, j, a, b);
      ClaimKeepsConsistent(scores, s, CONFIDENT_RULE, Confident, a, b);
      RunKeepsSettled(scores, Claimed(scores, s, Confident, a, b), claims[1..], t, i, j);
    }
  }

  // A finished first pass leaves no open pair, so every such pair is settled.
  lemma FirstPassSettles(scores: seq<seq<int>>, members: nat, claims: seq<(int, int)>, t: State, i: int, j: int)
    requires Start(scores, members).Fits(scores)
    requires IsPass(scores, CONFIDENT_RULE, Confident, Start(scores, members), claims, t)
    requires 0 <= i < |scores| && 0 <= j < |scores[i]|
    requires scores[i][j] >= AUTO_ACCEPT && TieFree(scores[i], scores[i][j])
    ensures Settled(scores, t, i, j)
  {
    RunKeepsSettled(scores, Start(scores, members), claims, t, i, j);
    if !t.rowTaken[i] && !t.memTaken[j] {
      var top := TieFreeRowMayClaim(scores, t, i, j);
    }
  }

  // ---------------------------------------------- the same, read off the result

  ghost predicate Held(out: seq<Assignment>, j: int) {
    exists k :: 0 <= k < |out| && out[k].member == j
  }

  ghost predicate HeldConfidently(out: seq<Assignment>, j: int) {
    exists k :: 0 <= k < |out| && out[k].member == j && out[k].phase == Confident
  }

  ghost function HeldMask(out: seq<Assignment>, n: nat): seq<bool> {
    seq(n, j => Held(out, j))
  }

  ghost predicate IsMatching(scores: seq<seq<int>>, residual: AssignParams, out: seq<Assignment>) {
    && |out| == |scores|
    && (forall i :: 0 <= i < |out| ==> IsPlaced(scores[i], residual, out[i]))
    && (forall i, k :: 0 <= i < k < |out| && out[i].member >= 0 ==> out[i].member != out[k].member)
  }

  ghost predicate IsPlaced(row: seq<int>, residual: AssignParams, a: Assignment) {
    match a.phase
    case Unassigned => a.member == -1
    case Duplicate => a.member == -1
    case Confident => IsScored(row, a, AUTO_ACCEPT)
    case Residual => IsScored(row, a, residual.floor)
  }

  ghost predicate IsScored(row: seq<int>, a: Assignment, floor: int) {
    0 <= a.member < |row| && a.score == row[a.member] && a.score >= floor
  }

  // A row is a duplicate exactly when the first pass left it although it matches
  // a member that pass claimed.
  ghost predicate DuplicatesExact(scores: seq<seq<int>>, out: seq<Assignment>)
    requires |out| == |scores|
  {
    forall i :: 0 <= i < |out| ==>
      (out[i].phase == Duplicate <==>
       out[i].phase != Confident && exists j ::
         0 <= j < |scores[i]| && scores[i][j] >= AUTO_ACCEPT && HeldConfidently(out, j))
  }

  // No unresolved row still satisfies the residual rule over the members nobody holds.
  ghost predicate NothingLeft(scores: seq<seq<int>>, residual: AssignParams, out: seq<Assignment>)
    requires |out| == |scores|
  {
    forall i, j :: 0 <= i < |out| && out[i].phase == Unassigned ==>
      !MayClaim(scores[i], HeldMask(out, |scores[i]|), residual, j)
  }

  ghost predicate FirstPassStable(scores: seq<seq<int>>, out: seq<Assignment>)
    requires |out| == |scores|
  {
    forall i, j ::
      0 <= i < |out| && 0 <= j < |scores[i]| && scores[i][j] >= AUTO_ACCEPT && TieFree(scores[i], scores[i][j]) ==>
      StableAt(scores, out, i, j)
  }

  // Row i holds a member scoring at least as much for it as j does, or j is held
  // by a row scoring at least as much; both from the first pass.
  ghost predicate StableAt(scores: seq<seq<int>>, out: seq<Assignment>, i: int, j: int)
    requires |out| == |scores| && 0 <= i < |out| && 0 <= j < |scores[i]|
  {
    || (out[i].phase == Confident && out[i].score >= scores[i][j])
    || exists k :: 0 <= k < |out| && out[k].phase == Confident && out[k].member == j && out[k].score >= scores[i][j]
  }

  lemma StartIsConsistent(scores: seq<seq<int>>, members: nat)
    requires Start(scores, members).Fits(scores)
    ensures Consistent(scores, Start(scores, members))
  {
  }

  lemma MarkKeepsConsistent(scores: seq<seq<int>>, s: State)
    requires s.Fits(scores) && Consistent(scores, s)
    ensures Consistent(scores, MarkDuplicates(scores, s))
  {
    var d := MarkDuplicates(scores, s);
    forall i | 0 <= i < |scores|
      ensures d.out[i].member == s.out[i].member && (d.out[i] == s.out[i] || d.out[i].phase == Duplicate)
    {
    }
    forall j | 0 <= j < |d.memTaken| && d.memTaken[j]
      ensures exists i :: 0 <= i < |scores| && d.out[i].member == j
    {
      var i :| 0 <= i < |scores| && s.out[i].member == j;
      assert d.out[i].member == j;
    }
  }

  // Where each row ends, told from the state the first pass left.
  ghost predicate RowEnds(scores: seq<seq<int>>, residual: AssignParams, s: State, t: State, i: int)
    requires s.Fits(scores) && t.Fits(scores) && 0 <= i < |scores|
  {
    if s.rowTaken[i] then
      t.out[i] == s.out[i] && s.out[i].phase == Confident && IsScored(scores[i], t.out[i], AUTO_ACCEPT)
    else if Resights(scores[i], s.memTaken) then
      t.out[i] == Assignment(-1, 0, Duplicate)
    else if t.rowTaken[i] then
      t.out[i].phase == Residual && IsScored(scores[i], t.out[i], residual.floor)
    else
      t.out[i] == NOBODY
  }

  lemma RowEndsSomehow(scores: seq<seq<int>>, residual: AssignParams, members: nat, s: State, t: State, i: int)
    requires Start(scores, members).Fits(scores) && s.Fits(scores) && 0 <= i < |scores|
    requires RunChanges(scores, CONFIDENT_RULE, Confident, Start(scores, members), s)
    requires RunChanges(scores, residual, Residual, MarkDuplicates(scores, s), t)
    requires Consistent(scores, s) && Consistent(scores, t)
    ensures RowEnds(scores, residual, s, t, i)
  {
    var d := MarkDuplicates(scores, s);
    assert d.rowTaken[i] == (s.rowTaken[i] || Resights(scores[i], s.memTaken));
  }

  // The members the first pass took are those its rows hold in the end.
  lemma TakenIsHeldConfidently(scores: seq<seq<int>>, residual: AssignParams, s: State, t: State, j: int)
    requires s.Fits(scores) && t.Fits(scores) && Consistent(scores, s)
    requires EveryRowEnds(scores, residual, s, t)
    requires 0 <= j < |s.memTaken|
    ensures s.memTaken[j] <==> HeldConfidently(t.out, j)
  {
    if s.memTaken[j] {
      var k :| 0 <= k < |scores| && s.out[k].member == j;
      assert RowEnds(scores, residual, s, t, k);
    }
    if HeldConfidently(t.out, j) {
      var k :| 0 <= k < |t.out| && t.out[k].member == j && t.out[k].phase == Confident;
      assert RowEnds(scores, residual, s, t, k);
    }
  }

  // Among the columns of row i, the mask of held members is the taken mask.
  lemma HeldIsTaken(scores: seq<seq<int>>, residual: AssignParams, t: State, i: int, j: int)
    requires t.Fits(scores) && Consistent(scores, t) && 0 <= i < |scores|
    ensures MayClaim(scores[i], HeldMask(t.out, |scores[i]|), residual, j) ==>
              MayClaim(scores[i], t.memTaken, residual, j)
  {
    var mask := HeldMask(t.out, |scores[i]|);
    forall k | 0 <= k < |scores[i]| ensures mask[k] == t.memTaken[k] {
      if t.memTaken[k] {
        var r :| 0 <= r < |scores| && t.out[r].member == k;
        assert Held(t.out, k);
      }
    }
  }

  lemma DuplicateIffResighted(scores: seq<seq<int>>, residual: AssignParams, s: State, t: State, i: int)
    requires s.Fits(scores) && t.Fits(scores) && Consistent(scores, s) && 0 <= i < |scores|
    requires EveryRowEnds(scores, residual, s, t)
    ensures t.out[i].phase == Duplicate <==>
      t.out[i].phase != Confident && exists j ::
        0 <= j < |scores[i]| && scores[i][j] >= AUTO_ACCEPT && HeldConfidently(t.out, j)
  {
    assert RowEnds(scores, residual, s, t, i);
    if Resights(scores[i], s.memTaken) {
      var j :| 0 <= j < |scores[i]| && s.memTaken[j] && scores[i][j] >= AUTO_ACCEPT;
      TakenIsHeldConfidently(scores, residual, s, t, j);
    } else if j :| 0 <= j < |scores[i]| && scores[i][j] >= AUTO_ACCEPT && HeldConfidently(t.out, j) {
      TakenIsHeldConfidently(scores, residual, s, t, j);
    }
  }

  ghost predicate EveryRowEnds(scores: seq<seq<int>>, residual: AssignParams, s: State, t: State)
    requires s.Fits(scores) && t.Fits(scores)
  {
    forall i {:trigger RowEnds(scores, residual, s, t, i)} :: 0 <= i < |scores| ==> RowEnds(scores, residual, s, t, i)
  }

  // The states a run went through and what is known of them.
  lemma Replay(scores: seq<seq<int>>, residual: AssignParams, out: seq<Assignment>)
    returns (members: nat, first: seq<(int, int)>, s: State, t: State)
    requires IsOutcome(scores, residual, out)
    ensures t.out == out && s.Fits(scores) && t.Fits(scores)
    ensures Start(scores, members).Fits(scores)
    ensures IsPass(scores, CONFIDENT_RULE, Confident, Start(scores, members), first, s)
    ensures Consistent(scores, s) && Consistent(scores, t)
    ensures Exhausted(scores, t, residual) && EveryRowEnds(scores, residual, s, t)
  {
    var second;
    members, first, s, second, t :| IsAssign(scores, residual, members, first, s, second, t) && out == t.out;
    StartIsConsistent(scores, members);
    RunFacts(scores, CONFIDENT_RULE, Confident, Start(scores, members), first, s);
    MarkKeepsConsistent(scores, s);
    RunFacts(scores, residual, Residual, MarkDuplicates(scores, s), second, t);
    forall i | 0 <= i < |scores| ensures RowEnds(scores, residual, s, t, i) {
      RowEndsSomehow(scores, residual, members, s, t, i);
    }
  }

  // No member is used twice, and every match clears its own phase's floor.
  lemma OutcomeIsMatching(scores: seq<seq<int>>, residual: AssignParams, out: seq<Assignment>)
    requires IsOutcome(scores, residual, out)
    ensures IsMatching(scores, residual, out)
  {
    var members, first, s, t := Replay(scores, residual, out);
    forall i | 0 <= i < |out| ensures IsPlaced(scores[i], residual, out[i]) {
      assert RowEnds(scores, residual, s, t, i);
    }
  }

  lemma OutcomeMarksDuplicates(scores: seq<seq<int>>, residual: AssignParams, out: seq<Assignment>)
    requires IsOutcome(scores, residual, out)
    ensures |out| == |scores| && DuplicatesExact(scores, out)
  {
    var members, first, s, t := Replay(scores, residual, out);
    forall i | 0 <= i < |scores| {
      DuplicateIffResighted(scores, residual, s, t, i);
    }
  }

  // In particular a residual match never belongs to a row that matches a member
  // the first pass placed elsewhere.
  lemma ResidualIsNoResighting(scores: seq<seq<int>>, residual: AssignParams, out: seq<Assignment>, i: nat, k: nat)
    requires IsOutcome(scores, residual, out)
    requires i < |out| && out[i].phase == Residual
    requires k < |out| && out[k].phase == Confident && 0 <= out[k].member < |scores[i]|
    ensures scores[i][out[k].member] < AUTO_ACCEPT
  {
    OutcomeMarksDuplicates(scores, residual, out);
    OutcomeIsMatching(scores, residual, out);
    assert HeldConfidently(out, out[k].member);
    assert IsPlaced(scores[k], residual, out[k]);
  }

  lemma OutcomeLeavesNothing(scores: seq<seq<int>>, residual: AssignParams, out: seq<Assignment>)
    requires IsOutcome(scores, residual, out)
    ensures |out| == |scores| && NothingLeft(scores, residual, out)
  {
    var members, first, s, t := Replay(scores, residual, out);
    forall i, j | 0 <= i < |out| && out[i].phase == Unassigned
      ensures !MayClaim(scores[i], HeldMask(out, |scores[i]|), residual, j)
    {
      assert RowEnds(scores, residual, s, t, i) && !Eligible(scores, t, residual, i, j);
      HeldIsTaken(scores, residual, t, i, j);
    }
  }

  lemma OutcomeIsStable(scores: seq<seq<int>>, residual: AssignParams, out: seq<Assignment>)
    requires IsOutcome(scores, residual, out)
    ensures |out| == |scores| && FirstPassStable(scores, out)
  {
    var members, first, s, t := Replay(scores, residual, out);
    forall i, j
      | 0 <= i < |out| && 0 <= j < |scores[i]| && scores[i][j] >= AUTO_ACCEPT && TieFree(scores[i], scores[i][j])
      ensures StableAt(scores, out, i, j)
    {
      FirstPassSettles(scores, members, first, s, i, j);
      SettledIsStable(scores, residual, s, t, i, j);
    }
  }

  lemma SettledIsStable(scores: seq<seq<int>>, residual: AssignParams, s: State, t: State, i: int, j: int)
    requires s.Fits(scores) && t.Fits(scores) && Consistent(scores, s)
    requires EveryRowEnds(scores, residual, s, t)
    requires 0 <= i < |scores| && 0 <= j < |scores[i]| && Settled(scores, s, i, j)
    ensures StableAt(scores, t.out, i, j)
  {
    assert RowEnds(scores, residual, s, t, i);
    if k :| 0 <= k < |scores| && s.out[k].member == j && s.out[k].score >= scores[i][j] {
      assert RowEnds(scores, residual, s, t, k);
    }
  }

  // ------------------------------------------------------- the answer is unique

  lemma ExhaustedMeansOver(scores: seq<seq<int>>, p: AssignParams, phase: Phase, s: State, c: seq<(int, int)>, t: State)
    requires s.Fits(scores) && IsRun(scores, p, phase, s, c, t)
    ensures Exhausted(scores, s, p) ==> c == []
  {
    if c != [] {
      assert Eligible(scores, s, p, c[0].0, c[0].1);
    }
  }

  lemma {:induction false} PassIsUnique(scores: seq<seq<int>>, p: AssignParams, phase: Phase, s: State,
                                        c: seq<(int, int)>, t: State, c': seq<(int, int)>, t': State)
    requires s.Fits(scores)
    requires IsPass(scores, p, phase, s, c, t) && IsPass(scores, p, phase, s, c', t')
    ensures c == c' && t == t'
    decreases |c|
  {
    ExhaustedMeansOver(scores, p, phase, s, c, t);
    ExhaustedMeansOver(scores, p, phase, s, c', t');
    if c != [] && c' != [] {
      BestClaimIsUnique(scores, s, p, c[0].0, c[0].1, c'[0].0, c'[0].1);
      PassIsUnique(scores, p, phase, Claimed(scores, s, phase, c[0].0, c[0].1), c[1..], t, c'[1..], t');
      assert c == [c[0]] + c[1..] && c' == [c'[0]] + c'[1..];
    }
  }

  lemma BestClaimIsUnique(scores: seq<seq<int>>, s: State, p: AssignParams, i: int, j: int, i': int, j': int)
    requires s.Fits(scores) && IsBestClaim(scores, s, p, i, j) && IsBestClaim(scores, s, p, i', j')
    ensures i == i' && j == j'
  {
  }

  // The scores and the residual rule decide the outcome.
  lemma OutcomeIsUnique(scores: seq<seq<int>>, residual: AssignParams, a: seq<Assignment>, b: seq<Assignment>)
    requires IsOutcome(scores, residual, a) && IsOutcome(scores, residual, b)
    ensures a == b
  {
    var m, f, s, g, t :| IsAssign(scores, residual, m, f, s, g, t) && a == t.out;
    var m', f', s', g', t' :| IsAssign(scores, residual, m', f', s', g', t') && b == t'.out;
    assert m == m';
    AssignsAgree(scores, residual, m, f, s, g, t, f', s', g', t');
  }

  lemma AssignsAgree(scores: seq<seq<int>>, residual: AssignParams, m: nat,
                     f: seq<(int, int)>, s: State, g: seq<(int, int)>, t: State,
                     f': seq<(int, int)>, s': State, g': seq<(int, int)>, t': State)
    requires IsAssign(scores, residual, m, f, s, g, t) && IsAssign(scores, residual, m, f', s', g', t')
    ensures t == t'
  {
    PassIsUnique(scores, CONFIDENT_RULE, Confident, Start(scores, m), f, s, f', s');
    PassIsUnique(scores, residual, Residual, MarkDuplicates(scores, s), g, t, g', t');
  }

  // Tie-freedom is needed: a row scoring 95 against two members nobody else
  // wants gets neither, and both pairs stay open.
  lemma TiedRowIsRefused(out: seq<Assignment>)
    requires IsOutcome([[95, 95]], DEFAULT_RESIDUAL, out)
    ensures out == [NOBODY]
    ensures !StableAt([[95, 95]], out, 0, 0) && !StableAt([[95, 95]], out, 0, 1)
  {
    var scores := [[95, 95]];
    var m, f, s, g, t :| IsAssign(scores, DEFAULT_RESIDUAL, m, f, s, g, t) && out == t.out;
    assert |scores[0]| == 2 && m == 2;
    TiedRowCannotClaim(CONFIDENT_RULE, Start(scores, 2));
    assert f == [] && s == Start(scores, 2);
    var d := MarkDuplicates(scores, s);
    assert !Resights(scores[0], s.memTaken);
    TiedRowCannotClaim(DEFAULT_RESIDUAL, d);
    assert g == [];
  }

  lemma TiedRowCannotClaim(p: AssignParams, s: State)
    requires s.Fits([[95, 95]]) && p.margin > 0 && |s.memTaken| == 2 && !s.memTaken[0] && !s.memTaken[1]
    ensures Exhausted([[95, 95]], s, p)
  {
    var row := [95, 95];
    assert !IsClear(row, s.memTaken, 0, p.margin) by { assert row[1] == 95; }
    assert !IsClear(row, s.memTaken, 1, p.margin) by { assert row[0] == 95; }
  }
}
