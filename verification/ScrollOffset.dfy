// Measuring how far a list scrolled (internal/vision/scroll.go) and capturing it
// frame by frame (internal/tasks/scrollcapture.go).  Where a probe matches, how
// well, and whether its strip is too flat are arbitrary.
module ScrollOffset {

  const OFFSET_PROBES := 3
  const OFFSET_MIN_SCORE := 0.5
  const OFFSET_AGREE_TOL := 4

  // ----------------------------------------------------------- probe geometry

  // A region's height in pixels; a strip is 0.12 of it, rounded down.
  function StripH(regionH: nat): nat {
    12 * regionH / 100
  }

  predicate IsMeasurable(regionH: nat) {
    StripH(regionH) >= 8 && regionH >= 4 * StripH(regionH)
  }

  // The furthest travel probe p's own search window can prove.
  function Limit(regionH: nat, p: int): int {
    regionH - p * StripH(regionH) - StripH(regionH)
  }

  // What matching one strip gave: nothing if the strip is flat, else the row
  // offset of its best placement and that placement's score.
  datatype Match = Flat | Placed(offset: int, score: real)

  datatype Offset = Uncertain | Moved(px: int)

  // A placement above the probe's own row counts as no movement.
  function Travel(m: Match): int
    requires m.Placed?
  {
    if m.offset < 0 then 0 else m.offset
  }

  // Probe p can see the candidate and takes part in the vote.
  predicate IsAdmissible(regionH: nat, matches: seq<Match>, p: int, candidate: int)
    requires |matches| == OFFSET_PROBES
  {
    1 <= p < OFFSET_PROBES && Limit(regionH, p) >= 0 && matches[p].Placed? && Limit(regionH, p) >= candidate
  }

  predicate Agrees(m: Match, candidate: int)
    requires m.Placed?
  {
    -OFFSET_AGREE_TOL <= Travel(m) - candidate <= OFFSET_AGREE_TOL
  }

  // The candidate keeps a strip's headroom below probe 0's limit, every other
  // probe that can see it agrees, at least one does, and probe 0 scored enough.
  ghost predicate IsAccepted(regionH: nat, matches: seq<Match>, d: int)
    requires |matches| == OFFSET_PROBES
  {
    && IsMeasurable(regionH)
    && matches[0].Placed? && d == Travel(matches[0])
    && d <= Limit(regionH, 0) - StripH(regionH)
    && (exists p :: IsAdmissible(regionH, matches, p, d))
    && (forall p :: IsAdmissible(regionH, matches, p, d) ==> Agrees(matches[p], d))
    && matches[0].score >= OFFSET_MIN_SCORE
  }

  method Measure(regionH: nat, matches: seq<Match>) returns (r: Offset)
    requires |matches| == OFFSET_PROBES
    ensures r.Moved? ==> IsAccepted(regionH, matches, r.px)
    ensures r.Uncertain? ==> forall d :: !IsAccepted(regionH, matches, d)
  {
    if !IsMeasurable(regionH) || matches[0].Flat? {
      return Uncertain;
    }
    var candidate := Travel(matches[0]);
    if candidate > Limit(regionH, 0) - StripH(regionH) {
      return Uncertain;
    }
    var otherAdmissible, disagreements := 0, 0;
    for p := 1 to OFFSET_PROBES
      invariant otherAdmissible == 0 <==> forall k :: k < p ==> !IsAdmissible(regionH, matches, k, candidate)
      invariant disagreements == 0 <==>
        forall k :: k < p && IsAdmissible(regionH, matches, k, candidate) ==> Agrees(matches[k], candidate)
      invariant otherAdmissible >= 0 && disagreements >= 0
    {
      if IsAdmissible(regionH, matches, p, candidate) {
        otherAdmissible := otherAdmissible + 1;
        if !Agrees(matches[p], candidate) {
          disagreements := disagreements + 1;
        }
      }
    }
    if otherAdmissible == 0 || disagreements > 0 || matches[0].score < OFFSET_MIN_SCORE {
      return Uncertain;
    }
    return Moved(candidate);
  }

  // A region is measurable from 67 pixels on: its strips are then tall enough, and four of
  // them always fit.
  lemma MeasurableIff(regionH: nat)
    ensures IsMeasurable(regionH) <==> regionH >= 67
  {
  }

  // Where the probe matched, if it did, is within err of how far the list moved.
  ghost predicate IsHonest(m: Match, moved: int, err: int) {
    m.Placed? ==> -err <= Travel(m) - moved <= err
  }

  // A move that leaves room for all three strips is measured whenever every match is within
  // half the tolerance of it, the first one scores enough and one other was made at all.
  lemma HonestMoveIsMeasured(regionH: nat, matches: seq<Match>, moved: nat, err: nat)
    requires |matches| == OFFSET_PROBES && regionH >= 67 && moved + err <= regionH - 3 * StripH(regionH)
    requires 2 * err <= 4 && forall p :: 0 <= p < OFFSET_PROBES ==> IsHonest(matches[p], moved, err)
    requires matches[0].Placed? && matches[0].score >= 0.5 && (matches[1].Placed? || matches[2].Placed?)
    ensures IsAccepted(regionH, matches, Travel(matches[0]))
  {
    var d := Travel(matches[0]);
    assert IsHonest(matches[0], moved, err) && IsHonest(matches[1], moved, err) && IsHonest(matches[2], moved, err);
    assert IsAdmissible(regionH, matches, 1, d) || IsAdmissible(regionH, matches, 2, d);
  }

  // However wrong the first match is, an accepted move is off by no more than the tolerance
  // when the other matches are honest.
  lemma AcceptedIsVouchedFor(regionH: nat, matches: seq<Match>, d: int, moved: int, err: nat)
    requires |matches| == OFFSET_PROBES && IsAccepted(regionH, matches, d)
    requires forall p :: 1 <= p < OFFSET_PROBES ==> IsHonest(matches[p], moved, err)
    ensures -4 - err <= d - moved <= 4 + err
  {
    var p :| IsAdmissible(regionH, matches, p, d);
    assert IsHonest(matches[p], moved, err) && Agrees(matches[p], d);
  }

  // The furthest the list may travel with every row still photographed somewhere.
  function Usable(regionH: int, pitch: int): int {
    regionH - pitch
  }

  // What matching can return: no placement below its own probe's search window.
  ghost predicate AreMatches(regionH: nat, matches: seq<Match>) {
    && |matches| == OFFSET_PROBES
    && forall p :: 0 <= p < OFFSET_PROBES && matches[p].Placed? ==> matches[p].offset <= Limit(regionH, p)
  }

  // The overshoot check behind an accepted offset can fire exactly when a row is
  // taller than two probe strips.
  lemma OvershootReachableIff(regionH: nat, pitch: nat)
    requires IsMeasurable(regionH) && 0 < pitch < regionH
    ensures (exists matches: seq<Match>, d ::
               AreMatches(regionH, matches) && IsAccepted(regionH, matches, d) && d > Usable(regionH, pitch))
       <==> pitch > 2 * StripH(regionH)
  {
    if pitch > 2 * StripH(regionH) {
      var far := Placed(regionH - 2 * StripH(regionH), 1.0);
      var matches := [far, far, Flat];
      assert AreMatches(regionH, matches);
      assert IsAdmissible(regionH, matches, 1, far.offset);
      assert IsAccepted(regionH, matches, far.offset);
    }
  }
}
