// Row bands out of a brightness profile (internal/ingest/segment.go): the phase of
// a known pitch is locked, only boundaries in genuine gaps are trusted, and what
// lies either side of the longest trusted run is locked again on its own.
module Segment {
  import opened HeaderCards

  const PHASE_CONTRAST_FLOOR := 35.0
  const GAP_BRIGHTNESS_MARGIN := 15.0
  const MAX_RUN_RECURSION_DEPTH: nat := 1

  // ------------------------------------------------------------------ phase lock

  ghost function SumFrom(profile: seq<real>, y: nat, pitch: nat): real
    requires pitch > 0
    decreases |profile| - y
  {
    if y >= |profile| then 0.0 else profile[y] + SumFrom(profile, y + pitch, pitch)
  }

  ghost function CountFrom(profile: seq<real>, y: nat, pitch: nat): (n: nat)
    requires pitch > 0
    ensures n > 0 <==> y < |profile|
    decreases |profile| - y
  {
    if y >= |profile| then 0 else 1 + CountFrom(profile, y + pitch, pitch)
  }

  // The mean brightness of the scanlines one phase would put its gaps on.
  ghost function PhaseMean(profile: seq<real>, p: nat, pitch: nat): real
    requires pitch > 0 && p < |profile|
  {
    SumFrom(profile, p, pitch) / CountFrom(profile, p, pitch) as real
  }

  ghost predicate IsPhase(profile: seq<real>, p: int, pitch: nat) {
    0 <= p < pitch && p < |profile|
  }

  // p is the first brightest phase of those below k.
  ghost predicate IsBrightest(profile: seq<real>, p: int, pitch: nat, k: int)
    requires pitch > 0
  {
    && IsPhase(profile, p, pitch) && p < k
    && (forall q :: IsPhase(profile, q, pitch) && q < k ==>
          PhaseMean(profile, q, pitch) <= PhaseMean(profile, p, pitch))
    && (forall q :: IsPhase(profile, q, pitch) && q < p ==> PhaseMean(profile, q, pitch) < PhaseMean(profile, p, pitch))
  }

  ghost predicate IsDimmest(profile: seq<real>, p: int, pitch: nat, k: int)
    requires pitch > 0
  {
    && IsPhase(profile, p, pitch) && p < k
    && forall q :: IsPhase(profile, q, pitch) && q < k ==> PhaseMean(profile, q, pitch) >= PhaseMean(profile, p, pitch)
  }

  lemma NextBrightest(profile: seq<real>, p: int, pitch: nat, k: nat)
    requires pitch > 0 && IsBrightest(profile, p, pitch, k)
    ensures IsPhase(profile, k, pitch) && PhaseMean(profile, k, pitch) > PhaseMean(profile, p, pitch) ==>
              IsBrightest(profile, k, pitch, k + 1)
    ensures !IsPhase(profile, k, pitch) || PhaseMean(profile, k, pitch) <= PhaseMean(profile, p, pitch) ==>
              IsBrightest(profile, p, pitch, k + 1)
  {
  }

  lemma NextDimmest(profile: seq<real>, p: int, pitch: nat, k: nat)
    requires pitch > 0 && IsDimmest(profile, p, pitch, k)
    ensures IsPhase(profile, k, pitch) && PhaseMean(profile, k, pitch) < PhaseMean(profile, p, pitch) ==>
              IsDimmest(profile, k, pitch, k + 1)
    ensures !IsPhase(profile, k, pitch) || PhaseMean(profile, k, pitch) >= PhaseMean(profile, p, pitch) ==>
              IsDimmest(profile, p, pitch, k + 1)
  {
  }

  method MeanAt(profile: seq<real>, p: nat, pitch: nat) returns (mean: real, n: nat)
    requires pitch > 0 && p < |profile|
    ensures n == CountFrom(profile, p, pitch) && mean == PhaseMean(profile, p, pitch)
  {
    var sum := 0.0;
    n := 0;
    var y := p;
    while y < |profile|
      invariant sum + SumFrom(profile, y, pitch) == SumFrom(profile, p, pitch)
      invariant n + CountFrom(profile, y, pitch) == CountFrom(profile, p, pitch)
    {
      sum := sum + profile[y];
      n := n + 1;
      y := y + pitch;
    }
    mean := sum / n as real;
  }

  // The locked phase, how far it stands out, and how many scanlines it samples.
  ghost predicate IsLock(profile: seq<real>, pitch: int, phase: int, contrast: real, n: nat) {
    if pitch <= 0 || |profile| == 0 then phase == 0 && contrast == 0.0 && n == 0
    else
      && IsBrightest(profile, phase, pitch, pitch) && n == CountFrom(profile, phase, pitch)
      && exists worst :: IsDimmest(profile, worst, pitch, pitch)
                         && contrast == PhaseMean(profile, phase, pitch) - PhaseMean(profile, worst, pitch)
  }

  method PhaseLock(profile: seq<real>, pitch: int) returns (phase: int, contrast: real, n: nat)
    ensures IsLock(profile, pitch, phase, contrast, n) && contrast >= 0.0
  {
    if pitch <= 0 || |profile| == 0 {
      return 0, 0.0, 0;
    }
    var best, worst;
    best, n := MeanAt(profile, 0, pitch);
    phase, worst := 0, best;
    ghost var dimmest := 0;
    for p := 1 to pitch
      invariant IsBrightest(profile, phase, pitch, p) && best == PhaseMean(profile, phase, pitch)
      invariant IsDimmest(profile, dimmest, pitch, p) && worst == PhaseMean(profile, dimmest, pitch)
      invariant n == CountFrom(profile, phase, pitch)
    {
      NextBrightest(profile, phase, pitch, p);
      NextDimmest(profile, dimmest, pitch, p);
      if p < |profile| {
        var mean, samples := MeanAt(profile, p, pitch);
        if mean > best {
          best, phase, n := mean, p, samples;
        }
        if mean < worst {
          worst, dimmest := mean, p;
        }
      }
    }
    contrast := best - worst;
  }

  // The k-th boundary a phase proposes.
  ghost function BoundaryAt(phase: int, pitch: nat, k: nat): int {
    if k == 0 then phase else BoundaryAt(phase, pitch, k - 1) + pitch
  }

  lemma {:induction false} BoundaryIsAffine(phase: int, pitch: nat, k: nat)
    ensures BoundaryAt(phase, pitch, k) == phase + k * pitch
    decreases k
  {
    if k > 0 {
      BoundaryIsAffine(phase, pitch, k - 1);
    }
  }

  lemma {:induction false} BoundaryFromNext(phase: int, pitch: nat, k: nat)
    ensures BoundaryAt(phase + pitch, pitch, k) == BoundaryAt(phase, pitch, k + 1)
    decreases k
  {
    if k > 0 {
      BoundaryFromNext(phase, pitch, k - 1);
    }
  }

  // The samples of a phase are exactly its boundaries inside the profile.
  lemma {:induction false} SamplesAreBoundaries(profile: seq<real>, y: nat, pitch: nat, k: nat)
    requires pitch > 0
    ensures k < CountFrom(profile, y, pitch) <==> BoundaryAt(y, pitch, k) < |profile|
    decreases k
  {
    if k > 0 {
      if y < |profile| {
        SamplesAreBoundaries(profile, y + pitch, pitch, k - 1);
        BoundaryFromNext(y, pitch, k - 1);
      } else {
        SamplesAreBoundaries(profile, y, pitch, k - 1);
      }
    }
  }

  // ---------------------------------------------------------------- longest runs

  ghost predicate IsRun(confirmed: seq<bool>, start: int, len: nat) {
    0 <= start <= start + len <= |confirmed| && forall k :: start <= k < start + len ==> confirmed[k]
  }

  // No run that begins before i is longer than len.
  ghost predicate NoneLonger(confirmed: seq<bool>, len: nat, i: int) {
    forall s, l: nat {:trigger IsRun(confirmed, s, l)} :: IsRun(confirmed, s, l) && s < i ==> l <= len
  }

  // No run that begins before i is as long as len.
  ghost predicate NoneAsLong(confirmed: seq<bool>, len: nat, i: int) {
    forall s, l: nat {:trigger IsRun(confirmed, s, l)} :: IsRun(confirmed, s, l) && s < i ==> l < len
  }

  // The first of the longest runs.
  method LongestRun(confirmed: seq<bool>) returns (start: int, len: nat)
    ensures len > 0 ==> IsRun(confirmed, start, len) && NoneAsLong(confirmed, len, start)
    ensures NoneLonger(confirmed, len, |confirmed|)
  {
    start, len := -1, 0;
    var i := 0;
    while i < |confirmed|
      invariant 0 <= i <= |confirmed|
      invariant len > 0 ==> IsRun(confirmed, start, len) && NoneAsLong(confirmed, len, start)
      invariant NoneLonger(confirmed, len, i)
      decreases |confirmed| - i
    {
      if !confirmed[i] {
        assert forall l: nat :: IsRun(confirmed, i, l) && l > 0 ==> confirmed[i];
        i := i + 1;
        continue;
      }
      var j := i;
      while j < |confirmed| && confirmed[j]
        invariant i <= j <= |confirmed| && IsRun(confirmed, i, j - i)
        decreases |confirmed| - j
      {
        j := j + 1;
      }
      RunsEndAt(confirmed, i, j);
      if j - i > len {
        start, len := i, j - i;
      }
      i := j;
    }
  }

  lemma RunsEndAt(confirmed: seq<bool>, i: int, j: int)
    requires 0 <= i < j <= |confirmed| && (j < |confirmed| ==> !confirmed[j])
    ensures forall s, l: nat {:trigger IsRun(confirmed, s, l)} :: IsRun(confirmed, s, l) && i <= s < j ==> l <= j - i
  {
    forall s, l: nat | IsRun(confirmed, s, l) && i <= s < j ensures l <= j - i {
      assert forall k :: s <= k < s + l ==> confirmed[k];
    }
  }

  // --------------------------------------------------------------------- bands

  // A scanline bright enough to be trusted as a gap between two cards.
  ghost predicate IsGap(profile: seq<real>, y: int, profileMax: real) {
    0 <= y < |profile| && profile[y] >= profileMax - GAP_BRIGHTNESS_MARGIN
  }

  // One pitch tall, with a gap at either boundary.
  ghost predicate IsRow(b: Band, profile: seq<real>, pitch: int, profileMax: real) {
    b.y1 == b.y0 + pitch && IsGap(profile, b.y0, profileMax) && IsGap(profile, b.y1, profileMax)
  }

  predicate Misses(a: Band, b: Band) {
    Clears(a, b) || Clears(b, a)
  }

  ghost predicate AreDisjoint(bands: seq<Band>) {
    forall j, k {:trigger Misses(bands[j], bands[k])} :: 0 <= j < k < |bands| ==> Misses(bands[j], bands[k])
  }

  ghost predicate AreRows(bands: seq<Band>, profile: seq<real>, pitch: int, profileMax: real) {
    forall k :: 0 <= k < |bands| ==> IsRow(bands[k], profile, pitch, profileMax)
  }

  ghost predicate LieWithin(bands: seq<Band>, lo: int, hi: int) {
    forall k :: 0 <= k < |bands| ==> lo <= bands[k].y0 && bands[k].y1 <= hi
  }

  // l gaps in a row at one phase, from its j-th boundary on.
  ghost predicate IsChain(profile: seq<real>, phase: int, pitch: nat, profileMax: real, j: nat, l: nat) {
    forall k {:trigger BoundaryAt(phase, pitch, k)} :: j <= k < j + l ==>
      IsGap(profile, BoundaryAt(phase, pitch, k), profileMax)
  }

  lemma JoinDisjoint(a: seq<Band>, b: seq<Band>, lo: int, mid: int, hi: int)
    requires AreDisjoint(a) && AreDisjoint(b)
    requires (LieWithin(a, lo, mid) && LieWithin(b, mid, hi)) || (LieWithin(a, mid, hi) && LieWithin(b, lo, mid))
    ensures AreDisjoint(a + b)
  {
    var c := a + b;
    forall j, k | 0 <= j < k < |c| ensures Misses(c[j], c[k]) {
      if k < |a| {
        assert Misses(a[j], a[k]);
      } else if j >= |a| {
        assert Misses(b[j - |a|], b[k - |a|]);
      }
    }
  }

  // The boundaries one phase proposes, and which of them are gaps.
  ghost predicate AreBoundaries(ys: seq<int>, confirmed: seq<bool>, profile: seq<real>, phase: int, pitch: nat,
                                profileMax: real) {
    && |ys| == |confirmed|
    && (forall k {:trigger ys[k]} :: 0 <= k < |ys| ==> ys[k] == BoundaryAt(phase, pitch, k) && 0 <= ys[k] < |profile|)
    && forall k {:trigger confirmed[k]} :: 0 <= k < |ys| ==> confirmed[k] == IsGap(profile, ys[k], profileMax)
  }

  method Boundaries(profile: seq<real>, phase: nat, pitch: nat, n: nat, profileMax: real)
    returns (ys: seq<int>, confirmed: seq<bool>)
    requires pitch > 0 && n == CountFrom(profile, phase, pitch)
    ensures |ys| == n && AreBoundaries(ys, confirmed, profile, phase, pitch, profileMax)
  {
    ys, confirmed := [], [];
    for k := 0 to n
      invariant |ys| == k && AreBoundaries(ys, confirmed, profile, phase, pitch, profileMax)
    {
      var y := phase + k * pitch;
      BoundaryIsAffine(phase, pitch, k);
      SamplesAreBoundaries(profile, phase, pitch, k);
      if y >= |profile| {
        break;
      }
      ys, confirmed := ys + [y], confirmed + [profile[y] >= profileMax - GAP_BRIGHTNESS_MARGIN];
    }
  }

  // The first of the longest runs of gaps at one phase: main rows, from its j-th
  // boundary on.
  ghost predicate IsMainRun(profile: seq<real>, phase: int, pitch: nat, profileMax: real, j: nat, main: nat) {
    && main > 0 && IsChain(profile, phase, pitch, profileMax, j, main + 1)
    && (forall i: nat, l: nat {:trigger IsChain(profile, phase, pitch, profileMax, i, l)} ::
          IsChain(profile, phase, pitch, profileMax, i, l) ==> l <= main + 1 && (i < j ==> l <= main))
  }

  // No two gaps in a row.
  ghost predicate HasNoRun(profile: seq<real>, phase: int, pitch: nat, profileMax: real) {
    forall i: nat, l: nat {:trigger IsChain(profile, phase, pitch, profileMax, i, l)} ::
      IsChain(profile, phase, pitch, profileMax, i, l) ==> l <= 1
  }

  // How a stretch of the profile was cut up: not searched at all; searched, and locked
  // to a phase that holds no rows; or a main run, with what was found on either side.
  datatype Cut =
    | Unsearched
    | Blank(phase: int, contrast: real, n: nat)
    | Run(phase: int, contrast: real, n: nat, first: nat, main: nat, above: Cut, below: Cut)

  // The first scanline of a cut's main run, and the last.
  ghost function StartOf(c: Cut, pitch: nat): int
    requires c.Run?
  {
    BoundaryAt(c.phase, pitch, c.first)
  }

  ghost function EndOf(c: Cut, pitch: nat): int
    requires c.Run?
  {
    BoundaryAt(c.phase, pitch, c.first + c.main)
  }

  // Locked, and without enough contrast, samples or gaps for a row.
  ghost predicate IsBlank(c: Cut, profile: seq<real>, pitch: nat, profileMax: real)
    requires c.Blank?
  {
    && IsLock(profile, pitch, c.phase, c.contrast, c.n)
    && (c.contrast < PHASE_CONTRAST_FLOOR || c.n < 2 || HasNoRun(profile, c.phase, pitch, profileMax))
  }

  ghost predicate IsLocked(c: Cut, profile: seq<real>, pitch: nat, profileMax: real)
    requires c.Run?
  {
    && IsLock(profile, pitch, c.phase, c.contrast, c.n) && c.contrast >= PHASE_CONTRAST_FLOOR && c.n >= 2
    && IsMainRun(profile, c.phase, pitch, profileMax, c.first, c.main)
    && 0 <= StartOf(c, pitch) <= EndOf(c, pitch) < |profile|
  }

  // The stretch is locked to its own phase, its main run is the first longest there, and
  // each leftover a pitch tall is cut up in the same way, while there is depth left.
  ghost predicate IsCut(c: Cut, profile: seq<real>, pitch: nat, profileMax: real, depth: nat)
    decreases depth, 1
  {
    match c
    case Unsearched => false
    case Blank(_, _, _) => IsBlank(c, profile, pitch, profileMax)
    case Run(_, _, _, _, _, above, below) =>
      && IsLocked(c, profile, pitch, profileMax)
      && IsLeftover(above, profile[..StartOf(c, pitch)], pitch, profileMax, depth)
      && IsLeftover(below, profile[EndOf(c, pitch)..], pitch, profileMax, depth)
  }

  ghost predicate IsLeftover(c: Cut, profile: seq<real>, pitch: nat, profileMax: real, depth: nat)
    decreases depth, 0
  {
    if depth > 0 && |profile| >= pitch then IsCut(c, profile, pitch, profileMax, depth - 1) else c == Unsearched
  }

  ghost function RunFrom(phase: int, pitch: nat, j: nat, main: nat): (bands: seq<Band>)
    ensures |bands| == main
    ensures forall k {:trigger bands[k]} :: 0 <= k < main ==>
              bands[k] == Band(BoundaryAt(phase, pitch, j + k), BoundaryAt(phase, pitch, j + k + 1))
  {
    if main == 0 then []
    else
      RunFrom(phase, pitch, j, main - 1) +
      [Band(BoundaryAt(phase, pitch, j + main - 1), BoundaryAt(phase, pitch, j + main))]
  }

  // The main run end to end, then what the leftovers hold, moved to where they lie.
  ghost function BandsOf(c: Cut, pitch: nat): seq<Band> {
    if !c.Run? then []
    else
      RunFrom(c.phase, pitch, c.first, c.main) + BandsOf(c.above, pitch) +
      Shifted(BandsOf(c.below, pitch), EndOf(c, pitch))
  }

  lemma ChainsAreRuns(ys: seq<int>, confirmed: seq<bool>, profile: seq<real>, phase: nat, pitch: nat, profileMax: real,
                      j: nat, l: nat)
    requires pitch > 0 && AreBoundaries(ys, confirmed, profile, phase, pitch, profileMax) &&
             |ys| == CountFrom(profile, phase, pitch)
    requires IsChain(profile, phase, pitch, profileMax, j, l) && l > 0
    ensures IsRun(confirmed, j, l)
  {
    var last := j + l - 1;
    assert IsGap(profile, BoundaryAt(phase, pitch, last), profileMax);
    SamplesAreBoundaries(profile, phase, pitch, last);
    forall k | j <= k < j + l ensures confirmed[k] {
      assert ys[k] == BoundaryAt(phase, pitch, k);
    }
  }

  // The bands between consecutive boundaries of a run.
  method BandsOfRun(ys: seq<int>, confirmed: seq<bool>, profile: seq<real>, phase: nat, pitch: nat, profileMax: real,
                    start: nat, len: nat)
    returns (bands: seq<Band>)
    requires pitch > 0 && AreBoundaries(ys, confirmed, profile, phase, pitch, profileMax)
    requires len >= 2 && IsRun(confirmed, start, len)
    ensures AreRows(bands, profile, pitch, profileMax) && AreDisjoint(bands)
    ensures bands == RunFrom(phase, pitch, start, len - 1)
    ensures ys[start] <= ys[start + len - 1] && LieWithin(bands, ys[start], ys[start + len - 1])
  {
    bands := [];
    for k := start to start + len - 1
      invariant AreRows(bands, profile, pitch, profileMax) && AreDisjoint(bands)
      invariant bands == RunFrom(phase, pitch, start, k - start)
      invariant ys[start] <= ys[k] && LieWithin(bands, ys[start], ys[k])
    {
      var b := Band(ys[k], ys[k + 1]);
      RowBetween(ys, confirmed, profile, phase, pitch, profileMax, k);
      JoinDisjoint(bands, [b], ys[start], ys[k], ys[k + 1]);
      bands := bands + [b];
    }
  }

  lemma RowBetween(ys: seq<int>, confirmed: seq<bool>, profile: seq<real>, phase: nat, pitch: nat, profileMax: real,
                   k: nat)
    requires pitch > 0 && AreBoundaries(ys, confirmed, profile, phase, pitch, profileMax)
    requires k + 1 < |ys| && confirmed[k] && confirmed[k + 1]
    ensures IsRow(Band(ys[k], ys[k + 1]), profile, pitch, profileMax) && ys[k] < ys[k + 1]
  {
    assert BoundaryAt(phase, pitch, k + 1) == BoundaryAt(phase, pitch, k) + pitch;
  }

  function Shifted(bands: seq<Band>, d: int): (r: seq<Band>)
    ensures |r| == |bands| && forall k :: 0 <= k < |r| ==> r[k] == Band(bands[k].y0 + d, bands[k].y1 + d)
  {
    if bands == [] then []
    else Shifted(bands[..|bands| - 1], d) + [Band(bands[|bands| - 1].y0 + d, bands[|bands| - 1].y1 + d)]
  }

  // Bands found in a slice of the profile are bands of the profile, moved along.
  lemma ShiftedRows(bands: seq<Band>, profile: seq<real>, lo: nat, hi: nat, pitch: nat, profileMax: real)
    requires lo <= hi <= |profile| && AreRows(bands, profile[lo..hi], pitch, profileMax) && AreDisjoint(bands)
    ensures AreRows(Shifted(bands, lo), profile, pitch, profileMax) && AreDisjoint(Shifted(bands, lo))
    ensures LieWithin(Shifted(bands, lo), lo, hi)
  {
    forall k | 0 <= k < |bands| ensures IsRow(Shifted(bands, lo)[k], profile, pitch, profileMax) {
      assert IsRow(bands[k], profile[lo..hi], pitch, profileMax);
    }
    forall j, k | 0 <= j < k < |bands| ensures Misses(Shifted(bands, lo)[j], Shifted(bands, lo)[k]) {
      assert Misses(bands[j], bands[k]);
    }
  }

  // Rows of the main run, then those above it, then those below.
  lemma JoinRows(run: seq<Band>, above: seq<Band>, below: seq<Band>, profile: seq<real>, pitch: nat, profileMax: real,
                 before: int, after: int)
    requires AreRows(run, profile, pitch, profileMax) && AreRows(above, profile, pitch, profileMax) &&
             AreRows(below, profile, pitch, profileMax)
    requires AreDisjoint(run) && AreDisjoint(above) && AreDisjoint(below) && before <= after
    requires LieWithin(above, 0, before) && LieWithin(run, before, after) && LieWithin(below, after, |profile|)
    ensures AreRows(run + above + below, profile, pitch, profileMax) && AreDisjoint(run + above + below)
  {
    JoinDisjoint(run, above, 0, before, after);
    JoinDisjoint(run + above, below, 0, after, |profile|);
  }

  // The leftover above the main run, locked again on its own.
  method CollectAbove(profile: seq<real>, before: nat, pitch: nat, profileMax: real, depth: nat)
    returns (above: seq<Band>, ghost cut: Cut)
    requires pitch > 0 && before <= |profile| && depth > 0
    ensures AreRows(above, profile, pitch, profileMax) && AreDisjoint(above) && LieWithin(above, 0, before)
    ensures above == BandsOf(cut, pitch)
    ensures IsLeftover(cut, profile[..before], pitch, profileMax, depth)
    decreases depth, 0
  {
    above, cut := [], Unsearched;
    if before >= pitch {
      above, cut := CollectBands(profile[..before], pitch, profileMax, depth - 1);
      assert profile[0..before] == profile[..before];
      ShiftedRows(above, profile, 0, before, pitch, profileMax);
      assert Shifted(above, 0) == above;
    }
  }

  // The leftover below it, moved back to where it was cut from.
  method CollectBelow(profile: seq<real>, after: nat, pitch: nat, profileMax: real, depth: nat)
    returns (below: seq<Band>, ghost cut: Cut)
    requires pitch > 0 && after <= |profile| && depth > 0
    ensures AreRows(below, profile, pitch, profileMax) && AreDisjoint(below) && LieWithin(below, after, |profile|)
    ensures below == Shifted(BandsOf(cut, pitch), after)
    ensures IsLeftover(cut, profile[after..], pitch, profileMax, depth)
    decreases depth, 0
  {
    below, cut := [], Unsearched;
    if |profile| - after >= pitch {
      var found;
      found, cut := CollectBands(profile[after..], pitch, profileMax, depth - 1);
      assert profile[after..|profile|] == profile[after..];
      ShiftedRows(found, profile, after, |profile|, pitch, profileMax);
      below := Shifted(found, after);
    }
  }

  // Both leftovers, while there is depth left.
  method CollectSides(profile: seq<real>, before: nat, after: nat, pitch: nat, profileMax: real, depth: nat)
    returns (above: seq<Band>, below: seq<Band>, ghost cutAbove: Cut, ghost cutBelow: Cut)
    requires pitch > 0 && before <= |profile| && after <= |profile|
    ensures AreRows(above, profile, pitch, profileMax) && AreDisjoint(above) && LieWithin(above, 0, before)
    ensures AreRows(below, profile, pitch, profileMax) && AreDisjoint(below) && LieWithin(below, after, |profile|)
    ensures IsLeftover(cutAbove, profile[..before], pitch, profileMax, depth)
    ensures IsLeftover(cutBelow, profile[after..], pitch, profileMax, depth)
    ensures above == BandsOf(cutAbove, pitch) && below == Shifted(BandsOf(cutBelow, pitch), after)
    decreases depth, 1
  {
    above, below, cutAbove, cutBelow := [], [], Unsearched, Unsearched;
    if depth > 0 {
      above, cutAbove := CollectAbove(profile, before, pitch, profileMax, depth);
      below, cutBelow := CollectBelow(profile, after, pitch, profileMax, depth);
    }
  }

  // The main run among the boundaries is the main run of the profile.
  lemma RunIsMain(ys: seq<int>, confirmed: seq<bool>, profile: seq<real>, phase: nat, pitch: nat, profileMax: real,
                  start: nat, len: nat)
    requires pitch > 0 && AreBoundaries(ys, confirmed, profile, phase, pitch, profileMax)
    requires |ys| == CountFrom(profile, phase, pitch) && len >= 2 && IsRun(confirmed, start, len)
    requires NoneLonger(confirmed, len, |confirmed|) && NoneAsLong(confirmed, len, start)
    ensures IsMainRun(profile, phase, pitch, profileMax, start, len - 1)
  {
    forall k {:trigger BoundaryAt(phase, pitch, k)} | start <= k < start + len
      ensures IsGap(profile, BoundaryAt(phase, pitch, k), profileMax)
    {
      assert confirmed[k] && ys[k] == BoundaryAt(phase, pitch, k);
    }
    forall i: nat, l: nat {:trigger IsChain(profile, phase, pitch, profileMax, i, l)}
      | IsChain(profile, phase, pitch, profileMax, i, l) && l > 0
      ensures l <= len && (i < start ==> l < len)
    {
      ChainsAreRuns(ys, confirmed, profile, phase, pitch, profileMax, i, l);
    }
  }

  lemma NoRunNoChain(ys: seq<int>, confirmed: seq<bool>, profile: seq<real>, phase: nat, pitch: nat, profileMax: real,
                     len: nat)
    requires pitch > 0 && AreBoundaries(ys, confirmed, profile, phase, pitch, profileMax)
    requires |ys| == CountFrom(profile, phase, pitch) && len < 2 && NoneLonger(confirmed, len, |confirmed|)
    ensures HasNoRun(profile, phase, pitch, profileMax)
  {
    forall i: nat, l: nat {:trigger IsChain(profile, phase, pitch, profileMax, i, l)}
      | IsChain(profile, phase, pitch, profileMax, i, l) && l > 0
      ensures l <= 1
    {
      ChainsAreRuns(ys, confirmed, profile, phase, pitch, profileMax, i, l);
    }
  }

  // The main run of one locked stretch, or that it has none.
  method MainRun(profile: seq<real>, locked: nat, contrast: real, n: nat, pitch: nat, profileMax: real)
    returns (run: seq<Band>, ghost first: nat, before: nat, after: nat)
    requires pitch > 0 && n == CountFrom(profile, locked, pitch)
    ensures run == [] ==> HasNoRun(profile, locked, pitch, profileMax)
    ensures run != [] ==>
      && run == RunFrom(locked, pitch, first, |run|) && IsMainRun(profile, locked, pitch, profileMax, first, |run|)
      && before == BoundaryAt(locked, pitch, first) && after == BoundaryAt(locked, pitch, first + |run|)
      && before <= after < |profile| && LieWithin(run, before, after)
    ensures AreRows(run, profile, pitch, profileMax) && AreDisjoint(run)
  {
    var ys, confirmed := Boundaries(profile, locked, pitch, n, profileMax);
    var bestStart, bestLen := LongestRun(confirmed);
    run, first, before, after := [], 0, 0, 0;
    if bestLen < 2 {
      NoRunNoChain(ys, confirmed, profile, locked, pitch, profileMax, bestLen);
      return;
    }
    RunIsMain(ys, confirmed, profile, locked, pitch, profileMax, bestStart, bestLen);
    run := BandsOfRun(ys, confirmed, profile, locked, pitch, profileMax, bestStart, bestLen);
    first, before, after := bestStart, ys[bestStart], ys[bestStart + bestLen - 1];
  }

  method CollectBands(profile: seq<real>, pitch: nat, profileMax: real, depth: nat)
    returns (bands: seq<Band>, ghost cut: Cut)
    requires pitch > 0
    ensures AreRows(bands, profile, pitch, profileMax) && AreDisjoint(bands)
    ensures IsCut(cut, profile, pitch, profileMax, depth) && bands == BandsOf(cut, pitch)
    decreases depth, 3
  {
    var locked, contrast, n := PhaseLock(profile, pitch);
    bands, cut := [], Blank(locked, contrast, n);
    if contrast < PHASE_CONTRAST_FLOOR || n < 2 {
      return;
    }
    var run, first, before, after := MainRun(profile, locked, contrast, n, pitch, profileMax);
    if run == [] {
      return;
    }
    cut := Run(locked, contrast, n, first, |run|, Unsearched, Unsearched);
    bands, cut := CollectAround(profile, run, before, after, pitch, profileMax, depth, cut);
  }

  // A main run with what lies on either side of it.
  method CollectAround(profile: seq<real>, run: seq<Band>, before: nat, after: nat, pitch: nat, profileMax: real,
                       depth: nat, ghost bare: Cut)
    returns (bands: seq<Band>, ghost cut: Cut)
    requires pitch > 0 && bare.Run? && IsLocked(bare, profile, pitch, profileMax)
    requires run == RunFrom(bare.phase, pitch, bare.first, bare.main)
    requires before == StartOf(bare, pitch) && after == EndOf(bare, pitch) && before <= after < |profile|
    requires AreRows(run, profile, pitch, profileMax) && AreDisjoint(run) && LieWithin(run, before, after)
    ensures AreRows(bands, profile, pitch, profileMax) && AreDisjoint(bands)
    ensures IsCut(cut, profile, pitch, profileMax, depth) && bands == BandsOf(cut, pitch)
    decreases depth, 2
  {
    var above, below, cutAbove, cutBelow := CollectSides(profile, before, after, pitch, profileMax, depth);
    JoinRows(run, above, below, profile, pitch, profileMax, before, after);
    bands := run + above + below;
    cut := bare.(above := cutAbove, below := cutBelow);
    JoinCut(bare, cutAbove, cutBelow, run, profile, before, after, pitch, profileMax, depth);
  }

  lemma JoinCut(bare: Cut, above: Cut, below: Cut, run: seq<Band>, profile: seq<real>, before: nat, after: nat,
                pitch: nat, profileMax: real, depth: nat)
    requires bare.Run? && IsLocked(bare, profile, pitch, profileMax)
    requires before == StartOf(bare, pitch) && after == EndOf(bare, pitch) && before <= after <= |profile|
    requires IsLeftover(above, profile[..before], pitch, profileMax, depth)
    requires IsLeftover(below, profile[after..], pitch, profileMax, depth)
    requires run == RunFrom(bare.phase, pitch, bare.first, bare.main)
    ensures var c := bare.(above := above, below := below);
      && IsCut(c, profile, pitch, profileMax, depth)
      && BandsOf(c, pitch) == run + BandsOf(above, pitch) + Shifted(BandsOf(below, pitch), after)
  {
    var c := bare.(above := above, below := below);
    assert StartOf(c, pitch) == before && EndOf(c, pitch) == after;
    assert IsLocked(c, profile, pitch, profileMax);
  }

  // ------------------------------------------------------------- what was searched

  lemma MainRunIsUnique(profile: seq<real>, phase: int, pitch: nat, profileMax: real, i: nat, l: nat, j: nat, m: nat)
    requires IsMainRun(profile, phase, pitch, profileMax, i, l) && IsMainRun(profile, phase, pitch, profileMax, j, m)
    ensures i == j && l == m
  {
    assert IsChain(profile, phase, pitch, profileMax, i, l + 1) && IsChain(profile, phase, pitch, profileMax, j, m + 1);
  }

  lemma MainRunIsARun(profile: seq<real>, phase: int, pitch: nat, profileMax: real, j: nat, main: nat)
    requires IsMainRun(profile, phase, pitch, profileMax, j, main)
    ensures !HasNoRun(profile, phase, pitch, profileMax)
  {
    assert IsChain(profile, phase, pitch, profileMax, j, main + 1);
  }

  // Two cuts of one stretch lock alike, and have the same main run or none.
  lemma CutsLockAlike(c: Cut, d: Cut, profile: seq<real>, pitch: nat, profileMax: real, depth: nat)
    requires pitch > 0 && IsCut(c, profile, pitch, profileMax, depth) && IsCut(d, profile, pitch, profileMax, depth)
    ensures c.phase == d.phase && c.contrast == d.contrast && c.n == d.n && c.Run? == d.Run?
    ensures c.Run? ==> c.first == d.first && c.main == d.main
  {
    LockIsUnique(profile, pitch, c.phase, c.contrast, c.n, d.phase, d.contrast, d.n);
    if c.Run? {
      MainRunIsARun(profile, c.phase, pitch, profileMax, c.first, c.main);
    }
    if d.Run? {
      MainRunIsARun(profile, d.phase, pitch, profileMax, d.first, d.main);
    }
    if c.Run? && d.Run? {
      MainRunIsUnique(profile, c.phase, pitch, profileMax, c.first, c.main, d.first, d.main);
    }
  }

  // There is one way to cut up a profile, so its rows are decided.
  lemma {:induction false} CutIsUnique(c: Cut, d: Cut, profile: seq<real>, pitch: nat, profileMax: real, depth: nat)
    requires pitch > 0 && IsCut(c, profile, pitch, profileMax, depth) && IsCut(d, profile, pitch, profileMax, depth)
    ensures c == d
    decreases depth, 1
  {
    CutsLockAlike(c, d, profile, pitch, profileMax, depth);
    if c.Run? {
      LeftoverIsUnique(c.above, d.above, profile[..StartOf(c, pitch)], pitch, profileMax, depth);
      LeftoverIsUnique(c.below, d.below, profile[EndOf(c, pitch)..], pitch, profileMax, depth);
    }
  }

  lemma {:induction false} LeftoverIsUnique(c: Cut, d: Cut, profile: seq<real>, pitch: nat, profileMax: real,
                                            depth: nat)
    requires pitch > 0
    requires IsLeftover(c, profile, pitch, profileMax, depth) && IsLeftover(d, profile, pitch, profileMax, depth)
    ensures c == d
    decreases depth, 0
  {
    if depth > 0 && |profile| >= pitch {
      CutIsUnique(c, d, profile, pitch, profileMax, depth - 1);
    }
  }

  // Every band has some height and lies between these scanlines.
  ghost predicate LieInside(bands: seq<Band>, lo: int, hi: int) {
    forall b {:trigger b in bands} :: b in bands ==> lo <= b.y0 < b.y1 <= hi
  }

  lemma {:induction false} BoundariesRise(phase: int, pitch: nat, i: nat, k: nat)
    requires i <= k
    ensures BoundaryAt(phase, pitch, i) <= BoundaryAt(phase, pitch, k)
    decreases k
  {
    if i < k {
      BoundariesRise(phase, pitch, i, k - 1);
    }
  }

  lemma RunLiesInside(phase: int, pitch: nat, j: nat, main: nat)
    requires pitch > 0
    ensures LieInside(RunFrom(phase, pitch, j, main), BoundaryAt(phase, pitch, j), BoundaryAt(phase, pitch, j + main))
  {
    var run := RunFrom(phase, pitch, j, main);
    forall b | b in run ensures BoundaryAt(phase, pitch, j) <= b.y0 < b.y1 <= BoundaryAt(phase, pitch, j + main) {
      var k :| 0 <= k < main && run[k] == b;
      BoundariesRise(phase, pitch, j, j + k);
      BoundariesRise(phase, pitch, j + k + 1, j + main);
    }
  }

  lemma ShiftedHolds(bands: seq<Band>, d: int, b: Band)
    ensures b in Shifted(bands, d) <==> Band(b.y0 - d, b.y1 - d) in bands
  {
    if k :| 0 <= k < |bands| && bands[k] == Band(b.y0 - d, b.y1 - d) {
      assert Shifted(bands, d)[k] == b;
    }
  }

  lemma ShiftedLieInside(bands: seq<Band>, lo: int, hi: int, d: int)
    requires LieInside(bands, lo, hi)
    ensures LieInside(Shifted(bands, d), lo + d, hi + d)
  {
    forall b | b in Shifted(bands, d) ensures lo + d <= b.y0 < b.y1 <= hi + d {
      ShiftedHolds(bands, d, b);
      assert Band(b.y0 - d, b.y1 - d) in bands;
    }
  }

  // A cut's bands lie inside the stretch it cuts up.
  lemma {:induction false} BandsLieInside(c: Cut, profile: seq<real>, pitch: nat, profileMax: real, depth: nat)
    requires pitch > 0 && IsCut(c, profile, pitch, profileMax, depth)
    ensures LieInside(BandsOf(c, pitch), 0, |profile|)
    decreases depth, 2
  {
    if c.Run? {
      PartsLieInside(c, profile, pitch, profileMax, depth);
    }
  }

  lemma {:induction false} LeftoverLiesInside(c: Cut, profile: seq<real>, pitch: nat, profileMax: real, depth: nat)
    requires pitch > 0 && IsLeftover(c, profile, pitch, profileMax, depth)
    ensures LieInside(BandsOf(c, pitch), 0, |profile|)
    decreases depth, 0
  {
    if depth > 0 && |profile| >= pitch {
      BandsLieInside(c, profile, pitch, profileMax, depth - 1);
    }
  }

  // The main run, and what either leftover holds, each on its own side.
  lemma {:induction false} PartsLieInside(c: Cut, profile: seq<real>, pitch: nat, profileMax: real, depth: nat)
    requires pitch > 0 && c.Run? && IsCut(c, profile, pitch, profileMax, depth)
    ensures 0 <= StartOf(c, pitch) <= EndOf(c, pitch) < |profile|
    ensures LieInside(RunFrom(c.phase, pitch, c.first, c.main), StartOf(c, pitch), EndOf(c, pitch))
    ensures LieInside(BandsOf(c.above, pitch), 0, StartOf(c, pitch))
    ensures LieInside(Shifted(BandsOf(c.below, pitch), EndOf(c, pitch)), EndOf(c, pitch), |profile|)
    decreases depth, 1
  {
    var start, end := StartOf(c, pitch), EndOf(c, pitch);
    RunLiesInside(c.phase, pitch, c.first, c.main);
    LeftoverLiesInside(c.above, profile[..start], pitch, profileMax, depth);
    LeftoverLiesInside(c.below, profile[end..], pitch, profileMax, depth);
    ShiftedLieInside(BandsOf(c.below, pitch), 0, |profile| - end, end);
  }

  // The rows above a main run are those of the leftover there, cut up on its own, and the
  // rows below it those of the other.
  lemma LeftoversAreSearched(c: Cut, profile: seq<real>, pitch: nat, profileMax: real, depth: nat, b: Band)
    requires pitch > 0 && IsCut(c, profile, pitch, profileMax, depth) && c.Run?
    ensures var start, end := StartOf(c, pitch), EndOf(c, pitch);
      && IsLeftover(c.above, profile[..start], pitch, profileMax, depth)
      && IsLeftover(c.below, profile[end..], pitch, profileMax, depth)
      && (b in BandsOf(c, pitch) && b.y1 <= start <==> b in BandsOf(c.above, pitch))
      && (b in BandsOf(c, pitch) && b.y0 >= end <==> Band(b.y0 - end, b.y1 - end) in BandsOf(c.below, pitch))
  {
    PartsLieInside(c, profile, pitch, profileMax, depth);
    ShiftedHolds(BandsOf(c.below, pitch), EndOf(c, pitch), b);
  }

  // ------------------------------------------------------------------- the region

  ghost predicate IsMaxOf(m: real, xs: seq<real>) {
    m in xs && forall k :: 0 <= k < |xs| ==> xs[k] <= m
  }

  method SliceMax(xs: seq<real>) returns (m: real)
    requires |xs| > 0
    ensures IsMaxOf(m, xs)
  {
    m := xs[0];
    for i := 0 to |xs|
      invariant m in xs && forall k :: 0 <= k < i ==> xs[k] <= m
    {
      if xs[i] > m {
        m := xs[i];
      }
    }
  }

  lemma {:induction false} HasMax(xs: seq<real>) returns (m: real)
    requires |xs| > 0
    ensures IsMaxOf(m, xs)
    decreases |xs|
  {
    var n := |xs| - 1;
    m := xs[n];
    if n > 0 {
      var before := HasMax(xs[..n]);
      assert before in xs[..n] && before in xs;
      assert forall k :: 0 <= k < n ==> xs[k] == xs[..n][k];
      if before > m {
        m := before;
      }
    }
  }

  // A pitch that would explain the profile, of those within reach of the expected one.
  ghost predicate IsCandidate(p: int, expected: nat) {
    (if expected * 3 / 4 < 1 then 1 else expected * 3 / 4) <= p <= expected * 3 / 2
  }

  // Contrast scaled by the square root of the sample count, squared: nothing here is negative.
  function Fit(contrast: real, n: nat): real {
    contrast * contrast * n as real
  }

  // Comparing fits is comparing contrasts times the roots of the sample counts.
  lemma FitOrdersByRoot(c: real, n: nat, r: real, d: real, m: nat, s: real)
    requires c >= 0.0 && d >= 0.0 && r >= 0.0 && s >= 0.0 && r * r == n as real && s * s == m as real
    ensures Fit(c, n) > Fit(d, m) <==> c * r > d * s
  {
    assert Fit(c, n) == (c * r) * (c * r) by {
      Regroup(c, r);
    }
    assert Fit(d, m) == (d * s) * (d * s) by {
      Regroup(d, s);
    }
    SquaresOrder(c * r, d * s);
  }

  lemma Regroup(c: real, r: real)
    ensures c * c * (r * r) == (c * r) * (c * r)
  {
  }

  lemma SquareGrows(x: real, y: real)
    requires 0.0 <= x < y
    ensures x * x < y * y
  {
    var d := y - x;
    assert y * y == x * x + d * (x + y);
    assert d * (x + y) > 0.0;
  }

  lemma SquaresOrder(x: real, y: real)
    requires x >= 0.0 && y >= 0.0
    ensures x * x > y * y <==> x > y
  {
    if x > y {
      SquareGrows(y, x);
    } else if x < y {
      SquareGrows(x, y);
    }
  }

  lemma LockIsUnique(profile: seq<real>, pitch: int, p: int, c: real, n: nat, q: int, d: real, m: nat)
    requires IsLock(profile, pitch, p, c, n) && IsLock(profile, pitch, q, d, m)
    ensures p == q && c == d && n == m
  {
    if pitch > 0 && |profile| > 0 {
      assert IsPhase(profile, p, pitch) && IsPhase(profile, q, pitch);
    }
  }

  // No candidate below k with two samples separates better than fit.
  ghost predicate NoneFitsBetter(profile: seq<real>, expected: nat, k: int, fit: real) {
    forall p, phase, c, n {:trigger IsLock(profile, p, phase, c, n)} ::
      IsCandidate(p, expected) && p < k && n >= 2 && IsLock(profile, p, phase, c, n) ==> Fit(c, n) <= fit
  }

  // No candidate below k with two samples separates as well as fit.
  ghost predicate NoneFitsAsWell(profile: seq<real>, expected: nat, k: int, fit: real) {
    forall p, phase, c, n {:trigger IsLock(profile, p, phase, c, n)} ::
      IsCandidate(p, expected) && p < k && n >= 2 && IsLock(profile, p, phase, c, n) ==> Fit(c, n) < fit
  }

  // Locked at phase over n samples, the pitch is the first to separate best of those below k.
  ghost predicate IsFirstBest(profile: seq<real>, expected: nat, k: int, pitch: int, contrast: real, phase: int,
                              n: nat) {
    && IsLock(profile, pitch, phase, contrast, n) && n >= 2
    && NoneFitsBetter(profile, expected, k, Fit(contrast, n))
    && NoneFitsAsWell(profile, expected, pitch, Fit(contrast, n))
  }

  // The first candidate whose phases separate best for the number of scanlines they
  // sample, or 0 when no candidate samples two.
  ghost predicate IsBestFit(profile: seq<real>, expected: nat, pitch: int, contrast: real) {
    var k := expected * 3 / 2 + 1;
    if pitch == 0 then contrast == 0.0 && NoneFitsBetter(profile, expected, k, -1.0)
    else
      IsCandidate(pitch, expected) && exists phase, n {:trigger IsLock(profile, pitch, phase, contrast, n)} ::
        IsFirstBest(profile, expected, k, pitch, contrast, phase, n)
  }

  lemma NoEarlierBest(profile: seq<real>, expected: nat, k: int, p: int, x: real, q: int, d: real, qh: int, m: nat,
                      y: real)
    requires NoneFitsAsWell(profile, expected, p, x) && y >= x
    requires IsCandidate(q, expected) && m >= 2 && IsLock(profile, q, qh, d, m) && y == Fit(d, m)
    ensures p <= q
  {
  }

  lemma BestFitIsUnique(profile: seq<real>, expected: nat, p: int, c: real, q: int, d: real)
    requires IsBestFit(profile, expected, p, c) && IsBestFit(profile, expected, q, d)
    ensures p == q && c == d
  {
    var k := expected * 3 / 2 + 1;
    if p != 0 {
      var ph, n :| IsLock(profile, p, ph, c, n) && IsFirstBest(profile, expected, k, p, c, ph, n);
      if q != 0 {
        var qh, m :| IsLock(profile, q, qh, d, m) && IsFirstBest(profile, expected, k, q, d, qh, m);
        NoEarlierBest(profile, expected, k, p, Fit(c, n), q, d, qh, m, Fit(d, m));
        NoEarlierBest(profile, expected, k, q, Fit(d, m), p, c, ph, n, Fit(c, n));
        LockIsUnique(profile, p, ph, c, n, qh, d, m);
      } else {
        assert Fit(c, n) <= -1.0;
        FitIsNotNegative(c, n);
      }
    } else if q != 0 {
      var qh, m :| IsLock(profile, q, qh, d, m) && IsFirstBest(profile, expected, k, q, d, qh, m);
      assert Fit(d, m) <= -1.0;
      FitIsNotNegative(d, m);
    }
  }

  lemma FitIsNotNegative(contrast: real, n: nat)
    ensures Fit(contrast, n) >= 0.0
  {
    assert contrast * contrast >= 0.0;
  }

  // Of the candidates below k the pitch is the first best, locked at phase over n
  // samples; 0 when there is none, and then fit is -1.
  ghost predicate IsBestSoFar(profile: seq<real>, expected: nat, k: int, pitch: int, contrast: real, phase: int,
                              n: nat, fit: real) {
    && NoneFitsBetter(profile, expected, k, fit)
    && if pitch == 0 then fit == -1.0 && contrast == 0.0
       else IsCandidate(pitch, expected) && pitch < k && n >= 2 && IsLock(profile, pitch, phase, contrast, n) &&
            fit == Fit(contrast, n)
            && NoneFitsAsWell(profile, expected, pitch, fit)
  }

  lemma NextCandidate(profile: seq<real>, expected: nat, p: int, phase: int, c: real, n: nat,
                      pitch: int, contrast: real, at: int, count: nat, fit: real)
    requires IsBestSoFar(profile, expected, p, pitch, contrast, at, count, fit) && IsCandidate(p, expected) && p != 0
    requires IsLock(profile, p, phase, c, n)
    ensures n < 2 || Fit(c, n) <= fit ==> IsBestSoFar(profile, expected, p + 1, pitch, contrast, at, count, fit)
    ensures n >= 2 && Fit(c, n) > fit ==> IsBestSoFar(profile, expected, p + 1, p, c, phase, n, Fit(c, n))
  {
    forall q, d, m {:trigger IsLock(profile, p, q, d, m)} | IsLock(profile, p, q, d, m) ensures d == c && m == n {
      LockIsUnique(profile, p, phase, c, n, q, d, m);
    }
  }

  method BestFittingPitch(profile: seq<real>, expected: nat) returns (pitch: int, contrast: real)
    ensures IsBestFit(profile, expected, pitch, contrast) && (profile == [] ==> contrast == 0.0)
  {
    var lo := expected * 3 / 4;
    if lo < 1 {
      lo := 1;
    }
    var hi := expected * 3 / 2;
    var best := -1.0;
    ghost var at, count := 0, 0;
    pitch, contrast := 0, 0.0;
    for p := lo to hi + 1
      invariant IsBestSoFar(profile, expected, p, pitch, contrast, at, count, best)
      invariant profile == [] ==> pitch == 0
    {
      var phase, c, n := PhaseLock(profile, p);
      NextCandidate(profile, expected, p, phase, c, n, pitch, contrast, at, count, best);
      if n < 2 {
        continue;
      }
      if Fit(c, n) > best {
        best, pitch, contrast, at, count := Fit(c, n), p, c, phase, n;
      }
    }
    assert pitch != 0 ==> IsFirstBest(profile, expected, hi + 1, pitch, contrast, at, count);
  }

  // Rows, a region that is not one, or the pitch the layout seems to have moved to.
  datatype Segmented = Rows(bands: seq<Band>) | BadRegion | PitchMismatch(pitch: int)

  // Each row is one pitch tall with a gap at either end, none meets another, and
  // they come down the frame in order.
  ghost predicate AreFrameRows(bands: seq<Band>, profile: seq<real>, top: int, pitch: int, profileMax: real) {
    AreApart(bands) && AreProper(bands) && AreRowsFrom(bands, profile, top, pitch, profileMax)
  }

  // A row in frame coordinates, of a profile that begins at top.
  ghost predicate IsRowFrom(b: Band, profile: seq<real>, top: int, pitch: int, profileMax: real) {
    b.y0 < b.y1 && IsRow(Band(b.y0 - top, b.y1 - top), profile, pitch, profileMax)
  }

  ghost predicate AreRowsFrom(bands: seq<Band>, profile: seq<real>, top: int, pitch: int, profileMax: real) {
    forall k {:trigger IsRowFrom(bands[k], profile, top, pitch, profileMax)} :: 0 <= k < |bands| ==>
      IsRowFrom(bands[k], profile, top, pitch, profileMax)
  }

  ghost predicate AllMiss(bands: seq<Band>, b: Band) {
    forall k {:trigger bands[k]} :: 0 <= k < |bands| ==> Misses(bands[k], b)
  }

  lemma AppendDisjoint(bands: seq<Band>, b: Band)
    requires AreDisjoint(bands) && AllMiss(bands, b)
    ensures AreDisjoint(bands + [b])
  {
    forall j, k | 0 <= j < k < |bands| + 1 ensures Misses((bands + [b])[j], (bands + [b])[k]) {
      if k < |bands| {
        assert Misses(bands[j], bands[k]);
      }
    }
  }

  lemma {:induction false} InsertKeepsApart(sorted: seq<Band>, b: Band)
    requires AreDisjoint(sorted) && AllMiss(sorted, b)
    ensures AreDisjoint(InsertByTop(sorted, b))
    ensures forall c :: AllMiss(sorted, c) && Misses(b, c) ==> AllMiss(InsertByTop(sorted, b), c)
    decreases |sorted|
  {
    if sorted == [] || sorted[|sorted| - 1].y0 <= b.y0 {
      AppendDisjoint(sorted, b);
    } else {
      var n := |sorted| - 1;
      assert forall j :: 0 <= j < n ==> Misses(sorted[j], sorted[n]);
      assert AreDisjoint(sorted[..n]) by {
        assert forall j, k :: 0 <= j < k < n ==> Misses(sorted[j], sorted[k]);
      }
      InsertKeepsApart(sorted[..n], b);
      assert AllMiss(sorted[..n], sorted[n]) && Misses(b, sorted[n]);
      AppendDisjoint(InsertByTop(sorted[..n], b), sorted[n]);
      forall c | AllMiss(sorted, c) && Misses(b, c) ensures AllMiss(InsertByTop(sorted, b), c) {
        assert AllMiss(sorted[..n], c);
      }
    }
  }

  lemma {:induction false} SortKeepsApart(bands: seq<Band>)
    requires AreDisjoint(bands)
    ensures AreDisjoint(SortByTop(bands))
    ensures forall c :: AllMiss(bands, c) ==> AllMiss(SortByTop(bands), c)
    decreases |bands|
  {
    if bands != [] {
      var n := |bands| - 1;
      assert forall j :: 0 <= j < n ==> Misses(bands[j], bands[n]);
      assert AreDisjoint(bands[..n]) by {
        assert forall j, k :: 0 <= j < k < n ==> Misses(bands[j], bands[k]);
      }
      SortKeepsApart(bands[..n]);
      assert AllMiss(bands[..n], bands[n]);
      InsertKeepsApart(SortByTop(bands[..n]), bands[n]);
      forall c | AllMiss(bands, c) ensures AllMiss(SortByTop(bands), c) {
        assert AllMiss(bands[..n], c) && Misses(bands[n], c);
      }
    }
  }

  lemma MovedStayApart(found: seq<Band>, top: int)
    requires AreDisjoint(found)
    ensures AreDisjoint(Shifted(found, top))
  {
    var moved := Shifted(found, top);
    forall j, k | 0 <= j < k < |moved| ensures Misses(moved[j], moved[k]) {
      assert Misses(found[j], found[k]);
    }
  }

  lemma SortedIsAmong(bands: seq<Band>, k: nat) returns (i: nat)
    requires k < |SortByTop(bands)|
    ensures i < |bands| && bands[i] == SortByTop(bands)[k]
  {
    SortByTopSorts(bands);
    assert SortByTop(bands)[k] in multiset(bands);
    i :| 0 <= i < |bands| && bands[i] == SortByTop(bands)[k];
  }

  lemma InOrderAndDisjointIsApart(bands: seq<Band>)
    requires IsSorted(bands) && AreDisjoint(bands) && AreProper(bands)
    ensures AreApart(bands)
  {
    forall j, k | 0 <= j < k < |bands| ensures Clears(bands[j], bands[k]) {
      assert InOrder(bands[j], bands[k]) && Misses(bands[j], bands[k]);
    }
  }

  lemma SortedRowsAreRows(moved: seq<Band>, profile: seq<real>, top: int, pitch: nat, profileMax: real)
    requires AreRowsFrom(moved, profile, top, pitch, profileMax)
    ensures AreRowsFrom(SortByTop(moved), profile, top, pitch, profileMax)
  {
    var sorted := SortByTop(moved);
    forall k | 0 <= k < |sorted| ensures IsRowFrom(sorted[k], profile, top, pitch, profileMax) {
      var i := SortedIsAmong(moved, k);
      assert IsRowFrom(moved[i], profile, top, pitch, profileMax);
    }
  }

  lemma SortedRowsAreApart(moved: seq<Band>)
    requires AreDisjoint(moved) && AreProper(SortByTop(moved))
    ensures AreApart(SortByTop(moved))
  {
    SortByTopSorts(moved);
    SortKeepsApart(moved);
    InOrderAndDisjointIsApart(SortByTop(moved));
  }

  lemma MovedRowsAreRows(found: seq<Band>, profile: seq<real>, top: int, pitch: nat, profileMax: real)
    requires pitch > 0 && AreRows(found, profile, pitch, profileMax)
    ensures AreRowsFrom(Shifted(found, top), profile, top, pitch, profileMax)
  {
    var moved := Shifted(found, top);
    forall k | 0 <= k < |moved| ensures IsRowFrom(moved[k], profile, top, pitch, profileMax) {
      assert IsRow(found[k], profile, pitch, profileMax);
      assert Band(moved[k].y0 - top, moved[k].y1 - top) == found[k];
    }
  }

  lemma RowsInFrameOrder(found: seq<Band>, profile: seq<real>, top: int, pitch: nat, profileMax: real)
    requires pitch > 0 && AreRows(found, profile, pitch, profileMax) && AreDisjoint(found)
    ensures AreFrameRows(SortByTop(Shifted(found, top)), profile, top, pitch, profileMax)
  {
    var moved := Shifted(found, top);
    MovedRowsAreRows(found, profile, top, pitch, profileMax);
    MovedStayApart(found, top);
    SortedRowsAreRows(moved, profile, top, pitch, profileMax);
    assert forall k :: 0 <= k < |SortByTop(moved)| ==> IsRowFrom(SortByTop(moved)[k], profile, top, pitch, profileMax);
    SortedRowsAreApart(moved);
  }

  // What the lock says about a result: with too little contrast, a mismatch exactly
  // when the best-fitting pitch clears the floor; else the rows of the cut, down the frame.
  ghost predicate IsVerdictOn(r: Segmented, profile: seq<real>, top: int, pitch: nat, contrast: real,
                              profileMax: real) {
    if contrast < PHASE_CONTRAST_FLOOR then
      exists alt, c {:trigger IsBestFit(profile, pitch, alt, c)} :: IsBestFit(profile, pitch, alt, c) &&
        r == if c >= PHASE_CONTRAST_FLOOR then PitchMismatch(alt) else Rows([])
    else
      exists cut {:trigger IsCut(cut, profile, pitch, profileMax, MAX_RUN_RECURSION_DEPTH)} ::
        && IsCut(cut, profile, pitch, profileMax, MAX_RUN_RECURSION_DEPTH)
        && r == Rows(SortByTop(Shifted(BandsOf(cut, pitch), top)))
  }

  // Of two verdicts on one profile there is only one.
  lemma VerdictIsUnique(r: Segmented, q: Segmented, profile: seq<real>, top: int, pitch: nat, contrast: real,
                        profileMax: real)
    requires pitch > 0
    requires IsVerdictOn(r, profile, top, pitch, contrast, profileMax)
    requires IsVerdictOn(q, profile, top, pitch, contrast, profileMax)
    ensures r == q
  {
    if contrast < PHASE_CONTRAST_FLOOR {
      var p, c :| IsBestFit(profile, pitch, p, c) &&
                  r == if c >= PHASE_CONTRAST_FLOOR then PitchMismatch(p) else Rows([]);
      var o, d :| IsBestFit(profile, pitch, o, d) &&
                  q == if d >= PHASE_CONTRAST_FLOOR then PitchMismatch(o) else Rows([]);
      BestFitIsUnique(profile, pitch, p, c, o, d);
    } else {
      var c :| IsCut(c, profile, pitch, profileMax, MAX_RUN_RECURSION_DEPTH)
               && r == Rows(SortByTop(Shifted(BandsOf(c, pitch), top)));
      var d :| IsCut(d, profile, pitch, profileMax, MAX_RUN_RECURSION_DEPTH)
               && q == Rows(SortByTop(Shifted(BandsOf(d, pitch), top)));
      CutIsUnique(c, d, profile, pitch, profileMax, MAX_RUN_RECURSION_DEPTH);
    }
  }

  // No run of gaps at the locked phase has more rows than the cut holds.
  lemma CutHoldsLongest(cut: Cut, profile: seq<real>, pitch: nat, profileMax: real, depth: nat, j: nat, l: nat)
    requires pitch > 0 && IsCut(cut, profile, pitch, profileMax, depth) && cut.contrast >= PHASE_CONTRAST_FLOOR
    requires IsChain(profile, cut.phase, pitch, profileMax, j, l)
    ensures l <= |BandsOf(cut, pitch)| + 1
  {
    if cut.n < 2 && l > 1 {
      assert IsGap(profile, BoundaryAt(cut.phase, pitch, j + l - 1), profileMax);
      SamplesAreBoundaries(profile, cut.phase, pitch, j + l - 1);
    }
  }

  // The profile is the region's scanlines, each averaged over its columns.
  method SegmentRows(regionValid: bool, profile: seq<real>, top: int, columns: int, pitch: int) returns (r: Segmented)
    ensures r.BadRegion? <==> !regionValid || pitch <= 0
    ensures !r.BadRegion? && (|profile| < pitch / 2 || columns <= 0 || |profile| == 0) ==> r == Rows([])
    ensures r.Rows? && r.bands != [] ==> exists m ::
              IsMaxOf(m, profile) && AreFrameRows(r.bands, profile, top, pitch, m)
    ensures regionValid && columns > 0 && pitch > 0 && |profile| > 0 && |profile| >= pitch / 2 ==>
              exists m, phase, contrast, n ::
                IsMaxOf(m, profile) && IsLock(profile, pitch, phase, contrast, n) &&
                IsVerdictOn(r, profile, top, pitch, contrast, m)
  {
    if !regionValid || pitch <= 0 {
      return BadRegion;
    }
    if |profile| < pitch / 2 || columns <= 0 {
      return Rows([]);
    }
    var phase, contrast, n := PhaseLock(profile, pitch);
    if contrast < PHASE_CONTRAST_FLOOR {
      var altPitch, altContrast := BestFittingPitch(profile, pitch);
      r := if altContrast >= PHASE_CONTRAST_FLOOR then PitchMismatch(altPitch) else Rows([]);
      if |profile| > 0 {
        ghost var m := HasMax(profile);
        assert IsVerdictOn(r, profile, top, pitch, contrast, m);
      }
      return;
    }
    var profileMax := SliceMax(profile);
    var found, cut := CollectBands(profile, pitch, profileMax, MAX_RUN_RECURSION_DEPTH);
    LockIsUnique(profile, pitch, phase, contrast, n, cut.phase, cut.contrast, cut.n);
    RowsInFrameOrder(found, profile, top, pitch, profileMax);
    r := Rows(SortByTop(Shifted(found, top)));
    assert IsVerdictOn(r, profile, top, pitch, contrast, profileMax);
  }
}
