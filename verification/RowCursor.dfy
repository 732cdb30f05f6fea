// The geometric dedupe of the ranking rows (internal/ingest/vs.go) over a forward
// capture: no row lost, none counted twice.
module RowCursor {
  import opened ScrollCapture
  import opened ScrollOffset

  const ROW_PITCH := 128

  // ------------------------------------------------------------------- coverage

  // How far the list had scrolled when frame k was taken.
  ghost function Top(frames: seq<Frame>, k: nat): int
    requires k < |frames|
  {
    if k == 0 then 0 else Top(frames, k - 1) + frames[k].offsetPx
  }

  // The row starting at content position y is wholly inside frame k.
  ghost predicate Shows(frames: seq<Frame>, regionH: int, pitch: int, k: int, y: int) {
    0 <= k < |frames| && Top(frames, k) <= y && y + pitch <= Top(frames, k) + regionH
  }

  lemma {:induction false} SomeFrameShows(frames: seq<Frame>, regionH: int, pitch: int, y: int, k: nat) returns (i: nat)
    requires IsForward(frames, Usable(regionH, pitch)) && k < |frames|
    requires 0 <= y && y + pitch <= Top(frames, k) + regionH
    ensures i <= k && Shows(frames, regionH, pitch, i, y)
    decreases k
  {
    if Top(frames, k) <= y {
      i := k;
    } else {
      assert y + pitch <= Top(frames, k - 1) + regionH;
      i := SomeFrameShows(frames, regionH, pitch, y, k - 1);
    }
  }

  // Every row between the first frame's top and the last frame's bottom lies
  // wholly in some frame.
  lemma NoRowIsLost(frames: seq<Frame>, regionH: int, pitch: int, y: int)
    requires IsForward(frames, Usable(regionH, pitch)) && |frames| > 0
    requires 0 <= y && y + pitch <= Top(frames, |frames| - 1) + regionH
    ensures exists k :: Shows(frames, regionH, pitch, k, y)
  {
    var k := SomeFrameShows(frames, regionH, pitch, y, |frames| - 1);
  }

  // --------------------------------------------------------------------- cursor

  // The position of the last row accepted among ys, or -1.
  ghost function LastAccepted(ys: seq<int>): int {
    if ys == [] then -1
    else
      var last := LastAccepted(ys[..|ys| - 1]);
      if IsNew(last, ys[|ys| - 1]) then ys[|ys| - 1] else last
  }

  predicate IsNew(last: int, y: int) {
    !(last >= 0 && y <= last + ROW_PITCH / 2)
  }

  // The indices of the rows accepted among ys.
  ghost function Accepted(ys: seq<int>): seq<nat> {
    if ys == [] then []
    else Accepted(ys[..|ys| - 1]) + if IsNew(LastAccepted(ys[..|ys| - 1]), ys[|ys| - 1]) then [|ys| - 1] else []
  }

  class VsRowCursor {
    var contentY: int
    var lastRowY: int
    var havePrev: bool
    ghost var seen: seq<int>

    // The cursor stands where its whole history of positions puts it.
    ghost predicate Valid()
      reads this
    {
      lastRowY == LastAccepted(seen)
    }

    constructor ()
      ensures Valid() && seen == [] && contentY == 0 && !havePrev
    {
      contentY, lastRowY, havePrev, seen := 0, -1, false, [];
    }

    // Moves to a new frame; the first one's offset is not a movement.
    method NextFrame(offsetPx: int)
      requires Valid()
      modifies this`contentY, this`havePrev
      ensures Valid() && havePrev
      ensures contentY == old(contentY) + if old(havePrev) then offsetPx else 0
    {
      if havePrev {
        contentY := contentY + offsetPx;
      }
      havePrev := true;
    }

    // Whether a band is a new row.
    method Accept(y0: int, regionTop: int) returns (isNew: bool)
      requires Valid()
      modifies this`lastRowY, this`seen
      ensures Valid() && seen == old(seen) + [contentY + (y0 - regionTop)]
      ensures Accepted(seen) == Accepted(old(seen)) + if isNew then [|old(seen)|] else []
    {
      var rowY := contentY + (y0 - regionTop);
      ghost var was := seen;
      seen := seen + [rowY];
      assert seen[..|was|] == was;
      if lastRowY >= 0 && rowY <= lastRowY + ROW_PITCH / 2 {
        return false;
      }
      lastRowY := rowY;
      return true;
    }
  }

  // ------------------------------------------------ what the cursor makes of truth

  // Sighting k is of true row labels[k], and its position is measured to within
  // less than a quarter pitch.
  ghost predicate IsAccurate(ys: seq<int>, labels: seq<int>, base: int) {
    && |ys| == |labels|
    && forall k :: 0 <= k < |ys| ==> ys[k] >= 0 && -ROW_PITCH < 4 * (ys[k] - (base + labels[k] * ROW_PITCH)) < ROW_PITCH
  }

  ghost function Highest(labels: seq<int>): int
    requires labels != []
  {
    if |labels| == 1 then labels[0]
    else
      var h := Highest(labels[..|labels| - 1]);
      if labels[|labels| - 1] > h then labels[|labels| - 1] else h
  }

  // No sighting skips a row: each is at most one below everything seen so far.
  ghost predicate SkipsNothing(labels: seq<int>) {
    forall k {:trigger IsNext(labels, k)} :: 0 < k < |labels| ==> IsNext(labels, k)
  }

  ghost predicate IsNext(labels: seq<int>, k: int)
    requires 0 < k < |labels|
  {
    labels[0] <= labels[k] <= Highest(labels[..k]) + 1
  }

  ghost function LabelsOf(labels: seq<int>, idx: seq<nat>): seq<int>
    requires forall k :: 0 <= k < |idx| ==> idx[k] < |labels|
  {
    seq(|idx|, k requires 0 <= k < |idx| => labels[idx[k]])
  }

  ghost function RowsFrom(a: int, b: int): seq<int>
    requires a <= b + 1
  {
    seq(b + 1 - a, k => a + k)
  }

  // A sighting is accepted exactly when it is of a row beyond all seen so far.
  lemma NewIffHigher(last: int, y: int, top: int, rowNo: int, base: int)
    requires -ROW_PITCH < 4 * (last - (base + top * ROW_PITCH)) < ROW_PITCH && last >= 0
    requires -ROW_PITCH < 4 * (y - (base + rowNo * ROW_PITCH)) < ROW_PITCH
    ensures IsNew(last, y) <==> rowNo > top
  {
  }

  // What has been accepted are the rows from the first sighted to the furthest,
  // and the cursor stands on the furthest.
  ghost predicate IsCaughtUp(ys: seq<int>, labels: seq<int>, base: int)
    requires labels != []
  {
    && (forall k :: 0 <= k < |Accepted(ys)| ==> Accepted(ys)[k] < |labels|)
    && labels[0] <= Highest(labels)
    && LabelsOf(labels, Accepted(ys)) == RowsFrom(labels[0], Highest(labels))
    && LastAccepted(ys) >= 0
    && -ROW_PITCH < 4 * (LastAccepted(ys) - (base + Highest(labels) * ROW_PITCH)) < ROW_PITCH
  }

  lemma OneMoreSighting(ys: seq<int>, labels: seq<int>, base: int)
    requires |ys| > 1 && IsAccurate(ys, labels, base)
    requires IsCaughtUp(ys[..|ys| - 1], labels[..|ys| - 1], base)
    requires labels[|ys| - 1] <= Highest(labels[..|ys| - 1]) + 1
    ensures IsCaughtUp(ys, labels, base)
  {
    var n := |ys| - 1;
    var top := Highest(labels[..n]);
    NewIffHigher(LastAccepted(ys[..n]), ys[n], top, labels[n], base);
    var before := Accepted(ys[..n]);
    assert LabelsOf(labels, before) == LabelsOf(labels[..n], before);
    if labels[n] > top {
      assert LabelsOf(labels, before + [n]) == LabelsOf(labels, before) + [labels[n]];
      assert RowsFrom(labels[0], top + 1) == RowsFrom(labels[0], top) + [top + 1];
    } else {
      assert Accepted(ys) == before;
    }
  }

  // The accepted rows are the rows from the first sighted to the furthest, each
  // exactly once and in order.
  lemma {:induction false} EachRowExactlyOnce(ys: seq<int>, labels: seq<int>, base: int)
    requires ys != [] && IsAccurate(ys, labels, base) && SkipsNothing(labels)
    ensures IsCaughtUp(ys, labels, base)
    decreases |ys|
  {
    var n := |ys| - 1;
    if n == 0 {
      assert ys[..0] == [];
      assert Accepted(ys) == [0];
    } else {
      PrefixSkipsNothing(labels, n);
      EachRowExactlyOnce(ys[..n], labels[..n], base);
      assert IsNext(labels, n);
      OneMoreSighting(ys, labels, base);
    }
  }

  lemma PrefixSkipsNothing(labels: seq<int>, n: nat)
    requires SkipsNothing(labels) && 0 < n <= |labels|
    ensures SkipsNothing(labels[..n])
  {
    forall k | 0 < k < n ensures IsNext(labels[..n], k) {
      assert IsNext(labels, k);
      assert labels[..n][..k] == labels[..k] && labels[..n][k] == labels[k];
    }
  }

  // ------------------------------------------------------- the whole frame walk

  // One stored frame: its measured movement and the tops of its bands.
  datatype Banded = Banded(offsetPx: int, bands: seq<int>)

  ghost function ContentTop(frames: seq<Banded>): int
    requires frames != []
  {
    if |frames| == 1 then 0 else ContentTop(frames[..|frames| - 1]) + frames[|frames| - 1].offsetPx
  }

  ghost function BandPositions(top: int, bands: seq<int>, regionTop: int): seq<int> {
    seq(|bands|, j requires 0 <= j < |bands| => top + (bands[j] - regionTop))
  }

  // Every band's content position, in the order the bands are met.
  ghost function PositionsOf(frames: seq<Banded>, regionTop: int): seq<int> {
    if frames == [] then []
    else
      PositionsOf(frames[..|frames| - 1], regionTop) +
      BandPositions(ContentTop(frames), frames[|frames| - 1].bands, regionTop)
  }

  // Offers one frame's bands to the cursor; met counts the bands offered before.
  method AcceptBands(cursor: VsRowCursor, bands: seq<int>, regionTop: int, met: nat) returns (rows: seq<nat>)
    requires cursor.Valid() && met == |cursor.seen|
    modifies cursor`lastRowY, cursor`seen
    ensures cursor.Valid() && cursor.seen == old(cursor.seen) + BandPositions(cursor.contentY, bands, regionTop)
    ensures Accepted(cursor.seen) == Accepted(old(cursor.seen)) + rows
  {
    rows := [];
    ghost var start := cursor.seen;
    for j := 0 to |bands|
      invariant cursor.Valid() && cursor.seen == start + BandPositions(cursor.contentY, bands[..j], regionTop)
      invariant Accepted(cursor.seen) == Accepted(start) + rows
    {
      ghost var at := cursor.contentY + (bands[j] - regionTop);
      var isNew := cursor.Accept(bands[j], regionTop);
      assert BandPositions(cursor.contentY, bands[..j + 1], regionTop) ==
             BandPositions(cursor.contentY, bands[..j], regionTop) + [at];
      if isNew {
        rows := rows + [met + j];
      }
    }
    assert bands[..|bands|] == bands;
  }

  // Walks the frames and keeps the bands the cursor accepts, numbered as met.
  method CollectRows(frames: seq<Banded>, regionTop: int) returns (rows: seq<nat>)
    ensures rows == Accepted(PositionsOf(frames, regionTop))
  {
    rows := [];
    var met := 0;
    var cursor := new VsRowCursor();
    for k := 0 to |frames|
      invariant fresh(cursor) && cursor.Valid() && cursor.seen == PositionsOf(frames[..k], regionTop)
      invariant rows == Accepted(cursor.seen) && met == |cursor.seen|
      invariant cursor.havePrev == (k > 0) && cursor.contentY == if k == 0 then 0 else ContentTop(frames[..k])
    {
      cursor.NextFrame(frames[k].offsetPx);
      assert frames[..k + 1][..k] == frames[..k];
      var more := AcceptBands(cursor, frames[k].bands, regionTop, met);
      rows := rows + more;
      met := met + |frames[k].bands|;
    }
    assert frames[..|frames|] == frames;
  }

  // ------------------------------------------------- rows of a list seen forward

  // A list of count rows whose first starts at base.
  datatype Layout = Layout(base: int, count: int)

  // The first row not above content position t, and how many rows end by t.
  function FirstFrom(g: Layout, t: int): int {
    var r := (t - g.base + ROW_PITCH - 1) / ROW_PITCH;
    if r < 0 then 0 else r
  }

  function EndedBy(g: Layout, t: int): int {
    var r := (t - g.base) / ROW_PITCH;
    if r > g.count then g.count else r
  }

  ghost function Run(lo: int, hi: int): seq<int> {
    seq(if hi > lo then hi - lo else 0, k => lo + k)
  }

  // The rows wholly inside a region of height h at content position t.
  ghost function VisibleAt(g: Layout, t: int, h: int): seq<int> {
    Run(FirstFrom(g, t), EndedBy(g, t + h))
  }

  lemma VisibleIffShown(g: Layout, frames: seq<Frame>, h: int, k: nat, r: int)
    requires k < |frames|
    ensures r in VisibleAt(g, Top(frames, k), h) <==>
      0 <= r < g.count && Shows(frames, h, ROW_PITCH, k, g.base + r * ROW_PITCH)
  {
    var t := Top(frames, k);
    var lo, hi := FirstFrom(g, t), EndedBy(g, t + h);
    assert r in Run(lo, hi) <==> lo <= r < hi by {
      if lo <= r < hi {
        assert Run(lo, hi)[r - lo] == r;
      }
    }
    assert lo <= r <==> 0 <= r && t <= g.base + r * ROW_PITCH;
    assert r < hi <==> r < g.count && g.base + r * ROW_PITCH + ROW_PITCH <= t + h;
  }

  // The rows met over the first frames, frame after frame.
  ghost function Sightings(g: Layout, frames: seq<Frame>, h: int, k: nat): seq<int>
    requires k < |frames|
  {
    (if k == 0 then [] else Sightings(g, frames, h, k - 1)) + VisibleAt(g, Top(frames, k), h)
  }

  lemma {:induction false} AppendRun(labels: seq<int>, lo: int, hi: int)
    requires labels != [] && SkipsNothing(labels) && labels[0] <= lo <= Highest(labels) + 1
    ensures SkipsNothing(labels + Run(lo, hi))
    ensures Highest(labels + Run(lo, hi)) == if hi > lo && hi - 1 > Highest(labels) then hi - 1 else Highest(labels)
    decreases hi - lo
  {
    if hi <= lo {
      assert labels + Run(lo, hi) == labels;
    } else {
      AppendRun(labels, lo, hi - 1);
      var before := labels + Run(lo, hi - 1);
      assert labels + Run(lo, hi) == before + [hi - 1];
      AppendOne(before, hi - 1);
    }
  }

  lemma AppendOne(labels: seq<int>, r: int)
    requires labels != [] && SkipsNothing(labels) && labels[0] <= r <= Highest(labels) + 1
    ensures SkipsNothing(labels + [r])
    ensures Highest(labels + [r]) == if r > Highest(labels) then r else Highest(labels)
  {
    var more := labels + [r];
    assert more[..|labels|] == labels;
    forall k | 0 < k < |more| ensures IsNext(more, k) {
      assert more[..k] == labels[..k];
      if k < |labels| {
        assert IsNext(labels, k);
      } else {
        assert labels[..|labels|] == labels;
      }
    }
  }

  // The list starts inside the first frame.
  ghost predicate StartsInView(g: Layout, h: int) {
    g.count > 0 && 0 <= g.base && g.base + ROW_PITCH <= h
  }

  lemma {:induction false} RunFromZero(n: int)
    requires n > 0
    ensures SkipsNothing(Run(0, n)) && Highest(Run(0, n)) == n - 1
    decreases n
  {
    if n == 1 {
      assert Run(0, 1) == [0];
    } else {
      RunFromZero(n - 1);
      assert Run(0, n) == Run(0, n - 1) + [n - 1];
      AppendOne(Run(0, n - 1), n - 1);
    }
  }

  // Sightings down to content position t start at row 0, skip nothing and reach
  // every row that ends by the bottom of the region there.
  ghost predicate ReachesBottom(g: Layout, s: seq<int>, t: int, h: int) {
    s != [] && s[0] == 0 && SkipsNothing(s) && Highest(s) + 1 == EndedBy(g, t + h)
  }

  lemma NextFrameReaches(g: Layout, s: seq<int>, t: int, t': int, h: int)
    requires ReachesBottom(g, s, t, h) && t < t' <= t + h - ROW_PITCH
    ensures ReachesBottom(g, s + VisibleAt(g, t', h), t', h)
  {
    NextFrameOverlaps(g, t, t', h);
    SkipsNothingIsAbove(s);
    var lo, hi := FirstFrom(g, t'), EndedBy(g, t' + h);
    if hi > lo {
      AppendRun(s, lo, hi);
    } else {
      assert s + Run(lo, hi) == s;
    }
  }

  lemma {:induction false} SkipsNothingIsAbove(s: seq<int>)
    requires s != [] && SkipsNothing(s)
    ensures Highest(s) >= s[0]
    decreases |s|
  {
    if |s| > 1 {
      PrefixSkipsNothing(s, |s| - 1);
      assert IsNext(s, |s| - 1);
      SkipsNothingIsAbove(s[..|s| - 1]);
    }
  }

  lemma {:induction false} ForwardReaches(g: Layout, frames: seq<Frame>, h: int, k: nat)
    requires k < |frames| && IsForward(frames, Usable(h, ROW_PITCH)) && StartsInView(g, h)
    ensures ReachesBottom(g, Sightings(g, frames, h, k), Top(frames, k), h)
    decreases k
  {
    if k == 0 {
      var n := EndedBy(g, h);
      assert FirstFrom(g, 0) == 0 && n >= 1;
      RunFromZero(n);
      assert Sightings(g, frames, h, 0) == Run(0, n);
    } else {
      ForwardReaches(g, frames, h, k - 1);
      NextFrameReaches(g, Sightings(g, frames, h, k - 1), Top(frames, k - 1), Top(frames, k), h);
    }
  }

  lemma NextFrameOverlaps(g: Layout, t: int, t': int, h: int)
    requires t < t' <= t + h - ROW_PITCH
    ensures EndedBy(g, t + h) <= EndedBy(g, t' + h)
    ensures EndedBy(g, t + h) == g.count || FirstFrom(g, t') <= EndedBy(g, t + h) || EndedBy(g, t + h) < 0
    ensures EndedBy(g, t + h) <= g.count
  {
  }

  lemma KeepsWhatItReaches(g: Layout, s: seq<int>, t: int, h: int, ys: seq<int>, n: int)
    requires ReachesBottom(g, s, t, h) && IsAccurate(ys, s, g.base) && n == EndedBy(g, t + h)
    ensures KeepsRows(s, ys, n)
  {
    EachRowExactlyOnce(ys, s, g.base);
    assert RowsFrom(0, Highest(s)) == Run(0, Highest(s) + 1);
  }

  // The sightings kept are of rows 0 to n - 1, in order, each once.
  ghost predicate KeepsRows(sightings: seq<int>, ys: seq<int>, n: int) {
    && (forall k :: 0 <= k < |Accepted(ys)| ==> Accepted(ys)[k] < |sightings|)
    && LabelsOf(sightings, Accepted(ys)) == Run(0, n)
  }

  // The composition: over a forward capture, with positions measured to within a
  // quarter pitch, the rows kept are the rows of the list from its first to the
  // last one that ends by the bottom of the last frame, each exactly once.
  lemma ForwardCaptureKeepsEachRowOnce(g: Layout, frames: seq<Frame>, h: int, met: seq<int>, ys: seq<int>)
    requires |frames| > 0 && IsForward(frames, Usable(h, ROW_PITCH)) && StartsInView(g, h)
    requires met == Sightings(g, frames, h, |frames| - 1) && IsAccurate(ys, met, g.base)
    ensures KeepsRows(met, ys, EndedBy(g, Top(frames, |frames| - 1) + h))
  {
    ForwardReaches(g, frames, h, |frames| - 1);
    KeepsWhatItReaches(g, met, Top(frames, |frames| - 1), h, ys, EndedBy(g, Top(frames, |frames| - 1) + h));
  }

  // ------------------------------------------------------ what a capture keeps

  ghost function FramesOf(banded: seq<Banded>): (frames: seq<Frame>)
    ensures |frames| == |banded|
    ensures forall k :: 0 <= k < |frames| ==> frames[k] == Frame(k, banded[k].offsetPx)
  {
    seq(|banded|, k requires 0 <= k < |banded| => Frame(k, banded[k].offsetPx))
  }

  lemma {:induction false} ContentTopIsTop(banded: seq<Banded>, k: nat)
    requires k < |banded|
    ensures ContentTop(banded[..k + 1]) == Top(FramesOf(banded), k)
    decreases k
  {
    if k > 0 {
      ContentTopIsTop(banded, k - 1);
      assert banded[..k + 1][..k] == banded[..k];
    }
  }

  lemma {:induction false} TopsGrow(frames: seq<Frame>, usable: int, j: nat, k: nat)
    requires IsForward(frames, usable) && j <= k < |frames|
    ensures 0 <= Top(frames, j) <= Top(frames, k)
    decreases k
  {
    if j < k {
      TopsGrow(frames, usable, j, k - 1);
    } else if k > 0 {
      TopsGrow(frames, usable, k - 1, k - 1);
    }
  }

  // The bands of a frame at content position t are the rows wholly inside it, top
  // to bottom, each measured to within less than a quarter pitch.
  ghost predicate BandsAreVisible(g: Layout, bands: seq<int>, t: int, h: int, regionTop: int) {
    && |bands| == |VisibleAt(g, t, h)|
    && forall j {:trigger bands[j]} :: 0 <= j < |bands| ==>
         && bands[j] >= regionTop
         && -ROW_PITCH < 4 * (t + (bands[j] - regionTop) - (g.base + VisibleAt(g, t, h)[j] * ROW_PITCH)) < ROW_PITCH
  }

  ghost predicate EveryFrameIsVisible(g: Layout, banded: seq<Banded>, h: int, regionTop: int) {
    forall k {:trigger banded[k]} :: 0 <= k < |banded| ==>
      BandsAreVisible(g, banded[k].bands, Top(FramesOf(banded), k), h, regionTop)
  }

  lemma AccurateTogether(ys: seq<int>, labels: seq<int>, zs: seq<int>, more: seq<int>, base: int)
    requires IsAccurate(ys, labels, base) && IsAccurate(zs, more, base)
    ensures IsAccurate(ys + zs, labels + more, base)
  {
  }

  lemma OneFrameIsAccurate(g: Layout, bands: seq<int>, t: int, h: int, regionTop: int)
    requires BandsAreVisible(g, bands, t, h, regionTop) && t >= 0
    ensures IsAccurate(BandPositions(t, bands, regionTop), VisibleAt(g, t, h), g.base)
  {
  }

  lemma OneMoreFrame(banded: seq<Banded>, regionTop: int, k: nat)
    requires k < |banded|
    ensures PositionsOf(banded[..k + 1], regionTop) ==
            PositionsOf(banded[..k], regionTop) + BandPositions(Top(FramesOf(banded), k), banded[k].bands, regionTop)
  {
    ContentTopIsTop(banded, k);
    assert banded[..k + 1][..k] == banded[..k];
  }

  lemma FrameIsAccurate(g: Layout, banded: seq<Banded>, h: int, regionTop: int, k: nat)
    requires k < |banded| && IsForward(FramesOf(banded), Usable(h, ROW_PITCH)) &&
             EveryFrameIsVisible(g, banded, h, regionTop)
    ensures var t := Top(FramesOf(banded), k);
      IsAccurate(BandPositions(t, banded[k].bands, regionTop), VisibleAt(g, t, h), g.base)
  {
    TopsGrow(FramesOf(banded), Usable(h, ROW_PITCH), k, k);
    OneFrameIsAccurate(g, banded[k].bands, Top(FramesOf(banded), k), h, regionTop);
  }

  lemma {:induction false} PositionsAreAccurate(g: Layout, banded: seq<Banded>, h: int, regionTop: int, k: nat)
    requires k < |banded| && IsForward(FramesOf(banded), Usable(h, ROW_PITCH)) &&
             EveryFrameIsVisible(g, banded, h, regionTop)
    ensures IsAccurate(PositionsOf(banded[..k + 1], regionTop), Sightings(g, FramesOf(banded), h, k), g.base)
    decreases k
  {
    var t := Top(FramesOf(banded), k);
    FrameIsAccurate(g, banded, h, regionTop, k);
    OneMoreFrame(banded, regionTop, k);
    if k > 0 {
      PositionsAreAccurate(g, banded, h, regionTop, k - 1);
      AccurateTogether(PositionsOf(banded[..k], regionTop), Sightings(g, FramesOf(banded), h, k - 1),
                       BandPositions(t, banded[k].bands, regionTop), VisibleAt(g, t, h), g.base);
    }
  }

  ghost predicate ShowsRow(g: Layout, frames: seq<Frame>, h: int, k: int, r: int) {
    0 <= r < g.count && Shows(frames, h, ROW_PITCH, k, g.base + r * ROW_PITCH)
  }

  // Some frame of the capture held row r whole.
  ghost predicate WasShown(g: Layout, frames: seq<Frame>, h: int, r: int) {
    exists k :: ShowsRow(g, frames, h, k, r)
  }

  lemma ShownIffEndedByTheBottom(g: Layout, frames: seq<Frame>, h: int, r: int)
    requires |frames| > 0 && IsForward(frames, Usable(h, ROW_PITCH)) && g.base >= 0
    ensures WasShown(g, frames, h, r) <==> 0 <= r < EndedBy(g, Top(frames, |frames| - 1) + h)
  {
    var last := |frames| - 1;
    if k :| ShowsRow(g, frames, h, k, r) {
      VisibleIffShown(g, frames, h, k, r);
      TopsGrow(frames, Usable(h, ROW_PITCH), k, last);
    }
    if 0 <= r < EndedBy(g, Top(frames, last) + h) {
      var k := SomeFrameShows(frames, h, ROW_PITCH, g.base + r * ROW_PITCH, last);
      assert ShowsRow(g, frames, h, k, r);
    }
  }

  lemma WholeCaptureIsAccurate(g: Layout, banded: seq<Banded>, h: int, regionTop: int)
    requires |banded| > 0 && IsForward(FramesOf(banded), Usable(h, ROW_PITCH)) &&
             EveryFrameIsVisible(g, banded, h, regionTop)
    ensures IsAccurate(PositionsOf(banded, regionTop), Sightings(g, FramesOf(banded), h, |banded| - 1), g.base)
  {
    PositionsAreAccurate(g, banded, h, regionTop, |banded| - 1);
    assert banded[..|banded|] == banded;
  }

  lemma ShownRows(g: Layout, frames: seq<Frame>, h: int, n: int)
    requires |frames| > 0 && IsForward(frames, Usable(h, ROW_PITCH)) && g.base >= 0
    requires n == EndedBy(g, Top(frames, |frames| - 1) + h)
    ensures forall r :: WasShown(g, frames, h, r) <==> 0 <= r < n
  {
    forall r ensures WasShown(g, frames, h, r) <==> 0 <= r < n {
      ShownIffEndedByTheBottom(g, frames, h, r);
    }
  }

  // The sightings CollectRows keeps of a forward capture, the ones accepted among its
  // positions, are of exactly the rows some frame of it held whole, each once.
  lemma CollectedRowsAreTheShownRows(g: Layout, banded: seq<Banded>, h: int, regionTop: int) returns (n: int)
    requires |banded| > 0 && IsForward(FramesOf(banded), Usable(h, ROW_PITCH)) && StartsInView(g, h)
    requires EveryFrameIsVisible(g, banded, h, regionTop)
    ensures KeepsRows(Sightings(g, FramesOf(banded), h, |banded| - 1), PositionsOf(banded, regionTop), n)
    ensures forall r :: WasShown(g, FramesOf(banded), h, r) <==> 0 <= r < n
  {
    var frames := FramesOf(banded);
    var met := Sightings(g, frames, h, |banded| - 1);
    n := EndedBy(g, Top(frames, |banded| - 1) + h);
    WholeCaptureIsAccurate(g, banded, h, regionTop);
    ShownRows(g, frames, h, n);
    ForwardCaptureKeepsEachRowOnce(g, frames, h, met, PositionsOf(banded, regionTop));
  }
}
