// Capturing a list frame by frame (internal/tasks/scrollcapture.go).  Swipes,
// screenshots and the kill switch may fail at any point.
module ScrollCapture {
  import opened ScrollOffset

  const MAX_SCROLL_FRAMES := 40
  const ZERO_OFFSET_RETRIES := 3
  const OFFSET_REMEASURE_ATTEMPTS := 2

  datatype Frame = Frame(index: int, offsetPx: int)

  datatype Failure = NoFailure | BadSpec | Stopped | Unmeasurable | Overshot

  // The movements that were not nothing.
  ghost function Nonzero(s: seq<int>): seq<int> {
    if s == [] then []
    else Nonzero(s[..|s| - 1]) + if s[|s| - 1] == 0 then [] else [s[|s| - 1]]
  }

  ghost function Offsets(frames: seq<Frame>): seq<int> {
    seq(|frames|, k requires 0 <= k < |frames| => frames[k].offsetPx)
  }

  // The first frame starts the list and every later one moved, by no more than
  // leaves each row in some frame.
  ghost predicate IsForward(frames: seq<Frame>, usable: int) {
    && (|frames| > 0 ==> frames[0] == Frame(0, 0))
    && forall k :: 0 < k < |frames| ==> 0 < frames[k].offsetPx <= usable
  }

  // The frames are numbered upwards; a swipe that moved nothing leaves a gap.
  ghost predicate AreNumbered(frames: seq<Frame>) {
    forall j, k :: 0 <= j < k < |frames| ==> frames[j].index < frames[k].index
  }

  // The last n measurements found no movement.
  ghost predicate EndsStill(measured: seq<int>, n: nat) {
    n <= |measured| && forall k :: |measured| - n <= k < |measured| ==> measured[k] == 0
  }

  // No earlier stretch of measurements ended still.
  ghost predicate NeverStillBefore(measured: seq<int>, n: nat) {
    forall k {:trigger measured[..k]} :: 0 <= k < |measured| ==> !EndsStill(measured[..k], n)
  }

  ghost predicate AllBelow(frames: seq<Frame>, index: int) {
    forall k :: 0 <= k < |frames| ==> frames[k].index < index
  }

  // What is stored before swipe number index.
  ghost predicate IsList(frames: seq<Frame>, usable: int, index: nat) {
    0 < |frames| <= index && IsForward(frames, usable) && AreNumbered(frames) && AllBelow(frames, index)
  }

  // How long the list has stood still, which was never long enough.
  ghost predicate IsWait(measured: seq<int>, zeroes: nat) {
    && zeroes < ZERO_OFFSET_RETRIES && EndsStill(measured, zeroes) && !EndsStill(measured, zeroes + 1)
    && NeverStillBefore(measured, ZERO_OFFSET_RETRIES)
  }

  lemma FramesGrow(frames: seq<Frame>, d: int, usable: int, index: nat)
    requires IsList(frames, usable, index) && 0 < d <= usable
    ensures IsList(frames + [Frame(index, d)], usable, index + 1)
    ensures Offsets(frames + [Frame(index, d)]) == Offsets(frames) + [d]
  {
  }

  lemma MeasuredGrow(measured: seq<int>, d: int, zeroes: nat)
    requires EndsStill(measured, zeroes) && !EndsStill(measured, zeroes + 1)
    ensures !EndsStill(measured + [d], if d == 0 then zeroes + 2 else 1)
    ensures Nonzero(measured + [d]) == Nonzero(measured) + if d == 0 then [] else [d]
    ensures EndsStill(measured + [d], if d == 0 then zeroes + 1 else 0)
  {
    var more := measured + [d];
    assert more[..|measured|] == measured && more[|measured|] == d;
    if d == 0 && zeroes < |measured| {
      assert EndsStill(more, zeroes + 2) ==> EndsStill(measured, zeroes + 1) by {
        assert forall k :: 0 <= k < |measured| ==> more[k] == measured[k];
      }
    }
  }

  lemma StillNeverBefore(measured: seq<int>, d: int, n: nat)
    requires NeverStillBefore(measured, n) && !EndsStill(measured, n)
    ensures NeverStillBefore(measured + [d], n)
  {
    var more := measured + [d];
    assert more[..|measured|] == measured;
    forall k | 0 <= k < |measured| ensures !EndsStill(more[..k], n) {
      assert more[..k] == measured[..k];
    }
  }

  lemma WaitGrows(measured: seq<int>, d: int, zeroes: nat)
    requires IsWait(measured, zeroes)
    ensures NeverStillBefore(measured + [d], ZERO_OFFSET_RETRIES)
    ensures d == 0 && zeroes + 1 < ZERO_OFFSET_RETRIES ==> IsWait(measured + [d], zeroes + 1)
    ensures d == 0 && zeroes + 1 == ZERO_OFFSET_RETRIES ==> EndsStill(measured + [d], ZERO_OFFSET_RETRIES)
    ensures d != 0 ==> IsWait(measured + [d], 0)
    ensures Nonzero(measured + [d]) == Nonzero(measured) + if d == 0 then [] else [d]
  {
    MeasuredGrow(measured, d, zeroes);
    StillNeverBefore(measured, d, ZERO_OFFSET_RETRIES);
  }

  ghost predicate IsCapture(frames: seq<Frame>, measured: seq<int>, index: nat, zeroes: nat, usable: int) {
    && IsList(frames, usable, index) && IsWait(measured, zeroes) && |measured| == index - 1
    && Offsets(frames) == [0] + Nonzero(measured)
  }

  lemma StoodStill(frames: seq<Frame>, measured: seq<int>, index: nat, zeroes: nat, usable: int)
    requires IsCapture(frames, measured, index, zeroes, usable)
    ensures if zeroes + 1 < ZERO_OFFSET_RETRIES then IsCapture(frames, measured + [0], index + 1, zeroes + 1, usable)
            else EndsStill(measured + [0], ZERO_OFFSET_RETRIES)
    ensures Offsets(frames) == [0] + Nonzero(measured + [0])
  {
    WaitGrows(measured, 0, zeroes);
    assert IsList(frames, usable, index + 1);
  }

  lemma Moved(frames: seq<Frame>, measured: seq<int>, index: nat, zeroes: nat, usable: int, d: int)
    requires IsCapture(frames, measured, index, zeroes, usable) && 0 < d <= usable
    ensures IsCapture(frames + [Frame(index, d)], measured + [d], index + 1, 0, usable)
  {
    WaitGrows(measured, d, zeroes);
    FramesGrow(frames, d, usable, index);
  }

  method Look() returns (m: Match) {
    m := *;
  }

  // One swipe's frame, looked at again while it cannot be measured.
  method MeasureAfterSwipe(regionH: nat) returns (d: int, failure: Failure)
    ensures failure in {NoFailure, Stopped, Unmeasurable}
    ensures failure == NoFailure ==> IsMeasurable(regionH) && 0 <= d <= regionH - 2 * StripH(regionH)
  {
    d := 0;
    for attempt := 0 to OFFSET_REMEASURE_ATTEMPTS + 1 {
      var stopped: bool := *;
      if stopped {
        return 0, Stopped;
      }
      var m0 := Look();
      var m1 := Look();
      var m2 := Look();
      var r := Measure(regionH, [m0, m1, m2]);
      if r.Moved? {
        return r.px, NoFailure;
      }
    }
    return 0, Unmeasurable;
  }

  method ScrollCapture(regionH: nat, pitch: nat, swipeFrac: real)
    returns (frames: seq<Frame>, complete: bool, failure: Failure, ghost measured: seq<int>)
    requires pitch > 0
    ensures |frames| <= MAX_SCROLL_FRAMES && |measured| < MAX_SCROLL_FRAMES
    ensures IsForward(frames, Usable(regionH, pitch)) && AreNumbered(frames)
    ensures complete ==> failure == NoFailure && |frames| > 0 && EndsStill(measured, ZERO_OFFSET_RETRIES)
    ensures NeverStillBefore(measured, ZERO_OFFSET_RETRIES)
    ensures failure == NoFailure ==> |frames| > 0 && Offsets(frames) == [0] + Nonzero(measured)
    ensures failure == NoFailure && !complete ==> |measured| == MAX_SCROLL_FRAMES - 1
    ensures failure == BadSpec <==> swipeFrac <= 0.0 || regionH <= pitch
    ensures failure == BadSpec ==> frames == []
    ensures failure == Overshot ==> pitch > 2 * StripH(regionH)
  {
    frames, complete, failure, measured := [], false, Stopped, [];
    if swipeFrac <= 0.0 || regionH <= pitch {
      failure := BadSpec;
      return;
    }
    var usable := Usable(regionH, pitch);
    var stopped: bool := *;
    if stopped {
      return;
    }
    frames := [Frame(0, 0)];
    var zeroes := 0;
    for index := 1 to MAX_SCROLL_FRAMES
      invariant IsCapture(frames, measured, index, zeroes, usable)
      invariant !complete && failure == Stopped
    {
      stopped := *;
      if stopped {
        return;
      }
      var offset, f := MeasureAfterSwipe(regionH);
      if f != NoFailure {
        failure := f;
        return;
      }
      StillNeverBefore(measured, offset, ZERO_OFFSET_RETRIES);
      ghost var before := measured;
      measured := measured + [offset];
      if offset == 0 {
        StoodStill(frames, before, index, zeroes, usable);
        zeroes := zeroes + 1;
        if zeroes >= ZERO_OFFSET_RETRIES {
          complete, failure := true, NoFailure;
          return;
        }
        continue;
      }
      if offset > usable {
        failure := Overshot;
        return;
      }
      stopped := *;
      if stopped {
        return;
      }
      Moved(frames, before, index, zeroes, usable, offset);
      frames, zeroes := frames + [Frame(index, offset)], 0;
    }
    failure := NoFailure;
  }
}
