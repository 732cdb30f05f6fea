// Navigation over the screen graph (internal/runtime/navigate.go, ctx.go, act.go
// and panic.go).  The device, the recognizer, the kill switch and the clock
// answer arbitrarily; the trace records what they said and what was done.
module Navigate {
  import opened Graph
  import opened Wrappers
  import Topology

  const MAX_REPLANS := 3
  const WRONG_SCREEN_STREAK := 5
  const PANIC_BACK_ATTEMPTS := 3

  datatype Cause<S> = ByEdge(edge: Edge<S>) | ByPanic

  datatype Event<S> =
    | Checked                            // the kill switch let the run go on
    | Saw(screen: S)                     // a frame was recognized
    | SawNothing                         // a frame was not
    | Matched(edge: Edge<S>)             // the edge's anchor was found on that frame
    | Planned(target: S, path: seq<Edge<S>>) // a route was computed
    | Tapped(edge: Edge<S>)
    | PressedBack(cause: Cause<S>)
    | Woke
    | Restarted
    | Broke                              // the kill switch, the device, the recognizer or an anchor ended the run
  {
    predicate IsAction() {
      Tapped? || PressedBack? || Woke? || Restarted?
    }
  }

  // What a step of the program reports: success, the one error that leads to a
  // new plan, or any other error.
  datatype Status = Fine | WrongScreen | Failed

  // What one look at the device gives.
  datatype Sight<S> = Shows(screen: S) | ShowsNothing | LookFailed

  // The screen of the most recent recognized frame.
  ghost function LastSeen<S>(t: seq<Event<S>>): Option<S> {
    if t == [] then None
    else if t[|t| - 1].Saw? then Some(t[|t| - 1].screen)
    else LastSeen(t[..|t| - 1])
  }

  // The kill switch was consulted since the last action.
  ghost predicate Armed<S>(t: seq<Event<S>>) {
    t != [] && (t[|t| - 1].Checked? || (!t[|t| - 1].IsAction() && Armed(t[..|t| - 1])))
  }

  ghost function Plans<S>(t: seq<Event<S>>): nat {
    if t == [] then 0 else Plans(t[..|t| - 1]) + if t[|t| - 1].Planned? then 1 else 0
  }

  ghost function Faults<S>(t: seq<Event<S>>): nat {
    if t == [] then 0 else Faults(t[..|t| - 1]) + if t[|t| - 1].Broke? then 1 else 0
  }

  ghost function Recoveries<S>(t: seq<Event<S>>): nat {
    if t == [] then 0 else Recoveries(t[..|t| - 1]) + if t[|t| - 1].Woke? then 1 else 0
  }

  // How many of the last looks in a row, with no action between them, saw this screen.
  ghost function Streak<S>(t: seq<Event<S>>, s: S): nat {
    if t == [] then 0
    else
      var e := t[|t| - 1];
      if e.Saw? && e.screen == s then Streak(t[..|t| - 1], s) + 1
      else if e.Saw? || e.SawNothing? || e.IsAction() then 0
      else Streak(t[..|t| - 1], s)
  }

  // What must be true of the past when an event happens.
  ghost predicate IsAllowed<S(!new)>(edges: seq<Edge<S>>, past: seq<Event<S>>, e: Event<S>) {
    && (e.IsAction() ==> Armed(past))
    && match e
       case PressedBack(ByEdge(edge)) =>
         edge in edges && edge.action == Back && LastSeen(past) == Some(edge.src)
       case Tapped(edge) =>
         && edge in edges && edge.action.Tap?
         && |past| >= 2 && past[|past| - 1] == Matched(edge) && past[|past| - 2] == Saw(edge.src)
       case Planned(target, path) =>
         LastSeen(past).Some? && IsFirstRoute(edges, LastSeen(past).value, target, path)
       case _ => true
  }

  ghost predicate IsSafe<S(!new)>(edges: seq<Edge<S>>, t: seq<Event<S>>) {
    forall k {:trigger t[k]} :: 0 <= k < |t| ==> IsAllowed(edges, t[..k], t[k])
  }

  lemma ExtendSafe<S(!new)>(edges: seq<Edge<S>>, t: seq<Event<S>>, e: Event<S>)
    requires IsSafe(edges, t) && IsAllowed(edges, t, e)
    ensures IsSafe(edges, t + [e])
  {
    forall k | 0 <= k < |t + [e]| ensures IsAllowed(edges, (t + [e])[..k], (t + [e])[k]) {
      assert (t + [e])[..k] == t[..k];
      assert t[..|t|] == t;
    }
  }

  lemma {:induction false} WalkLinks<S>(edges: seq<Edge<S>>, a: S, b: S, w: seq<Edge<S>>)
    requires IsWalk(edges, a, b, w)
    ensures forall k :: 0 <= k < |w| ==> w[k] in edges
    ensures forall k :: 0 < k < |w| ==> w[k].src == w[k - 1].dst
    ensures if w == [] then a == b else w[0].src == a && w[|w| - 1].dst == b
    decreases |w|
  {
    if w != [] {
      var rest := w[..|w| - 1];
      WalkLinks(edges, a, w[|w| - 1].src, rest);
      assert forall k :: 0 <= k < |rest| ==> w[k] == rest[k];
    }
  }

  class Ctx<S(==,!new,0)> {
    const edges: seq<Edge<S>>
    const entry: S
    var trace: seq<Event<S>>

    constructor (edges: seq<Edge<S>>, entry: S)
      ensures this.edges == edges && this.entry == entry && trace == []
    {
      this.edges, this.entry, trace := edges, entry, [];
    }

    ghost predicate Valid()
      reads this
    {
      IsSafe(edges, trace)
    }

    method Emit(e: Event<S>)
      requires Valid() && IsAllowed(edges, trace, e)
      modifies this
      ensures Valid() && trace == old(trace) + [e]
      ensures LastSeen(trace) == if e.Saw? then Some(e.screen) else old(LastSeen(trace))
      ensures Armed(trace) == (e.Checked? || (!e.IsAction() && old(Armed(trace))))
      ensures Plans(trace) == old(Plans(trace)) + if e.Planned? then 1 else 0
      ensures Faults(trace) == old(Faults(trace)) + if e.Broke? then 1 else 0
      ensures Recoveries(trace) == old(Recoveries(trace)) + if e.Woke? then 1 else 0
      ensures e.Saw? ==> Streak(trace, e.screen) == old(Streak(trace, e.screen)) + 1
      ensures e.Checked? || e.Broke? ==> forall s :: Streak(trace, s) == old(Streak(trace, s))
    {
      ExtendSafe(edges, trace, e);
      assert (trace + [e])[..|trace|] == trace;
      trace := trace + [e];
    }

    // The kill switch.
    method Check() returns (ok: bool)
      requires Valid()
      modifies this
      ensures Valid() && Plans(trace) == old(Plans(trace)) && LastSeen(trace) == old(LastSeen(trace))
      ensures Recoveries(trace) == old(Recoveries(trace)) && forall s :: Streak(trace, s) == old(Streak(trace, s))
      ensures Faults(trace) == old(Faults(trace)) + if ok then 0 else 1
      ensures ok ==> Armed(trace)
    {
      ok := *;
      if ok {
        Emit(Checked);
      } else {
        Emit(Broke);
      }
    }

    // Sleep consults the kill switch, then may be cancelled.
    method Sleep() returns (ok: bool)
      requires Valid()
      modifies this
      ensures Valid() && Plans(trace) == old(Plans(trace)) && LastSeen(trace) == old(LastSeen(trace))
      ensures Recoveries(trace) == old(Recoveries(trace)) && forall s :: Streak(trace, s) == old(Streak(trace, s))
      ensures Faults(trace) == old(Faults(trace)) + if ok then 0 else 1
      ensures ok ==> Armed(trace)
    {
      ok := Check();
      if ok {
        ok := *;
        if !ok {
          Emit(Broke);
        }
      }
    }

    // A device call that may fail: the action is on record either way.
    method Act(e: Event<S>) returns (ok: bool)
      requires Valid() && e.IsAction() && IsAllowed(edges, trace, e)
      modifies this
      ensures Valid() && trace == old(trace) + if ok then [e] else [e, Broke]
      ensures Plans(trace) == old(Plans(trace)) && LastSeen(trace) == old(LastSeen(trace))
      ensures Faults(trace) == old(Faults(trace)) + if ok then 0 else 1
      ensures Recoveries(trace) == old(Recoveries(trace)) + if e.Woke? then 1 else 0
    {
      Emit(e);
      ok := *;
      if !ok {
        Emit(Broke);
      }
    }

    method Recognize() returns (sight: Sight<S>)
      requires Valid()
      modifies this
      ensures Valid() && Plans(trace) == old(Plans(trace)) && Armed(trace) == old(Armed(trace))
      ensures Faults(trace) == old(Faults(trace)) + if sight.LookFailed? then 1 else 0
      ensures Recoveries(trace) == old(Recoveries(trace))
      ensures sight.Shows? ==> Streak(trace, sight.screen) == old(Streak(trace, sight.screen)) + 1
      ensures match sight
              case Shows(s) => trace == old(trace) + [Saw(s)] && LastSeen(trace) == Some(s)
              case _ => LastSeen(trace) == old(LastSeen(trace))
    {
      sight := *;
      match sight
      case Shows(s) => Emit(Saw(s));
      case ShowsNothing => Emit(SawNothing);
      case LookFailed => Emit(Broke);
    }

    // Wake, then back presses, then a restart awaited until the entry screen.
    method PanicRoute() returns (status: Status, screen: S)
      requires Valid()
      modifies this
      ensures Valid() && Plans(trace) == old(Plans(trace))
      ensures status != WrongScreen
      ensures status == Fine ==> LastSeen(trace) == Some(screen) && Armed(trace)
      ensures status == Fine ==> Recoveries(trace) > old(Recoveries(trace))
      ensures Recoveries(trace) >= old(Recoveries(trace))
      ensures if status == Failed then Faults(trace) > old(Faults(trace)) else Faults(trace) == old(Faults(trace))
    {
      screen := entry;
      var ok := Check();
      if !ok { return Failed, screen; }
      ok := Act(Woke);
      if !ok { return Failed, screen; }
      ok := Sleep();
      if !ok { return Failed, screen; }
      var r := Recognize();
      if r.Shows? { return Fine, r.screen; }
      if r.LookFailed? { return Failed, screen; }

      for i := 1 to PANIC_BACK_ATTEMPTS + 1
        invariant Valid() && Plans(trace) == old(Plans(trace)) && Armed(trace)
        invariant Faults(trace) == old(Faults(trace)) && Recoveries(trace) > old(Recoveries(trace))
      {
        ok := Check();
        if !ok { return Failed, screen; }
        ok := Act(PressedBack(ByPanic));
        if !ok { return Failed, screen; }
        ok := Sleep();
        if !ok { return Failed, screen; }
        r := Recognize();
        if r.Shows? { return Fine, r.screen; }
        if r.LookFailed? { return Failed, screen; }
      }

      ok := Act(Restarted);
      if !ok { return Failed, screen; }
      var pollsLeft: nat := *;
      while pollsLeft > 0
        invariant Valid() && Plans(trace) == old(Plans(trace))
        invariant Faults(trace) == old(Faults(trace)) && Recoveries(trace) > old(Recoveries(trace))
      {
        ok := Check();
        if !ok { return Failed, screen; }
        ok := Sleep();
        if !ok { return Failed, screen; }
        r := Recognize();
        if r.Shows? && r.screen == entry { return Fine, r.screen; }
        if r.LookFailed? { return Failed, screen; }
        pollsLeft := pollsLeft - 1;
      }
      Emit(Broke);                   // the entry screen never came up
      return Failed, screen;
    }

    method RecognizeOrRecover() returns (status: Status, screen: S)
      requires Valid() && Armed(trace)
      modifies this
      ensures Valid() && Plans(trace) == old(Plans(trace)) && status != WrongScreen
      ensures status == Fine ==> LastSeen(trace) == Some(screen) && Armed(trace)
      ensures if status == Failed then Faults(trace) > old(Faults(trace)) else Faults(trace) == old(Faults(trace))
    {
      var r := Recognize();
      match r
      case Shows(s) => return Fine, s;
      case ShowsNothing => status, screen := PanicRoute();
      case LookFailed => return Failed, entry;
    }

    method CurrentScreen() returns (status: Status, screen: S)
      requires Valid()
      modifies this
      ensures Valid() && Plans(trace) == old(Plans(trace)) && status != WrongScreen
      ensures status == Fine ==> LastSeen(trace) == Some(screen) && Armed(trace)
      ensures if status == Failed then Faults(trace) > old(Faults(trace)) else Faults(trace) == old(Faults(trace))
    {
      var ok := Check();
      if !ok { return Failed, entry; }
      status, screen := RecognizeOrRecover();
    }

    // Polls until the screen shows; gives up on a steady wrong one, and recovers
    // once when the time runs out.
    method WaitFor(screen: S) returns (status: Status)
      requires Valid()
      modifies this
      ensures Valid() && Plans(trace) == old(Plans(trace))
      ensures status == Fine ==> LastSeen(trace) == Some(screen)
      ensures status == WrongScreen ==>
        && LastSeen(trace).Some? && LastSeen(trace) != Some(screen)
        && (Streak(trace, LastSeen(trace).value) >= WRONG_SCREEN_STREAK || Recoveries(trace) > old(Recoveries(trace)))
      ensures if status == Failed then Faults(trace) > old(Faults(trace)) else Faults(trace) == old(Faults(trace))
    {
      var pollsLeft: nat := *;
      var streakScreen: Option<S>, streak := None, 0;
      while true
        invariant Valid() && Plans(trace) == old(Plans(trace))
        invariant Faults(trace) == old(Faults(trace)) && Recoveries(trace) == old(Recoveries(trace)) && streak >= 0
        invariant streakScreen.Some? ==> Streak(trace, streakScreen.value) >= streak
        decreases pollsLeft
      {
        var ok := Check();
        if !ok { return Failed; }
        var r := Recognize();
        match r {
          case Shows(s) =>
            if s == screen { return Fine; }
            if streakScreen == Some(s) {
              streak := streak + 1;
            } else {
              streakScreen, streak := Some(s), 1;
            }
            if streak >= WRONG_SCREEN_STREAK { return WrongScreen; }
          case ShowsNothing =>
            streakScreen, streak := None, 0;
          case LookFailed =>
            return Failed;
        }
        if pollsLeft == 0 {
          var st, s := PanicRoute();
          if st != Fine { return st; }
          return if s == screen then Fine else WrongScreen;
        }
        pollsLeft := pollsLeft - 1;
        ok := Sleep();
        if !ok { return Failed; }
      }
    }

    // Proves the screen by a fresh frame, with one recovery.
    method VerifyScreen(screen: S) returns (status: Status)
      requires Valid() && Armed(trace)
      modifies this
      ensures Valid() && Plans(trace) == old(Plans(trace))
      ensures status == Fine ==> |trace| > 0 && trace[|trace| - 1] == Saw(screen) && Armed(trace)
      ensures status == WrongScreen ==> LastSeen(trace).Some? && LastSeen(trace) != Some(screen)
      ensures if status == Failed then Faults(trace) > old(Faults(trace)) else Faults(trace) == old(Faults(trace))
    {
      var r := Recognize();
      if r.ShowsNothing? {
        var st, _ := PanicRoute();
        if st != Fine { return st; }
        r := Recognize();
      }
      match r
      case Shows(s) => return if s == screen then Fine else WrongScreen;
      case ShowsNothing =>
        Emit(Broke);
        return Failed;
      case LookFailed => return Failed;
    }

    // Finds the edge's anchor on a frame that shows its own screen.
    method FindAnchor(e: Edge<S>) returns (status: Status)
      requires Valid()
      modifies this
      ensures Valid() && Plans(trace) == old(Plans(trace))
      ensures status == Fine ==>
        |trace| >= 2 && trace[|trace| - 1] == Matched(e) && trace[|trace| - 2] == Saw(e.src) && Armed(trace)
      ensures status == WrongScreen ==> LastSeen(trace).Some? && LastSeen(trace) != Some(e.src)
      ensures if status == Failed then Faults(trace) > old(Faults(trace)) else Faults(trace) == old(Faults(trace))
    {
      var ok := Check();
      if !ok { return Failed; }
      status := VerifyScreen(e.src);
      if status != Fine { return; }
      ok := *;                       // the match errs or scores below its threshold
      if ok {
        Emit(Matched(e));
      } else {
        Emit(Broke);
        status := Failed;
      }
    }

    // Taps inside the anchor's match.
    method Tap(e: Edge<S>) returns (status: Status)
      requires Valid() && e in edges && e.action.Tap?
      modifies this
      ensures Valid() && Plans(trace) == old(Plans(trace))
      ensures status == Fine ==> |trace| > 0 && trace[|trace| - 1] == Tapped(e)
      ensures status == WrongScreen ==> LastSeen(trace).Some? && LastSeen(trace) != Some(e.src)
      ensures if status == Failed then Faults(trace) > old(Faults(trace)) else Faults(trace) == old(Faults(trace))
    {
      status := FindAnchor(e);
      if status != Fine { return; }
      var ok := Act(Tapped(e));
      return if ok then Fine else Failed;
    }

    // Executes edges until one lands unexpectedly or all succeed.
    method Walk(path: seq<Edge<S>>, ghost from: S, ghost to: S) returns (status: Status)
      requires Valid() && LastSeen(trace) == Some(from) && IsWalk(edges, from, to, path)
      modifies this
      ensures Valid() && Plans(trace) == old(Plans(trace))
      ensures status == Fine ==> LastSeen(trace) == Some(to)
      ensures if status == Failed then Faults(trace) > old(Faults(trace)) else Faults(trace) == old(Faults(trace))
    {
      WalkLinks(edges, from, to, path);
      for k := 0 to |path|
        invariant Valid() && Plans(trace) == old(Plans(trace))
        invariant LastSeen(trace) == Some(if k == 0 then from else path[k - 1].dst)
        invariant Faults(trace) == old(Faults(trace))
      {
        var e := path[k];
        match e.action {
          case Tap(_) =>
            var st := Tap(e);
            if st != Fine { return st; }
          case Back =>
            var ok := Check();
            if !ok { return Failed; }
            ok := Act(PressedBack(ByEdge(e)));
            if !ok { return Failed; }
        }
        var st := WaitFor(e.dst);
        if st != Fine { return st; }
      }
      return Fine;
    }

    // Walks the graph to the target, planning again from wherever a walk ends.
    method NavigateTo(target: S) returns (status: Status)
      requires Valid()
      modifies this
      ensures Valid()
      ensures Plans(trace) <= old(Plans(trace)) + MAX_REPLANS + 1
      ensures status == Fine ==> LastSeen(trace) == Some(target)
      ensures status != WrongScreen
      ensures status == Failed && Faults(trace) == old(Faults(trace)) ==>
        && LastSeen(trace).Some? && LastSeen(trace).value != target
        && (Plans(trace) == old(Plans(trace)) + MAX_REPLANS + 1 || !Reachable(edges, LastSeen(trace).value, target))
    {
      var attempt := 0;
      while true
        invariant Valid() && attempt <= MAX_REPLANS + 1
        invariant Plans(trace) == old(Plans(trace)) + attempt && Faults(trace) == old(Faults(trace))
        decreases MAX_REPLANS + 1 - attempt
      {
        var st, cur := CurrentScreen();
        if st != Fine { return st; }
        if cur == target { return Fine; }
        if attempt > MAX_REPLANS { return Failed; }
        var route := Path(edges, cur, target);
        if route.NoPath? { return Failed; }
        Emit(Planned(target, route.path));
        st := Walk(route.path, cur, target);
        if st == Failed { return Failed; }
        attempt := attempt + 1;
      }
    }
  }

  lemma NoTapOnUnrouted(e: Edge<Topology.Screen>)
    requires e in Topology.EDGES && e.action.Tap?
    ensures !Topology.IsUnrouted(e.src) && !Topology.IsUnrouted(e.dst)
  {
    var i :| 0 <= i < Topology.EDGE_COUNT && Topology.EDGES[i] == e;
    assert e == Topology.EdgeAt(i);
  }

  // On the production graph no tap is ever made on the stamina prompt, and no
  // route is ever planned into it.
  lemma PromptIsNeverTapped(t: seq<Event<Topology.Screen>>, k: nat)
    requires IsSafe(Topology.EDGES, t) && k < |t|
    ensures t[k].Tapped? ==> t[k].edge.src != Topology.StaminaPrompt && !Topology.IsUnrouted(t[k].edge.dst)
    ensures t[k].Planned? ==> forall i :: 0 <= i < |t[k].path| ==> !Topology.IsUnrouted(t[k].path[i].dst)
  {
    assert IsAllowed(Topology.EDGES, t[..k], t[k]);
    match t[k]
    case Tapped(e) =>
      NoTapOnUnrouted(e);
    case Planned(target, path) =>
      Topology.WalksAvoidUnrouted(LastSeen(t[..k]).value, target, path);
    case _ =>
  }
}
