// The scheduler loop (internal/scheduler/loop.go): one execution per tick, and
// how long a due pair can be kept waiting.
module TickLoop {
  import opened Scheduler
  import opened Planning
  import opened Wrappers
  import IntSets

  // What recording an attempt at a pair does to the store.
  ghost predicate IsRecorded(before: map<RunKey, RunState>, after: map<RunKey, RunState>, k: RunKey, now: int,
                             rs: RunState) {
    rs.hasRun && rs.lastRun >= now && after == before[k := rs]
  }

  // The loop over a store: runs is what the store would put in the next snapshot.
  class Loop {
    const h: Hashes
    var runs: map<RunKey, RunState>

    constructor (h: Hashes, runs: map<RunKey, RunState>)
      ensures this.h == h && this.runs == runs
    {
      this.h, this.runs := h, runs;
    }

    // Runs one task.  An attempt that did work is recorded with a start no earlier
    // than the tick; a paused one is not recorded at all.
    method Execute(k: RunKey, now: int) returns (recorded: bool)
      modifies this
      ensures !recorded ==> runs == old(runs)
      ensures recorded ==> exists rs :: IsRecorded(old(runs), runs, k, now, rs)
    {
      recorded := *;
      if recorded {
        var delay: int :| delay >= 0;
        var failures: int :| failures >= 0;
        var rs := RunState(now + delay, true, failures);
        runs := runs[k := rs];
        assert IsRecorded(old(runs), runs, k, now, rs);
      }
    }

    // Plans, and executes the single most overdue decision.
    method TickOnce(now: int, snap: Snapshot) returns (executed: Option<RunKey>, recorded: bool)
      requires snap.runs == runs
      modifies this
      ensures exists plan: seq<Decision> ::
                && IsPlan(h, now, snap, plan)
                && executed == if plan == [] then None else Some(plan[0].Key())
      ensures executed.None? ==> runs == old(runs)
      ensures executed.Some? && !recorded ==> runs == old(runs)
      ensures executed.Some? && recorded ==>
        exists rs :: IsRecorded(old(runs), runs, executed.value, now, rs)
    {
      var plan := Plan(h, now, snap);
      if |plan| == 0 {
        return None, false;
      }
      var d := plan[0];
      recorded := Execute(d.Key(), now);
      return Some(d.Key()), recorded;
    }
  }

  // ------------------------------------------------------------- runs of ticks

  // recorded says whether the attempt left a trace; a paused or failed one does not.
  datatype Tick = Tick(now: int, snap: Snapshot, plan: seq<Decision>, recorded: bool) {
    ghost predicate Serves(k: RunKey) {
      plan != [] && plan[0].Key() == k
    }
  }

  // The next tick is no earlier and sees the served pair run since this one, if the
  // attempt was recorded.
  ghost predicate Follows(t: Tick, next: Tick) {
    && t.now <= next.now
    && if t.plan == [] || !t.recorded then next.snap.runs == t.snap.runs
       else exists rs :: IsRecorded(t.snap.runs, next.snap.runs, t.plan[0].Key(), t.now, rs)
  }

  ghost predicate FollowsAt(ticks: seq<Tick>, i: int)
    requires 0 <= i < |ticks| - 1
  {
    Follows(ticks[i], ticks[i + 1])
  }

  ghost predicate IsTick(h: Hashes, t: Tick) {
    IsPlan(h, t.now, t.snap, t.plan) && forall j :: 0 <= j < |t.snap.tasks| ==> t.snap.tasks[j].cadence > 0
  }

  ghost predicate IsRun(h: Hashes, ticks: seq<Tick>) {
    && (forall i {:trigger IsTick(h, ticks[i])} :: 0 <= i < |ticks| ==> IsTick(h, ticks[i]))
    && (forall i {:trigger FollowsAt(ticks, i)} :: 0 <= i < |ticks| - 1 ==> FollowsAt(ticks, i))
  }

  // The pair is listed and may run.
  ghost predicate StaysEligible(h: Hashes, t: Tick, a: Account, task: Task) {
    a in t.snap.accounts && task in t.snap.tasks && !t.snap.paused && IsEligible(h, t.now, a, task)
  }

  // ---------------------------------------------------------- bounded waiting

  lemma EligibleAndDueIsPlanned(h: Hashes, t: Tick, a: Account, task: Task)
    requires IsTick(h, t) && StaysEligible(h, t, a, task) && t.now >= DueOf(h, t.now, t.snap, a, task)
    ensures DecisionOf(h, t.now, t.snap, a, task) in t.plan
  {
    PlanListsExactlyTheDue(h, t.now, t.snap, t.plan, DecisionOf(h, t.now, t.snap, a, task));
    var i :| 0 <= i < |t.snap.accounts| && t.snap.accounts[i] == a;
    var j :| 0 <= j < |t.snap.tasks| && t.snap.tasks[j] == task;
    assert IsDue(h, t.now, t.snap, t.snap.accounts[i], t.snap.tasks[j]);
  }

  // A due pair is in the plan, and whoever heads the plan is at least as overdue.
  lemma HeadIsMoreOverdue(h: Hashes, t: Tick, a: Account, task: Task)
    requires IsTick(h, t) && StaysEligible(h, t, a, task) && t.now >= DueOf(h, t.now, t.snap, a, task)
    ensures t.plan != [] && t.plan[0].overdue >= t.now - DueOf(h, t.now, t.snap, a, task)
  {
    var d := DecisionOf(h, t.now, t.snap, a, task);
    EligibleAndDueIsPlanned(h, t, a, task);
    var k :| 0 <= k < |t.plan| && t.plan[k] == d;
    assert k > 0 ==> !Before(t.plan[k], t.plan[0]);
  }

  // A pair that has run is overdue by less than the time since it ran.
  lemma OverdueBelowAge(h: Hashes, t: Tick, d: Decision)
    requires IsTick(h, t) && d in t.plan && t.snap.RunOf(d.Key()).hasRun
    ensures d.overdue < t.now - t.snap.RunOf(d.Key()).lastRun
  {
    PlanListsExactlyTheDue(h, t.now, t.snap, t.plan, d);
    var i, j :| 0 <= i < |t.snap.accounts| && 0 <= j < |t.snap.tasks| &&
                IsDue(h, t.now, t.snap, t.snap.accounts[i], t.snap.tasks[j]) &&
        d == DecisionOf(h, t.now, t.snap, t.snap.accounts[i], t.snap.tasks[j]);
    SpacingBounds(h, d.Key(), t.snap.tasks[j].cadence, t.snap.RunOf(d.Key()));
  }

  ghost function Served(ticks: seq<Tick>, n: nat): set<RunKey>
    requires n <= |ticks|
  {
    if n == 0 then {}
    else
      Served(ticks, n - 1) +
      if ticks[n - 1].plan == [] || !ticks[n - 1].recorded then {} else {ticks[n - 1].plan[0].Key()}
  }

  // The attempts that left no trace.
  ghost function Lost(ticks: seq<Tick>, n: nat): nat
    requires n <= |ticks|
  {
    if n == 0 then 0 else Lost(ticks, n - 1) + if ticks[n - 1].plan != [] && !ticks[n - 1].recorded then 1 else 0
  }

  // As long as the waiting pair is passed over, every recorded tick serves somebody new.
  ghost predicate PassedOver(ticks: seq<Tick>, n: nat, p: RunKey)
    requires 0 < |ticks| && n < |ticks|
  {
    && ticks[0].now <= ticks[n].now
    && ticks[n].snap.RunOf(p) == ticks[0].snap.RunOf(p)
    && p !in Served(ticks, n) && |Served(ticks, n)| + Lost(ticks, n) == n
    && forall k :: k in Served(ticks, n) ==>
         ticks[n].snap.RunOf(k).hasRun && ticks[n].snap.RunOf(k).lastRun >= ticks[0].now
  }

  ghost predicate WaitsFrom(h: Hashes, ticks: seq<Tick>, a: Account, task: Task) {
    && |ticks| > 0
    && (forall i {:trigger StaysEligible(h, ticks[i], a, task)} :: 0 <= i < |ticks| ==>
          StaysEligible(h, ticks[i], a, task))
    && ticks[0].snap.RunOf(RunKey(a.id, task.name)).hasRun
    && ticks[0].now >= DueOf(h, ticks[0].now, ticks[0].snap, a, task)
  }

  // The pair at the head is one nobody served before.
  lemma HeadIsNew(h: Hashes, ticks: seq<Tick>, a: Account, task: Task, n: nat)
    requires IsRun(h, ticks) && WaitsFrom(h, ticks, a, task) && n < |ticks|
    requires PassedOver(ticks, n, RunKey(a.id, task.name))
    ensures ticks[n].plan != [] && ticks[n].plan[0].Key() !in Served(ticks, n)
  {
    var t := ticks[n];
    assert IsTick(h, t) && StaysEligible(h, t, a, task);
    HeadIsMoreOverdue(h, t, a, task);
    var k := t.plan[0].Key();
    if k in Served(ticks, n) {
      OverdueBelowAge(h, t, t.plan[0]);
    }
  }

  // A tick that serves a new pair, and not the waiting one, keeps it passed over.
  lemma OneMoreTick(ticks: seq<Tick>, n: nat, p: RunKey)
    requires 0 < n < |ticks| && PassedOver(ticks, n - 1, p) && FollowsAt(ticks, n - 1)
    requires ticks[n - 1].plan != [] && ticks[n - 1].plan[0].Key() != p &&
             ticks[n - 1].plan[0].Key() !in Served(ticks, n - 1)
    ensures PassedOver(ticks, n, p)
  {
    var t, next := ticks[n - 1], ticks[n];
    var k := t.plan[0].Key();
    if t.recorded {
      var rs :| IsRecorded(t.snap.runs, next.snap.runs, k, t.now, rs);
      forall q | q in Served(ticks, n) ensures next.snap.RunOf(q).hasRun && next.snap.RunOf(q).lastRun >= ticks[0].now {
        if q != k {
          assert next.snap.RunOf(q) == t.snap.RunOf(q);
        }
      }
    }
  }

  lemma {:induction false} EachTickServesANewPair(h: Hashes, ticks: seq<Tick>, a: Account, task: Task, n: nat)
    requires IsRun(h, ticks) && WaitsFrom(h, ticks, a, task) && n < |ticks|
    requires forall i :: 0 <= i < n ==> !ticks[i].Serves(RunKey(a.id, task.name))
    ensures PassedOver(ticks, n, RunKey(a.id, task.name))
    decreases n
  {
    if n > 0 {
      var p := RunKey(a.id, task.name);
      EachTickServesANewPair(h, ticks, a, task, n - 1);
      HeadIsNew(h, ticks, a, task, n - 1);
      assert !ticks[n - 1].Serves(p) && FollowsAt(ticks, n - 1);
      OneMoreTick(ticks, n, p);
    }
  }

  // Whatever is planned first on any tick is one of these pairs.
  ghost predicate PlansAmong(ticks: seq<Tick>, keys: set<RunKey>) {
    forall i :: 0 <= i < |ticks| && ticks[i].plan != [] ==> ticks[i].plan[0].Key() in keys
  }

  ghost predicate NeverServes(ticks: seq<Tick>, n: nat, p: RunKey)
    requires n <= |ticks|
  {
    forall i :: 0 <= i < n ==> !ticks[i].Serves(p)
  }

  // Two pairs that were not served leave room among the keys.
  lemma TwoUnserved(served: set<RunKey>, keys: set<RunKey>, p: RunKey, q: RunKey)
    requires served <= keys && p in keys && q in keys && p != q && p !in served && q !in served
    ensures |served| + 2 <= |keys|
  {
    IntSets.SubsetIsSmaller(served + {q} + {p}, keys);
  }

  // When the tick after n others is about to serve yet another pair, all of those
  // served, that pair and the waiting one are different keys.
  lemma PassedOverIsShort(ticks: seq<Tick>, keys: set<RunKey>, p: RunKey, n: nat)
    requires n < |ticks| && PassedOver(ticks, n, p) && ticks[n].plan != []
    requires ticks[n].plan[0].Key() != p && ticks[n].plan[0].Key() !in Served(ticks, n)
    requires p in keys && PlansAmong(ticks, keys)
    ensures n + 2 <= |keys| + Lost(ticks, n + 1)
  {
    ServedAreKeys(ticks, keys, n);
    TwoUnserved(Served(ticks, n), keys, p, ticks[n].plan[0].Key());
    assert Lost(ticks, n) <= Lost(ticks, n + 1);
  }

  // A pair that waits unserved does so for fewer ticks than there are pairs and lost
  // attempts.
  lemma UnservedIsShort(h: Hashes, ticks: seq<Tick>, keys: set<RunKey>, a: Account, task: Task)
    requires IsRun(h, ticks) && WaitsFrom(h, ticks, a, task)
    requires PlansAmong(ticks, keys)
    requires RunKey(a.id, task.name) in keys
    requires NeverServes(ticks, |ticks|, RunKey(a.id, task.name))
    ensures |ticks| < |keys| + Lost(ticks, |ticks|)
  {
    LastIsNew(h, ticks, a, task, |ticks| - 1);
    PassedOverIsShort(ticks, keys, RunKey(a.id, task.name), |ticks| - 1);
  }

  // A tick that leaves the waiting pair unserved serves yet another one.
  lemma LastIsNew(h: Hashes, ticks: seq<Tick>, a: Account, task: Task, n: nat)
    requires IsRun(h, ticks) && WaitsFrom(h, ticks, a, task) && n < |ticks|
    requires NeverServes(ticks, n + 1, RunKey(a.id, task.name))
    ensures PassedOver(ticks, n, RunKey(a.id, task.name)) && ticks[n].plan != []
    ensures ticks[n].plan[0].Key() != RunKey(a.id, task.name) && ticks[n].plan[0].Key() !in Served(ticks, n)
  {
    EachTickServesANewPair(h, ticks, a, task, n);
    HeadIsNew(h, ticks, a, task, n);
    assert !ticks[n].Serves(RunKey(a.id, task.name));
  }

  // Among N pairs, one that has run before, is due and stays eligible is served
  // within N ticks, and one more for every attempt that left no trace.
  lemma BoundedWaiting(h: Hashes, ticks: seq<Tick>, keys: set<RunKey>, a: Account, task: Task)
    requires IsRun(h, ticks) && WaitsFrom(h, ticks, a, task)
    requires PlansAmong(ticks, keys)
    requires RunKey(a.id, task.name) in keys && |ticks| >= |keys| + Lost(ticks, |ticks|)
    ensures exists i :: 0 <= i < |ticks| && ticks[i].Serves(RunKey(a.id, task.name))
  {
    if NeverServes(ticks, |ticks|, RunKey(a.id, task.name)) {
      UnservedIsShort(h, ticks, keys, a, task);
    }
  }

  lemma {:induction false} ServedAreKeys(ticks: seq<Tick>, keys: set<RunKey>, n: nat)
    requires n <= |ticks|
    requires PlansAmong(ticks, keys)
    ensures Served(ticks, n) <= keys
    decreases n
  {
    if n > 0 {
      ServedAreKeys(ticks, keys, n - 1);
    }
  }

  // ------------------------------------------------------------- never-run pairs

  // On any tick a never-run pair is due by 0 and no more; it is served exactly when
  // nobody is overdue by more than that and no equally overdue pair sorts ahead.
  lemma NeverRunIsServedIff(h: Hashes, t: Tick, a: Account, task: Task)
    requires IsTick(h, t) && StaysEligible(h, t, a, task) && !t.snap.RunOf(RunKey(a.id, task.name)).hasRun
    ensures DecisionOf(h, t.now, t.snap, a, task).overdue == 0
    ensures t.Serves(RunKey(a.id, task.name)) <==>
      forall i, j {:trigger t.snap.accounts[i], t.snap.tasks[j]} ::
        0 <= i < |t.snap.accounts| && 0 <= j < |t.snap.tasks| &&
        IsDue(h, t.now, t.snap, t.snap.accounts[i], t.snap.tasks[j]) ==>
          !Before(DecisionOf(h, t.now, t.snap, t.snap.accounts[i], t.snap.tasks[j]),
                  DecisionOf(h, t.now, t.snap, a, task))
  {
    var mine := DecisionOf(h, t.now, t.snap, a, task);
    HeadIsMoreOverdue(h, t, a, task);
    var head := t.plan[0];
    PlanListsExactlyTheDue(h, t.now, t.snap, t.plan, head);
    var i, j :| 0 <= i < |t.snap.accounts| && 0 <= j < |t.snap.tasks| &&
                IsDue(h, t.now, t.snap, t.snap.accounts[i], t.snap.tasks[j]) &&
      head == DecisionOf(h, t.now, t.snap, t.snap.accounts[i], t.snap.tasks[j]);
    if t.Serves(mine.Key()) {
      assert head == mine;
      forall u, v {:trigger t.snap.accounts[u], t.snap.tasks[v]}
        | 0 <= u < |t.snap.accounts| && 0 <= v < |t.snap.tasks| &&
        IsDue(h, t.now, t.snap, t.snap.accounts[u], t.snap.tasks[v])
        ensures !Before(DecisionOf(h, t.now, t.snap, t.snap.accounts[u], t.snap.tasks[v]), mine)
      {
        var d := DecisionOf(h, t.now, t.snap, t.snap.accounts[u], t.snap.tasks[v]);
        PlanListsExactlyTheDue(h, t.now, t.snap, t.plan, d);
        HeadGoesFirst(h, t, d);
      }
    } else {
      EligibleAndDueIsPlanned(h, t, a, task);
      HeadGoesFirst(h, t, mine);
      BeforeIsTotal(head, mine);
    }
  }

  // Nothing due goes before the head of the plan.
  lemma HeadGoesFirst(h: Hashes, t: Tick, d: Decision)
    requires IsTick(h, t) && d in t.plan
    ensures !Before(d, t.plan[0])
  {
    var k :| 0 <= k < |t.plan| && t.plan[k] == d;
    BeforeIsTotal(d, d);
    assert k > 0 ==> !Before(t.plan[k], t.plan[0]);
  }

  // ----------------------------------------------------------------- starvation

  // A never-run pair has no such bound.  One account, two hourly tasks, one tick a
  // day at noon: the task that has run is always a day overdue, the other always
  // just due.
  const FRESH := Task("fresh", 60 * MINUTE, ["main"], [0, 1, 2, 3, 4, 5, 6], true)
  const STALE := Task("stale", 60 * MINUTE, ["main"], [0, 1, 2, 3, 4, 5, 6], true)
  const ONLY := Account(1, "main", true)
  const STALE_KEY := RunKey(1, "stale")
  const FRESH_KEY := RunKey(1, "fresh")

  // A hash under which windows start at 21:20 and no jitter is added.
  const CALM := Hashes((accountId: int, day: int) => 20000, (accountId: int, task: string, lastRun: int) => 20000)

  function NoonOf(k: nat): int {
    k * DAY + 720 * MINUTE
  }

  function StarvingSnapshot(k: nat): Snapshot {
    Snapshot(false, [ONLY], [FRESH, STALE], map[STALE_KEY := RunState(NoonOf(k) - DAY, true, 0)])
  }

  lemma NoonIsOnline(k: nat)
    ensures DayOf(NoonOf(k)) == k && !InOfflineWindow(CALM, 1, NoonOf(k))
    ensures 0 <= Weekday(NoonOf(k)) <= 6
  {
    DivUnique(NoonOf(k), k, 720 * MINUTE);
    assert CALM.day(1, k) == 20000 && CALM.day(1, k - 1) == 20000;
  }

  lemma StaleIsOverdue(k: nat)
    ensures IsDue(CALM, NoonOf(k), StarvingSnapshot(k), ONLY, STALE)
    ensures DecisionOf(CALM, NoonOf(k), StarvingSnapshot(k), ONLY, STALE).overdue == DAY - 60 * MINUTE
  {
    NoonIsOnline(k);
    AlwaysAllowed(STALE, Weekday(NoonOf(k)));
    assert CALM.run(1, "stale", NoonOf(k) - DAY) == 20000;
    assert StarvingSnapshot(k).RunOf(STALE_KEY) == RunState(NoonOf(k) - DAY, true, 0);
  }

  lemma FreshIsJustDue(k: nat)
    ensures IsDue(CALM, NoonOf(k), StarvingSnapshot(k), ONLY, FRESH)
    ensures DecisionOf(CALM, NoonOf(k), StarvingSnapshot(k), ONLY, FRESH).overdue == 0
  {
    NoonIsOnline(k);
    AlwaysAllowed(FRESH, Weekday(NoonOf(k)));
    assert FRESH_KEY != STALE_KEY;
  }

  lemma AlwaysAllowed(t: Task, day: int)
    requires t.days == [0, 1, 2, 3, 4, 5, 6] && t.roles == ["main"] && 0 <= day <= 6
    ensures WeekdayAllowed(day, t.days) && RoleAllowed("main", t.roles)
  {
    assert t.days[day] == day && t.roles[0] == "main";
  }

  // At every tick of this endless run the fresh task is due and listed, the stale
  // one is served, and serving it leads to the next tick.
  lemma NeverRunPairStarves(k: nat, plan: seq<Decision>, next: seq<Decision>)
    requires IsPlan(CALM, NoonOf(k), StarvingSnapshot(k), plan)
    ensures DecisionOf(CALM, NoonOf(k), StarvingSnapshot(k), ONLY, FRESH) in plan
    ensures Tick(NoonOf(k), StarvingSnapshot(k), plan, true).Serves(STALE_KEY)
    ensures Follows(Tick(NoonOf(k), StarvingSnapshot(k), plan, true),
                    Tick(NoonOf(k + 1), StarvingSnapshot(k + 1), next, true))
  {
    var s := StarvingSnapshot(k);
    StaleIsOverdue(k);
    FreshIsJustDue(k);
    PlanListsExactlyTheDue(CALM, NoonOf(k), s, plan, DecisionOf(CALM, NoonOf(k), s, ONLY, FRESH));
    PlanListsExactlyTheDue(CALM, NoonOf(k), s, plan, DecisionOf(CALM, NoonOf(k), s, ONLY, STALE));
    assert s.accounts[0] == ONLY && s.tasks[0] == FRESH && s.tasks[1] == STALE;
    HeadIsStale(k, plan);
    assert IsRecorded(s.runs, StarvingSnapshot(k + 1).runs, STALE_KEY, NoonOf(k),
                      RunState(NoonOf(k + 1) - DAY, true, 0));
  }

  lemma HeadIsStale(k: nat, plan: seq<Decision>)
    requires IsPlan(CALM, NoonOf(k), StarvingSnapshot(k), plan)
    requires DecisionOf(CALM, NoonOf(k), StarvingSnapshot(k), ONLY, STALE) in plan
    ensures plan != [] && plan[0].Key() == STALE_KEY
  {
    var s := StarvingSnapshot(k);
    var stale := DecisionOf(CALM, NoonOf(k), s, ONLY, STALE);
    StaleIsOverdue(k);
    FreshIsJustDue(k);
    PlanListsExactlyTheDue(CALM, NoonOf(k), s, plan, plan[0]);
    var i, j :| 0 <= i < |s.accounts| && 0 <= j < |s.tasks| && IsDue(CALM, NoonOf(k), s, s.accounts[i], s.tasks[j]) &&
      plan[0] == DecisionOf(CALM, NoonOf(k), s, s.accounts[i], s.tasks[j]);
    var m :| 0 <= m < |plan| && plan[m] == stale;
    assert m > 0 ==> !Before(plan[m], plan[0]);
  }
}
