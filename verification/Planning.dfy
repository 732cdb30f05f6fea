// The plan of one tick (internal/scheduler/schedule.go): the due pairs in a total
// order, whatever order the accounts and tasks came in.
module Planning {
  import opened Bags
  import opened Scheduler
  import Lexical

  // ------------------------------------------------------------------ who is due

  predicate RoleAllowed(role: string, allowedRoles: seq<string>) {
    exists i :: 0 <= i < |allowedRoles| && allowedRoles[i] == role
  }

  predicate WeekdayAllowed(day: int, days: seq<int>) {
    exists i :: 0 <= i < |days| && days[i] == day
  }

  predicate IsEligible(h: Hashes, now: int, a: Account, t: Task) {
    a.enabled && !InOfflineWindow(h, a.id, now) && t.enabled && RoleAllowed(a.role, t.roles) &&
    WeekdayAllowed(Weekday(now), t.days)
  }

  function DueOf(h: Hashes, now: int, s: Snapshot, a: Account, t: Task): int {
    var k := RunKey(a.id, t.name);
    DueTime(h, k, t.cadence, s.RunOf(k), now)
  }

  predicate IsDue(h: Hashes, now: int, s: Snapshot, a: Account, t: Task) {
    !s.paused && IsEligible(h, now, a, t) && now >= DueOf(h, now, s, a, t)
  }

  function DecisionOf(h: Hashes, now: int, s: Snapshot, a: Account, t: Task): Decision {
    Decision(a.id, t.name, now - DueOf(h, now, s, a, t))
  }

  // The due pairs of one account, and of all of them, in listing order.
  ghost function DueTasks(h: Hashes, now: int, s: Snapshot, a: Account, tasks: seq<Task>): seq<Decision> {
    if tasks == [] then []
    else
      var t := tasks[|tasks| - 1];
      DueTasks(h, now, s, a, tasks[..|tasks| - 1]) +
      if IsDue(h, now, s, a, t) then [DecisionOf(h, now, s, a, t)] else []
  }

  ghost function DuePairs(h: Hashes, now: int, s: Snapshot, accounts: seq<Account>, tasks: seq<Task>): seq<Decision> {
    if accounts == [] then []
    else DuePairs(h, now, s, accounts[..|accounts| - 1], tasks) + DueTasks(h, now, s, accounts[|accounts| - 1], tasks)
  }

  // ----------------------------------------------------------------------- order

  // x goes before y: more overdue, then the smaller task name, then account.
  predicate Before(x: Decision, y: Decision) {
    if x.overdue != y.overdue then x.overdue > y.overdue
    else if x.taskName != y.taskName then Lexical.Less(x.taskName, y.taskName)
    else x.accountId < y.accountId
  }

  lemma BeforeIsTotal(x: Decision, y: Decision)
    ensures Before(x, y) || x == y || Before(y, x)
    ensures !(Before(x, y) && Before(y, x)) && !Before(x, x)
  {
    Lexical.Trichotomy(x.taskName, y.taskName);
  }

  lemma BeforeIsTransitive(x: Decision, y: Decision, z: Decision)
    requires Before(x, y) && Before(y, z)
    ensures Before(x, z)
  {
    Lexical.Trichotomy(x.taskName, y.taskName);
    Lexical.Trichotomy(y.taskName, z.taskName);
    if && x.overdue == y.overdue == z.overdue
       && Lexical.Less(x.taskName, y.taskName) && Lexical.Less(y.taskName, z.taskName) {
      Lexical.Transitive(x.taskName, y.taskName, z.taskName);
      Lexical.Trichotomy(x.taskName, z.taskName);
    }
  }

  // No later entry goes before an earlier one.
  ghost predicate IsSorted(s: seq<Decision>) {
    forall i, j :: 0 <= i < j < |s| ==> !Before(s[j], s[i])
  }

  ghost predicate IsPlan(h: Hashes, now: int, s: Snapshot, plan: seq<Decision>) {
    multiset(plan) == multiset(DuePairs(h, now, s, s.accounts, s.tasks)) && IsSorted(plan)
  }

  // ----------------------------------------------------------------- the program

  method SortedInsert(s: seq<Decision>, d: Decision) returns (r: seq<Decision>)
    requires IsSorted(s)
    ensures IsSorted(r) && multiset(r) == multiset(s) + multiset{d}
  {
    var i := |s|;
    while i > 0 && Before(d, s[i - 1])
      invariant 0 <= i <= |s|
      invariant forall k :: i <= k < |s| ==> Before(d, s[k])
    {
      i := i - 1;
    }
    r := s[..i] + [d] + s[i..];
    InsertedIsSorted(s, d, i);
    assert s == s[..i] + s[i..];
  }

  lemma InsertedIsSorted(s: seq<Decision>, d: Decision, i: nat)
    requires IsSorted(s) && i <= |s|
    requires forall k :: i <= k < |s| ==> Before(d, s[k])
    requires i > 0 ==> !Before(d, s[i - 1])
    ensures IsSorted(s[..i] + [d] + s[i..])
  {
    forall k | 0 <= k < i ensures !Before(d, s[k]) {
      BeforeIsTotal(s[i - 1], s[k]);
      BeforeIsTotal(d, s[i - 1]);
      BeforeIsTotal(d, s[k]);
      if Before(d, s[k]) && k < i - 1 && s[k] != s[i - 1] {
        BeforeIsTransitive(d, s[k], s[i - 1]);
      }
    }
    forall k | i <= k < |s| ensures !Before(s[k], d) {
      BeforeIsTotal(d, s[k]);
    }
  }

  method Sort(s: seq<Decision>) returns (r: seq<Decision>)
    ensures IsSorted(r) && multiset(r) == multiset(s)
  {
    r := [];
    for i := 0 to |s|
      invariant IsSorted(r) && multiset(r) == multiset(s[..i])
    {
      assert s[..i + 1] == s[..i] + [s[i]];
      r := SortedInsert(r, s[i]);
    }
    assert s[..|s|] == s;
  }

  // Appends one account's due pairs.
  method AppendDue(h: Hashes, now: int, s: Snapshot, a: Account, out: seq<Decision>) returns (r: seq<Decision>)
    requires !s.paused && a.enabled && !InOfflineWindow(h, a.id, now)
    ensures r == out + DueTasks(h, now, s, a, s.tasks)
  {
    r := out;
    for j := 0 to |s.tasks|
      invariant r == out + DueTasks(h, now, s, a, s.tasks[..j])
    {
      var t := s.tasks[j];
      assert s.tasks[..j + 1][..j] == s.tasks[..j];
      if !t.enabled || !RoleAllowed(a.role, t.roles) || !WeekdayAllowed(Weekday(now), t.days) {
        continue;
      }
      var k := RunKey(a.id, t.name);
      var due := DueTime(h, k, t.cadence, s.RunOf(k), now);
      if now < due {
        continue;
      }
      r := r + [Decision(a.id, t.name, now - due)];
    }
    assert s.tasks[..|s.tasks|] == s.tasks;
  }

  lemma {:induction false} NobodyDue(h: Hashes, now: int, s: Snapshot, a: Account, tasks: seq<Task>)
    requires s.paused || !a.enabled || InOfflineWindow(h, a.id, now)
    ensures DueTasks(h, now, s, a, tasks) == []
    decreases |tasks|
  {
    if tasks != [] {
      NobodyDue(h, now, s, a, tasks[..|tasks| - 1]);
    }
  }

  lemma {:induction false} NobodyDueWhenPaused(h: Hashes, now: int, s: Snapshot, accounts: seq<Account>)
    requires s.paused
    ensures DuePairs(h, now, s, accounts, s.tasks) == []
    decreases |accounts|
  {
    if accounts != [] {
      NobodyDue(h, now, s, accounts[|accounts| - 1], s.tasks);
      NobodyDueWhenPaused(h, now, s, accounts[..|accounts| - 1]);
    }
  }

  method Plan(h: Hashes, now: int, s: Snapshot) returns (plan: seq<Decision>)
    ensures IsPlan(h, now, s, plan)
  {
    if s.paused {
      NobodyDueWhenPaused(h, now, s, s.accounts);
      return [];
    }
    var out: seq<Decision> := [];
    for i := 0 to |s.accounts|
      invariant out == DuePairs(h, now, s, s.accounts[..i], s.tasks)
    {
      var a := s.accounts[i];
      assert s.accounts[..i + 1][..i] == s.accounts[..i];
      if !a.enabled || InOfflineWindow(h, a.id, now) {
        NobodyDue(h, now, s, a, s.tasks);
        continue;
      }
      out := AppendDue(h, now, s, a, out);
    }
    assert s.accounts[..|s.accounts|] == s.accounts;
    plan := Sort(out);
  }

  // ----------------------------------------------------------------- main results

  lemma {:induction false} DueTasksMembers(h: Hashes, now: int, s: Snapshot, a: Account, tasks: seq<Task>, d: Decision)
    ensures d in DueTasks(h, now, s, a, tasks) <==>
      exists j :: 0 <= j < |tasks| && IsDue(h, now, s, a, tasks[j]) && d == DecisionOf(h, now, s, a, tasks[j])
    decreases |tasks|
  {
    if tasks != [] {
      var rest := tasks[..|tasks| - 1];
      DueTasksMembers(h, now, s, a, rest, d);
      assert forall j :: 0 <= j < |rest| ==> rest[j] == tasks[j];
    }
  }

  lemma {:induction false} DuePairsMembers(h: Hashes, now: int, s: Snapshot, accounts: seq<Account>, tasks: seq<Task>,
                                           d: Decision)
    ensures d in DuePairs(h, now, s, accounts, tasks) <==>
      exists i, j :: 0 <= i < |accounts| && 0 <= j < |tasks| && IsDue(h, now, s, accounts[i], tasks[j]) &&
        d == DecisionOf(h, now, s, accounts[i], tasks[j])
    decreases |accounts|
  {
    if accounts != [] {
      var rest, a := accounts[..|accounts| - 1], accounts[|accounts| - 1];
      DuePairsMembers(h, now, s, rest, tasks, d);
      DueTasksMembers(h, now, s, a, tasks, d);
      assert forall i :: 0 <= i < |rest| ==> rest[i] == accounts[i];
    }
  }

  // The plan lists exactly the eligible pairs that are due.
  lemma PlanListsExactlyTheDue(h: Hashes, now: int, s: Snapshot, plan: seq<Decision>, d: Decision)
    requires IsPlan(h, now, s, plan)
    ensures d in plan <==>
      exists i, j :: 0 <= i < |s.accounts| && 0 <= j < |s.tasks| && IsDue(h, now, s, s.accounts[i], s.tasks[j]) &&
        d == DecisionOf(h, now, s, s.accounts[i], s.tasks[j])
  {
    DuePairsMembers(h, now, s, s.accounts, s.tasks, d);
    assert d in plan <==> d in multiset(plan);
    assert d in DuePairs(h, now, s, s.accounts, s.tasks) <==> d in multiset(DuePairs(h, now, s, s.accounts, s.tasks));
  }

  // This account may run this task now: both are switched on, the account is in no offline
  // window, its role and the day are listed.
  ghost predicate MayRun(h: Hashes, now: int, a: Account, t: Task) {
    && a.enabled && t.enabled && a.role in t.roles && Weekday(now) in t.days
    && !exists day :: InWindowOf(h, a.id, day, now)
  }

  // How long ago the pair was due: just now if it never ran, else a spacing after its run.
  ghost function OverdueOf(h: Hashes, now: int, s: Snapshot, a: Account, t: Task): int {
    var k := RunKey(a.id, t.name);
    if k in s.runs && s.runs[k].hasRun then now - (s.runs[k].lastRun + Spacing(h, k, t.cadence, s.runs[k])) else 0
  }

  // The decision is this pair's, which may run and is due.
  ghost predicate RunsNow(h: Hashes, now: int, s: Snapshot, a: Account, t: Task, d: Decision) {
    && MayRun(h, now, a, t) && OverdueOf(h, now, s, a, t) >= 0
    && d == Decision(a.id, t.name, OverdueOf(h, now, s, a, t))
  }

  lemma DueIffMayRun(h: Hashes, now: int, s: Snapshot, a: Account, t: Task)
    ensures IsDue(h, now, s, a, t) <==> !s.paused && MayRun(h, now, a, t) && OverdueOf(h, now, s, a, t) >= 0
    ensures DecisionOf(h, now, s, a, t) == Decision(a.id, t.name, OverdueOf(h, now, s, a, t))
  {
    OfflineIffSomeWindow(h, a.id, now);
  }

  // What is planned, in the terms of the accounts and tasks themselves; a paused system
  // plans nothing.
  lemma PlannedIffItMayRun(h: Hashes, now: int, s: Snapshot, plan: seq<Decision>, d: Decision)
    requires IsPlan(h, now, s, plan)
    ensures d in plan <==>
              !s.paused && exists a, t :: a in s.accounts && t in s.tasks && RunsNow(h, now, s, a, t, d)
  {
    PlanListsExactlyTheDue(h, now, s, plan, d);
    if d in plan {
      var i, j :| 0 <= i < |s.accounts| && 0 <= j < |s.tasks| && IsDue(h, now, s, s.accounts[i], s.tasks[j]) &&
                  d == DecisionOf(h, now, s, s.accounts[i], s.tasks[j]);
      DueIffMayRun(h, now, s, s.accounts[i], s.tasks[j]);
      assert RunsNow(h, now, s, s.accounts[i], s.tasks[j], d);
    }
    if a, t :| a in s.accounts && t in s.tasks && RunsNow(h, now, s, a, t, d) {
      DueIffMayRun(h, now, s, a, t);
      var i :| 0 <= i < |s.accounts| && s.accounts[i] == a;
      var j :| 0 <= j < |s.tasks| && s.tasks[j] == t;
      assert !s.paused ==> IsDue(h, now, s, s.accounts[i], s.tasks[j]);
    }
  }

  // Down the plan pairs are less and less overdue; equally overdue ones go by task name,
  // and those of one task by account.
  lemma PlanIsInOrder(h: Hashes, now: int, s: Snapshot, plan: seq<Decision>, i: nat, j: nat)
    requires IsPlan(h, now, s, plan) && i < j < |plan|
    ensures plan[i].overdue >= plan[j].overdue
    ensures plan[i].overdue == plan[j].overdue ==>
              || Lexical.Less(plan[i].taskName, plan[j].taskName)
              || (plan[i].taskName == plan[j].taskName && plan[i].accountId <= plan[j].accountId)
  {
    assert !Before(plan[j], plan[i]);
    Lexical.Trichotomy(plan[i].taskName, plan[j].taskName);
  }

  // Sorting leaves one answer.
  lemma {:induction false} SortedIsUnique(a: seq<Decision>, b: seq<Decision>)
    requires IsSorted(a) && IsSorted(b) && multiset(a) == multiset(b)
    ensures a == b
    decreases |a|
  {
    assert |multiset(a)| == |a| && |multiset(b)| == |b|;
    if a != [] {
      HeadsAgree(a, b);
      WithoutLosesOne(a, 0);
      WithoutLosesOne(b, 0);
      assert Without(a, 0) == a[1..] && Without(b, 0) == b[1..];
      SortedIsUnique(a[1..], b[1..]);
    }
  }

  lemma HeadsAgree(a: seq<Decision>, b: seq<Decision>)
    requires IsSorted(a) && IsSorted(b) && multiset(a) == multiset(b) && a != [] && b != []
    ensures a[0] == b[0]
  {
    assert a[0] in multiset(b) && b[0] in multiset(a);
    var j :| 0 <= j < |b| && b[j] == a[0];
    var i :| 0 <= i < |a| && a[i] == b[0];
    BeforeIsTotal(a[0], b[0]);
  }

  ghost function TaskBag(h: Hashes, now: int, s: Snapshot, a: Account): Task -> multiset<Decision> {
    t => if IsDue(h, now, s, a, t) then multiset{DecisionOf(h, now, s, a, t)} else multiset{}
  }

  ghost function AccountBag(h: Hashes, now: int, s: Snapshot, tasks: seq<Task>): Account -> multiset<Decision> {
    a => Collect(TaskBag(h, now, s, a), tasks)
  }

  lemma {:induction false} DueTasksAreABag(h: Hashes, now: int, s: Snapshot, a: Account, tasks: seq<Task>)
    ensures multiset(DueTasks(h, now, s, a, tasks)) == Collect(TaskBag(h, now, s, a), tasks)
    decreases |tasks|
  {
    if tasks != [] {
      DueTasksAreABag(h, now, s, a, tasks[..|tasks| - 1]);
    }
  }

  lemma {:induction false} DuePairsAreABag(h: Hashes, now: int, s: Snapshot, accounts: seq<Account>, tasks: seq<Task>)
    ensures multiset(DuePairs(h, now, s, accounts, tasks)) == Collect(AccountBag(h, now, s, tasks), accounts)
    decreases |accounts|
  {
    if accounts != [] {
      DuePairsAreABag(h, now, s, accounts[..|accounts| - 1], tasks);
      DueTasksAreABag(h, now, s, accounts[|accounts| - 1], tasks);
    }
  }

  // A snapshot listing the same accounts and tasks in another order.
  ghost predicate SameButReordered(s: Snapshot, s': Snapshot) {
    && s.paused == s'.paused && s.runs == s'.runs
    && multiset(s.accounts) == multiset(s'.accounts) && multiset(s.tasks) == multiset(s'.tasks)
  }

  lemma AccountBagReordered(h: Hashes, now: int, s: Snapshot, s': Snapshot, a: Account)
    requires SameButReordered(s, s')
    ensures AccountBag(h, now, s, s.tasks)(a) == AccountBag(h, now, s', s'.tasks)(a)
  {
    OrderIsIrrelevant(TaskBag(h, now, s, a), s.tasks, s'.tasks);
    forall t ensures TaskBag(h, now, s, a)(t) == TaskBag(h, now, s', a)(t) {
      assert s.RunOf(RunKey(a.id, t.name)) == s'.RunOf(RunKey(a.id, t.name));
    }
    SameParts(TaskBag(h, now, s, a), TaskBag(h, now, s', a), s'.tasks);
  }

  // The plan does not depend on the order the snapshot lists things in.
  lemma PlanIgnoresListingOrder(h: Hashes, now: int, s: Snapshot, s': Snapshot, plan: seq<Decision>,
                                plan': seq<Decision>)
    requires SameButReordered(s, s') && IsPlan(h, now, s, plan) && IsPlan(h, now, s', plan')
    ensures plan == plan'
  {
    DuePairsAreABag(h, now, s, s.accounts, s.tasks);
    DuePairsAreABag(h, now, s', s'.accounts, s'.tasks);
    OrderIsIrrelevant(AccountBag(h, now, s, s.tasks), s.accounts, s'.accounts);
    forall a ensures AccountBag(h, now, s, s.tasks)(a) == AccountBag(h, now, s', s'.tasks)(a) {
      AccountBagReordered(h, now, s, s', a);
    }
    SameParts(AccountBag(h, now, s, s.tasks), AccountBag(h, now, s', s'.tasks), s'.accounts);
    SortedIsUnique(plan, plan');
  }
}
