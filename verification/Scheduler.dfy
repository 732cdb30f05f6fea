// Planning (internal/scheduler/schedule.go, backoff.go, window.go): which pairs
// are due, and in what order.  Time is in nanoseconds on a calendar of days of
// fixed length; the hash is a parameter.
module Scheduler {

  const MINUTE: int := 60_000_000_000
  const DAY: int := 1440 * MINUTE
  const MAX_BACKOFF_FAILURES := 5

  datatype Account = Account(id: int, role: string, enabled: bool)

  datatype Task = Task(name: string, cadence: int, roles: seq<string>, days: seq<int>, enabled: bool)

  datatype RunKey = RunKey(accountId: int, taskName: string)

  datatype RunState = RunState(lastRun: int, hasRun: bool, failures: int)

  const NEVER_RUN := RunState(0, false, 0)

  datatype Snapshot = Snapshot(paused: bool, accounts: seq<Account>, tasks: seq<Task>, runs: map<RunKey, RunState>) {
    function RunOf(k: RunKey): RunState {
      if k in runs then runs[k] else NEVER_RUN
    }
  }

  datatype Decision = Decision(accountId: int, taskName: string, overdue: int) {
    function Key(): RunKey {
      RunKey(accountId, taskName)
    }
  }

  // The hash of an account and a day, and of a pair and its last run.
  datatype Hashes = Hashes(day: (int, int) -> nat, run: (int, string, int) -> nat)

  // ----------------------------------------------------------- offline window

  function DayOf(now: int): int {
    now / DAY
  }

  function Weekday(now: int): int {
    (DayOf(now) + 4) % 7
  }

  // 1 January 1970 was a Thursday, and a week has seven days in order.
  lemma WeekdayFollowsTheCalendar(now: int)
    ensures 0 <= now < DAY ==> Weekday(now) == 4
    ensures Weekday(now + DAY) == if Weekday(now) == 6 then 0 else Weekday(now) + 1
    ensures 0 <= Weekday(now) < 7
  {
    NextDay(now);
  }

  lemma NextDay(now: int)
    ensures DayOf(now + DAY) == DayOf(now) + 1
  {
    DivUnique(now + DAY, now / DAY + 1, now % DAY);
  }

  function WindowStart(h: Hashes, accountId: int, day: int): int {
    day * DAY + h.day(accountId, day) % 1440 * MINUTE
  }

  function WindowLength(h: Hashes, accountId: int, day: int): (len: int)
    ensures 300 * MINUTE <= len <= 420 * MINUTE
  {
    (300 + h.day(accountId, day) / 1440 % 121) * MINUTE
  }

  predicate InWindowOf(h: Hashes, accountId: int, day: int, now: int) {
    WindowStart(h, accountId, day) <= now < WindowStart(h, accountId, day) + WindowLength(h, accountId, day)
  }

  // Today's window and yesterday's.
  predicate InOfflineWindow(h: Hashes, accountId: int, now: int) {
    InWindowOf(h, accountId, DayOf(now), now) || InWindowOf(h, accountId, DayOf(now) - 1, now)
  }

  lemma StartsThatDay(h: Hashes, accountId: int, day: int)
    ensures day * DAY <= WindowStart(h, accountId, day) <= day * DAY + 1439 * MINUTE
  {
  }

  // Every minute of the day and every length from five hours to seven is some hash's.
  lemma WindowsDrift(h: Hashes, accountId: int, day: int, minute: nat, length: nat)
    requires minute < 1440 && 300 <= length <= 420 && h.day(accountId, day) == minute + 1440 * (length - 300)
    ensures WindowStart(h, accountId, day) == day * DAY + minute * MINUTE
    ensures WindowLength(h, accountId, day) == length * MINUTE
  {
    assert h.day(accountId, day) % 1440 == minute && h.day(accountId, day) / 1440 == length - 300;
  }

  // Looking at two days is looking at all of them.
  lemma OfflineIffSomeWindow(h: Hashes, accountId: int, now: int)
    ensures InOfflineWindow(h, accountId, now) <==> exists day :: InWindowOf(h, accountId, day, now)
  {
    if day :| InWindowOf(h, accountId, day, now) {
      StartsThatDay(h, accountId, day);
      WindowDays(day, now);
    }
  }

  lemma WindowDays(day: int, now: int)
    requires day * DAY <= now < day * DAY + 1859 * MINUTE
    ensures DayOf(now) == day || DayOf(now) == day + 1
  {
    var r := now - day * DAY;
    assert now == day * DAY + r;
    if r < DAY {
      DivUnique(now, day, r);
    } else {
      DivUnique(now, day + 1, r - DAY);
    }
  }

  lemma DivUnique(now: int, q: int, r: int)
    requires now == q * DAY + r && 0 <= r < DAY
    ensures now / DAY == q
  {
  }

  // Any three moments seven hours apart are not all offline, so no offline
  // stretch lasts fourteen hours.
  lemma OfflineStretchIsShort(h: Hashes, accountId: int, a: int, b: int)
    requires forall t :: a <= t <= b ==> InOfflineWindow(h, accountId, t)
    ensures b - a < 840 * MINUTE
  {
    if b - a >= 840 * MINUTE {
      ThreeMoments(h, accountId, a);
    }
  }

  lemma ThreeMoments(h: Hashes, accountId: int, t: int)
    ensures !(InOfflineWindow(h, accountId, t) && InOfflineWindow(h, accountId, t + 420 * MINUTE) &&
              InOfflineWindow(h, accountId, t + 840 * MINUTE))
  {
    var u, v := t + 420 * MINUTE, t + 840 * MINUTE;
    if InOfflineWindow(h, accountId, t) && InOfflineWindow(h, accountId, u) && InOfflineWindow(h, accountId, v) {
      var d0 := OfflineDay(h, accountId, t);
      var d1 := OfflineDay(h, accountId, u);
      var d2 := OfflineDay(h, accountId, v);
      WindowIsShort(h, accountId, d0, t, u);
      WindowIsShort(h, accountId, d1, u, v);
      WindowIsShort(h, accountId, d0, t, v);
      TwoOfThreeDays(d0, d1, d2, t);
    }
  }

  // Two moments of one window are less than seven hours apart.
  lemma WindowIsShort(h: Hashes, accountId: int, day: int, t: int, u: int)
    requires InWindowOf(h, accountId, day, t) && u >= t + 420 * MINUTE
    ensures !InWindowOf(h, accountId, day, u)
  {
  }

  // Windows that meet the same fourteen hours belong to two days at most.
  lemma TwoOfThreeDays(d0: int, d1: int, d2: int, t: int)
    requires d0 * DAY <= t < d0 * DAY + 1859 * MINUTE
    requires d1 * DAY <= t + 420 * MINUTE < d1 * DAY + 1859 * MINUTE
    requires d2 * DAY <= t + 840 * MINUTE < d2 * DAY + 1859 * MINUTE
    ensures d0 == d1 || d1 == d2 || d0 == d2
  {
  }

  lemma OfflineDay(h: Hashes, accountId: int, now: int) returns (day: int)
    requires InOfflineWindow(h, accountId, now)
    ensures InWindowOf(h, accountId, day, now) && day * DAY <= now < day * DAY + 1859 * MINUTE
  {
    day := if InWindowOf(h, accountId, DayOf(now), now) then DayOf(now) else DayOf(now) - 1;
    StartsThatDay(h, accountId, day);
  }

  // Every account is offline again within 43 hours of any moment.
  lemma OfflineComesRound(h: Hashes, accountId: int, now: int) returns (t: int)
    ensures now <= t < now + 43 * 60 * MINUTE && InOfflineWindow(h, accountId, t)
  {
    var d := DayOf(now);
    StartsThatDay(h, accountId, d);
    StartsThatDay(h, accountId, d + 1);
    assert d * DAY <= now < d * DAY + DAY;
    var s, e := WindowStart(h, accountId, d), WindowStart(h, accountId, d) + WindowLength(h, accountId, d);
    if now < s {
      t := s;
      assert InWindowOf(h, accountId, d, t);
    } else if now < e {
      t := now;
    } else {
      t := WindowStart(h, accountId, d + 1);
      assert InWindowOf(h, accountId, d + 1, t);
    }
    OfflineIffSomeWindow(h, accountId, t);
  }

  // ------------------------------------------------------- cadence and backoff

  function Backoff(cadence: int, failures: int): int {
    if failures <= 0 then 0
    else
      var f := if failures > MAX_BACKOFF_FAILURES then MAX_BACKOFF_FAILURES else failures;
      cadence * (Power2(f) - 1)
  }

  function Power2(n: nat): nat {
    if n == 0 then 1 else 2 * Power2(n - 1)
  }

  // Truncation toward zero, as a conversion to an integer does it.
  function Truncate(x: real): int {
    if x >= 0.0 then x.Floor else -((-x).Floor)
  }

  // A hash as a fraction between minus and plus a fifth.
  function Fraction(h: nat): (r: real)
    ensures -0.2 <= r <= 0.2
  {
    (h % 40001) as real / 40000.0 * 0.4 - 0.2
  }

  function CadenceOffset(h: nat, cadence: int): int {
    Truncate(Fraction(h) * cadence as real)
  }

  lemma OffsetIsAFifth(h: nat, cadence: int)
    requires cadence >= 0
    ensures -cadence <= 5 * CadenceOffset(h, cadence) <= cadence
  {
    var c := cadence as real;
    var x := Fraction(h) * c;
    ScaledBound(Fraction(h), c, x);
    TruncatedBound(x, c, cadence);
  }

  lemma TruncatedBound(x: real, c: real, cadence: int)
    requires c == cadence as real && cadence >= 0 && -0.2 * c <= x <= 0.2 * c
    ensures -cadence <= 5 * Truncate(x) <= cadence
  {
    var t := Truncate(x);
    assert x >= 0.0 ==> 5.0 * t as real <= c;
    assert x < 0.0 ==> 5.0 * t as real >= -c;
  }

  lemma ScaledBound(f: real, c: real, x: real)
    requires -0.2 <= f <= 0.2 && c >= 0.0 && x == f * c
    ensures -0.2 * c <= x <= 0.2 * c
  {
  }

  // The jitter is exactly the hash's share of a fifth of the cadence either way, cut off
  // toward zero.
  lemma OffsetIsTheShare(h: nat, cadence: int)
    requires cadence >= 0
    ensures var share, offset := (h % 40001 - 20000) * cadence, CadenceOffset(h, cadence);
      if share >= 0 then 100000 * offset <= share < 100000 * (offset + 1)
      else 100000 * (offset - 1) < share <= 100000 * offset
  {
    var r, c := h % 40001 - 20000, cadence as real;
    var x := Fraction(h) * c;
    assert Fraction(h) == r as real / 100000.0;
    ShareAsReal(r, cadence, x);
    CutOff(r * cadence, x);
  }

  lemma ShareAsReal(r: int, cadence: int, x: real)
    requires x == r as real / 100000.0 * cadence as real
    ensures 100000.0 * x == (r * cadence) as real
  {
    assert (r * cadence) as real == r as real * cadence as real;
  }

  lemma CutOff(share: int, x: real)
    requires 100000.0 * x == share as real
    ensures var t := Truncate(x);
      if share >= 0 then 100000 * t <= share < 100000 * (t + 1) else 100000 * (t - 1) < share <= 100000 * t
  {
    var t := Truncate(x);
    if share >= 0 {
      assert t as real <= x < (t + 1) as real;
    } else {
      assert (t - 1) as real < x <= t as real;
    }
  }

  // The gap from one run to when the pair is next due.
  function Spacing(h: Hashes, k: RunKey, cadence: int, rs: RunState): int {
    cadence + CadenceOffset(h.run(k.accountId, k.taskName, rs.lastRun), cadence) + Backoff(cadence, rs.failures)
  }

  function DueTime(h: Hashes, k: RunKey, cadence: int, rs: RunState, now: int): int {
    if !rs.hasRun then now else rs.lastRun + Spacing(h, k, cadence, rs)
  }

  // The spacing is the cadence doubled once per failure, five times at most, give
  // or take a fifth of the cadence; so it is never zero.
  lemma SpacingBounds(h: Hashes, k: RunKey, cadence: int, rs: RunState)
    requires cadence > 0
    ensures var f := if rs.failures <= 0 then 0 else if rs.failures > 5 then 5 else rs.failures;
      && 5 * cadence * Power2(f) - cadence <= 5 * Spacing(h, k, cadence, rs) <= 5 * cadence * Power2(f) + cadence
      && Spacing(h, k, cadence, rs) - CadenceOffset(h.run(k.accountId, k.taskName, rs.lastRun), cadence) ==
         cadence * Power2(f)
      && Spacing(h, k, cadence, rs) > 0
  {
    OffsetIsAFifth(h.run(k.accountId, k.taskName, rs.lastRun), cadence);
    var f := if rs.failures <= 0 then 0 else if rs.failures > 5 then 5 else rs.failures;
    Doubled(cadence, Power2(f));
  }

  lemma Doubled(c: int, p: nat)
    requires c > 0 && p >= 1
    ensures c + c * (p - 1) == c * p && c * p >= c && 5 * c * p == 5 * (c * p)
  {
  }
}
