// Recovering a points read (internal/ingest/points.go): the trim of a trailing
// artifact, and the digit solver for a single damaged position.
module Repair {
  import opened Points
  import opened PointsText
  import opened Wrappers

  predicate IsDamage(c: char) {
    !IsDigit(c) && c != ','
  }

  // Drops the trailing run of characters that are neither digit nor comma; never
  // anything else.
  function TrimPointsArtifact(s: string): (r: string)
    ensures r <= s
    ensures r == "" || !IsDamage(r[|r| - 1])
    ensures forall i :: |r| <= i < |s| ==> IsDamage(s[i])
  {
    if s != "" && IsDamage(s[|s| - 1]) then TrimPointsArtifact(s[..|s| - 1]) else s
  }

  // A read that parses is not changed by the trim.
  lemma TrimKeepsAParse(s: string)
    requires ParsePoints(s).Some?
    ensures ParsePoints(TrimPointsArtifact(s)) == ParsePoints(s)
  {
    GroupedIsDigitsAndCommas(TrimSpace(s));
    TrimLeftThenArtifact(s);
  }

  lemma {:induction false} TrimLeftThenArtifact(s: string)
    requires DigitsAndCommas(TrimSpace(s)) && TrimSpace(s) != ""
    ensures TrimSpace(TrimPointsArtifact(s)) == TrimSpace(s)
    decreases |s|
  {
    if IsSpace(s[0]) {
      TrimLeftThenArtifact(s[1..]);
      ArtifactSkipsHead(s);
    } else {
      assert TrimLeft(s) == s;
      ArtifactIsTrimRight(s);
      var t := TrimRight(s);
      assert t != "" && t[0] == s[0] by { TrimRightIsPrefix(s); }
      GroupedIsTrim(t);
      TrimOfTrim(t);
    }
  }

  lemma {:induction false} TrimRightIsPrefix(s: string)
    ensures TrimRight(s) <= s
    decreases |s|
  {
    if s != "" && IsSpace(s[|s| - 1]) {
      TrimRightIsPrefix(s[..|s| - 1]);
    }
  }

  lemma {:induction false} ArtifactIsTrimRight(s: string)
    requires DigitsAndCommas(TrimRight(s))
    ensures TrimPointsArtifact(s) == TrimRight(s)
    decreases |s|
  {
    if s != "" && IsSpace(s[|s| - 1]) {
      ArtifactIsTrimRight(s[..|s| - 1]);
    }
  }

  lemma {:induction false} ArtifactSkipsHead(s: string)
    requires s != "" && TrimPointsArtifact(s[1..]) != ""
    ensures TrimPointsArtifact(s) == [s[0]] + TrimPointsArtifact(s[1..])
    decreases |s|
  {
    var r := s[1..];
    if r != "" && IsDamage(r[|r| - 1]) {
      assert s[..|s| - 1][1..] == r[..|r| - 1];
      ArtifactSkipsHead(s[..|s| - 1]);
    } else {
      assert s == [s[0]] + r;
    }
  }

  // -------------------------------------------------------------- the solver

  ghost predicate OnlyDamage(t: string, p: int) {
    0 <= p < |t| && IsDamage(t[p]) && forall i :: 0 <= i < |t| && i != p ==> !IsDamage(t[i])
  }

  // The number a candidate spells, if it parses inside the window.
  function InWindow(cand: string, b: PointsBound): Option<int> {
    var v := ParsePoints(cand);
    if v.Some? && WithinBounds(v.value, b) then v else None
  }

  // Digit d at position p makes a number inside the window.
  predicate Admits(t: string, p: int, d: int, b: PointsBound)
    requires 0 <= p < |t|
  {
    0 <= d <= 9 && InWindow(t[p := DigitChar(d)], b).Some?
  }

  ghost predicate IsOnlyDigit(t: string, p: int, d: int, b: PointsBound)
    requires 0 <= p < |t|
  {
    Admits(t, p, d, b) && forall d' :: Admits(t, p, d', b) ==> d' == d
  }

  // v is what the text reads once its one damaged position holds the one digit
  // the window admits there.
  ghost predicate IsRepair(raw: string, b: PointsBound, v: int) {
    var t := TrimSpace(raw);
    exists p, d :: OnlyDamage(t, p) && IsOnlyDigit(t, p, d, b) && ParsePoints(t[p := DigitChar(d)]) == Some(v)
  }

  method FindDamage(t: string) returns (bad: int)
    ensures bad >= 0 ==> OnlyDamage(t, bad)
    ensures bad < 0 ==> forall p :: !OnlyDamage(t, p)
  {
    bad := -1;
    for i := 0 to |t|
      invariant bad < 0 ==> forall k :: 0 <= k < i ==> !IsDamage(t[k])
      invariant bad >= 0 ==> bad < i && IsDamage(t[bad]) && forall k :: 0 <= k < i && k != bad ==> !IsDamage(t[k])
    {
      if IsDigit(t[i]) || t[i] == ',' {
      } else if bad >= 0 {
        return -1;
      } else {
        bad := i;
      }
    }
  }

  ghost predicate IsOnlyHit(trial: int -> Option<int>, d: int) {
    0 <= d <= 9 && trial(d).Some? && forall k :: 0 <= k <= 9 && trial(k).Some? ==> k == d
  }

  // Tries the ten digits; a second one that fits is a refusal.
  method OnlyHit(trial: int -> Option<int>) returns (r: Option<int>)
    ensures r.Some? ==> exists d :: IsOnlyHit(trial, d) && trial(d) == r
    ensures r.None? ==> forall d :: !IsOnlyHit(trial, d)
  {
    var found, hits := 0, 0;
    ghost var first := 0;
    for d := 0 to 10
      invariant 0 <= hits <= 1
      invariant hits == 0 ==> forall k :: 0 <= k < d ==> trial(k).None?
      invariant hits == 1 ==> 0 <= first < d && trial(first) == Some(found)
      invariant hits == 1 ==> forall k :: 0 <= k < d && trial(k).Some? ==> k == first
    {
      var v := trial(d);
      if v.None? {
        continue;
      }
      found, hits := v.value, hits + 1;
      if hits > 1 {
        return None;
      }
      first := d;
    }
    if hits != 1 {
      return None;
    }
    assert IsOnlyHit(trial, first);
    return Some(found);
  }

  method RepairPoints(raw: string, b: PointsBound) returns (r: Option<int>)
    ensures r.Some? ==> IsRepair(raw, b, r.value)
    ensures r.None? ==> forall v :: !IsRepair(raw, b, v)
  {
    var t := TrimSpace(raw);
    var bad := FindDamage(t);
    if bad < 0 {
      return None;
    }
    DamageIsUnique(t, bad);
    var trial := d => if 0 <= d <= 9 then InWindow(t[..bad] + [DigitChar(d)] + t[bad + 1..], b) else None;
    forall d | 0 <= d <= 9 ensures trial(d) == InWindow(t[bad := DigitChar(d)], b) {
      assert t[..bad] + [DigitChar(d)] + t[bad + 1..] == t[bad := DigitChar(d)];
    }
    r := OnlyHit(trial);
    HitIsRepair(raw, t, bad, b, trial, r);
  }

  lemma HitIsRepair(raw: string, t: string, bad: nat, b: PointsBound, trial: int -> Option<int>, r: Option<int>)
    requires t == TrimSpace(raw) && OnlyDamage(t, bad)
    requires forall d :: 0 <= d <= 9 ==> trial(d) == InWindow(t[bad := DigitChar(d)], b)
    requires r.Some? ==> exists d :: IsOnlyHit(trial, d) && trial(d) == r
    requires r.None? ==> forall d :: !IsOnlyHit(trial, d)
    ensures r.Some? ==> IsRepair(raw, b, r.value)
    ensures r.None? ==> forall v :: !IsRepair(raw, b, v)
  {
    DamageIsUnique(t, bad);
    forall d ensures IsOnlyDigit(t, bad, d, b) <==> IsOnlyHit(trial, d) {
      HitIsDigit(t, bad, b, trial, d);
    }
  }

  lemma HitIsDigit(t: string, bad: nat, b: PointsBound, trial: int -> Option<int>, d: int)
    requires bad < |t|
    requires forall d :: 0 <= d <= 9 ==> trial(d) == InWindow(t[bad := DigitChar(d)], b)
    ensures IsOnlyDigit(t, bad, d, b) <==> IsOnlyHit(trial, d)
  {
    assert forall k :: Admits(t, bad, k, b) <==> 0 <= k <= 9 && trial(k).Some?;
  }

  lemma DamageIsUnique(t: string, p: int)
    requires OnlyDamage(t, p)
    ensures forall q :: OnlyDamage(t, q) ==> q == p
  {
  }

  // ------------------------------------------------------------- main results

  // The repair, if there is one.
  ghost function Repaired(raw: string, b: PointsBound): (r: Option<int>)
    ensures r.Some? ==> IsRepair(raw, b, r.value)
    ensures r.None? ==> forall v :: !IsRepair(raw, b, v)
  {
    if exists v :: IsRepair(raw, b, v) then var v :| IsRepair(raw, b, v); Some(v) else None
  }

  // There is at most one repair, it lies in the window, and it fits 64 bits.
  lemma RepairIsUnique(raw: string, b: PointsBound, v: int, w: int)
    requires IsRepair(raw, b, v) && IsRepair(raw, b, w)
    ensures v == w && WithinBounds(v, b) && 0 <= v <= MAX_INT64
  {
    var t := TrimSpace(raw);
    var p, d :| OnlyDamage(t, p) && IsOnlyDigit(t, p, d, b) && ParsePoints(t[p := DigitChar(d)]) == Some(v);
    var q, e :| OnlyDamage(t, q) && IsOnlyDigit(t, q, e, b) && ParsePoints(t[q := DigitChar(e)]) == Some(w);
    DamageIsUnique(t, p);
    assert Admits(t, p, e, b);
    ParsedIsInRange(t[p := DigitChar(d)]);
  }

  lemma LastThreeDigits(s: string)
    requires |s| > 3
    ensures AllDigits(s[|s| - 3..]) <==> IsDigit(s[|s| - 3]) && IsDigit(s[|s| - 2]) && IsDigit(s[|s| - 1])
  {
    var u := s[|s| - 3..];
    assert u[0] == s[|s| - 3] && u[1] == s[|s| - 2] && u[2] == s[|s| - 1];
  }

  // Where a grouped number has a comma no digit will do, and where it has a digit
  // any digit will.
  lemma {:induction false} ReplaceOne(s: string, p: nat, c: char)
    requires IsGrouped(s) && p < |s| && IsDigit(c)
    ensures IsGrouped(s[p := c]) <==> s[p] != ','
    decreases |s|
  {
    var t := s[p := c];
    if |s| > 3 {
      if p < |s| - 4 {
        ReplaceOne(s[..|s| - 4], p, c);
        assert t[..|s| - 4] == s[..|s| - 4][p := c] && t[|s| - 3..] == s[|s| - 3..];
      } else {
        assert t[..|s| - 4] == s[..|s| - 4];
        LastThreeDigits(s);
        LastThreeDigits(t);
      }
    }
  }

  // The damage keeps the text's ends free of white space.
  ghost predicate IsSeen(s: string, p: nat, c: char)
    requires p < |s|
  {
    IsDamage(c) && IsTrim(s[p := c])
  }

  lemma DamagedForm(s: string, p: nat, c: char)
    requires IsGrouped(s) && p < |s| && IsSeen(s, p, c)
    ensures TrimSpace(s[p := c]) == s[p := c] && OnlyDamage(s[p := c], p)
    ensures forall d :: 0 <= d <= 9 ==> s[p := c][p := DigitChar(d)] == s[p := DigitChar(d)]
  {
    TrimOfTrim(s[p := c]);
    GroupedIsDigitsAndCommas(s);
  }

  // A broken comma is never repaired.
  lemma BrokenCommaIsRefused(s: string, p: nat, c: char, b: PointsBound, v: int)
    requires IsGrouped(s) && p < |s| && s[p] == ',' && IsSeen(s, p, c)
    ensures !IsRepair(s[p := c], b, v)
  {
    DamagedForm(s, p, c);
    DamageIsUnique(s[p := c], p);
    forall d | 0 <= d <= 9 ensures ParsePoints(s[p := c][p := DigitChar(d)]).None? {
      ReplaceOne(s, p, DigitChar(d));
      GroupedIsDigitsAndCommas(s);
      ParseTrimmed(s[p := DigitChar(d)]);
    }
  }

  // k times the n-th power of ten.
  function Shift(k: int, n: nat): int {
    if n == 0 then k else 10 * Shift(k, n - 1)
  }

  // How many digits stand to the right of position p: its place value's exponent.
  function DigitsAfter(s: string, p: nat): nat
    requires p < |s|
  {
    |StripCommas(s[p + 1..])|
  }

  lemma {:induction false} PlaceValue(s: string, p: nat, d: char)
    requires DigitsAndCommas(s) && p < |s| && IsDigit(s[p]) && IsDigit(d)
    ensures DigitsAndCommas(s[p := d])
    ensures Spelled(s[p := d]) == Spelled(s) + Shift(DigitValue(d) - DigitValue(s[p]), DigitsAfter(s, p))
    decreases |s|
  {
    var n := |s| - 1;
    var t := s[p := d];
    if p == n {
      assert s[..n] == t[..n];
      DigitsAfterLast(s);
    } else {
      PlaceValue(s[..n], p, d);
      assert t[..n] == s[..n][p := d];
      DigitsAfterStep(s, p);
    }
  }

  lemma DigitsAfterLast(s: string)
    requires s != ""
    ensures DigitsAfter(s, |s| - 1) == 0
  {
    assert s[|s|..] == "";
  }

  lemma DigitsAfterStep(s: string, p: nat)
    requires p < |s| - 1
    ensures DigitsAfter(s, p) == DigitsAfter(s[..|s| - 1], p) + if s[|s| - 1] == ',' then 0 else 1
  {
    var u := s[p + 1..];
    assert u[..|u| - 1] == s[..|s| - 1][p + 1..] && u[|u| - 1] == s[|s| - 1];
  }

  lemma {:induction false} ShiftAtLeast(k: int, n: nat)
    ensures k >= 1 ==> Shift(k, n) >= Shift(1, n)
    ensures k <= -1 ==> Shift(k, n) <= -Shift(1, n)
    decreases n
  {
    if n > 0 {
      ShiftAtLeast(k, n - 1);
    }
  }

  // The true number is recovered whenever it lies in a window narrower than the
  // place value of the digit that was lost.
  lemma LostDigitIsRecovered(s: string, p: nat, c: char, b: PointsBound)
    requires IsGrouped(s) && DigitsAndCommas(s) && p < |s| && IsDigit(s[p]) && IsSeen(s, p, c)
    requires Spelled(s) <= MAX_INT64 && WithinBounds(Spelled(s), b)
    requires b.hi - b.lo < Shift(1, DigitsAfter(s, p))
    ensures IsRepair(s[p := c], b, Spelled(s))
  {
    DamagedForm(s, p, c);
    var t, d := s[p := c], DigitValue(s[p]);
    DigitOfValue(s[p]);
    assert s[p := s[p]] == s;
    GroupedIsTrim(s);
    ParseTrimmed(s);
    assert Admits(t, p, d, b);
    forall e | Admits(t, p, e, b) ensures e == d {
      OtherDigitIsOutside(s, p, e, b);
    }
    assert IsOnlyDigit(t, p, d, b);
  }

  lemma OtherDigitIsOutside(s: string, p: nat, e: int, b: PointsBound)
    requires IsGrouped(s) && DigitsAndCommas(s) && p < |s| && IsDigit(s[p]) && 0 <= e <= 9
    requires WithinBounds(Spelled(s), b) && b.hi - b.lo < Shift(1, DigitsAfter(s, p))
    requires ParsePoints(s[p := DigitChar(e)]).Some? && WithinBounds(ParsePoints(s[p := DigitChar(e)]).value, b)
    ensures e == DigitValue(s[p])
  {
    var u := s[p := DigitChar(e)];
    PlaceValue(s, p, DigitChar(e));
    ReplaceOne(s, p, DigitChar(e));
    GroupedIsTrim(u);
    ParseTrimmed(u);
    assert Spelled(u) == Spelled(s) + Shift(e - DigitValue(s[p]), DigitsAfter(s, p));
    assert ParsePoints(u).value == Spelled(u);
    ShiftAtLeast(e - DigitValue(s[p]), DigitsAfter(s, p));
  }
}
