// The count in a rank group's header text (internal/ingest/parse.go): exactly one
// N/M token, coherent, anywhere in the line.
module GroupHeader {
  import opened Points
  import opened PointsText

  // A token s[start..end], its slash at mid.
  datatype Count = Count(start: nat, mid: nat, end: nat)

  // Where the digits from p on stop.
  function RunEnd(s: string, p: nat): (e: nat)
    requires p <= |s|
    ensures p <= e <= |s|
    ensures forall i :: p <= i < e ==> IsDigit(s[i])
    ensures e < |s| ==> !IsDigit(s[e])
    decreases |s| - p
  {
    if p < |s| && IsDigit(s[p]) then RunEnd(s, p + 1) else p
  }

  predicate StartsCount(s: string, p: nat)
    requires p < |s|
  {
    var e := RunEnd(s, p);
    e > p && e < |s| && s[e] == '/' && RunEnd(s, e + 1) > e + 1
  }

  // Every token from p on, leftmost first, none overlapping another.
  function Counts(s: string, p: nat): (r: seq<Count>)
    requires p <= |s|
    ensures forall c :: c in r ==> p <= c.start < c.mid < c.end <= |s| && c.mid + 1 < c.end
    ensures forall c :: c in r ==> AllDigits(s[c.start..c.mid]) && AllDigits(s[c.mid + 1..c.end])
    decreases |s| - p
  {
    if p == |s| then []
    else if StartsCount(s, p) then
      var e := RunEnd(s, p);
      [Count(p, e, RunEnd(s, e + 1))] + Counts(s, RunEnd(s, e + 1))
    else Counts(s, p + 1)
  }

  datatype Header = Header(name: string, total: int)

  // Why a header is refused: not one token, a number out of range, or N/M with M = 0 or N > M.
  datatype Refusal = NotOneCount | NotConverted | Incoherent

  datatype Parsed = Legible(header: Header) | Refused(why: Refusal)

  function ParseGroupHeader(raw: string): (r: Parsed)
    ensures r.Legible? ==> 0 < r.header.total <= MAX_INT64
  {
    var t := TrimSpace(raw);
    var cs := Counts(t, 0);
    if |cs| != 1 then Refused(NotOneCount)
    else
      var c := cs[0];
      assert c in cs;
      var shown, total := Decimal(t[c.start..c.mid]), Decimal(t[c.mid + 1..c.end]);
      if shown > MAX_INT64 || total > MAX_INT64 then Refused(NotConverted)
      else if total <= 0 || shown > total then Refused(Incoherent)
      else Legible(Header(TrimSpace(t[..c.start]), total))
  }

  // ---------------------------------------------------------------- noisy headers

  // What surrounds a count when nothing else in the line looks like one: no slash,
  // and no digit touching the count.
  predicate IsNoise(before: string, after: string) {
    && '/' !in before && '/' !in after
    && (before != "" ==> !IsDigit(before[|before| - 1])) && (after != "" ==> !IsDigit(after[0]))
  }

  // s is noise around one slash, with digits before it and, perhaps, after it.
  predicate IsLine(s: string, start: nat, mid: nat, end: nat) {
    && start < mid < end <= |s| && s[mid] == '/' && AllDigits(s[start..mid]) && AllDigits(s[mid + 1..end])
    && IsNoise(s[..start], s[end..])
  }

  lemma {:induction false} RunEndIs(s: string, p: nat, e: nat)
    requires p <= e <= |s| && (forall i :: p <= i < e ==> IsDigit(s[i])) && (e < |s| ==> !IsDigit(s[e]))
    ensures RunEnd(s, p) == e
    decreases e - p
  {
    if p < e {
      RunEndIs(s, p + 1, e);
    }
  }

  lemma {:induction false} NoSlashNoCounts(s: string, p: nat)
    requires p <= |s| && forall i :: p <= i < |s| ==> s[i] != '/'
    ensures Counts(s, p) == []
    decreases |s| - p
  {
    if p < |s| {
      NoSlashNoCounts(s, p + 1);
    }
  }

  // A stretch with no slash that ends on something other than a digit holds no token.
  lemma {:induction false} SkipNoise(s: string, p: nat, q: nat)
    requires p <= q <= |s| && (forall i :: p <= i < q ==> s[i] != '/')
    requires p < q ==> !IsDigit(s[q - 1])
    ensures Counts(s, p) == Counts(s, q)
    decreases q - p
  {
    if p < q {
      assert RunEnd(s, p) < q;
      SkipNoise(s, p + 1, q);
    }
  }

  // Where the digits of a line are, seen through its parts.
  lemma RunsOfLine(s: string, start: nat, mid: nat, end: nat)
    requires IsLine(s, start, mid, end)
    ensures RunEnd(s, start) == mid && RunEnd(s, mid + 1) == end
    ensures start > 0 ==> !IsDigit(s[start - 1])
    ensures forall i :: 0 <= i < start || end <= i < |s| ==> s[i] != '/'
    ensures forall i :: start <= i < mid ==> IsDigit(s[i])
  {
    assert forall i :: 0 <= i < start ==> s[i] == s[..start][i];
    assert forall i :: start <= i < mid ==> s[i] == s[start..mid][i - start];
    assert forall i :: mid < i < end ==> s[i] == s[mid + 1..end][i - mid - 1];
    assert forall i :: end <= i < |s| ==> s[i] == s[end..][i - end];
    RunEndIs(s, start, mid);
    RunEndIs(s, mid + 1, end);
  }

  // The tokens of a line: its one count, when there are digits after the slash.
  lemma CountsOfLine(s: string, start: nat, mid: nat, end: nat)
    requires IsLine(s, start, mid, end)
    ensures Counts(s, 0) == if end == mid + 1 then [] else [Count(start, mid, end)]
  {
    RunsOfLine(s, start, mid, end);
    SkipNoise(s, 0, start);
    if end == mid + 1 {
      NoCountWithoutTotal(s, start, mid);
    } else {
      NoSlashNoCounts(s, end);
    }
  }

  lemma {:induction false} NoCountWithoutTotal(s: string, p: nat, mid: nat)
    requires p <= mid < |s| && (forall i :: p <= i < mid ==> IsDigit(s[i])) && s[mid] == '/'
    requires RunEnd(s, mid + 1) == mid + 1 && forall i :: mid < i < |s| ==> s[i] != '/'
    ensures Counts(s, p) == []
    decreases mid - p
  {
    RunEndIs(s, p, mid);
    if p < mid {
      NoCountWithoutTotal(s, p + 1, mid);
    } else {
      NoSlashNoCounts(s, mid + 1);
    }
  }

  // What becomes of a line with one count, wherever that stands in it: each refusal
  // has its own exact condition, and a legible header gives its stated total.
  lemma LegibleHeaderParses(raw: string, s: string, start: nat, mid: nat, end: nat)
    requires s == TrimSpace(raw) && IsLine(s, start, mid, end)
    ensures var shown, total, r := Decimal(s[start..mid]), Decimal(s[mid + 1..end]), ParseGroupHeader(raw);
      && (r == Refused(NotOneCount) <==> end == mid + 1)
      && (end > mid + 1 ==>
            && (r == Refused(NotConverted) <==> shown > MAX_INT64 || total > MAX_INT64)
            && (r == Refused(Incoherent) <==> shown <= MAX_INT64 && total <= MAX_INT64 && (total <= 0 || shown > total))
            && (r.Legible? <==> 0 < total <= MAX_INT64 && shown <= total)
            && (r.Legible? ==> r.header == Header(TrimSpace(s[..start]), total)))
  {
    CountsOfLine(s, start, mid, end);
  }

  function Power10(n: nat): nat {
    if n == 0 then 1 else 10 * Power10(n - 1)
  }

  lemma {:induction false} LeadingDigitWeighs(digits: string)
    requires AllDigits(digits) && digits != "" && digits[0] != '0'
    ensures Decimal(digits) >= Power10(|digits| - 1)
    decreases |digits|
  {
    var n := |digits| - 1;
    if n == 0 {
      assert digits[..0] == "" && DigitValue(digits[0]) >= 1;
    } else {
      LeadingDigitWeighs(digits[..n]);
    }
  }

  lemma {:induction false} PowersGrow(n: nat)
    requires n >= 19
    ensures Power10(n) >= 10000000000000000000
    decreases n
  {
    if n > 19 {
      PowersGrow(n - 1);
    } else {
      assert Power10(10) == 10000000000;
      assert Power10(19) == 10 * Power10(18) == 100 * Power10(17) == 1000 * Power10(16) == 10000 * Power10(15);
      assert Power10(15) == 10 * Power10(14) == 100 * Power10(13) == 1000 * Power10(12) == 10000 * Power10(11);
    }
  }

  // The conversion the code calls unreachable is reached by any total of twenty digits.
  lemma TwentyDigitsAreNotConverted(raw: string, s: string, start: nat, mid: nat, end: nat)
    requires s == TrimSpace(raw) && IsLine(s, start, mid, end)
    requires end - mid - 1 >= 20 && s[mid + 1] != '0'
    ensures ParseGroupHeader(raw) == Refused(NotConverted)
  {
    LeadingDigitWeighs(s[mid + 1..end]);
    PowersGrow(end - mid - 2);
    LegibleHeaderParses(raw, s, start, mid, end);
  }

  lemma OneOfTooManyIsNotConverted(digits: string)
    requires AllDigits(digits) && |digits| >= 20 && digits[0] != '0'
    ensures ParseGroupHeader("1/" + digits) == Refused(NotConverted)
  {
    var s := "1/" + digits;
    assert s[..0] == "" && s[0..1] == "1" && s[2..|s|] == digits && s[|s|..] == "";
    assert s[|s| - 1] == digits[|digits| - 1];
    TrimOfTrim(s);
    TwentyDigitsAreNotConverted(s, s, 0, 1, |s|);
  }

  lemma DecimalOfMore(digits: string, d: char)
    requires AllDigits(digits) && IsDigit(d)
    ensures AllDigits(digits + [d]) && Decimal(digits + [d]) == Decimal(digits) * 10 + DigitValue(d)
  {
    assert (digits + [d])[..|digits|] == digits;
  }

  lemma {:induction false} DecimalIsNatural(digits: string)
    requires AllDigits(digits)
    ensures Decimal(digits) >= 0
    decreases |digits|
  {
    if digits != "" {
      DecimalIsNatural(digits[..|digits| - 1]);
    }
  }

  // The true total of a line whose last digit drifted off, one space away.
  function TrueTotal(s: string, mid: nat, end: nat): string
    requires mid < end && end + 1 < |s|
  {
    s[mid + 1..end] + [s[end + 1]]
  }

  // Such a reading is refused exactly when more members are online than the
  // shortened total says there are; otherwise the group is believed a tenth its size.
  lemma DetachedDigitIsRefusedIff(raw: string, s: string, start: nat, mid: nat, end: nat)
    requires s == TrimSpace(raw) && IsLine(s, start, mid, end)
    requires end + 1 < |s| && s[end] == ' ' && IsDigit(s[end + 1]) && AllDigits(TrueTotal(s, mid, end))
    requires 0 < Decimal(TrueTotal(s, mid, end)) <= MAX_INT64 &&
             Decimal(s[start..mid]) <= Decimal(TrueTotal(s, mid, end))
    ensures var kept := Decimal(s[mid + 1..end]); var r := ParseGroupHeader(raw);
      && (r.Refused? <==> kept == 0 || Decimal(s[start..mid]) > kept)
      && (r.Legible? ==> r.header.total == Decimal(TrueTotal(s, mid, end)) / 10 < Decimal(TrueTotal(s, mid, end)))
  {
    DecimalOfMore(s[mid + 1..end], s[end + 1]);
    DecimalIsNatural(s[mid + 1..end]);
    LegibleHeaderParses(raw, s, start, mid, end);
  }

  // A header reading 1/11 whose last digit drifts is believed: a group of one.
  lemma UnderCountGetsThrough()
    ensures ParseGroupHeader("Alright 1/1 1").Legible? && ParseGroupHeader("Alright 1/1 1").header.total == 1
  {
    var s := "Alright 1/1 1";
    assert s[..8] == "Alright " && s[8..9] == "1" && s[10..11] == "1" && s[11..] == " 1";
    assert "1"[..0] == "" && Decimal("1") == 1;
    TrimOfTrim(s);
    LegibleHeaderParses(s, s, 8, 9, 11);
  }
}
