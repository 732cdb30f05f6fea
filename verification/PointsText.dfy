// The grammar of a points read (internal/ingest/parse.go) and the repair of one
// damaged digit (internal/ingest/points.go).  Text is a sequence of runes.
module PointsText {
  import opened Points
  import opened Wrappers

  predicate IsDigit(c: char) {
    '0' <= c <= '9'
  }

  function DigitValue(c: char): (v: int)
    requires IsDigit(c)
    ensures 0 <= v <= 9
  {
    c as int - '0' as int
  }

  function DigitChar(d: int): (c: char)
    requires 0 <= d <= 9
    ensures IsDigit(c) && DigitValue(c) == d
  {
    ('0' as int + d) as char
  }

  // White space as strings.TrimSpace sees it.
  predicate IsSpace(c: char) {
    var n := c as int;
    || 9 <= n <= 13 || n == 0x20 || n == 0x85 || n == 0xA0 || n == 0x1680 || 0x2000 <= n <= 0x200A
    || n == 0x2028 || n == 0x2029 || n == 0x202F || n == 0x205F || n == 0x3000
  }

  function TrimLeft(s: string): string {
    if s != "" && IsSpace(s[0]) then TrimLeft(s[1..]) else s
  }

  function TrimRight(s: string): string {
    if s != "" && IsSpace(s[|s| - 1]) then TrimRight(s[..|s| - 1]) else s
  }

  function TrimSpace(s: string): string {
    TrimRight(TrimLeft(s))
  }

  predicate IsTrim(s: string) {
    s == "" || (!IsSpace(s[0]) && !IsSpace(s[|s| - 1]))
  }

  lemma TrimOfTrim(s: string)
    requires IsTrim(s)
    ensures TrimSpace(s) == s
  {
  }

  // ------------------------------------------------------------------ grammar

  predicate AllDigits(s: string) {
    forall i :: 0 <= i < |s| ==> IsDigit(s[i])
  }

  // (?:,[0-9]{3})*
  predicate Groups(s: string) {
    s == "" || (|s| >= 4 && s[0] == ',' && AllDigits(s[1..4]) && Groups(s[4..]))
  }

  // ^[0-9]{1,3}(?:,[0-9]{3})*$
  predicate MatchesPointsRe(s: string) {
    exists k :: 1 <= k <= 3 && k <= |s| && AllDigits(s[..k]) && Groups(s[k..])
  }

  // The same language from the right: groups of three after commas, and one to
  // three digits in front.
  predicate IsGrouped(s: string) {
    if |s| <= 3 then s != "" && AllDigits(s)
    else s[|s| - 4] == ',' && AllDigits(s[|s| - 3..]) && IsGrouped(s[..|s| - 4])
  }

  lemma {:induction false} GroupedThenGroups(s: string, t: string)
    requires IsGrouped(s) && Groups(t)
    ensures IsGrouped(s + t)
    decreases |t|
  {
    if t == "" {
      assert s + t == s;
    } else {
      var u := s + t[..4];
      assert u[..|s|] == s && u[|u| - 3..] == t[1..4];
      GroupedThenGroups(u, t[4..]);
      assert u + t[4..] == s + t;
    }
  }

  lemma {:induction false} GroupsThenGroup(s: string, t: string)
    requires Groups(s) && |t| == 4 && t[0] == ',' && AllDigits(t[1..])
    ensures Groups(s + t)
    decreases |s|
  {
    if s == "" {
      assert s + t == t && t[1..4] == t[1..];
    } else {
      GroupsThenGroup(s[4..], t);
      assert (s + t)[4..] == s[4..] + t && (s + t)[1..4] == s[1..4];
    }
  }

  lemma {:induction false} GroupedMatches(s: string)
    requires IsGrouped(s)
    ensures MatchesPointsRe(s)
    decreases |s|
  {
    if |s| <= 3 {
      assert s[..|s|] == s && s[|s|..] == "";
    } else {
      var r := s[..|s| - 4];
      GroupedMatches(r);
      var k :| 1 <= k <= 3 && k <= |r| && AllDigits(r[..k]) && Groups(r[k..]);
      assert s[|s| - 4..][1..] == s[|s| - 3..];
      GroupsThenGroup(r[k..], s[|s| - 4..]);
      assert s[..k] == r[..k] && s[k..] == r[k..] + s[|s| - 4..];
    }
  }

  lemma MatchesIffGrouped(s: string)
    ensures MatchesPointsRe(s) <==> IsGrouped(s)
    ensures IsGrouped(s) ==> DigitsAndCommas(s)
  {
    if MatchesPointsRe(s) {
      var k :| 1 <= k <= 3 && k <= |s| && AllDigits(s[..k]) && Groups(s[k..]);
      GroupedThenGroups(s[..k], s[k..]);
      assert s[..k] + s[k..] == s;
    }
    if IsGrouped(s) {
      GroupedMatches(s);
      GroupedIsDigitsAndCommas(s);
    }
  }

  lemma {:induction false} GroupedIsDigitsAndCommas(s: string)
    requires IsGrouped(s)
    ensures DigitsAndCommas(s)
    decreases |s|
  {
    if |s| > 3 {
      GroupedIsDigitsAndCommas(s[..|s| - 4]);
      assert s == s[..|s| - 4] + [','] + s[|s| - 3..];
    }
  }

  function StripCommas(s: string): string {
    if s == "" then ""
    else StripCommas(s[..|s| - 1]) + if s[|s| - 1] == ',' then "" else [s[|s| - 1]]
  }

  function Decimal(s: string): int
    requires AllDigits(s)
  {
    if s == "" then 0 else Decimal(s[..|s| - 1]) * 10 + DigitValue(s[|s| - 1])
  }

  predicate DigitsAndCommas(s: string) {
    forall i :: 0 <= i < |s| ==> IsDigit(s[i]) || s[i] == ','
  }

  lemma {:induction false} StripLeavesDigits(s: string)
    requires DigitsAndCommas(s)
    ensures AllDigits(StripCommas(s))
    decreases |s|
  {
    if s != "" {
      StripLeavesDigits(s[..|s| - 1]);
    }
  }

  // The number a string of digits and commas spells.
  function Spelled(s: string): (n: int)
    requires DigitsAndCommas(s)
    ensures n >= 0
  {
    if s == "" then 0
    else if s[|s| - 1] == ',' then Spelled(s[..|s| - 1])
    else Spelled(s[..|s| - 1]) * 10 + DigitValue(s[|s| - 1])
  }

  lemma {:induction false} StrippedSpells(s: string)
    requires DigitsAndCommas(s)
    ensures AllDigits(StripCommas(s)) && Decimal(StripCommas(s)) == Spelled(s)
    decreases |s|
  {
    if s != "" {
      var rest := StripCommas(s[..|s| - 1]);
      StrippedSpells(s[..|s| - 1]);
      if s[|s| - 1] == ',' {
        assert StripCommas(s) == rest;
      } else {
        assert StripCommas(s)[..|rest|] == rest;
      }
    }
  }

  // A comma-grouped number that fits 64 bits, with white space around it
  // ignored.  MatchesIffGrouped ties the shape to the program's expression.
  function ParsePoints(s: string): Option<int> {
    var t := TrimSpace(s);
    if !IsGrouped(t) then None
    else
      GroupedIsDigitsAndCommas(t);
      StripLeavesDigits(t);
      var n := Decimal(StripCommas(t));
      if n > MAX_INT64 then None else Some(n)
  }

  // What parses is a number a window can be compared with.
  lemma ParsedIsInRange(s: string)
    ensures ParsePoints(s).Some? ==> 0 <= ParsePoints(s).value <= MAX_INT64
  {
    var t := TrimSpace(s);
    if IsGrouped(t) {
      GroupedIsDigitsAndCommas(t);
      StrippedSpells(t);
    }
  }

  // On text with no white space at its ends, parsing is the grammar and the value.
  lemma ParseTrimmed(s: string)
    requires IsTrim(s)
    ensures ParsePoints(s).Some? <==> IsGrouped(s) && DigitsAndCommas(s) && Spelled(s) <= MAX_INT64
    ensures ParsePoints(s).Some? ==> ParsePoints(s).value == Spelled(s)
  {
    TrimOfTrim(s);
    if IsGrouped(s) {
      GroupedIsDigitsAndCommas(s);
      StrippedSpells(s);
    }
  }

  lemma GroupedIsTrim(s: string)
    requires DigitsAndCommas(s)
    ensures IsTrim(s)
  {
  }

  // ----------------------------------------------------------------- printing

  function Print3(n: int): string
    requires 0 <= n < 1000
  {
    [DigitChar(n / 100), DigitChar(n / 10 % 10), DigitChar(n % 10)]
  }

  // A number as the ranking shows it.
  function PrintPoints(n: nat): string {
    if n < 10 then [DigitChar(n)]
    else if n < 100 then [DigitChar(n / 10), DigitChar(n % 10)]
    else if n < 1000 then Print3(n)
    else PrintPoints(n / 1000) + [','] + Print3(n % 1000)
  }

  lemma SpelledThreeMore(s: string, a: char, b: char, c: char)
    requires DigitsAndCommas(s) && IsDigit(a) && IsDigit(b) && IsDigit(c)
    ensures DigitsAndCommas(s + [',', a, b, c])
    ensures Spelled(s + [',', a, b, c]) == Spelled(s) * 1000 + DigitValue(a) * 100 + DigitValue(b) * 10 + DigitValue(c)
  {
    var s1, s2, s3, s4 := s + [','], s + [',', a], s + [',', a, b], s + [',', a, b, c];
    assert s4[..|s4| - 1] == s3 && s3[..|s3| - 1] == s2 && s2[..|s2| - 1] == s1 && s1[..|s1| - 1] == s;
    assert Spelled(s1) == Spelled(s);
    assert Spelled(s2) == Spelled(s) * 10 + DigitValue(a);
    assert Spelled(s3) == Spelled(s2) * 10 + DigitValue(b);
  }

  lemma SpelledUpToThree(a: char, b: char, c: char)
    requires IsDigit(a) && IsDigit(b) && IsDigit(c)
    ensures Spelled([a]) == DigitValue(a)
    ensures Spelled([a, b]) == DigitValue(a) * 10 + DigitValue(b)
    ensures Spelled([a, b, c]) == DigitValue(a) * 100 + DigitValue(b) * 10 + DigitValue(c)
  {
    assert [a][..0] == "" && [a, b][..1] == [a] && [a, b, c][..2] == [a, b];
    assert Spelled([a]) == DigitValue(a);
    assert Spelled([a, b]) == Spelled([a]) * 10 + DigitValue(b);
  }

  lemma PrintSpellsShort(n: nat)
    requires n < 1000
    ensures IsGrouped(PrintPoints(n)) && DigitsAndCommas(PrintPoints(n)) && Spelled(PrintPoints(n)) == n
  {
    if n < 10 {
      SpelledUpToThree(DigitChar(n), '0', '0');
    } else if n < 100 {
      SpelledUpToThree(DigitChar(n / 10), DigitChar(n % 10), '0');
    } else {
      SpelledUpToThree(DigitChar(n / 100), DigitChar(n / 10 % 10), DigitChar(n % 10));
      ThreeDigits(n);
    }
  }

  lemma {:induction false} PrintSpells(n: nat)
    ensures IsGrouped(PrintPoints(n)) && DigitsAndCommas(PrintPoints(n)) && Spelled(PrintPoints(n)) == n
    decreases n
  {
    if n < 1000 {
      PrintSpellsShort(n);
    } else {
      var q, m := n / 1000, n % 1000;
      PrintSpells(q);
      ThreeDigits(m);
      MoreThreeDigits(PrintPoints(q), DigitChar(m / 100), DigitChar(m / 10 % 10), DigitChar(m % 10));
      assert PrintPoints(n) == PrintPoints(q) + [',', DigitChar(m / 100), DigitChar(m / 10 % 10), DigitChar(m % 10)];
    }
  }

  lemma ThreeDigits(n: int)
    requires 0 <= n < 1000
    ensures 0 <= n / 100 <= 9 && n == n / 100 * 100 + n / 10 % 10 * 10 + n % 10
  {
    assert n / 10 == n / 100 * 10 + n / 10 % 10;
  }

  lemma MoreThreeDigits(s: string, a: char, b: char, c: char)
    requires IsDigit(a) && IsDigit(b) && IsDigit(c) && IsGrouped(s) && DigitsAndCommas(s)
    ensures IsGrouped(s + [',', a, b, c]) && DigitsAndCommas(s + [',', a, b, c])
    ensures Spelled(s + [',', a, b, c]) == Spelled(s) * 1000 + DigitValue(a) * 100 + DigitValue(b) * 10 + DigitValue(c)
  {
    var t := s + [',', a, b, c];
    assert t[..|t| - 4] == s && t[|t| - 3..] == [a, b, c];
    SpelledThreeMore(s, a, b, c);
  }

  // Parsing inverts printing, on exactly the numbers that fit 64 bits.
  lemma ParseInvertsPrint(n: nat)
    ensures ParsePoints(PrintPoints(n)) == if n <= MAX_INT64 then Some(n) else None
  {
    PrintSpells(n);
    GroupedIsTrim(PrintPoints(n));
    ParseTrimmed(PrintPoints(n));
  }

  // Printing inverts parsing on grouped text without a leading zero.
  lemma {:induction false} PrintInvertsSpelling(s: string)
    requires IsGrouped(s) && (s[0] != '0' || |s| == 1)
    ensures DigitsAndCommas(s) && Spelled(s) >= 0 && PrintPoints(Spelled(s)) == s
    decreases |s|
  {
    GroupedIsDigitsAndCommas(s);
    if |s| <= 3 {
      ShortPrint(s);
    } else {
      var r := s[..|s| - 4];
      assert IsGrouped(r) && r != "" && r[0] == s[0];
      assert s == r + [',', s[|s| - 3], s[|s| - 2], s[|s| - 1]];
      PrintInvertsSpelling(r);
      assert IsDigit(r[0]) by { LeadIsDigit(r); }
      LeadingDigitCounts(r);
      LongPrint(s, r, s[|s| - 3], s[|s| - 2], s[|s| - 1]);
    }
  }

  lemma {:induction false} LeadIsDigit(s: string)
    requires IsGrouped(s)
    ensures s != "" && IsDigit(s[0])
    decreases |s|
  {
    if |s| > 3 {
      LeadIsDigit(s[..|s| - 4]);
    }
  }

  lemma PrintMore(q: int, a: char, b: char, c: char)
    requires IsDigit(a) && IsDigit(b) && IsDigit(c) && q > 0
    ensures PrintPoints(q * 1000 + DigitValue(a) * 100 + DigitValue(b) * 10 + DigitValue(c)) ==
            PrintPoints(q) + [',', a, b, c]
  {
    LastThree(q, a, b, c);
    assert [','] + [a, b, c] == [',', a, b, c];
    assert PrintPoints(q) + [','] + [a, b, c] == PrintPoints(q) + [',', a, b, c];
  }

  lemma LongPrint(s: string, r: string, a: char, b: char, c: char)
    requires IsGrouped(s) && |s| > 3 && s == r + [',', a, b, c]
    requires IsGrouped(r) && DigitsAndCommas(r) && Spelled(r) > 0 && PrintPoints(Spelled(r)) == r
    requires DigitsAndCommas(s)
    ensures Spelled(s) >= 0 && PrintPoints(Spelled(s)) == s
  {
    var q := Spelled(r);
    assert s[|s| - 3..] == [a, b, c];
    assert IsDigit([a, b, c][0]) && IsDigit([a, b, c][1]) && IsDigit([a, b, c][2]);
    MoreThreeDigits(r, a, b, c);
    PrintMore(q, a, b, c);
  }

  lemma LastThree(q: int, a: char, b: char, c: char)
    requires IsDigit(a) && IsDigit(b) && IsDigit(c) && q >= 0
    ensures var n := q * 1000 + DigitValue(a) * 100 + DigitValue(b) * 10 + DigitValue(c);
      n / 1000 == q && Print3(n % 1000) == [a, b, c]
  {
    var m := DigitValue(a) * 100 + DigitValue(b) * 10 + DigitValue(c);
    assert (q * 1000 + m) % 1000 == m && (q * 1000 + m) / 1000 == q;
    assert m / 100 == DigitValue(a) && m / 10 == DigitValue(a) * 10 + DigitValue(b);
    DigitOfValue(a);
    DigitOfValue(b);
    DigitOfValue(c);
  }

  lemma DigitOfValue(a: char)
    requires IsDigit(a)
    ensures DigitChar(DigitValue(a)) == a
  {
  }

  lemma {:induction false} LeadingDigitCounts(s: string)
    requires DigitsAndCommas(s) && s != "" && IsDigit(s[0]) && s[0] != '0'
    ensures Spelled(s) > 0
    decreases |s|
  {
    if |s| > 1 {
      LeadingDigitCounts(s[..|s| - 1]);
    }
  }

  lemma ShortPrint(s: string)
    requires 1 <= |s| <= 3 && AllDigits(s) && (s[0] != '0' || |s| == 1)
    requires DigitsAndCommas(s)
    ensures PrintPoints(Spelled(s)) == s
  {
    if |s| == 1 {
      assert s == [s[0]];
      PrintOne(s[0]);
    } else if |s| == 2 {
      assert s == [s[0], s[1]];
      PrintTwo(s[0], s[1]);
    } else {
      assert s == [s[0], s[1], s[2]];
      PrintThree(s[0], s[1], s[2]);
    }
  }

  lemma PrintOne(a: char)
    requires IsDigit(a)
    ensures PrintPoints(Spelled([a])) == [a]
  {
    SpelledUpToThree(a, a, a);
    DigitOfValue(a);
  }

  lemma PrintTwo(a: char, b: char)
    requires IsDigit(a) && IsDigit(b) && a != '0'
    ensures PrintPoints(Spelled([a, b])) == [a, b]
  {
    SpelledUpToThree(a, b, b);
    var n := Spelled([a, b]);
    assert n / 10 == DigitValue(a) && n % 10 == DigitValue(b);
    DigitOfValue(a);
    DigitOfValue(b);
  }

  lemma PrintThree(a: char, b: char, c: char)
    requires IsDigit(a) && IsDigit(b) && IsDigit(c) && a != '0'
    ensures PrintPoints(Spelled([a, b, c])) == [a, b, c]
  {
    SpelledUpToThree(a, b, c);
    LastThree(0, a, b, c);
  }
}
