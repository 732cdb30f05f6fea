// The name score (internal/roster/match.go, internal/roster/normalize.go): the best
// of four comparisons, and what a full score says about the two names.
module NameScore {
  import opened Names
  import opened EditDistance
  import Lexical

  const ORNAMENT_TOKEN_MAX_LEN := 2

  // ------------------------------------------------------------------ decoration

  predicate IsCore(c: char) {
    c as int < 128
  }

  predicate IsASCII(s: string) {
    forall i :: 0 <= i < |s| ==> IsCore(s[i])
  }

  // r is s from its first core character to its last, or s itself when it has none.
  ghost predicate IsStripped(s: string, r: string) {
    if forall i :: 0 <= i < |s| ==> !IsCore(s[i]) then r == s
    else exists lo, hi :: IsCoreSpan(s, lo, hi) && r == s[lo..hi]
  }

  ghost predicate IsCoreSpan(s: string, lo: int, hi: int) {
    && 0 <= lo < hi <= |s| && IsCore(s[lo]) && IsCore(s[hi - 1])
    && (forall i :: 0 <= i < lo ==> !IsCore(s[i])) && (forall i :: hi <= i < |s| ==> !IsCore(s[i]))
  }

  method StripDecoration(s: string) returns (r: string)
    ensures IsStripped(s, r)
  {
    var lo, hi := 0, |s|;
    while lo < hi && !IsCore(s[lo])
      invariant 0 <= lo <= hi && forall i :: 0 <= i < lo ==> !IsCore(s[i])
    {
      lo := lo + 1;
    }
    while hi > lo && !IsCore(s[hi - 1])
      invariant lo <= hi <= |s| && (lo < hi ==> IsCore(s[lo]))
      invariant forall i :: hi <= i < |s| ==> !IsCore(s[i])
    {
      hi := hi - 1;
    }
    if lo >= hi || (lo == 0 && hi == |s|) {
      assert lo < hi ==> IsCoreSpan(s, lo, hi) && s == s[lo..hi];
      return s;
    }
    assert IsCoreSpan(s, lo, hi);
    return s[lo..hi];
  }

  lemma CoreSpanIsUnique(s: string, lo: int, hi: int, lo2: int, hi2: int)
    requires IsCoreSpan(s, lo, hi) && IsCoreSpan(s, lo2, hi2)
    ensures lo == lo2 && hi == hi2
  {
    assert !(lo < lo2) && !(lo2 < lo);
    assert !(hi - 1 >= hi2) && !(hi2 - 1 >= hi);
  }

  lemma StrippedIsUnique(s: string, r: string, q: string)
    requires IsStripped(s, r) && IsStripped(s, q)
    ensures r == q && (s != "" ==> r != "")
  {
    if !(forall i :: 0 <= i < |s| ==> !IsCore(s[i])) {
      var lo, hi :| IsCoreSpan(s, lo, hi) && r == s[lo..hi];
      var lo2, hi2 :| IsCoreSpan(s, lo2, hi2) && q == s[lo2..hi2];
      CoreSpanIsUnique(s, lo, hi, lo2, hi2);
    }
  }

  ghost function Stripped(s: string): (r: string)
    ensures IsStripped(s, r)
  {
    if forall i :: 0 <= i < |s| ==> !IsCore(s[i]) then s
    else
      CoreSpanExists(s);
      var lo, hi :| IsCoreSpan(s, lo, hi);
      s[lo..hi]
  }

  lemma {:induction false} CoreSpanExists(s: string)
    requires exists i :: 0 <= i < |s| && IsCore(s[i])
    ensures exists lo, hi :: IsCoreSpan(s, lo, hi)
    decreases |s|
  {
    var n := |s| - 1;
    if !IsCore(s[0]) {
      var t := s[1..];
      assert forall i :: 0 <= i < n ==> t[i] == s[i + 1];
      var i :| 0 <= i < |s| && IsCore(s[i]);
      assert IsCore(t[i - 1]);
      CoreSpanExists(t);
      var lo, hi :| IsCoreSpan(t, lo, hi);
      assert forall k :: 1 <= k < |s| ==> s[k] == t[k - 1];
      assert IsCoreSpan(s, lo + 1, hi + 1);
    } else if !IsCore(s[n]) {
      var t := s[..n];
      assert IsCore(t[0]);
      CoreSpanExists(t);
      var lo, hi :| IsCoreSpan(t, lo, hi);
      assert IsCoreSpan(s, lo, hi);
    } else {
      assert IsCoreSpan(s, 0, |s|);
    }
  }

  // ---------------------------------------------------------------- word order

  predicate NotAfter(a: string, b: string) {
    !Lexical.Less(b, a)
  }

  ghost predicate IsSorted(words: seq<string>) {
    forall i, j {:trigger NotAfter(words[i], words[j])} :: 0 <= i < j < |words| ==> NotAfter(words[i], words[j])
  }

  function InsertWord(sorted: seq<Word>, w: Word): seq<Word> {
    if sorted == [] || NotAfter(sorted[|sorted| - 1], w) then sorted + [w]
    else InsertWord(sorted[..|sorted| - 1], w) + [sorted[|sorted| - 1]]
  }

  // The order the original leaves to its library's sort.
  function SortWords(words: seq<Word>): seq<Word> {
    if words == [] then [] else InsertWord(SortWords(words[..|words| - 1]), words[|words| - 1])
  }

  ghost predicate NoneAfter(words: seq<string>, w: string) {
    forall i {:trigger words[i]} :: 0 <= i < |words| ==> NotAfter(words[i], w)
  }

  lemma AppendKeepsOrder(sorted: seq<Word>, w: Word)
    requires IsSorted(sorted) && NoneAfter(sorted, w)
    ensures IsSorted(sorted + [w])
  {
    forall i, j | 0 <= i < j < |sorted| + 1 ensures NotAfter((sorted + [w])[i], (sorted + [w])[j]) {
      if j < |sorted| {
        assert NotAfter(sorted[i], sorted[j]);
      }
    }
  }

  lemma NotAfterIsTransitive(a: string, b: string, c: string)
    requires NotAfter(a, b) && NotAfter(b, c)
    ensures NotAfter(a, c)
  {
    Lexical.Trichotomy(a, b);
    Lexical.Trichotomy(b, c);
    Lexical.Trichotomy(a, c);
    if a != b && b != c {
      Lexical.Transitive(a, b, c);
    }
  }

  lemma {:induction false} InsertKeepsOrder(sorted: seq<Word>, w: Word, top: string)
    requires IsSorted(sorted)
    ensures IsSorted(InsertWord(sorted, w))
    ensures NoneAfter(sorted, top) && NotAfter(w, top) ==> NoneAfter(InsertWord(sorted, w), top)
    decreases |sorted|
  {
    if sorted == [] {
    } else {
      var n := |sorted| - 1;
      var front, last := sorted[..n], sorted[n];
      assert forall i :: 0 <= i < n ==> NotAfter(sorted[i], sorted[n]);
      assert IsSorted(front) by {
        assert forall i, j :: 0 <= i < j < n ==> NotAfter(sorted[i], sorted[j]);
      }
      if NotAfter(last, w) {
        forall i {:trigger sorted[i]} | 0 <= i < |sorted| ensures NotAfter(sorted[i], w) {
          if i < n {
            NotAfterIsTransitive(sorted[i], last, w);
          }
        }
        AppendKeepsOrder(sorted, w);
      } else {
        Lexical.Trichotomy(w, last);
        InsertKeepsOrder(front, w, last);
        AppendKeepsOrder(InsertWord(front, w), last);
        InsertKeepsOrder(front, w, top);
        assert NoneAfter(sorted, top) ==> NotAfter(sorted[n], top) && NoneAfter(front, top);
      }
    }
  }

  lemma {:induction false} InsertKeepsAll(sorted: seq<Word>, w: Word)
    ensures multiset(InsertWord(sorted, w)) == multiset(sorted) + multiset{w}
    decreases |sorted|
  {
    if sorted != [] {
      var n := |sorted| - 1;
      InsertKeepsAll(sorted[..n], w);
      assert sorted == sorted[..n] + [sorted[n]];
    }
  }

  lemma {:induction false} SortWordsSorts(words: seq<Word>)
    ensures IsSorted(SortWords(words)) && multiset(SortWords(words)) == multiset(words)
    decreases |words|
  {
    if words != [] {
      var n := |words| - 1;
      SortWordsSorts(words[..n]);
      InsertKeepsOrder(SortWords(words[..n]), words[n], "");
      InsertKeepsAll(SortWords(words[..n]), words[n]);
      assert words == words[..n] + [words[n]];
    }
  }

  lemma LastsAgree(a: seq<Word>, b: seq<Word>)
    requires IsSorted(a) && IsSorted(b) && multiset(a) == multiset(b) && a != [] && b != []
    ensures a[|a| - 1] == b[|b| - 1]
  {
    var x, y := a[|a| - 1], b[|b| - 1];
    assert x in multiset(b) && y in multiset(a);
    var j :| 0 <= j < |b| && b[j] == x;
    var i :| 0 <= i < |a| && a[i] == y;
    assert i < |a| - 1 ==> NotAfter(a[i], a[|a| - 1]);
    assert j < |b| - 1 ==> NotAfter(b[j], b[|b| - 1]);
    Lexical.Trichotomy(x, y);
  }

  lemma FrontOfSorted(a: seq<Word>)
    requires IsSorted(a) && a != []
    ensures IsSorted(a[..|a| - 1]) && multiset(a[..|a| - 1]) == multiset(a) - multiset{a[|a| - 1]}
  {
    var n := |a| - 1;
    assert a == a[..n] + [a[n]];
    assert forall i, j :: 0 <= i < j < n ==> NotAfter(a[i], a[j]);
  }

  lemma {:induction false} SortedIsUnique(a: seq<Word>, b: seq<Word>)
    requires IsSorted(a) && IsSorted(b) && multiset(a) == multiset(b)
    ensures a == b
    decreases |a|
  {
    assert |multiset(a)| == |a| && |multiset(b)| == |b|;
    if a != [] {
      LastsAgree(a, b);
      FrontOfSorted(a);
      FrontOfSorted(b);
      SortedIsUnique(a[..|a| - 1], b[..|b| - 1]);
      assert a == a[..|a| - 1] + [a[|a| - 1]] && b == b[..|b| - 1] + [b[|b| - 1]];
    }
  }

  // Two names read alike word by word exactly when they are made of the same words.
  lemma JoinedIffSameWords(a: seq<Word>, b: seq<Word>)
    ensures Join(SortWords(a)) == Join(SortWords(b)) <==> multiset(a) == multiset(b)
  {
    SortWordsSorts(a);
    SortWordsSorts(b);
    if multiset(a) == multiset(b) {
      SortedIsUnique(SortWords(a), SortWords(b));
    }
    if Join(SortWords(a)) == Join(SortWords(b)) {
      FieldsInvertJoin(SortWords(a));
      FieldsInvertJoin(SortWords(b));
    }
  }

  // ---------------------------------------------------------------------- cores

  // Not an ornament: plain, and longer than what OCR makes of one.
  predicate IsNamePart(w: string) {
    IsASCII(w) && |w| > ORNAMENT_TOKEN_MAX_LEN
  }

  ghost function NameParts(words: seq<Word>): (r: seq<Word>)
    ensures forall w :: w in r ==> w in words
  {
    if words == [] then []
    else NameParts(words[..|words| - 1]) + if IsNamePart(words[|words| - 1]) then [words[|words| - 1]] else []
  }

  method CoreTokens(tokens: seq<Word>) returns (s: string)
    ensures s == Join(NameParts(tokens))
  {
    var kept: seq<Word> := [];
    for i := 0 to |tokens|
      invariant kept == NameParts(tokens[..i])
    {
      assert tokens[..i + 1][..i] == tokens[..i];
      if !IsASCII(tokens[i]) || |tokens[i]| <= ORNAMENT_TOKEN_MAX_LEN {
        continue;
      }
      kept := kept + [tokens[i]];
    }
    assert tokens[..|tokens|] == tokens;
    s := Join(kept);
  }

  predicate HasNonASCIIToken(tokens: seq<Word>) {
    exists i :: 0 <= i < |tokens| && !IsASCII(tokens[i])
  }

  lemma {:induction false} PartsOfSorted(words: seq<Word>, top: string)
    requires IsSorted(words)
    ensures IsSorted(NameParts(words)) && (NoneAfter(words, top) ==> NoneAfter(NameParts(words), top))
    decreases |words|
  {
    if words != [] {
      var n := |words| - 1;
      assert forall i :: 0 <= i < n ==> NotAfter(words[i], words[n]);
      FrontOfSorted(words);
      PartsOfSorted(words[..n], words[n]);
      if IsNamePart(words[n]) {
        AppendKeepsOrder(NameParts(words[..n]), words[n]);
      }
      PartsOfSorted(words[..n], top);
      assert NoneAfter(words, top) ==> NotAfter(words[n], top) && NoneAfter(words[..n], top);
    }
  }

  lemma {:induction false} PartsCount(words: seq<Word>, w: Word)
    ensures multiset(NameParts(words))[w] == if IsNamePart(w) then multiset(words)[w] else 0
    decreases |words|
  {
    if words != [] {
      var n := |words| - 1;
      PartsCount(words[..n], w);
      assert words == words[..n] + [words[n]];
    }
  }

  lemma PartsIgnoreOrder(a: seq<Word>, b: seq<Word>)
    requires multiset(a) == multiset(b)
    ensures multiset(NameParts(a)) == multiset(NameParts(b))
  {
    forall w: Word ensures multiset(NameParts(a))[w] == multiset(NameParts(b))[w] {
      PartsCount(a, w);
      PartsCount(b, w);
    }
  }

  // The cores of two sorted names read alike exactly when the same words survive.
  lemma CoresAlikeIffSameParts(a: seq<Word>, b: seq<Word>)
    ensures Join(NameParts(SortWords(a))) == Join(NameParts(SortWords(b))) <==>
              multiset(NameParts(a)) == multiset(NameParts(b))
  {
    SortWordsSorts(a);
    SortWordsSorts(b);
    PartsIgnoreOrder(SortWords(a), a);
    PartsIgnoreOrder(SortWords(b), b);
    PartsOfSorted(SortWords(a), "");
    PartsOfSorted(SortWords(b), "");
    FieldsInvertJoin(NameParts(SortWords(a)));
    FieldsInvertJoin(NameParts(SortWords(b)));
    if multiset(NameParts(a)) == multiset(NameParts(b)) {
      SortedIsUnique(NameParts(SortWords(a)), NameParts(SortWords(b)));
    }
  }

  // ---------------------------------------------------------------------- scores

  function Max(a: int, b: int): int {
    if b > a then b else a
  }

  ghost predicate CoresCompared(ta: seq<Word>, tb: seq<Word>) {
    (HasNonASCIIToken(ta) || HasNonASCIIToken(tb)) && NameParts(ta) != [] && NameParts(tb) != []
  }

  ghost function CoreScore(ta: seq<Word>, tb: seq<Word>): int {
    if CoresCompared(ta, tb) then RatioSpec(Join(NameParts(ta)), Join(NameParts(tb))) else 0
  }

  // The best of the four comparisons.
  ghost function Score(a: Name, b: Name): int {
    var na, nb := Letters(a), Letters(b);
    if na == "" || nb == "" then 0
    else
      var ta, tb := SortWords(Words(a)), SortWords(Words(b));
      Max(Max(RatioSpec(na, nb), RatioSpec(Join(ta), Join(tb))),
          Max(RatioSpec(Stripped(na), Stripped(nb)), CoreScore(ta, tb)))
  }

  lemma JoinIsEmptyIff(words: seq<Word>)
    ensures Join(words) == "" <==> words == []
  {
    if words != [] {
      JoinIsTight(words);
    }
  }

  method TokenSetRatio(a: Name, b: Name) returns (best: int)
    ensures best == Score(a, b)
  {
    var na := Normalize(a);
    var nb := Normalize(b);
    if na == "" || nb == "" {
      return 0;
    }
    var sa := NormalizeTokens(a);
    var sb := NormalizeTokens(b);
    FieldsInvertJoin(Words(a));
    FieldsInvertJoin(Words(b));
    var ta, tb := SortWords(Fields(sa)), SortWords(Fields(sb));

    best := Ratio(na, nb);
    var tokenSet := Ratio(Join(ta), Join(tb));
    if tokenSet > best {
      best := tokenSet;
    }
    best := StrippedBest(na, nb, best);
    best := CoreBest(ta, tb, best);
    RatioInRange(na, nb);
  }

  // Kept apart from the rest: the decoration comparison, which only ever raises.
  method StrippedBest(na: string, nb: string, best: int) returns (r: int)
    requires na != "" && nb != "" && best >= RatioSpec(na, nb)
    ensures r == Max(best, RatioSpec(Stripped(na), Stripped(nb)))
  {
    r := best;
    var da := StripDecoration(na);
    var db := StripDecoration(nb);
    StrippedIsUnique(na, da, Stripped(na));
    StrippedIsUnique(nb, db, Stripped(nb));
    if da != na || db != nb {
      if da == "" || db == "" {
        return;
      }
      var deco := Ratio(da, db);
      if deco > r {
        r := deco;
      }
    }
  }

  method CoreBest(ta: seq<Word>, tb: seq<Word>, best: int) returns (r: int)
    requires best >= 0
    ensures r == Max(best, CoreScore(ta, tb))
  {
    r := best;
    if HasNonASCIIToken(ta) || HasNonASCIIToken(tb) {
      var ca := CoreTokens(ta);
      var cb := CoreTokens(tb);
      JoinIsEmptyIff(NameParts(ta));
      JoinIsEmptyIff(NameParts(tb));
      if ca != "" && cb != "" {
        var core := Ratio(ca, cb);
        if core > r {
          r := core;
        }
      }
    }
  }

  lemma ScoreIsSymmetric(a: Name, b: Name)
    ensures Score(a, b) == Score(b, a)
  {
    var ta, tb := SortWords(Words(a)), SortWords(Words(b));
    RatioSymmetric(Letters(a), Letters(b));
    RatioSymmetric(Join(ta), Join(tb));
    RatioSymmetric(Stripped(Letters(a)), Stripped(Letters(b)));
    RatioSymmetric(Join(NameParts(ta)), Join(NameParts(tb)));
  }

  lemma ScoreInRange(a: Name, b: Name)
    ensures 0 <= Score(a, b) <= 100
    ensures Letters(a) != "" && Letters(b) != "" ==> RatioSpec(Letters(a), Letters(b)) <= Score(a, b)
  {
    var ta, tb := SortWords(Words(a)), SortWords(Words(b));
    RatioInRange(Letters(a), Letters(b));
    RatioInRange(Join(ta), Join(tb));
    RatioInRange(Stripped(Letters(a)), Stripped(Letters(b)));
    RatioInRange(Join(NameParts(ta)), Join(NameParts(tb)));
  }

  // What a full score says: the same letters, the same bag of words, the same plain
  // core between the ornaments, or, against an ornamented name, the same long words.
  ghost predicate AreAlike(a: Name, b: Name) {
    || Letters(a) == Letters(b)
    || multiset(Words(a)) == multiset(Words(b))
    || Stripped(Letters(a)) == Stripped(Letters(b))
    || (CoresCompared(Words(a), Words(b)) && multiset(NameParts(Words(a))) == multiset(NameParts(Words(b))))
  }

  lemma OrnamentsSurviveSorting(words: seq<Word>)
    ensures HasNonASCIIToken(SortWords(words)) <==> HasNonASCIIToken(words)
    ensures NameParts(SortWords(words)) == [] <==> NameParts(words) == []
  {
    SortWordsSorts(words);
    if i :| 0 <= i < |words| && !IsASCII(words[i]) {
      assert words[i] in multiset(SortWords(words));
    }
    if i :| 0 <= i < |SortWords(words)| && !IsASCII(SortWords(words)[i]) {
      assert SortWords(words)[i] in multiset(words);
    }
    PartsIgnoreOrder(SortWords(words), words);
    assert |multiset(NameParts(words))| == |NameParts(words)| &&
           |multiset(NameParts(SortWords(words)))| == |NameParts(SortWords(words))|;
  }

  lemma FullScoreIffAlike(a: Name, b: Name)
    requires Letters(a) != "" && Letters(b) != ""
    ensures Score(a, b) == 100 <==> AreAlike(a, b)
  {
    var ta, tb := SortWords(Words(a)), SortWords(Words(b));
    RatioInRange(Letters(a), Letters(b));
    RatioInRange(Join(ta), Join(tb));
    RatioInRange(Stripped(Letters(a)), Stripped(Letters(b)));
    RatioInRange(Join(NameParts(ta)), Join(NameParts(tb)));
    JoinedIffSameWords(Words(a), Words(b));
    CoresAlikeIffSameParts(Words(a), Words(b));
    OrnamentsSurviveSorting(Words(a));
    OrnamentsSurviveSorting(Words(b));
  }

  // ------------------------------------------------------------------ every threshold

  // Some edit script turns x into y at a cost of at most the share 100 - score of
  // rewriting the longer of the two.
  ghost predicate IsWithinShare(x: string, y: string, score: int) {
    exists script :: Turns(script, x, y) && IsCheap(x, y, script, score)
  }

  ghost predicate IsCheap(x: string, y: string, script: seq<Edit>, score: int)
    requires Turns(script, x, y)
  {
    100 * ScriptCost(Weighted, script, x) <= (100 - score) * (Longer(x, y) * FULL_EDIT_COST)
  }

  lemma RatioIsShare(x: string, y: string, score: int)
    requires score <= 100
    ensures RatioSpec(x, y) >= score <==> 100 * Dist(Weighted, x, y) <= (100 - score) * (Longer(x, y) * FULL_EDIT_COST)
  {
    var full, d := Longer(x, y) * FULL_EDIT_COST, Dist(Weighted, x, y);
    LengthBounds(Weighted, x, y);
    ZeroIffEqual(Weighted, x, y);
    ShareIsQuotient(full, d, score);
  }

  lemma ShareIsQuotient(full: int, d: int, score: int)
    requires full >= 0 && score <= 100
    ensures full > 0 ==> (100 * (full - d) / full >= score <==> 100 * d <= (100 - score) * full)
    ensures 0 <= (100 - score) * full
  {
    if full > 0 {
      QuotientAtLeast(100 * (full - d), full, score);
    }
  }

  // The ratio of two strings reaches a score exactly when a cheap enough script exists.
  lemma RatioAtLeastIff(x: string, y: string, score: int)
    requires score <= 100
    ensures RatioSpec(x, y) >= score <==> IsWithinShare(x, y, score)
  {
    RatioIsShare(x, y, score);
    var best := DistIsAttained(Weighted, x, y);
    if RatioSpec(x, y) >= score {
      assert IsCheap(x, y, best, score);
    }
    if script :| Turns(script, x, y) && IsCheap(x, y, script, score) {
      DistIsLeast(Weighted, script, x, y);
    }
  }

  // One of the four pairs of forms is that close: the letters, the words in order, the
  // plain spans, or, against an ornamented name, the long plain words.
  ghost predicate IsClose(a: Name, b: Name, score: int) {
    var ta, tb := SortWords(Words(a)), SortWords(Words(b));
    || IsWithinShare(Letters(a), Letters(b), score)
    || IsWithinShare(Join(ta), Join(tb), score)
    || IsWithinShare(Stripped(Letters(a)), Stripped(Letters(b)), score)
    || (CoresCompared(ta, tb) && IsWithinShare(Join(NameParts(ta)), Join(NameParts(tb)), score))
  }

  // The score reaches any threshold exactly between names with letters that are that close.
  lemma ScoreAtLeastIff(a: Name, b: Name, score: int)
    requires 0 < score <= 100
    ensures Score(a, b) >= score <==> Letters(a) != "" && Letters(b) != "" && IsClose(a, b, score)
  {
    var ta, tb := SortWords(Words(a)), SortWords(Words(b));
    RatioAtLeastIff(Letters(a), Letters(b), score);
    RatioAtLeastIff(Join(ta), Join(tb), score);
    RatioAtLeastIff(Stripped(Letters(a)), Stripped(Letters(b)), score);
    RatioAtLeastIff(Join(NameParts(ta)), Join(NameParts(tb)), score);
  }

  // ------------------------------------------------------------ plain one-word names

  lemma PlainIsItsOwnCore(w: Word)
    requires IsASCII(w)
    ensures Stripped(w) == w
  {
    assert IsCoreSpan(w, 0, |w|) && w == w[0..|w|];
    StrippedIsUnique(w, Stripped(w), w);
  }

  lemma OneWordName(w: Word)
    ensures Words(GlyphsOf(w)) == [w] && Letters(GlyphsOf(w)) == w && SortWords(Words(GlyphsOf(w))) == [w]
  {
    var words: seq<Word> := [w];
    FieldsInvertJoin(words);
    WholeNameIsItsWords(GlyphsOf(w));
    assert words[..0] == [] && Concat([]) == "";
    assert Concat(words) == "" + w;
  }

  // Between plain names of one word each all the comparisons are the same one.
  lemma PlainWordsScore(v: Word, w: Word)
    requires IsASCII(v) && IsASCII(w)
    ensures Score(GlyphsOf(v), GlyphsOf(w)) == RatioSpec(v, w)
  {
    OneWordName(v);
    OneWordName(w);
    PlainIsItsOwnCore(v);
    PlainIsItsOwnCore(w);
    OneWordScore(GlyphsOf(v), GlyphsOf(w), v, w);
  }

  lemma PlainHaveNoCores(v: Word, w: Word)
    requires IsASCII(v) && IsASCII(w)
    ensures var ta: seq<Word>, tb: seq<Word> := [v], [w]; CoreScore(ta, tb) == 0 && Join(ta) == v && Join(tb) == w
  {
  }

  lemma OneWordScore(a: Name, b: Name, v: Word, w: Word)
    requires Letters(a) == v && SortWords(Words(a)) == [v] && Stripped(v) == v && IsASCII(v)
    requires Letters(b) == w && SortWords(Words(b)) == [w] && Stripped(w) == w && IsASCII(w)
    ensures Score(a, b) == RatioSpec(v, w)
  {
    RatioInRange(v, w);
    PlainHaveNoCores(v, w);
  }

  lemma LostLetterDistance(w: string)
    requires w != ""
    ensures Dist(Weighted, Init(w), w) == FULL_EDIT_COST
  {
    LengthBounds(Weighted, Init(w), w);
    OneStep(Weighted, Init(w), w);
    SelfIsZero(Weighted, Init(w));
  }

  lemma LostLetterRatio(w: string)
    requires w != ""
    ensures RatioSpec(Init(w), w) == 100 * (|w| - 1) / |w|
  {
    LostLetterDistance(w);
    TenthsCancel(|w|);
  }

  // A plain name read without its last letter scores by its length alone.
  lemma LostLetterScore(w: Word)
    requires IsASCII(w) && |w| >= 2
    ensures Score(GlyphsOf(Init(w)), GlyphsOf(w)) == 100 * (|w| - 1) / |w|
  {
    PlainWordsScore(Init(w), w);
    LostLetterRatio(w);
  }

  lemma TenthsCancel(n: nat)
    requires n > 0
    ensures 100 * (n * FULL_EDIT_COST - FULL_EDIT_COST) / (n * FULL_EDIT_COST) == 100 * (n - 1) / n
  {
    var q := 100 * (n - 1) / n;
    assert n * q <= 100 * (n - 1) < n * (q + 1);
    QuotientIs(100 * (n * FULL_EDIT_COST - FULL_EDIT_COST), n * FULL_EDIT_COST, q);
  }

  lemma QuotientIs(a: int, b: int, q: int)
    requires b > 0 && b * q <= a < b * (q + 1)
    ensures a / b == q
  {
    var r := a / b;
    assert b * r <= a < b * (r + 1);
    NoMoreThan(a, b, r, q);
    NoMoreThan(a, b, q, r);
  }

  lemma NoMoreThan(a: int, b: int, q: int, r: int)
    requires b > 0 && b * q <= a < b * (r + 1)
    ensures q <= r
  {
    assert b * (r + 1 - q) > 0;
  }

  lemma QuotientAtLeast(a: int, b: int, t: int)
    requires b > 0
    ensures a / b >= t <==> a >= b * t
  {
    var r := a / b;
    assert b * r <= a < b * (r + 1);
    if a >= b * t {
      NoMoreThan(a, b, t, r);
    } else {
      NoMoreThan(a, b, r, t - 1);
    }
  }
}
