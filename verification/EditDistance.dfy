// The weighted edit distance behind the name score (internal/roster/match.go
// and internal/roster/confusable.go).  Strings are sequences of runes.
module EditDistance {

  const FULL_EDIT_COST := 10
  const CONFUSABLE_COST := 2

  // The pairs of characters the OCR engine interchanges, each in one order.
  predicate Listed(x: char, y: char) {
    || (x == '0' && y == 'o') || (x == '1' && y == 'i') || (x == '1' && y == 'l') || (x == '1' && y == 't')
    || (x == 'i' && y == 'l') || (x == '5' && y == 's') || (x == '8' && y == 's') || (x == '9' && y == 's')
    || (x == '6' && y == 'g') || (x == '9' && y == 'g') || (x == '8' && y == 'b') || (x == '6' && y == 'b')
    || (x == '2' && y == 'z') || (x == 't' && y == 'f') || (x == 'c' && y == 'e') || (x == 'u' && y == 'v')
  }

  predicate Confusable(x: char, y: char) {
    Listed(x, y) || Listed(y, x)
  }

  function SubstitutionCost(x: char, y: char): int {
    if x == y then 0 else if Confusable(x, y) then CONFUSABLE_COST else FULL_EDIT_COST
  }

  // Weighted is the program's distance, in tenths of an edit; Plain is the
  // ordinary one, in edits, kept as the yardstick to compare it with.
  datatype Costs = Weighted | Plain {
    // The cost of n insertions or deletions.
    function Edits(n: nat): int {
      if Weighted? then n * FULL_EDIT_COST else n
    }

    function Sub(x: char, y: char): int {
      if Weighted? then SubstitutionCost(x, y) else if x == y then 0 else 1
    }
  }

  function Min3(a: int, b: int, c: int): int {
    var m := if b < a then b else a;
    if c < m then c else m
  }

  function Init(s: string): string
    requires s != ""
  {
    s[..|s| - 1]
  }

  function Last(s: string): char
    requires s != ""
  {
    s[|s| - 1]
  }

  // The recursive minimum-cost distance.
  ghost function Dist(m: Costs, a: string, b: string): int
    decreases |a| + |b|
  {
    if a == "" then m.Edits(|b|)
    else if b == "" then m.Edits(|a|)
    else Min3(Dist(m, a, Init(b)) + m.Edits(1), Dist(m, Init(a), b) + m.Edits(1),
              Dist(m, Init(a), Init(b)) + m.Sub(Last(a), Last(b)))
  }

  // -------------------------------------------------------------- the program

  ghost predicate IsRow(a: string, b: string, row: array<int>, n: nat)
    reads row
    requires n <= |b| + 1 == row.Length
  {
    forall j :: 0 <= j < n ==> row[j] == Dist(Weighted, a, b[..j])
  }

  lemma NextCell(a: string, b: string, i: nat, j: nat)
    requires 1 <= i <= |a| && 1 <= j <= |b|
    ensures Dist(Weighted, a[..i], b[..j]) ==
            Min3(Dist(Weighted, a[..i], b[..j - 1]) + FULL_EDIT_COST,
                 Dist(Weighted, a[..i - 1], b[..j]) + FULL_EDIT_COST,
                 Dist(Weighted, a[..i - 1], b[..j - 1]) + SubstitutionCost(a[i - 1], b[j - 1]))
  {
    assert Init(a[..i]) == a[..i - 1] && Init(b[..j]) == b[..j - 1];
  }

  // One row of the table from the row above it.
  method FillRow(a: string, b: string, i: nat, prev: array<int>, cur: array<int>)
    requires 1 <= i <= |a| && prev != cur && prev.Length == cur.Length == |b| + 1
    requires IsRow(a[..i - 1], b, prev, |b| + 1)
    modifies cur
    ensures IsRow(a[..i], b, cur, |b| + 1)
  {
    cur[0] := i * FULL_EDIT_COST;
    for j := 1 to |b| + 1
      invariant IsRow(a[..i - 1], b, prev, |b| + 1)
      invariant IsRow(a[..i], b, cur, j)
    {
      NextCell(a, b, i, j);
      cur[j] := Min3(cur[j - 1] + FULL_EDIT_COST, prev[j] + FULL_EDIT_COST,
                     prev[j - 1] + SubstitutionCost(a[i - 1], b[j - 1]));
    }
  }

  // The two-row table filling.
  method Levenshtein(a: string, b: string) returns (d: int)
    ensures d == Dist(Weighted, a, b)
  {
    var prev := new int[|b| + 1];
    var cur := new int[|b| + 1];
    for j := 0 to |b| + 1
      invariant IsRow("", b, prev, j)
    {
      prev[j] := j * FULL_EDIT_COST;
    }
    assert a[..0] == "";
    for i := 1 to |a| + 1
      invariant prev != cur && prev.Length == cur.Length == |b| + 1
      invariant fresh(prev) && fresh(cur)
      invariant IsRow(a[..i - 1], b, prev, |b| + 1)
    {
      FillRow(a, b, i, prev, cur);
      prev, cur := cur, prev;
    }
    assert a[..|a|] == a && b[..|b|] == b;
    d := prev[|b|];
  }

  // ------------------------------------------------------------- edit scripts

  datatype Edit = Insert(c: char) | Delete | Replace(c: char)

  // How many characters of the original a script uses up.
  ghost function Consumed(script: seq<Edit>): nat {
    if script == [] then 0
    else Consumed(script[..|script| - 1]) + if script[|script| - 1].Insert? then 0 else 1
  }

  // What a script leaves.
  ghost function Produced(script: seq<Edit>): string {
    if script == [] then ""
    else Produced(script[..|script| - 1]) +
         match script[|script| - 1] case Delete => "" case Insert(c) => [c] case Replace(c) => [c]
  }

  ghost predicate Turns(script: seq<Edit>, a: string, b: string) {
    Consumed(script) == |a| && Produced(script) == b
  }

  ghost function ScriptCost(m: Costs, script: seq<Edit>, a: string): int
    requires Consumed(script) == |a|
  {
    if script == [] then 0
    else
      var rest := script[..|script| - 1];
      match script[|script| - 1]
      case Insert(_) => ScriptCost(m, rest, a) + m.Edits(1)
      case Delete => ScriptCost(m, rest, Init(a)) + m.Edits(1)
      case Replace(c) => ScriptCost(m, rest, Init(a)) + m.Sub(Last(a), c)
  }

  // No script is cheaper than the distance.
  lemma {:induction false} DistIsLeast(m: Costs, script: seq<Edit>, a: string, b: string)
    requires Turns(script, a, b)
    ensures Dist(m, a, b) <= ScriptCost(m, script, a)
    decreases |script|
  {
    if script != [] {
      var rest := script[..|script| - 1];
      match script[|script| - 1]
      case Insert(c) =>
        assert Init(b) == Produced(rest);
        DistIsLeast(m, rest, a, Init(b));
      case Delete =>
        DistIsLeast(m, rest, Init(a), b);
      case Replace(c) =>
        assert Init(b) == Produced(rest);
        DistIsLeast(m, rest, Init(a), Init(b));
    }
  }

  lemma AppendEdit(m: Costs, rest: seq<Edit>, e: Edit, a: string, b: string)
    requires if e.Insert? then Turns(rest, a, b) else a != "" && Turns(rest, Init(a), b)
    ensures Turns(rest + [e], a, b + match e case Delete => "" case Insert(c) => [c] case Replace(c) => [c])
    ensures ScriptCost(m, rest + [e], a) == match e
      case Insert(_) => ScriptCost(m, rest, a) + m.Edits(1)
      case Delete => ScriptCost(m, rest, Init(a)) + m.Edits(1)
      case Replace(c) => ScriptCost(m, rest, Init(a)) + m.Sub(Last(a), c)
  {
    assert (rest + [e])[..|rest|] == rest;
  }

  // Some script attains it.
  lemma {:induction false} DistIsAttained(m: Costs, a: string, b: string) returns (script: seq<Edit>)
    ensures Turns(script, a, b) && ScriptCost(m, script, a) == Dist(m, a, b)
    decreases |a| + |b|
  {
    assert b != "" ==> Init(b) + [Last(b)] == b;
    if a == "" && b == "" {
      script := [];
    } else if a == "" || (b != "" && Dist(m, a, b) == Dist(m, a, Init(b)) + m.Edits(1)) {
      var rest := DistIsAttained(m, a, Init(b));
      AppendEdit(m, rest, Insert(Last(b)), a, Init(b));
      script := rest + [Insert(Last(b))];
    } else if b == "" || Dist(m, a, b) == Dist(m, Init(a), b) + m.Edits(1) {
      var rest := DistIsAttained(m, Init(a), b);
      AppendEdit(m, rest, Delete, a, b);
      assert b + "" == b;
      script := rest + [Delete];
    } else {
      var rest := DistIsAttained(m, Init(a), Init(b));
      AppendEdit(m, rest, Replace(Last(b)), a, Init(b));
      script := rest + [Replace(Last(b))];
    }
  }

  // ------------------------------------------------------------------- metric

  lemma {:induction false} Symmetric(m: Costs, a: string, b: string)
    ensures Dist(m, a, b) == Dist(m, b, a)
    decreases |a| + |b|
  {
    if a != "" && b != "" {
      Symmetric(m, a, Init(b));
      Symmetric(m, Init(a), b);
      Symmetric(m, Init(a), Init(b));
    }
  }

  lemma {:induction false} SelfIsZero(m: Costs, a: string)
    ensures Dist(m, a, a) <= 0
    decreases |a|
  {
    if a != "" {
      SelfIsZero(m, Init(a));
    }
  }

  ghost function Longer(a: string, b: string): nat {
    if |a| >= |b| then |a| else |b|
  }

  ghost function LengthGap(a: string, b: string): nat {
    if |a| >= |b| then |a| - |b| else |b| - |a|
  }

  // The distance lies between the difference of the lengths and the longer one.
  lemma {:induction false} LengthBounds(m: Costs, a: string, b: string)
    ensures m.Edits(LengthGap(a, b)) <= Dist(m, a, b) <= m.Edits(Longer(a, b))
    decreases |a| + |b|
  {
    if a != "" && b != "" {
      LengthBounds(m, a, Init(b));
      LengthBounds(m, Init(a), b);
      LengthBounds(m, Init(a), Init(b));
    }
  }

  // An edit a cheapest script may end with.
  ghost function LastEdit(m: Costs, a: string, b: string): (e: Edit)
    requires a != "" && b != ""
    ensures Dist(m, a, b) == match e
      case Delete => Dist(m, Init(a), b) + m.Edits(1)
      case Insert(_) => Dist(m, a, Init(b)) + m.Edits(1)
      case Replace(_) => Dist(m, Init(a), Init(b)) + m.Sub(Last(a), Last(b))
  {
    if Dist(m, a, b) == Dist(m, Init(a), b) + m.Edits(1) then Delete
    else if Dist(m, a, b) == Dist(m, a, Init(b)) + m.Edits(1) then Insert(Last(b))
    else Replace(Last(b))
  }

  lemma {:induction false} PositiveUnlessEqual(m: Costs, a: string, b: string)
    requires a != b
    ensures Dist(m, a, b) > 0
    decreases |a| + |b|
  {
    if a == "" || b == "" {
      LengthBounds(m, a, b);
      return;
    }
    assert a == Init(a) + [Last(a)] && b == Init(b) + [Last(b)];
    match LastEdit(m, a, b)
    case Delete => LengthBounds(m, Init(a), b);
    case Insert(_) => LengthBounds(m, a, Init(b));
    case Replace(_) =>
      LengthBounds(m, Init(a), Init(b));
      if Init(a) != Init(b) {
        PositiveUnlessEqual(m, Init(a), Init(b));
      }
  }

  lemma ZeroIffEqual(m: Costs, a: string, b: string)
    ensures Dist(m, a, b) == 0 <==> a == b
  {
    LengthBounds(m, a, b);
    if a == b {
      SelfIsZero(m, a);
    } else {
      PositiveUnlessEqual(m, a, b);
    }
  }

  // The weighted distance is between twice and ten times the plain one.
  lemma {:induction false} WithinFactor(a: string, b: string)
    ensures CONFUSABLE_COST * Dist(Plain, a, b) <= Dist(Weighted, a, b) <= FULL_EDIT_COST * Dist(Plain, a, b)
    decreases |a| + |b|
  {
    if a != "" && b != "" {
      WithinFactor(a, Init(b));
      WithinFactor(Init(a), b);
      WithinFactor(Init(a), Init(b));
    }
  }

  // ------------------------------------------------------ triangle inequality

  ghost predicate SubTriangle(m: Costs, x: char, y: char, z: char) {
    m.Sub(x, z) <= m.Sub(x, y) + m.Sub(y, z)
  }

  ghost predicate SubTriangleAcross(m: Costs, a: string, b: string, c: string) {
    forall x, y, z :: x in a && y in b && z in c ==> SubTriangle(m, x, y, z)
  }

  lemma OneStep(m: Costs, a: string, b: string)
    ensures b != "" ==> Dist(m, a, b) <= Dist(m, a, Init(b)) + m.Edits(1)
    ensures a != "" ==> Dist(m, a, b) <= Dist(m, Init(a), b) + m.Edits(1)
    ensures a != "" && b != "" ==> Dist(m, a, b) <= Dist(m, Init(a), Init(b)) + m.Sub(Last(a), Last(b))
  {
    LengthBounds(m, a, b);
    if b != "" {
      LengthBounds(m, a, Init(b));
    }
    if a != "" {
      LengthBounds(m, Init(a), b);
    }
  }

  lemma TriangleWithEmpty(m: Costs, a: string, b: string, c: string)
    requires a == "" || b == "" || c == ""
    ensures Dist(m, a, c) <= Dist(m, a, b) + Dist(m, b, c)
  {
    LengthBounds(m, a, b);
    LengthBounds(m, b, c);
    LengthBounds(m, a, c);
  }

  // Distances compose whenever single substitutions between these strings do.
  lemma {:induction false} Triangle(m: Costs, a: string, b: string, c: string)
    requires SubTriangleAcross(m, a, b, c)
    ensures Dist(m, a, c) <= Dist(m, a, b) + Dist(m, b, c)
    decreases |a| + |b| + |c|
  {
    if a == "" || b == "" || c == "" {
      TriangleWithEmpty(m, a, b, c);
      return;
    }
    OneStep(m, a, c);
    match (LastEdit(m, a, b), LastEdit(m, b, c))
    case (Delete, _) => Triangle(m, Init(a), b, c);
    case (_, Insert(_)) => Triangle(m, a, b, Init(c));
    case (Insert(_), Delete) => Triangle(m, a, Init(b), c);
    case (Insert(_), Replace(_)) => Triangle(m, a, Init(b), Init(c));
    case (Replace(_), Delete) => Triangle(m, Init(a), Init(b), c);
    case (Replace(_), Replace(_)) =>
      Triangle(m, Init(a), Init(b), Init(c));
      assert SubTriangle(m, Last(a), Last(b), Last(c));
  }

  lemma PlainTriangle(a: string, b: string, c: string)
    ensures Dist(Plain, a, c) <= Dist(Plain, a, b) + Dist(Plain, b, c)
  {
    Triangle(Plain, a, b, c);
  }

  // What the weighted distance keeps of the triangle inequality everywhere.
  lemma RelaxedTriangle(a: string, b: string, c: string)
    ensures Dist(Weighted, a, c) <= 5 * (Dist(Weighted, a, b) + Dist(Weighted, b, c))
  {
    PlainTriangle(a, b, c);
    WithinFactor(a, b);
    WithinFactor(b, c);
    WithinFactor(a, c);
  }

  // Two confusable pairs sharing a character whose ends are not confusable.
  ghost predicate IsChain(x: char, y: char, z: char) {
    Confusable(x, y) && Confusable(y, z) && x != z && !Confusable(x, z)
  }

  lemma SubTriangleUnlessChain(x: char, y: char, z: char)
    ensures SubTriangle(Weighted, x, y, z) <==> !IsChain(x, y, z)
  {
  }

  ghost predicate Over(s: string, alphabet: set<char>) {
    forall x :: x in s ==> x in alphabet
  }

  // The exact triangle inequality holds of the names over an alphabet if and
  // only if the alphabet contains no chain.
  lemma TriangleIffChainFree(alphabet: set<char>)
    ensures (forall a, b, c :: Over(a, alphabet) && Over(b, alphabet) && Over(c, alphabet) ==>
               Dist(Weighted, a, c) <= Dist(Weighted, a, b) + Dist(Weighted, b, c))
       <==> (forall x, y, z :: x in alphabet && y in alphabet && z in alphabet ==> !IsChain(x, y, z))
  {
    if x, y, z :| x in alphabet && y in alphabet && z in alphabet && IsChain(x, y, z) {
      SingleCharacters(Weighted, x, y);
      SingleCharacters(Weighted, y, z);
      SingleCharacters(Weighted, x, z);
      SubTriangleUnlessChain(x, y, z);
      assert Over([x], alphabet) && Over([y], alphabet) && Over([z], alphabet);
    } else {
      forall a, b, c | Over(a, alphabet) && Over(b, alphabet) && Over(c, alphabet)
        ensures Dist(Weighted, a, c) <= Dist(Weighted, a, b) + Dist(Weighted, b, c)
      {
        forall x, y, z | x in a && y in b && z in c ensures SubTriangle(Weighted, x, y, z) {
          SubTriangleUnlessChain(x, y, z);
        }
        Triangle(Weighted, a, b, c);
      }
    }
  }

  lemma SingleCharacters(m: Costs, x: char, y: char)
    ensures Dist(m, [x], [y]) == m.Sub(x, y)
  {
    assert Init([x]) == "" && Init([y]) == "";
  }

  // An 8 is near an s and an s is near a 5, but an 8 is a whole edit from a 5.
  lemma ChainExists()
    ensures IsChain('8', 's', '5')
    ensures Dist(Weighted, "8", "s") == 2 && Dist(Weighted, "s", "5") == 2 && Dist(Weighted, "8", "5") == 10
  {
    SingleCharacters(Weighted, '8', 's');
    SingleCharacters(Weighted, 's', '5');
    SingleCharacters(Weighted, '8', '5');
  }

  // -------------------------------------------------------------------- ratio

  ghost function RatioSpec(a: string, b: string): int {
    if a == b then 100
    else
      var full := Longer(a, b) * FULL_EDIT_COST;
      100 * (full - Dist(Weighted, a, b)) / full
  }

  method Ratio(a: string, b: string) returns (score: int)
    ensures score == RatioSpec(a, b)
    ensures 0 <= score <= 100
    ensures score == 100 <==> a == b
  {
    RatioInRange(a, b);
    if a == b {
      return 100;
    }
    var longest := |a|;
    if |b| > longest {
      longest := |b|;
    }
    var d := Levenshtein(a, b);
    score := 100 * (longest * FULL_EDIT_COST - d) / (longest * FULL_EDIT_COST);
    if score < 0 {
      score := 0;
    }
  }

  // The score needs no clamp, and only equal strings score 100.
  lemma RatioInRange(a: string, b: string)
    ensures 0 <= RatioSpec(a, b) <= 100
    ensures RatioSpec(a, b) == 100 <==> a == b
  {
    if a != b {
      LengthBounds(Weighted, a, b);
      ZeroIffEqual(Weighted, a, b);
      QuotientBelow(Longer(a, b) * FULL_EDIT_COST, Dist(Weighted, a, b));
    }
  }

  lemma QuotientBelow(full: int, d: int)
    requires 0 < d <= full
    ensures 0 <= 100 * (full - d) / full < 100
  {
  }

  lemma RatioSymmetric(a: string, b: string)
    ensures RatioSpec(a, b) == RatioSpec(b, a)
  {
    Symmetric(Weighted, a, b);
  }
}
