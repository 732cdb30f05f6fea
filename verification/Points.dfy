// The ordering check of the weekly ranking (internal/ingest/points.go): which
// confident reads may define windows, and which window each row is judged
// against.  A row is an index; "above" means a better rank, a smaller index.
module Points {
  import opened IntSets

  const MAX_INT64: int := 0x7FFF_FFFF_FFFF_FFFF

  // A row's inclusive range of admissible values.
  datatype PointsBound = PointsBound(lo: int, hi: int)

  predicate WithinBounds(v: int, b: PointsBound) {
    b.lo <= v <= b.hi
  }

  // ---------------------------------------------------------------- windows

  // hi is the value of the nearest known row above i, or open.
  ghost predicate IsUpper(values: seq<int>, known: seq<bool>, i: nat, hi: int)
    requires i <= |values| == |known|
  {
    || (hi == MAX_INT64 && forall q :: 0 <= q < i ==> !known[q])
    || exists p :: 0 <= p < i && known[p] && hi == values[p] && forall q :: p < q < i ==> !known[q]
  }

  // lo is the value of the nearest known row below i, or zero.
  ghost predicate IsLower(values: seq<int>, known: seq<bool>, i: int, lo: int)
    requires -1 <= i < |values| == |known|
  {
    || (lo == 0 && forall q :: i < q < |known| ==> !known[q])
    || exists p :: i < p < |known| && known[p] && lo == values[p] && forall q :: i < q < p ==> !known[q]
  }

  ghost predicate AreWindows(values: seq<int>, known: seq<bool>, bounds: seq<PointsBound>)
    requires |values| == |known|
  {
    && |bounds| == |values|
    && forall i :: 0 <= i < |bounds| ==>
         IsUpper(values, known, i, bounds[i].hi) && IsLower(values, known, i, bounds[i].lo)
  }

  // Two sweeps: the upper ends going down the ranking, the lower ends going up.
  method PointsBounds(values: seq<int>, known: seq<bool>) returns (bounds: seq<PointsBound>)
    requires |values| == |known|
    ensures AreWindows(values, known, bounds)
  {
    var out := new PointsBound[|values|](_ => PointsBound(0, 0));
    var hi := MAX_INT64;
    for i := 0 to |values|
      invariant IsUpper(values, known, i, hi)
      invariant forall k :: 0 <= k < i ==> IsUpper(values, known, k, out[k].hi)
    {
      out[i] := out[i].(hi := hi);
      if known[i] {
        hi := values[i];
      }
    }
    var lo := 0;
    for i := |values| downto 0
      invariant IsLower(values, known, i - 1, lo)
      invariant forall k :: 0 <= k < |values| ==> IsUpper(values, known, k, out[k].hi)
      invariant forall k :: i <= k < |values| ==> IsLower(values, known, k, out[k].lo)
    {
      out[i] := out[i].(lo := lo);
      if known[i] {
        lo := values[i];
      }
    }
    bounds := out[..];
  }

  // ------------------------------------------------------------------ seeds

  ghost function Positions(mask: seq<bool>): (s: set<int>)
    ensures forall i :: i in s <==> 0 <= i < |mask| && mask[i]
  {
    set i | 0 <= i < |mask| && mask[i]
  }

  // A set of known rows whose values never rise down the ranking.
  ghost predicate SeedChain(values: seq<int>, known: seq<bool>, s: set<int>)
    requires |values| == |known|
  {
    && s <= Positions(known)
    && forall a, b :: a in s && b in s && a < b ==> values[a] >= values[b]
  }

  // s equals t, or at the last row where they differ it is t that has the row.
  ghost predicate EndsNoLater(s: set<int>, t: set<int>) {
    s == t || exists d :: DiffersLastAt(s, t, d)
  }

  ghost predicate DiffersLastAt(s: set<int>, t: set<int>, d: int) {
    d in t && d !in s && forall x :: d < x ==> (x in s <==> x in t)
  }

  // s is a longest chain; among longest chains, the one read off the earliest
  // rows when compared from the bottom of the ranking upwards.
  ghost predicate IsLongest(values: seq<int>, known: seq<bool>, s: set<int>)
    requires |values| == |known|
  {
    && SeedChain(values, known, s)
    && forall t :: SeedChain(values, known, t) ==>
         |t| <= |s| && (|t| == |s| ==> EndsNoLater(s, t))
  }

  // The same, among the chains whose last row is e.
  ghost predicate IsLongestTo(values: seq<int>, known: seq<bool>, e: int, s: set<int>)
    requires |values| == |known|
  {
    && SeedChain(values, known, s) && EndsAt(s, e)
    && forall t :: SeedChain(values, known, t) && EndsAt(t, e) ==>
         |t| <= |s| && (|t| == |s| ==> EndsNoLater(s, t))
  }

  // What the inner loop of the table filling has established for value v once
  // it has seen the first n entries: p is the first of those it may follow
  // whose length is greatest, and len one more than that.
  ghost predicate BestSoFar(values: seq<int>, idx: seq<int>, lengths: seq<int>, n: nat, v: int, p: int, len: int)
    requires n <= |idx| && n <= |lengths|
    requires forall k :: 0 <= k < |idx| ==> 0 <= idx[k] < |values|
  {
    && -1 <= p < n
    && len == (if p < 0 then 0 else lengths[p]) + 1
    && (p >= 0 ==> values[idx[p]] >= v)
    && (forall k :: 0 <= k < n && values[idx[k]] >= v ==> lengths[k] < len)
    && (forall k :: 0 <= k < n && k < p && values[idx[k]] >= v ==> lengths[k] + 1 < len)
  }

  ghost function ChainThrough(chains: seq<set<int>>, p: int, e: int): set<int>
    requires -1 <= p < |chains|
  {
    (if p < 0 then {} else chains[p]) + {e}
  }

  ghost predicate SeedsInOrder(known: seq<bool>, idx: seq<int>) {
    && (forall a, b :: 0 <= a < b < |idx| ==> idx[a] < idx[b])
    && (forall k :: 0 <= k < |idx| ==> 0 <= idx[k] < |known| && known[idx[k]])
    && (forall i :: 0 <= i < |known| && known[i] ==> i in idx)
  }

  ghost predicate IsEntry(idx: seq<int>, chains: seq<set<int>>, length: int, prev: int, k: nat)
    requires k < |chains| <= |idx|
  {
    && length == |chains[k]|
    && -1 <= prev < k
    && chains[k] == ChainThrough(chains, prev, idx[k])
  }

  // The filled part of the table: length[j] is the size of the longest chain
  // ending at seed j and prev[j] the seed before it there, or -1; chains names
  // those chains.
  ghost predicate IsTable(values: seq<int>, known: seq<bool>, idx: seq<int>, chains: seq<set<int>>,
                          length: seq<int>, prev: seq<int>)
    requires |values| == |known|
  {
    && SeedsInOrder(known, idx)
    && |chains| <= |idx|
    && AreEntries(idx, chains, length, prev)
    && (forall k {:trigger IsLongestTo(values, known, idx[k], chains[k])} ::
          0 <= k < |chains| ==> IsLongestTo(values, known, idx[k], chains[k]))
  }

  ghost predicate AreEntries(idx: seq<int>, chains: seq<set<int>>, length: seq<int>, prev: seq<int>) {
    && |chains| == |length| == |prev| <= |idx|
    && forall k {:trigger IsEntry(idx, chains, length[k], prev[k], k)} ::
         0 <= k < |chains| ==> IsEntry(idx, chains, length[k], prev[k], k)
  }

  // One table entry is right once every earlier one is.
  lemma EntryIsLongest(values: seq<int>, known: seq<bool>, idx: seq<int>, chains: seq<set<int>>,
                       length: seq<int>, prev: seq<int>, p: int, len: int)
    requires |values| == |known| && |chains| < |idx|
    requires IsTable(values, known, idx, chains, length, prev)
    requires BestSoFar(values, idx, length, |chains|, values[idx[|chains|]], p, len)
    ensures IsLongestTo(values, known, idx[|chains|], ChainThrough(chains, p, idx[|chains|]))
    ensures len == |ChainThrough(chains, p, idx[|chains|])|
  {
    var e := idx[|chains|];
    var s := ChainThrough(chains, p, e);
    if p >= 0 {
      assert IsLongestTo(values, known, idx[p], chains[p]) && IsEntry(idx, chains, length[p], prev[p], p);
      assert e !in chains[p];
    }
    assert SeedChain(values, known, s) && EndsAt(s, e);
    forall t | SeedChain(values, known, t) && EndsAt(t, e)
      ensures |t| <= |s| && (|t| == |s| ==> EndsNoLater(s, t))
    {
      RivalIsNoBetter(values, known, idx, chains, length, prev, p, len, t);
    }
  }

  lemma RivalIsNoBetter(values: seq<int>, known: seq<bool>, idx: seq<int>, chains: seq<set<int>>,
                        length: seq<int>, prev: seq<int>, p: int, len: int, t: set<int>)
    requires |values| == |known| && |chains| < |idx|
    requires IsTable(values, known, idx, chains, length, prev)
    requires BestSoFar(values, idx, length, |chains|, values[idx[|chains|]], p, len)
    requires SeedChain(values, known, t) && EndsAt(t, idx[|chains|])
    requires len == |ChainThrough(chains, p, idx[|chains|])|
    ensures |t| <= len && (|t| == len ==> EndsNoLater(ChainThrough(chains, p, idx[|chains|]), t))
  {
    var e := idx[|chains|];
    var rest := t - {e};
    assert t == rest + {e};
    if x :| x in rest {
      var k := RestEndsEarlier(values, known, idx, |chains|, t, x);
      assert IsLongestTo(values, known, idx[k], chains[k]) && IsEntry(idx, chains, length[k], prev[k], k);
      if |t| == len {
        assert IsLongestTo(values, known, idx[p], chains[p]);
        SameLengthEndsNoLater(idx, chains, p, k, e, rest);
      }
    } else {
      assert t <= ChainThrough(chains, p, e);
      SubsetIsSmaller(t, ChainThrough(chains, p, e));
    }
  }

  // Without its last row a longer chain ends at some earlier seed.
  lemma RestEndsEarlier(values: seq<int>, known: seq<bool>, idx: seq<int>, j: nat, t: set<int>, x: int)
    returns (k: nat)
    requires |values| == |known| && SeedsInOrder(known, idx) && j < |idx|
    requires SeedChain(values, known, t) && EndsAt(t, idx[j]) && x in t - {idx[j]}
    ensures k < j && values[idx[k]] >= values[idx[j]]
    ensures SeedChain(values, known, t - {idx[j]}) && EndsAt(t - {idx[j]}, idx[k])
  {
    var m := LastElement(t - {idx[j]}, x);
    assert m in t && known[m] && m in idx;
    k :| 0 <= k < |idx| && idx[k] == m;
  }

  lemma SameLengthEndsNoLater(idx: seq<int>, chains: seq<set<int>>, p: nat, k: nat, e: int, rest: set<int>)
    requires p <= k < |chains| <= |idx|
    requires EndsAt(chains[p], idx[p]) && EndsAt(rest, idx[k])
    requires p < k ==> idx[p] < idx[k]
    requires idx[k] < e
    requires p == k ==> EndsNoLater(chains[k], rest)
    ensures EndsNoLater(ChainThrough(chains, p, e), rest + {e})
  {
    var s, t := ChainThrough(chains, p, e), rest + {e};
    if p < k {
      assert DiffersLastAt(s, t, idx[k]);
    } else if chains[k] != rest {
      var d :| DiffersLastAt(chains[k], rest, d);
      assert DiffersLastAt(s, t, d);
    }
  }

  // The last row of a longest chain is the first row at which the table is
  // greatest.
  lemma BestEntryIsLongest(values: seq<int>, known: seq<bool>, idx: seq<int>, chains: seq<set<int>>, best: nat)
    requires |values| == |known| && SeedsInOrder(known, idx)
    requires |idx| == |chains| > 0 && best < |chains|
    requires forall k {:trigger IsLongestTo(values, known, idx[k], chains[k])} ::
      0 <= k < |idx| ==> IsLongestTo(values, known, idx[k], chains[k])
    requires IsFirstBest(chains, best, |chains[best]|)
    ensures IsLongest(values, known, chains[best])
  {
    var s := chains[best];
    assert IsLongestTo(values, known, idx[best], chains[best]);
    forall t | SeedChain(values, known, t)
      ensures |t| <= |s| && (|t| == |s| ==> EndsNoLater(s, t))
    {
      if x :| x in t {
        var m := LastElement(t, x);
        assert known[m] && m in idx;
        var k :| 0 <= k < |idx| && idx[k] == m;
        assert EndsAt(t, idx[k]);
        assert IsLongestTo(values, known, idx[k], chains[k]);
        if |t| == |s| && k != best {
          assert best < k && idx[best] < idx[k];
          assert DiffersLastAt(s, t, idx[k]);
        }
      } else {
        assert t <= s;
        SubsetIsSmaller(t, s);
      }
    }
  }

  lemma ExtendTable(values: seq<int>, known: seq<bool>, idx: seq<int>, chains: seq<set<int>>,
                    length: seq<int>, prev: seq<int>, p: int, len: int)
    requires |values| == |known| && |chains| < |idx|
    requires IsTable(values, known, idx, chains, length, prev) && -1 <= p < |chains|
    requires len == |ChainThrough(chains, p, idx[|chains|])|
    requires IsLongestTo(values, known, idx[|chains|], ChainThrough(chains, p, idx[|chains|]))
    ensures IsTable(values, known, idx, chains + [ChainThrough(chains, p, idx[|chains|])], length + [len], prev + [p])
  {
    ExtendEntries(idx, chains, length, prev, p, len);
    var chains' := chains + [ChainThrough(chains, p, idx[|chains|])];
    forall k | 0 <= k < |chains'|
      ensures IsLongestTo(values, known, idx[k], chains'[k])
    {
      if k < |chains| {
        assert chains'[k] == chains[k] && IsLongestTo(values, known, idx[k], chains[k]);
      }
    }
  }

  lemma NextEntry(values: seq<int>, known: seq<bool>, idx: seq<int>, chains: seq<set<int>>,
                  length: seq<int>, prev: seq<int>, p: int, len: int)
    requires |values| == |known| && |chains| < |idx|
    requires IsTable(values, known, idx, chains, length, prev)
    requires BestSoFar(values, idx, length, |chains|, values[idx[|chains|]], p, len)
    ensures IsTable(values, known, idx, chains + [ChainThrough(chains, p, idx[|chains|])], length + [len], prev + [p])
    ensures len == |ChainThrough(chains, p, idx[|chains|])|
  {
    EntryIsLongest(values, known, idx, chains, length, prev, p, len);
    ExtendTable(values, known, idx, chains, length, prev, p, len);
  }

  lemma ExtendEntries(idx: seq<int>, chains: seq<set<int>>, length: seq<int>, prev: seq<int>, p: int, len: int)
    requires |chains| < |idx| && AreEntries(idx, chains, length, prev)
    requires -1 <= p < |chains| && len == |ChainThrough(chains, p, idx[|chains|])|
    ensures AreEntries(idx, chains + [ChainThrough(chains, p, idx[|chains|])], length + [len], prev + [p])
  {
    var s := ChainThrough(chains, p, idx[|chains|]);
    var chains', length', prev' := chains + [s], length + [len], prev + [p];
    forall k | 0 <= k < |chains'|
      ensures IsEntry(idx, chains', length'[k], prev'[k], k)
    {
      if k < |chains| {
        assert IsEntry(idx, chains, length[k], prev[k], k);
      }
    }
  }

  // Fills entry j from the entries before it.
  method FillEntry(values: seq<int>, idx: seq<int>, length: array<int>, prev: array<int>, j: nat)
    requires length != prev && length.Length == prev.Length == |idx|
    requires forall k :: 0 <= k < |idx| ==> 0 <= idx[k] < |values|
    requires j < |idx|
    modifies length, prev
    ensures length[j] >= 1
    ensures length[..j] == old(length[..j]) && prev[..j] == old(prev[..j])
    ensures BestSoFar(values, idx, length[..j], j, values[idx[j]], prev[j], length[j])
  {
    ghost var ls, ps := length[..j], prev[..j];
    length[j] := 1;
    prev[j] := -1;
    for k := 0 to j
      invariant length[j] >= 1
      invariant BestSoFar(values, idx, ls, k, values[idx[j]], prev[j], length[j])
      invariant length[..j] == ls && prev[..j] == ps
    {
      assert length[k] == ls[k];
      if values[idx[k]] >= values[idx[j]] && length[k] + 1 > length[j] {
        length[j] := length[k] + 1;
        prev[j] := k;
      }
    }
  }

  // The indices of the seeds, down the ranking.
  method CollectSeeds(known: seq<bool>) returns (idx: seq<int>)
    ensures SeedsInOrder(known, idx)
  {
    idx := [];
    for i := 0 to |known|
      invariant SeedsInOrder(known[..i], idx)
    {
      assert known[..i + 1] == known[..i] + [known[i]];
      if known[i] {
        idx := idx + [i];
      }
    }
    assert known[..|known|] == known;
  }

  // Follows prev from the best entry and marks the rows it meets.
  method WalkBack(known: seq<bool>, idx: seq<int>, prev: array<int>, out: array<bool>, bestEnd: nat,
                  ghost chains: seq<set<int>>, ghost length: seq<int>)
    requires bestEnd < |chains| == |length| == |idx| == prev.Length
    requires forall k :: 0 <= k < |idx| ==> 0 <= idx[k] < out.Length
    requires AreEntries(idx, chains, length, prev[..])
    requires forall i :: 0 <= i < out.Length ==> !out[i]
    modifies out
    ensures Positions(out[..]) == chains[bestEnd]
  {
    var j := bestEnd;
    while j != -1
      invariant -1 <= j < |idx|
      invariant chains[bestEnd] == Positions(out[..]) + if j < 0 then {} else chains[j]
      decreases j
    {
      assert IsEntry(idx, chains, length[j], prev[..][j], j);
      ghost var before := out[..];
      out[idx[j]] := true;
      assert Positions(out[..]) == Positions(before) + {idx[j]};
      j := prev[j];
    }
  }

  // Fills the whole table and returns the first entry at which it is greatest.
  method FillTable(values: seq<int>, known: seq<bool>, idx: seq<int>, length: array<int>, prev: array<int>)
    returns (bestEnd: nat, ghost chains: seq<set<int>>)
    requires |values| == |known| && SeedsInOrder(known, idx)
    requires length != prev && length.Length == prev.Length == |idx|
    modifies length, prev
    ensures |chains| == |idx| && IsTable(values, known, idx, chains, length[..], prev[..])
    ensures exists bestLen :: IsFirstBest(chains, bestEnd, bestLen)
  {
    chains := [];
    bestEnd := 0;
    var bestLen := 0;
    for j := 0 to |idx|
      invariant |chains| == j
      invariant IsTable(values, known, idx, chains, length[..j], prev[..j])
      invariant IsFirstBest(chains, bestEnd, bestLen)
    {
      ghost var ls, ps := length[..j], prev[..j];
      FillEntry(values, idx, length, prev, j);
      NextEntry(values, known, idx, chains, ls, ps, prev[j], length[j]);
      chains := chains + [ChainThrough(chains, prev[j], idx[j])];
      assert length[..j + 1] == ls + [length[j]] && prev[..j + 1] == ps + [prev[j]];
      if length[j] > bestLen {
        bestLen, bestEnd := length[j], j;
      }
    }
    assert length[..|idx|] == length[..] && prev[..|idx|] == prev[..];
  }

  // Keeps the seeds of a longest non-increasing run and marks the rest unknown.
  method MonotonicKnown(values: seq<int>, known: seq<bool>) returns (kept: seq<bool>)
    requires |values| == |known|
    ensures |kept| == |known|
    ensures IsLongest(values, known, Positions(kept))
  {
    var idx := CollectSeeds(known);
    var out := new bool[|known|](_ => false);
    if |idx| == 0 {
      NoSeedsNoChain(values, known, idx, out[..]);
      return out[..];
    }
    var length, prev := new int[|idx|], new int[|idx|];
    ghost var chains;
    var bestEnd;
    bestEnd, chains := FillTable(values, known, idx, length, prev);
    BestEntryIsLongest(values, known, idx, chains, bestEnd);
    WalkBack(known, idx, prev, out, bestEnd, chains, length[..]);
    kept := out[..];
  }

  ghost predicate IsFirstBest(chains: seq<set<int>>, best: nat, len: int) {
    if chains == [] then best == len == 0 else
      && best < |chains| && |chains[best]| == len
      && (forall k :: 0 <= k < |chains| ==> |chains[k]| <= len)
      && (forall k :: 0 <= k < best ==> |chains[k]| < len)
  }

  lemma NoSeedsNoChain(values: seq<int>, known: seq<bool>, idx: seq<int>, out: seq<bool>)
    requires |values| == |known| == |out|
    requires SeedsInOrder(known, idx) && idx == []
    requires forall i :: 0 <= i < |out| ==> !out[i]
    ensures IsLongest(values, known, Positions(out))
  {
    forall t | SeedChain(values, known, t) ensures t == {} {
      if x :| x in t {
        assert false;
      }
    }
  }

  // ------------------------------------------------------------- main results

  ghost predicate InRange(values: seq<int>, known: seq<bool>)
    requires |values| == |known|
  {
    forall i :: 0 <= i < |values| && known[i] ==> 0 <= values[i] <= MAX_INT64
  }

  // A seed is kept exactly when it lies in the window the kept seeds give it.
  lemma KeptIffInsideOwnWindow(values: seq<int>, known: seq<bool>, kept: seq<bool>,
                               bounds: seq<PointsBound>, i: nat)
    requires |values| == |known| == |kept| && InRange(values, known)
    requires IsLongest(values, known, Positions(kept))
    requires AreWindows(values, kept, bounds)
    requires i < |values| && known[i]
    ensures kept[i] <==> WithinBounds(values[i], bounds[i])
  {
    var s := Positions(kept);
    if !kept[i] && WithinBounds(values[i], bounds[i]) {
      var t := s + {i};
      NoKeptAboveIsSmaller(values, known, kept, bounds[i].hi, i);
      NoKeptBelowIsGreater(values, known, kept, bounds[i].lo, i);
      assert SeedChain(values, known, t);
      assert false;
    }
  }

  lemma NoKeptAboveIsSmaller(values: seq<int>, known: seq<bool>, kept: seq<bool>, hi: int, i: nat)
    requires |values| == |known| == |kept| && i < |values|
    requires SeedChain(values, known, Positions(kept)) && IsUpper(values, kept, i, hi)
    ensures forall a :: 0 <= a < i && kept[a] ==> values[a] >= hi
  {
  }

  lemma NoKeptBelowIsGreater(values: seq<int>, known: seq<bool>, kept: seq<bool>, lo: int, i: nat)
    requires |values| == |known| == |kept| && i < |values|
    requires SeedChain(values, known, Positions(kept)) && IsLower(values, kept, i, lo)
    ensures forall b :: i < b < |kept| && kept[b] ==> values[b] <= lo
  {
  }

  // The specification admits one answer only.
  lemma LongestIsUnique(values: seq<int>, known: seq<bool>, s: set<int>, t: set<int>)
    requires |values| == |known|
    requires IsLongest(values, known, s) && IsLongest(values, known, t)
    ensures s == t
  {
    assert |s| == |t|;
    if s != t {
      var d :| DiffersLastAt(s, t, d);
      var d' :| DiffersLastAt(t, s, d');
    }
  }

  ghost predicate AgreeWhere(known: seq<bool>, a: seq<int>, b: seq<int>) {
    |a| == |b| == |known| && forall i :: 0 <= i < |known| && known[i] ==> a[i] == b[i]
  }

  // Values at unknown rows reach neither the kept seeds nor any window.
  lemma UnknownRowsCannotMoveAWindow(a: seq<int>, b: seq<int>, known: seq<bool>,
                                     keptA: seq<bool>, keptB: seq<bool>,
                                     boundsA: seq<PointsBound>, boundsB: seq<PointsBound>)
    requires AgreeWhere(known, a, b) && |keptA| == |keptB| == |known|
    requires IsLongest(a, known, Positions(keptA)) && IsLongest(b, known, Positions(keptB))
    requires AreWindows(a, keptA, boundsA) && AreWindows(b, keptB, boundsB)
    ensures keptA == keptB && boundsA == boundsB
  {
    forall s ensures SeedChain(a, known, s) <==> SeedChain(b, known, s) {
    }
    LongestIsUnique(b, known, Positions(keptA), Positions(keptB));
    assert forall i :: 0 <= i < |known| ==> (i in Positions(keptA) <==> i in Positions(keptB));
    assert keptA == keptB;
    forall i | 0 <= i < |known| ensures boundsA[i] == boundsB[i] {
      UpperIsUnique(a, b, keptA, i, boundsA[i].hi, boundsB[i].hi);
      LowerIsUnique(a, b, keptA, i, boundsA[i].lo, boundsB[i].lo);
    }
  }

  lemma UpperIsUnique(a: seq<int>, b: seq<int>, known: seq<bool>, i: nat, x: int, y: int)
    requires AgreeWhere(known, a, b) && i < |a|
    requires IsUpper(a, known, i, x) && IsUpper(b, known, i, y)
    ensures x == y
  {
  }

  lemma LowerIsUnique(a: seq<int>, b: seq<int>, known: seq<bool>, i: nat, x: int, y: int)
    requires AgreeWhere(known, a, b) && i < |a|
    requires IsLower(a, known, i, x) && IsLower(b, known, i, y)
    ensures x == y
  {
  }

  // However many seeds are bad, and wherever they stand, no more than that many
  // are dropped: a clipped first-ranked value costs itself and nothing below it.
  lemma BadSeedsCostOnlyThemselves(values: seq<int>, known: seq<bool>, kept: seq<bool>, bad: set<int>)
    requires |values| == |known| == |kept|
    requires IsLongest(values, known, Positions(kept))
    requires SeedChain(values, known, Positions(known) - bad)
    ensures |Positions(known) - Positions(kept)| <= |bad|
  {
    var seeds, s := Positions(known), Positions(kept);
    assert |seeds - bad| <= |s|;
    assert |seeds| == |seeds - s| + |s| by { assert seeds == (seeds - s) + s; }
    assert |seeds| == |seeds - bad| + |seeds * bad| by { assert seeds == (seeds - bad) + seeds * bad; }
    SubsetIsSmaller(seeds * bad, bad);
  }
}
