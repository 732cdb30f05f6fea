// Group header cards between the row bands of a frame (internal/ingest/headercard.go):
// where a card may stand, and which header owns a row.  Whether a badge is
// convincing inside a window is arbitrary.
module HeaderCards {

  // A detected row, or a stretch no row covers; both half-open in scanlines.
  datatype Band = Band(y0: int, y1: int)

  datatype Header = Header(rank: string, y0: int)

  predicate Holds(b: Band, y: int) {
    b.y0 <= y < b.y1
  }

  ghost predicate IsCovered(bands: seq<Band>, y: int) {
    exists k :: 0 <= k < |bands| && Holds(bands[k], y)
  }

  predicate InOrder(a: Band, b: Band) {
    a.y0 <= b.y0
  }

  ghost predicate IsSorted(bands: seq<Band>) {
    forall j, k {:trigger InOrder(bands[j], bands[k])} :: 0 <= j < k < |bands| ==> InOrder(bands[j], bands[k])
  }

  ghost predicate AreProper(bands: seq<Band>) {
    forall k :: 0 <= k < |bands| ==> bands[k].y0 < bands[k].y1
  }

  // Each ends at or before the next begins.
  predicate Clears(a: Band, b: Band) {
    a.y1 <= b.y0
  }

  ghost predicate AreApart(bands: seq<Band>) {
    forall j, k {:trigger Clears(bands[j], bands[k])} :: 0 <= j < k < |bands| ==> Clears(bands[j], bands[k])
  }

  ghost predicate AllAbove(bands: seq<Band>, y: int) {
    forall k :: 0 <= k < |bands| ==> bands[k].y0 <= y
  }

  function InsertByTop(sorted: seq<Band>, b: Band): seq<Band> {
    if sorted == [] || sorted[|sorted| - 1].y0 <= b.y0 then sorted + [b]
    else InsertByTop(sorted[..|sorted| - 1], b) + [sorted[|sorted| - 1]]
  }

  lemma AppendKeepsOrder(sorted: seq<Band>, b: Band)
    requires IsSorted(sorted) && AllAbove(sorted, b.y0)
    ensures IsSorted(sorted + [b])
  {
    forall j, k | 0 <= j < k < |sorted| + 1 ensures InOrder((sorted + [b])[j], (sorted + [b])[k]) {
      if k < |sorted| {
        assert InOrder(sorted[j], sorted[k]);
      }
    }
  }

  lemma {:induction false} InsertKeepsOrder(sorted: seq<Band>, b: Band, y: int)
    requires IsSorted(sorted)
    ensures IsSorted(InsertByTop(sorted, b))
    ensures AllAbove(sorted, y) && b.y0 <= y ==> AllAbove(InsertByTop(sorted, b), y)
    decreases |sorted|
  {
    if sorted == [] {
    } else {
      var n := |sorted| - 1;
      var last := sorted[n];
      assert forall j :: 0 <= j < n ==> InOrder(sorted[j], sorted[n]);
      assert IsSorted(sorted[..n]) by {
        assert forall j, k :: 0 <= j < k < n ==> InOrder(sorted[j], sorted[k]);
      }
      assert sorted == sorted[..n] + [last];
      if last.y0 <= b.y0 {
        AppendKeepsOrder(sorted, b);
      } else {
        InsertKeepsOrder(sorted[..n], b, last.y0);
        AppendKeepsOrder(InsertByTop(sorted[..n], b), last);
        assert AllAbove(sorted, y) ==> last.y0 <= y;
        InsertKeepsOrder(sorted[..n], b, y);
      }
    }
  }

  lemma {:induction false} InsertKeepsAll(sorted: seq<Band>, b: Band)
    ensures multiset(InsertByTop(sorted, b)) == multiset(sorted) + multiset{b}
    decreases |sorted|
  {
    if sorted != [] {
      var n := |sorted| - 1;
      InsertKeepsAll(sorted[..n], b);
      assert sorted == sorted[..n] + [sorted[n]];
    }
  }

  // The order the original leaves to its library's sort.
  function SortByTop(bands: seq<Band>): seq<Band> {
    if bands == [] then [] else InsertByTop(SortByTop(bands[..|bands| - 1]), bands[|bands| - 1])
  }

  lemma {:induction false} SortByTopSorts(bands: seq<Band>)
    ensures IsSorted(SortByTop(bands)) && multiset(SortByTop(bands)) == multiset(bands)
    decreases |bands|
  {
    if bands != [] {
      var n := |bands| - 1;
      SortByTopSorts(bands[..n]);
      InsertKeepsOrder(SortByTop(bands[..n]), bands[n], 0);
      InsertKeepsAll(SortByTop(bands[..n]), bands[n]);
      assert bands == bands[..n] + [bands[n]];
    }
  }

  // ------------------------------------------------------------------ windows

  // Between the cursor and the top of the search everything is settled.
  ghost predicate AreGaps(ws: seq<Band>, bands: seq<Band>, top: int, cursor: int) {
    && top <= cursor
    && (cursor == top || exists k :: 0 <= k < |bands| && bands[k].y1 == cursor)
    && AreProper(ws) && AreApart(ws)
    && (forall k :: 0 <= k < |ws| ==> top <= ws[k].y0 && ws[k].y1 <= cursor)
    && forall y :: top <= y < cursor ==> (IsCovered(ws, y) <==> !IsCovered(bands, y))
  }

  lemma GapsExtend(ws: seq<Band>, bands: seq<Band>, b: Band, top: int, cursor: int)
    requires AreGaps(ws, bands, top, cursor) && b.y0 < b.y1
    requires forall k :: 0 <= k < |bands| ==> bands[k].y0 <= b.y0 && bands[k].y1 <= cursor
    ensures AreGaps(if b.y0 > cursor then ws + [Band(cursor, b.y0)] else ws, bands + [b], top,
                    if b.y1 > cursor then b.y1 else cursor)
  {
    var next := if b.y0 > cursor then ws + [Band(cursor, b.y0)] else ws;
    var end := if b.y1 > cursor then b.y1 else cursor;
    assert (bands + [b])[|bands|] == b;
    if end == cursor && cursor != top {
      var k :| 0 <= k < |bands| && bands[k].y1 == cursor;
      assert (bands + [b])[k] == bands[k];
    }
    forall y | top <= y < end ensures IsCovered(next, y) <==> !IsCovered(bands + [b], y) {
      CoverGrows(bands, b, y);
      CoverGrows(ws, Band(cursor, b.y0), y);
      if y < cursor && Holds(b, y) {
        var k :| 0 <= k < |bands| && bands[k].y1 == cursor;
        assert Holds(bands[k], y);
      }
    }
  }

  lemma CoverGrows(bands: seq<Band>, b: Band, y: int)
    ensures IsCovered(bands + [b], y) <==> IsCovered(bands, y) || Holds(b, y)
  {
    if k :| 0 <= k < |bands| && Holds(bands[k], y) {
      assert Holds((bands + [b])[k], y);
    }
    assert (bands + [b])[|bands|] == b;
  }

  lemma LastGap(ws: seq<Band>, bands: seq<Band>, top: int, cursor: int, bottom: int)
    requires AreGaps(ws, bands, top, cursor) && cursor < bottom
    requires forall k :: 0 <= k < |bands| ==> bands[k].y1 <= cursor
    ensures AreWindows(ws + [Band(cursor, bottom)], bands, top, bottom)
  {
    var next := ws + [Band(cursor, bottom)];
    forall y ensures IsCovered(next, y) ==> top <= y && !IsCovered(bands, y)
             ensures top <= y < bottom ==> (IsCovered(next, y) <==> !IsCovered(bands, y)) {
      CoverGrows(ws, Band(cursor, bottom), y);
    }
  }

  // The windows hold every uncovered scanline of the search, and no covered one.
  ghost predicate AreWindows(ws: seq<Band>, bands: seq<Band>, top: int, bottom: int) {
    && AreProper(ws) && AreApart(ws)
    && (forall y {:trigger IsCovered(ws, y)} :: IsCovered(ws, y) ==> top <= y && !IsCovered(bands, y))
    && (forall y {:trigger IsCovered(ws, y)} :: top <= y < bottom && !IsCovered(bands, y) ==> IsCovered(ws, y))
  }

  // The space above the first band, between consecutive ones, and below the last.
  method Windows(sorted: seq<Band>, top: int, bottom: int) returns (ws: seq<Band>)
    requires IsSorted(sorted) && AreProper(sorted)
    ensures AreWindows(ws, sorted, top, bottom)
  {
    ws := [];
    var cursor := top;
    for i := 0 to |sorted|
      invariant AreGaps(ws, sorted[..i], top, cursor)
      invariant forall k :: 0 <= k < i ==> sorted[k].y1 <= cursor
    {
      var band := sorted[i];
      assert forall k :: 0 <= k < i ==> InOrder(sorted[k], sorted[i]);
      GapsExtend(ws, sorted[..i], band, top, cursor);
      assert sorted[..i + 1] == sorted[..i] + [band];
      if band.y0 > cursor {
        ws := ws + [Band(cursor, band.y0)];
      }
      if band.y1 > cursor {
        cursor := band.y1;
      }
    }
    assert sorted[..|sorted|] == sorted;
    if bottom > cursor {
      LastGap(ws, sorted, top, cursor, bottom);
      ws := ws + [Band(cursor, bottom)];
    }
  }

  lemma SameBandsSameCover(a: seq<Band>, b: seq<Band>, y: int)
    requires multiset(a) == multiset(b)
    ensures IsCovered(a, y) ==> IsCovered(b, y)
  {
    if k :| 0 <= k < |a| && Holds(a[k], y) {
      assert a[k] in multiset(b);
      var i :| 0 <= i < |b| && b[i] == a[k];
      assert Holds(b[i], y);
    }
  }

  // Where a header card may stand: all of the search no row covers, whatever order
  // the rows are listed in.
  method CardWindows(bands: seq<Band>, top: int, bottom: int) returns (ws: seq<Band>)
    requires AreProper(bands)
    ensures AreWindows(ws, bands, top, bottom)
  {
    var sorted := SortByTop(bands);
    SortByTopSorts(bands);
    assert AreProper(sorted) by {
      forall k | 0 <= k < |sorted| ensures sorted[k].y0 < sorted[k].y1 {
        assert sorted[k] in multiset(bands);
      }
    }
    ws := Windows(sorted, top, bottom);
    forall y ensures IsCovered(sorted, y) <==> IsCovered(bands, y) {
      SameBandsSameCover(sorted, bands, y);
      SameBandsSameCover(bands, sorted, y);
    }
  }

  // ------------------------------------------------------------------- owners

  // The last header, from the i-th on, before the first that starts below y.
  function OwnerIndex(headers: seq<Header>, y: int, i: nat): (r: nat)
    requires i < |headers|
    ensures i <= r < |headers|
    decreases |headers| - i
  {
    if i + 1 < |headers| && headers[i + 1].y0 <= y then OwnerIndex(headers, y, i + 1) else i
  }

  function Owner(headers: seq<Header>, y: int): string
    requires |headers| > 0
  {
    headers[OwnerIndex(headers, y, 0)].rank
  }

  method OwnerOf(headers: seq<Header>, y: int) returns (rank: string)
    requires |headers| > 0
    ensures rank == Owner(headers, y)
  {
    rank := headers[0].rank;
    ghost var at := 0;
    for i := 1 to |headers|
      invariant at == i - 1 && rank == headers[at].rank
      invariant OwnerIndex(headers, y, at) == OwnerIndex(headers, y, 0)
    {
      if headers[i].y0 <= y {
        rank := headers[i].rank;
        at := i;
      } else {
        break;
      }
    }
  }

  ghost predicate StartInOrder(headers: seq<Header>) {
    forall j, k :: 0 <= j < k < |headers| ==> headers[j].y0 <= headers[k].y0
  }

  // Over headers in order, a row's owner is the last one at or above its top.
  lemma {:induction false} OwnerIsLastAtOrAbove(headers: seq<Header>, y: int, i: nat, k: nat)
    requires i < |headers| && StartInOrder(headers) && headers[i].y0 <= y
    requires i <= k < |headers|
    ensures headers[k].y0 <= y <==> k <= OwnerIndex(headers, y, i)
    decreases |headers| - i
  {
    if i + 1 < |headers| && headers[i + 1].y0 <= y {
      if k > i {
        OwnerIsLastAtOrAbove(headers, y, i + 1, k);
      }
    }
  }

  // Down the frame ownership only ever passes to a later header.
  lemma {:induction false} OwnersFollowTheFrame(headers: seq<Header>, y: int, z: int, i: nat)
    requires i < |headers| && y <= z
    ensures OwnerIndex(headers, y, i) <= OwnerIndex(headers, z, i)
    decreases |headers| - i
  {
    if i + 1 < |headers| && headers[i + 1].y0 <= y {
      OwnersFollowTheFrame(headers, y, z, i + 1);
    }
  }
}
