// The navigation topology (internal/runtime/graph.go): breadth-first routes over
// a list of edges, and what the production graph does and does not route to.
module Graph {
  import IntSets

  datatype Action = Tap(anchorId: string) | Back

  datatype Edge<S> = Edge(src: S, dst: S, action: Action)

  datatype Route<S> = Found(path: seq<Edge<S>>) | NoPath

  // w leads from a to b, one edge after another.
  ghost predicate IsWalk<S>(edges: seq<Edge<S>>, a: S, b: S, w: seq<Edge<S>>)
    decreases |w|
  {
    if w == [] then a == b
    else
      var e := w[|w| - 1];
      e in edges && e.dst == b && IsWalk(edges, a, e.src, w[..|w| - 1])
  }

  ghost predicate Reachable<S(!new)>(edges: seq<Edge<S>>, a: S, b: S) {
    exists w :: IsWalk(edges, a, b, w)
  }

  lemma ExtendWalk<S>(edges: seq<Edge<S>>, a: S, w: seq<Edge<S>>, e: Edge<S>)
    requires IsWalk(edges, a, e.src, w) && e in edges
    ensures IsWalk(edges, a, e.dst, w + [e])
  {
    assert (w + [e])[..|w|] == w;
  }

  // ------------------------------------------------------------- the edge order

  // Where an edge is first listed.
  ghost function FirstAt<S>(edges: seq<Edge<S>>, e: Edge<S>): (i: nat)
    ensures i <= |edges| && (i < |edges| ==> edges[i] == e) && forall k :: 0 <= k < i ==> edges[k] != e
  {
    if edges == [] || edges[0] == e then 0 else FirstAt(edges[1..], e) + 1
  }

  // Of two walks equally long, v takes the earlier edge where they first differ.
  ghost predicate Before<S>(edges: seq<Edge<S>>, v: seq<Edge<S>>, w: seq<Edge<S>>)
    decreases |v|
  {
    && |v| == |w| && v != []
    && var n := |v| - 1;
       Before(edges, v[..n], w[..n]) || (v[..n] == w[..n] && FirstAt(edges, v[n]) < FirstAt(edges, w[n]))
  }

  lemma {:induction false} BeforeIsTransitive<S>(edges: seq<Edge<S>>, u: seq<Edge<S>>, v: seq<Edge<S>>, w: seq<Edge<S>>)
    requires Before(edges, u, v) && Before(edges, v, w)
    ensures Before(edges, u, w)
    decreases |u|
  {
    var n := |u| - 1;
    if Before(edges, u[..n], v[..n]) && Before(edges, v[..n], w[..n]) {
      BeforeIsTransitive(edges, u[..n], v[..n], w[..n]);
    }
  }

  lemma {:induction false} BeforeIsIrreflexive<S>(edges: seq<Edge<S>>, v: seq<Edge<S>>)
    ensures !Before(edges, v, v)
    decreases |v|
  {
    if v != [] {
      BeforeIsIrreflexive(edges, v[..|v| - 1]);
    }
  }

  // v is shorter, or as long and no later in the edge order.
  ghost predicate Leads<S>(edges: seq<Edge<S>>, v: seq<Edge<S>>, w: seq<Edge<S>>) {
    |v| < |w| || v == w || Before(edges, v, w)
  }

  // The route every other walk comes after.
  ghost predicate IsFirstRoute<S(!new)>(edges: seq<Edge<S>>, a: S, b: S, w: seq<Edge<S>>) {
    IsWalk(edges, a, b, w) && forall v :: IsWalk(edges, a, b, v) ==> Leads(edges, w, v)
  }

  // Length and edge order leave one route only.
  lemma FirstRouteIsUnique<S(!new)>(edges: seq<Edge<S>>, a: S, b: S, v: seq<Edge<S>>, w: seq<Edge<S>>)
    requires IsFirstRoute(edges, a, b, v) && IsFirstRoute(edges, a, b, w)
    ensures v == w
  {
    assert Leads(edges, v, w) && Leads(edges, w, v);
    if Before(edges, v, w) && Before(edges, w, v) {
      BeforeIsTransitive(edges, v, w, v);
      BeforeIsIrreflexive(edges, v);
    }
  }

  // --------------------------------------------------------------- the search

  datatype Node<S> = Node(screen: S, path: seq<Edge<S>>)

  // A queued screen's route is the first of all walks to it.
  ghost predicate IsQueued<S(!new)>(edges: seq<Edge<S>>, a: S, visited: set<S>, n: Node<S>) {
    n.screen in visited && IsFirstRoute(edges, a, n.screen, n.path)
  }

  ghost predicate AllQueued<S(!new)>(edges: seq<Edge<S>>, a: S, visited: set<S>, queue: seq<Node<S>>) {
    forall k {:trigger IsQueued(edges, a, visited, queue[k])} ::
      0 <= k < |queue| ==> IsQueued(edges, a, visited, queue[k])
  }

  // A route further down the queue is later in the edge order, or extends one that is
  // earlier by an edge.
  ghost predicate Waits<S>(edges: seq<Edge<S>>, v: seq<Edge<S>>, w: seq<Edge<S>>) {
    Before(edges, v, w) || (|w| == |v| + 1 && Before(edges, w[..|v|], v))
  }

  ghost predicate InOrder<S>(edges: seq<Edge<S>>, queue: seq<Node<S>>) {
    forall j, k {:trigger Waits(edges, queue[j].path, queue[k].path)} ::
      0 <= j < k < |queue| ==> Waits(edges, queue[j].path, queue[k].path)
  }

  // Against the route being expanded, after i of the edges.
  ghost predicate IsBehind<S>(edges: seq<Edge<S>>, v: seq<Edge<S>>, w: seq<Edge<S>>, i: nat) {
    || Before(edges, v, w)
    || (|w| == |v| + 1 && (Before(edges, w[..|v|], v) || (w[..|v|] == v && FirstAt(edges, w[|v|]) < i)))
  }

  ghost predicate AllBehind<S>(edges: seq<Edge<S>>, v: seq<Edge<S>>, queue: seq<Node<S>>, i: nat) {
    forall k {:trigger IsBehind(edges, v, queue[k].path, i)} ::
      0 <= k < |queue| ==> IsBehind(edges, v, queue[k].path, i)
  }

  // Routes get longer down the queue, by one edge at most.
  ghost predicate Layered<S>(queue: seq<Node<S>>, depth: nat) {
    && (forall k :: 0 <= k < |queue| ==> depth <= |queue[k].path| <= depth + 1)
    && (forall j, k :: 0 <= j < k < |queue| ==> |queue[j].path| <= |queue[k].path|)
  }

  // Every visited screen is queued or done, and everything one edge from a done
  // screen is visited.
  ghost predicate Covers<S>(visited: set<S>, done: set<S>, queue: seq<Node<S>>) {
    && done <= visited
    && forall x :: x in visited && x !in done ==> IsIn(x, queue)
  }

  ghost predicate IsIn<S>(x: S, queue: seq<Node<S>>) {
    exists k :: 0 <= k < |queue| && queue[k].screen == x
  }

  ghost predicate ClosedUnder<S>(edges: seq<Edge<S>>, done: set<S>, visited: set<S>) {
    forall e :: e in edges && e.src in done ==> e.dst in visited
  }

  // Everything within depth edges of a has been seen.
  ghost predicate SeenTo<S(!new)>(edges: seq<Edge<S>>, a: S, visited: set<S>, depth: nat) {
    forall x, w :: IsWalk(edges, a, x, w) && |w| <= depth ==> x in visited
  }

  lemma WaitingIsFar<S(!new)>(edges: seq<Edge<S>>, a: S, visited: set<S>, done: set<S>, queue: seq<Node<S>>, depth: nat,
                              x: S, w: seq<Edge<S>>)
    requires Covers(visited, done, queue) && AllQueued(edges, a, visited, queue)
    requires forall k :: 0 <= k < |queue| ==> |queue[k].path| > depth
    requires IsWalk(edges, a, x, w)
    ensures x in visited && x !in done ==> |w| > depth
  {
    if x in visited && x !in done {
      var k :| 0 <= k < |queue| && queue[k].screen == x;
      assert IsQueued(edges, a, visited, queue[k]);
    }
  }

  lemma NextLayerIsSeen<S(!new)>(edges: seq<Edge<S>>, a: S, visited: set<S>, done: set<S>, queue: seq<Node<S>>,
                                 depth: nat)
    requires SeenTo(edges, a, visited, depth) && ClosedUnder(edges, done, visited)
    requires Covers(visited, done, queue) && AllQueued(edges, a, visited, queue)
    requires forall k :: 0 <= k < |queue| ==> |queue[k].path| > depth
    ensures SeenTo(edges, a, visited, depth + 1)
  {
    forall x, w: seq<Edge<S>> | IsWalk(edges, a, x, w) && |w| <= depth + 1
      ensures x in visited
    {
      if |w| == depth + 1 {
        var e := w[|w| - 1];
        assert IsWalk(edges, a, e.src, w[..depth]) && e.src in visited;
        WaitingIsFar(edges, a, visited, done, queue, depth, e.src, w[..depth]);
      }
    }
  }

  lemma {:induction false} WalkStaysIn<S>(edges: seq<Edge<S>>, a: S, b: S, w: seq<Edge<S>>, done: set<S>)
    requires a in done && ClosedUnder(edges, done, done) && IsWalk(edges, a, b, w)
    ensures b in done
    decreases |w|
  {
    if w != [] {
      WalkStaysIn(edges, a, w[|w| - 1].src, w[..|w| - 1], done);
    }
  }

  ghost function Targets<S>(edges: seq<Edge<S>>): set<S> {
    set k | 0 <= k < |edges| :: edges[k].dst
  }

  ghost predicate IsShortest<S(!new)>(edges: seq<Edge<S>>, a: S, b: S, w: seq<Edge<S>>) {
    IsWalk(edges, a, b, w) && forall v :: IsWalk(edges, a, b, v) ==> |w| <= |v|
  }

  lemma FirstRouteIsShortest<S(!new)>(edges: seq<Edge<S>>, a: S, b: S, w: seq<Edge<S>>)
    requires IsFirstRoute(edges, a, b, w)
    ensures IsShortest(edges, a, b, w)
  {
    forall v | IsWalk(edges, a, b, v) ensures |w| <= |v| {
      assert Leads(edges, w, v);
    }
  }

  // What holds of the node being expanded and of what is queued behind it.
  ghost predicate IsExpanding<S(!new)>(edges: seq<Edge<S>>, a: S, cur: Node<S>, visited: set<S>, done: set<S>,
                                       queue: seq<Node<S>>) {
    && IsQueued(edges, a, visited, cur)
    && AllQueued(edges, a, visited, queue) && Layered(queue, |cur.path|)
    && Covers(visited, done + {cur.screen}, queue) && ClosedUnder(edges, done, visited)
    && SeenTo(edges, a, visited, |cur.path|)
    && AllBehind(edges, cur.path, queue, 0)
  }

  lemma LaterParent<S>(edges: seq<Edge<S>>, v: seq<Edge<S>>, e: Edge<S>, w: seq<Edge<S>>)
    requires |w| == |v| + 1 && Before(edges, v, w[..|v|])
    ensures Before(edges, v + [e], w)
  {
    assert (v + [e])[..|v|] == v;
  }

  lemma LaterEdge<S>(edges: seq<Edge<S>>, v: seq<Edge<S>>, e: Edge<S>, w: seq<Edge<S>>)
    requires |w| == |v| + 1 && v == w[..|v|] && FirstAt(edges, e) < FirstAt(edges, w[|v|])
    ensures Before(edges, v + [e], w)
  {
    assert (v + [e])[..|v|] == v;
  }

  // No edge listed before the i-th leads on from the current screen to this one.
  lemma FirstToReach<S>(edges: seq<Edge<S>>, src: S, seen: set<S>, i: nat, e: Edge<S>)
    requires e in edges && e.src == src && e.dst !in seen
    requires forall k :: 0 <= k < i && k < |edges| && edges[k].src == src ==> edges[k].dst in seen
    ensures i <= FirstAt(edges, e) < |edges|
  {
  }

  // Another walk as long reaches the unseen screen through a later parent, or from the
  // current screen by a later edge.
  lemma NoEarlierWalk<S(!new)>(edges: seq<Edge<S>>, a: S, cur: Node<S>, visited: set<S>, done: set<S>,
                               queue: seq<Node<S>>, seen: set<S>, i: nat, w: seq<Edge<S>>)
    requires IsExpanding(edges, a, cur, visited, done, queue) && visited <= seen
    requires i < |edges| && edges[i].src == cur.screen && edges[i].dst !in seen
    requires forall k :: 0 <= k < i && edges[k].src == cur.screen ==> edges[k].dst in seen
    requires IsWalk(edges, a, edges[i].dst, w) && |w| == |cur.path| + 1
    ensures Leads(edges, cur.path + [edges[i]], w)
  {
    var n, e, last := |cur.path|, edges[i], w[|w| - 1];
    var front := w[..n];
    assert IsWalk(edges, a, last.src, front);
    if last.src == cur.screen {
      assert Leads(edges, cur.path, front);
      FirstToReach(edges, cur.screen, seen, i, e);
      FirstToReach(edges, cur.screen, seen, i, last);
      if Before(edges, cur.path, front) {
        LaterParent(edges, cur.path, e, w);
      } else if FirstAt(edges, last) > i {
        LaterEdge(edges, cur.path, e, w);
      } else {
        assert w == cur.path + [e];
      }
    } else {
      assert last.src in visited && last.src !in done;
      var k :| 0 <= k < |queue| && queue[k].screen == last.src;
      assert IsQueued(edges, a, visited, queue[k]) && Leads(edges, queue[k].path, front);
      assert IsBehind(edges, cur.path, queue[k].path, 0);
      if queue[k].path != front {
        BeforeIsTransitive(edges, cur.path, queue[k].path, front);
      }
      LaterParent(edges, cur.path, e, w);
    }
  }

  // The current route and the edge make the first route to a screen not seen before.
  lemma ReachedFirst<S(!new)>(edges: seq<Edge<S>>, a: S, cur: Node<S>, visited: set<S>, done: set<S>,
                              queue: seq<Node<S>>, seen: set<S>, i: nat)
    requires IsExpanding(edges, a, cur, visited, done, queue) && visited <= seen
    requires i < |edges| && edges[i].src == cur.screen && edges[i].dst !in seen
    requires forall k :: 0 <= k < i && edges[k].src == cur.screen ==> edges[k].dst in seen
    ensures IsFirstRoute(edges, a, edges[i].dst, cur.path + [edges[i]])
  {
    ExtendWalk(edges, a, cur.path, edges[i]);
    forall w | IsWalk(edges, a, edges[i].dst, w) ensures Leads(edges, cur.path + [edges[i]], w) {
      assert |w| > |cur.path|;
      if |w| == |cur.path| + 1 {
        NoEarlierWalk(edges, a, cur, visited, done, queue, seen, i, w);
      }
    }
  }

  // What one screen's edges have come to, after i of them.
  ghost predicate IsExpanded<S(!new)>(edges: seq<Edge<S>>, a: S, cur: Node<S>, done: set<S>, seen: set<S>,
                                      queue: seq<Node<S>>, i: nat) {
    && AllQueued(edges, a, seen, queue) && Layered(queue, |cur.path|)
    && Covers(seen, done + {cur.screen}, queue)
    && InOrder(edges, queue) && AllBehind(edges, cur.path, queue, i)
    && forall k :: 0 <= k < i && k < |edges| && edges[k].src == cur.screen ==> edges[k].dst in seen
  }

  // Looks at every edge out of cur: returns the target's route, or queues what
  // it had not seen.
  method Expand<S(==,!new)>(edges: seq<Edge<S>>, a: S, b: S, cur: Node<S>, visited: set<S>, queue: seq<Node<S>>,
                            ghost done: set<S>)
    returns (hit: Route<S>, visited': set<S>, queue': seq<Node<S>>)
    requires IsExpanding(edges, a, cur, visited, done, queue) && InOrder(edges, queue) && b !in visited
    ensures hit.Found? ==> IsFirstRoute(edges, a, b, hit.path)
    ensures hit.NoPath? ==>
      && b !in visited' && visited <= visited' && IsExpanded(edges, a, cur, done, visited', queue', |edges|)
      && ((queue' == queue && visited' == visited) || exists x :: x in visited' - visited && x in Targets(edges))
  {
    hit, visited', queue' := NoPath, visited, queue;
    for i := 0 to |edges|
      invariant hit.NoPath? && b !in visited' && visited <= visited'
      invariant IsExpanded(edges, a, cur, done, visited', queue', i)
      invariant (queue' == queue && visited' == visited) || exists x :: x in visited' - visited && x in Targets(edges)
    {
      var e := edges[i];
      Skip(edges, a, cur, done, visited', queue', i);
      if e.src != cur.screen || e.dst in visited' {
        continue;
      }
      var path := cur.path + [e];
      ReachedFirst(edges, a, cur, visited, done, queue, visited', i);
      if e.dst == b {
        return Found(path), visited', queue';
      }
      assert e.dst in Targets(edges);
      var next := Node(e.dst, path);
      Enqueue(edges, a, cur, done, visited', queue', i);
      visited' := visited' + {e.dst};
      queue' := queue' + [next];
    }
  }

  // An edge that leads nowhere new changes nothing.
  lemma Skip<S(!new)>(edges: seq<Edge<S>>, a: S, cur: Node<S>, done: set<S>, seen: set<S>, queue: seq<Node<S>>, i: nat)
    requires i < |edges| && IsExpanded(edges, a, cur, done, seen, queue, i)
    ensures edges[i].src != cur.screen || edges[i].dst in seen ==> IsExpanded(edges, a, cur, done, seen, queue, i + 1)
  {
    BehindStill(edges, cur.path, queue, i);
  }

  lemma BehindStill<S>(edges: seq<Edge<S>>, v: seq<Edge<S>>, queue: seq<Node<S>>, i: nat)
    requires AllBehind(edges, v, queue, i)
    ensures AllBehind(edges, v, queue, i + 1)
  {
    forall k | 0 <= k < |queue| ensures IsBehind(edges, v, queue[k].path, i + 1) {
      assert IsBehind(edges, v, queue[k].path, i);
    }
  }

  lemma Enqueue<S(!new)>(edges: seq<Edge<S>>, a: S, cur: Node<S>, done: set<S>, seen: set<S>, queue: seq<Node<S>>,
                         i: nat)
    requires i < |edges| && IsExpanded(edges, a, cur, done, seen, queue, i)
    requires edges[i].src == cur.screen && edges[i].dst !in seen
    requires IsFirstRoute(edges, a, edges[i].dst, cur.path + [edges[i]])
    ensures var n := Node(edges[i].dst, cur.path + [edges[i]]);
      IsExpanded(edges, a, cur, done, seen + {n.screen}, queue + [n], i + 1)
  {
    var n := Node(edges[i].dst, cur.path + [edges[i]]);
    QueueGrows(edges, a, seen, queue, n);
    CoverGrows(seen, done + {cur.screen}, queue, n);
    FirstToReach(edges, cur.screen, seen, i, edges[i]);
    assert FirstAt(edges, edges[i]) == i;
    OrderGrows(edges, cur.path, edges[i], queue, n.screen, i);
  }

  lemma QueueGrows<S(!new)>(edges: seq<Edge<S>>, a: S, visited: set<S>, queue: seq<Node<S>>, n: Node<S>)
    requires AllQueued(edges, a, visited, queue) && IsFirstRoute(edges, a, n.screen, n.path)
    ensures AllQueued(edges, a, visited + {n.screen}, queue + [n])
  {
    forall k | 0 <= k < |queue + [n]| ensures IsQueued(edges, a, visited + {n.screen}, (queue + [n])[k]) {
      if k < |queue| {
        assert IsQueued(edges, a, visited, queue[k]);
      }
    }
  }

  lemma CoverGrows<S>(visited: set<S>, done: set<S>, queue: seq<Node<S>>, n: Node<S>)
    requires Covers(visited, done, queue)
    ensures Covers(visited + {n.screen}, done, queue + [n])
  {
    forall x | x in visited + {n.screen} && x !in done ensures IsIn(x, queue + [n]) {
      if x == n.screen {
        assert (queue + [n])[|queue|].screen == x;
      } else {
        var k :| 0 <= k < |queue| && queue[k].screen == x;
        assert (queue + [n])[k].screen == x;
      }
    }
  }

  // What waits behind the current route waits before its extension by the i-th edge.
  lemma WaitsForExtension<S>(edges: seq<Edge<S>>, v: seq<Edge<S>>, e: Edge<S>, w: seq<Edge<S>>, i: nat)
    requires IsBehind(edges, v, w, i) && FirstAt(edges, e) == i
    ensures Waits(edges, w, v + [e])
  {
    assert (v + [e])[..|v|] == v;
  }

  lemma OrderGrows<S>(edges: seq<Edge<S>>, v: seq<Edge<S>>, e: Edge<S>, queue: seq<Node<S>>, screen: S, i: nat)
    requires InOrder(edges, queue) && AllBehind(edges, v, queue, i) && FirstAt(edges, e) == i
    ensures var more := queue + [Node(screen, v + [e])]; InOrder(edges, more) && AllBehind(edges, v, more, i + 1)
  {
    var more := queue + [Node(screen, v + [e])];
    BehindStill(edges, v, queue, i);
    forall j, k | 0 <= j < k < |more| ensures Waits(edges, more[j].path, more[k].path) {
      if k < |queue| {
        assert Waits(edges, queue[j].path, queue[k].path);
      } else {
        assert IsBehind(edges, v, queue[j].path, i);
        WaitsForExtension(edges, v, e, queue[j].path, i);
      }
    }
    forall k | 0 <= k < |more| ensures IsBehind(edges, v, more[k].path, i + 1) {
      if k < |queue| {
        assert IsBehind(edges, v, queue[k].path, i + 1);
      } else {
        assert (v + [e])[..|v|] == v;
      }
    }
  }

  // The shortest route from a to b, the first in the edge order of those there are, or
  // the report that there is none.
  method Path<S(==,!new)>(edges: seq<Edge<S>>, a: S, b: S) returns (r: Route<S>)
    ensures r.Found? ==> IsShortest(edges, a, b, r.path) && IsFirstRoute(edges, a, b, r.path)
    ensures r.NoPath? <==> !Reachable(edges, a, b)
  {
    if a == b {
      assert IsWalk(edges, a, b, []);
      return Found([]);
    }
    var visited := {a};
    var queue := [Node(a, [])];
    ghost var done: set<S> := {};
    StartIsSeen(edges, a);
    assert queue[0].screen == a;
    while |queue| > 0
      invariant IsSearch(edges, a, b, visited, done, queue)
      decreases |Targets(edges) - visited|, |queue|
    {
      var hit, visited', queue' := Visit(edges, a, b, visited, queue, done);
      if hit.Found? {
        FirstRouteIsShortest(edges, a, b, hit.path);
        assert Reachable(edges, a, b);
        return hit;
      }
      done := done + {queue[0].screen};
      visited, queue := visited', queue';
    }
    NothingQueuedNoWalk(edges, a, b, visited, done);
    r := NoPath;
  }

  // What holds whenever the loop looks at the queue.
  ghost predicate IsSearch<S(!new)>(edges: seq<Edge<S>>, a: S, b: S, visited: set<S>, done: set<S>,
                                    queue: seq<Node<S>>) {
    && a in visited && b !in visited
    && AllQueued(edges, a, visited, queue) && InOrder(edges, queue)
    && Covers(visited, done, queue) && ClosedUnder(edges, done, visited)
    && (|queue| > 0 ==> Frontier(edges, a, visited, queue))
  }

  // Takes the head off the queue and expands it.
  method Visit<S(==,!new)>(edges: seq<Edge<S>>, a: S, b: S, visited: set<S>, queue: seq<Node<S>>, ghost done: set<S>)
    returns (hit: Route<S>, visited': set<S>, queue': seq<Node<S>>)
    requires |queue| > 0 && IsSearch(edges, a, b, visited, done, queue)
    ensures hit.Found? ==> IsFirstRoute(edges, a, b, hit.path)
    ensures hit.NoPath? ==> IsSearch(edges, a, b, visited', done + {queue[0].screen}, queue')
    ensures hit.NoPath? ==>
      || |Targets(edges) - visited'| < |Targets(edges) - visited|
      || (|Targets(edges) - visited'| == |Targets(edges) - visited| && |queue'| < |queue|)
  {
    var cur := queue[0];
    Pop(edges, a, visited, done, queue);
    hit, visited', queue' := Expand(edges, a, b, cur, visited, queue[1..], done);
    if hit.NoPath? {
      StillSeen(edges, a, visited, visited', |cur.path|);
      NextFrontier(edges, a, visited', done + {cur.screen}, queue', |cur.path|);
      Progress(edges, visited, visited');
    }
  }

  lemma NothingQueuedNoWalk<S(!new)>(edges: seq<Edge<S>>, a: S, b: S, visited: set<S>, done: set<S>)
    requires a in visited && b !in visited
    requires Covers(visited, done, []) && ClosedUnder(edges, done, visited)
    ensures !Reachable(edges, a, b)
  {
    assert visited == done;
    if w :| IsWalk(edges, a, b, w) {
      WalkStaysIn(edges, a, b, w, done);
    }
  }

  lemma Pop<S(!new)>(edges: seq<Edge<S>>, a: S, visited: set<S>, done: set<S>, queue: seq<Node<S>>)
    requires |queue| > 0 && AllQueued(edges, a, visited, queue) && Covers(visited, done, queue)
    requires Frontier(edges, a, visited, queue)
    requires InOrder(edges, queue) && ClosedUnder(edges, done, visited)
    ensures IsExpanding(edges, a, queue[0], visited, done, queue[1..]) && InOrder(edges, queue[1..])
  {
    forall k | 0 <= k < |queue[1..]| ensures IsBehind(edges, queue[0].path, queue[1..][k].path, 0) {
      assert Waits(edges, queue[0].path, queue[k + 1].path);
    }
    forall j, k | 0 <= j < k < |queue[1..]| ensures Waits(edges, queue[1..][j].path, queue[1..][k].path) {
      assert Waits(edges, queue[j + 1].path, queue[k + 1].path);
    }
    assert IsQueued(edges, a, visited, queue[0]);
    forall k | 0 <= k < |queue[1..]| ensures IsQueued(edges, a, visited, queue[1..][k]) {
      assert IsQueued(edges, a, visited, queue[k + 1]);
    }
    forall x | x in visited && x !in done + {queue[0].screen} ensures IsIn(x, queue[1..]) {
      var k :| 0 <= k < |queue| && queue[k].screen == x;
      assert queue[1..][k - 1].screen == x;
    }
  }

  // The queue is layered from its head's distance, and all up to there is seen.
  ghost predicate Frontier<S(!new)>(edges: seq<Edge<S>>, a: S, visited: set<S>, queue: seq<Node<S>>)
    requires |queue| > 0
  {
    Layered(queue, |queue[0].path|) && SeenTo(edges, a, visited, |queue[0].path|)
  }

  lemma StartIsSeen<S(!new)>(edges: seq<Edge<S>>, a: S)
    ensures SeenTo(edges, a, {a}, 0) && IsQueued(edges, a, {a}, Node(a, []))
  {
  }

  lemma StillSeen<S(!new)>(edges: seq<Edge<S>>, a: S, visited: set<S>, seen: set<S>, depth: nat)
    requires SeenTo(edges, a, visited, depth) && visited <= seen
    ensures SeenTo(edges, a, seen, depth)
  {
  }

  lemma NextFrontier<S(!new)>(edges: seq<Edge<S>>, a: S, visited: set<S>, done: set<S>, queue: seq<Node<S>>, depth: nat)
    requires SeenTo(edges, a, visited, depth) && ClosedUnder(edges, done, visited)
    requires Covers(visited, done, queue) && AllQueued(edges, a, visited, queue) && Layered(queue, depth)
    ensures |queue| > 0 ==> Frontier(edges, a, visited, queue)
  {
    if |queue| > 0 && |queue[0].path| > depth {
      NextLayerIsSeen(edges, a, visited, done, queue, depth);
    }
  }

  lemma Progress<S>(edges: seq<Edge<S>>, was: set<S>, now: set<S>)
    requires was <= now
    ensures |Targets(edges) - now| <= |Targets(edges) - was|
    ensures (exists x :: x in now - was && x in Targets(edges)) ==> |Targets(edges) - now| < |Targets(edges) - was|
  {
    IntSets.SubsetIsSmaller(Targets(edges) - now, Targets(edges) - was);
  }
}
