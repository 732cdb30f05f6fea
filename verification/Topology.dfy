// The production screen graph (internal/runtime/graph.go): the edge list and
// exactly which screens it can route to.
module Topology {
  import opened Graph

  datatype Screen =
    | Base | WorldMap | Alliance | AllianceTech | AllianceTechDonate | AllianceMembers | AllianceDuel
    | VSRanking | VSRankingWeekly | Mail | MailAlliance | MailEvent | MailSystem | Radar | StaminaPrompt

  const ENTRY := Base
  const EDGE_COUNT := 26

  // The edges in the order the program lists them.
  function EdgeAt(k: nat): Edge<Screen>
    requires k < EDGE_COUNT
  {
    match k
    case 0 => Edge(Base, WorldMap, Tap("world_map_button"))
    case 1 => Edge(WorldMap, Base, Tap("base_button"))
    case 2 => Edge(Base, Alliance, Tap("alliance_button"))
    case 3 => Edge(Alliance, Base, Back)
    case 4 => Edge(Alliance, AllianceTech, Tap("tech_button"))
    case 5 => Edge(AllianceTech, Alliance, Back)
    case 6 => Edge(AllianceTechDonate, AllianceTech, Back)
    case 7 => Edge(Base, Mail, Tap("mail_button"))
    case 8 => Edge(Mail, Base, Back)
    case 9 => Edge(Mail, MailAlliance, Tap("mail_alliance_button"))
    case 10 => Edge(MailAlliance, Mail, Back)
    case 11 => Edge(Mail, MailEvent, Tap("mail_event_button"))
    case 12 => Edge(MailEvent, Mail, Back)
    case 13 => Edge(Mail, MailSystem, Tap("mail_system_button"))
    case 14 => Edge(MailSystem, Mail, Back)
    case 15 => Edge(Base, Radar, Tap("radar_button"))
    case 16 => Edge(Radar, Base, Back)
    case 17 => Edge(StaminaPrompt, Radar, Back)
    case 18 => Edge(Alliance, AllianceMembers, Tap("members_button"))
    case 19 => Edge(AllianceMembers, Alliance, Back)
    case 20 => Edge(Base, AllianceDuel, Tap("vs_button"))
    case 21 => Edge(AllianceDuel, Base, Back)
    case 22 => Edge(AllianceDuel, VSRanking, Tap("ranking_button"))
    case 23 => Edge(VSRanking, AllianceDuel, Back)
    case 24 => Edge(VSRanking, VSRankingWeekly, Tap("weekly_tab"))
    case _ => Edge(VSRankingWeekly, VSRanking, Back)
  }

  const EDGES: seq<Edge<Screen>> := seq(EDGE_COUNT, k requires 0 <= k < EDGE_COUNT => EdgeAt(k))

  // The screens no route may enter: both are reached by taps whose effect the
  // graph cannot see, and one of them is a purchase dialog.
  predicate IsUnrouted(x: Screen) {
    x == AllianceTechDonate || x == StaminaPrompt
  }

  lemma NoEdgeEntersUnrouted(e: Edge<Screen>)
    requires e in EDGES
    ensures !IsUnrouted(e.dst)
  {
    var k :| 0 <= k < EDGE_COUNT && EDGES[k] == e;
    assert e == EdgeAt(k);
  }

  // No step of any walk lands on an unrouted screen.
  lemma {:induction false} WalksAvoidUnrouted(a: Screen, b: Screen, w: seq<Edge<Screen>>)
    requires IsWalk(EDGES, a, b, w)
    ensures forall k :: 0 <= k < |w| ==> !IsUnrouted(w[k].dst)
    decreases |w|
  {
    if w != [] {
      NoEdgeEntersUnrouted(w[|w| - 1]);
      WalksAvoidUnrouted(a, w[|w| - 1].src, w[..|w| - 1]);
    }
  }

  lemma {:induction false} JoinWalks<S>(edges: seq<Edge<S>>, a: S, b: S, c: S, v: seq<Edge<S>>, w: seq<Edge<S>>)
    requires IsWalk(edges, a, b, v) && IsWalk(edges, b, c, w)
    ensures IsWalk(edges, a, c, v + w)
    decreases |w|
  {
    if w == [] {
      assert v + w == v;
    } else {
      JoinWalks(edges, a, b, w[|w| - 1].src, v, w[..|w| - 1]);
      assert (v + w)[..|v + w| - 1] == v + w[..|w| - 1];
    }
  }

  lemma ReachVia<S(!new)>(edges: seq<Edge<S>>, a: S, b: S, c: S)
    requires Reachable(edges, a, b) && Reachable(edges, b, c)
    ensures Reachable(edges, a, c)
  {
    var v :| IsWalk(edges, a, b, v);
    var w :| IsWalk(edges, b, c, w);
    JoinWalks(edges, a, b, c, v, w);
  }

  lemma ReachByEdge(k: nat)
    requires k < EDGE_COUNT
    ensures Reachable(EDGES, EdgeAt(k).src, EdgeAt(k).dst)
  {
    var e := EDGES[k];
    assert IsWalk(EDGES, e.src, e.src, []);
    ExtendWalk(EDGES, e.src, [], e);
  }

  // The edge that leads one step nearer the base screen, and how far off it is.
  function StepHome(x: Screen): (k: nat)
    requires x != ENTRY
    ensures k < EDGE_COUNT && EdgeAt(k).src == x
  {
    match x
    case WorldMap => 1 case Alliance => 3 case AllianceTech => 5 case AllianceTechDonate => 6 case AllianceMembers => 19
    case AllianceDuel => 21 case VSRanking => 23 case VSRankingWeekly => 25 case Mail => 8 case MailAlliance => 10
    case MailEvent => 12 case MailSystem => 14 case Radar => 16 case StaminaPrompt => 17
  }

  // The edge that leads into a routed screen from one nearer the base screen.
  function StepOut(x: Screen): (k: nat)
    requires x != ENTRY && !IsUnrouted(x)
    ensures k < EDGE_COUNT && EdgeAt(k).dst == x
  {
    match x
    case WorldMap => 0 case Alliance => 2 case AllianceTech => 4 case AllianceMembers => 18 case AllianceDuel => 20
    case VSRanking => 22 case VSRankingWeekly => 24 case Mail => 7 case MailAlliance => 9 case MailEvent => 11
    case MailSystem => 13 case Radar => 15
  }

  function Height(x: Screen): nat {
    match x
    case Base => 0
    case WorldMap => 1 case Alliance => 1 case Mail => 1 case Radar => 1 case AllianceDuel => 1
    case AllianceTech => 2 case AllianceMembers => 2 case MailAlliance => 2 case MailEvent => 2 case MailSystem => 2
    case StaminaPrompt => 2 case VSRanking => 2
    case AllianceTechDonate => 3 case VSRankingWeekly => 3
  }

  lemma {:induction false} ReachHome(x: Screen)
    ensures Reachable(EDGES, x, ENTRY)
    decreases Height(x)
  {
    if x == ENTRY {
      assert IsWalk(EDGES, x, x, []);
    } else {
      ReachByEdge(StepHome(x));
      ReachHome(EdgeAt(StepHome(x)).dst);
      ReachVia(EDGES, x, EdgeAt(StepHome(x)).dst, ENTRY);
    }
  }

  lemma {:induction false} ReachOut(x: Screen)
    requires !IsUnrouted(x)
    ensures Reachable(EDGES, ENTRY, x)
    decreases Height(x)
  {
    if x == ENTRY {
      assert IsWalk(EDGES, x, x, []);
    } else {
      ReachByEdge(StepOut(x));
      ReachOut(EdgeAt(StepOut(x)).src);
      ReachVia(EDGES, ENTRY, EdgeAt(StepOut(x)).src, x);
    }
  }

  // The graph routes from anywhere to every screen but the two unrouted ones,
  // which it reaches only from themselves.
  lemma RoutesExactly(a: Screen, b: Screen)
    ensures Reachable(EDGES, a, b) <==> a == b || !IsUnrouted(b)
  {
    if !IsUnrouted(b) {
      ReachHome(a);
      ReachOut(b);
      ReachVia(EDGES, a, ENTRY, b);
    } else if a == b {
      assert IsWalk(EDGES, a, b, []);
    } else if w :| IsWalk(EDGES, a, b, w) {
      WalksAvoidUnrouted(a, b, w);
    }
  }
}
