/** Collects the nodes and edges of a trace, then highlights, prunes and lays out the result. */
module GraphBuilding {
  import opened Sequences
  import Text
  import opened TraceGraph
  import FocusPath
  import Track
  import Layout
  import opened GraphSimplify

  const RANK_SOURCE := 0
  const RANK_DEST := 5

  datatype PodDetail = PodDetail(namespace: string, name: string, nodeName: string)
  datatype IPEndpoint = NoIP | IPEndpoint(id: string, caption: string, kind: string)

  function NodeID(kind: string, ns: string, name: string): string {
    var k := Text.ToLower(Text.Trim(kind, Text.IsSpace));
    var space := Text.Trim(ns, Text.IsSpace);
    var n := Text.Trim(name, Text.IsSpace);
    if space == "" then k + "/" + n else k + "/" + space + "/" + n
  }

  function PodNodeID(p: PodDetail): string { NodeID("pod", p.namespace, p.name) }

  function EdgeKey(from: string, to: string, edgeType: string): string {
    from + "->" + to + ":" + edgeType
  }

  function EdgeID(n: nat): string { "e-" + Text.Decimal(n) }

  /** Different links have different keys, as long as no id they lead from holds a '>' and no type a ':'. */
  lemma {:induction false} KeysDiffer(from: string, to: string, t: string, from': string, to': string, t': string)
    requires '>' !in from && '>' !in from' && ':' !in t && ':' !in t'
    ensures EdgeKey(from, to, t) == EdgeKey(from', to', t') <==> (from, to, t) == (from', to', t')
  {
    if EdgeKey(from, to, t) == EdgeKey(from', to', t') {
      Text.CutAtLast(from + "->" + to, t, from' + "->" + to', t', ':');
      assert from + "->" + to == (from + "-") + ['>'] + to;
      assert from' + "->" + to' == (from' + "-") + ['>'] + to';
      Text.CutAtFirst(from + "-", to, from' + "-", to', '>');
      assert from == (from + "-")[..|from|] && from' == (from' + "-")[..|from'|];
    }
  }

  /** Without that, two links may share a key, and the second is not added. */
  lemma KeysMeet()
    ensures EdgeKey("a", "b->c", "x") == EdgeKey("a->b", "c", "x")
    ensures EdgeKey("a", "b", "c:x") == EdgeKey("a", "b:c", "x")
  {
    assert EdgeKey("a", "b->c", "x") == "a->b->c:x" == EdgeKey("a->b", "c", "x");
    assert EdgeKey("a", "b", "c:x") == "a->b:c:x" == EdgeKey("a", "b:c", "x");
  }

  predicate NoSlash(p: PodDetail) { '/' !in p.namespace && '/' !in p.name }

  /** Pods have the same id exactly when namespace and name agree but for white space around them. */
  lemma {:induction false} PodIDsDiffer(p: PodDetail, q: PodDetail)
    requires NoSlash(p) && NoSlash(q)
    ensures PodNodeID(p) == PodNodeID(q) <==>
            && Text.Trim(p.namespace, Text.IsSpace) == Text.Trim(q.namespace, Text.IsSpace)
            && Text.Trim(p.name, Text.IsSpace) == Text.Trim(q.name, Text.IsSpace)
  {
    var a, b := PodTail(p), PodTail(q);
    PodIDIs(p);
    PodIDIs(q);
    assert PodNodeID(p)[4..] == a && PodNodeID(q)[4..] == b;
    if a == b {
      TailsDiffer(Text.Trim(p.namespace, Text.IsSpace), Text.Trim(p.name, Text.IsSpace),
                  Text.Trim(q.namespace, Text.IsSpace), Text.Trim(q.name, Text.IsSpace));
    }
  }

  function Tail(ns: string, name: string): string { if ns == "" then name else ns + ['/'] + name }

  function PodTail(p: PodDetail): string {
    Tail(Text.Trim(p.namespace, Text.IsSpace), Text.Trim(p.name, Text.IsSpace))
  }

  lemma PodIDIs(p: PodDetail)
    requires NoSlash(p)
    ensures PodNodeID(p) == "pod/" + PodTail(p)
    ensures '/' !in Text.Trim(p.namespace, Text.IsSpace) && '/' !in Text.Trim(p.name, Text.IsSpace)
  {
    Text.TrimKeepsOut(p.namespace, Text.IsSpace, '/');
    Text.TrimKeepsOut(p.name, Text.IsSpace, '/');
    KindKept("pod");
    assert "pod" + "/" == "pod/";
  }

  lemma TailsDiffer(ns: string, name: string, ns': string, name': string)
    requires '/' !in ns && '/' !in name && '/' !in ns' && '/' !in name' && Tail(ns, name) == Tail(ns', name')
    ensures ns == ns' && name == name'
  {
    SlashInTail(ns, name);
    SlashInTail(ns', name');
    if ns != "" {
      Text.CutAtFirst(ns, name, ns', name', '/');
    }
  }

  lemma SlashInTail(ns: string, name: string)
    requires '/' !in name
    ensures ns != "" <==> '/' in Tail(ns, name)
  {
    if ns != "" {
      assert Tail(ns, name)[|ns|] == '/';
    }
  }

  lemma KindKept(kind: string)
    requires kind in {"pod", "node"}
    ensures Text.ToLower(Text.Trim(kind, Text.IsSpace)) == kind
  {
    assert !Text.IsSpace('p') && !Text.IsSpace('d') && !Text.IsSpace('n') && !Text.IsSpace('e');
    assert Text.TrimLeft(kind, Text.IsSpace) == kind && Text.TrimRight(kind, Text.IsSpace) == kind;
    assert Text.ToLower(kind) == kind;
  }

  // ---- Marking -------------------------------------------------------------------------

  /** `nodes` with those in `ids` focused. */
  ghost predicate FocusedBy(nodes: seq<TraceNode>, ids: set<string>, r: seq<TraceNode>) {
    && |r| == |nodes|
    && forall i :: 0 <= i < |nodes| ==> r[i] == nodes[i].(focused := nodes[i].focused || nodes[i].id in ids)
  }

  /** Edge `e` joins two consecutive vertices among the first `n` of the path. */
  ghost predicate OnPath(e: TraceEdge, path: seq<string>, n: nat) {
    exists i :: 0 <= i < n && i + 1 < |path| && Joins(e, path[i], path[i + 1])
  }

  /** `edges` with those on the first `n` steps of the path made primary. */
  ghost predicate PathPrimary(edges: seq<TraceEdge>, path: seq<string>, n: nat, r: seq<TraceEdge>) {
    |r| == |edges| &&
    forall i :: 0 <= i < |edges| ==> r[i] == edges[i].(primary := edges[i].primary || OnPath(edges[i], path, n))
  }

  predicate IsDirect(e: TraceEdge, sources: set<string>, dests: set<string>) {
    e.from in sources && e.to in dests
  }

  /** `edges` with those straight from a source to a destination made primary. */
  ghost predicate DirectPrimary(edges: seq<TraceEdge>, sources: set<string>, dests: set<string>, r: seq<TraceEdge>) {
    |r| == |edges| &&
    forall i :: 0 <= i < |edges| ==>
      r[i] == edges[i].(primary := edges[i].primary || IsDirect(edges[i], sources, dests))
  }

  /**
   `nodes'` and `edges'` show `best`, a shortest route from a source that exists as a node to a
   destination, or [] if there is none. Without a route of two vertices or more the endpoints are
   focused and the edges straight from a source to a destination become primary.
   */
  ghost predicate Highlighted(nodes: seq<TraceNode>, edges: seq<TraceEdge>, sourceIDs: set<string>,
                              destIDs: set<string>, best: seq<string>, nodes': seq<TraceNode>,
                              edges': seq<TraceEdge>) {
    && (best == [] <==> !Reachable(edges, sourceIDs * NodeIDs(nodes), destIDs))
    && (best != [] ==> IsShortestRoute(edges, sourceIDs * NodeIDs(nodes), destIDs, best))
    && (sourceIDs == {} || destIDs == {} ==> nodes' == nodes && edges' == edges)
    && (sourceIDs != {} && destIDs != {} ==> if |best| >= 2
        then FocusedBy(nodes, (set id | id in best), nodes') && PathPrimary(edges, best, |best|, edges')
        else FocusedBy(nodes, sourceIDs + destIDs, nodes') && DirectPrimary(edges, sourceIDs, destIDs, edges'))
  }

  /** `r` is `nodes` with the missing layers filled in. */
  ghost predicate Layered(nodes: seq<TraceNode>, r: seq<TraceNode>) {
    |r| == |nodes| && forall i :: 0 <= i < |nodes| ==> r[i] == WithLayer(nodes[i])
  }

  /** The nodes and edges of a trace, a shortest route highlighted. */
  ghost predicate Marking(nodes: seq<TraceNode>, edges: seq<TraceEdge>, sourceIDs: set<string>,
                          destIDs: set<string>, nodes': seq<TraceNode>, edges': seq<TraceEdge>) {
    exists best, marked ::
      Highlighted(nodes, edges, sourceIDs, destIDs, best, marked, edges') && Layered(marked, nodes')
  }

  lemma MarkingOf(nodes: seq<TraceNode>, edges: seq<TraceEdge>, sourceIDs: set<string>, destIDs: set<string>,
                  best: seq<string>, marked: seq<TraceNode>, nodes': seq<TraceNode>, edges': seq<TraceEdge>)
    requires Highlighted(nodes, edges, sourceIDs, destIDs, best, marked, edges') && Layered(marked, nodes')
    ensures Marking(nodes, edges, sourceIDs, destIDs, nodes', edges')
  {
  }

  function Collected(nodes: seq<TraceNode>, edges: seq<TraceEdge>, paths: seq<PathSummary>): Graph {
    Graph(nodes, edges, paths, [], 0, 0, TraceGraphStats(0, 0, 0, 0, 0))
  }

  /** `r` differs from `edges` only in which edges are primary. */
  ghost predicate SameLinks(edges: seq<TraceEdge>, r: seq<TraceEdge>) {
    |r| == |edges| && forall i :: 0 <= i < |edges| ==> r[i] == edges[i].(primary := r[i].primary)
  }

  lemma SameLinksSameRoutes(edges: seq<TraceEdge>, r: seq<TraceEdge>)
    requires SameLinks(edges, r)
    ensures forall a, b :: Joined(edges, a, b) <==> Joined(r, a, b)
  {
    forall a, b
      ensures Joined(edges, a, b) <==> Joined(r, a, b)
    {
      if e :| e in edges && Joins(e, a, b) {
        var i :| 0 <= i < |edges| && edges[i] == e;
        assert r[i] in r && Joins(r[i], a, b);
      }
      if e :| e in r && Joins(e, a, b) {
        var i :| 0 <= i < |r| && r[i] == e;
        assert edges[i] in edges && Joins(edges[i], a, b);
      }
    }
  }

  // ---- Pruning keeps distances -------------------------------------------------------------

  lemma FewerEdgesFewerRoutes(e0: seq<TraceEdge>, e1: seq<TraceEdge>, s0: set<string>, s1: set<string>,
                              dests: set<string>, w: seq<string>)
    requires forall a, b :: Joined(e1, a, b) ==> Joined(e0, a, b)
    requires s1 <= s0 && IsRoute(e1, s1, dests, w)
    ensures IsRoute(e0, s0, dests, w)
  {
  }

  /** Dropping edges and sources keeps the distance as long as one shortest route survives. */
  lemma {:induction false} SurvivingRouteKeepsDistance(e0: seq<TraceEdge>, e1: seq<TraceEdge>, s0: set<string>,
                                                       s1: set<string>,
                                    dests: set<string>, best: seq<string>, hops: nat)
    requires forall a, b :: Joined(e1, a, b) ==> Joined(e0, a, b)
    requires s1 <= s0
    requires Reachable(e0, s0, dests) ==> IsShortestRoute(e0, s0, dests, best) && IsRoute(e1, s1, dests, best)
    ensures IsDistance(e0, s0, dests, hops) <==> IsDistance(e1, s1, dests, hops)
  {
    if w :| IsShortestRoute(e0, s0, dests, w) && |w| == hops + 1 {
      assert Reachable(e0, s0, dests);
      forall v | IsRoute(e1, s1, dests, v)
        ensures |best| <= |v|
      {
        FewerEdgesFewerRoutes(e0, e1, s0, s1, dests, v);
      }
      assert |best| <= |w| && |w| <= |best|;
      assert IsShortestRoute(e1, s1, dests, best) && |best| == hops + 1;
    }
    if w :| IsShortestRoute(e1, s1, dests, w) && |w| == hops + 1 {
      FewerEdgesFewerRoutes(e0, e1, s0, s1, dests, w);
      assert Reachable(e0, s0, dests);
      assert |w| <= |best| && |best| <= |w|;
      assert IsShortestRoute(e0, s0, dests, best) && |best| == hops + 1;
    }
  }

  lemma SameDistances(e0: seq<TraceEdge>, e1: seq<TraceEdge>, s0: set<string>, s1: set<string>,
                      dests: set<string>, best: seq<string>)
    requires forall a, b :: Joined(e1, a, b) ==> Joined(e0, a, b)
    requires s1 <= s0
    requires Reachable(e0, s0, dests) ==> IsShortestRoute(e0, s0, dests, best) && IsRoute(e1, s1, dests, best)
    ensures Reachable(e0, s0, dests) <==> Reachable(e1, s1, dests)
    ensures forall hops :: IsDistance(e0, s0, dests, hops) <==> IsDistance(e1, s1, dests, hops)
  {
    if w :| IsRoute(e1, s1, dests, w) {
      FewerEdgesFewerRoutes(e0, e1, s0, s1, dests, w);
    }
    forall hops {
      SurvivingRouteKeepsDistance(e0, e1, s0, s1, dests, best, hops);
    }
  }

  /** What marking leaves behind when there is a route: its vertices focused and its edges primary. */
  ghost predicate RouteMarked(nodes: seq<TraceNode>, edges: seq<TraceEdge>, best: seq<string>) {
    && (forall n :: n in nodes && n.id in best ==> n.focused)
    && (forall e :: e in edges && OnPath(e, best, |best|) ==> e.primary)
  }

  lemma Marked(nodes: seq<TraceNode>, edges: seq<TraceEdge>, sourceIDs: set<string>, destIDs: set<string>,
               best: seq<string>, nodes': seq<TraceNode>, edges': seq<TraceEdge>)
    requires |best| == 1 ==> best[0] in sourceIDs && FocusedBy(nodes, sourceIDs + destIDs, nodes')
    requires |best| >= 2 ==> FocusedBy(nodes, (set id | id in best), nodes') && PathPrimary(edges, best, |best|, edges')
    requires best != []
    ensures RouteMarked(nodes', edges', best)
  {
    forall e | e in edges' && OnPath(e, best, |best|)
      ensures e.primary
    {
      var i :| 0 <= i < |edges'| && edges'[i] == e;
      var k :| 0 <= k < |best| && k + 1 < |best| && Joins(e, best[k], best[k + 1]);
      assert Joins(edges[i], best[k], best[k + 1]);
    }
  }

  lemma LayersKeepMarks(nodes: seq<TraceNode>, nodes': seq<TraceNode>, edges: seq<TraceEdge>, best: seq<string>)
    requires RouteMarked(nodes, edges, best) && Layered(nodes, nodes')
    ensures RouteMarked(nodes', edges, best)
  {
    forall n | n in nodes' && n.id in best
      ensures n.focused
    {
      var i :| 0 <= i < |nodes'| && nodes'[i] == n;
      assert nodes[i] in nodes;
    }
  }

  lemma MarkedRouteSurvives(g: Graph, r: Graph, sources: set<string>, dests: set<string>, best: seq<string>)
    requires Induced(g, r) && RouteMarked(g.nodes, g.edges, best)
    requires sources <= NodeIDs(g.nodes) && IsRoute(g.edges, sources, dests, best)
    ensures IsRoute(r.edges, sources * NodeIDs(r.nodes), dests, best)
  {
    KeptMembers(g, r);
    forall i | 0 <= i < |best| - 1
      ensures Joined(r.edges, best[i], best[i + 1])
    {
      StepJoins(g.edges, best, i);
      var e :| e in g.edges && Joins(e, best[i], best[i + 1]);
      assert OnPath(e, best, |best|);
      assert e in r.edges;
    }
    var n := NodeWithID(g.nodes, best[0]);
    assert Kept(g.nodes, g.edges, n.id);
  }

  lemma StepJoins(edges: seq<TraceEdge>, w: seq<string>, i: nat)
    requires IsWalk(edges, w) && i + 1 < |w|
    ensures Joined(edges, w[i], w[i + 1])
  {
  }

  lemma NodeWithID(nodes: seq<TraceNode>, id: string) returns (n: TraceNode)
    requires id in NodeIDs(nodes)
    ensures n in nodes && n.id == id
  {
    n :| n in nodes && n.id == id;
  }

  lemma KeptMembers(g: Graph, r: Graph)
    requires Induced(g, r)
    ensures forall e :: e in r.edges <==> e in g.edges && Kept(g.nodes, g.edges, e.from) && Kept(g.nodes, g.edges, e.to)
    ensures forall id :: id in NodeIDs(r.nodes) <==> id in NodeIDs(g.nodes) && Kept(g.nodes, g.edges, id)
  {
    FilterMembers(g.edges, (e: TraceEdge) => Kept(g.nodes, g.edges, e.from) && Kept(g.nodes, g.edges, e.to));
    FilterMembers(g.nodes, (n: TraceNode) => Kept(g.nodes, g.edges, n.id));
    forall id | id in NodeIDs(r.nodes)
      ensures id in NodeIDs(g.nodes) && Kept(g.nodes, g.edges, id)
    {
      var i :| 0 <= i < |r.nodes| && r.nodes[i].id == id;
      var n := KeptNodes(g)[i];
      assert n in KeptNodes(g) && Layout.LaidOut(WithLayer(n), r.nodes[i], r.edges, r.paths);
    }
    forall id | id in NodeIDs(g.nodes) && Kept(g.nodes, g.edges, id)
      ensures id in NodeIDs(r.nodes)
    {
      var m :| m in g.nodes && m.id == id;
      assert m in KeptNodes(g);
      var i :| 0 <= i < |KeptNodes(g)| && KeptNodes(g)[i] == m;
      assert Layout.LaidOut(WithLayer(m), r.nodes[i], r.edges, r.paths) && r.nodes[i] in r.nodes;
    }
  }

  lemma PruningKeepsDistances(e0: seq<TraceEdge>, g: Graph, r: Graph, sourceIDs: set<string>, dests: set<string>,
                              best: seq<string>)
    requires SameLinks(e0, g.edges)
    requires Simplified(g, r)
    requires best == [] <==> !Reachable(e0, sourceIDs * NodeIDs(g.nodes), dests)
    requires best != [] ==> IsShortestRoute(e0, sourceIDs * NodeIDs(g.nodes), dests, best)
    requires best != [] ==> RouteMarked(g.nodes, g.edges, best)
    ensures (forall e :: e in r.edges ==> e in g.edges) && NodeIDs(r.nodes) <= NodeIDs(g.nodes)
    ensures Reachable(e0, sourceIDs * NodeIDs(g.nodes), dests) <==>
            Reachable(r.edges, sourceIDs * NodeIDs(r.nodes), dests)
    ensures forall hops :: IsDistance(e0, sourceIDs * NodeIDs(g.nodes), dests, hops) <==>
                           IsDistance(r.edges, sourceIDs * NodeIDs(r.nodes), dests, hops)
  {
    var sources, survivors := sourceIDs * NodeIDs(g.nodes), sourceIDs * NodeIDs(r.nodes);
    SameLinksSameRoutes(e0, g.edges);
    if g.nodes != [] {
      KeptMembers(g, r);
    }
    if best != [] {
      assert IsRoute(g.edges, sources, dests, best);
      assert best[0] in NodeIDs(g.nodes);
      MarkedRouteSurvives(g, r, sources, dests, best);
      assert IsRoute(r.edges, sources * NodeIDs(r.nodes), dests, best);
    }
    SameDistances(e0, r.edges, sources, survivors, dests, best);
  }

  /** The edges that survive keep their ids, so these stay distinct. */
  lemma SurvivorsAreDistinct(g: Graph, r: Graph, edgeSet: set<string>)
    requires ValidEdges(g.edges, edgeSet)
    requires Simplified(g, r)
    ensures DistinctEdgeIDs(r.edges) && forall e :: e in r.edges ==> e.id != ""
  {
    EdgeIDsAreDistinct(g.edges, edgeSet);
    if g.nodes != [] {
      FilterDistinct(g.edges, (e: TraceEdge) => Kept(g.nodes, g.edges, e.from) && Kept(g.nodes, g.edges, e.to));
      KeptMembers(g, r);
    }
  }

  /** Every tracked or focused node survives, every primary edge, and its ends as far as they are nodes. */
  lemma EndpointsSurvive(g: Graph, r: Graph)
    requires Simplified(g, r)
    ensures forall id :: id in NodeIDs(r.nodes) ==> id in NodeIDs(g.nodes)
    ensures forall id :: id in NodeIDs(g.nodes) && Kept(g.nodes, g.edges, id) ==> id in NodeIDs(r.nodes)
    ensures forall e :: e in g.edges && e.primary ==> e in r.edges
  {
    if g.nodes != [] {
      KeptMembers(g, r);
      assert forall e :: e in g.edges && e.primary ==> Kept(g.nodes, g.edges, e.from) && Kept(g.nodes, g.edges, e.to);
    }
  }

  /** What holds of a finished graph. */
  lemma Finished(e0: seq<TraceEdge>, g: Graph, r: Graph, sourceIDs: set<string>, dests: set<string>,
                 best: seq<string>, edgeSet: set<string>)
    requires SameLinks(e0, g.edges) && Simplified(g, r) && ValidEdges(g.edges, edgeSet)
    requires forall i :: 0 <= i < |g.nodes| ==> g.nodes[i].track == ""
    requires g.nodes != [] ==> Layout.NoOverlap(r.nodes)
    requires best == [] <==> !Reachable(e0, sourceIDs * NodeIDs(g.nodes), dests)
    requires best != [] ==> IsShortestRoute(e0, sourceIDs * NodeIDs(g.nodes), dests, best)
    requires best != [] ==> RouteMarked(g.nodes, g.edges, best)
    ensures forall id :: id in NodeIDs(r.nodes) ==> id in NodeIDs(g.nodes)
    ensures forall id :: id in NodeIDs(g.nodes) && Kept(g.nodes, g.edges, id) ==> id in NodeIDs(r.nodes)
    ensures forall e :: e in g.edges && e.primary ==> e in r.edges
    ensures forall e :: e in r.edges ==> e in g.edges
    ensures Reachable(e0, sourceIDs * NodeIDs(g.nodes), dests) <==>
            Reachable(r.edges, sourceIDs * NodeIDs(r.nodes), dests)
    ensures forall hops :: IsDistance(e0, sourceIDs * NodeIDs(g.nodes), dests, hops) <==>
                           IsDistance(r.edges, sourceIDs * NodeIDs(r.nodes), dests, hops)
    ensures forall i, j :: 0 <= i < j < |r.nodes| ==> !Layout.RectOf(r.nodes[i]).Overlaps(Layout.RectOf(r.nodes[j]))
    ensures DistinctEdgeIDs(r.edges) && forall e :: e in r.edges ==> e.id != ""
  {
    PruningKeepsDistances(e0, g, r, sourceIDs, dests, best);
    EndpointsSurvive(g, r);
    AllPlaced(g, r);
    SurvivorsAreDistinct(g, r, edgeSet);
  }

  lemma AllPlaced(g: Graph, r: Graph)
    requires forall i :: 0 <= i < |g.nodes| ==> g.nodes[i].track == ""
    requires Simplified(g, r)
    ensures forall i :: 0 <= i < |r.nodes| ==> r.nodes[i].track in Track.TRACKS
  {
    if g.nodes != [] {
      FilterMembers(g.nodes, (n: TraceNode) => Kept(g.nodes, g.edges, n.id));
      assert forall i :: 0 <= i < |KeptNodes(g)| ==> KeptNodes(g)[i] in KeptNodes(g);
    }
  }

  function KeyOf(e: TraceEdge): string { EdgeKey(e.from, e.to, e.edgeType) }

  function Keys(edges: seq<TraceEdge>): set<string> {
    set e | e in edges :: KeyOf(e)
  }

  /** Node ids are unique and indexed; no node has been put on a track yet. */
  ghost predicate ValidNodes(nodes: seq<TraceNode>, nodeSet: set<string>) {
    && nodeSet == NodeIDs(nodes) && DistinctNodeIDs(nodes)
    && (forall i :: 0 <= i < |nodes| ==> nodes[i].track == "")
  }

  /** Edges are numbered, unique by key, and never loops. */
  ghost predicate ValidEdges(edges: seq<TraceEdge>, edgeSet: set<string>) {
    && (forall i :: 0 <= i < |edges| ==> edges[i].id == EdgeID(i + 1))
    && (forall i :: 0 <= i < |edges| ==> edges[i].from != "" && edges[i].to != "" && edges[i].from != edges[i].to)
    && edgeSet == Keys(edges)
    && (forall i, j :: 0 <= i < j < |edges| ==> KeyOf(edges[i]) != KeyOf(edges[j]))
  }

  lemma {:induction false} MarkingKeepsNodes(nodes: seq<TraceNode>, nodeSet: set<string>, r: seq<TraceNode>)
    requires ValidNodes(nodes, nodeSet) && |r| == |nodes|
    requires forall i :: 0 <= i < |nodes| ==> r[i].id == nodes[i].id && r[i].track == nodes[i].track
    ensures ValidNodes(r, nodeSet)
  {
    forall id | id in NodeIDs(r)
      ensures id in NodeIDs(nodes)
    {
      var i :| 0 <= i < |r| && r[i].id == id;
      assert nodes[i] in nodes;
    }
    forall id | id in NodeIDs(nodes)
      ensures id in NodeIDs(r)
    {
      var i :| 0 <= i < |nodes| && nodes[i].id == id;
      assert r[i] in r;
    }
  }

  lemma MarkingKeepsEdges(edges: seq<TraceEdge>, edgeSet: set<string>, r: seq<TraceEdge>)
    requires ValidEdges(edges, edgeSet) && SameLinks(edges, r)
    ensures ValidEdges(r, edgeSet)
  {
    assert forall i :: 0 <= i < |r| ==> KeyOf(r[i]) == KeyOf(edges[i]);
    forall k | k in Keys(r)
      ensures k in Keys(edges)
    {
      var i :| 0 <= i < |r| && KeyOf(r[i]) == k;
      assert edges[i] in edges;
    }
    forall k | k in Keys(edges)
      ensures k in Keys(r)
    {
      var i :| 0 <= i < |r| && KeyOf(edges[i]) == k;
      assert r[i] in r;
    }
  }

  lemma EdgeIDInjective(m: nat, n: nat)
    requires EdgeID(m) == EdgeID(n)
    ensures m == n
  {
    assert EdgeID(m)[2..] == Text.Decimal(m) && EdgeID(n)[2..] == Text.Decimal(n);
    Text.DecimalInjective(m, n);
  }

  /** The numbering gives every edge its own id, which the probe relies on. */
  lemma EdgeIDsAreDistinct(edges: seq<TraceEdge>, edgeSet: set<string>)
    requires ValidEdges(edges, edgeSet)
    ensures DistinctEdgeIDs(edges) && forall e :: e in edges ==> e.id != ""
  {
    forall i, j | 0 <= i < j < |edges|
      ensures edges[i].id != edges[j].id
    {
      if EdgeID(i + 1) == EdgeID(j + 1) {
        EdgeIDInjective(i + 1, j + 1);
      }
    }
    forall e | e in edges
      ensures e.id != ""
    {
      var i :| 0 <= i < |edges| && edges[i] == e;
    }
  }

  lemma {:induction false} AppendEdge(edges: seq<TraceEdge>, edgeSet: set<string>, e: TraceEdge)
    requires ValidEdges(edges, edgeSet) && KeyOf(e) !in edgeSet
    requires e.id == EdgeID(|edges| + 1) && e.from != "" && e.to != "" && e.from != e.to
    ensures ValidEdges(edges + [e], edgeSet + {KeyOf(e)})
  {
    var r := edges + [e];
    assert forall i :: 0 <= i < |edges| ==> r[i] == edges[i] && edges[i] in edges;
    assert Keys(r) == Keys(edges) + {KeyOf(e)};
  }

  // ---- Seeding -------------------------------------------------------------------------

  function NewNode(id: string, caption: string, kind: string, ns: string, tracked: bool, rank: int): TraceNode {
    TraceNode(id, caption, kind, "", ns, rank, "", 0, 0, 0, 0, tracked, false)
  }

  function SourceNode(p: PodDetail): TraceNode { NewNode(PodNodeID(p), p.name, "pod", p.namespace, true, RANK_SOURCE) }

  function DestNode(p: PodDetail): TraceNode { NewNode(PodNodeID(p), p.name, "pod", p.namespace, true, RANK_DEST) }

  function HostID(p: PodDetail): string { NodeID("node", "", p.nodeName) }

  function HostNode(p: PodDetail): TraceNode {
    NewNode(HostID(p), p.nodeName, "node", "", false, Layout.RankForKind("node"))
  }

  function Scheduled(p: PodDetail): TraceEdge {
    TraceEdge("", PodNodeID(p), HostID(p), "scheduled", false, false, "")
  }

  /** The nodes of the sources: each pod, and the host it is scheduled on. */
  ghost function SourceNodes(pods: seq<PodDetail>): seq<TraceNode> {
    if pods == [] then []
    else
      var p := pods[|pods| - 1];
      SourceNodes(pods[..|pods| - 1]) + [SourceNode(p)] + if p.nodeName != "" then [HostNode(p)] else []
  }

  ghost function Schedules(pods: seq<PodDetail>): seq<TraceEdge> {
    if pods == [] then []
    else
      var p := pods[|pods| - 1];
      Schedules(pods[..|pods| - 1]) + if p.nodeName != "" then [Scheduled(p)] else []
  }

  ghost function DestNodes(pods: seq<PodDetail>, ip: IPEndpoint): seq<TraceNode> {
    seq(|pods|, i requires 0 <= i < |pods| => DestNode(pods[i])) +
    if ip.IPEndpoint? then [NewNode(ip.id, ip.caption, ip.kind, "", true, RANK_DEST)] else []
  }

  /** `nodes` with those wanted at the end, unless their id is there already. */
  ghost function WithNodes(nodes: seq<TraceNode>, wanted: seq<TraceNode>): seq<TraceNode> {
    if wanted == [] then nodes
    else
      var r, n := WithNodes(nodes, wanted[..|wanted| - 1]), wanted[|wanted| - 1];
      if n.id in NodeIDs(r) then r else r + [n]
  }

  /** `edges` with those wanted at the end, numbered, unless their key is there already. */
  ghost function WithEdges(edges: seq<TraceEdge>, wanted: seq<TraceEdge>): seq<TraceEdge> {
    if wanted == [] then edges
    else
      var r, e := WithEdges(edges, wanted[..|wanted| - 1]), wanted[|wanted| - 1];
      if KeyOf(e) in Keys(r) then r else r + [e.(id := EdgeID(|r| + 1))]
  }

  lemma {:induction false} WithNodesTwice(nodes: seq<TraceNode>, a: seq<TraceNode>, b: seq<TraceNode>)
    ensures WithNodes(WithNodes(nodes, a), b) == WithNodes(nodes, a + b)
  {
    if b == [] {
      assert a + b == a;
    } else {
      assert (a + b)[..|a + b| - 1] == a + b[..|b| - 1];
      WithNodesTwice(nodes, a, b[..|b| - 1]);
    }
  }

  lemma {:induction false} WantedIDs(nodes: seq<TraceNode>, wanted: seq<TraceNode>)
    ensures NodeIDs(WithNodes(nodes, wanted)) == NodeIDs(nodes) + NodeIDs(wanted)
  {
    if wanted != [] {
      var front, last := wanted[..|wanted| - 1], wanted[|wanted| - 1];
      WantedIDs(nodes, front);
      assert wanted == front + [last];
      assert NodeIDs(wanted) == NodeIDs(front) + {last.id};
      var r := WithNodes(nodes, front);
      assert NodeIDs(r + [last]) == NodeIDs(r) + {last.id};
    }
  }

  lemma WithOne(nodes: seq<TraceNode>, n: TraceNode)
    ensures WithNodes(nodes, [n]) == if n.id in NodeIDs(nodes) then nodes else nodes + [n]
  {
    assert WithNodes(nodes, [n][..0]) == nodes;
  }

  lemma WithOneEdge(edges: seq<TraceEdge>, e: TraceEdge)
    ensures WithEdges(edges, [e]) == if KeyOf(e) in Keys(edges) then edges
                                     else edges + [e.(id := EdgeID(|edges| + 1))]
  {
    assert WithEdges(edges, [e][..0]) == edges;
  }

  lemma HostEdge(before: seq<TraceEdge>, after: seq<TraceEdge>, p: PodDetail, id: string, nid: string)
    requires id == PodNodeID(p) && nid == HostID(p)
    requires var refused := id == "" || nid == "" || id == nid || EdgeKey(id, nid, "scheduled") in Keys(before);
      after == if refused then before
               else before + [TraceEdge(EdgeID(|before| + 1), id, nid, "scheduled", false, false, "")]
    ensures after == WithEdges(before, [Scheduled(p)])
  {
    PodIsNoHost(p, p);
    WithOneEdge(before, Scheduled(p));
  }

  /** Among the nodes wanted the first of an id wins, if there is none before. */
  lemma {:induction false} FirstWins(nodes: seq<TraceNode>, wanted: seq<TraceNode>, n: TraceNode)
    ensures n in WithNodes(nodes, wanted) <==> n in nodes || FirstOfID(nodes, wanted, n)
  {
    if wanted != [] {
      var front, last := wanted[..|wanted| - 1], wanted[|wanted| - 1];
      FirstWins(nodes, front, n);
      WantedIDs(nodes, front);
      FirstOneMore(nodes, front, last, n);
      assert wanted == front + [last];
    }
  }

  lemma FirstOneMore(nodes: seq<TraceNode>, front: seq<TraceNode>, last: TraceNode, n: TraceNode)
    ensures FirstOfID(nodes, front + [last], n) <==>
            FirstOfID(nodes, front, n) || (n == last && n.id !in NodeIDs(nodes) + NodeIDs(front))
  {
    var wanted := front + [last];
    if FirstOfID(nodes, front, n) {
      var i: nat :| IsFirstOfID(nodes, front, n, i);
      assert IsFirstOfID(nodes, wanted, n, i);
    } else if n == last && n.id !in NodeIDs(nodes) + NodeIDs(front) {
      assert forall j :: 0 <= j < |front| ==> front[j] in front;
      assert IsFirstOfID(nodes, wanted, n, |front|);
    }
    if FirstOfID(nodes, wanted, n) {
      var i: nat :| IsFirstOfID(nodes, wanted, n, i);
      assert forall j :: 0 <= j < |front| ==> wanted[j] == front[j];
      if i < |front| {
        assert IsFirstOfID(nodes, front, n, i);
      } else {
        NotAmong(front, n.id);
      }
    }
  }

  lemma NotAmong(nodes: seq<TraceNode>, id: string)
    requires forall j :: 0 <= j < |nodes| ==> nodes[j].id != id
    ensures id !in NodeIDs(nodes)
  {
  }

  ghost predicate IsFirstOfID(nodes: seq<TraceNode>, wanted: seq<TraceNode>, n: TraceNode, i: nat) {
    && i < |wanted| && wanted[i] == n && n.id !in NodeIDs(nodes)
    && forall j :: 0 <= j < i ==> wanted[j].id != n.id
  }

  ghost predicate FirstOfID(nodes: seq<TraceNode>, wanted: seq<TraceNode>, n: TraceNode) {
    exists i :: IsFirstOfID(nodes, wanted, n, i)
  }

  /** No pod has the id of a host. */
  lemma PodIsNoHost(p: PodDetail, q: PodDetail)
    ensures PodNodeID(p) != "" && HostID(q) != "" && PodNodeID(p) != HostID(q)
  {
    KindFirst("pod", p.namespace, p.name);
    KindFirst("node", "", q.nodeName);
    assert PodNodeID(p)[0] == 'p' && HostID(q)[0] == 'n';
  }

  lemma KindFirst(kind: string, ns: string, name: string)
    requires kind in {"pod", "node"}
    ensures |NodeID(kind, ns, name)| > |kind| && NodeID(kind, ns, name)[..|kind|] == kind
  {
    KindKept(kind);
  }

  lemma SeedsOneMore(pods: seq<PodDetail>, i: nat)
    requires i < |pods|
    ensures var p := pods[i];
      && SourceNodes(pods[..i + 1]) ==
         SourceNodes(pods[..i]) + [SourceNode(p)] + (if p.nodeName != "" then [HostNode(p)] else [])
      && Schedules(pods[..i + 1]) == Schedules(pods[..i]) + if p.nodeName != "" then [Scheduled(p)] else []
  {
    assert pods[..i + 1][..i] == pods[..i];
  }

  lemma {:induction false} WithEdgesTwice(edges: seq<TraceEdge>, a: seq<TraceEdge>, b: seq<TraceEdge>)
    ensures WithEdges(WithEdges(edges, a), b) == WithEdges(edges, a + b)
  {
    if b == [] {
      assert a + b == a;
    } else {
      assert (a + b)[..|a + b| - 1] == a + b[..|b| - 1];
      WithEdgesTwice(edges, a, b[..|b| - 1]);
    }
  }

  lemma SeededOneMore(nodes0: seq<TraceNode>, edges0: seq<TraceEdge>, pods: seq<PodDetail>, i: nat,
                      nodes: seq<TraceNode>, edges: seq<TraceEdge>)
    requires i < |pods|
    requires var p := pods[i];
      && nodes == WithNodes(WithNodes(nodes0, SourceNodes(pods[..i])),
                            [SourceNode(p)] + if p.nodeName != "" then [HostNode(p)] else [])
      && edges == WithEdges(WithEdges(edges0, Schedules(pods[..i])), if p.nodeName != "" then [Scheduled(p)] else [])
    ensures nodes == WithNodes(nodes0, SourceNodes(pods[..i + 1]))
    ensures edges == WithEdges(edges0, Schedules(pods[..i + 1]))
  {
    var p := pods[i];
    var host := if p.nodeName != "" then [HostNode(p)] else [];
    SeedsOneMore(pods, i);
    WithNodesTwice(nodes0, SourceNodes(pods[..i]), [SourceNode(p)] + host);
    WithEdgesTwice(edges0, Schedules(pods[..i]), if p.nodeName != "" then [Scheduled(p)] else []);
    assert SourceNodes(pods[..i]) + ([SourceNode(p)] + host) == SourceNodes(pods[..i]) + [SourceNode(p)] + host;
  }

  lemma {:induction false} SourcesSeeded(pods: seq<PodDetail>)
    ensures forall p :: p in pods ==> SourceNode(p) in SourceNodes(pods)
  {
    if pods != [] {
      SourcesSeeded(pods[..|pods| - 1]);
      assert pods == pods[..|pods| - 1] + [pods[|pods| - 1]];
    }
  }

  lemma EndpointsSeeded(nodes: seq<TraceNode>, sources: seq<PodDetail>, dests: seq<PodDetail>, ip: IPEndpoint,
                        sourceIDs: set<string>, destIDs: set<string>)
    requires sourceIDs == set p | p in sources :: PodNodeID(p)
    requires destIDs == (set p | p in dests :: PodNodeID(p)) + if ip.IPEndpoint? then {ip.id} else {}
    ensures sourceIDs + destIDs <= NodeIDs(WithNodes(WithNodes(nodes, SourceNodes(sources)), DestNodes(dests, ip)))
  {
    WantedIDs(nodes, SourceNodes(sources));
    WantedIDs(WithNodes(nodes, SourceNodes(sources)), DestNodes(dests, ip));
    SourcesSeeded(sources);
    forall p | p in sources
      ensures PodNodeID(p) in NodeIDs(SourceNodes(sources))
    {
      assert SourceNode(p) in SourceNodes(sources);
    }
    DestsSeeded(dests, ip);
  }

  lemma DestsSeeded(dests: seq<PodDetail>, ip: IPEndpoint)
    ensures (set p | p in dests :: PodNodeID(p)) <= NodeIDs(DestNodes(dests, ip))
    ensures ip.IPEndpoint? ==> ip.id in NodeIDs(DestNodes(dests, ip))
  {
    forall p | p in dests
      ensures PodNodeID(p) in NodeIDs(DestNodes(dests, ip))
    {
      var i :| 0 <= i < |dests| && dests[i] == p;
      assert DestNodes(dests, ip)[i] == DestNode(p) && DestNode(p) in DestNodes(dests, ip);
    }
    if ip.IPEndpoint? {
      assert DestNodes(dests, ip)[|dests|] in DestNodes(dests, ip);
    }
  }

  lemma {:induction false} UntrackedSource(pods: seq<PodDetail>, n: TraceNode)
    requires n in SourceNodes(pods) && !n.tracked
    ensures exists p :: p in pods && n == HostNode(p)
  {
    var front, p := pods[..|pods| - 1], pods[|pods| - 1];
    assert p in pods;
    if n in SourceNodes(front) {
      UntrackedSource(front, n);
    }
  }

  /** A builder that starts empty tracks every source and destination pod, so that pruning keeps it. */
  lemma {:induction false} SeededAreTracked(sources: seq<PodDetail>, dests: seq<PodDetail>, ip: IPEndpoint,
                                            p: PodDetail, n: TraceNode)
    requires n in WithNodes([], SourceNodes(sources) + DestNodes(dests, ip)) && n.id == PodNodeID(p)
    ensures n.tracked
  {
    var wanted := SourceNodes(sources) + DestNodes(dests, ip);
    FirstWins([], wanted, n);
    var i: nat :| IsFirstOfID([], wanted, n, i);
    assert n in wanted;
    if !n.tracked {
      assert n in SourceNodes(sources);
      UntrackedSource(sources, n);
      var q :| q in sources && n == HostNode(q);
      PodIsNoHost(p, q);
    }
  }

  /** One destination more. */
  lemma DestsOneMore(nodes: seq<TraceNode>, wanted: seq<TraceNode>, i: nat)
    requires i < |wanted|
    ensures var r := WithNodes(nodes, wanted[..i]);
      WithNodes(nodes, wanted[..i + 1]) == if wanted[i].id in NodeIDs(r) then r else r + [wanted[i]]
  {
    assert wanted[..i + 1][..i] == wanted[..i];
  }

  /** The address comes last, if there is one. */
  lemma LastDest(nodes: seq<TraceNode>, pods: seq<PodDetail>, ip: IPEndpoint)
    ensures var wanted := DestNodes(pods, ip);
      var r := WithNodes(nodes, wanted[..|pods|]);
      WithNodes(nodes, wanted) ==
      if ip.NoIP? || ip.id in NodeIDs(r) then r else r + [NewNode(ip.id, ip.caption, ip.kind, "", true, RANK_DEST)]
  {
    var wanted := DestNodes(pods, ip);
    if ip.IPEndpoint? {
      DestsOneMore(nodes, wanted, |pods|);
      assert wanted[..|pods| + 1] == wanted;
    } else {
      assert wanted[..|pods|] == wanted;
    }
  }

  class GraphBuilder {
    var sourcePods: seq<PodDetail>
    var destPods: seq<PodDetail>
    var destIP: IPEndpoint
    var sourceIDs: set<string>
    var destIDs: set<string>
    var nodes: seq<TraceNode>
    var edges: seq<TraceEdge>
    var paths: seq<PathSummary>
    var nodeSet: set<string>
    var edgeSet: set<string>

    ghost predicate Valid()
      reads this
    {
      ValidNodes(nodes, nodeSet) && ValidEdges(edges, edgeSet)
    }

    constructor (sourcePods: seq<PodDetail>, destPods: seq<PodDetail>, destIP: IPEndpoint)
      ensures Valid() && nodes == [] && edges == [] && paths == []
      ensures this.sourcePods == sourcePods && this.destPods == destPods && this.destIP == destIP
      ensures sourceIDs == set p | p in sourcePods :: PodNodeID(p)
      ensures destIDs == (set p | p in destPods :: PodNodeID(p)) + if destIP.IPEndpoint? then {destIP.id} else {}
    {
      this.sourcePods, this.destPods, this.destIP := sourcePods, destPods, destIP;
      sourceIDs := set p | p in sourcePods :: PodNodeID(p);
      destIDs := (set p | p in destPods :: PodNodeID(p)) + if destIP.IPEndpoint? then {destIP.id} else {};
      nodes, edges, paths, nodeSet, edgeSet := [], [], [], {}, {};
    }

    method AddNode(id: string, caption: string, kind: string, ns: string, tracked: bool, focused: bool, rank: int)
      requires Valid()
      modifies this`nodes, this`nodeSet
      ensures Valid() && nodeSet == old(nodeSet) + {id}
      ensures id in old(nodeSet) ==> nodes == old(nodes)
      ensures id !in old(nodeSet) ==>
                nodes == old(nodes) + [TraceNode(id, caption, kind, "", ns, 
                                                 if rank < 0 then Layout.RankForKind(kind) else rank,
                                                 "", 0, 0, 0, 0, tracked, focused)]
    {
      if id in nodeSet { return; }
      nodeSet := nodeSet + {id};
      var r := if rank < 0 then Layout.RankForKind(kind) else rank;
      assert forall i :: 0 <= i < |nodes| ==> nodes[i].id in NodeIDs(nodes);
      nodes := nodes + [TraceNode(id, caption, kind, "", ns, r, "", 0, 0, 0, 0, tracked, focused)];
    }

    method AddEdge(from: string, to: string, edgeType: string, primary: bool, caption: string, drop: bool)
      requires Valid()
      modifies this`edges, this`edgeSet
      ensures Valid()
      ensures var refused := from == "" || to == "" || from == to || EdgeKey(from, to, edgeType) in old(edgeSet);
        edges == if refused then old(edges)
                 else old(edges) + [TraceEdge(EdgeID(|old(edges)| + 1), from, to, edgeType, primary, drop, caption)]
    {
      if from == "" || to == "" || from == to { return; }
      var key := EdgeKey(from, to, edgeType);
      if key in edgeSet { return; }
      var e := TraceEdge(EdgeID(|edges| + 1), from, to, edgeType, primary, drop, caption);
      AppendEdge(edges, edgeSet, e);
      edgeSet := edgeSet + {key};
      edges := edges + [e];
    }

    /** One source pod: its node, the host it is scheduled on, and the edge between them. */
    method SeedSource(p: PodDetail)
      requires Valid()
      modifies this`nodes, this`nodeSet, this`edges, this`edgeSet
      ensures Valid()
      ensures nodes == WithNodes(old(nodes), [SourceNode(p)] + if p.nodeName != "" then [HostNode(p)] else [])
      ensures edges == WithEdges(old(edges), if p.nodeName != "" then [Scheduled(p)] else [])
    {
      var id := PodNodeID(p);
      AddNode(id, p.name, "pod", p.namespace, true, false, RANK_SOURCE);
      WithOne(old(nodes), SourceNode(p));
      if p.nodeName != "" {
        SeedHost(p, id);
        WithNodesTwice(old(nodes), [SourceNode(p)], [HostNode(p)]);
      }
    }

    /** The host of a source pod, and the edge that leads there. */
    method SeedHost(p: PodDetail, id: string)
      requires Valid() && id == PodNodeID(p)
      modifies this`nodes, this`nodeSet, this`edges, this`edgeSet
      ensures Valid() && nodes == WithNodes(old(nodes), [HostNode(p)])
      ensures edges == WithEdges(old(edges), [Scheduled(p)])
    {
      var nid := NodeID("node", "", p.nodeName);
      AddNode(nid, p.nodeName, "node", "", false, false, Layout.RankForKind("node"));
      WithOne(old(nodes), HostNode(p));
      AddEdge(id, nid, "scheduled", false, "", false);
      HostEdge(old(edges), edges, p, id, nid);
    }

    method SeedSources()
      requires Valid()
      modifies this`nodes, this`nodeSet, this`edges, this`edgeSet
      ensures Valid()
      ensures nodes == WithNodes(old(nodes), SourceNodes(sourcePods))
      ensures edges == WithEdges(old(edges), Schedules(sourcePods))
    {
      for i := 0 to |sourcePods|
        invariant Valid()
        invariant nodes == WithNodes(old(nodes), SourceNodes(sourcePods[..i]))
        invariant edges == WithEdges(old(edges), Schedules(sourcePods[..i]))
      {
        SeedSource(sourcePods[i]);
        SeededOneMore(old(nodes), old(edges), sourcePods, i, nodes, edges);
      }
      assert sourcePods[..|sourcePods|] == sourcePods;
    }

    method SeedDests()
      requires Valid()
      modifies this`nodes, this`nodeSet
      ensures Valid()
      ensures nodes == WithNodes(old(nodes), DestNodes(destPods, destIP))
    {
      ghost var wanted := DestNodes(destPods, destIP);
      for i := 0 to |destPods|
        invariant Valid()
        invariant nodes == WithNodes(old(nodes), wanted[..i])
      {
        DestsOneMore(old(nodes), wanted, i);
        SeedDest(destPods[i]);
      }
      LastDest(old(nodes), destPods, destIP);
      if destIP.IPEndpoint? {
        AddNode(destIP.id, destIP.caption, destIP.kind, "", true, false, RANK_DEST);
      }
    }

    method SeedDest(p: PodDetail)
      requires Valid()
      modifies this`nodes, this`nodeSet
      ensures Valid()
      ensures nodes == if PodNodeID(p) in NodeIDs(old(nodes)) then old(nodes) else old(nodes) + [DestNode(p)]
    {
      AddNode(PodNodeID(p), p.name, "pod", p.namespace, true, false, RANK_DEST);
    }

    /** Seeding adds a tracked node for every source and destination, and the hosts of the sources. */
    method SeedEndpoints()
      requires Valid()
      requires sourceIDs == set p | p in sourcePods :: PodNodeID(p)
      requires destIDs == (set p | p in destPods :: PodNodeID(p)) + if destIP.IPEndpoint? then {destIP.id} else {}
      modifies this`nodes, this`nodeSet, this`edges, this`edgeSet
      ensures Valid() && sourceIDs + destIDs <= nodeSet
      ensures nodes == WithNodes(old(nodes), SourceNodes(sourcePods) + DestNodes(destPods, destIP))
      ensures edges == WithEdges(old(edges), Schedules(sourcePods))
    {
      ghost var wanted := SourceNodes(sourcePods);
      SeedSources();
      SeedDests();
      EndpointsSeeded(old(nodes), sourcePods, destPods, destIP, sourceIDs, destIDs);
      WithNodesTwice(old(nodes), wanted, DestNodes(destPods, destIP));
    }

    method FocusNodes(ids: set<string>)
      modifies this`nodes
      ensures FocusedBy(old(nodes), ids, nodes)
    {
      for i := 0 to |nodes|
        invariant |nodes| == |old(nodes)|
        invariant FocusedBy(old(nodes)[..i], ids, nodes[..i])
        invariant nodes[i..] == old(nodes)[i..]
      {
        assert nodes[i] == nodes[i..][0] == old(nodes)[i..][0] == old(nodes)[i];
        ghost var before := nodes;
        if nodes[i].id in ids {
          nodes := nodes[i := nodes[i].(focused := true)];
        }
        assert nodes[..i + 1] == before[..i] + [nodes[i]];
        assert old(nodes)[..i + 1] == old(nodes)[..i] + [old(nodes)[i]];
        assert nodes[i + 1..] == before[i..][1..];
      }
      assert nodes[..|nodes|] == nodes && old(nodes)[..|nodes|] == old(nodes);
    }

    /** The two nested loops that make the edges of the route primary. */
    method MarkRoute(best: seq<string>)
      requires |best| >= 2
      modifies this`edges
      ensures PathPrimary(old(edges), best, |best|, edges)
    {
      for i := 0 to |best| - 1
        invariant PathPrimary(old(edges), best, i, edges)
      {
        ghost var before := edges;
        for j := 0 to |edges|
          invariant |edges| == |before|
          invariant forall k :: 0 <= k < j ==>
                      edges[k] == before[k].(primary := before[k].primary || Joins(before[k], best[i], best[i + 1]))
          invariant forall k :: j <= k < |edges| ==> edges[k] == before[k]
        {
          if Joins(edges[j], best[i], best[i + 1]) {
            edges := edges[j := edges[j].(primary := true)];
          }
        }
        forall k | 0 <= k < |edges|
          ensures edges[k] == old(edges)[k].(primary := old(edges)[k].primary || OnPath(old(edges)[k], best, i + 1))
        {
          assert before[k] == old(edges)[k].(primary := old(edges)[k].primary || OnPath(old(edges)[k], best, i));
          assert Joins(before[k], best[i], best[i + 1]) <==> Joins(old(edges)[k], best[i], best[i + 1]);
        }
      }
    }

    /** The fallback's loop over the edges: those leading straight from a source to a destination. */
    method MarkDirectEdges()
      modifies this`edges
      ensures DirectPrimary(old(edges), sourceIDs, destIDs, edges)
    {
      for j := 0 to |edges|
        invariant |edges| == |old(edges)|
        invariant forall k :: 0 <= k < j ==>
                    edges[k] == var e := old(edges)[k]; e.(primary := e.primary || IsDirect(e, sourceIDs, destIDs))
        invariant forall k :: j <= k < |edges| ==> edges[k] == old(edges)[k]
      {
        if edges[j].from in sourceIDs {
          if edges[j].to in destIDs {
            edges := edges[j := edges[j].(primary := true)];
          }
        }
      }
    }

    /**
     Highlights a shortest route from a source that exists as a node to a destination. When
     there is none, or a source is itself a destination, the endpoints are focused and the
     edges straight from a source to a destination become primary.
     */
    method MarkFocusPath() returns (ghost best: seq<string>)
      requires Valid()
      modifies this`nodes, this`edges
      ensures Valid() && SameLinks(old(edges), edges)
      ensures Highlighted(old(nodes), old(edges), sourceIDs, destIDs, best, nodes, edges)
      ensures best != [] ==> RouteMarked(nodes, edges, best)
    {
      best := [];
      if |sourceIDs| == 0 || |destIDs| == 0 { return; }
      var found := FocusPath.ShortestPath(edges, sourceIDs, destIDs, nodeSet);
      best := found;
      MarkFound(found);
    }

    /** Marks the route found, or falls back when there is none of two vertices or more. */
    method MarkFound(found: seq<string>)
      requires Valid() && (found != [] ==> found[0] in sourceIDs)
      modifies this`nodes, this`edges
      ensures Valid() && SameLinks(old(edges), edges)
      ensures found != [] ==> RouteMarked(nodes, edges, found)
      ensures if |found| >= 2 then FocusedBy(old(nodes), (set id | id in found), nodes)
              else FocusedBy(old(nodes), sourceIDs + destIDs, nodes)
      ensures if |found| >= 2 then PathPrimary(old(edges), found, |found|, edges)
              else DirectPrimary(old(edges), sourceIDs, destIDs, edges)
    {
      if |found| < 2 {
        FocusNodes(sourceIDs + destIDs);
        MarkDirectEdges();
      } else {
        var onPath := set id | id in found;
        FocusNodes(onPath);
        MarkRoute(found);
      }
      MarkingKeepsNodes(old(nodes), nodeSet, nodes);
      MarkingKeepsEdges(old(edges), edgeSet, edges);
      if found != [] {
        Marked(old(nodes), old(edges), sourceIDs, destIDs, found, nodes, edges);
      }
    }

    /** Nothing but the layers, filled in where they are missing. */
    method FillLayers()
      requires Valid()
      modifies this`nodes
      ensures Valid() && Layered(old(nodes), nodes)
    {
      for i := 0 to |nodes|
        invariant |nodes| == |old(nodes)|
        invariant forall k :: 0 <= k < i ==> nodes[k] == WithLayer(old(nodes)[k])
        invariant forall k :: i <= k < |nodes| ==> nodes[k] == old(nodes)[k]
      {
        if nodes[i].layer == "" {
          nodes := nodes[i := nodes[i].(layer := LayerForKind(nodes[i].kind))];
        }
      }
      MarkingKeepsNodes(old(nodes), nodeSet, nodes);
    }

    /**
     The finished graph: the simplification of what was collected, a shortest route highlighted.
     Every tracked or focused node is in it, every primary edge, and its ends. Pruning loses no
     distance: from the sources that exist as nodes to the destinations there are the same
     reachability and the same shortest length in the graph returned, with the sources that
     survive, as there were before marking.
     */
    method Finish() returns (r: Graph)
      requires Valid()
      modifies this`nodes, this`edges
      ensures Valid() && SameLinks(old(edges), edges)
      ensures Marking(old(nodes), old(edges), sourceIDs, destIDs, nodes, edges)
      ensures Simplified(Collected(nodes, edges, paths), r)
      ensures forall id :: id in NodeIDs(r.nodes) ==> id in nodeSet
      ensures forall id :: id in nodeSet && Kept(nodes, edges, id) ==> id in NodeIDs(r.nodes)
      ensures forall e :: e in edges && e.primary ==> e in r.edges
      ensures forall e :: e in r.edges ==> e in edges
      ensures Reachable(old(edges), sourceIDs * nodeSet, destIDs) <==>
              Reachable(r.edges, sourceIDs * NodeIDs(r.nodes), destIDs)
      ensures forall hops :: IsDistance(old(edges), sourceIDs * nodeSet, destIDs, hops) <==>
                             IsDistance(r.edges, sourceIDs * NodeIDs(r.nodes), destIDs, hops)
      ensures forall i, j :: 0 <= i < j < |r.nodes| ==> !Layout.RectOf(r.nodes[i]).Overlaps(Layout.RectOf(r.nodes[j]))
      ensures DistinctEdgeIDs(r.edges) && forall e :: e in r.edges ==> e.id != ""
    {
      ghost var best := MarkNodes();
      var g := Collected(nodes, edges, paths);
      r := SimplifyGraph(g);
      Finished(old(edges), g, r, sourceIDs, destIDs, best, edgeSet);
    }

    /** The route highlighted and the layers filled in. */
    method MarkNodes() returns (ghost best: seq<string>)
      requires Valid()
      modifies this`nodes, this`edges
      ensures Valid() && SameLinks(old(edges), edges)
      ensures Marking(old(nodes), old(edges), sourceIDs, destIDs, nodes, edges)
      ensures best == [] <==> !Reachable(old(edges), sourceIDs * nodeSet, destIDs)
      ensures best != [] ==> IsShortestRoute(old(edges), sourceIDs * nodeSet, destIDs, best)
      ensures best != [] ==> RouteMarked(nodes, edges, best)
    {
      best := MarkFocusPath();
      ghost var marked := nodes;
      FillLayers();
      if best != [] {
        LayersKeepMarks(marked, nodes, edges, best);
      }
      MarkingOf(old(nodes), old(edges), sourceIDs, destIDs, best, marked, nodes, edges);
    }
  }
}
