/** The infrastructure skeleton: nodes, edges, discovered paths, and the routes through it. */
module TraceGraph {
  import opened Sequences

  datatype TraceNode = TraceNode(
    id: string, caption: string, kind: string, layer: string, namespace: string,
    rank: int, track: string, x: int, y: int, width: int, height: int,
    tracked: bool, focused: bool)

  datatype TraceEdge = TraceEdge(
    id: string, from: string, to: string, edgeType: string,
    primary: bool, drop: bool, caption: string)

  datatype PathSummary = PathSummary(
    direction: string, resource: string, namespace: string, kind: string,
    status: string, detail: string)

  function NodeIDs(nodes: seq<TraceNode>): set<string> {
    set n | n in nodes :: n.id
  }

  ghost predicate DistinctNodeIDs(nodes: seq<TraceNode>) {
    forall i, j :: 0 <= i < j < |nodes| ==> nodes[i].id != nodes[j].id
  }

  ghost predicate DistinctEdgeIDs(edges: seq<TraceEdge>) {
    forall i, j :: 0 <= i < j < |edges| ==> edges[i].id != edges[j].id
  }

  lemma {:induction false} FilterDistinct(edges: seq<TraceEdge>, p: TraceEdge -> bool)
    requires DistinctEdgeIDs(edges)
    ensures DistinctEdgeIDs(Filter(edges, p))
  {
    if edges != [] {
      var front, last := edges[..|edges| - 1], edges[|edges| - 1];
      FilterDistinct(front, p);
      FilterMembers(front, p);
      var f := Filter(front, p);
      forall i | 0 <= i < |f|
        ensures f[i].id != last.id
      {
        assert f[i] in f;
        var j :| 0 <= j < |front| && front[j] == f[i];
      }
    }
  }

  /** Edge `e` joins `a` and `b`, in either direction. */
  predicate Joins(e: TraceEdge, a: string, b: string) {
    (e.from == a && e.to == b) || (e.from == b && e.to == a)
  }

  ghost predicate Joined(edges: seq<TraceEdge>, a: string, b: string) {
    exists e :: e in edges && Joins(e, a, b)
  }

  /** Consecutive vertices of `w` are joined by an edge. */
  ghost predicate IsWalk(edges: seq<TraceEdge>, w: seq<string>) {
    |w| > 0 && forall i :: 0 <= i < |w| - 1 ==> Joined(edges, w[i], w[i + 1])
  }

  /** `w` leads from one of the `sources` to one of the `dests`. */
  ghost predicate IsRoute(edges: seq<TraceEdge>, sources: set<string>, dests: set<string>, w: seq<string>) {
    IsWalk(edges, w) && w[0] in sources && w[|w| - 1] in dests
  }

  ghost predicate IsShortestRoute(edges: seq<TraceEdge>, sources: set<string>, dests: set<string>, w: seq<string>) {
    && IsRoute(edges, sources, dests, w)
    && forall v :: IsRoute(edges, sources, dests, v) ==> |w| <= |v|
  }

  ghost predicate Reachable(edges: seq<TraceEdge>, sources: set<string>, dests: set<string>) {
    exists w :: IsRoute(edges, sources, dests, w)
  }

  /** Some route has `hops` edges and none has fewer. */
  ghost predicate IsDistance(edges: seq<TraceEdge>, sources: set<string>, dests: set<string>, hops: nat) {
    exists w :: IsShortestRoute(edges, sources, dests, w) && |w| == hops + 1
  }
}
