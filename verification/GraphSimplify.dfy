/** Prunes the path map to its endpoints and the focused route. */
module GraphSimplify {
  import opened Sequences
  import opened TraceGraph
  import opened Track
  import opened Layout

  datatype TraceGraphStats = TraceGraphStats(
    totalNodes: int, focusedNodes: int, logicalNodes: int, physicalNodes: int, prunedNodes: int)

  datatype Graph = Graph(
    nodes: seq<TraceNode>, edges: seq<TraceEdge>, paths: seq<PathSummary>,
    lanes: seq<TraceLane>, width: int, height: int, stats: TraceGraphStats)

  function LayerForKind(kind: string): string {
    if kind in {"node", "bond", "host-veth", "vrf", "nad", "ovn-logical-port", "bgp-peer", "metallb-advertisement"}
    then "physical" else "logical"
  }

  function WithLayer(n: TraceNode): TraceNode {
    if n.layer == "" then n.(layer := LayerForKind(n.kind)) else n
  }

  /** Ids that survive: tracked or focused nodes, and both ends of every primary edge. */
  ghost predicate Kept(nodes: seq<TraceNode>, edges: seq<TraceEdge>, id: string) {
    || (exists n :: n in nodes && (n.tracked || n.focused) && n.id == id)
    || (exists e :: e in edges && e.primary && (e.from == id || e.to == id))
  }

  method KeepSet(nodes: seq<TraceNode>, edges: seq<TraceEdge>) returns (keep: set<string>)
    ensures forall id :: id in keep <==> Kept(nodes, edges, id)
  {
    keep := {};
    for i := 0 to |nodes|
      invariant forall id :: id in keep <==> Kept(nodes[..i], [], id)
    {
      assert nodes[..i + 1] == nodes[..i] + [nodes[i]];
      if nodes[i].tracked || nodes[i].focused {
        keep := keep + {nodes[i].id};
      }
    }
    assert nodes[..|nodes|] == nodes;
    for j := 0 to |edges|
      invariant forall id :: id in keep <==> Kept(nodes, edges[..j], id)
    {
      assert edges[..j + 1] == edges[..j] + [edges[j]];
      if edges[j].primary {
        keep := keep + {edges[j].from} + {edges[j].to};
      }
    }
    assert edges[..|edges|] == edges;
  }

  method FilterNodes(nodes: seq<TraceNode>, keep: set<string>) returns (r: seq<TraceNode>)
    ensures var kept := Filter(nodes, (n: TraceNode) => n.id in keep);
      |r| == |kept| && forall i :: 0 <= i < |r| ==> r[i] == WithLayer(kept[i])
  {
    ghost var p := (n: TraceNode) => n.id in keep;
    ghost var kept: seq<TraceNode> := [];
    r := [];
    for i := 0 to |nodes|
      invariant kept == Filter(nodes[..i], p) && |r| == |kept|
      invariant forall k :: 0 <= k < |r| ==> r[k] == WithLayer(kept[k])
    {
      FilterOneMore(nodes, i, p);
      if nodes[i].id !in keep { continue; }
      var n := nodes[i];
      if n.layer == "" {
        n := n.(layer := LayerForKind(n.kind));
      }
      kept := kept + [nodes[i]];
      r := r + [n];
    }
    assert nodes[..|nodes|] == nodes;
  }

  method FilterEdges(edges: seq<TraceEdge>, keep: set<string>) returns (r: seq<TraceEdge>)
    ensures r == Filter(edges, (e: TraceEdge) => e.from in keep && e.to in keep)
  {
    ghost var p := (e: TraceEdge) => e.from in keep && e.to in keep;
    r := [];
    for i := 0 to |edges|
      invariant r == Filter(edges[..i], p)
    {
      FilterOneMore(edges, i, p);
      if edges[i].from !in keep { continue; }
      if edges[i].to !in keep { continue; }
      r := r + [edges[i]];
    }
    assert edges[..|edges|] == edges;
  }

  method FilterPaths(paths: seq<PathSummary>) returns (r: seq<PathSummary>)
    ensures r == Filter(paths, (p: PathSummary) => p.status == "discovered")
  {
    ghost var d := (p: PathSummary) => p.status == "discovered";
    r := [];
    for i := 0 to |paths|
      invariant r == Filter(paths[..i], d)
    {
      FilterOneMore(paths, i, d);
      if paths[i].status != "discovered" { continue; }
      r := r + [paths[i]];
    }
    assert paths[..|paths|] == paths;
  }

  /** What became of `total` nodes; every survivor is either physical or logical. */
  ghost predicate Counted(total: int, nodes: seq<TraceNode>, st: TraceGraphStats) {
    && st.totalNodes == total && st.prunedNodes + |nodes| == total
    && st.physicalNodes + st.logicalNodes == |nodes|
    && st.physicalNodes == |Filter(nodes, (n: TraceNode) => n.layer == "physical")|
    && st.focusedNodes == |Filter(nodes, (n: TraceNode) => n.focused || n.tracked)|
  }

  method GraphStats(total: int, nodes: seq<TraceNode>) returns (st: TraceGraphStats)
    ensures Counted(total, nodes, st)
  {
    ghost var phys := (n: TraceNode) => n.layer == "physical";
    ghost var foc := (n: TraceNode) => n.focused || n.tracked;
    st := TraceGraphStats(total, 0, 0, 0, total - |nodes|);
    for i := 0 to |nodes|
      invariant st.totalNodes == total && st.prunedNodes == total - |nodes|
      invariant st.physicalNodes + st.logicalNodes == i
      invariant st.physicalNodes == |Filter(nodes[..i], phys)|
      invariant st.focusedNodes == |Filter(nodes[..i], foc)|
    {
      FilterOneMore(nodes, i, phys);
      FilterOneMore(nodes, i, foc);
      if nodes[i].focused || nodes[i].tracked {
        st := st.(focusedNodes := st.focusedNodes + 1);
      }
      if nodes[i].layer == "physical" {
        st := st.(physicalNodes := st.physicalNodes + 1);
      } else {
        st := st.(logicalNodes := st.logicalNodes + 1);
      }
    }
    assert nodes[..|nodes|] == nodes;
  }

  ghost function KeptNodes(g: Graph): seq<TraceNode> {
    Filter(g.nodes, (n: TraceNode) => Kept(g.nodes, g.edges, n.id))
  }

  ghost function KeptEdges(g: Graph): seq<TraceEdge> {
    Filter(g.edges, (e: TraceEdge) => Kept(g.nodes, g.edges, e.from) && Kept(g.nodes, g.edges, e.to))
  }

  /** `r` is the subgraph of `g` induced by the kept ids, in the same order, every node on its layer, rank and track. */
  ghost predicate Induced(g: Graph, r: Graph) {
    && r.edges == KeptEdges(g)
    && r.paths == Filter(g.paths, (p: PathSummary) => p.status == "discovered")
    && |r.nodes| == |KeptNodes(g)|
    && forall i :: 0 <= i < |r.nodes| ==> LaidOut(WithLayer(KeptNodes(g)[i]), r.nodes[i], r.edges, r.paths)
  }

  /** Every node is in its place, the graph as large as that takes, and the survivors are counted. */
  ghost predicate Drawn(g: Graph, r: Graph) {
    && InPlace(r.nodes) && Counted(|g.nodes|, r.nodes, r.stats)
    && if r.nodes == [] then (r.width, r.height, r.lanes) == (960, 420, [])
       else (r.width, r.height, r.lanes) == (CountsIn(r.nodes).Width(), CountsIn(r.nodes).Height(), Lanes(r.width))
  }

  /** A graph without nodes is returned as it is. */
  ghost predicate Simplified(g: Graph, r: Graph) {
    if g.nodes == [] then r == g else Induced(g, r) && Drawn(g, r)
  }

  /** The induced subgraph, laid out without overlaps. */
  method SimplifyGraph(g: Graph) returns (r: Graph)
    ensures Simplified(g, r)
    ensures g.nodes != [] ==> NoOverlap(r.nodes) && WithinHeight(r.nodes, r.height)
    ensures g.nodes != [] ==> OnRows(r.nodes, r.width) && RunsByRank(r.nodes)
  {
    if |g.nodes| == 0 { return g; }
    var keep := KeepSet(g.nodes, g.edges);
    var kept := FilterNodes(g.nodes, keep);
    FilterAgrees(g.nodes, (n: TraceNode) => n.id in keep, (n: TraceNode) => Kept(g.nodes, g.edges, n.id));
    var edges := FilterEdges(g.edges, keep);
    FilterAgrees(g.edges, (e: TraceEdge) => e.from in keep && e.to in keep,
                 (e: TraceEdge) => Kept(g.nodes, g.edges, e.from) && Kept(g.nodes, g.edges, e.to));
    var paths := FilterPaths(g.paths);
    var nodes := new TraceNode[|kept|](i requires 0 <= i < |kept| => kept[i]);
    var width, height, lanes := ApplyLayout(nodes, edges, paths);
    var stats := GraphStats(|g.nodes|, nodes[..]);
    r := Graph(nodes[..], edges, paths, lanes, width, height, stats);
  }
}
