/** A probe on the graph that a builder has finished. */
module ProbeFire {
  import opened TraceGraph
  import Correlator
  import opened GraphBuilding
  import opened ProbeSession

  /** What the builder returns is all that a session asks of its graph; the primary edges are painted in order. */
  method Fire(b: GraphBuilder, demoDrop: bool) returns (s: Session)
    requires b.Valid()
    modifies b
    ensures b.Valid() && fresh(s) && s.Valid() && s.demoDrop == demoDrop && !s.finished
    ensures forall e :: e in s.corr.edges ==> e in b.edges && e.primary
  {
    var graph := b.Finish();
    s := new Session(graph.nodes, graph.edges, demoDrop);
    Correlator.PrimariesDistinct(graph.edges, s.corr.edges);
  }
}
