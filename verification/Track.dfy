/** Which swimlane a node of the path map belongs to. */
module Track {
  import Text
  import opened TraceGraph

  const INGRESS := "ingress"
  const EGRESS := "egress"
  const ANCHOR := "anchor"
  const SHARED := "shared"
  const CONTEXT := "context"
  const TRACKS := {INGRESS, EGRESS, ANCHOR, SHARED, CONTEXT}

  predicate EqualFold(a: string, b: string) {
    Text.ToLower(a) == Text.ToLower(b)
  }

  predicate PathMatchesNode(p: PathSummary, n: TraceNode) {
    || (p.resource != "" && EqualFold(p.resource, n.caption))
    || (p.kind != "" && EqualFold(p.kind, n.kind) && (p.namespace == "" || p.namespace == n.namespace))
  }

  /** Some edge at `id` has one of the given types. */
  predicate TouchedBy(id: string, edges: seq<TraceEdge>, types: set<string>) {
    exists e :: e in edges && (e.from == id || e.to == id) && e.edgeType in types
  }

  method EdgeDirectionFlags(id: string, edges: seq<TraceEdge>) returns (ingress: bool, egress: bool)
    ensures ingress == TouchedBy(id, edges, {"ingress"})
    ensures egress == TouchedBy(id, edges, {"egress", "egressservice"})
  {
    ingress, egress := false, false;
    for n := 0 to |edges|
      invariant ingress == TouchedBy(id, edges[..n], {"ingress"})
      invariant egress == TouchedBy(id, edges[..n], {"egress", "egressservice"})
    {
      var e := edges[n];
      assert edges[..n + 1] == edges[..n] + [e];
      if e.from == id || e.to == id {
        if e.edgeType == "ingress" {
          ingress := true;
        } else if e.edgeType == "egress" || e.edgeType == "egressservice" {
          egress := true;
        }
      }
    }
    assert edges[..|edges|] == edges;
  }

  /** A discovered path about `n` whose direction picks a track by itself. */
  predicate Decides(p: PathSummary, n: TraceNode) {
    && p.status == "discovered" && PathMatchesNode(p, n)
    && p.direction in {"ingress", "egress", "host"}
  }

  function TrackFromPath(p: PathSummary, n: TraceNode): string
    requires Decides(p, n)
  {
    if p.direction == "ingress" then INGRESS
    else if p.direction == "egress" then EGRESS
    else if n.focused then SHARED else CONTEXT
  }

  /** The kinds whose track does not depend on the edges. */
  function TrackFromKind(n: TraceNode): (t: string)
    ensures t == "" || t in TRACKS - {ANCHOR}
  {
    if n.kind in {"external-client", "loadbalancer-external", "metallb-pool", "metallb-advertisement",
                  "route", "bgp-peer"} then INGRESS
    else if n.kind in {"egressip", "egressservice", "egress-router", "external"} then EGRESS
    else if n.kind in {"node", "bond", "ovn-logical-port", "host-veth", "nad", "vrf"} then
      if n.focused then SHARED else CONTEXT
    else ""
  }

  predicate IsService(n: TraceNode) {
    n.kind in {"service-clusterip", "service-loadbalancer", "service-nodeport", "service"}
  }

  /** Neither the kind nor being an endpoint settles the track before the paths are consulted. */
  predicate Undecided(n: TraceNode) {
    && n.kind != "networkpolicy"
    && !(n.tracked && n.kind in {"pod", "external", "external-client"})
  }

  /** Path `k` is the first that decides. */
  ghost predicate FirstDecider(paths: seq<PathSummary>, n: TraceNode, k: nat) {
    && k < |paths| && Decides(paths[k], n)
    && forall m :: 0 <= m < k ==> !Decides(paths[m], n)
  }

  /** What the edges say when neither kind nor paths decide: a one-sided node follows its edges. */
  ghost function TrackFromEdges(n: TraceNode, edges: seq<TraceEdge>): string {
    var ing := TouchedBy(n.id, edges, {"ingress"});
    var egr := TouchedBy(n.id, edges, {"egress", "egressservice"});
    if ing != egr then (if ing then INGRESS else EGRESS)
    else if n.focused then (if IsService(n) then INGRESS else EGRESS)
    else if IsService(n) || !n.tracked then CONTEXT else SHARED
  }

  /** `track` is the one of the five for `n`; the anchor track holds exactly the tracked pods. */
  ghost predicate BelongsOn(n: TraceNode, edges: seq<TraceEdge>, paths: seq<PathSummary>, track: string) {
    && track in TRACKS
    && (track == ANCHOR <==> n.tracked && n.kind == "pod")
    && (n.kind == "networkpolicy" ==> track == CONTEXT)
    && (n.tracked && n.kind in {"external", "external-client"} ==> track == EGRESS)
    && (forall k: nat :: Undecided(n) && FirstDecider(paths, n, k) ==> track == TrackFromPath(paths[k], n))
    && (Undecided(n) && (forall p :: p in paths ==> !Decides(p, n)) ==>
          track == if TrackFromKind(n) != "" then TrackFromKind(n) else TrackFromEdges(n, edges))
  }

  /** Either some path is the first to decide, or none does. */
  lemma {:induction false} SomeFirst(paths: seq<PathSummary>, n: TraceNode) returns (k: nat)
    requires exists p :: p in paths && Decides(p, n)
    ensures FirstDecider(paths, n, k)
  {
    if Decides(paths[0], n) {
      k := 0;
    } else {
      assert paths == [paths[0]] + paths[1..];
      k := SomeFirst(paths[1..], n);
      k := k + 1;
      assert forall m :: 0 < m < |paths| ==> paths[m] == paths[1..][m - 1];
    }
  }

  lemma {:induction false} OneTrack(n: TraceNode, edges: seq<TraceEdge>, paths: seq<PathSummary>, t: string, u: string)
    requires BelongsOn(n, edges, paths, t) && BelongsOn(n, edges, paths, u)
    ensures t == u
  {
    if Undecided(n) && exists p :: p in paths && Decides(p, n) {
      var k := SomeFirst(paths, n);
      assert t == TrackFromPath(paths[k], n) == u;
    }
  }

  method InferPathTrack(n: TraceNode, edges: seq<TraceEdge>, paths: seq<PathSummary>) returns (track: string)
    ensures BelongsOn(n, edges, paths, track)
  {
    if n.kind == "networkpolicy" { return CONTEXT; }
    if n.tracked && n.kind == "pod" { return ANCHOR; }
    if n.tracked && (n.kind == "external" || n.kind == "external-client") { return EGRESS; }
    for k := 0 to |paths|
      invariant forall m :: 0 <= m < k ==> !Decides(paths[m], n)
    {
      var p := paths[k];
      if p.status != "discovered" || !PathMatchesNode(p, n) { continue; }
      assert p.direction in {"ingress", "egress", "host"} ==> Decides(p, n);
      if p.direction == "ingress" { return INGRESS; }
      if p.direction == "egress" { return EGRESS; }
      if p.direction == "host" { return if n.focused then SHARED else CONTEXT; }
    }
    if TrackFromKind(n) != "" { return TrackFromKind(n); }
    var ing, egr := EdgeDirectionFlags(n.id, edges);
    if ing && !egr { return INGRESS; }
    if egr && !ing { return EGRESS; }
    if IsService(n) { return if n.focused then INGRESS else CONTEXT; }
    if n.focused { return EGRESS; }
    return if !n.tracked then CONTEXT else SHARED;
  }
}
