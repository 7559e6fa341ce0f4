/** Keeps large topologies readable: the heaviest edges, and every tracked pod. */
module TopologyLimits {
  import opened Sequences
  import Sorting
  import opened Topology

  const MAX_BUILD_EVENTS := 2500
  const MAX_NODES := 100
  const MAX_EDGES := 150

  function Max(a: int, b: int): int { if a > b then a else b }
  function Min(a: int, b: int): int { if a < b then a else b }

  /** The latest `max` events. */
  function SampleEvents<T>(events: seq<T>, max: int): (r: seq<T>)
    ensures |r| == if max > 0 then Min(|events|, max) else |events|
    ensures r == events[|events| - |r|..]
  {
    if max <= 0 || |events| <= max then events else events[|events| - max..]
  }

  // ---- Ranking -----------------------------------------------------------------------------

  /** `e` carries more than `f`: more bytes, or as many and more packets. */
  predicate Outranks(e: Edge, f: Edge) {
    if e.bytes == f.bytes then e.packets > f.packets else e.bytes > f.bytes
  }

  /** The `max` largest of the edges, in descending order. */
  ghost predicate TopOf(edges: seq<Edge>, max: nat, top: seq<Edge>) {
    && multiset(top) <= multiset(edges)
    && |top| == Min(|edges|, max)
    && (forall e, f :: e in multiset(edges) - multiset(top) && f in top ==> AtMost(e, f))
    && Descending(top)
  }

  /** No more bytes, and with as many bytes no more packets. */
  ghost predicate AtMost(e: Edge, f: Edge) {
    e.bytes < f.bytes || (e.bytes == f.bytes && e.packets <= f.packets)
  }

  method TopEdges(edges: seq<Edge>, max: nat) returns (top: seq<Edge>)
    ensures TopOf(edges, max, top)
  {
    var sorted := Sorting.SortSlice((e: Edge, f: Edge) => Outranks(e, f), edges);
    SameMembers(edges, sorted);
    SortedDescends(sorted);
    top := sorted;
    if |top| > max {
      top := top[..max];
    }
    FrontOfSorted(edges, sorted, |top|);
  }

  ghost predicate Descending(s: seq<Edge>) {
    forall i, j :: 0 <= i < j < |s| ==> AtMost(s[j], s[i])
  }

  lemma SortedDescends(s: seq<Edge>)
    requires Sorting.SortedBy((e: Edge, f: Edge) => Outranks(e, f), s)
    ensures Descending(s)
  {
    forall i, j | 0 <= i < j < |s|
      ensures AtMost(s[j], s[i])
    {
      assert !Outranks(s[j], s[i]);
    }
  }

  lemma FrontOfSorted(edges: seq<Edge>, sorted: seq<Edge>, n: nat)
    requires multiset(sorted) == multiset(edges) && n <= |sorted| && Descending(sorted)
    ensures multiset(sorted[..n]) <= multiset(edges) && Descending(sorted[..n])
    ensures forall e, f :: e in multiset(edges) - multiset(sorted[..n]) && f in sorted[..n] ==> AtMost(e, f)
  {
    var top, cut := sorted[..n], sorted[n..];
    assert sorted == top + cut;
    assert multiset(edges) - multiset(top) == multiset(cut);
    forall e, f | e in multiset(cut) && f in top
      ensures AtMost(e, f)
    {
      AcrossTheCut(sorted, n, e, f);
    }
  }

  lemma AcrossTheCut(sorted: seq<Edge>, n: nat, e: Edge, f: Edge)
    requires n <= |sorted| && Descending(sorted) && e in sorted[n..] && f in sorted[..n]
    ensures AtMost(e, f)
  {
    var i :| 0 <= i < |sorted| - n && sorted[n..][i] == e;
    var j :| 0 <= j < n && sorted[..n][j] == f;
    assert sorted[n + i] == e && sorted[j] == f;
  }

  /** The bytes of the edges at a node; a loop counts at both of its ends. */
  ghost function BytesAt(edges: seq<Edge>, id: string): nat {
    if edges == [] then 0
    else
      var e := edges[|edges| - 1];
      BytesAt(edges[..|edges| - 1], id) + (if e.from == id then e.bytes else 0) + (if e.to == id then e.bytes else 0)
  }

  function Lookup(m: map<string, nat>, id: string): nat { if id in m then m[id] else 0 }

  method BytesByNode(edges: seq<Edge>) returns (m: map<string, nat>)
    ensures forall id :: Lookup(m, id) == BytesAt(edges, id)
  {
    m := map[];
    for i := 0 to |edges|
      invariant forall id :: Lookup(m, id) == BytesAt(edges[..i], id)
    {
      var e := edges[i];
      assert edges[..i + 1][..i] == edges[..i];
      m := m[e.from := Lookup(m, e.from) + e.bytes];
      m := m[e.to := Lookup(m, e.to) + e.bytes];
    }
    assert edges[..|edges|] == edges;
  }

  datatype NodeScore = NodeScore(id: string, bytes: nat)

  function ScoreIDs(scores: seq<NodeScore>): set<string> {
    set s | s in scores :: s.id
  }

  lemma ScoreIDsGrow(scores: seq<NodeScore>, s: NodeScore)
    ensures ScoreIDs(scores + [s]) == ScoreIDs(scores) + {s.id}
  {
    assert forall t :: t in scores + [s] <==> t in scores || t == s;
  }

  /** The untracked candidates with their bytes, heaviest first. */
  method RankNodes(ids: set<string>, tracked: set<string>, bytes: map<string, nat>) returns (scores: seq<NodeScore>)
    ensures forall i, j :: 0 <= i < j < |scores| ==> scores[i].bytes >= scores[j].bytes && scores[i].id != scores[j].id
    ensures forall s :: s in scores ==> s.id in ids - tracked && s.bytes == Lookup(bytes, s.id)
    ensures ScoreIDs(scores) == ids - tracked
  {
    var out: seq<NodeScore> := [];
    var pending := ids;
    while pending != {}
      invariant pending <= ids
      invariant forall i, j :: 0 <= i < j < |out| ==> out[i].id != out[j].id
      invariant forall s :: s in out ==> s.id in ids - tracked && s.id !in pending && s.bytes == Lookup(bytes, s.id)
      invariant ScoreIDs(out) == ids - pending - tracked
      decreases pending
    {
      var id :| id in pending;
      pending := pending - {id};
      if id in tracked { continue; }
      var s := NodeScore(id, Lookup(bytes, id));
      assert forall i :: 0 <= i < |out| ==> out[i] in out;
      ScoreIDsGrow(out, s);
      out := out + [s];
    }
    scores := Sorting.SortSlice((a: NodeScore, b: NodeScore) => a.bytes > b.bytes, out);
    SameMembers(out, scores);
    PermutedKeys(out, scores, (s: NodeScore) => s.id);
    assert ScoreIDs(scores) == ScoreIDs(out);
  }

  // ---- Which nodes stay -----------------------------------------------------------------------------

  function Ends(edges: seq<Edge>): set<string> {
    (set e | e in edges :: e.from) + (set e | e in edges :: e.to)
  }

  /**
   Within the limit everything wanted stays. Beyond it the tracked pods stay, and of the
   others as many as the budget allows, none lighter than one that is dropped.
   */
  ghost predicate Budgeted(top: seq<Edge>, tracked: set<string>, maxNodes: nat, keep: set<string>) {
    var wanted := tracked + Ends(top);
    if |wanted| <= maxNodes then keep == wanted
    else
      && tracked <= keep <= wanted
      && |keep - tracked| == Min(|wanted - tracked|, Max(maxNodes - |tracked|, 0))
      && forall a, b :: a in wanted - keep && b in keep - tracked ==> BytesAt(top, a) <= BytesAt(top, b)
  }

  lemma {:induction false} DistinctIDsCount(scores: seq<NodeScore>)
    requires forall i, j :: 0 <= i < j < |scores| ==> scores[i].id != scores[j].id
    ensures |ScoreIDs(scores)| == |scores|
  {
    if scores == [] {
      assert ScoreIDs(scores) == {};
    } else {
      var front, last := scores[..|scores| - 1], scores[|scores| - 1];
      DistinctIDsCount(front);
      assert scores == front + [last];
      ScoreIDsGrow(front, last);
      assert last.id !in ScoreIDs(front);
    }
  }

  /** Admits the heaviest candidates while the budget lasts. */
  method Admit(scores: seq<NodeScore>, tracked: set<string>, budget: nat) returns (allowed: set<string>)
    ensures allowed == tracked + ScoreIDs(scores[..Min(|scores|, budget)])
  {
    allowed := tracked;
    var i := 0;
    while i < |scores| && i < budget
      invariant 0 <= i <= Min(|scores|, budget)
      invariant allowed == tracked + ScoreIDs(scores[..i])
    {
      assert scores[..i + 1] == scores[..i] + [scores[i]];
      ScoreIDsGrow(scores[..i], scores[i]);
      allowed := allowed + {scores[i].id};
      i := i + 1;
    }
  }

  method SelectNodes(top: seq<Edge>, tracked: set<string>, maxNodes: nat) returns (keep: set<string>)
    ensures Budgeted(top, tracked, maxNodes, keep)
    ensures |keep| <= Max(maxNodes, |tracked|)
  {
    var wanted := tracked + Ends(top);
    if |wanted| <= maxNodes { return wanted; }
    var bytes := BytesByNode(top);
    var scores := RankNodes(wanted, tracked, bytes);
    var budget: nat := Max(maxNodes - |tracked|, 0);
    keep := Admit(scores, tracked, budget);
    Selected(top, tracked, wanted, scores, Min(|scores|, budget));
  }

  lemma Selected(top: seq<Edge>, tracked: set<string>, wanted: set<string>, scores: seq<NodeScore>, n: nat)
    requires n <= |scores| && tracked <= wanted
    requires forall i, j :: 0 <= i < j < |scores| ==> scores[i].bytes >= scores[j].bytes && scores[i].id != scores[j].id
    requires forall s :: s in scores ==> s.id in wanted - tracked && s.bytes == BytesAt(top, s.id)
    requires ScoreIDs(scores) == wanted - tracked
    ensures var keep := tracked + ScoreIDs(scores[..n]);
      && tracked <= keep <= wanted && |keep - tracked| == n && |keep| == |tracked| + n && |scores| == |wanted - tracked|
      && forall a, b :: a in wanted - keep && b in keep - tracked ==> BytesAt(top, a) <= BytesAt(top, b)
  {
    var chosen := ScoreIDs(scores[..n]);
    var keep := tracked + chosen;
    DistinctIDsCount(scores);
    DistinctIDsCount(scores[..n]);
    assert forall s :: s in scores[..n] ==> s in scores;
    assert keep - tracked == chosen;
    forall a, b | a in wanted - keep && b in keep - tracked
      ensures BytesAt(top, a) <= BytesAt(top, b)
    {
      LighterThanChosen(top, scores, n, a, b);
    }
  }

  lemma LighterThanChosen(top: seq<Edge>, scores: seq<NodeScore>, n: nat, a: string, b: string)
    requires n <= |scores| && a in ScoreIDs(scores) && a !in ScoreIDs(scores[..n]) && b in ScoreIDs(scores[..n])
    requires forall i, j :: 0 <= i < j < |scores| ==> scores[i].bytes >= scores[j].bytes
    requires forall s :: s in scores ==> s.bytes == BytesAt(top, s.id)
    ensures BytesAt(top, a) <= BytesAt(top, b)
  {
    var i :| 0 <= i < |scores| && scores[i].id == a;
    var j :| 0 <= j < n && scores[..n][j].id == b;
    assert forall k :: 0 <= k < n ==> scores[k] in scores[..n];
    assert scores[j] in scores && scores[i] in scores;
    assert scores[j] == scores[..n][j];
  }

  // ---- The limiter ------------------------------------------------------------------------------------

  datatype FlowTopology<D> = FlowTopology(nodes: seq<Node>, edges: seq<Edge>, edgeDetail: map<string, D>)

  ghost predicate WellFormed<D>(t: FlowTopology<D>) {
    DistinctIDs(t.nodes) && forall e :: e in t.edges ==> e.from in NodeIDs(t.nodes) && e.to in NodeIDs(t.nodes)
  }

  method NodesByID(nodes: seq<Node>) returns (m: map<string, Node>)
    ensures m.Keys == NodeIDs(nodes) && forall id :: id in m ==> m[id].id == id && m[id] in nodes
  {
    m := map[];
    for i := 0 to |nodes|
      invariant m.Keys == NodeIDs(nodes[..i]) && forall id :: id in m ==> m[id].id == id && m[id] in nodes
    {
      assert nodes[..i + 1] == nodes[..i] + [nodes[i]];
      assert forall n :: n in nodes[..i + 1] <==> n in nodes[..i] || n == nodes[i];
      m := m[nodes[i].id := nodes[i]];
    }
    assert nodes[..|nodes|] == nodes;
  }

  function EdgeIDs(edges: seq<Edge>): set<string> {
    set e | e in edges :: e.id
  }

  lemma EdgeIDsGrow(edges: seq<Edge>, e: Edge)
    ensures EdgeIDs(edges + [e]) == EdgeIDs(edges) + {e.id}
  {
    assert forall f :: f in edges + [e] <==> f in edges || f == e;
  }

  method FilterEdges<D>(edges: seq<Edge>, keep: set<string>, detail: map<string, D>)
    returns (r: seq<Edge>, d: map<string, D>)
    ensures r == Filter(edges, (e: Edge) => e.from in keep && e.to in keep)
    ensures d.Keys == EdgeIDs(r) * detail.Keys && forall id :: id in d ==> d[id] == detail[id]
  {
    ghost var p := (e: Edge) => e.from in keep && e.to in keep;
    r, d := [], map[];
    for i := 0 to |edges|
      invariant r == Filter(edges[..i], p)
      invariant d.Keys == EdgeIDs(r) * detail.Keys && forall id :: id in d ==> d[id] == detail[id]
    {
      FilterOneMore(edges, i, p);
      var e := edges[i];
      if e.from !in keep { continue; }
      if e.to !in keep { continue; }
      DetailsGrow(r, e, d, detail);
      r := r + [e];
      if e.id in detail {
        d := d[e.id := detail[e.id]];
      }
    }
    assert edges[..|edges|] == edges;
  }

  /** What the limiter returns for an oversized graph, given the edges it truncated to and the nodes it selected. */
  ghost predicate Limited<D>(t: FlowTopology<D>, r: FlowTopology<D>, top: seq<Edge>, keep: set<string>) {
    && r.edges == Filter(top, (e: Edge) => e.from in keep && e.to in keep)
    && NodeIDs(r.nodes) == keep * NodeIDs(t.nodes) && DistinctIDs(r.nodes)
    && (forall n :: n in r.nodes ==> n in t.nodes)
    && (forall i, j :: 0 <= i < j < |r.nodes| ==> !Text.Less(r.nodes[j].id, r.nodes[i].id))
    && r.edgeDetail.Keys == EdgeIDs(r.edges) * t.edgeDetail.Keys
    && (forall id :: id in r.edgeDetail ==> r.edgeDetail[id] == t.edgeDetail[id])
  }

  /**
   An oversized topology cut down: the edges are truncated so that none cut outranks one that
   survives; the nodes are the tracked ones and the heaviest ends of those edges within the
   limit; an edge stays when both its ends do.
   */
  ghost predicate IsCutDown<D>(t: FlowTopology<D>, r: FlowTopology<D>, tracked: set<string>, n: nat, m: nat) {
    exists top, keep ::
      && TopOf(t.edges, m, top) && Budgeted(top, tracked, n, keep)
      && |keep| <= Max(n, |tracked|) && Limited(t, r, top, keep)
  }

  /** Cuts a large topology down. One within the limits is returned unchanged. */
  method LimitFlowTopology<D>(t: FlowTopology<D>, tracked: set<string>, maxNodes: int, maxEdges: int)
    returns (r: FlowTopology<D>, capped: bool)
    ensures var n := if maxNodes <= 0 then MAX_NODES else maxNodes;
      var m := if maxEdges <= 0 then MAX_EDGES else maxEdges;
      && capped == (|t.nodes| > n || |t.edges| > m)
      && (if capped then IsCutDown(t, r, tracked, n, m) else r == t)
      && |r.edges| <= m && |r.nodes| <= Max(n, |tracked|)
    ensures tracked * NodeIDs(t.nodes) <= NodeIDs(r.nodes)
    ensures WellFormed(t) ==> WellFormed(r)
    ensures forall e :: e in r.edges ==> e in t.edges
  {
    var n := if maxNodes <= 0 then MAX_NODES else maxNodes;
    var m := if maxEdges <= 0 then MAX_EDGES else maxEdges;
    capped := |t.nodes| > n || |t.edges| > m;
    if !capped { return t, false; }
    r := CutDown(t, tracked, n, m);
    CutDownFacts(t, r, tracked, n, m);
  }

  method CutDown<D>(t: FlowTopology<D>, tracked: set<string>, n: nat, m: nat) returns (r: FlowTopology<D>)
    ensures IsCutDown(t, r, tracked, n, m)
  {
    var nodeByID := NodesByID(t.nodes);
    var edges := TopEdges(t.edges, m);
    var keepNodes := SelectNodes(edges, tracked, n);
    var filtered, detail := FilterEdges(edges, keepNodes, t.edgeDetail);
    var present := map id | id in keepNodes && id in nodeByID :: nodeByID[id];
    var nodes := SortedNodes(present);
    r := FlowTopology(nodes, filtered, detail);
    assert present.Keys == keepNodes * NodeIDs(t.nodes);
    assert Limited(t, r, edges, keepNodes);
  }

  /** The limits hold, tracked nodes stay, and the result is well-formed again. */
  lemma CutDownFacts<D>(t: FlowTopology<D>, r: FlowTopology<D>, tracked: set<string>, n: nat, m: nat)
    requires IsCutDown(t, r, tracked, n, m)
    ensures |r.edges| <= m && |r.nodes| <= Max(n, |tracked|)
    ensures tracked * NodeIDs(t.nodes) <= NodeIDs(r.nodes)
    ensures forall e :: e in r.edges ==> e in t.edges
    ensures WellFormed(t) ==> WellFormed(r)
  {
    var top, keep :|
      && TopOf(t.edges, m, top) && Budgeted(top, tracked, n, keep)
      && |keep| <= Max(n, |tracked|) && Limited(t, r, top, keep);
    LimitedFacts(t, r, top, tracked, n, keep);
  }

  lemma LimitedFacts<D>(t: FlowTopology<D>, r: FlowTopology<D>, top: seq<Edge>, tracked: set<string>, n: nat,
                        keep: set<string>)
    requires multiset(top) <= multiset(t.edges)
    requires Budgeted(top, tracked, n, keep) && Limited(t, r, top, keep) && |keep| <= Max(n, |tracked|)
    ensures |r.edges| <= |top| && |r.nodes| <= Max(n, |tracked|)
    ensures tracked * NodeIDs(t.nodes) <= NodeIDs(r.nodes)
    ensures forall e :: e in r.edges ==> e in t.edges
    ensures WellFormed(t) ==> WellFormed(r)
  {
    FilterMembers(top, (e: Edge) => e.from in keep && e.to in keep);
    forall e | e in top
      ensures e in t.edges
    {
      assert e in multiset(top) && e in multiset(t.edges);
    }
    DistinctNodesCount(r.nodes);
    SubsetSize(NodeIDs(r.nodes), keep);
  }

  lemma {:induction false} DistinctNodesCount(nodes: seq<Node>)
    requires DistinctIDs(nodes)
    ensures |NodeIDs(nodes)| == |nodes|
  {
    if nodes == [] {
      assert NodeIDs(nodes) == {};
    } else {
      var front, last := nodes[..|nodes| - 1], nodes[|nodes| - 1];
      DistinctNodesCount(front);
      assert nodes == front + [last];
      assert NodeIDs(nodes) == NodeIDs(front) + {last.id};
      assert last.id !in NodeIDs(front);
    }
  }

  lemma SubsetSize<T>(a: set<T>, b: set<T>)
    requires a <= b
    ensures |a| <= |b|
  {
    assert b == a + (b - a);
  }

  // ---- The bounded topology ----------------------------------------------------------------------------

  predicate Touches(e: Edge, tracked: set<string>) { e.from in tracked || e.to in tracked }

  /** The edges at a tracked pod with their details, and the nodes at their ends. */
  ghost predicate IsSelection<D>(t: FlowTopology<D>, tracked: set<string>, r: FlowTopology<D>) {
    if tracked == {} then r == t
    else
      && r.edges == Filter(t.edges, (e: Edge) => Touches(e, tracked))
      && NodeIDs(r.nodes) == Ends(r.edges) * NodeIDs(t.nodes) && (forall n :: n in r.nodes ==> n in t.nodes)
      && r.edgeDetail.Keys == EdgeIDs(r.edges) * t.edgeDetail.Keys
      && forall id :: id in r.edgeDetail ==> r.edgeDetail[id] == t.edgeDetail[id]
  }

  /** Only the edges at a tracked pod, and their ends. Without tracked pods nothing is left out. */
  method FilterTopologyToSelection<D>(t: FlowTopology<D>, tracked: set<string>) returns (r: FlowTopology<D>)
    ensures IsSelection(t, tracked, r)
    ensures forall e :: e in r.edges ==> e in t.edges && (tracked == {} || Touches(e, tracked))
    ensures WellFormed(t) ==> WellFormed(r)
  {
    if |tracked| == 0 { return t; }
    var edges, nodeKeep, detail := SelectEdges(t, tracked);
    FilterMembers(t.edges, (e: Edge) => Touches(e, tracked));
    var nodes := FilterNodes(t.nodes, nodeKeep);
    r := FlowTopology(nodes, edges, detail);
  }

  /** The details of the edges so far, and of one more. */
  lemma DetailsGrow<D>(edges: seq<Edge>, e: Edge, detail: map<string, D>, all: map<string, D>)
    requires detail.Keys == EdgeIDs(edges) * all.Keys && forall id :: id in detail ==> detail[id] == all[id]
    ensures var d := if e.id in all then detail[e.id := all[e.id]] else detail;
      d.Keys == EdgeIDs(edges + [e]) * all.Keys && forall id :: id in d ==> d[id] == all[id]
  {
    EdgeIDsGrow(edges, e);
  }

  method SelectEdges<D>(t: FlowTopology<D>, tracked: set<string>)
    returns (edges: seq<Edge>, nodeKeep: set<string>, detail: map<string, D>)
    ensures edges == Filter(t.edges, (e: Edge) => Touches(e, tracked)) && nodeKeep == Ends(edges)
    ensures detail.Keys == EdgeIDs(edges) * t.edgeDetail.Keys
    ensures forall id :: id in detail ==> detail[id] == t.edgeDetail[id]
  {
    ghost var p := (e: Edge) => Touches(e, tracked);
    edges, nodeKeep, detail := [], {}, map[];
    for i := 0 to |t.edges|
      invariant edges == Filter(t.edges[..i], p) && nodeKeep == Ends(edges)
      invariant detail.Keys == EdgeIDs(edges) * t.edgeDetail.Keys
      invariant forall id :: id in detail ==> detail[id] == t.edgeDetail[id]
    {
      FilterOneMore(t.edges, i, p);
      var e := t.edges[i];
      if e.from in tracked || e.to in tracked {
        DetailsGrow(edges, e, detail, t.edgeDetail);
        EndsGrow(edges, e);
        edges := edges + [e];
        nodeKeep := nodeKeep + {e.from} + {e.to};
        if e.id in t.edgeDetail {
          detail := detail[e.id := t.edgeDetail[e.id]];
        }
      }
    }
    assert t.edges[..|t.edges|] == t.edges;
  }

  lemma EndsGrow(edges: seq<Edge>, e: Edge)
    ensures Ends(edges + [e]) == Ends(edges) + {e.from} + {e.to}
  {
    assert forall f :: f in edges + [e] <==> f in edges || f == e;
  }

  method FilterNodes(nodes: seq<Node>, keep: set<string>) returns (r: seq<Node>)
    ensures NodeIDs(r) == keep * NodeIDs(nodes) && (DistinctIDs(nodes) ==> DistinctIDs(r))
    ensures forall n :: n in r ==> n in nodes
  {
    r := [];
    for i := 0 to |nodes|
      invariant forall n :: n in r <==> n in nodes[..i] && n.id in keep
      invariant DistinctIDs(nodes) ==> DistinctIDs(r)
    {
      assert nodes[..i + 1] == nodes[..i] + [nodes[i]];
      assert forall j :: 0 <= j < |r| ==> r[j] in r;
      if nodes[i].id in keep {
        r := r + [nodes[i]];
      }
    }
    assert nodes[..|nodes|] == nodes;
  }

  /** The whole topology of the events. */
  ghost predicate IsTopology(t: FlowTopology<()>, events: seq<Flow>) {
    && EdgesOf(t.edges, events) && SortedByID(t.edges)
    && NodeIDs(t.nodes) == Endpoints(events) && WellFormed(t)
  }

  /** The selection from the whole topology of the latest events, cut down if it is too large. */
  ghost predicate IsBounded(r: FlowTopology<()>, capped: bool, flows: seq<Flow>, tracked: set<string>) {
    exists full, t :: IsTopology(full, SampleEvents(flows, MAX_BUILD_EVENTS)) && IsSelection(full, tracked, t)
                      && (if capped then IsCutDown(t, r, tracked, MAX_NODES, MAX_EDGES) else r == t)
  }

  /**
   The topology shown to the user: at most 150 edges, each the exact sum of its events among
   the latest 2500 and each at a tracked pod if there are any, over at most 100 nodes (or as
   many as are tracked), with every tracked pod that has any events.
   */
  method BuildBoundedTopology(flows: seq<Flow>, tracked: set<string>) returns (r: FlowTopology<()>, capped: bool)
    ensures IsBounded(r, capped, flows, tracked)
    ensures |r.edges| <= MAX_EDGES && |r.nodes| <= Max(MAX_NODES, |tracked|)
    ensures WellFormed(r)
    ensures forall e :: e in r.edges ==>
              EdgeOf(e, SampleEvents(flows, MAX_BUILD_EVENTS)) && (tracked == {} || Touches(e, tracked))
    ensures tracked * Endpoints(SampleEvents(flows, MAX_BUILD_EVENTS)) <= NodeIDs(r.nodes)
  {
    var events := SampleEvents(flows, MAX_BUILD_EVENTS);
    var full := WholeTopology(events);
    var t := full;
    if |tracked| > 0 {
      t := FilterTopologyToSelection(full, tracked);
    }
    assert IsSelection(full, tracked, t);
    TrackedStay(full, events, tracked, t);
    r, capped := LimitFlowTopology(t, tracked, MAX_NODES, MAX_EDGES);
  }

  method WholeTopology(events: seq<Flow>) returns (t: FlowTopology<()>)
    ensures IsTopology(t, events)
  {
    var nodes, edges := BuildFlowTopology(events);
    t := FlowTopology(nodes, edges, map[]);
  }

  /** A tracked pod with any event is at the end of an edge, which touches it. */
  lemma TrackedStay(full: FlowTopology<()>, events: seq<Flow>, tracked: set<string>, t: FlowTopology<()>)
    requires IsTopology(full, events) && IsSelection(full, tracked, t)
    ensures tracked * Endpoints(events) <= NodeIDs(t.nodes)
  {
    FilterMembers(full.edges, (e: Edge) => Touches(e, tracked));
    forall id | id in tracked * Endpoints(events)
      ensures id in NodeIDs(t.nodes)
    {
      var f :| f in events && f.Resolved() && (id == f.from.id || id == f.to.id);
      PairsAreBetween(events, f.Pair());
      assert f.Pair() in Pairs(events) && f.Pair() in EdgePairs(full.edges);
      var e :| e in full.edges && (e.from, e.to) == f.Pair();
      assert Touches(e, tracked);
      assert e in t.edges && id in Ends(t.edges);
    }
  }
}
