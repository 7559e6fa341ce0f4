/** Aggregates capture events into a graph of workloads; the two aggregators agree. */
module Topology {
  import opened Sequences
  import Sorting
  import Text

  datatype Node = Node(id: string, caption: string, kind: string, namespace: string)

  /**
   A capture event once its endpoints are resolved and its frame summarised. An unresolved
   endpoint has an empty id. `frameLen` is the length of the Ethernet payload.
   */
  datatype Flow = Flow(from: Node, to: Node, proto: string, srcPort: nat, dstPort: nat,
                       metaBytes: int, metaPackets: int, frameLen: nat, rttNs: int) {
    predicate Resolved() { from.id != "" && to.id != "" }
    function Pair(): (string, string) { (from.id, to.id) }
    function Bytes(): nat { if metaBytes > 0 then metaBytes else frameLen }
    function Packets(): nat { if metaPackets > 0 then metaPackets else 1 }
  }

  datatype Edge = Edge(id: string, from: string, to: string, proto: string, srcPort: nat, dstPort: nat,
                       count: nat, bytes: nat, packets: nat, srttNs: nat, maxSrttNs: nat)

  function EdgeID(from: string, to: string): string { from + "->" + to }

  /** The byte counter of the metadata, or else the frame's length; the packet counter, or else 1. */
  method FlowCounters(metaBytes: int, metaPackets: int, frameLen: nat) returns (bytes: nat, packets: nat)
    ensures bytes == (if metaBytes > 0 then metaBytes else frameLen)
    ensures packets == (if metaPackets > 0 then metaPackets else 1) && packets >= 1
  {
    bytes, packets := 0, 0;
    if metaBytes > 0 {
      bytes := metaBytes;
    }
    if metaPackets > 0 {
      packets := metaPackets;
    }
    if packets == 0 {
      packets := 1;
    }
    if bytes == 0 {
      if frameLen > 0 {
        bytes := frameLen;
      }
    }
  }

  // ---- What an edge should hold ------------------------------------------------------------

  /** The events from one endpoint to the other, in order. */
  ghost function Between(flows: seq<Flow>, k: (string, string)): seq<Flow> {
    Filter(flows, (f: Flow) => f.Resolved() && f.Pair() == k)
  }

  ghost function Resolvable(flows: seq<Flow>): seq<Flow> {
    Filter(flows, (f: Flow) => f.Resolved())
  }

  ghost function TotalBytes(flows: seq<Flow>): nat {
    if flows == [] then 0 else TotalBytes(flows[..|flows| - 1]) + flows[|flows| - 1].Bytes()
  }

  ghost function TotalPackets(flows: seq<Flow>): nat {
    if flows == [] then 0 else TotalPackets(flows[..|flows| - 1]) + flows[|flows| - 1].Packets()
  }

  /** The sum and the number of the round-trip times that were measured. */
  ghost function RTTSum(flows: seq<Flow>): nat {
    if flows == [] then 0
    else RTTSum(flows[..|flows| - 1]) + if flows[|flows| - 1].rttNs > 0 then flows[|flows| - 1].rttNs else 0
  }

  ghost function RTTCount(flows: seq<Flow>): nat {
    if flows == [] then 0
    else RTTCount(flows[..|flows| - 1]) + if flows[|flows| - 1].rttNs > 0 then 1 else 0
  }

  /** The largest round-trip time that was measured, or 0. */
  ghost function RTTMax(flows: seq<Flow>): nat {
    if flows == [] then 0
    else
      var m := RTTMax(flows[..|flows| - 1]);
      if flows[|flows| - 1].rttNs > m then flows[|flows| - 1].rttNs else m
  }

  /** The last protocol and the last ports that an event names. */
  ghost function LastProto(flows: seq<Flow>): string {
    if flows == [] then ""
    else
      var f := flows[|flows| - 1];
      if f.proto != "" then f.proto else LastProto(flows[..|flows| - 1])
  }

  ghost function LastSrcPort(flows: seq<Flow>): nat {
    if flows == [] then 0
    else
      var f := flows[|flows| - 1];
      if f.srcPort > 0 then f.srcPort else LastSrcPort(flows[..|flows| - 1])
  }

  ghost function LastDstPort(flows: seq<Flow>): nat {
    if flows == [] then 0
    else
      var f := flows[|flows| - 1];
      if f.dstPort > 0 then f.dstPort else LastDstPort(flows[..|flows| - 1])
  }

  /** The edge names what the last events that name anything name. */
  ghost predicate NamesLast(e: Edge, b: seq<Flow>) {
    e.proto == LastProto(b) && e.srcPort == LastSrcPort(b) && e.dstPort == LastDstPort(b)
  }

  /** A running aggregate of the events of one pair. */
  datatype EdgeAcc = EdgeAcc(edge: Edge, srttSum: nat, srttN: nat)

  /** The aggregate of exactly these events, all of the pair `k`. */
  ghost predicate Aggregates(acc: EdgeAcc, b: seq<Flow>, k: (string, string)) {
    && acc.edge.from == k.0 && acc.edge.to == k.1 && acc.edge.id == EdgeID(k.0, k.1)
    && acc.edge.count == |b| && acc.edge.bytes == TotalBytes(b) && acc.edge.packets == TotalPackets(b)
    && acc.srttSum == RTTSum(b) && acc.srttN == RTTCount(b) && acc.edge.maxSrttNs == RTTMax(b) && acc.edge.srttNs == 0
    && NamesLast(acc.edge, b)
  }

  /** `r` is `acc` with one event added. */
  ghost predicate Adds(acc: EdgeAcc, f: Flow, r: EdgeAcc) {
    && r.edge.from == acc.edge.from && r.edge.to == acc.edge.to && r.edge.id == acc.edge.id
    && r.edge.srttNs == acc.edge.srttNs
    && r.edge.count == acc.edge.count + 1
    && r.edge.bytes == acc.edge.bytes + f.Bytes() && r.edge.packets == acc.edge.packets + f.Packets()
    && r.srttSum == acc.srttSum + (if f.rttNs > 0 then f.rttNs else 0)
    && r.srttN == acc.srttN + (if f.rttNs > 0 then 1 else 0)
    && r.edge.maxSrttNs == (if f.rttNs > acc.edge.maxSrttNs then f.rttNs else acc.edge.maxSrttNs)
    && r.edge.proto == (if f.proto != "" then f.proto else acc.edge.proto)
    && r.edge.srcPort == (if f.srcPort > 0 then f.srcPort else acc.edge.srcPort)
    && r.edge.dstPort == (if f.dstPort > 0 then f.dstPort else acc.edge.dstPort)
  }

  method AddFlow(acc: EdgeAcc, f: Flow) returns (r: EdgeAcc)
    ensures Adds(acc, f, r)
  {
    var e := acc.edge;
    e := e.(count := e.count + 1);
    if f.proto != "" {
      e := e.(proto := f.proto);
    }
    if f.srcPort > 0 {
      e := e.(srcPort := f.srcPort);
    }
    if f.dstPort > 0 {
      e := e.(dstPort := f.dstPort);
    }
    var bytes, packets := FlowCounters(f.metaBytes, f.metaPackets, f.frameLen);
    e := e.(bytes := e.bytes + bytes, packets := e.packets + packets);
    r := acc.(edge := e);
    if f.rttNs > 0 {
      r := r.(srttSum := r.srttSum + f.rttNs, srttN := r.srttN + 1);
      if f.rttNs > r.edge.maxSrttNs {
        r := r.(edge := r.edge.(maxSrttNs := f.rttNs));
      }
    }
  }

  lemma {:induction false} AddedFlow(acc: EdgeAcc, r: EdgeAcc, b: seq<Flow>, f: Flow, k: (string, string))
    requires Aggregates(acc, b, k)
    requires Adds(acc, f, r)
    ensures Aggregates(r, b + [f], k)
  {
    assert (b + [f])[..|b|] == b;
  }

  lemma BetweenGrows(flows: seq<Flow>, f: Flow, k: (string, string))
    ensures Between(flows + [f], k) ==
            if f.Resolved() && f.Pair() == k then Between(flows, k) + [f] else Between(flows, k)
  {
    assert (flows + [f])[..|flows|] == flows;
  }

  /** No edge's mean round-trip time exceeds its largest. */
  lemma {:induction false} MeanIsAtMostMax(b: seq<Flow>, m: nat)
    requires RTTMax(b) <= m
    ensures RTTSum(b) <= m * RTTCount(b)
  {
    if b != [] {
      var front := b[..|b| - 1];
      MeanIsAtMostMax(front, m);
      assert m * (RTTCount(front) + 1) == m * RTTCount(front) + m;
    }
  }

  // ---- The table of aggregates ---------------------------------------------------------------

  type Table = map<(string, string), EdgeAcc>

  ghost function Pairs(flows: seq<Flow>): set<(string, string)> {
    set f | f in flows && f.Resolved() :: f.Pair()
  }

  ghost predicate Tabulates(t: Table, flows: seq<Flow>) {
    && (forall k :: k in t <==> Between(flows, k) != [])
    && forall k :: k in t ==> Aggregates(t[k], Between(flows, k), k)
  }

  lemma {:induction false} PairsAreBetween(flows: seq<Flow>, k: (string, string))
    ensures k in Pairs(flows) <==> Between(flows, k) != []
  {
    FilterMembers(flows, (f: Flow) => f.Resolved() && f.Pair() == k);
    if k in Pairs(flows) {
      var f :| f in flows && f.Resolved() && f.Pair() == k;
      assert f in Between(flows, k);
    }
    if Between(flows, k) != [] {
      assert Between(flows, k)[0] in Between(flows, k);
    }
  }

  lemma TableGrows(t: Table, flows: seq<Flow>, f: Flow, r: EdgeAcc)
    requires Tabulates(t, flows) && f.Resolved() && Aggregates(r, Between(flows, f.Pair()) + [f], f.Pair())
    ensures Tabulates(t[f.Pair() := r], flows + [f])
  {
    forall k {
      BetweenGrows(flows, f, k);
    }
  }

  lemma TableStays(t: Table, flows: seq<Flow>, f: Flow)
    requires Tabulates(t, flows) && !f.Resolved()
    ensures Tabulates(t, flows + [f])
  {
    forall k {
      BetweenGrows(flows, f, k);
    }
  }

  // ---- The first aggregator --------------------------------------------------------------------

  /** The ids of the endpoints. */
  ghost function Endpoints(flows: seq<Flow>): set<string> {
    (set f | f in flows && f.Resolved() :: f.from.id) + (set f | f in flows && f.Resolved() :: f.to.id)
  }

  /** The record of an endpoint in the last event that names it; the receiver's counts when both ends have the id. */
  ghost function LastNamed(flows: seq<Flow>, id: string): (n: Node)
    ensures id in Endpoints(flows) ==> n.id == id
  {
    if flows == [] then Node(id, "", "", "")
    else
      var f := flows[|flows| - 1];
      assert flows == flows[..|flows| - 1] + [f];
      if f.Resolved() && f.to.id == id then f.to
      else if f.Resolved() && f.from.id == id then f.from
      else LastNamed(flows[..|flows| - 1], id)
  }

  /** The endpoints' ids, each with the record of the last event that names it. */
  ghost predicate NodesSeen(nodeMap: map<string, Node>, flows: seq<Flow>) {
    nodeMap.Keys == Endpoints(flows) && forall id :: id in nodeMap ==> nodeMap[id] == LastNamed(flows, id)
  }

  lemma NamedOneMore(flows: seq<Flow>, f: Flow, id: string)
    ensures LastNamed(flows + [f], id) ==
            if f.Resolved() && f.to.id == id then f.to
            else if f.Resolved() && f.from.id == id then f.from else LastNamed(flows, id)
  {
    assert (flows + [f])[..|flows|] == flows;
  }

  lemma NodesGrow(nodeMap: map<string, Node>, flows: seq<Flow>, f: Flow)
    requires NodesSeen(nodeMap, flows)
    ensures NodesSeen(if f.Resolved() then nodeMap[f.from.id := f.from][f.to.id := f.to] else nodeMap, flows + [f])
  {
    EndpointsGrow(flows, f);
    forall id: string {
      NamedOneMore(flows, f, id);
    }
  }

  lemma EndpointsGrow(flows: seq<Flow>, f: Flow)
    ensures Endpoints(flows + [f]) == Endpoints(flows) + if f.Resolved() then {f.from.id, f.to.id} else {}
  {
    assert forall g :: g in flows + [f] <==> g in flows || g == f;
  }

  function NewAcc(k: (string, string), proto: string): EdgeAcc {
    EdgeAcc(Edge(EdgeID(k.0, k.1), k.0, k.1, proto, 0, 0, 0, 0, 0, 0, 0), 0, 0)
  }

  method Aggregate(flows: seq<Flow>) returns (t: Table, nodeMap: map<string, Node>)
    ensures Tabulates(t, flows) && NodesSeen(nodeMap, flows)
  {
    t, nodeMap := map[], map[];
    for n := 0 to |flows|
      invariant Tabulates(t, flows[..n]) && NodesSeen(nodeMap, flows[..n])
    {
      var f := flows[n];
      assert flows[..n + 1] == flows[..n] + [f];
      NodesGrow(nodeMap, flows[..n], f);
      if f.from.id == "" || f.to.id == "" {
        TableStays(t, flows[..n], f);
        continue;
      }
      nodeMap := nodeMap[f.from.id := f.from];
      nodeMap := nodeMap[f.to.id := f.to];
      var k := (f.from.id, f.to.id);
      var acc := if k in t then t[k] else NewAcc(k, f.proto);
      var r := AddFlow(acc, f);
      AddedFlow(if k in t then t[k] else NewAcc(k, ""), r, Between(flows[..n], k), f, k);
      TableGrows(t, flows[..n], f, r);
      t := t[k := r];
    }
    assert flows[..|flows|] == flows;
  }

  // ---- Conservation ----------------------------------------------------------------------------

  /** Who sends to whom, and how often. */
  datatype Row = Row(from: string, to: string, count: nat) {
    function Pair(): (string, string) { (from, to) }
  }

  /** One row for each pair some event resolves to, counting exactly its events. */
  ghost predicate Tallies(rows: seq<Row>, flows: seq<Flow>) {
    && (forall i, j :: 0 <= i < j < |rows| ==> rows[i].Pair() != rows[j].Pair())
    && (forall i :: 0 <= i < |rows| ==> 0 < rows[i].count == |Between(flows, rows[i].Pair())|)
    && (forall k :: Between(flows, k) != [] ==> exists i :: 0 <= i < |rows| && rows[i].Pair() == k)
  }

  ghost function Total(rows: seq<Row>): nat {
    if rows == [] then 0 else Total(rows[..|rows| - 1]) + rows[|rows| - 1].count
  }

  ghost function RowPairs(rows: seq<Row>): set<(string, string)> {
    set r | r in rows :: r.Pair()
  }

  /** The events that resolve to one of these pairs. */
  ghost function Within(flows: seq<Flow>, keys: set<(string, string)>): seq<Flow> {
    Filter(flows, (f: Flow) => f.Resolved() && f.Pair() in keys)
  }

  lemma {:induction false} WithinOneMore(flows: seq<Flow>, keys: set<(string, string)>, k: (string, string))
    requires k !in keys
    ensures |Within(flows, keys + {k})| == |Within(flows, keys)| + |Between(flows, k)|
  {
    if flows != [] {
      var front := flows[..|flows| - 1];
      WithinOneMore(front, keys, k);
      WithinStep(flows, keys);
      WithinStep(flows, keys + {k});
      BetweenGrows(front, flows[|flows| - 1], k);
      assert flows == front + [flows[|flows| - 1]];
    }
  }

  lemma WithinStep(flows: seq<Flow>, keys: set<(string, string)>)
    requires flows != []
    ensures var f := flows[|flows| - 1];
      |Within(flows, keys)| == |Within(flows[..|flows| - 1], keys)| + if f.Resolved() && f.Pair() in keys then 1 else 0
  {
    FilterOneMore(flows, |flows| - 1, (f: Flow) => f.Resolved() && f.Pair() in keys);
    assert flows[..|flows|] == flows;
  }

  lemma {:induction false} NothingWithin(flows: seq<Flow>)
    ensures Within(flows, {}) == []
  {
    if flows != [] {
      NothingWithin(flows[..|flows| - 1]);
      WithinStep(flows, {});
    }
  }

  lemma {:induction false} TotalIsWithin(rows: seq<Row>, flows: seq<Flow>)
    requires forall i, j :: 0 <= i < j < |rows| ==> rows[i].Pair() != rows[j].Pair()
    requires forall i :: 0 <= i < |rows| ==> rows[i].count == |Between(flows, rows[i].Pair())|
    ensures Total(rows) == |Within(flows, RowPairs(rows))|
  {
    if rows == [] {
      assert RowPairs(rows) == {};
      NothingWithin(flows);
    } else {
      var front, last := rows[..|rows| - 1], rows[|rows| - 1];
      TotalIsWithin(front, flows);
      assert rows == front + [last];
      assert RowPairs(rows) == RowPairs(front) + {last.Pair()};
      assert last.Pair() !in RowPairs(front);
      WithinOneMore(flows, RowPairs(front), last.Pair());
    }
  }

  /** The counts of the edges add up to the number of events whose endpoints could be resolved. */
  lemma CountsAreConserved(rows: seq<Row>, flows: seq<Flow>)
    requires Tallies(rows, flows)
    ensures Total(rows) == |Resolvable(flows)|
  {
    TotalIsWithin(rows, flows);
    forall f | f in flows && f.Resolved()
      ensures f.Pair() in RowPairs(rows)
    {
      PairsAreBetween(flows, f.Pair());
      var i :| 0 <= i < |rows| && rows[i].Pair() == f.Pair();
      assert rows[i] in rows;
    }
    FilterAgrees(flows, (f: Flow) => f.Resolved() && f.Pair() in RowPairs(rows), (f: Flow) => f.Resolved());
  }

  /** Two tallies of the same events are the same, up to order. */
  lemma {:induction false} TalliesAgree(a: seq<Row>, b: seq<Row>, flows: seq<Flow>)
    requires Tallies(a, flows) && Tallies(b, flows)
    ensures forall r :: r in a <==> r in b
  {
    forall r | r in a
      ensures r in b
    {
      var i :| 0 <= i < |a| && a[i] == r;
      var j :| 0 <= j < |b| && b[j].Pair() == r.Pair();
    }
    forall r | r in b
      ensures r in a
    {
      var i :| 0 <= i < |b| && b[i] == r;
      var j :| 0 <= j < |a| && a[j].Pair() == r.Pair();
    }
  }

  // ---- The edges of the topology --------------------------------------------------------------

  /** The finished edge of an aggregate: its mean round-trip time filled in. */
  function Finished(acc: EdgeAcc): Edge {
    if acc.srttN > 0 then acc.edge.(srttNs := acc.srttSum / acc.srttN) else acc.edge
  }

  ghost predicate EdgeOf(e: Edge, flows: seq<Flow>) {
    var b := Between(flows, (e.from, e.to));
    && e.id == e.from + "->" + e.to
    && e.count == |b| > 0 && e.bytes == TotalBytes(b) && e.packets == TotalPackets(b)
    && e.maxSrttNs == RTTMax(b) && e.srttNs <= e.maxSrttNs
    && e.srttNs == (if RTTCount(b) > 0 then RTTSum(b) / RTTCount(b) else 0)
    && NamesLast(e, b)
  }

  /** One edge per pair, each the exact sum of its events, its mean time within the maximum. */
  ghost predicate EdgesOf(edges: seq<Edge>, flows: seq<Flow>) {
    && (forall e :: e in edges ==> EdgeOf(e, flows))
    && DistinctPairs(edges)
    && (forall k :: Between(flows, k) != [] ==> k in EdgePairs(edges))
  }

  ghost function EdgePairs(edges: seq<Edge>): set<(string, string)> {
    set e | e in edges :: (e.from, e.to)
  }

  ghost function Rows(edges: seq<Edge>): (r: seq<Row>)
    ensures |r| == |edges| && forall i :: 0 <= i < |r| ==> r[i] == Row(edges[i].from, edges[i].to, edges[i].count)
  {
    seq(|edges|, i requires 0 <= i < |edges| => Row(edges[i].from, edges[i].to, edges[i].count))
  }

  lemma EdgesTally(edges: seq<Edge>, flows: seq<Flow>)
    requires EdgesOf(edges, flows)
    ensures Tallies(Rows(edges), flows) && Total(Rows(edges)) == |Resolvable(flows)|
  {
    assert forall i :: 0 <= i < |edges| ==> edges[i] in edges;
    forall k | Between(flows, k) != []
      ensures exists i :: 0 <= i < |Rows(edges)| && Rows(edges)[i].Pair() == k
    {
      assert k in EdgePairs(edges);
      var i :| 0 <= i < |edges| && (edges[i].from, edges[i].to) == k;
      assert Rows(edges)[i].Pair() == k;
    }
    CountsAreConserved(Rows(edges), flows);
  }

  lemma FinishedEdge(acc: EdgeAcc, flows: seq<Flow>, k: (string, string))
    requires Aggregates(acc, Between(flows, k), k) && Between(flows, k) != []
    ensures EdgeOf(Finished(acc), flows) && (Finished(acc).from, Finished(acc).to) == k
  {
    var b := Between(flows, k);
    MeanIsAtMostMax(b, RTTMax(b));
    if acc.srttN > 0 {
      Quotient(acc.srttSum, acc.srttN, RTTMax(b));
    }
    assert (acc.edge.from, acc.edge.to) == k;
  }

  lemma Quotient(sum: nat, n: nat, m: nat)
    requires n > 0 && sum <= m * n
    ensures sum / n <= m
  {
    var q := sum / n;
    assert q * n <= sum;
    if q > m {
      Monotone(m + 1, q, n);
    }
  }

  lemma Monotone(a: nat, b: nat, n: nat)
    requires a <= b
    ensures a * n <= b * n
  {
  }

  ghost predicate SortedByID(edges: seq<Edge>) {
    forall i, j :: 0 <= i < j < |edges| ==> !Text.Less(edges[j].id, edges[i].id)
  }

  ghost predicate DistinctPairs(edges: seq<Edge>) {
    forall i, j :: 0 <= i < j < |edges| ==> (edges[i].from, edges[i].to) != (edges[j].from, edges[j].to)
  }

  lemma OneMoreEdge(edges: seq<Edge>, e: Edge)
    requires DistinctPairs(edges) && (e.from, e.to) !in EdgePairs(edges)
    ensures DistinctPairs(edges + [e]) && EdgePairs(edges + [e]) == EdgePairs(edges) + {(e.from, e.to)}
  {
    assert forall i :: 0 <= i < |edges| ==> edges[i] in edges;
    assert forall d :: d in edges + [e] <==> d in edges || d == e;
  }

  /** The edges of the table, visited in no particular order. */
  method CollectEdges(t: Table, ghost flows: seq<Flow>) returns (edges: seq<Edge>)
    requires Tabulates(t, flows)
    ensures EdgesOf(edges, flows)
  {
    edges := [];
    var pending := t.Keys;
    while pending != {}
      invariant pending <= t.Keys
      invariant forall e :: e in edges ==> EdgeOf(e, flows)
      invariant DistinctPairs(edges) && EdgePairs(edges) == t.Keys - pending
      decreases pending
    {
      var k :| k in pending;
      pending := pending - {k};
      FinishedEdge(t[k], flows, k);
      var e := Finished(t[k]);
      OneMoreEdge(edges, e);
      edges := edges + [e];
    }
  }

  // ---- The two aggregators ------------------------------------------------------------------------

  lemma IDLessIsWeakOrder()
    ensures Sorting.WeakOrder((a: Edge, b: Edge) => Text.Less(a.id, b.id))
    ensures Sorting.WeakOrder((a: Node, b: Node) => Text.Less(a.id, b.id))
  {
    forall x: string, y: string
      ensures Text.Less(x, y) ==> !Text.Less(y, x)
    {
      Text.LessTotal(x, y);
    }
    forall x: string, y: string, z: string
      ensures !Text.Less(y, x) && !Text.Less(z, y) ==> !Text.Less(z, x)
    {
      Text.NotLessTransitive(x, y, z);
    }
  }

  lemma PermutedEdges(a: seq<Edge>, b: seq<Edge>, flows: seq<Flow>)
    requires EdgesOf(a, flows) && multiset(a) == multiset(b)
    ensures EdgesOf(b, flows)
  {
    SameMembers(a, b);
    PermutedKeys(a, b, (e: Edge) => (e.from, e.to));
    assert EdgePairs(a) == EdgePairs(b);
  }

  function NodeIDs(nodes: seq<Node>): set<string> {
    set n | n in nodes :: n.id
  }

  ghost predicate DistinctIDs(nodes: seq<Node>) {
    forall i, j :: 0 <= i < j < |nodes| ==> nodes[i].id != nodes[j].id
  }

  /** The records of a table of nodes, sorted by id. */
  method SortedNodes(nodeMap: map<string, Node>) returns (nodes: seq<Node>)
    requires forall id :: id in nodeMap ==> nodeMap[id].id == id
    ensures NodeIDs(nodes) == nodeMap.Keys && DistinctIDs(nodes)
    ensures forall n :: n in nodes ==> nodeMap[n.id] == n
    ensures forall i, j :: 0 <= i < j < |nodes| ==> !Text.Less(nodes[j].id, nodes[i].id)
  {
    var out: seq<Node> := [];
    var pending := nodeMap.Keys;
    while pending != {}
      invariant pending <= nodeMap.Keys
      invariant NodeIDs(out) == nodeMap.Keys - pending && DistinctIDs(out)
      invariant forall n :: n in out ==> n.id in nodeMap && nodeMap[n.id] == n
      decreases pending
    {
      var id :| id in pending;
      pending := pending - {id};
      assert forall i :: 0 <= i < |out| ==> out[i] in out;
      assert NodeIDs(out + [nodeMap[id]]) == NodeIDs(out) + {id};
      out := out + [nodeMap[id]];
    }
    IDLessIsWeakOrder();
    nodes := Sorting.SortSlice((a: Node, b: Node) => Text.Less(a.id, b.id), out);
    SameMembers(out, nodes);
    PermutedKeys(out, nodes, (n: Node) => n.id);
    assert NodeIDs(out) == NodeIDs(nodes);
  }

  /**
   The topology of the events: exactly the resolved endpoints as nodes, each as the last event
   that names it has it, and per pair of them one edge that is the exact sum of its events.
   Nothing is lost: the edges' counts add up to the number of resolved events.
   */
  method BuildFlowTopology(flows: seq<Flow>) returns (nodes: seq<Node>, edges: seq<Edge>)
    ensures EdgesOf(edges, flows) && SortedByID(edges)
    ensures Total(Rows(edges)) == |Resolvable(flows)|
    ensures NodeIDs(nodes) == Endpoints(flows) && DistinctIDs(nodes)
    ensures forall n :: n in nodes ==> n == LastNamed(flows, n.id)
    ensures forall i, j :: 0 <= i < j < |nodes| ==> !Text.Less(nodes[j].id, nodes[i].id)
    ensures forall e :: e in edges ==> e.from in NodeIDs(nodes) && e.to in NodeIDs(nodes)
  {
    var t, nodeMap := Aggregate(flows);
    nodes := SortedNodes(nodeMap);
    var out := CollectEdges(t, flows);
    IDLessIsWeakOrder();
    edges := Sorting.SortSlice((a: Edge, b: Edge) => Text.Less(a.id, b.id), out);
    PermutedEdges(out, edges, flows);
    EdgesTally(edges, flows);
    forall e | e in edges
      ensures e.from in Endpoints(flows) && e.to in Endpoints(flows)
    {
      PairsAreBetween(flows, (e.from, e.to));
    }
  }

  datatype FlowEdge = FlowEdge(from: string, to: string, proto: string, srcPort: nat, dstPort: nat, count: nat)

  ghost predicate Counts(t: map<(string, string), FlowEdge>, flows: seq<Flow>) {
    && (forall k :: k in t <==> Between(flows, k) != [])
    && forall k :: k in t ==> Summed(t[k], Between(flows, k), k)
  }

  /** The count of the events `b`, with the ports of the first and the last protocol named. */
  ghost predicate Summed(e: FlowEdge, b: seq<Flow>, k: (string, string)) {
    b != [] && e == FlowEdge(k.0, k.1, LastProto(b), b[0].srcPort, b[0].dstPort, |b|)
  }

  lemma CountsGrow(t: map<(string, string), FlowEdge>, flows: seq<Flow>, f: Flow, e: FlowEdge)
    requires Counts(t, flows)
    requires f.Resolved() ==> Summed(e, Between(flows, f.Pair()) + [f], f.Pair())
    ensures Counts(if f.Resolved() then t[f.Pair() := e] else t, flows + [f])
  {
    forall k {
      BetweenGrows(flows, f, k);
    }
  }

  ghost function FlowRows(edges: seq<FlowEdge>): (r: seq<Row>)
    ensures |r| == |edges| && forall i :: 0 <= i < |r| ==> r[i] == Row(edges[i].from, edges[i].to, edges[i].count)
  {
    seq(|edges|, i requires 0 <= i < |edges| => Row(edges[i].from, edges[i].to, edges[i].count))
  }

  lemma LastOneMore(b: seq<Flow>, f: Flow)
    ensures LastProto(b + [f]) == if f.proto != "" then f.proto else LastProto(b)
  {
    assert (b + [f])[..|b|] == b;
  }

  /** The second aggregator: the same pairs with the same counts, in no particular order. */
  method BuildFlowGraph(flows: seq<Flow>) returns (nodes: set<string>, edges: seq<FlowEdge>)
    ensures nodes == Endpoints(flows)
    ensures Tallies(FlowRows(edges), flows) && Total(FlowRows(edges)) == |Resolvable(flows)|
    ensures forall e :: e in edges ==> Summed(e, Between(flows, (e.from, e.to)), (e.from, e.to))
  {
    var counts: map<(string, string), FlowEdge> := map[];
    nodes := {};
    for n := 0 to |flows|
      invariant Counts(counts, flows[..n]) && nodes == Endpoints(flows[..n])
    {
      var f := flows[n];
      assert flows[..n + 1] == flows[..n] + [f];
      EndpointsGrow(flows[..n], f);
      var from, to := f.from.id, f.to.id;
      var e := FlowEdge(from, to, f.proto, f.srcPort, f.dstPort, 0);
      if from == "" || to == "" {
        CountsGrow(counts, flows[..n], f, e);
        continue;
      }
      nodes := nodes + {from, to};
      if (from, to) in counts {
        e := counts[(from, to)];
      }
      e := e.(count := e.count + 1);
      if f.proto != "" {
        e := e.(proto := f.proto);
      }
      LastOneMore(Between(flows[..n], (from, to)), f);
      CountsGrow(counts, flows[..n], f, e);
      counts := counts[(from, to) := e];
    }
    assert flows[..|flows|] == flows;
    edges := CollectFlowEdges(counts, flows);
    CountsAreConserved(FlowRows(edges), flows);
  }

  method CollectFlowEdges(counts: map<(string, string), FlowEdge>, ghost flows: seq<Flow>)
    returns (edges: seq<FlowEdge>)
    requires Counts(counts, flows)
    ensures Tallies(FlowRows(edges), flows)
    ensures forall e :: e in edges ==> Summed(e, Between(flows, (e.from, e.to)), (e.from, e.to))
  {
    edges := [];
    var pending := counts.Keys;
    ghost var at: map<(string, string), nat> := map[];
    while pending != {}
      invariant pending <= counts.Keys && at.Keys == counts.Keys - pending
      invariant forall k :: k in at ==> at[k] < |edges| && edges[at[k]] == counts[k]
      invariant forall i :: 0 <= i < |edges| ==> (edges[i].from, edges[i].to) in at
      invariant forall i :: 0 <= i < |edges| ==> at[(edges[i].from, edges[i].to)] == i
      decreases pending
    {
      var k :| k in pending;
      pending := pending - {k};
      at := at[k := |edges|];
      edges := edges + [counts[k]];
    }
    CollectedEdges(counts, flows, edges, at);
  }

  lemma CollectedEdges(counts: map<(string, string), FlowEdge>, flows: seq<Flow>, edges: seq<FlowEdge>,
                       at: map<(string, string), nat>)
    requires Counts(counts, flows) && at.Keys == counts.Keys
    requires forall k :: k in at ==> at[k] < |edges| && edges[at[k]] == counts[k]
    requires forall i :: 0 <= i < |edges| ==> (edges[i].from, edges[i].to) in at
    requires forall i :: 0 <= i < |edges| ==> at[(edges[i].from, edges[i].to)] == i
    ensures Tallies(FlowRows(edges), flows)
    ensures forall e :: e in edges ==> Summed(e, Between(flows, (e.from, e.to)), (e.from, e.to))
  {
    forall i | 0 <= i < |edges|
      ensures Summed(edges[i], Between(flows, (edges[i].from, edges[i].to)), (edges[i].from, edges[i].to))
    {
      assert edges[i] == counts[(edges[i].from, edges[i].to)];
    }
    forall k | Between(flows, k) != []
      ensures exists i :: 0 <= i < |edges| && FlowRows(edges)[i].Pair() == k
    {
      assert FlowRows(edges)[at[k]].Pair() == k;
    }
  }

  /** The two aggregators see the same nodes and the same (from, to, count) triples in any events. */
  method CompareAggregators(flows: seq<Flow>)
    returns (nodes: seq<Node>, edges: seq<Edge>, ids: set<string>, flowEdges: seq<FlowEdge>)
    ensures EdgesOf(edges, flows) && Tallies(FlowRows(flowEdges), flows)
    ensures NodeIDs(nodes) == ids == Endpoints(flows)
    ensures (set e | e in edges :: Row(e.from, e.to, e.count)) == (set e | e in flowEdges :: Row(e.from, e.to, e.count))
  {
    nodes, edges := BuildFlowTopology(flows);
    ids, flowEdges := BuildFlowGraph(flows);
    EdgesTally(edges, flows);
    TalliesAgree(Rows(edges), FlowRows(flowEdges), flows);
    RowSets(edges, flowEdges);
  }

  lemma RowSets(a: seq<Edge>, b: seq<FlowEdge>)
    requires forall r :: r in Rows(a) <==> r in FlowRows(b)
    ensures (set e | e in a :: Row(e.from, e.to, e.count)) == (set e | e in b :: Row(e.from, e.to, e.count))
  {
    var s, t := (set e | e in a :: Row(e.from, e.to, e.count)), (set e | e in b :: Row(e.from, e.to, e.count));
    forall r | r in s
      ensures r in t
    {
      var i :| 0 <= i < |a| && Row(a[i].from, a[i].to, a[i].count) == r;
      assert Rows(a)[i] == r && r in Rows(a) && r in FlowRows(b);
      var j :| 0 <= j < |b| && FlowRows(b)[j] == r;
      assert b[j] in b;
    }
    forall r | r in t
      ensures r in s
    {
      var j :| 0 <= j < |b| && Row(b[j].from, b[j].to, b[j].count) == r;
      assert FlowRows(b)[j] == r && r in FlowRows(b) && r in Rows(a);
      var i :| 0 <= i < |a| && Rows(a)[i] == r;
      assert a[i] in a;
    }
  }
}
