/** Places the nodes of the path map as rectangles on swimlanes. */
module Layout {
  import opened TraceGraph
  import opened Track
  import opened Sequences

  const NODE_W := 148
  const NODE_H := 72
  const CTX_NODE_W := 128
  const CTX_NODE_H := 40
  const PAD_X := 40
  const PAD_Y := 48
  const HOP_GAP := 40
  const INGRESS_Y := 52
  const ANCHOR_Y := 152
  const EGRESS_Y := 252
  const CONTEXT_Y := 348

  datatype TraceLane = TraceLane(caption: string, rank: nat, x: int, width: int, y: int, height: int, track: string)

  function RankForKind(kind: string): nat {
    if kind in {"external-client", "external"} then 0
    else if kind in {"route", "ingress", "metallb-pool", "loadbalancer-external"} then 1
    else if kind in {"service-clusterip", "service-loadbalancer", "service-nodeport", "service", "pod", "nad"} then 2
    else if kind in {"node", "ovn-logical-port", "host-veth", "bond", "vrf", "networkpolicy"} then 3
    else if kind in {"egressip", "egressservice", "egress-router", "bgp-peer", "metallb-advertisement"} then 4
    else 2
  }

  function Max(a: int, b: int): int { if a > b then a else b }

  // ---- Geometry ----------------------------------------------------------------

  /** How many nodes each track holds. */
  datatype Counts = Counts(ingress: nat, anchor: nat, shared: nat, egress: nat, context: nat) {
    function On(track: string): nat {
      if track == INGRESS then ingress else if track == ANCHOR then anchor
      else if track == SHARED then shared else if track == EGRESS then egress else context
    }

    function AnchorX(): int { PAD_X + Max(ingress, 1) * (NODE_W + HOP_GAP) }

    function SharedStart(): int { AnchorX() + Max(anchor, 1) * (NODE_W + 16) + HOP_GAP }

    function EgressStart(): int {
      if shared > 0 then SharedStart() + shared * (NODE_W + HOP_GAP) else SharedStart()
    }

    function MaxX(): int {
      if egress > 0 then EgressStart() + egress * (NODE_W + HOP_GAP)
      else if shared > 0 then SharedStart() + shared * (NODE_W + HOP_GAP)
      else AnchorX() + Max(anchor, 1) * (NODE_W + 16) + NODE_W
    }

    function Width(): int { MaxX() + PAD_X }

    function Height(): int {
      if context > 0 then CONTEXT_Y + (context + 5) / 6 * (CTX_NODE_H + 12) + CTX_NODE_H + PAD_Y
      else EGRESS_Y + NODE_H + PAD_Y
    }
  }

  datatype Rect = Rect(x: int, y: int, width: int, height: int) {
    predicate Overlaps(r: Rect) {
      x < r.x + r.width && r.x < x + width && y < r.y + r.height && r.y < y + height
    }
  }

  /** The rectangle of the `j`-th node of a track. */
  function Slot(c: Counts, track: string, j: nat): Rect {
    if track == INGRESS then Rect(PAD_X + j * (NODE_W + HOP_GAP), INGRESS_Y, NODE_W, NODE_H)
    else if track == ANCHOR then Rect(c.AnchorX() + j * (NODE_W + 16), ANCHOR_Y, NODE_W, NODE_H)
    else if track == SHARED then Rect(c.SharedStart() + j * (NODE_W + HOP_GAP), ANCHOR_Y, NODE_W, NODE_H)
    else if track == EGRESS then Rect(c.EgressStart() + j * (NODE_W + HOP_GAP), EGRESS_Y, NODE_W, NODE_H)
    else Rect(PAD_X + j % 6 * (CTX_NODE_W + 14), CONTEXT_Y + j / 6 * (CTX_NODE_H + 12), CTX_NODE_W, CTX_NODE_H)
  }

  lemma {:induction false} SlotsDisjoint(c: Counts, t: string, j: nat, u: string, k: nat)
    requires t in TRACKS && u in TRACKS && (t, j) != (u, k)
    requires j < c.On(t) && k < c.On(u)
    ensures !Slot(c, t, j).Overlaps(Slot(c, u, k))
  {
    if t == u == CONTEXT {
      assert j == j / 6 * 6 + j % 6 && k == k / 6 * 6 + k % 6;
    }
  }

  lemma {:induction false} SlotInside(c: Counts, t: string, j: nat)
    requires t in TRACKS && j < c.On(t)
    ensures var r := Slot(c, t, j);
      && 0 <= r.x && 0 <= r.y && r.y + r.height <= c.Height()
      && (t != CONTEXT ==> r.x + r.width <= c.Width())
  {
    if t == CONTEXT {
      assert j / 6 <= (c.context + 5) / 6;
    }
  }

  /** Within a lane the slots run left to right. */
  lemma {:induction false} SlotsRunRight(c: Counts, t: string, j: nat, k: nat)
    requires t in TRACKS - {CONTEXT} && j < k
    ensures Slot(c, t, j).x < Slot(c, t, k).x
  {
  }

  // ---- Swimlanes ----------------------------------------------------------------

  const LANE_META: seq<(string, string, int)> := [
    (INGRESS, "Ingress paths", INGRESS_Y - 20), (ANCHOR, "Workload", ANCHOR_Y - 20),
    (SHARED, "Host / CNI", ANCHOR_Y - 20), (EGRESS, "Egress paths", EGRESS_Y - 20)]

  ghost predicate InLane(r: Rect, l: TraceLane) {
    && l.x <= r.x && r.x + r.width <= l.x + l.width
    && l.y <= r.y && r.y + r.height <= l.y + l.height
  }

  /** A node-sized rectangle on one of the three rows. */
  ghost predicate OnRow(r: Rect, graphWidth: int) {
    && PAD_X <= r.x && r.x + r.width <= graphWidth
    && r.height == NODE_H && r.y in {INGRESS_Y, ANCHOR_Y, EGRESS_Y}
  }

  /** One lane per row; the host nodes share the workload's row. */
  function Lanes(graphWidth: int): seq<TraceLane> {
    var x, width, height := PAD_X - 12, graphWidth - PAD_X + 12, NODE_H + 36;
    [TraceLane("Ingress paths", 0, x, width, INGRESS_Y - 20, height, INGRESS),
     TraceLane("Workload", 1, x, width, ANCHOR_Y - 20, height, ANCHOR),
     TraceLane("Egress paths", 3, x, width, EGRESS_Y - 20, height, EGRESS)]
  }

  method BuildTrackLanes(graphWidth: int) returns (lanes: seq<TraceLane>)
    ensures lanes == Lanes(graphWidth)
  {
    lanes := [];
    for i := 0 to |LANE_META|
      invariant lanes == Lanes(graphWidth)[..if i < 3 then i else i - 1]
    {
      var (track, caption, y) := LANE_META[i];
      if track == SHARED { continue; }
      lanes := lanes + [TraceLane(caption, i, PAD_X - 12, graphWidth - PAD_X + 12, y, NODE_H + 36, track)];
    }
  }

  lemma {:induction false} RowsHaveLanes(r: Rect, graphWidth: int)
    requires OnRow(r, graphWidth)
    ensures exists l :: l in Lanes(graphWidth) && InLane(r, l)
  {
    var lanes := Lanes(graphWidth);
    assert InLane(r, lanes[if r.y == INGRESS_Y then 0 else if r.y == ANCHOR_Y then 1 else 2]);
  }

  // ---- In-place sort ---------------------------------------------------------------

  ghost predicate Indices(n: nat, idxs: seq<int>) {
    forall i :: 0 <= i < |idxs| ==> 0 <= idxs[i] < n
  }

  /** By rank, and by position among equals. */
  ghost predicate RankedBefore(nodes: seq<TraceNode>, p: int, q: int)
    requires 0 <= p < |nodes| && 0 <= q < |nodes|
  {
    nodes[p].rank < nodes[q].rank || (nodes[p].rank == nodes[q].rank && p < q)
  }

  ghost predicate StablySorted(nodes: seq<TraceNode>, idxs: seq<int>)
    requires Indices(|nodes|, idxs)
  {
    forall i, j :: 0 <= i < j < |idxs| ==> RankedBefore(nodes, idxs[i], idxs[j])
  }

  ghost predicate Ascending(s: seq<int>) {
    forall i, j :: 0 <= i < j < |s| ==> s[i] < s[j]
  }

  /** Element `j` is on its way left; the others up to `i` are sorted, and those after `i` untouched. */
  ghost predicate Sinking(nodes: seq<TraceNode>, s: seq<int>, i: nat, j: nat) {
    && j <= i < |s| && Indices(|nodes|, s)
    && (forall k, m :: 0 <= k < m <= i && k != j && m != j ==> RankedBefore(nodes, s[k], s[m]))
    && (forall m :: j < m <= i ==> RankedBefore(nodes, s[j], s[m]))
    && (forall k :: 0 <= k <= i && k != j ==> s[k] < s[j])
    && AscendingFrom(s, i + 1)
  }

  /** From position `n` on, every element is larger than all before it. */
  ghost predicate AscendingFrom(s: seq<int>, n: nat) {
    forall k, m :: 0 <= k < m < |s| && n <= m ==> s[k] < s[m]
  }

  lemma StartSinking(nodes: seq<TraceNode>, s: seq<int>, i: nat)
    requires i < |s| && Indices(|nodes|, s) && AscendingFrom(s, i)
    requires Indices(|nodes|, s[..i]) && StablySorted(nodes, s[..i])
    ensures Sinking(nodes, s, i, i)
  {
    assert forall k :: 0 <= k < i ==> s[..i][k] == s[k];
  }

  /** `s` with element `j` and its left neighbour exchanged. */
  function Swapped(s: seq<int>, j: nat): seq<int>
    requires 0 < j < |s|
  {
    s[j := s[j - 1]][j - 1 := s[j]]
  }

  /** The element on its way trades places with a larger rank; nothing else moves. */
  lemma {:induction false} SinkOne(nodes: seq<TraceNode>, s: seq<int>, i: nat, j: nat)
    requires Sinking(nodes, s, i, j) && j > 0 && nodes[s[j]].rank < nodes[s[j - 1]].rank
    ensures Sinking(nodes, Swapped(s, j), i, j - 1) && multiset(Swapped(s, j)) == multiset(s)
  {
    var r := Swapped(s, j);
    assert forall k :: 0 <= k < |s| ==> r[k] == s[Trade(j, k)];
    assert Indices(|nodes|, r);
    forall k, m | 0 <= k < m <= i && k != j - 1 && m != j - 1
      ensures RankedBefore(nodes, r[k], r[m])
    {
      assert RankedBefore(nodes, s[Trade(j, k)], s[Trade(j, m)]);
    }
    forall m | j - 1 < m <= i
      ensures RankedBefore(nodes, r[j - 1], r[m])
    {
      if m > j {
        assert RankedBefore(nodes, s[j], s[m]);
      }
    }
    StillAscending(s, j, i);
  }

  function Trade(j: int, k: int): int { if k == j then j - 1 else if k == j - 1 then j else k }

  lemma StillAscending(s: seq<int>, j: nat, i: nat)
    requires 0 < j <= i < |s| && AscendingFrom(s, i + 1)
    ensures AscendingFrom(Swapped(s, j), i + 1)
  {
    var r := Swapped(s, j);
    forall k, m | 0 <= k < m < |s| && i + 1 <= m
      ensures r[k] < r[m]
    {
      assert r[k] == s[Trade(j, k)] && r[m] == s[m];
    }
  }

  lemma Sunk(nodes: seq<TraceNode>, s: seq<int>, i: nat, j: nat)
    requires Sinking(nodes, s, i, j) && (j == 0 || nodes[s[j]].rank >= nodes[s[j - 1]].rank)
    ensures StablySorted(nodes, s[..i + 1])
  {
    forall k | 0 <= k < j
      ensures RankedBefore(nodes, s[k], s[j])
    {
      assert k == j - 1 || RankedBefore(nodes, s[k], s[j - 1]);
    }
  }

  /** Insertion sort by rank; indices that start out ascending stay ascending within a rank. */
  method SortIndicesByRank(nodes: array<TraceNode>, a: array<int>)
    requires Indices(nodes.Length, a[..]) && Ascending(a[..])
    modifies a
    ensures multiset(a[..]) == multiset(old(a[..]))
    ensures Indices(nodes.Length, a[..]) && StablySorted(nodes[..], a[..])
  {
    ghost var ns := nodes[..];
    for i := 0 to a.Length
      invariant Indices(nodes.Length, a[..]) && nodes[..] == ns
      invariant multiset(a[..]) == multiset(old(a[..]))
      invariant StablySorted(ns, a[..i])
      invariant AscendingFrom(a[..], i)
    {
      if i == 0 { continue; }
      SinkLast(nodes, a, i);
    }
    assert a[..a.Length] == a[..];
  }

  method SwapLeft(a: array<int>, j: nat)
    requires 0 < j < a.Length
    modifies a
    ensures a[..] == Swapped(old(a[..]), j)
  {
    a[j], a[j - 1] := a[j - 1], a[j];
  }

  /** One round of the sort: element `i` moves left past the larger ranks. */
  method SinkLast(nodes: array<TraceNode>, a: array<int>, i: nat)
    requires 0 < i < a.Length && Indices(nodes.Length, a[..])
    requires StablySorted(nodes[..], a[..i])
    requires AscendingFrom(a[..], i)
    modifies a
    ensures Indices(nodes.Length, a[..])
    ensures multiset(a[..]) == multiset(old(a[..]))
    ensures StablySorted(nodes[..], a[..i + 1])
    ensures AscendingFrom(a[..], i + 1)
  {
    ghost var ns := nodes[..];
    StartSinking(ns, a[..], i);
    assert a[..i] == a[..][..i];
    var j := i;
    while j > 0 && nodes[a[j]].rank < nodes[a[j - 1]].rank
      invariant 0 <= j <= i && nodes[..] == ns && Sinking(ns, a[..], i, j)
      invariant multiset(a[..]) == multiset(old(a[..]))
    {
      SinkOne(ns, a[..], i, j);
      SwapLeft(a, j);
      j := j - 1;
    }
    Sunk(ns, a[..], i, j);
    assert a[..i + 1] == a[..][..i + 1];
  }

  // ---- Laying out the graph -------------------------------------------------------------

  type Buckets = map<string, seq<int>>

  /** A node once its rank is filled in. */
  function Ranked(n: TraceNode): TraceNode {
    if n.rank == 0 && n.kind != "pod" then n.(rank := RankForKind(n.kind)) else n
  }

  /** `r` is `n` with its rank and its track, and perhaps a place. */
  ghost predicate LaidOut(n: TraceNode, r: TraceNode, edges: seq<TraceEdge>, paths: seq<PathSummary>) {
    && r == Ranked(n).(track := r.track, x := r.x, y := r.y, width := r.width, height := r.height)
    && (if n.track != "" then r.track == n.track else BelongsOn(Ranked(n), edges, paths, r.track))
  }

  ghost function RectOf(n: TraceNode): Rect { Rect(n.x, n.y, n.width, n.height) }

  /** `s` lists the nodes on track `t`, each once. */
  ghost predicate IsBucket(nodes: seq<TraceNode>, t: string, s: seq<int>) {
    && (forall i :: i in s <==> 0 <= i < |nodes| && nodes[i].track == t)
    && (forall j, k :: 0 <= j < k < |s| ==> s[j] != s[k])
  }

  ghost predicate Bucketed(nodes: seq<TraceNode>, b: Buckets) {
    && TRACKS <= b.Keys
    && (forall t :: t in b ==> IsBucket(nodes, t, b[t]))
    && (forall i :: 0 <= i < |nodes| ==> nodes[i].track in b)
  }

  ghost predicate AllAscending(b: Buckets) {
    forall t :: t in b ==> Ascending(b[t])
  }

  function Appended(b: Buckets, track: string, i: int): Buckets {
    b[track := (if track in b then b[track] else []) + [i]]
  }

  lemma BucketOneMore(ns: seq<TraceNode>, n: TraceNode, t: string, s: seq<int>)
    requires IsBucket(ns, t, s) && Ascending(s)
    ensures var s' := if n.track == t then s + [|ns|] else s;
      IsBucket(ns + [n], t, s') && Ascending(s')
  {
    var s' := if n.track == t then s + [|ns|] else s;
    assert forall i :: i in s' <==> i in s || (n.track == t && i == |ns|);
    assert forall j :: 0 <= j < |s| ==> s[j] in s;
  }

  lemma AppendToBucket(ns: seq<TraceNode>, b: Buckets, n: TraceNode)
    requires Bucketed(ns, b) && AllAscending(b)
    ensures Bucketed(ns + [n], Appended(b, n.track, |ns|)) && AllAscending(Appended(b, n.track, |ns|))
  {
    var b' := Appended(b, n.track, |ns|);
    forall t | t in b'
      ensures IsBucket(ns + [n], t, b'[t]) && Ascending(b'[t])
    {
      BucketOneMore(ns, n, t, if t in b then b[t] else []);
    }
  }

  /** Fills in the rank and the track of one node. */
  method Classify(nodes: array<TraceNode>, i: nat, edges: seq<TraceEdge>, paths: seq<PathSummary>)
    requires i < nodes.Length
    modifies nodes
    ensures nodes[..] == old(nodes[..])[i := nodes[i]]
    ensures LaidOut(old(nodes[i]), nodes[i], edges, paths) && RectOf(nodes[i]) == RectOf(old(nodes[i]))
  {
    if nodes[i].rank == 0 && nodes[i].kind != "pod" {
      nodes[i] := nodes[i].(rank := RankForKind(nodes[i].kind));
    }
    var track := nodes[i].track;
    if track == "" {
      track := InferPathTrack(nodes[i], edges, paths);
    }
    nodes[i] := nodes[i].(track := track);
  }

  method AssignTracks(nodes: array<TraceNode>, edges: seq<TraceEdge>, paths: seq<PathSummary>) returns (b: Buckets)
    modifies nodes
    ensures Bucketed(nodes[..], b) && AllAscending(b)
    ensures forall i :: 0 <= i < nodes.Length ==> LaidOut(old(nodes[i]), nodes[i], edges, paths)
    ensures forall i :: 0 <= i < nodes.Length ==> RectOf(nodes[i]) == RectOf(old(nodes[i]))
  {
    b := map t | t in TRACKS :: [];
    for i := 0 to nodes.Length
      invariant Bucketed(nodes[..i], b) && AllAscending(b)
      invariant forall k :: 0 <= k < i ==> LaidOut(old(nodes[k]), nodes[k], edges, paths)
      invariant forall k :: 0 <= k < i ==> RectOf(nodes[k]) == RectOf(old(nodes[k]))
      invariant forall k :: i <= k < nodes.Length ==> nodes[k] == old(nodes[k])
    {
      ghost var ns := nodes[..i];
      ghost var before := nodes[..];
      Classify(nodes, i, edges, paths);
      assert forall k :: 0 <= k < nodes.Length && k != i ==> nodes[k] == nodes[..][k] == before[k];
      AppendToBucket(ns, b, nodes[i]);
      assert nodes[..i + 1] == ns + [nodes[i]];
      b := Appended(b, nodes[i].track, i);
    }
    assert nodes[..nodes.Length] == nodes[..];
  }

  lemma SortedBucket(ns: seq<TraceNode>, t: string, s: seq<int>, r: seq<int>)
    requires IsBucket(ns, t, s) && multiset(r) == multiset(s)
    requires Indices(|ns|, r) && StablySorted(ns, r)
    ensures IsBucket(ns, t, r) && |r| == |s|
  {
    assert |r| == |multiset(r)| == |multiset(s)| == |s|;
    assert forall i :: i in r <==> i in multiset(r);
    assert forall i :: i in s <==> i in multiset(s);
    forall j, k | 0 <= j < k < |r|
      ensures r[j] != r[k]
    {
      assert RankedBefore(ns, r[j], r[k]);
    }
  }

  /** Sorts every bucket but the context one, in any order of the buckets. */
  method SortBuckets(nodes: array<TraceNode>, b0: Buckets) returns (b: Buckets)
    requires Bucketed(nodes[..], b0) && AllAscending(b0)
    ensures b.Keys == b0.Keys && Bucketed(nodes[..], b) && Ascending(b[CONTEXT])
    ensures forall t :: t in b && t != CONTEXT ==> Indices(nodes.Length, b[t]) && StablySorted(nodes[..], b[t])
  {
    b := b0;
    ghost var ns := nodes[..];
    var pending := b0.Keys - {CONTEXT};
    while pending != {}
      invariant nodes[..] == ns && pending <= b0.Keys - {CONTEXT} && b.Keys == b0.Keys
      invariant Bucketed(ns, b) && b[CONTEXT] == b0[CONTEXT]
      invariant forall t :: t in pending ==> b[t] == b0[t]
      invariant forall t :: t in b && t != CONTEXT && t !in pending ==> Indices(|ns|, b[t]) && StablySorted(ns, b[t])
      decreases pending
    {
      var track :| track in pending;
      pending := pending - {track};
      var idxs := new int[|b[track]|](i requires 0 <= i < |b[track]| => b[track][i]);
      assert idxs[..] == b[track] && IsBucket(ns, track, b[track]);
      assert forall k :: 0 <= k < |b[track]| ==> b[track][k] in b[track];
      SortIndicesByRank(nodes, idxs);
      SortedBucket(ns, track, b[track], idxs[..]);
      b := b[track := idxs[..]];
    }
  }

  function Placed(n: TraceNode, r: Rect): TraceNode {
    n.(x := r.x, y := r.y, width := r.width, height := r.height)
  }

  method PlaceTrack(nodes: array<TraceNode>, idxs: seq<int>, slot: nat -> Rect)
    requires Indices(nodes.Length, idxs)
    requires forall j, k :: 0 <= j < k < |idxs| ==> idxs[j] != idxs[k]
    modifies nodes
    ensures forall j :: 0 <= j < |idxs| ==> nodes[idxs[j]] == Placed(old(nodes[idxs[j]]), slot(j))
    ensures forall i :: 0 <= i < nodes.Length && i !in idxs ==> nodes[i] == old(nodes[i])
  {
    for j := 0 to |idxs|
      invariant forall k :: 0 <= k < j ==> nodes[idxs[k]] == Placed(old(nodes[idxs[k]]), slot(k))
      invariant forall k :: j <= k < |idxs| ==> nodes[idxs[k]] == old(nodes[idxs[k]])
      invariant forall i :: 0 <= i < nodes.Length && i !in idxs ==> nodes[i] == old(nodes[i])
    {
      nodes[idxs[j]] := Placed(nodes[idxs[j]], slot(j));
    }
  }

  function CountsOf(b: Buckets): Counts
    requires TRACKS <= b.Keys
  {
    Counts(|b[INGRESS]|, |b[ANCHOR]|, |b[SHARED]|, |b[EGRESS]|, |b[CONTEXT]|)
  }

  /** The `j`-th node of the bucket stands on slot `j`. */
  ghost predicate OnSlots(nodes: seq<TraceNode>, c: Counts, t: string, s: seq<int>) {
    Indices(|nodes|, s) && forall j :: 0 <= j < |s| ==> RectOf(nodes[s[j]]) == Slot(c, t, j)
  }

  /** `r` differs from `n` at most in its place. */
  ghost predicate Moved(n: seq<TraceNode>, r: seq<TraceNode>) {
    |n| == |r| && forall i :: 0 <= i < |n| ==> r[i] == Placed(n[i], RectOf(r[i]))
  }

  lemma MovedKeepsBuckets(n: seq<TraceNode>, r: seq<TraceNode>, b: Buckets)
    requires Moved(n, r) && Bucketed(n, b)
    ensures Bucketed(r, b)
    ensures forall t :: t in b && Indices(|n|, b[t]) && StablySorted(n, b[t]) ==> StablySorted(r, b[t])
  {
    forall t | t in b
      ensures IsBucket(r, t, b[t])
    {
      assert IsBucket(n, t, b[t]);
    }
  }

  /** From `start`, the tracks `placed` have been put on their slots and nothing else has moved. */
  ghost predicate InProgress(start: seq<TraceNode>, nodes: seq<TraceNode>, b: Buckets, c: Counts, placed: set<string>) {
    && Moved(start, nodes) && Bucketed(nodes, b)
    && (forall t :: t in b && Indices(|start|, b[t]) && StablySorted(start, b[t]) ==> StablySorted(nodes, b[t]))
    && (forall t :: t in placed ==> t in b && OnSlots(nodes, c, t, b[t]))
    && (forall i :: 0 <= i < |nodes| && nodes[i].track !in placed ==> nodes[i] == start[i])
  }

  lemma {:induction false} PlacedOneMore(start: seq<TraceNode>, before: seq<TraceNode>, after: seq<TraceNode>,
                      b: Buckets, c: Counts, placed: set<string>, track: string)
    requires InProgress(start, before, b, c, placed) && track in b && |after| == |before|
    requires forall i :: 0 <= i < |after| && i !in b[track] ==> after[i] == before[i]
    requires Indices(|after|, b[track])
    requires forall j :: 0 <= j < |b[track]| ==> after[b[track][j]] == Placed(before[b[track][j]], Slot(c, track, j))
    ensures InProgress(start, after, b, c, placed + {track})
  {
    assert IsBucket(before, track, b[track]);
    forall i | 0 <= i < |after|
      ensures after[i] == Placed(start[i], RectOf(after[i]))
      ensures after[i].track != track ==> after[i] == before[i]
    {
      if i in b[track] {
        var j :| 0 <= j < |b[track]| && b[track][j] == i;
      }
    }
    MovedKeepsBuckets(before, after, b);
    forall t | t in placed && t != track
      ensures OnSlots(after, c, t, b[t])
    {
      assert IsBucket(before, t, b[t]) && OnSlots(before, c, t, b[t]);
      forall j | 0 <= j < |b[t]|
        ensures after[b[t][j]] == before[b[t][j]]
      {
        assert b[t][j] in b[t];
      }
    }
    forall t | t in b && Indices(|start|, b[t]) && StablySorted(start, b[t])
      ensures StablySorted(after, b[t])
    {
      assert StablySorted(before, b[t]);
    }
  }

  /** Puts one track's nodes on their slots and leaves the other tracks alone. */
  method PlaceBucket(nodes: array<TraceNode>, b: Buckets, track: string, slot: nat -> Rect,
                     ghost start: seq<TraceNode>, ghost c: Counts, ghost placed: set<string>)
    requires InProgress(start, nodes[..], b, c, placed) && track in b
    requires forall j :: slot(j) == Slot(c, track, j)
    modifies nodes
    ensures InProgress(start, nodes[..], b, c, placed + {track})
  {
    ghost var before := nodes[..];
    assert IsBucket(before, track, b[track]);
    assert forall j :: 0 <= j < |b[track]| ==> b[track][j] in b[track];
    PlaceTrack(nodes, b[track], slot);
    PlacedOneMore(start, before, nodes[..], b, c, placed, track);
  }

  ghost predicate Arranged(nodes: seq<TraceNode>, b: Buckets, c: Counts) {
    && Bucketed(nodes, b) && c == CountsOf(b)
    && (forall t :: t in TRACKS ==> OnSlots(nodes, c, t, b[t]))
    && (forall t :: t in TRACKS - {CONTEXT} ==> StablySorted(nodes, b[t]))
    && Ascending(b[CONTEXT])
  }

  /** The slot of a node on a known track. */
  lemma Find(nodes: seq<TraceNode>, b: Buckets, c: Counts, p: nat) returns (j: nat)
    requires Arranged(nodes, b, c) && p < |nodes| && nodes[p].track in TRACKS
    ensures j < |b[nodes[p].track]| == c.On(nodes[p].track) && b[nodes[p].track][j] == p
    ensures RectOf(nodes[p]) == Slot(c, nodes[p].track, j)
  {
    var t := nodes[p].track;
    assert IsBucket(nodes, t, b[t]) && p in b[t];
    j :| 0 <= j < |b[t]| && b[t][j] == p;
    assert OnSlots(nodes, c, t, b[t]);
  }

  lemma {:induction false} ArrangedIsDisjoint(nodes: seq<TraceNode>, b: Buckets, c: Counts, p: nat, q: nat)
    requires Arranged(nodes, b, c) && p < |nodes| && q < |nodes| && p != q
    requires nodes[p].track in TRACKS && nodes[q].track in TRACKS
    ensures !RectOf(nodes[p]).Overlaps(RectOf(nodes[q]))
  {
    var j := Find(nodes, b, c, p);
    var k := Find(nodes, b, c, q);
    SlotsDisjoint(c, nodes[p].track, j, nodes[q].track, k);
  }

  lemma ArrangedIsInside(nodes: seq<TraceNode>, b: Buckets, c: Counts, p: nat)
    requires Arranged(nodes, b, c) && p < |nodes| && nodes[p].track in TRACKS
    ensures var r := RectOf(nodes[p]);
      0 <= r.x && 0 <= r.y && r.y + r.height <= c.Height() && (nodes[p].track != CONTEXT ==> OnRow(r, c.Width()))
  {
    var j := Find(nodes, b, c, p);
    SlotInside(c, nodes[p].track, j);
  }

  lemma {:induction false} ArrangedIsSorted(nodes: seq<TraceNode>, b: Buckets, c: Counts, p: nat, q: nat)
    requires Arranged(nodes, b, c) && p < |nodes| && q < |nodes|
    requires nodes[p].track == nodes[q].track && nodes[p].track in TRACKS - {CONTEXT}
    ensures nodes[p].x < nodes[q].x <==> RankedBefore(nodes, p, q)
  {
    var t := nodes[p].track;
    var j := Find(nodes, b, c, p);
    var k := Find(nodes, b, c, q);
    assert StablySorted(nodes, b[t]);
    if j < k {
      SlotsRunRight(c, t, j, k);
      assert RankedBefore(nodes, b[t][j], b[t][k]);
    } else if k < j {
      SlotsRunRight(c, t, k, j);
      assert RankedBefore(nodes, b[t][k], b[t][j]);
    }
  }

  // ---- Where each node stands ----------------------------------------------------------------

  /** Node `q` stands before node `p` on its track: by rank, or on the context track by position. */
  ghost predicate Ahead(nodes: seq<TraceNode>, q: int, p: int)
    requires 0 <= p < |nodes| && 0 <= q < |nodes|
  {
    nodes[q].track == nodes[p].track && if nodes[p].track == CONTEXT then q < p else RankedBefore(nodes, q, p)
  }

  ghost function AheadOf(nodes: seq<TraceNode>, p: int): set<int>
    requires 0 <= p < |nodes|
  {
    set q | 0 <= q < |nodes| && Ahead(nodes, q, p)
  }

  ghost function NodesOn(nodes: seq<TraceNode>, t: string): set<int> {
    set q | 0 <= q < |nodes| && nodes[q].track == t
  }

  ghost function CountsIn(nodes: seq<TraceNode>): Counts {
    Counts(|NodesOn(nodes, INGRESS)|, |NodesOn(nodes, ANCHOR)|, |NodesOn(nodes, SHARED)|,
           |NodesOn(nodes, EGRESS)|, |NodesOn(nodes, CONTEXT)|)
  }

  /** Every node on a known track has the slot of its number there. */
  ghost predicate InPlace(nodes: seq<TraceNode>) {
    forall p :: 0 <= p < |nodes| && nodes[p].track in TRACKS ==>
      RectOf(nodes[p]) == Slot(CountsIn(nodes), nodes[p].track, |AheadOf(nodes, p)|)
  }

  lemma BucketCount(nodes: seq<TraceNode>, t: string, s: seq<int>)
    requires IsBucket(nodes, t, s)
    ensures |NodesOn(nodes, t)| == |s|
  {
    assert NodesOn(nodes, t) == set i | i in s;
    DistinctSize(s);
  }

  lemma AheadCount(nodes: seq<TraceNode>, t: string, s: seq<int>, j: nat)
    requires IsBucket(nodes, t, s) && j < |s| && Indices(|nodes|, s)
    requires if t == CONTEXT then Ascending(s) else StablySorted(nodes, s)
    ensures |AheadOf(nodes, s[j])| == j
  {
    assert s[j] in s;
    forall k | 0 <= k < |s|
      ensures Ahead(nodes, s[k], s[j]) <==> k < j
    {
      assert s[k] in s;
      if j < k {
        assert if t == CONTEXT then s[j] < s[k] else RankedBefore(nodes, s[j], s[k]);
      }
    }
    BeforeJ(nodes, t, s, j);
    DistinctSize(s[..j]);
  }

  lemma BeforeJ(nodes: seq<TraceNode>, t: string, s: seq<int>, j: nat)
    requires IsBucket(nodes, t, s) && j < |s| && Indices(|nodes|, s) && nodes[s[j]].track == t
    requires forall k :: 0 <= k < |s| ==> (Ahead(nodes, s[k], s[j]) <==> k < j)
    ensures AheadOf(nodes, s[j]) == set i | i in s[..j]
  {
    forall q | q in AheadOf(nodes, s[j])
      ensures q in s[..j]
    {
      assert q in s;
      var k :| 0 <= k < |s| && s[k] == q;
      assert s[..j][k] == q;
    }
  }

  ghost predicate OnLanes(nodes: seq<TraceNode>, lanes: seq<TraceLane>) {
    forall p :: 0 <= p < |nodes| && nodes[p].track in TRACKS - {CONTEXT} ==>
      exists l :: l in lanes && InLane(RectOf(nodes[p]), l)
  }

  lemma RowsOnLanes(nodes: seq<TraceNode>, width: int)
    requires OnRows(nodes, width)
    ensures OnLanes(nodes, Lanes(width))
  {
    forall p | 0 <= p < |nodes| && nodes[p].track in TRACKS - {CONTEXT}
      ensures exists l :: l in Lanes(width) && InLane(RectOf(nodes[p]), l)
    {
      RowsHaveLanes(RectOf(nodes[p]), width);
    }
  }

  lemma {:induction false} EachInPlace(nodes: seq<TraceNode>, b: Buckets, c: Counts)
    requires Arranged(nodes, b, c)
    ensures CountsIn(nodes) == c && InPlace(nodes)
  {
    forall t | t in TRACKS
      ensures |NodesOn(nodes, t)| == |b[t]|
    {
      assert IsBucket(nodes, t, b[t]);
      BucketCount(nodes, t, b[t]);
    }
    forall p | 0 <= p < |nodes| && nodes[p].track in TRACKS
      ensures RectOf(nodes[p]) == Slot(c, nodes[p].track, |AheadOf(nodes, p)|)
    {
      var t := nodes[p].track;
      var j := Find(nodes, b, c, p);
      assert IsBucket(nodes, t, b[t]) && OnSlots(nodes, c, t, b[t]);
      assert t != CONTEXT ==> StablySorted(nodes, b[t]);
      AheadCount(nodes, t, b[t], j);
    }
  }

  ghost predicate NoOverlap(nodes: seq<TraceNode>) {
    forall p, q :: 0 <= p < q < |nodes| && nodes[p].track in TRACKS && nodes[q].track in TRACKS ==>
      !RectOf(nodes[p]).Overlaps(RectOf(nodes[q]))
  }

  ghost predicate WithinHeight(nodes: seq<TraceNode>, height: int) {
    forall p :: 0 <= p < |nodes| && nodes[p].track in TRACKS ==>
      0 <= nodes[p].x && 0 <= nodes[p].y && nodes[p].y + nodes[p].height <= height
  }

  ghost predicate OnRows(nodes: seq<TraceNode>, width: int) {
    forall p :: 0 <= p < |nodes| && nodes[p].track in TRACKS - {CONTEXT} ==> OnRow(RectOf(nodes[p]), width)
  }

  /** Left to right along a swimlane is by rank, then by position in the node list. */
  ghost predicate RunsByRank(nodes: seq<TraceNode>) {
    forall p, q {:trigger nodes[p], nodes[q]} :: SameLane(nodes, p, q) ==>
      (nodes[p].x < nodes[q].x <==> RankedBefore(nodes, p, q))
  }

  ghost predicate SameLane(nodes: seq<TraceNode>, p: int, q: int) {
    && 0 <= p < |nodes| && 0 <= q < |nodes|
    && nodes[p].track == nodes[q].track && nodes[p].track in TRACKS - {CONTEXT}
  }

  lemma {:induction false} Conclude(nodes: seq<TraceNode>, b: Buckets, c: Counts)
    requires Arranged(nodes, b, c)
    ensures NoOverlap(nodes) && WithinHeight(nodes, c.Height()) && OnRows(nodes, c.Width()) && RunsByRank(nodes)
  {
    forall p | 0 <= p < |nodes| && nodes[p].track in TRACKS {
      ArrangedIsInside(nodes, b, c, p);
    }
    forall p, q | 0 <= p < q < |nodes| && nodes[p].track in TRACKS && nodes[q].track in TRACKS {
      ArrangedIsDisjoint(nodes, b, c, p, q);
    }
    forall p, q | SameLane(nodes, p, q) {
      ArrangedIsSorted(nodes, b, c, p, q);
    }
  }

  /** The slots in pixels. */
  lemma SlotValues(c: Counts, j: nat)
    ensures Slot(c, INGRESS, j) == Rect(40 + j * 188, 52, 148, 72)
    ensures Slot(c, ANCHOR, j) == Rect(c.AnchorX() + j * 164, 152, 148, 72)
    ensures Slot(c, SHARED, j) == Rect(c.SharedStart() + j * 188, 152, 148, 72)
    ensures Slot(c, EGRESS, j) == Rect(c.EgressStart() + j * 188, 252, 148, 72)
    ensures Slot(c, CONTEXT, j) == Rect(40 + j % 6 * 142, 348 + j / 6 * 52, 128, 40)
  {
  }

  /** The placement loops of the ingress and anchor rows. */
  method PlaceLeft(nodes: array<TraceNode>, b: Buckets, ghost c: Counts, anchorX: int)
    requires InProgress(nodes[..], nodes[..], b, c, {}) && INGRESS in b && ANCHOR in b
    requires anchorX == c.AnchorX()
    modifies nodes
    ensures InProgress(old(nodes[..]), nodes[..], b, c, {INGRESS, ANCHOR})
  {
    forall j: nat { SlotValues(c, j); }
    PlaceBucket(nodes, b, INGRESS, (j: nat) => Rect(PAD_X + j * (NODE_W + HOP_GAP), INGRESS_Y, NODE_W, NODE_H),
                old(nodes[..]), c, {});
    assert {} + {INGRESS} == {INGRESS};
    PlaceBucket(nodes, b, ANCHOR, (j: nat) => Rect(anchorX + j * (NODE_W + 16), ANCHOR_Y, NODE_W, NODE_H),
                old(nodes[..]), c, {INGRESS});
    assert {INGRESS} + {ANCHOR} == {INGRESS, ANCHOR};
  }

  /** The placement loop of the shared nodes. */
  method PlaceShared(nodes: array<TraceNode>, b: Buckets, ghost start: seq<TraceNode>, ghost c: Counts,
                     sharedStart: int)
    requires InProgress(start, nodes[..], b, c, {INGRESS, ANCHOR}) && SHARED in b
    requires sharedStart == c.SharedStart()
    modifies nodes
    ensures InProgress(start, nodes[..], b, c, {INGRESS, ANCHOR, SHARED})
  {
    forall j: nat { SlotValues(c, j); }
    PlaceBucket(nodes, b, SHARED, (j: nat) => Rect(sharedStart + j * (NODE_W + HOP_GAP), ANCHOR_Y, NODE_W, NODE_H),
                start, c, {INGRESS, ANCHOR});
    assert {INGRESS, ANCHOR} + {SHARED} == {INGRESS, ANCHOR, SHARED};
  }

  /** The placement loop of the egress row. */
  method PlaceEgress(nodes: array<TraceNode>, b: Buckets, ghost start: seq<TraceNode>, ghost c: Counts,
                     egressStart: int)
    requires InProgress(start, nodes[..], b, c, {INGRESS, ANCHOR, SHARED}) && EGRESS in b
    requires egressStart == c.EgressStart()
    modifies nodes
    ensures InProgress(start, nodes[..], b, c, {INGRESS, ANCHOR, SHARED, EGRESS})
  {
    forall j: nat { SlotValues(c, j); }
    PlaceBucket(nodes, b, EGRESS, (j: nat) => Rect(egressStart + j * (NODE_W + HOP_GAP), EGRESS_Y, NODE_W, NODE_H),
                start, c, {INGRESS, ANCHOR, SHARED});
    assert {INGRESS, ANCHOR, SHARED} + {EGRESS} == {INGRESS, ANCHOR, SHARED, EGRESS};
  }

  /** The five placement loops. */
  method PlaceAll(nodes: array<TraceNode>, b: Buckets, ghost c: Counts, anchorX: int, sharedStart: int,
                  egressStart: int)
    requires Bucketed(nodes[..], b) && c == CountsOf(b)
    requires forall t :: t in TRACKS - {CONTEXT} ==> Indices(nodes.Length, b[t]) && StablySorted(nodes[..], b[t])
    requires Ascending(b[CONTEXT])
    requires anchorX == c.AnchorX() && sharedStart == c.SharedStart() && egressStart == c.EgressStart()
    modifies nodes
    ensures Moved(old(nodes[..]), nodes[..]) && Arranged(nodes[..], b, c)
    ensures forall i :: 0 <= i < nodes.Length && nodes[i].track !in TRACKS ==> nodes[i] == old(nodes[i])
  {
    ghost var start := nodes[..];
    PlaceLeft(nodes, b, c, anchorX);
    PlaceShared(nodes, b, start, c, sharedStart);
    PlaceEgress(nodes, b, start, c, egressStart);
    forall j: nat { SlotValues(c, j); }
    PlaceBucket(nodes, b, CONTEXT, (j: nat) =>
      Rect(PAD_X + j % 6 * (CTX_NODE_W + 14), CONTEXT_Y + j / 6 * (CTX_NODE_H + 12), CTX_NODE_W, CTX_NODE_H),
      start, c, {INGRESS, ANCHOR, SHARED, EGRESS});
    assert {INGRESS, ANCHOR, SHARED, EGRESS} + {CONTEXT} == TRACKS;
  }

  method Extent(b: Buckets, anchorX: int, anchorN: int, sharedStart: int, egressStart: int)
    returns (width: int, height: int)
    requires TRACKS <= b.Keys && anchorN == Max(|b[ANCHOR]|, 1)
    requires var c := CountsOf(b);
      anchorX == c.AnchorX() && sharedStart == c.SharedStart() && egressStart == c.EgressStart()
    ensures width == CountsOf(b).Width() && height == CountsOf(b).Height()
  {
    var maxX;
    if |b[EGRESS]| > 0 {
      maxX := egressStart + |b[EGRESS]| * (NODE_W + HOP_GAP);
    } else if |b[SHARED]| > 0 {
      maxX := sharedStart + |b[SHARED]| * (NODE_W + HOP_GAP);
    } else {
      maxX := anchorX + anchorN * (NODE_W + 16) + NODE_W;
    }
    height := EGRESS_Y + NODE_H + PAD_Y;
    if |b[CONTEXT]| > 0 {
      var rows := (|b[CONTEXT]| + 5) / 6;
      height := CONTEXT_Y + rows * (CTX_NODE_H + 12) + CTX_NODE_H + PAD_Y;
    }
    width := maxX + PAD_X;
  }

  /**
   Ranks, sorts and places the nodes, each on the slot of its number on its track. No two
   nodes on known tracks overlap; every one lies within the height, and those off the context
   track within the width and on a swimlane; along such a track the nodes run by rank, and in
   their given order among equals.
   */
  method ApplyLayout(nodes: array<TraceNode>, edges: seq<TraceEdge>, paths: seq<PathSummary>)
    returns (width: int, height: int, lanes: seq<TraceLane>)
    modifies nodes
    ensures AllLaidOut(old(nodes[..]), nodes[..], edges, paths)
    ensures forall i :: 0 <= i < nodes.Length && nodes[i].track !in TRACKS ==> RectOf(nodes[i]) == RectOf(old(nodes[i]))
    ensures NoOverlap(nodes[..]) && WithinHeight(nodes[..], height) && OnRows(nodes[..], width) && RunsByRank(nodes[..])
    ensures InPlace(nodes[..])
    ensures if nodes.Length == 0 then (width, height, lanes) == (960, 420, [])
            else (width, height, lanes) == (CountsIn(nodes[..]).Width(), CountsIn(nodes[..]).Height(), Lanes(width))
    ensures OnLanes(nodes[..], lanes)
  {
    if nodes.Length == 0 {
      return 960, 420, [];
    }
    ghost var b, c, ranked;
    width, height, b, c, ranked := Arrange(nodes, edges, paths);
    MovedStaysLaidOut(old(nodes[..]), ranked, nodes[..], edges, paths);
    lanes := BuildTrackLanes(width);
    Conclude(nodes[..], b, c);
    EachInPlace(nodes[..], b, c);
    RowsOnLanes(nodes[..], width);
  }

  /** The nodes ranked, sorted and on their slots. */
  method Arrange(nodes: array<TraceNode>, edges: seq<TraceEdge>, paths: seq<PathSummary>)
    returns (width: int, height: int, ghost b: Buckets, ghost c: Counts, ghost ranked: seq<TraceNode>)
    modifies nodes
    ensures AllLaidOut(old(nodes[..]), ranked, edges, paths) && SameRects(old(nodes[..]), ranked)
    ensures Moved(ranked, nodes[..]) && Arranged(nodes[..], b, c) && width == c.Width() && height == c.Height()
    ensures forall i :: 0 <= i < nodes.Length && nodes[i].track !in TRACKS ==> nodes[i] == ranked[i]
  {
    var bs := AssignTracks(nodes, edges, paths);
    bs := SortBuckets(nodes, bs);
    b, c, ranked := bs, CountsOf(bs), nodes[..];

    var anchorN := Max(|bs[ANCHOR]|, 1);
    var anchorX := PAD_X + Max(|bs[INGRESS]|, 1) * (NODE_W + HOP_GAP);
    var sharedStart := anchorX + anchorN * (NODE_W + 16) + HOP_GAP;
    var egressStart := sharedStart;
    if |bs[SHARED]| > 0 {
      egressStart := egressStart + |bs[SHARED]| * (NODE_W + HOP_GAP);
    }
    PlaceAll(nodes, bs, c, anchorX, sharedStart, egressStart);
    width, height := Extent(bs, anchorX, anchorN, sharedStart, egressStart);
  }

  ghost predicate AllLaidOut(n: seq<TraceNode>, r: seq<TraceNode>, edges: seq<TraceEdge>, paths: seq<PathSummary>) {
    |n| == |r| && forall i :: 0 <= i < |n| ==> LaidOut(n[i], r[i], edges, paths)
  }

  ghost predicate SameRects(n: seq<TraceNode>, r: seq<TraceNode>) {
    |n| == |r| && forall i :: 0 <= i < |n| ==> RectOf(n[i]) == RectOf(r[i])
  }

  lemma MovedStaysLaidOut(n: seq<TraceNode>, ranked: seq<TraceNode>, r: seq<TraceNode>, edges: seq<TraceEdge>,
                          paths: seq<PathSummary>)
    requires AllLaidOut(n, ranked, edges, paths) && SameRects(n, ranked) && Moved(ranked, r)
    requires forall i :: 0 <= i < |r| && r[i].track !in TRACKS ==> r[i] == ranked[i]
    ensures AllLaidOut(n, r, edges, paths)
    ensures forall i :: 0 <= i < |r| && r[i].track !in TRACKS ==> RectOf(r[i]) == RectOf(n[i])
  {
    forall i | 0 <= i < |n|
      ensures LaidOut(n[i], r[i], edges, paths)
    {
      assert LaidOut(n[i], ranked[i], edges, paths);
      assert r[i] == Placed(ranked[i], RectOf(r[i]));
    }
    forall i | 0 <= i < |r| && r[i].track !in TRACKS
      ensures RectOf(r[i]) == RectOf(n[i])
    {
      assert r[i] == ranked[i];
    }
  }
}
