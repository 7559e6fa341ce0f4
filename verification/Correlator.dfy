/** Maps probe observations onto the primary edges of the path map, in order. */
module Correlator {
  import opened Sequences
  import Sorting
  import Text
  import opened TraceGraph

  datatype EdgePaintState = TheoryOnly | ActiveGreen | DroppedRed

  /** The rank of the last node with this id; 0 when there is none. */
  ghost function RankOf(nodes: seq<TraceNode>, id: string): int {
    if nodes == [] then 0
    else if nodes[|nodes| - 1].id == id then nodes[|nodes| - 1].rank
    else RankOf(nodes[..|nodes| - 1], id)
  }

  function Lookup(rank: map<string, int>, id: string): int {
    if id in rank then rank[id] else 0
  }

  /** `a` is painted before `b`: by the rank of where it starts, then by id. */
  ghost predicate Before(nodes: seq<TraceNode>, a: TraceEdge, b: TraceEdge) {
    var ra, rb := RankOf(nodes, a.from), RankOf(nodes, b.from);
    if ra != rb then ra < rb else Text.Less(a.id, b.id)
  }

  predicate RankLess(rank: map<string, int>, a: TraceEdge, b: TraceEdge) {
    var ra, rb := Lookup(rank, a.from), Lookup(rank, b.from);
    if ra != rb then ra < rb else Text.Less(a.id, b.id)
  }

  lemma RankLessIsWeakOrder(rank: map<string, int>)
    ensures Sorting.WeakOrder((a: TraceEdge, b: TraceEdge) => RankLess(rank, a, b))
  {
    forall x: TraceEdge, y: TraceEdge
      ensures RankLess(rank, x, y) ==> !RankLess(rank, y, x)
    {
      Text.LessTotal(x.id, y.id);
    }
    forall x: TraceEdge, y: TraceEdge, z: TraceEdge | !RankLess(rank, y, x) && !RankLess(rank, z, y)
      ensures !RankLess(rank, z, x)
    {
      Text.NotLessTransitive(x.id, y.id, z.id);
    }
  }

  method RankTable(nodes: seq<TraceNode>) returns (rank: map<string, int>)
    ensures forall id :: Lookup(rank, id) == RankOf(nodes, id)
  {
    rank := map[];
    for i := 0 to |nodes|
      invariant forall id :: Lookup(rank, id) == RankOf(nodes[..i], id)
    {
      assert nodes[..i + 1][..i] == nodes[..i];
      rank := rank[nodes[i].id := nodes[i].rank];
    }
    assert nodes[..|nodes|] == nodes;
  }

  /** `out` lists the primary edges, each as often as it occurs, in painting order. */
  ghost predicate InPaintOrder(nodes: seq<TraceNode>, edges: seq<TraceEdge>, out: seq<TraceEdge>) {
    && multiset(out) == multiset(Filter(edges, (e: TraceEdge) => e.primary))
    && forall i, j :: 0 <= i < j < |out| ==> !Before(nodes, out[j], out[i])
  }

  method PrimaryEdgesInOrder(nodes: seq<TraceNode>, edges: seq<TraceEdge>) returns (out: seq<TraceEdge>)
    ensures InPaintOrder(nodes, edges, out)
  {
    var rank := RankTable(nodes);
    out := [];
    ghost var p := (e: TraceEdge) => e.primary;
    for i := 0 to |edges|
      invariant out == Filter(edges[..i], p)
    {
      FilterOneMore(edges, i, p);
      if edges[i].primary {
        out := out + [edges[i]];
      }
    }
    assert edges[..|edges|] == edges;
    RankLessIsWeakOrder(rank);
    out := Sorting.SortSlice((a: TraceEdge, b: TraceEdge) => RankLess(rank, a, b), out);
  }

  /** With distinct ids there is only one painting order, whatever sorting algorithm is used. */
  lemma PaintOrderIsUnique(nodes: seq<TraceNode>, edges: seq<TraceEdge>, a: seq<TraceEdge>, b: seq<TraceEdge>)
    requires DistinctEdgeIDs(edges)
    requires InPaintOrder(nodes, edges, a) && InPaintOrder(nodes, edges, b)
    ensures a == b
  {
    var rank := RankTableOf(nodes);
    var less := (x: TraceEdge, y: TraceEdge) => RankLess(rank, x, y);
    RankLessIsWeakOrder(rank);
    PrimariesDistinct(edges, a);
    forall i, j | 0 <= i < |a| && 0 <= j < |a| && a[i] != a[j]
      ensures less(a[i], a[j]) || less(a[j], a[i])
    {
      Text.LessTotal(a[i].id, a[j].id);
    }
    Sorting.SortedUnique(less, a, b);
  }

  /** The primary edges, whatever their order, have distinct ids. */
  lemma PrimariesDistinct(edges: seq<TraceEdge>, out: seq<TraceEdge>)
    requires DistinctEdgeIDs(edges) && multiset(out) == multiset(Filter(edges, (e: TraceEdge) => e.primary))
    ensures DistinctEdgeIDs(out)
    ensures forall e :: e in out <==> e in edges && e.primary
  {
    var p := (e: TraceEdge) => e.primary;
    FilterMembers(edges, p);
    SameMembers(out, Filter(edges, p));
    FilterDistinct(edges, p);
    PermutedKeys(Filter(edges, p), out, (e: TraceEdge) => e.id);
  }

  ghost function RankTableOf(nodes: seq<TraceNode>): (rank: map<string, int>)
    ensures forall id :: Lookup(rank, id) == RankOf(nodes, id)
  {
    if nodes == [] then map[]
    else RankTableOf(nodes[..|nodes| - 1])[nodes[|nodes| - 1].id := nodes[|nodes| - 1].rank]
  }

  /** Every edge of the graph starts out unpainted. */
  function Unpainted(edges: seq<TraceEdge>): (states: map<string, EdgePaintState>)
    ensures forall e :: e in edges ==> e.id in states
  {
    var ids := set e | e in edges :: e.id;
    map id | id in ids :: TheoryOnly
  }

  class GraphCorrelator {
    const edges: seq<TraceEdge>
    var edgeStates: map<string, EdgePaintState>
    var seqNo: nat

    ghost predicate Valid()
      reads this
    {
      && DistinctEdgeIDs(edges) && seqNo <= |edges|
      && (forall i :: 0 <= i < |edges| ==> edges[i].id != "" && edges[i].id in edgeStates)
    }

    /** The first `seqNo` edges are painted green or red, and no others. */
    ghost predicate PaintedPrefix()
      requires Valid()
      reads this
    {
      forall i :: 0 <= i < |edges| ==> (edgeStates[edges[i].id] != TheoryOnly <==> i < seqNo)
    }

    constructor (nodes: seq<TraceNode>, edges: seq<TraceEdge>)
      requires DistinctEdgeIDs(edges) && forall e :: e in edges ==> e.id != ""
      ensures Valid() && seqNo == 0 && InPaintOrder(nodes, edges, this.edges)
      ensures edgeStates == Unpainted(edges)
    {
      var ordered := PrimaryEdgesInOrder(nodes, edges);
      PrimariesDistinct(edges, ordered);
      assert forall i :: 0 <= i < |ordered| ==> ordered[i] in ordered;
      this.edges := ordered;
      edgeStates := Unpainted(edges);
      seqNo := 0;
    }

    /** Paints the next edge green. */
    method Advance(hook: string) returns (edgeID: string, ok: bool)
      requires Valid()
      modifies this
      ensures Valid() && ok == (old(seqNo) < |edges|)
      ensures ok ==> edgeID == edges[old(seqNo)].id && seqNo == old(seqNo) + 1
                     && edgeStates == old(edgeStates)[edgeID := ActiveGreen]
      ensures !ok ==> edgeID == "" && seqNo == old(seqNo) && edgeStates == old(edgeStates)
    {
      if seqNo >= |edges| { return "", false; }
      var edge := edges[seqNo];
      edgeStates := edgeStates[edge.id := ActiveGreen];
      seqNo := seqNo + 1;
      return edge.id, true;
    }

    /** Paints a given edge red; a primary edge not reached yet becomes the last one painted. */
    method MarkDropOnEdge(edgeID: string) returns (ok: bool)
      requires Valid()
      modifies this
      ensures Valid() && ok == (edgeID != "" && edgeID in old(edgeStates))
      ensures !ok ==> edgeStates == old(edgeStates) && seqNo == old(seqNo)
      ensures ok ==> edgeStates == old(edgeStates)[edgeID := DroppedRed]
      ensures ok ==> forall i :: 0 <= i < |edges| && edges[i].id == edgeID ==>
                seqNo == if old(seqNo) <= i then i + 1 else old(seqNo)
      ensures ok && (forall e :: e in edges ==> e.id != edgeID) ==> seqNo == old(seqNo)
    {
      if edgeID == "" { return false; }
      if edgeID !in edgeStates { return false; }
      edgeStates := edgeStates[edgeID := DroppedRed];
      for i := 0 to |edges|
        invariant seqNo == old(seqNo)
        invariant forall k :: 0 <= k < i ==> edges[k].id != edgeID
      {
        if edges[i].id == edgeID {
          if seqNo <= i {
            seqNo := i + 1;
          }
          break;
        }
      }
      return true;
    }

    method Remaining() returns (n: nat)
      requires Valid()
      ensures n == |edges| - seqNo
    {
      if seqNo >= |edges| { return 0; }
      return |edges| - seqNo;
    }

    method NextEdgeID() returns (id: string)
      requires Valid()
      ensures id == if seqNo < |edges| then edges[seqNo].id else ""
    {
      if seqNo >= |edges| { return ""; }
      return edges[seqNo].id;
    }

    /** How many of the first `n` edges are painted. */
    ghost function Painted(n: nat): nat
      requires Valid() && n <= |edges|
      reads this
    {
      if n == 0 then 0 else Painted(n - 1) + if edgeStates[edges[n - 1].id] != TheoryOnly then 1 else 0
    }

    method VerifiedCount() returns (n: nat)
      requires Valid()
      ensures n == Painted(|edges|)
    {
      n := 0;
      for i := 0 to |edges|
        invariant n == Painted(i)
      {
        var st := edgeStates[edges[i].id];
        if st == ActiveGreen || st == DroppedRed {
          n := n + 1;
        }
      }
    }

    lemma {:induction false} PrefixIsCounted(n: nat)
      requires Valid() && PaintedPrefix() && n <= |edges|
      ensures Painted(n) == if n < seqNo then n else seqNo
    {
      if n > 0 {
        PrefixIsCounted(n - 1);
      }
    }

    method PrimaryCount() returns (n: nat)
      ensures n == |edges|
    {
      return |edges|;
    }
  }
}
