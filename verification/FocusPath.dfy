/** The breadth-first search that finds the route to highlight. */
module FocusPath {
  import opened TraceGraph

  /** A queue entry: a discovered vertex and the path it was discovered by. */
  datatype Step = Step(id: string, path: seq<string>)

  type Adjacency = map<string, seq<string>>

  function Neighbours(adj: Adjacency, a: string): seq<string> {
    if a in adj then adj[a] else []
  }

  method BuildAdjacency(edges: seq<TraceEdge>) returns (adj: Adjacency)
    ensures forall a, b :: b in Neighbours(adj, a) <==> Joined(edges, a, b)
  {
    adj := map[];
    for n := 0 to |edges|
      invariant forall a, b :: b in Neighbours(adj, a) <==> Joined(edges[..n], a, b)
    {
      var e := edges[n];
      ghost var before := adj;
      adj := adj[e.from := Neighbours(adj, e.from) + [e.to]];
      adj := adj[e.to := Neighbours(adj, e.to) + [e.from]];
      forall a, b
        ensures b in Neighbours(adj, a) <==> Joined(edges[..n + 1], a, b)
      {
        assert b in Neighbours(adj, a) <==> b in Neighbours(before, a) || Joins(e, a, b);
        assert edges[..n + 1] == edges[..n] + [e];
        assert Joined(edges[..n + 1], a, b) <==> Joined(edges[..n], a, b) || Joins(e, a, b);
      }
    }
    assert edges[..|edges|] == edges;
  }

  function QueueIDs(queue: seq<Step>): set<string> {
    set s | s in queue :: s.id
  }

  function Universe(edges: seq<TraceEdge>, sources: set<string>): set<string> {
    sources + (set e | e in edges :: e.from) + (set e | e in edges :: e.to)
  }

  /**
   The frontier of the search. `dist` covers the visited vertices and `done` those already
   expanded; the queue holds the rest in order of distance, all at `level` or one more.
   */
  ghost predicate Frontier(edges: seq<TraceEdge>, sources: set<string>,
                           queue: seq<Step>, dist: map<string, nat>, done: set<string>, level: nat)
  {
    && dist.Keys <= Universe(edges, sources)
    && QueueIDs(queue) == dist.Keys - done
    && done <= dist.Keys
    && (forall i, j :: 0 <= i < j < |queue| ==> queue[i].id != queue[j].id)
    && (forall i :: 0 <= i < |queue| ==> PathTo(edges, sources, queue[i], dist))
    && (forall i :: 0 <= i < |queue| ==> level <= dist[queue[i].id] <= level + 1)
    && (forall i, j :: 0 <= i < j < |queue| ==> dist[queue[i].id] <= dist[queue[j].id])
    && (forall u :: u in done ==> dist[u] <= level)
    && (forall s :: s in sources ==> s in dist && dist[s] == 0)
  }

  ghost predicate PathTo(edges: seq<TraceEdge>, sources: set<string>, s: Step, dist: map<string, nat>) {
    && IsWalk(edges, s.path)
    && s.path[0] in sources && s.path[|s.path| - 1] == s.id
    && s.id in dist && |s.path| == dist[s.id] + 1
  }

  /** Every neighbour of an expanded vertex is visited, at most one hop further. */
  ghost predicate Closed(edges: seq<TraceEdge>, dist: map<string, nat>, done: set<string>) {
    forall u, v :: u in done && Joined(edges, u, v) ==> u in dist && v in dist && dist[v] <= dist[u] + 1
  }

  /** A walk that leaves the sources and ends outside `done` passes a visited vertex awaiting expansion. */
  lemma {:induction false} PendingOnWalk(edges: seq<TraceEdge>, w: seq<string>, i: nat,
                                         dist: map<string, nat>, done: set<string>) returns (k: nat)
    requires IsWalk(edges, w) && i < |w| && w[|w| - 1] !in done
    requires w[i] in dist && dist[w[i]] <= i
    requires Closed(edges, dist, done)
    ensures i <= k < |w| && w[k] in dist.Keys - done && dist[w[k]] <= k
    decreases |w| - i
  {
    if w[i] !in done {
      k := i;
    } else {
      assert Joined(edges, w[i], w[i + 1]);
      k := PendingOnWalk(edges, w, i + 1, dist, done);
    }
  }

  /** Any route is at least as long as the path of the queue's first entry. */
  lemma FrontIsNearest(edges: seq<TraceEdge>, sources: set<string>, dests: set<string>, w: seq<string>,
                       queue: seq<Step>, dist: map<string, nat>, done: set<string>, level: nat)
    requires Frontier(edges, sources, queue, dist, done, level) && Closed(edges, dist, done)
    requires IsRoute(edges, sources, dests, w) && done !! dests
    ensures |queue| > 0 && |queue[0].path| <= |w|
  {
    var k := PendingOnWalk(edges, w, 0, dist, done);
    assert w[k] in QueueIDs(queue);
    var s :| s in queue && s.id == w[k];
    var j :| 0 <= j < |queue| && queue[j] == s;
    assert dist[queue[0].id] <= dist[queue[j].id];
    assert PathTo(edges, sources, queue[0], dist);
  }

  /** Extending the path of an expanded vertex by one of its neighbours. */
  lemma ExtendPath(edges: seq<TraceEdge>, sources: set<string>, cur: Step, next: string,
                   dist: map<string, nat>, dist': map<string, nat>)
    requires PathTo(edges, sources, cur, dist) && Joined(edges, cur.id, next)
    requires next in dist' && dist'[next] == dist[cur.id] + 1
    ensures PathTo(edges, sources, Step(next, cur.path + [next]), dist')
  {
    var p := cur.path + [next];
    forall i | 0 <= i < |p| - 1
      ensures Joined(edges, p[i], p[i + 1])
    {
      if i < |cur.path| - 1 {
        assert Joined(edges, cur.path[i], cur.path[i + 1]);
      }
    }
  }

  /** Queueing the sources that exist as nodes; the set is visited in no particular order. */
  method SeedQueue(edges: seq<TraceEdge>, sourceIDs: set<string>, nodeSet: set<string>)
    returns (queue: seq<Step>, visited: set<string>)
    ensures visited == sourceIDs * nodeSet
    ensures Frontier(edges, sourceIDs * nodeSet, queue, map v | v in visited :: 0, {}, 0)
  {
    queue, visited := [], {};
    var pending := sourceIDs;
    while pending != {}
      invariant pending <= sourceIDs
      invariant visited == (sourceIDs - pending) * nodeSet
      invariant QueueIDs(queue) == visited
      invariant forall i, j :: 0 <= i < j < |queue| ==> queue[i].id != queue[j].id
      invariant forall i :: 0 <= i < |queue| ==> queue[i].path == [queue[i].id]
      decreases pending
    {
      var id :| id in pending;
      pending := pending - {id};
      if id in nodeSet {
        assert QueueIDs(queue + [Step(id, [id])]) == QueueIDs(queue) + {id};
        assert forall i :: 0 <= i < |queue| ==> queue[i].id in QueueIDs(queue);
        queue := queue + [Step(id, [id])];
        visited := visited + {id};
      }
    }
    SeededFrontier(edges, queue, visited);
  }

  lemma SeededFrontier(edges: seq<TraceEdge>, queue: seq<Step>, visited: set<string>)
    requires QueueIDs(queue) == visited
    requires forall i, j :: 0 <= i < j < |queue| ==> queue[i].id != queue[j].id
    requires forall i :: 0 <= i < |queue| ==> queue[i].path == [queue[i].id]
    ensures Frontier(edges, visited, queue, map v | v in visited :: 0, {}, 0)
  {
    assert forall i :: 0 <= i < |queue| ==> queue[i].id in QueueIDs(queue);
  }

  /**
   The shortest route from a source that exists as a node to a destination, or `[]` when
   there is none. Edges are followed in both directions.
   */
  method ShortestPath(edges: seq<TraceEdge>, sourceIDs: set<string>, destIDs: set<string>, nodeSet: set<string>)
    returns (best: seq<string>)
    ensures best == [] <==> !Reachable(edges, sourceIDs * nodeSet, destIDs)
    ensures best != [] ==> IsShortestRoute(edges, sourceIDs * nodeSet, destIDs, best)
  {
    ghost var sources := sourceIDs * nodeSet;
    var adj := BuildAdjacency(edges);
    var queue, visited := SeedQueue(edges, sourceIDs, nodeSet);
    best := [];
    ghost var dist: map<string, nat> := map v | v in visited :: 0;
    ghost var done, level := {}, 0;
    while |queue| > 0 && best == []
      invariant best == [] ==> visited == dist.Keys
      invariant best == [] ==> Frontier(edges, sources, queue, dist, done, level)
      invariant best == [] ==> Closed(edges, dist, done) && done !! destIDs
      invariant best != [] ==> IsShortestRoute(edges, sources, destIDs, best)
      decreases Universe(edges, sources) - done, best == []
    {
      var cur := queue[0];
      assert PathTo(edges, sources, cur, dist);
      if cur.id in destIDs {
        forall w | IsRoute(edges, sources, destIDs, w)
          ensures |cur.path| <= |w|
        {
          FrontIsNearest(edges, sources, destIDs, w, queue, dist, done, level);
        }
        best := cur.path;
        break;
      }
      queue, visited, dist := Expand(edges, adj, sources, queue, visited, dist, done, level);
      level := dist[cur.id];
      done := done + {cur.id};
    }
    if best == [] {
      if w :| IsRoute(edges, sources, destIDs, w) {
        FrontIsNearest(edges, sources, destIDs, w, queue, dist, done, level);
      }
    } else {
      assert IsRoute(edges, sources, destIDs, best);
    }
  }

  /** Dequeues the first entry and queues its unvisited neighbours. */
  method Expand(edges: seq<TraceEdge>, adj: Adjacency, ghost sources: set<string>, queue0: seq<Step>,
                visited0: set<string>, ghost dist0: map<string, nat>, ghost done: set<string>, ghost level: nat)
    returns (queue: seq<Step>, visited: set<string>, ghost dist: map<string, nat>)
    requires forall a, b :: b in Neighbours(adj, a) <==> Joined(edges, a, b)
    requires |queue0| > 0 && visited0 == dist0.Keys
    requires Frontier(edges, sources, queue0, dist0, done, level) && Closed(edges, dist0, done)
    ensures visited == dist.Keys && queue0[0].id in dist && dist[queue0[0].id] == dist0[queue0[0].id]
    ensures Frontier(edges, sources, queue, dist, done + {queue0[0].id}, dist[queue0[0].id])
    ensures Closed(edges, dist, done + {queue0[0].id})
  {
    var cur := queue0[0];
    assert cur in queue0 && PathTo(edges, sources, cur, dist0);
    queue, visited, dist := queue0[1..], visited0, dist0;
    ghost var at := dist0[cur.id];
    ghost var done' := done + {cur.id};
    PopFront(edges, sources, queue0, dist0, done, level);
    var next := Neighbours(adj, cur.id);
    for k := 0 to |next|
      invariant visited == dist.Keys && dist0.Keys <= dist.Keys
      invariant forall v :: v in dist0 ==> dist[v] == dist0[v]
      invariant Frontier(edges, sources, queue, dist, done', at)
      invariant forall i :: 0 <= i < k ==> next[i] in dist && dist[next[i]] <= at + 1
    {
      var v := next[k];
      if v !in visited {
        assert v in next && Joined(edges, cur.id, v);
        ghost var was := dist;
        dist := dist[v := at + 1];
        ExtendPath(edges, sources, cur, v, was, dist);
        PushBack(edges, sources, queue, was, done', at, Step(v, cur.path + [v]));
        visited := visited + {v};
        queue := queue + [Step(v, cur.path + [v])];
      } else {
        AtMostOneMore(edges, sources, queue, dist, done', at, v);
      }
    }
    StillClosed(edges, adj, cur.id, dist0, dist, done);
  }

  /** An expanded vertex joins those whose neighbours are all visited. */
  lemma StillClosed(edges: seq<TraceEdge>, adj: Adjacency, a: string,
                    dist0: map<string, nat>, dist: map<string, nat>, done: set<string>)
    requires forall a, b :: b in Neighbours(adj, a) <==> Joined(edges, a, b)
    requires Closed(edges, dist0, done) && a in dist && forall v :: v in dist0 ==> v in dist && dist[v] == dist0[v]
    requires forall v :: v in Neighbours(adj, a) ==> v in dist && dist[v] <= dist[a] + 1
    ensures Closed(edges, dist, done + {a})
  {
    forall u, v | u in done + {a} && Joined(edges, u, v)
      ensures u in dist && v in dist && dist[v] <= dist[u] + 1
    {
      if u == a {
        assert v in Neighbours(adj, a);
      } else {
        assert u in done && v in dist0 && dist0[v] <= dist0[u] + 1;
      }
    }
  }

  /** What is left in the queue after its first step. */
  lemma TailIDs(queue: seq<Step>)
    requires |queue| > 0 && forall i, j :: 0 <= i < j < |queue| ==> queue[i].id != queue[j].id
    ensures queue[0].id in QueueIDs(queue) && QueueIDs(queue[1..]) == QueueIDs(queue) - {queue[0].id}
  {
    var tail := queue[1..];
    assert queue == [queue[0]] + tail;
    forall s | s in tail
      ensures s.id != queue[0].id
    {
      var i :| 0 <= i < |tail| && tail[i] == s;
      assert queue[i + 1] == s;
    }
  }

  lemma PopFront(edges: seq<TraceEdge>, sources: set<string>, queue: seq<Step>,
                 dist: map<string, nat>, done: set<string>, level: nat)
    requires |queue| > 0 && Frontier(edges, sources, queue, dist, done, level)
    ensures queue[0].id in dist
    ensures Frontier(edges, sources, queue[1..], dist, done + {queue[0].id}, dist[queue[0].id])
  {
    var tail := queue[1..];
    TailIDs(queue);
    assert forall i :: 0 <= i < |tail| ==> tail[i] == queue[i + 1];
  }

  lemma PushBack(edges: seq<TraceEdge>, sources: set<string>, queue: seq<Step>,
                 dist: map<string, nat>, done: set<string>, level: nat, s: Step)
    requires Frontier(edges, sources, queue, dist, done, level)
    requires s.id !in dist && s.id in Universe(edges, sources)
    requires PathTo(edges, sources, s, dist[s.id := level + 1])
    ensures Frontier(edges, sources, queue + [s], dist[s.id := level + 1], done, level)
  {
    var queue', dist' := queue + [s], dist[s.id := level + 1];
    assert QueueIDs(queue') == QueueIDs(queue) + {s.id};
    forall i | 0 <= i < |queue|
      ensures queue'[i] == queue[i] && queue[i].id != s.id && dist'[queue[i].id] == dist[queue[i].id]
      ensures PathTo(edges, sources, queue'[i], dist')
    {
      assert PathTo(edges, sources, queue[i], dist);
    }
  }

  lemma AtMostOneMore(edges: seq<TraceEdge>, sources: set<string>, queue: seq<Step>,
                      dist: map<string, nat>, done: set<string>, level: nat, v: string)
    requires Frontier(edges, sources, queue, dist, done, level) && v in dist
    ensures dist[v] <= level + 1
  {
    if v !in done {
      assert v in QueueIDs(queue);
    }
  }
}
