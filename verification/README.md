# SPCG: verified models of the capture gateway's algorithms

This project models the algorithmic core of SPCG, a packet-capture gateway with a Go backend and
a TypeScript interface, and proves what that core is relied on for. `dafny verify dfyconfig.toml`
checks all of it.

- **Path map** (`TraceGraph`, `FocusPath`, `GraphBuilder`, `GraphSimplify`, `Track`, `Layout`).
  Pods, services and interfaces are collected into a graph; a breadth-first search from all sources
  marks a shortest route; everything off the route is pruned; the rest is laid out on swimlanes.
  The pruned graph keeps every endpoint and primary edge and the source-to-destination distance of the
  full one; each node stands on the slot of its number on its track, and no two nodes overlap.
- **Probe painting** (`Correlator`, `ProbeSession`, `ProbeFire`). Captured packets and a simulated
  painter paint the route hop by hop. A mutex-protected method is one atomic step; histories of hops,
  events and deliveries are ghost state, so that the invariants speak about whole runs. The painting
  is a function of the number of hops; every subscriber sees a subsequence of the log, and of each hop's
  events as many as its channel has room for.
- **Capture storage** (`Pcapng`, `S3Sink`, `CaptureSession`). A PCAP-NG writer, a reader written
  independently from sections 3.1 and 4.1 to 4.3 of draft-ietf-opsawg-pcapng, a sink that streams the
  same file as a multipart upload whose calls may be lost or go unanswered, and bounded buffers per
  pod.
- **Aggregation** (`Topology`, `TopologyLimits`, `Conversation`, `Analytics`, `Burst`). Two
  aggregators of the same events, the limiter, TCP handshake accounting, time buckets and the bars
  drawn from them.
- **Scrubbing** (`Tags`, `Patterns`, `Regexes`, `Expressions`, `Locality`, `Scrubber`, `RegexScrubbing`,
  `Addresses`, `AddressMasking`, `Cutting`, `ScrubRuns`). Reversible tags for sensitive values, at the
  level of strings. Each of the six regular expressions has a matcher, proved to report what a
  backtracking search for the expression finds first; `Regexes` defines that search and holds the
  expressions. Restoring is repeated `ReplaceAll` in any order.
- **Addresses** (`IPAddress`, `Bits`, `IPLookup`). IPv6 texts, their normal form, the public-address
  test, CIDR tests and binary search over country ranges.

`Text`, `Sorting`, `Sequences` and `Wrappers` hold what these share. Go's `sort.Slice` is known by its
contract alone (a sorted permutation), so nothing depends on how it treats ties; iteration over Go
maps picks elements in an arbitrary order. Clocks, the network and the results of foreign calls are
parameters.

Four promises hold only under a condition, which is proved to be exact, and each has an input that
fails it.

- A scrubbed text is restored if and only if no bearer value or account number is cut off from it,
  which depends on the text alone (`Cutting.Loses`), and no tag issued by then occurs in it
  (`ScrubRuns.ScrubThenRestoreLater`). The text `<INTERNAL_IP_1>` is lost once an address has been
  masked (`ScrubRuns.TagAsText`).
- A capture file reads back as its packets if and only if every block's length fits 32 bits
  (`Pcapng.RoundTrip`, `Pcapng.LongPacketIsLost`).
- The burst chart keeps its totals if and only if it fills in no gaps, or every bucket that filling in
  passes over is empty: buckets before 0, off the 100 ms grid, or with the offset of a later one
  (`Burst.ChartKeepsTotals`). For buckets the backend makes this means: no bucket with a negative
  offset (`Burst.EventsAreCharted`, `Burst.EarlyEventIsNotCharted`).
- Closing a stream needs no more than the network if and only if the upload is still open and every
  part is large but the one that would be the last (`S3Streaming.S3Sink.Close`). The first attempt
  always meets this. A repetition may not, and then no later attempt succeeds
  (`S3Streaming.NeverClosed`, `S3Streaming.FrameAfterFailedClose`).

## Model

| member | source | states |
|---|---|---|
| FocusPath.BuildAdjacency | internal/trace/path_focus.go:8-17 | The adjacency lists hold exactly the pairs joined by some edge, read in both directions. |
| FocusPath.SeedQueue | internal/trace/path_focus.go:23-31 | In whatever order the sources are visited, the queue starts as a breadth-first frontier of exactly the sources that exist as nodes. |
| FocusPath.Expand | internal/trace/path_focus.go:35-48 | Dequeuing a vertex and queueing its unvisited neighbours keeps the frontier: every queued path is a walk as long as its distance label, labels never fall along the queue and differ by at most one, and every neighbour of an expanded vertex is visited at most one hop further. |
| FocusPath.FrontIsNearest | internal/trace/path_focus.go:34-40 | No route from a source to a destination is shorter than the path of the first queue entry. |
| FocusPath.ShortestPath | internal/trace/path_focus.go:23-49 | The search ends with a path exactly when a destination is reachable from an existing source; that path is a route of least length among all walks from any source to any destination. |
| GraphBuilding.EdgeIDsAreDistinct | internal/trace/graph_builder.go:121-140 | The numbering `e-1`, `e-2`, ... never repeats an id: all edge ids are distinct and not empty. |
| GraphBuilding.KeysDiffer | internal/trace/graph_builder.go:121-129 | Different links have different keys, as long as no id they lead from holds `>` and no type holds `:`. |
| GraphBuilding.KeysMeet | internal/trace/graph_builder.go:121-129 | Without that two links may share a key: an input for either character. |
| GraphBuilding.PodIDsDiffer | internal/trace/graph_builder.go:174-182 | Pods whose names hold no `/` have the same id exactly when namespace and name agree but for white space around them. |
| GraphBuilding.GraphBuilder.constructor | internal/trace/graph_builder.go:30-56 | A new builder is empty and well-formed; its source and destination ids are exactly those of the given pods and address. |
| GraphBuilding.GraphBuilder.AddNode | internal/trace/graph_builder.go:100-119 | An id already known changes nothing; a new one is appended once with the kind's rank when the rank is negative. Ids stay distinct. |
| GraphBuilding.GraphBuilder.AddEdge | internal/trace/graph_builder.go:121-140 | Loops, missing ends and repeated keys are refused without any change; otherwise the edge is appended with the next number. |
| GraphBuilding.GraphBuilder.SeedEndpoints | internal/trace/graph_builder.go:81-98 | Seeding appends a tracked node for each source and destination and a host node for each scheduled source, the first of an id winning, and exactly the edges from sources to their hosts; so no endpoint is skipped by the search. |
| GraphBuilding.FirstWins | internal/trace/graph_builder.go:81-119 | Of the nodes added, exactly the first of each id that was not there before is kept. |
| GraphBuilding.SeededAreTracked | internal/trace/graph_builder.go:81-98 | In a builder that starts empty every node with a pod's id is tracked after seeding, so that pruning keeps it. |
| GraphBuilding.GraphBuilder.MarkRoute | internal/trace/path_focus.go:79-87 | Exactly the edges joining consecutive vertices of the route become primary, and nothing else about any edge changes. |
| GraphBuilding.GraphBuilder.MarkDirectEdges | internal/trace/path_focus.go:60-66 | In the fallback exactly the edges leading straight from a source to a destination become primary. |
| GraphBuilding.GraphBuilder.MarkFocusPath | internal/trace/path_focus.go:4-88 | Marks a shortest route if there is one of at least two vertices: its vertices focused, its edges primary. Otherwise (unreachable, or a source that is a destination) only the endpoints are focused and the direct edges primary. Links are unchanged; without sources or destinations nothing is. |
| GraphBuilding.SurvivingRouteKeepsDistance | internal/trace/path_focus.go:50-87 | Dropping edges and sources keeps the source-to-destination distance as long as one shortest route survives. |
| GraphBuilding.PruningKeepsDistances | internal/trace/graph_simplify.go:14-69 | For any marked graph, pruning yields a subgraph with the same reachability and the same shortest length from sources to destinations. |
| GraphBuilding.SurvivorsAreDistinct | internal/trace/graph_simplify.go:44-53 | The edges that survive pruning still have distinct, non-empty ids. |
| GraphBuilding.GraphBuilder.Finish | internal/trace/graph_builder.go:153-172 | Main result: the graph returned is exactly the simplification of the collected nodes, edges and paths, with a shortest route highlighted or else the fallback. Every tracked or focused node, every primary edge and its ends are in it, and nothing that was not collected. Reachability and shortest length from sources to destinations are kept in both directions; no two rectangles overlap; edge ids are distinct and not empty. |
| GraphSimplify.KeepSet | internal/trace/graph_simplify.go:19-31 | The kept ids are exactly those of tracked or focused nodes and of the ends of primary edges. |
| GraphSimplify.FilterNodes | internal/trace/graph_simplify.go:33-42 | The kept nodes in their order, with a layer filled in where it was missing. |
| GraphSimplify.FilterEdges | internal/trace/graph_simplify.go:44-53 | Exactly the edges with both ends kept, in order. |
| GraphSimplify.GraphStats | internal/trace/graph_simplify.go:71-85 | All five counters: survivors and pruned nodes add up to the total, physical and logical nodes to the survivors; focused nodes are those focused or tracked. |
| GraphSimplify.SimplifyGraph | internal/trace/graph_simplify.go:14-69 | The induced subgraph in the original order, each node with its layer, rank and track, in its place and without overlaps; the discovered paths; exact statistics, size and lanes. A graph without nodes comes back unchanged. |
| Track.EdgeDirectionFlags | internal/trace/track.go:101-114 | The flags say whether some edge at the node is of an ingress type, respectively an egress type. |
| Track.InferPathTrack | internal/trace/track.go:14-87 | The track the node belongs on: the anchor track holds exactly the tracked pods; policies are context; otherwise the first matching discovered path that decides, and failing that the kind and then the edges, decide. |
| Track.OneTrack | internal/trace/track.go:14-87 | That leaves exactly one of the five tracks for any node, edges and paths. |
| Layout.SlotsDisjoint | internal/trace/layout.go:78-117 | Two different slots, on any tracks and for any numbers of nodes, do not overlap. |
| Layout.SlotInside | internal/trace/layout.go:104-125 | Every slot in use lies within the height; outside the context track it lies within the width on one of three rows. |
| Layout.BuildTrackLanes | internal/trace/layout.go:143-160 | Exactly the three lanes, spanning the width. |
| Layout.RowsHaveLanes | internal/trace/layout.go:143-160 | Every rectangle on one of the rows lies inside a lane. |
| Layout.SinkLast | internal/trace/layout.go:164-166 | One round of the insertion sort, in place: the prefix becomes sorted by rank and position, the rest is untouched. |
| Layout.SortIndicesByRank | internal/trace/layout.go:162-168 | In place: a permutation of the indices, sorted by rank and, within a rank, by position (the sort is stable). |
| Layout.AssignTracks | internal/trace/layout.go:53-70 | Each node's index is in exactly the bucket of its track, in ascending order; only rank and track change. |
| Layout.SortBuckets | internal/trace/layout.go:71-76 | In any order of the buckets: every bucket but the context one ends up stably sorted by rank, with the same indices. |
| Layout.PlaceTrack | internal/trace/layout.go:82-84 | The j-th node of a bucket is put on the j-th slot, and no other node moves. |
| Layout.PlaceAll | internal/trace/layout.go:82-117 | After the five loops every node on a known track stands on its own slot. |
| Layout.Extent | internal/trace/layout.go:104-125 | Width and height as functions of how many nodes each track holds. |
| Layout.ApplyLayout | internal/trace/layout.go:48-134 | For any number of nodes: only rank, track and place change, and to exactly the node's rank and track; every node on a known track stands on the slot of its number there, counted by rank and position; no two placed rectangles overlap, all are within the height, lane nodes are within the width and inside a lane, and x order is the stable order by rank. Width, height and lanes are exact. |
| Layout.EachInPlace | internal/trace/layout.go:71-117 | Once the buckets are sorted and placed, a node's slot is given by how many nodes on its track have a smaller rank, or the same and an earlier position. |
| Correlator.RankTable | internal/trace/probe/correlator.go:28-31 | The rank table gives the rank of the last node with an id, 0 for an unknown id. |
| Correlator.PrimaryEdgesInOrder | internal/trace/probe/correlator.go:27-46 | A permutation of the primary edges in (rank of the start, id) order. |
| Correlator.PaintOrderIsUnique | internal/trace/probe/correlator.go:38-44 | With distinct ids there is only one such order, whatever sorting algorithm is used. |
| Correlator.GraphCorrelator.constructor | internal/trace/probe/correlator.go:18-25 | Starts at 0 with every edge of the graph unpainted. |
| Correlator.GraphCorrelator.Advance | internal/trace/probe/correlator.go:49-62 | Paints exactly the next edge green and moves on, or reports that none is left and changes nothing. |
| Correlator.GraphCorrelator.MarkDropOnEdge | internal/trace/probe/correlator.go:66-85 | Paints exactly the given edge red; a primary edge not reached yet becomes the last one painted; an unknown id changes nothing. |
| Correlator.GraphCorrelator.Remaining | internal/trace/probe/correlator.go:88-98 | The number of edges not advanced past. |
| Correlator.GraphCorrelator.NextEdgeID | internal/trace/probe/correlator.go:101-111 | The id of the next edge, or the empty string. |
| Correlator.GraphCorrelator.VerifiedCount | internal/trace/probe/correlator.go:114-128 | How many primary edges are painted green or red. |
| ProbeSession.Session.constructor | internal/trace/probe/session.go:15-29 | A new session has painted, announced and let in nothing. |
| ProbeFire.Fire | internal/trace/probe/fire.go:87-99 | A probe session on the graph a builder has finished: the graph returned meets all that the session asks, and only its primary edges are painted. |
| ProbeSession.Session.Broadcast | internal/trace/probe/session.go:177-189 | The event joins the log; each registered channel gets it unless it is full. No closed channel is sent to. |
| ProbeSession.Session.Deliver | internal/trace/probe/session.go:183-188 | In any order of the subscribers, what each has received stays a subsequence of the log. |
| ProbeSession.Session.Subscribe | internal/trace/probe/session.go:196-206 | Registers a fresh open channel that starts at the present end of the log. |
| ProbeSession.Session.Unsubscribe | internal/trace/probe/session.go:208-215 | Removes and closes the channel; a second call does nothing, so no channel is closed twice. |
| ProbeSession.Session.Receive | internal/trace/probe/session.go:12-13 | The subscriber reads its events in the order of arrival. |
| ProbeSession.Session.Stop | internal/trace/probe/session.go:43-68 | Announces the end unless the painting finished, to the log and to every channel with room, then closes every channel once and empties the registry. |
| ProbeSession.Session.FinishProbe | internal/trace/probe/session.go:149-166 | Latches the end once and announces it with the true counts, to the log and to every channel with room. |
| ProbeSession.Session.PaintDrop | internal/trace/probe/session.go:99-127 | The demo's last hop turns the final edge red, announces it and the end, and latches. |
| ProbeSession.Session.PaintNext | internal/trace/probe/session.go:129-146 | Any other hop paints the next edge green and announces it; with the last edge, or with none left, it finishes. |
| ProbeSession.Session.PaintHop | internal/trace/probe/session.go:89-147 | One atomic step, whoever asks for it: the events it adds to the log are a function of how many hops there have been, and each registered channel gets exactly those, in order, for as long as it has room; once finished it changes and emits nothing. |
| ProbeSession.Session.IngestCapture | internal/trace/probe/session.go:74-87 | A matching capture paints a hop, announced like any other, exactly when its number is 0 or above the last one. |
| ProbeSession.Session.RunSimulatedPaint | internal/trace/probe/session.go:219-245 | The simulated painter adds hops with the four hooks in turn until the session finishes or its rounds are used up, exactly that many; it finishes in at most as many rounds as there are edges, whatever was painted before. |
| ProbeSession.RunSummary | internal/trace/probe/session.go:89-166 | After any interleaving: the painted edges are exactly the first min(hops, n); verified count, position, sequence number and number of updates agree; finished exactly from hop max(1, n) on; only the last edge is red, and only in a finished demo drop. |
| ProbeSession.ProducersDoNotMatter | internal/trace/probe/session.go:74-87 | Which producer asked for which hop makes no difference to the painting. |
| ProbeSession.RepeatNeedsReset | internal/trace/probe/session.go:78-81 | A capture number is let in again only if a number 0 came in between. |
| Pcapng.EncodePCAPng | internal/pcap/pcapng.go:39-58 | The header and one packet block for each non-empty frame in order, with its own or the substitute timestamp; nothing when there are no frames. |
| Pcapng.ContainerIff | internal/pcap/pcapng.go:25-36 | Bytes are taken for a container exactly when they begin with the four bytes of a section header block or of a pcap file in either byte order. |
| Pcapng.BatchIsContainer | internal/pcap/pcapng.go:25-58 | What the writer makes is recognised as a container, so that it is not wrapped a second time. |
| Pcapng.BlockRoundTrip | internal/pcap/pcapng.go:99-105 | A block is 4-aligned, its leading and trailing lengths agree and equal its size, and the reader recovers its type, body and what follows. |
| Pcapng.EPBRoundTrip | internal/pcap/pcapng.go:81-97 | The reader recovers a packet's interface, its bytes, its original length, equal to the captured one, and its microseconds (modulo 2^64) from its block. |
| Pcapng.HeaderRoundTrip | internal/pcap/pcapng.go:60-79 | The reader accepts the section header, finds one Ethernet interface with snap length 65535, and goes on with what follows. |
| Pcapng.BlocksRoundTrip | internal/pcap/pcapng.go:45-56 | Any number of packets that fit are read back in order, followed by whatever comes next. |
| Pcapng.MisfitsAreNotRead | internal/pcap/pcapng.go:99-101 | If some packet's block length wraps, the packets are not all recovered. |
| Pcapng.RoundTrip | internal/pcap/pcapng.go:39-105 | Main result: writing then reading gives back exactly the packets, each whole, with its timestamp, on the Ethernet interface, if and only if every block's length fits 32 bits. |
| Pcapng.EncodeThenRead | internal/pcap/pcapng.go:39-58 | Encoding frames and reading the file yields the non-empty frames in order, exactly when they fit; no frames, no file. |
| Pcapng.LongPacketIsLost | internal/pcap/pcapng.go:99-101 | An input that is lost: a packet of 4 GiB less 36 bytes, whose block length wraps to 0. |
| S3Streaming.S3Sink.constructor | internal/pcap/s3sink.go:92-102 | A new sink holds the header, pending; nothing has been uploaded. |
| S3Streaming.S3Sink.FlushPart | internal/pcap/s3sink.go:147-166 | Uploads only when the buffer is large enough or when forced; an upload that fails, or that takes effect without an answer, keeps the buffer and uses up the number; parts and buffer together stay the file, with part numbers strictly increasing. |
| S3Streaming.S3Sink.WriteFrame | internal/pcap/s3sink.go:123-145 | A non-empty frame offered to an open sink becomes the file's next packet block; a part is uploaded exactly when that makes the buffer large enough, and the call fails exactly when that upload does. An empty frame succeeds and a closed sink refuses, without a change. Afterwards the sink is closable exactly when the upload is open and every part accepted before is large. |
| S3Streaming.S3Sink.UploadRest | internal/pcap/s3sink.go:174-179 | Uploads whatever is pending, like any other part: what is stored, what stays pending and whether it succeeds. |
| S3Streaming.S3Sink.RestIsAcceptable | internal/pcap/s3sink.go:174-193 | With the rest uploaded the store accepts the parts exactly when the sink was closable. |
| S3Streaming.S3Sink.Assemble | internal/pcap/s3sink.go:180-193 | Completing succeeds exactly when the answer gets through and the store accepts the parts; the object appears also when only the answer is lost. |
| S3Streaming.S3Sink.Finish | internal/pcap/s3sink.go:174-193 | The last upload and the completion succeed exactly when the sink was closable and the answers get through; what the store holds afterwards, assembled or aborted, is exact; a sink that was not closable does not become so. |
| S3Streaming.S3Sink.Close | internal/pcap/s3sink.go:168-200 | First attempt or repetition: closing an open sink succeeds exactly when it is closable and the answers get through; the first attempt finds it closable. Then the object is header plus one block per accepted frame, byte for byte. A closed sink reports success again. |
| S3Streaming.StreamAll | internal/pcap/s3sink.go:123-166 | Whatever becomes of the uploads, the frames written are the batch writer's packets in order. |
| S3Streaming.StreamThenClose | internal/pcap/s3sink.go:74-200 | Main result: for any frames and whatever becomes of each call, if closing succeeds there is an object, and any object equals the batch encoding of the same timestamped frames (just the header if there are none), and reads back exactly when they fit. |
| S3Streaming.NeverClosed | internal/pcap/s3sink.go:123-200 | A sink that is not closable stays so: whatever frames are written and however often closing is tried, no attempt ever succeeds. |
| S3Streaming.FrameAfterFailedClose | internal/pcap/s3sink.go:123-200 | How that comes about: one small frame, an attempt to close that uploads it and then fails, one more frame, and every later attempt fails, with a perfect network too. |
| CaptureSession.Session.AppendFlow | internal/pcap/session.go:148-186 | In memory mode, each pod's frames and events stay exactly the last 400 and 1500 ever appended for it, and its byte count the total. |
| CaptureSession.TrimPodBuffer | internal/pcap/session.go:231-238 | Keeps exactly the last 400 frames and 1500 events. |
| CaptureSession.Session.TotalBytes | internal/pcap/session.go:240-248 | The sum, over the pods in any order, is the length of everything ever appended, trimmed or not. |
| CaptureSession.EncodeFrames | internal/pcap/session.go:314-323 | Frames that already hold a capture file pass through; others become the batch encoding, which reads back exactly when they fit. |
| CaptureSession.Session.ExportPod | internal/pcap/session.go:270-281 | Known exactly for pods that were appended to; the file reads back as the kept non-empty frames, unless their bytes begin with a container of their own. |
| Topology.FlowCounters | internal/pcap/topology.go:401-420 | A positive byte counter or else the frame's length; a positive packet counter or else 1. |
| Topology.AddFlow | internal/pcap/topology.go:117-140 | One event adds its count, bytes, packets and round-trip time to the aggregate, and its protocol and ports where it names them. |
| Topology.MeanIsAtMostMax | internal/pcap/topology.go:133-140 | The sum of the measured times is at most their number times the largest. |
| Topology.Aggregate | internal/pcap/topology.go:90-140 | The table has an entry for exactly the resolved pairs, each aggregating exactly its events; the nodes are exactly the endpoints. |
| Topology.CollectEdges | internal/pcap/topology.go:197-221 | In any order of the table: one edge per pair, each the exact sum of its events, with the mean (sum over number) and the maximum of their measured times and the last protocol and ports they name. |
| Topology.CountsAreConserved | internal/pcap/topology.go:93-118 | The edge counts add up to the number of events whose endpoints resolve. |
| Topology.BuildFlowTopology | internal/pcap/topology.go:79-222 | Edges sorted by id, one per pair, each the exact aggregate of its events; counts conserved; nodes are exactly the endpoints, once each, sorted by id, each with the record of the last event that names it. |
| Topology.BuildFlowGraph | internal/pcap/flowgraph.go:26-65 | The second aggregator: the same pairs with the same counts, the ports of the pair's first event and the last protocol named, and the endpoints. |
| Topology.TalliesAgree | internal/pcap/flowgraph.go:31-58 | Two tallies of the same events have the same (from, to, count) rows. |
| Topology.CompareAggregators | internal/pcap/flowgraph.go:26-65 | On any events the two results have the same nodes and the same set of (from, to, count). |
| TopologyLimits.SampleEvents | internal/pcap/topology_limits.go:13-18 | The last `max` events; all of them when the limit is not positive or not reached. |
| TopologyLimits.TopEdges | internal/pcap/topology_limits.go:40-49 | The largest edges by bytes and then packets, in descending order; none is lost or invented, and none that is cut is larger than one kept. |
| TopologyLimits.BytesByNode | internal/pcap/topology_limits.go:66-70 | Each node's score is the bytes of the edges at it. |
| TopologyLimits.RankNodes | internal/pcap/topology_limits.go:65-77 | The untracked candidates, each once with its score, heaviest first. |
| TopologyLimits.SelectNodes | internal/pcap/topology_limits.go:51-90 | At most max(maxNodes, tracked) nodes, all tracked ones among them; no untracked node left out by the budget carries more bytes than a kept one. |
| TopologyLimits.FilterEdges | internal/pcap/topology_limits.go:92-105 | Exactly the edges with both ends kept, and the details of exactly those. |
| TopologyLimits.CutDown | internal/pcap/topology_limits.go:34-129 | An oversized graph becomes the induced graph of a truncation and a selection that meet their specifications. |
| TopologyLimits.LimitFlowTopology | internal/pcap/topology_limits.go:22-130 | Uncapped input comes back unchanged; otherwise the edge and node limits hold, every tracked node present is kept, every kept edge has both ends, and no heavier edge or node is dropped for a lighter one. |
| TopologyLimits.FilterTopologyToSelection | internal/pcap/topology.go:302-343 | Exactly the edges at a tracked pod with their details, and the nodes at their ends; without tracked pods nothing is left out. |
| TopologyLimits.BuildBoundedTopology | internal/pcap/topology_limits.go:133-152 | The selection from the exact topology of the last 2500 events, unchanged when it fits and otherwise cut down so that no heavier edge or node goes for a lighter one; within the limits, well-formed, and with every tracked pod that has an event. |
| TopologyLimits.TrackedStay | internal/pcap/topology_limits.go:133-138 | Every tracked pod with an event survives the selection. |
| Conversation.FindBase | internal/pcap/topology.go:499-541 | The base is the earliest positive time of the kept steps, 0 if there is none. |
| Conversation.EarliestSteps | internal/pcap/topology.go:499-541 | The first 48, or all, of a permutation by time and, at equal times, by relative time. |
| Conversation.ConversationSequence | internal/pcap/topology.go:499-541 | On a fixed table of details: both directions of the edge with the right tags, the earliest 48 in time order, relative times rebased. |
| Conversation.TimesStartAtZero | internal/pcap/topology.go:499-541 | When the table has no negative times: at most 48 steps, and those with a known time get relative times that start at 0 and never go back. |
| Analytics.KeyInjective | internal/pcap/analytics.go:151-152 | Different directed 4-tuples have different keys in the flow table. |
| Analytics.TrackTCPFlow | internal/pcap/analytics.go:134-174 | One segment's effect on the table: the SYN and SYN+ACK marks mean exactly that such a segment was seen, in that direction or for the SYN+ACK also the reverse. |
| Analytics.CountFailedTCP | internal/pcap/analytics.go:176-184 | The number of table entries with a SYN and no SYN+ACK. |
| Analytics.FailedTCP | internal/pcap/analytics.go:134-184 | The count equals the number of directed 4-tuples with addresses and a source port that were opened by a SYN without an ACK and not answered by a SYN+ACK either way. |
| Analytics.OrderDoesNotMatter | internal/pcap/analytics.go:134-184 | Any reordering of the frames gives the same failed directions, also when the SYN+ACK is seen first. |
| Analytics.FillBuckets | internal/pcap/analytics.go:71-81 | Each bucket holds exactly the events of its tenth of a second (rounded towards zero): their number and their bytes. |
| Analytics.SortedBuckets | internal/pcap/analytics.go:414-425 | The buckets in strictly ascending order, each once; their packets total the events and their bytes the payloads. |
| Analytics.TimeBuckets | internal/pcap/analytics.go:60-81 | The series of any events: ascending, on the 100 ms grid; every event is in a bucket, and each bucket has exactly the number and bytes of the events whose offset falls in its 100 ms (below 0 they reach back, and around 0 both ways); none is lost or counted twice. |
| Burst.SortByOffset | frontend/lib/burstChart.ts:23-29 | Ascending by offset and stable: the bars at each offset keep their order; totals and length are kept. |
| Burst.IndexByOffset | frontend/lib/burstChart.ts:57 | The map holds the last bar at each offset. |
| Burst.Densify | frontend/lib/burstChart.ts:56-71 | One bar for every slot from 0 to the last offset, showing what the series has at exactly that offset. |
| Burst.NothingMissing | frontend/lib/burstChart.ts:56-71 | Nothing is lost exactly when every bar passed over (before 0, off the grid, or hidden by a later one) is empty. |
| Burst.BinWidth | frontend/lib/burstChart.ts:75-78 | The least multiple of 100 ms of which `maxBars` bins span the series. |
| Burst.Downsample | frontend/lib/burstChart.ts:73-99 | At most `maxBars` bins of the least width that will do, at least one width apart, each holding exactly the bars of its span; the totals are kept. |
| Burst.PrepareBurstSeries | frontend/lib/burstChart.ts:16-54 | What is drawn is the sorted or filled-in series, merged when it is too long, into the narrowest bins of which `maxBars` suffice. |
| Burst.FillsInIff | frontend/lib/burstChart.ts:30-48 | Slots are filled in exactly when `maxBars` of them hold the whole time, given or up to the end of the last bucket. |
| Burst.ChartTotals | frontend/lib/burstChart.ts:16-54 | At most `maxBars` bars in order for any input; their totals are those of the buckets minus what filling in passes over. |
| Burst.ChartKeepsTotals | frontend/lib/burstChart.ts:16-54 | The chart keeps the packets (or bytes) if and only if it fills nothing in or every bucket passed over is empty. |
| Burst.BinsAreApart | frontend/lib/burstChart.ts:73-99 | When there are too many slots or buckets, the bins drawn are of one width and at least that far apart. |
| Burst.GridOverlooked | frontend/lib/burstChart.ts:56-71 | Of the buckets the analysis makes, filling in passes over exactly those with a negative offset. |
| Burst.EventsAreCharted | frontend/lib/burstChart.ts:16-54 | The chart of an analysis counts every event if and only if it fills nothing in or no bucket has a negative offset. |
| Burst.BytesAreCharted | frontend/lib/burstChart.ts:16-54 | The same for bytes: lost exactly when something is filled in and a bucket with a negative offset carries bytes. |
| Burst.EarlyEventIsNotCharted | frontend/lib/burstChart.ts:56-71 | An input that loses one: of an event and another put 150 ms before it, the chart does not show both. |
| Tags.LexBarrier | internal/ai/scrubber.go:12-18 | Text with a character that no tag contains is read character by character whatever surrounds it, so a match is never part of a tag. |
| Tags.TagOccurs | internal/ai/scrubber.go:51-59 | A tag occurs in a text exactly when it is one of the pieces the text is read as. |
| Tags.ReplaceAllIsExpand | internal/ai/scrubber.go:55-57 | Scanning for a tag's text, as the library's ReplaceAll does, replaces exactly the pieces that are that tag. |
| Tags.ExpandTwice | internal/ai/scrubber.go:55-57 | Replacing by one table and then by another with other tags is replacing by both at once: the order does not matter. |
| Tags.ExpandIdentity | internal/ai/scrubber.go:51-59 | A text is left alone exactly when it holds no tag of the table. |
| Tags.ExpandMasked | internal/ai/scrubber.go:100-136 | Exchanging a match for its tag changes nothing once the tags are put back. |
| Regexes.EndsWithin | internal/ai/scrubber.go:11-18 | Of any expression of the kind used: matches end in the text and not before they begin. |
| Regexes.GroupedIsFirst | internal/ai/scrubber.go:41-44 | A group in front takes no part in which match is found: its end and the match's are those of the first way to match. |
| Expressions.EmailIsFirst | internal/ai/scrubber.go:12 | At every position of every text the matcher reports exactly the match that backtracking finds first for the expression, or none when there is none. |
| Expressions.UUIDIsFirst | internal/ai/scrubber.go:14 | The same for UUIDs. |
| Expressions.MACIsFirst | internal/ai/scrubber.go:16 | The same for hardware addresses, in either case and between word boundaries. |
| Expressions.IPIsFirst | internal/ai/scrubber.go:17 | The same for dotted numbers. |
| Expressions.BearerIsFirst | internal/ai/scrubber.go:13 | The same for bearer values in any case, with the end of the kept group. |
| Expressions.AccountIsFirst | internal/ai/scrubber.go:15 | The same for account and organisation ids, with the end of the kept group. |
| RegexScrubbing.SwapIsReplaceFunc | internal/ai/scrubber.go:42-46 | A masking pass is the library's replacement of every match of its expression by its tag; in the address pass only of those that are addresses. |
| RegexScrubbing.RedactIsReplaceGroup | internal/ai/scrubber.go:41-44 | A redacting pass is the library's replacement of every match by its group and the one-way tag. |
| RegexScrubbing.ScrubbedIs | internal/ai/scrubber.go:39-48 | Scrubbing is the six replacements one after the other, in the order of the source, in terms of the expressions alone. |
| Addresses.IPIff | internal/ai/scrubber.go:17 | A stretch is matched exactly when it is four groups of one to three digits joined by dots, with word boundaries at both ends. |
| Addresses.ParsesIff | internal/ai/scrubber.go:91-98 | What is taken for an address is exactly four numbers up to 255, printed without leading zeros and joined by dots. |
| AddressMasking.AddressIsMasked | internal/ai/scrubber.go:39-111 | An address among characters other than digits, letters, `_`, `@`, `-` and `:` has a tag after scrubbing, and that tag stands in its place; nothing else of the text changes. |
| AddressMasking.ScrubAddress | internal/ai/scrubber.go:39-111 | The same of the call, for any scrubber: the address is in its table, with the tag it had before if it had one. |
| Locality.EmailsAlike | internal/ai/scrubber.go:12 | Whether and how far the expression for emails matches depends only on the text up to the next bracket. |
| Locality.AccountsAlike | internal/ai/scrubber.go:15 | The same for account and organisation ids. |
| Scrubbing.TagsDiffer | internal/ai/scrubber.go:107-132 | Different kinds or numbers give different tags. |
| Scrubbing.SwapExpands | internal/ai/scrubber.go:42-46 | A masking pass is invisible once the tags are put back, in any surroundings. |
| Scrubbing.SwapCounts | internal/ai/scrubber.go:42-46 | A masking pass adds no tags but its own. |
| Scrubbing.RedactCounts | internal/ai/scrubber.go:41-44 | A redacting pass adds one of its one-way tags for each match. |
| Scrubbing.RestoreIff | internal/ai/scrubber.go:38-59 | For any text and covering tables: putting the tags back gives the text, if and only if nothing was cut off from it and it holds no tag of the table. |
| Scrubbing.LedgerGrows | internal/ai/scrubber.go:106-109 | Issuing the next number keeps the tables injective, undone by the reverse table, and all later tags fresh. |
| Scrubbing.Scrubber.MaskIP | internal/ai/scrubber.go:100-111 | A known address keeps its tag; a new one gets the next number, never used before. |
| Scrubbing.Scrubber.MaskToken | internal/ai/scrubber.go:121-136 | The same for ids and MAC addresses, each in its own table. |
| Scrubbing.Scrubber.MaskMatch | internal/ai/scrubber.go:91-119 | What each pass does with a match; dotted numbers that are not an address are left alone. |
| Scrubbing.Scrubber.MaskFrom | internal/ai/scrubber.go:42-46 | One pass: every match is replaced by its tag in the resulting table, everything else is kept, and no issued tag changes. |
| Scrubbing.Scrubber.Scrub | internal/ai/scrubber.go:39-48 | The six passes with the tables as they are afterwards, in which every match has its tag; nothing issued before is lost or changed. |
| Scrubbing.Scrubber.Restore | internal/ai/scrubber.go:51-59 | Replacing the tags one at a time, in any order, is replacing them all at once. |
| Scrubbing.ScrubbedStable | internal/ai/scrubber.go:39-48 | Scrubbing other texts later changes neither what was written for a text nor whether something was cut off. |
| Scrubbing.RestoreLater | internal/ai/scrubber.go:38-59 | Restoring with any later table gives the text back, if and only if nothing was cut off and no tag issued by then occurs in it. |
| Cutting.CutsAgree | internal/ai/scrubber.go:39-44 | Whether an account number is cut off does not depend on which tags stand for the emails and UUIDs. |
| Cutting.LosesIff | internal/ai/scrubber.go:39-44 | Whether anything is cut off for good is a condition on the text alone. |
| ScrubRuns.ScrubThenRestoreLater | internal/ai/scrubber.go:38-59 | Main result, over any run: scrub a text, scrub any others with the same scrubber, restore. The text comes back if and only if it has nothing that is cut off and holds no tag issued by then; tags once issued stay issued; a text without an opening bracket holds none. |
| ScrubRuns.TagInTextIsLost | internal/ai/scrubber.go:51-59 | A text that holds a tag already issued never comes back, whatever is scrubbed afterwards. |
| ScrubRuns.TagAsText | internal/ai/scrubber.go:51-59 | An input that is lost: after one address has been masked, the text `<INTERNAL_IP_1>`. |
| IPAddress.SplitOfJoin | frontend/lib/ipAddress.ts:31-32 | Splitting what was joined by a separator that occurs in no part gives the parts back. |
| IPAddress.JoinOfSplit | frontend/lib/ipAddress.ts:25-32 | Joining what was split gives the text back. |
| IPAddress.ExpandIPv6 | frontend/lib/ipAddress.ts:21-51 | Eight groups of one to four hexadecimal digits, or nothing. |
| IPAddress.CleanIs | frontend/lib/ipAddress.ts:22 | Cleaning drops white space around a text and its zone, and puts it in lower case. |
| IPAddress.ExpandsIff | frontend/lib/ipAddress.ts:21-51 | The accepted texts are exactly those of section 2.2 of RFC 4291 (after trimming, lower-casing and dropping a zone): eight groups, or fewer around one `::` standing for at least one zero group, and the groups are the ones they denote. |
| IPAddress.ParseIPv6BigInt | frontend/lib/ipAddress.ts:53-61 | The 128-bit value of an accepted text, nothing for any other. |
| IPAddress.ParseOfHex | frontend/lib/ipAddress.ts:90 | Printing a number in base 16 and parsing it gives it back. |
| IPAddress.NormalForm | frontend/lib/ipAddress.ts:86-93 | The normal form of an accepted text is accepted and expands to its groups without leading zeros. |
| IPAddress.NormalKeepsValue | frontend/lib/ipAddress.ts:86-93 | Normalising keeps the 128-bit value. |
| IPAddress.NormalIsStable | frontend/lib/ipAddress.ts:86-93 | Normalising twice is normalising once, for every text, accepted or not. |
| IPAddress.NormalIsCanonical | frontend/lib/ipAddress.ts:86-93 | Two accepted texts have the same normal form if and only if their values are equal. |
| IPAddress.UnspecifiedAndLoopback | frontend/lib/ipAddress.ts:66-69 | The values 0 and 1 are exactly `::` and `::1` (sections 2.5.2 and 2.5.3 of RFC 4291). |
| IPAddress.Prefixes | frontend/lib/ipAddress.ts:70-77 | The shift tests are exactly the prefix ranges fe80::/10 and ff00::/8 (section 2.4 of RFC 4291), fc00::/7 (section 3.1 of RFC 4193) and 2001:db8::/32 (section 2 of RFC 3849), as ranges of the groups. |
| IPAddress.IsPublicIPv6 | frontend/lib/ipAddress.ts:63-79 | Public exactly when accepted and in none of those ranges. |
| IPAddress.PublicByValue | frontend/lib/ipAddress.ts:63-79 | Two spellings of an address are both public or both not. |
| Bits.AndMask | frontend/lib/ipCountryLookup.ts:46-47 | Masking with leading ones clears exactly the low bits. |
| Bits.ShiftDivides | frontend/lib/ipAddress.ts:71-77 | Shifting right divides by a power of two. |
| IPLookup.MaskBits | frontend/lib/ipCountryLookup.ts:46 | The 32-bit mask is that many ones followed by zeros, with JavaScript's shift count modulo 32. |
| IPLookup.CidrContains | frontend/lib/ipCountryLookup.ts:42-48 | Contained exactly when base and length are there and the addresses agree in their prefix. |
| IPLookup.PrefixIsQuotient | frontend/lib/ipCountryLookup.ts:46-47 | For lengths 0 to 32 agreeing in the prefix is equality after division by 2^(32 - length). |
| IPLookup.ScanFinds | frontend/lib/ipCountryLookup.ts:59-70 | Over sorted disjoint ranges the linear scan gives the code of the one range with the address. |
| IPLookup.LookupCompactV4 | frontend/lib/ipCountryLookup.ts:59-70 | Over sorted disjoint ranges the binary search equals the linear scan; over any ranges it ends and never gives the code of a range without the address. |
| IPLookup.LookupCompactV6 | frontend/lib/ipCountryLookup.ts:72-85 | The same with decimal bounds. |
| Text.NumberOfDecimal | frontend/lib/ipCountryLookup.ts:72-85 | Reading a number's decimal text gives the number. |
| Text.DecimalOfNumber | frontend/lib/ipCountryLookup.ts:72-85 | A numeral without leading zeros is the decimal text of the number it is read as. |
| IPLookup.LookupCountryV6 | frontend/lib/ipCountryLookup.ts:87-95 | A text with a colon is found by its value, whatever its spelling; one that is no IPv6 address is not found. |

## Left out

- Path map: the discovery of services, routes and policies that fills the builder; namespaces, status, detail and drop-cause texts. Coordinates are integers, which the layout's floating-point values are. `edgeByKey` in the search is built but never read, and is left out.
- Context nodes within the layout's width: the width does not take the context track into account, so only their height is bounded.
- Track.InferPathTrack: case is folded for ASCII letters only, where Go's `EqualFold` folds all of Unicode.
- Probe: the fixed texts of events are constructors of a datatype; trace and probe ids, the notification channel, cancellation and ticking (the number of rounds is a parameter) and the replacement of one session by another for the same trace are left out. A hop is one step; a subscriber joining between a hop's two announcements is not modelled. `MarkDrop` and `Snapshot`, which the session does not use, are left out.
- Capture numbers are read and written outside the painting mutex in `ingestCapture`; the model takes the call as one step.
- Pcapng.RoundTrip: timestamps come back modulo 2^64, as unsigned 64-bit numbers, so times before 1970 read back as large ones. The reader reads options only as far as their end marker and returns the snap length without enforcing it.
- Storage: creating the upload, keys, presigned addresses, entity tags and the limit on part numbers. The store's rules for completing (rising known parts, all but the last of minimum size, neither aborted nor complete) are part of the model; a call that takes effect only after a later one is not. A sink whose header could not be written is never handed out, so writing it again from `WriteFrame` is not modelled.
- CaptureSession.Session.AppendFlow: memory mode only; with object storage configured the frames go to the sink instead of the buffer. Frame metadata stays unparsed text.
- Decoding of frames: flows, segments and ticks carry what the decoders and the endpoint resolver found. TCP flags, state, drop causes, health, namespaces and per-edge details of the topology are left out; byte sums and times are unbounded integers.
- The last loop of `BuildFlowTopology` rewrites the table of details it reads from, so its result for two-way flows depends on the order of a map. Conversation.ConversationSequence is stated on a fixed table.
- Conversation.TimesStartAtZero: phases, labels and ports of steps are carried along by one caption field.
- Analytics: other counters (SYN, RST, FIN, ICMP, DNS, TLS names), peer classes and the peak bucket.
- Burst.PrepareBurstSeries: durations are exact reals and divisions exact, where JavaScript rounds; `maxBars` is at least 1. Bar widths in pixels and labels are left out.
- Expressions.EmailIsFirst and the other matchers: texts are sequences of characters, so invalid UTF-8 is left out. Where four dotted numbers that are not an address are followed by more, as in `999.1.2.3.4`, the pass consumes the match and leaves the rest unmasked, as the library's replacement does (RegexScrubbing.ScrubbedIs).
- Scrubbing: `ScrubJSONLMap` and `ScrubStringFields` apply Scrub to several strings; `SnapshotMap` copies the table; the registry of scrubbers by session.
- IPAddress.NormalIsStable: lower-casing is ASCII; other letters occur only in texts that are refused. Zone ids are dropped, as in the code.
- IPv4 texts: `ipToInt`, `isPublicIPv4` and the splitting of a CIDR text rely on JavaScript's `Number`; IPLookup.CidrContains starts from parsed numbers, and a mask length is an integer.
- IPLookup.LookupCompactV6: bounds are decimal digits, as in the data file; `BigInt` throws on anything else. The legacy and version 2 maps, caching, flags and colours are left out.
- `ipInRange` compares byte by byte and never uses its lower bound; it is not modelled.
- Kubernetes, gRPC, Neo4j, OAuth, language models, encryption, HTTP routes and rendering.
