/** A probe session: paints the primary edges hop by hop and tells its subscribers. */
module ProbeSession {
  import opened Wrappers
  import opened Sequences
  import opened TraceGraph
  import opened Correlator

  datatype Source = Capture | Simulate
  datatype Hop = Hop(hook: string, source: Source)

  /** The fixed texts of the events. */
  datatype Reason = NoDrop | PolicyDeniesEgress | CapturedPolicyDrop
  datatype Message = NoMessage | AllHopsVerified | PathBlockedAt(edgeID: string)

  datatype ProbeEvent =
    | ProbeStarted(text: string)
    | EdgeUpdate(edgeID: string, state: EdgePaintState, hook: string, seqNo: nat, dropReason: Reason, verified: nat,
                 total: nat)
    | ProbeFinished(message: Message, verified: nat, total: nat)
    | ProbeError(text: string)

  const CHANNEL_SIZE := 64
  const HOOKS := ["veth_egress", "ovs_vport_receive", "ovs_execute_actions", "physical_egress"]

  // ---- What a run of hops amounts to -------------------------------------------------------

  function Min(a: nat, b: nat): nat { if a < b then a else b }

  /** The hop at which a session with `n` primary edges finishes. */
  function FinishAt(n: nat): nat { if n == 0 then 1 else n }

  ghost function PaintOf(i: nat, painted: nat, n: nat, demoDrop: bool): EdgePaintState {
    if i >= painted then TheoryOnly
    else if demoDrop && i == n - 1 then DroppedRed
    else ActiveGreen
  }

  function DropReason(source: Source): Reason {
    if source == Capture then CapturedPolicyDrop else PolicyDeniesEgress
  }

  /** The update announced when the `i`-th edge is painted by the given hop. */
  ghost function UpdateOf(edges: seq<TraceEdge>, demoDrop: bool, i: nat, hop: Hop): ProbeEvent
    requires i < |edges|
  {
    var red := demoDrop && i == |edges| - 1;
    EdgeUpdate(edges[i].id, if red then DroppedRed else ActiveGreen, hop.hook, i + 1,
               if !red then NoDrop else if hop.source == Capture then CapturedPolicyDrop else PolicyDeniesEgress,
               i + 1, |edges|)
  }

  ghost function UpdatesOf(edges: seq<TraceEdge>, demoDrop: bool, hops: seq<Hop>): seq<ProbeEvent> {
    seq(Min(|hops|, |edges|), i requires 0 <= i < Min(|hops|, |edges|) => UpdateOf(edges, demoDrop, i, hops[i]))
  }

  /**
   After `hops`, the first `painted` edges are green (the very last one red in a demo drop),
   the others untouched, and the updates announced are one per painted edge, in order.
   */
  ghost predicate Consistent(edges: seq<TraceEdge>, demoDrop: bool, hops: seq<Hop>, painted: nat,
                             states: map<string, EdgePaintState>, updates: seq<ProbeEvent>)
  {
    && painted == Min(|hops|, |edges|)
    && (forall i :: 0 <= i < |edges| ==>
          edges[i].id in states && states[edges[i].id] == PaintOf(i, painted, |edges|, demoDrop))
    && updates == UpdatesOf(edges, demoDrop, hops)
  }

  /** A hop that finds an edge left paints it and announces it. */
  lemma {:induction false} PaintOne(edges: seq<TraceEdge>, demoDrop: bool, hops: seq<Hop>, painted: nat,
                 states: map<string, EdgePaintState>, updates: seq<ProbeEvent>, hop: Hop)
    requires DistinctEdgeIDs(edges) && Consistent(edges, demoDrop, hops, painted, states, updates)
    ensures painted < |edges| ==>
              var state := if demoDrop && painted == |edges| - 1 then DroppedRed else ActiveGreen;
              Consistent(edges, demoDrop, hops + [hop], painted + 1, states[edges[painted].id := state],
                         updates + [UpdateOf(edges, demoDrop, painted, hop)])
    ensures painted == |edges| ==> Consistent(edges, demoDrop, hops + [hop], painted, states, updates)
  {
    if painted < |edges| {
      assert UpdatesOf(edges, demoDrop, hops + [hop]) == updates + [UpdateOf(edges, demoDrop, painted, hop)];
    } else {
      assert UpdatesOf(edges, demoDrop, hops + [hop]) == updates;
    }
  }

  /** From the `k`-th on, the hops are simulated ones with the four hooks in turn. */
  ghost predicate HooksInTurn(hops: seq<Hop>, k: nat) {
    forall j :: k <= j < |hops| ==> hops[j] == Hop(HOOKS[j % 4], Simulate)
  }

  lemma HookAfterHook(hops: seq<Hop>, k: nat, hop: Hop)
    requires HooksInTurn(hops, k) && hop == Hop(HOOKS[|hops| % 4], Simulate)
    ensures HooksInTurn(hops + [hop], k)
  {
  }

  ghost function IsUpdate(): ProbeEvent -> bool { (e: ProbeEvent) => e.EdgeUpdate? }

  /** One end of a subscription: a buffered channel. The ghost fields record its history. */
  class Subscriber {
    var queue: seq<ProbeEvent>
    var closed: bool
    /** The events that entered the channel, and where in the session's log each of them stands. */
    ghost var got: seq<ProbeEvent>
    ghost var at: seq<nat>
    /** The events the subscriber has read. */
    ghost var taken: seq<ProbeEvent>
    /** The length of the log at the time of subscribing. */
    ghost const since: nat

    constructor (ghost since: nat)
      ensures queue == [] && !closed && got == [] && at == [] && taken == [] && this.since == since
    {
      queue, closed, got, at, taken := [], false, [], [], [];
      this.since := since;
    }

    /** A send that drops the event instead of blocking. Sending on a closed channel would panic. */
    method TrySend(ev: ProbeEvent, ghost log: seq<ProbeEvent>)
      requires !closed && Faithful(log)
      modifies this`queue, this`got, this`at
      ensures Faithful(log + [ev])
      ensures Channel(got, queue) == Sent(Channel(old(got), old(queue)), [ev])
    {
      if |queue| < CHANNEL_SIZE {
        queue := queue + [ev];
        got, at := got + [ev], at + [|log|];
      }
    }

    /** Closing twice would panic. */
    method Close()
      requires !closed
      modifies this`closed
      ensures closed
    {
      closed := true;
    }

    /**
     What arrived is a subsequence of what was announced since subscribing: event `i` stands
     at `at[i]` of the log, and these places rise. It is read in the order of arrival.
     */
    ghost predicate Faithful(log: seq<ProbeEvent>)
      reads this
    {
      && |at| == |got|
      && (forall i :: 0 <= i < |got| ==> since <= at[i] < |log| && log[at[i]] == got[i])
      && (forall i, j :: 0 <= i < j < |at| ==> at[i] < at[j])
      && got == taken + queue && |queue| <= CHANNEL_SIZE && since <= |log|
    }

    /** Reads the oldest event waiting. */
    method Take(ghost log: seq<ProbeEvent>) returns (ev: ProbeEvent)
      requires Faithful(log) && |queue| > 0
      modifies this`queue, this`taken
      ensures Faithful(log) && ev == old(queue)[0] && taken == old(taken) + [ev]
    {
      ev := queue[0];
      assert taken + queue == taken + [queue[0]] + queue[1..];
      taken := taken + [queue[0]];
      queue := queue[1..];
    }

    lemma {:induction false} StaysFaithful(log: seq<ProbeEvent>, ev: ProbeEvent)
      requires Faithful(log)
      ensures Faithful(log + [ev])
    {
    }
  }

  /** What a subscriber's channel has been sent, and what of it waits there. */
  datatype Channel = Channel(got: seq<ProbeEvent>, queue: seq<ProbeEvent>)

  ghost function Channels(subs: set<Subscriber>): map<Subscriber, Channel>
    reads subs
  {
    map s | s in subs :: Channel(s.got, s.queue)
  }

  /** The events enter the channel in order, for as long as there is room. */
  ghost function Sent(c: Channel, events: seq<ProbeEvent>): Channel {
    var room := if |c.queue| < CHANNEL_SIZE then CHANNEL_SIZE - |c.queue| else 0;
    var entering := events[..Min(|events|, room)];
    Channel(c.got + entering, c.queue + entering)
  }

  ghost predicate SentAll(before: map<Subscriber, Channel>, after: map<Subscriber, Channel>, events: seq<ProbeEvent>) {
    after.Keys == before.Keys && forall s :: s in before ==> after[s] == Sent(before[s], events)
  }

  lemma {:induction false} SentTwice(c: Channel, a: seq<ProbeEvent>, b: seq<ProbeEvent>)
    ensures Sent(Sent(c, a), b) == Sent(c, a + b)
  {
    var room := if |c.queue| < CHANNEL_SIZE then CHANNEL_SIZE - |c.queue| else 0;
    if |a| <= room {
      assert (a + b)[..Min(|a + b|, room)] == a + b[..Min(|b|, room - |a|)];
    } else {
      assert (a + b)[..room] == a[..room];
      assert b[..0] == [];
    }
  }

  lemma SentAllTwice(m: map<Subscriber, Channel>, n: map<Subscriber, Channel>, r: map<Subscriber, Channel>,
                     a: seq<ProbeEvent>, b: seq<ProbeEvent>)
    requires SentAll(m, n, a) && SentAll(n, r, b)
    ensures SentAll(m, r, a + b)
  {
    forall s | s in m
      ensures r[s] == Sent(m[s], a + b)
    {
      SentTwice(m[s], a, b);
    }
  }

  lemma NothingSent(m: map<Subscriber, Channel>)
    ensures SentAll(m, m, [])
  {
  }

  class Session {
    const corr: GraphCorrelator
    const demoDrop: bool
    var paintSeq: nat
    var lastCaptureSeq: nat
    var finished: bool
    var subscribers: set<Subscriber>
    /** Every subscriber there has been, every event announced, every hop painted, every capture let in. */
    ghost var everyone: set<Subscriber>
    ghost var log: seq<ProbeEvent>
    ghost var hops: seq<Hop>
    ghost var ingested: seq<nat>

    /** The registered channels are exactly the open ones, and all are faithful to the log. */
    ghost predicate HubValid()
      reads this, everyone
    {
      && subscribers <= everyone
      && (forall s :: s in everyone ==> (s.closed <==> s !in subscribers) && s.Faithful(log))
    }

    /** The painting and what was announced of it are functions of the hops so far. */
    ghost predicate PaintValid()
      reads this, corr
    {
      && Tallied(Filter(log, IsUpdate()), paintSeq)
      && (finished <==> |hops| >= FinishAt(|corr.edges|))
    }

    /** Capture sequence numbers rise except when a 0 starts them afresh. */
    ghost predicate IngestValid()
      reads this
    {
      && lastCaptureSeq == (if ingested == [] then 0 else ingested[|ingested| - 1])
      && forall i :: 0 < i < |ingested| ==> ingested[i] == 0 || ingested[i - 1] < ingested[i]
    }

    ghost predicate Valid()
      reads this, corr, everyone
    {
      HubValid() && PaintValid() && IngestValid()
    }

    constructor (nodes: seq<TraceNode>, edges: seq<TraceEdge>, demoDrop: bool)
      requires DistinctEdgeIDs(edges) && forall e :: e in edges ==> e.id != ""
      ensures Valid() && fresh(corr) && this.demoDrop == demoDrop && InPaintOrder(nodes, edges, corr.edges)
      ensures hops == [] && log == [] && ingested == [] && subscribers == {} && everyone == {}
    {
      var c := new GraphCorrelator(nodes, edges);
      assert forall i :: 0 <= i < |c.edges| ==> c.edgeStates[c.edges[i].id] == TheoryOnly;
      corr := c;
      this.demoDrop := demoDrop;
      paintSeq, lastCaptureSeq, finished, subscribers := 0, 0, false, {};
      everyone, log, hops, ingested := {}, [], [], [];
    }

    // ---- Subscribers ---------------------------------------------------------------------

    /** Announces an event; a subscriber misses it only when its channel is full. */
    method Broadcast(ev: ProbeEvent)
      requires HubValid()
      modifies subscribers, this`log
      ensures HubValid() && log == old(log) + [ev]
      ensures Filter(log, IsUpdate()) == Filter(old(log), IsUpdate()) + if ev.EdgeUpdate? then [ev] else []
      ensures SentAll(old(Channels(subscribers)), Channels(subscribers), [ev])
    {
      AppendedIsFiltered(log, ev);
      ghost var before := log;
      log := log + [ev];
      Deliver(ev, before);
    }

    /** The send to each registered channel, in no particular order. */
    method Deliver(ev: ProbeEvent, ghost before: seq<ProbeEvent>)
      requires log == before + [ev] && subscribers <= everyone
      requires forall s :: s in everyone ==> (s.closed <==> s !in subscribers) && s.Faithful(before)
      modifies subscribers
      ensures HubValid()
      ensures SentAll(old(Channels(subscribers)), Channels(subscribers), [ev])
    {
      var rest := subscribers;
      forall s | s in everyone - subscribers
        ensures s.Faithful(log)
      {
        s.StaysFaithful(before, ev);
      }
      while rest != {}
        invariant rest <= subscribers
        invariant forall s :: s in everyone ==> (s.closed <==> s !in subscribers)
        invariant forall s :: s in everyone - rest ==> s.Faithful(log)
        invariant forall s :: s in rest ==> s.Faithful(before) && s.queue == old(s.queue) && s.got == old(s.got)
        invariant forall s :: s in subscribers - rest ==>
                    Channel(s.got, s.queue) == Sent(Channel(old(s.got), old(s.queue)), [ev])
        decreases rest
      {
        var sub :| sub in rest;
        rest := rest - {sub};
        sub.TrySend(ev, before);
      }
    }

    method Subscribe() returns (sub: Subscriber)
      requires Valid()
      modifies this`subscribers, this`everyone
      ensures Valid() && fresh(sub) && subscribers == old(subscribers) + {sub} && everyone == old(everyone) + {sub}
      ensures sub.since == |log| && sub.got == []
    {
      sub := new Subscriber(|log|);
      assert sub.Faithful(log) && forall s :: s in everyone ==> s.Faithful(log);
      subscribers := subscribers + {sub};
      everyone := everyone + {sub};
    }

    /** The function handed out by subscribe; calling it again does nothing. */
    method Unsubscribe(sub: Subscriber)
      requires Valid() && sub in everyone
      modifies this`subscribers, sub`closed
      ensures Valid() && subscribers == old(subscribers) - {sub} && sub.closed
    {
      if sub in subscribers {
        subscribers := subscribers - {sub};
        sub.Close();
      }
    }

    /** The subscriber's own step: takes the oldest event waiting. */
    method Receive(sub: Subscriber) returns (ev: Option<ProbeEvent>)
      requires Valid() && sub in everyone
      modifies sub`queue, sub`taken
      ensures Valid()
      ensures if |old(sub.queue)| == 0 then ev == None && sub.taken == old(sub.taken)
              else ev == Some(old(sub.queue)[0]) && sub.taken == old(sub.taken) + [old(sub.queue)[0]]
    {
      if |sub.queue| == 0 { return None; }
      var first := sub.Take(log);
      ev := Some(first);
    }

    /** Ends the session: a last event unless the painting has finished, then every channel is closed. */
    method Stop()
      requires Valid()
      modifies this`subscribers, this`log, subscribers
      ensures Valid() && subscribers == {} && forall s :: s in everyone ==> s.closed
      ensures log == old(log) + LastWords()
      ensures SentAll(old(Channels(subscribers)), Channels(old(subscribers)), LastWords())
    {
      SayLastWords();
      CloseAll();
    }

    method SayLastWords()
      requires Valid()
      modifies this`log, subscribers
      ensures Valid() && log == old(log) + LastWords()
      ensures SentAll(old(Channels(subscribers)), Channels(subscribers), LastWords())
    {
      NothingSent(Channels(subscribers));
      if !finished {
        Broadcast(ProbeFinished(NoMessage, 0, 0));
      }
    }

    ghost function LastWords(): seq<ProbeEvent>
      reads this
    {
      if finished then [] else [ProbeFinished(NoMessage, 0, 0)]
    }

    method CloseAll()
      requires HubValid()
      modifies this`subscribers, subscribers`closed
      ensures HubValid() && subscribers == {}
      ensures Channels(old(subscribers)) == old(Channels(subscribers))
    {
      while subscribers != {}
        invariant subscribers <= old(subscribers) && HubValid()
        decreases subscribers
      {
        var sub :| sub in subscribers;
        sub.Close();
        subscribers := subscribers - {sub};
      }
    }

    // ---- Painting ----------------------------------------------------------------------------

    /** The painting matches the hops, whether or not the session has been told to finish. */
    ghost predicate Tallied(updates: seq<ProbeEvent>, painted: nat)
      reads this, corr
    {
      && corr.Valid() && corr.seqNo == painted
      && Consistent(corr.edges, demoDrop, hops, painted, corr.edgeStates, updates)
    }

    method FinishProbe(message: Message)
      requires HubValid() && Tallied(Filter(log, IsUpdate()), paintSeq) && !finished
      modifies this`finished, this`log, subscribers
      ensures HubValid() && Tallied(Filter(log, IsUpdate()), paintSeq) && finished
      ensures log == old(log) + [ProbeFinished(message, paintSeq, |corr.edges|)]
      ensures var last := ProbeFinished(message, paintSeq, |corr.edges|);
        SentAll(old(Channels(subscribers)), Channels(subscribers), [last])
    {
      finished := true;
      corr.PrefixIsCounted(|corr.edges|);
      var verified := corr.VerifiedCount();
      var total := corr.PrimaryCount();
      Broadcast(ProbeFinished(message, verified, total));
    }

    /** Announces the edge painted last. */
    method AnnounceEdge(edgeID: string, state: EdgePaintState, hook: string, dropReason: Reason)
      requires HubValid()
      requires var next := EdgeUpdate(edgeID, state, hook, paintSeq + 1, dropReason, paintSeq + 1, |corr.edges|);
        Tallied(Filter(log, IsUpdate()) + [next], paintSeq + 1)
      modifies this`paintSeq, this`log, subscribers
      ensures HubValid() && paintSeq == old(paintSeq) + 1 && Tallied(Filter(log, IsUpdate()), paintSeq)
      ensures var next := EdgeUpdate(edgeID, state, hook, paintSeq, dropReason, paintSeq, |corr.edges|);
        log == old(log) + [next] && SentAll(old(Channels(subscribers)), Channels(subscribers), [next])
    {
      paintSeq := paintSeq + 1;
      corr.PrefixIsCounted(|corr.edges|);
      var verified := corr.VerifiedCount();
      var total := corr.PrimaryCount();
      Broadcast(EdgeUpdate(edgeID, state, hook, paintSeq, dropReason, verified, total));
    }

    lemma AppendedIsFiltered(log: seq<ProbeEvent>, ev: ProbeEvent)
      ensures Filter(log + [ev], IsUpdate()) == Filter(log, IsUpdate()) + if ev.EdgeUpdate? then [ev] else []
    {
      assert (log + [ev])[..|log|] == log;
    }

    /** What a hop adds to the log of a session that has not finished after `k` hops. */
    ghost function Announced(k: nat, hop: Hop): seq<ProbeEvent> {
      var n := |corr.edges|;
      (if k < n then [UpdateOf(corr.edges, demoDrop, k, hop)] else []) +
      (if k + 1 >= FinishAt(n) then [ProbeFinished(FinishMessage(k), Min(k + 1, n), n)] else [])
    }

    /** What the hops from the `k`-th on add to it. */
    ghost function AnnouncedSince(k: nat, hs: seq<Hop>): seq<ProbeEvent> {
      if |hs| <= k then [] else AnnouncedSince(k, hs[..|hs| - 1]) + Announced(|hs| - 1, hs[|hs| - 1])
    }

    lemma OneMoreHop(k: nat, hs: seq<Hop>, hop: Hop)
      requires k <= |hs|
      ensures AnnouncedSince(k, hs + [hop]) == AnnouncedSince(k, hs) + Announced(|hs|, hop)
    {
      assert (hs + [hop])[..|hs|] == hs;
    }

    ghost function FinishMessage(k: nat): Message {
      if demoDrop && 0 < |corr.edges| == k + 1 then PathBlockedAt(corr.edges[k].id)
      else AllHopsVerified
    }

    /** The demo's last hop: the final edge turns red instead of green. */
    method PaintDrop(hook: string, source: Source)
      requires HubValid() && PaintValid() && !finished && demoDrop && |corr.edges| - corr.seqNo == 1
      modifies this`paintSeq, this`finished, this`log, this`hops, corr, subscribers
      ensures HubValid() && PaintValid() && hops == old(hops) + [Hop(hook, source)]
      ensures var events := Announced(|old(hops)|, Hop(hook, source));
        log == old(log) + events && SentAll(old(Channels(subscribers)), Channels(subscribers), events)
    {
      PaintOne(corr.edges, demoDrop, hops, paintSeq, corr.edgeStates, Filter(log, IsUpdate()), Hop(hook, source));
      hops := hops + [Hop(hook, source)];
      var edgeID := corr.NextEdgeID();
      if edgeID == "" {
        assert false;
      }
      var _ := corr.MarkDropOnEdge(edgeID);
      assert corr.seqNo == |hops| && corr.edgeStates == old(corr.edgeStates)[edgeID := DroppedRed];
      AnnounceRed(edgeID, Hop(hook, source));
    }

    method AnnounceRed(edgeID: string, hop: Hop)
      requires HubValid() && !finished && paintSeq + 1 == |hops| == |corr.edges|
      requires var n := paintSeq + 1;
        var next := EdgeUpdate(edgeID, DroppedRed, hop.hook, n, DropReason(hop.source), n, |corr.edges|);
        Tallied(Filter(log, IsUpdate()) + [next], paintSeq + 1)
      modifies this`paintSeq, this`finished, this`log, subscribers
      ensures HubValid() && PaintValid()
      ensures var n := |hops|;
        var update := EdgeUpdate(edgeID, DroppedRed, hop.hook, n, DropReason(hop.source), n, n);
        var events := [update] + [ProbeFinished(PathBlockedAt(edgeID), n, n)];
        log == old(log) + events && SentAll(old(Channels(subscribers)), Channels(subscribers), events)
    {
      ghost var before := Channels(subscribers);
      AnnounceEdge(edgeID, DroppedRed, hop.hook, DropReason(hop.source));
      ghost var between := Channels(subscribers);
      FinishProbe(PathBlockedAt(edgeID));
      ghost var n := |hops|;
      SentAllTwice(before, between, Channels(subscribers),
                   [EdgeUpdate(edgeID, DroppedRed, hop.hook, n, DropReason(hop.source), n, n)],
                   [ProbeFinished(PathBlockedAt(edgeID), n, n)]);
    }

    method PaintNext(hook: string, source: Source)
      requires HubValid() && PaintValid() && !finished && !(demoDrop && |corr.edges| - corr.seqNo == 1)
      modifies this`paintSeq, this`finished, this`log, this`hops, corr, subscribers
      ensures HubValid() && PaintValid() && hops == old(hops) + [Hop(hook, source)]
      ensures var events := Announced(|old(hops)|, Hop(hook, source));
        log == old(log) + events && SentAll(old(Channels(subscribers)), Channels(subscribers), events)
    {
      ghost var k, hop := |hops|, Hop(hook, source);
      PaintOne(corr.edges, demoDrop, hops, paintSeq, corr.edgeStates, Filter(log, IsUpdate()), hop);
      hops := hops + [hop];
      var edgeID, ok := corr.Advance(hook);
      if !ok {
        AnnouncedNext(k, hop);
        FinishProbe(AllHopsVerified);
        return;
      }
      AnnounceGreen(edgeID, hook, hop);
    }

    /** What a hop announces unless it is the one a demo drops. */
    lemma AnnouncedNext(k: nat, hop: Hop)
      requires k < FinishAt(|corr.edges|) && !(demoDrop && |corr.edges| == k + 1)
      ensures var n := |corr.edges|;
        Announced(k, hop) == if n == 0 then [ProbeFinished(AllHopsVerified, 0, 0)]
                             else [EdgeUpdate(corr.edges[k].id, ActiveGreen, hop.hook, k + 1, NoDrop, k + 1, n)] +
                                  if k + 1 == n then [ProbeFinished(AllHopsVerified, n, n)] else []
    {
    }

    /** Announces an edge just painted green, and the end if it was the last. */
    method AnnounceGreen(edgeID: string, hook: string, ghost hop: Hop)
      requires HubValid() && !finished && paintSeq + 1 == |hops| <= |corr.edges|
      requires hop.hook == hook && edgeID == corr.edges[paintSeq].id && !(demoDrop && |corr.edges| == paintSeq + 1)
      requires var next := EdgeUpdate(edgeID, ActiveGreen, hook, paintSeq + 1, NoDrop, paintSeq + 1, |corr.edges|);
        Tallied(Filter(log, IsUpdate()) + [next], paintSeq + 1)
      modifies this`paintSeq, this`finished, this`log, subscribers
      ensures HubValid() && PaintValid()
      ensures var events := Announced(|hops| - 1, hop);
        log == old(log) + events && SentAll(old(Channels(subscribers)), Channels(subscribers), events)
    {
      ghost var before := Channels(subscribers);
      AnnouncedNext(paintSeq, hop);
      AnnounceEdge(edgeID, ActiveGreen, hook, NoDrop);
      ghost var between := Channels(subscribers);
      ghost var n := |hops|;
      ghost var update := EdgeUpdate(edgeID, ActiveGreen, hook, n, NoDrop, n, |corr.edges|);
      FinishIfDone();
      SentAllTwice(before, between, Channels(subscribers), [update],
                   if n == |corr.edges| then [ProbeFinished(AllHopsVerified, n, n)] else []);
    }

    /** The end, if no edge remains. */
    method FinishIfDone()
      requires HubValid() && Tallied(Filter(log, IsUpdate()), paintSeq) && !finished && paintSeq == |hops|
      modifies this`finished, this`log, subscribers
      ensures HubValid() && Tallied(Filter(log, IsUpdate()), paintSeq) && (finished <==> paintSeq == |corr.edges|)
      ensures var n := |hops|;
        var events := if n == |corr.edges| then [ProbeFinished(AllHopsVerified, n, n)] else [];
        log == old(log) + events && SentAll(old(Channels(subscribers)), Channels(subscribers), events)
    {
      NothingSent(Channels(subscribers));
      var remaining := corr.Remaining();
      if remaining == 0 {
        FinishProbe(AllHopsVerified);
      }
    }

    /**
     One atomic painting step, whoever asks for it. It paints the next edge, announces it,
     and finishes the session with the last one; a finished session ignores it.
     */
    method PaintHop(hook: string, source: Source)
      requires Valid()
      modifies this`paintSeq, this`finished, this`log, this`hops, corr, subscribers
      ensures Valid() && hops == old(hops) + [Hop(hook, source)]
      ensures old(finished) ==> finished && paintSeq == old(paintSeq)
      ensures old(finished) ==> corr.edgeStates == old(corr.edgeStates)
      ensures var events := if old(finished) then [] else Announced(|old(hops)|, Hop(hook, source));
        log == old(log) + events && SentAll(old(Channels(subscribers)), Channels(subscribers), events)
    {
      if finished {
        IgnoreHop(Hop(hook, source));
        return;
      }
      var remaining := corr.Remaining();
      if demoDrop && remaining == 1 {
        PaintDrop(hook, source);
      } else {
        PaintNext(hook, source);
      }
    }

    /** A hop after the end leaves everything as it is. */
    ghost method IgnoreHop(hop: Hop)
      requires Valid() && finished
      modifies this`hops
      ensures Valid() && hops == old(hops) + [hop]
      ensures SentAll(Channels(subscribers), Channels(subscribers), [])
    {
      PaintOne(corr.edges, demoDrop, hops, paintSeq, corr.edgeStates, Filter(log, IsUpdate()), hop);
      hops := hops + [hop];
      NothingSent(Channels(subscribers));
    }

    /** A matching capture paints a hop unless its number was overtaken; number 0 is always let in. */
    method IngestCapture(matches: bool, hook: string, seqNo: nat) returns (ghost letIn: bool)
      requires Valid()
      modifies this`paintSeq, this`finished, this`log, this`hops, this`lastCaptureSeq, this`ingested, corr, subscribers
      ensures Valid() && letIn == (matches && (seqNo == 0 || seqNo > old(lastCaptureSeq)))
      ensures letIn ==> ingested == old(ingested) + [seqNo] && hops == old(hops) + [Hop(hook, Capture)]
      ensures !letIn ==> ingested == old(ingested) && hops == old(hops)
      ensures var events := if letIn && !old(finished) then Announced(|old(hops)|, Hop(hook, Capture)) else [];
        log == old(log) + events && SentAll(old(Channels(subscribers)), Channels(subscribers), events)
    {
      NothingSent(Channels(subscribers));
      if !matches { return false; }
      if seqNo > 0 && seqNo <= lastCaptureSeq { return false; }
      lastCaptureSeq := seqNo;
      ingested := ingested + [seqNo];
      PaintHop(hook, Capture);
      return true;
    }

    /**
     The simulated painter, cut off after `ticks` rounds: it needs no more than one per primary
     edge. Its hops take the four hooks in turn.
     */
    method RunSimulatedPaint(ticks: nat)
      requires Valid()
      modifies this`paintSeq, this`finished, this`log, this`hops, corr, subscribers
      ensures Valid() && old(hops) <= hops
      ensures |hops| == if old(finished) then |old(hops)| else Min(|old(hops)| + ticks, FinishAt(|corr.edges|))
      ensures HooksInTurn(hops, |old(hops)|)
      ensures |old(hops)| + ticks >= FinishAt(|corr.edges|) ==> finished && paintSeq == |corr.edges|
      ensures var events := AnnouncedSince(|old(hops)|, hops);
        log == old(log) + events && SentAll(old(Channels(subscribers)), Channels(subscribers), events)
    {
      NothingSent(Channels(subscribers));
      ghost var start, log0, k := Channels(subscribers), log, |hops|;
      for t := 0 to ticks
        invariant Valid() && old(hops) <= hops
        invariant |hops| == k + t && (t > 0 ==> !finished)
        invariant Simulated(start, log0, k)
      {
        if finished { return; }
        PaintSimulated(start, log0, k);
        if finished { return; }
      }
    }

    /** Since the `k`-th hop they take the hooks in turn, and are announced. */
    ghost predicate Simulated(start: map<Subscriber, Channel>, log0: seq<ProbeEvent>, k: nat)
      reads this, subscribers
    {
      && HooksInTurn(hops, k)
      && log == log0 + AnnouncedSince(k, hops)
      && SentAll(start, Channels(subscribers), AnnouncedSince(k, hops))
    }

    /** One round of it. */
    method PaintSimulated(ghost start: map<Subscriber, Channel>, ghost log0: seq<ProbeEvent>, ghost k: nat)
      requires Valid() && !finished && k <= |hops| && Simulated(start, log0, k)
      modifies this`paintSeq, this`finished, this`log, this`hops, corr, subscribers
      ensures Valid() && |hops| == |old(hops)| + 1 && old(hops) <= hops && Simulated(start, log0, k)
    {
      ghost var between, h := Channels(subscribers), hops;
      var hook := HOOKS[paintSeq % |HOOKS|];
      assert paintSeq == |hops|;
      PaintHop(hook, Simulate);
      HookAfterHook(h, k, Hop(hook, Simulate));
      OneMoreHop(k, h, Hop(hook, Simulate));
      SentAllTwice(start, between, Channels(subscribers), AnnouncedSince(k, h), Announced(|h|, Hop(hook, Simulate)));
    }
  }

  /** After any run, four ways of counting the painted edges agree, and they are the first ones. */
  lemma RunSummary(s: Session)
    requires s.Valid()
    ensures var n, k := |s.corr.edges|, Min(|s.hops|, |s.corr.edges|);
      && s.corr.Painted(n) == s.corr.seqNo == s.paintSeq == |Filter(s.log, IsUpdate())| == k
      && (forall i :: 0 <= i < n ==> (s.corr.edgeStates[s.corr.edges[i].id] != TheoryOnly <==> i < k))
      && (s.finished <==> |s.hops| >= FinishAt(n))
      && (forall i :: 0 <= i < n ==>
            (s.corr.edgeStates[s.corr.edges[i].id] == DroppedRed <==> s.demoDrop && s.finished && i == n - 1))
  {
    s.corr.PrefixIsCounted(|s.corr.edges|);
  }

  /** Which producer asked for which hop makes no difference to the picture. */
  lemma {:induction false} ProducersDoNotMatter(s: Session, t: Session)
    requires s.Valid() && t.Valid() && s.corr.edges == t.corr.edges && s.demoDrop == t.demoDrop
    requires |s.hops| == |t.hops|
    ensures s.finished == t.finished && s.paintSeq == t.paintSeq
    ensures forall e :: e in s.corr.edges ==> s.corr.edgeStates[e.id] == t.corr.edgeStates[e.id]
  {
    forall e | e in s.corr.edges
      ensures s.corr.edgeStates[e.id] == t.corr.edgeStates[e.id]
    {
      var i :| 0 <= i < |s.corr.edges| && s.corr.edges[i] == e;
    }
  }

  /** A capture number paints twice only if a 0 came in between. */
  lemma {:induction false} RepeatNeedsReset(ingested: seq<nat>, i: nat, j: nat)
    requires forall k :: 0 < k < |ingested| ==> ingested[k] == 0 || ingested[k - 1] < ingested[k]
    requires i < j < |ingested| && ingested[j] <= ingested[i] && ingested[j] > 0
    ensures exists k :: i < k < j && ingested[k] == 0
    decreases j
  {
    assert ingested[j - 1] < ingested[j];
    if ingested[j - 1] != 0 {
      RepeatNeedsReset(ingested, i, j - 1);
    }
  }
}
