/** A capture kept in memory: per pod, a window of the latest frames and events. */
module CaptureSession {
  import opened Wrappers
  import opened Pcapng

  const MAX_EVENTS_PER_POD := 1500
  const MAX_FRAMES_PER_POD := 400

  datatype FlowEvent = FlowEvent(at: int, capturePod: string, capturePodUID: string, frame: Bytes, flowMeta: string,
                                 sequenceNo: nat)

  datatype PodBuffer = PodBuffer(podName: string, podUID: string, frames: seq<Frame>, events: seq<FlowEvent>,
                                 bytes: nat)

  /** One call of AppendFlow. */
  datatype Append = Append(podName: string, podUID: string, data: Bytes, at: int, flowMeta: string, sequenceNo: nat) {
    function Key(): string { if podUID == "" then podName else podUID }
    function AsFrame(): Frame { Frame(data, Some(at)) }
    function AsEvent(): FlowEvent { FlowEvent(at, podName, podUID, data, flowMeta, sequenceNo) }
  }

  /** The last `n` elements, or all of them. */
  function LastN<T>(s: seq<T>, n: nat): (r: seq<T>)
    ensures |r| == if |s| < n then |s| else n
  {
    if |s| > n then s[|s| - n..] else s
  }

  /** Trimming after each append is the same as trimming once at the end. */
  lemma {:induction false} LastNOfLastN<T>(s: seq<T>, n: nat, x: T)
    ensures LastN(LastN(s, n) + [x], n) == LastN(s + [x], n)
  {
  }

  // ---- The history of a pod ------------------------------------------------------------

  ghost function FramesOf(history: seq<Append>, key: string): seq<Frame> {
    if history == [] then []
    else
      var a := history[|history| - 1];
      FramesOf(history[..|history| - 1], key) + if a.Key() == key then [a.AsFrame()] else []
  }

  ghost function EventsOf(history: seq<Append>, key: string): seq<FlowEvent> {
    if history == [] then []
    else
      var a := history[|history| - 1];
      EventsOf(history[..|history| - 1], key) + if a.Key() == key then [a.AsEvent()] else []
  }

  /** The first append under a key, which names the pod's buffer. */
  ghost function FirstOf(history: seq<Append>, key: string): Option<Append> {
    if history == [] then None
    else
      var before, a := FirstOf(history[..|history| - 1], key), history[|history| - 1];
      if before.None? && a.Key() == key then Some(a) else before
  }

  /** The bytes appended under any of the given keys. */
  ghost function BytesOf(history: seq<Append>, keys: set<string>): nat {
    if history == [] then 0
    else
      var a := history[|history| - 1];
      BytesOf(history[..|history| - 1], keys) + if a.Key() in keys then |a.data| else 0
  }

  ghost function BytesAppended(history: seq<Append>): nat {
    if history == [] then 0 else BytesAppended(history[..|history| - 1]) + |history[|history| - 1].data|
  }

  ghost function KeysOf(history: seq<Append>): set<string> {
    set a | a in history :: a.Key()
  }

  lemma {:induction false} BytesOfOneMore(history: seq<Append>, keys: set<string>, key: string)
    requires key !in keys
    ensures BytesOf(history, keys + {key}) == BytesOf(history, keys) + BytesOf(history, {key})
  {
    if history != [] {
      BytesOfOneMore(history[..|history| - 1], keys, key);
    }
  }

  lemma {:induction false} BytesOfAll(history: seq<Append>, keys: set<string>)
    requires KeysOf(history) <= keys
    ensures BytesOf(history, keys) == BytesAppended(history)
  {
    if history != [] {
      var front, a := history[..|history| - 1], history[|history| - 1];
      assert a in history && a.Key() in KeysOf(history);
      assert KeysOf(front) <= KeysOf(history) by {
        assert forall b :: b in front ==> b in history;
      }
      BytesOfAll(front, keys);
    }
  }

  lemma {:induction false} BytesOfNone(history: seq<Append>)
    ensures BytesOf(history, {}) == 0
  {
    if history != [] {
      BytesOfNone(history[..|history| - 1]);
    }
  }

  lemma {:induction false} UnknownKeyHasNothing(history: seq<Append>, key: string)
    requires key !in KeysOf(history)
    ensures FramesOf(history, key) == [] && EventsOf(history, key) == [] && BytesOf(history, {key}) == 0
    ensures FirstOf(history, key) == None
  {
    if history != [] {
      var front, a := history[..|history| - 1], history[|history| - 1];
      assert a in history && a.Key() in KeysOf(history);
      assert key !in KeysOf(front) by {
        assert forall b :: b in front ==> b in history;
      }
      UnknownKeyHasNothing(front, key);
    }
  }

  // ---- Exporting -----------------------------------------------------------------------------

  ghost function Concatenated(frames: seq<Frame>): Bytes {
    if frames == [] then [] else Concatenated(frames[..|frames| - 1]) + frames[|frames| - 1].data
  }

  method ConcatFrameBytes(frames: seq<Frame>) returns (out: Bytes)
    ensures out == Concatenated(frames)
  {
    out := [];
    for i := 0 to |frames|
      invariant out == Concatenated(frames[..i])
    {
      assert frames[..i + 1][..i] == frames[..i];
      out := out + frames[i].data;
    }
    assert frames[..|frames|] == frames;
  }

  /**
   Frames that already hold a capture file are passed through; others are wrapped, and then read
   back when they fit.
   */
  method EncodeFrames(frames: seq<Frame>, base: int) returns (out: Bytes)
    ensures frames == [] ==> out == []
    ensures out == if IsPCAPContainer(Concatenated(frames)) then Concatenated(frames) else Batch(frames, base)
    ensures frames != [] && !IsPCAPContainer(Concatenated(frames)) ==>
              (Read(out) == Some(AsRead(Packets(frames, |frames|, base))) <==> AllFit(Packets(frames, |frames|, base)))
  {
    if |frames| == 0 {
      assert Concatenated(frames) == [];
      return [];
    }
    var raw := ConcatFrameBytes(frames);
    if IsPCAPContainer(raw) { return raw; }
    out := EncodePCAPng(frames, base);
    RoundTrip(Packets(frames, |frames|, base));
  }

  class Session {
    var pods: map<string, PodBuffer>
    /** Every append so far. */
    ghost var history: seq<Append>

    /** Each pod's buffer is the tail of that pod's history, and its byte count the whole of it. */
    ghost predicate Valid()
      reads this
    {
      BuffersValid(pods, history)
    }

    constructor ()
      ensures Valid() && history == []
    {
      pods := map[];
      history := [];
    }

    /** Appends to the pod's window, in memory mode; `now` stands for the current time. */
    method AppendFlow(podName: string, podUID: string, data: Bytes, flowMeta: string, sequenceNo: nat, now: int)
      requires Valid()
      modifies this
      ensures Valid() && history == old(history) + [Append(podName, podUID, data, now, flowMeta, sequenceNo)]
    {
      ghost var a := Append(podName, podUID, data, now, flowMeta, sequenceNo);
      var key := podUID;
      if key == "" {
        key := podName;
      }
      var buf := if key in pods then pods[key] else PodBuffer(podName, podUID, [], [], 0);
      ghost var before := buf;
      buf := buf.(frames := buf.frames + [Frame(data, Some(now))]);
      buf := buf.(events := buf.events + [FlowEvent(now, podName, podUID, data, flowMeta, sequenceNo)]);
      buf := TrimPodBuffer(buf);
      buf := buf.(bytes := buf.bytes + |data|);
      AppendedBuffer(before, history, a, key, buf);
      BuffersGrow(pods, history, a, buf);
      pods := pods[key := buf];
      history := history + [a];
    }

    method TotalBytes() returns (n: nat)
      requires Valid()
      ensures n == BytesAppended(history)
    {
      n := 0;
      var pending := pods.Keys;
      BytesOfNone(history);
      assert pods.Keys - pending == {};
      while pending != {}
        invariant pending <= pods.Keys
        invariant n == BytesOf(history, pods.Keys - pending)
        decreases pending
      {
        var k :| k in pending;
        BytesOfOneMore(history, pods.Keys - pending, k);
        assert pods.Keys - (pending - {k}) == pods.Keys - pending + {k};
        assert BufferValid(pods[k], history, k);
        pending := pending - {k};
        n := n + pods[k].bytes;
      }
      assert pods.Keys - {} == pods.Keys;
      BytesOfAll(history, pods.Keys);
    }

    /** A known pod's file reads back as its latest frames, unless they begin with a capture file of their own. */
    method ExportPod(podUID: string, base: int) returns (r: Option<Bytes>)
      requires Valid()
      ensures r.Some? <==> podUID in KeysOf(history)
      ensures r.Some? ==>
                var kept := LastN(FramesOf(history, podUID), MAX_FRAMES_PER_POD);
                if IsPCAPContainer(Concatenated(kept)) then r.value == Concatenated(kept)
                else r.value == Batch(kept, base)
      ensures r.Some? ==>
                var kept := LastN(FramesOf(history, podUID), MAX_FRAMES_PER_POD);
                !IsPCAPContainer(Concatenated(kept)) ==>
                (Read(r.value) == Some(AsRead(Packets(kept, |kept|, base))) <==> AllFit(Packets(kept, |kept|, base)))
    {
      if podUID !in pods { return None; }
      assert BufferValid(pods[podUID], history, podUID);
      KnownKeyHasFrames(history, podUID);
      var out := EncodeFrames(pods[podUID].frames, base);
      return Some(out);
    }
  }

  ghost predicate BufferValid(buf: PodBuffer, history: seq<Append>, key: string) {
    && buf.frames == LastN(FramesOf(history, key), MAX_FRAMES_PER_POD)
    && buf.events == LastN(EventsOf(history, key), MAX_EVENTS_PER_POD)
    && buf.bytes == BytesOf(history, {key})
    && NamedAfter(buf, FirstOf(history, key))
  }

  ghost predicate NamedAfter(buf: PodBuffer, first: Option<Append>) {
    first.Some? && buf.podName == first.value.podName && buf.podUID == first.value.podUID
  }

  method TrimPodBuffer(buf: PodBuffer) returns (r: PodBuffer)
    ensures r == buf.(frames := LastN(buf.frames, MAX_FRAMES_PER_POD), events := LastN(buf.events, MAX_EVENTS_PER_POD))
  {
    r := buf;
    if |r.events| > MAX_EVENTS_PER_POD {
      r := r.(events := r.events[|r.events| - MAX_EVENTS_PER_POD..]);
    }
    if |r.frames| > MAX_FRAMES_PER_POD {
      r := r.(frames := r.frames[|r.frames| - MAX_FRAMES_PER_POD..]);
    }
  }

  lemma HistoryGrows(history: seq<Append>, a: Append, key: string)
    ensures FramesOf(history + [a], key) == FramesOf(history, key) + if a.Key() == key then [a.AsFrame()] else []
    ensures EventsOf(history + [a], key) == EventsOf(history, key) + if a.Key() == key then [a.AsEvent()] else []
    ensures BytesOf(history + [a], {key}) == BytesOf(history, {key}) + if a.Key() == key then |a.data| else 0
    ensures FirstOf(history + [a], key) ==
            if FirstOf(history, key).None? && a.Key() == key then Some(a) else FirstOf(history, key)
  {
    assert (history + [a])[..|history|] == history;
  }

  lemma AppendedBuffer(buf: PodBuffer, history: seq<Append>, a: Append, key: string, r: PodBuffer)
    requires a.Key() == key
    requires if key in KeysOf(history) then BufferValid(buf, history, key)
             else buf == PodBuffer(a.podName, a.podUID, [], [], 0)
    requires r.frames == LastN(buf.frames + [a.AsFrame()], MAX_FRAMES_PER_POD)
    requires r.events == LastN(buf.events + [a.AsEvent()], MAX_EVENTS_PER_POD)
    requires r.bytes == buf.bytes + |a.data| && r.podName == buf.podName && r.podUID == buf.podUID
    ensures BufferValid(r, history + [a], key)
  {
    if key !in KeysOf(history) {
      UnknownKeyHasNothing(history, key);
    }
    HistoryGrows(history, a, key);
    LastNOfLastN(FramesOf(history, key), MAX_FRAMES_PER_POD, a.AsFrame());
    LastNOfLastN(EventsOf(history, key), MAX_EVENTS_PER_POD, a.AsEvent());
  }

  ghost predicate BuffersValid(pods: map<string, PodBuffer>, history: seq<Append>) {
    pods.Keys == KeysOf(history) && forall k :: k in pods ==> BufferValid(pods[k], history, k)
  }

  lemma OtherBufferStays(buf: PodBuffer, history: seq<Append>, a: Append, key: string)
    requires BufferValid(buf, history, key) && a.Key() != key
    ensures BufferValid(buf, history + [a], key)
  {
    HistoryGrows(history, a, key);
    assert FramesOf(history, key) + [] == FramesOf(history, key);
    assert EventsOf(history, key) + [] == EventsOf(history, key);
  }

  lemma KeysGrow(history: seq<Append>, a: Append)
    ensures KeysOf(history + [a]) == KeysOf(history) + {a.Key()}
  {
    assert a in history + [a] && forall b :: b in history ==> b in history + [a];
  }

  lemma {:induction false} BuffersGrow(pods: map<string, PodBuffer>, history: seq<Append>, a: Append, buf: PodBuffer)
    requires BuffersValid(pods, history) && BufferValid(buf, history + [a], a.Key())
    ensures BuffersValid(pods[a.Key() := buf], history + [a])
  {
    KeysGrow(history, a);
    forall k | k in pods && k != a.Key() {
      OtherBufferStays(pods[k], history, a, k);
    }
    UpdatedBuffers(pods, history + [a], a.Key(), buf);
  }

  lemma UpdatedBuffers(pods: map<string, PodBuffer>, history: seq<Append>, key: string, buf: PodBuffer)
    requires pods.Keys + {key} == KeysOf(history)
    requires forall k :: k in pods && k != key ==> BufferValid(pods[k], history, k)
    requires BufferValid(buf, history, key)
    ensures BuffersValid(pods[key := buf], history)
  {
    var pods' := pods[key := buf];
    assert forall k :: k in pods' ==> pods'[k] == if k == key then buf else pods[k];
  }

  lemma {:induction false} KnownKeyHasFrames(history: seq<Append>, key: string)
    requires key in KeysOf(history)
    ensures FramesOf(history, key) != []
  {
    var front, a := history[..|history| - 1], history[|history| - 1];
    if a.Key() != key {
      assert history == front + [a];
      KnownKeyHasFrames(front, key);
    }
  }
}
