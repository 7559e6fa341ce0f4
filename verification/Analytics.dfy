/** Packet analytics: failed TCP handshakes and packets per tenth of a second. */
module Analytics {
  import opened Sequences
  import Sorting
  import Text

  // ---- TCP handshakes ------------------------------------------------------------------------

  /** A printed network address. */
  type Address = s: string | '>' !in s witness ""

  datatype Flag = SYN | ACK | RST | FIN | OtherFlag(name: string)

  /** One direction of a TCP connection. */
  datatype Tuple = Tuple(src: Address, srcPort: nat, dst: Address, dstPort: nat) {
    function Reverse(): Tuple { Tuple(dst, dstPort, src, srcPort) }

    /** The key the flow table uses. */
    function Key(): string {
      src + ":" + Text.Decimal(srcPort) + ">" + dst + ":" + Text.Decimal(dstPort)
    }
  }

  datatype Segment = Segment(tuple: Tuple, flags: seq<Flag>) {
    /** Segments without addresses or a source port are not tracked. */
    predicate Tracked() { tuple.src != "" && tuple.dst != "" && tuple.srcPort != 0 }
    predicate Opens() { Tracked() && SYN in flags && ACK !in flags }
    predicate Answers() { Tracked() && SYN in flags && ACK in flags }
  }

  datatype FlowTrack = FlowTrack(syn: bool, synAck: bool)

  lemma NoColon(n: nat)
    ensures ':' !in Text.Decimal(n)
  {
  }

  /** The last colon separates: what follows it are digits. */
  lemma SplitAtColon(a: string, m: nat, c: string, n: nat)
    requires a + ":" + Text.Decimal(m) == c + ":" + Text.Decimal(n)
    ensures a == c && m == n
  {
    NoColon(m);
    NoColon(n);
    Text.CutAtLast(a, Text.Decimal(m), c, Text.Decimal(n), ':');
    Text.DecimalInjective(m, n);
  }

  lemma NoMark(a: Address, n: nat)
    ensures '>' !in a + ":" + Text.Decimal(n)
  {
  }

  /** Different directions have different keys. */
  lemma KeyInjective(t: Tuple, u: Tuple)
    requires t.Key() == u.Key()
    ensures t == u
  {
    var a, b := t.src + ":" + Text.Decimal(t.srcPort), t.dst + ":" + Text.Decimal(t.dstPort);
    var c, d := u.src + ":" + Text.Decimal(u.srcPort), u.dst + ":" + Text.Decimal(u.dstPort);
    NoMark(t.src, t.srcPort);
    NoMark(u.src, u.srcPort);
    assert t.Key() == a + ['>'] + b && u.Key() == c + ['>'] + d;
    Text.CutAtFirst(a, b, c, d, '>');
    SplitAtColon(t.src, t.srcPort, u.src, u.srcPort);
    SplitAtColon(t.dst, t.dstPort, u.dst, u.dstPort);
  }

  /** Some segment with addresses and a source port opens this direction. */
  ghost predicate Opened(segs: seq<Segment>, t: Tuple) {
    && t.src != "" && t.dst != "" && t.srcPort != 0
    && exists s :: s in segs && s.tuple == t && SYN in s.flags && ACK !in s.flags
  }

  /** `s` is a SYN+ACK with addresses and a source port, in this direction or from the other end. */
  ghost predicate IsAnswer(s: Segment, t: Tuple) {
    && SYN in s.flags && ACK in s.flags
    && s.tuple.src != "" && s.tuple.dst != "" && s.tuple.srcPort != 0
    && (s.tuple == t || s.tuple == Tuple(t.dst, t.dstPort, t.src, t.srcPort))
  }

  ghost predicate Answered(segs: seq<Segment>, t: Tuple) {
    exists s :: s in segs && IsAnswer(s, t)
  }

  /** The directions with an opening SYN and no SYN+ACK either way, in whatever order they were seen. */
  ghost function FailedHandshakes(segs: seq<Segment>): set<Tuple> {
    set s | s in segs && Opened(segs, s.tuple) && !Answered(segs, s.tuple) :: s.tuple
  }

  type FlowTable = map<string, FlowTrack>

  ghost predicate SynSet(flows: FlowTable, t: Tuple) { t.Key() in flows && flows[t.Key()].syn }
  ghost predicate SynAckSet(flows: FlowTable, t: Tuple) { t.Key() in flows && flows[t.Key()].synAck }
  ghost predicate IsKey(k: string) { exists t: Tuple :: t.Key() == k }

  ghost predicate Tracks(flows: FlowTable, segs: seq<Segment>) {
    && (forall t: Tuple :: Opened(segs, t) <==> SynSet(flows, t))
    && (forall t: Tuple :: Answered(segs, t) <==> SynAckSet(flows, t))
    && (forall k :: k in flows ==> IsKey(k))
  }

  function TrackAt(flows: FlowTable, k: string): FlowTrack {
    if k in flows then flows[k] else FlowTrack(false, false)
  }

  /** The table with the marks of one direction set. */
  function Mark(flows: FlowTable, u: Tuple, syn: bool, synAck: bool): FlowTable {
    var st := TrackAt(flows, u.Key());
    flows[u.Key() := FlowTrack(st.syn || syn, st.synAck || synAck)]
  }

  /** Setting the marks of one direction leaves the others alone. */
  lemma Marked(flows: FlowTable, u: Tuple, syn: bool, synAck: bool)
    requires forall k :: k in flows ==> IsKey(k)
    ensures var r := Mark(flows, u, syn, synAck);
      && (forall t: Tuple :: SynSet(r, t) <==> SynSet(flows, t) || (syn && t == u))
      && (forall t: Tuple :: SynAckSet(r, t) <==> SynAckSet(flows, t) || (synAck && t == u))
      && (forall k :: k in r ==> IsKey(k))
  {
    var r := Mark(flows, u, syn, synAck);
    assert IsKey(u.Key());
    forall t: Tuple
      ensures SynSet(r, t) <==> SynSet(flows, t) || (syn && t == u)
      ensures SynAckSet(r, t) <==> SynAckSet(flows, t) || (synAck && t == u)
    {
      if t.Key() == u.Key() {
        KeyInjective(t, u);
      }
    }
  }

  /** One segment's effect on the table. */
  method TrackTCPFlow(flows0: FlowTable, seg: Segment, ghost segs: seq<Segment>) returns (flows: FlowTable)
    requires Tracks(flows0, segs)
    ensures Tracks(flows, segs + [seg])
  {
    OneMoreSegment(segs, seg);
    flows := flows0;
    if !seg.Tracked() { return; }
    var k, rev := seg.tuple.Key(), seg.tuple.Reverse().Key();
    var hasSyn, hasAck := SYN in seg.flags, ACK in seg.flags;
    Marked(flows, seg.tuple, hasSyn && !hasAck, false);
    var st := TrackAt(flows, k);
    if hasSyn && !hasAck {
      st := st.(syn := true);
    }
    flows := flows[k := st];
    assert flows == Mark(flows0, seg.tuple, hasSyn && !hasAck, false);
    if hasSyn && hasAck {
      flows := MarkBoth(flows, seg.tuple, k, rev);
    }
  }

  /** A SYN+ACK answers both directions. */
  method MarkBoth(flows0: FlowTable, t: Tuple, k: string, rev: string) returns (flows: FlowTable)
    requires (forall j :: j in flows0 ==> IsKey(j)) && k == t.Key() && rev == t.Reverse().Key() && k in flows0
    ensures forall u: Tuple :: SynSet(flows, u) <==> SynSet(flows0, u)
    ensures forall u: Tuple :: SynAckSet(flows, u) <==> SynAckSet(flows0, u) || u == t || u == t.Reverse()
    ensures forall j :: j in flows ==> IsKey(j)
  {
    Marked(flows0, t.Reverse(), false, true);
    flows := flows0[rev := TrackAt(flows0, rev).(synAck := true)];
    assert flows == Mark(flows0, t.Reverse(), false, true);
    Marked(flows, t, false, true);
    ghost var before := flows;
    flows := flows[k := flows[k].(synAck := true)];
    assert flows == Mark(before, t, false, true);
  }

  lemma OneMoreSegment(segs: seq<Segment>, seg: Segment)
    ensures forall t: Tuple :: Opened(segs + [seg], t) <==> Opened(segs, t) || (seg.Opens() && seg.tuple == t)
    ensures forall t: Tuple :: Answered(segs + [seg], t) <==>
                               Answered(segs, t) || (seg.Answers() && (seg.tuple == t || seg.tuple.Reverse() == t))
  {
    assert forall s :: s in segs + [seg] <==> s in segs || s == seg;
    forall t: Tuple
      ensures Answered(segs + [seg], t) <==>
              Answered(segs, t) || (seg.Answers() && (seg.tuple == t || seg.tuple.Reverse() == t))
    {
      assert IsAnswer(seg, t) <==> seg.Answers() && (seg.tuple == t || seg.tuple.Reverse() == t);
      if s :| s in segs + [seg] && IsAnswer(s, t) {
        assert s in segs || s == seg;
      }
    }
  }

  method CountFailedTCP(flows: FlowTable) returns (n: nat)
    ensures n == |set k | k in flows && flows[k].syn && !flows[k].synAck|
  {
    n := 0;
    var pending := flows.Keys;
    while pending != {}
      invariant pending <= flows.Keys
      invariant n == |set k | k in flows && k !in pending && flows[k].syn && !flows[k].synAck|
      decreases pending
    {
      var k :| k in pending;
      ghost var before := set j | j in flows && j !in pending && flows[j].syn && !flows[j].synAck;
      pending := pending - {k};
      ghost var after := set j | j in flows && j !in pending && flows[j].syn && !flows[j].synAck;
      if flows[k].syn && !flows[k].synAck {
        n := n + 1;
        assert after == before + {k};
      } else {
        assert after == before;
      }
    }
    assert (set k | k in flows && flows[k].syn && !flows[k].synAck) ==
           (set k | k in flows && k !in pending && flows[k].syn && !flows[k].synAck);
  }

  lemma {:induction false} KeysOfTuples(s: set<Tuple>)
    ensures |set t | t in s :: t.Key()| == |s|
  {
    var keys := set t | t in s :: t.Key();
    if s == {} {
      assert keys == {};
    } else {
      var t :| t in s;
      KeysOfTuples(s - {t});
      var fewer := set u | u in s - {t} :: u.Key();
      assert keys == fewer + {t.Key()};
      if t.Key() in fewer {
        var u :| u in s - {t} && u.Key() == t.Key();
        KeyInjective(t, u);
      }
    }
  }

  /** The count is that of the failed directions. */
  method FailedTCP(segs: seq<Segment>) returns (n: nat)
    ensures n == |FailedHandshakes(segs)|
  {
    var flows: FlowTable := map[];
    for i := 0 to |segs|
      invariant Tracks(flows, segs[..i])
    {
      assert segs[..i + 1] == segs[..i] + [segs[i]];
      flows := TrackTCPFlow(flows, segs[i], segs[..i]);
    }
    assert segs[..|segs|] == segs;
    n := CountFailedTCP(flows);
    FailedKeys(flows, segs);
  }

  lemma FailedKeys(flows: FlowTable, segs: seq<Segment>)
    requires Tracks(flows, segs)
    ensures |set k | k in flows && flows[k].syn && !flows[k].synAck| == |FailedHandshakes(segs)|
  {
    var keys := set k | k in flows && flows[k].syn && !flows[k].synAck;
    var images := set t | t in FailedHandshakes(segs) :: t.Key();
    forall k | k in keys
      ensures k in images
    {
      assert IsKey(k);
      var t: Tuple :| t.Key() == k;
      assert SynSet(flows, t) && !SynAckSet(flows, t);
      assert Opened(segs, t) && !Answered(segs, t);
      assert t in FailedHandshakes(segs);
    }
    forall k | k in images
      ensures k in keys
    {
      var t :| t in FailedHandshakes(segs) && t.Key() == k;
      assert Opened(segs, t) && !Answered(segs, t);
      assert SynSet(flows, t) && !SynAckSet(flows, t);
    }
    assert keys == images;
    KeysOfTuples(FailedHandshakes(segs));
  }

  /** The count does not depend on the order of the frames. */
  lemma OrderDoesNotMatter(a: seq<Segment>, b: seq<Segment>)
    requires multiset(a) == multiset(b)
    ensures FailedHandshakes(a) == FailedHandshakes(b)
  {
    SameMembers(a, b);
    assert forall t: Tuple :: Answered(a, t) <==> Answered(b, t);
    assert forall t: Tuple :: Opened(a, t) <==> Opened(b, t);
  }

  // ---- Time buckets ------------------------------------------------------------------------------

  const BUCKET_MS := 100

  /** An event's offset from the first one in whole milliseconds, and its payload length. */
  datatype Tick = Tick(offMs: int, len: nat)

  datatype TimeBucket = TimeBucket(offsetMs: int, packets: nat, bytes: nat)

  /** Go's integer division, which rounds towards zero. */
  function Quotient(a: int, b: int): int
    requires b > 0
  {
    if a >= 0 then a / b else -(-a / b)
  }

  ghost function InBucket(ticks: seq<Tick>, i: int): seq<Tick> {
    Filter(ticks, (t: Tick) => Quotient(t.offMs, BUCKET_MS) == i)
  }

  ghost function Lengths(ticks: seq<Tick>): nat {
    if ticks == [] then 0 else Lengths(ticks[..|ticks| - 1]) + ticks[|ticks| - 1].len
  }

  /** Each bucket holds exactly its events. */
  ghost predicate Buckets(m: map<int, TimeBucket>, ticks: seq<Tick>) {
    && (forall i :: i in m <==> InBucket(ticks, i) != [])
    && forall i :: i in m ==> m[i] == TimeBucket(i * BUCKET_MS, |InBucket(ticks, i)|, Lengths(InBucket(ticks, i)))
  }

  lemma InBucketGrows(ticks: seq<Tick>, t: Tick, i: int)
    ensures InBucket(ticks + [t], i) ==
            if Quotient(t.offMs, BUCKET_MS) == i then InBucket(ticks, i) + [t] else InBucket(ticks, i)
    ensures Lengths(InBucket(ticks, i) + [t]) == Lengths(InBucket(ticks, i)) + t.len
  {
    assert (ticks + [t])[..|ticks|] == ticks;
    assert (InBucket(ticks, i) + [t])[..|InBucket(ticks, i)|] == InBucket(ticks, i);
  }

  lemma BucketsGrow(m: map<int, TimeBucket>, ticks: seq<Tick>, t: Tick, b: TimeBucket)
    requires Buckets(m, ticks)
    requires var i := Quotient(t.offMs, BUCKET_MS);
      b.offsetMs == i * BUCKET_MS
      && b.packets == (if i in m then m[i].packets else 0) + 1
      && b.bytes == (if i in m then m[i].bytes else 0) + t.len
    ensures Buckets(m[Quotient(t.offMs, BUCKET_MS) := b], ticks + [t])
  {
    var bi := Quotient(t.offMs, BUCKET_MS);
    assert Lengths([]) == 0;
    InBucketGrows(ticks, t, bi);
    forall i | i != bi
      ensures InBucket(ticks + [t], i) == InBucket(ticks, i)
    {
      InBucketGrows(ticks, t, i);
    }
  }

  method FillBuckets(ticks: seq<Tick>) returns (m: map<int, TimeBucket>)
    ensures Buckets(m, ticks)
  {
    m := map[];
    for n := 0 to |ticks|
      invariant Buckets(m, ticks[..n])
    {
      var t := ticks[n];
      assert ticks[..n + 1] == ticks[..n] + [t];
      var bi := Quotient(t.offMs, BUCKET_MS);
      var b := if bi in m then m[bi] else TimeBucket(bi * BUCKET_MS, 0, 0);
      b := b.(packets := b.packets + 1);
      if t.len > 0 {
        b := b.(bytes := b.bytes + t.len);
      }
      BucketsGrow(m, ticks[..n], t, b);
      m := m[bi := b];
    }
    assert ticks[..|ticks|] == ticks;
  }

  ghost function TotalPackets(buckets: seq<TimeBucket>): nat {
    if buckets == [] then 0 else TotalPackets(buckets[..|buckets| - 1]) + buckets[|buckets| - 1].packets
  }

  ghost function TotalBytes(buckets: seq<TimeBucket>): nat {
    if buckets == [] then 0 else TotalBytes(buckets[..|buckets| - 1]) + buckets[|buckets| - 1].bytes
  }

  /** Buckets in order on the 100 ms grid, none of them empty. */
  ghost predicate OnGrid(buckets: seq<TimeBucket>) {
    && (forall i, j :: 0 <= i < j < |buckets| ==> buckets[i].offsetMs < buckets[j].offsetMs)
    && forall i :: 0 <= i < |buckets| ==> buckets[i].offsetMs % BUCKET_MS == 0 && buckets[i].packets > 0
  }

  /** The ticks whose bucket is one of `keys`. */
  ghost function Within(ticks: seq<Tick>, keys: set<int>): seq<Tick> {
    Filter(ticks, (t: Tick) => Quotient(t.offMs, BUCKET_MS) in keys)
  }

  lemma {:induction false} WithinOneMore(ticks: seq<Tick>, keys: set<int>, i: int)
    requires i !in keys
    ensures |Within(ticks, keys + {i})| == |Within(ticks, keys)| + |InBucket(ticks, i)|
    ensures Lengths(Within(ticks, keys + {i})) == Lengths(Within(ticks, keys)) + Lengths(InBucket(ticks, i))
  {
    if ticks != [] {
      var n := |ticks| - 1;
      WithinOneMore(ticks[..n], keys, i);
      assert ticks[..|ticks|] == ticks;
      FilterOneMore(ticks, n, (t: Tick) => Quotient(t.offMs, BUCKET_MS) in keys);
      FilterOneMore(ticks, n, (t: Tick) => Quotient(t.offMs, BUCKET_MS) in keys + {i});
      FilterOneMore(ticks, n, (t: Tick) => Quotient(t.offMs, BUCKET_MS) == i);
    }
  }

  /** Ascending keys. */
  ghost predicate Ascending(keys: seq<int>) {
    forall i, j :: 0 <= i < j < |keys| ==> keys[i] < keys[j]
  }

  ghost function KeySet(keys: seq<int>): set<int> { set k | k in keys }

  /** The keys in order, each once. */
  method SortedKeys(s: set<int>) returns (keys: seq<int>)
    ensures Ascending(keys) && KeySet(keys) == s && |keys| == |s|
  {
    keys := Listed(s);
    var sorted := Sorting.SortSlice((x: int, y: int) => x < y, keys);
    SameMembers(keys, sorted);
    PermutedKeys(keys, sorted, (k: int) => k);
    keys := sorted;
  }

  lemma LastKey(keys: seq<int>)
    requires keys != [] && Ascending(keys)
    ensures var n := |keys| - 1; KeySet(keys) == KeySet(keys[..n]) + {keys[n]} && keys[n] !in KeySet(keys[..n])
  {
    assert keys == keys[..|keys| - 1] + [keys[|keys| - 1]];
  }

  /** The buckets of some keys count the events within those keys. */
  lemma {:induction false} CountedWithin(m: map<int, TimeBucket>, ticks: seq<Tick>, keys: seq<int>,
                                         out: seq<TimeBucket>)
    requires Buckets(m, ticks) && Ascending(keys) && Picked(m, keys, out)
    ensures TotalPackets(out) == |Within(ticks, KeySet(keys))|
    ensures TotalBytes(out) == Lengths(Within(ticks, KeySet(keys)))
  {
    if keys == [] {
      assert KeySet(keys) == {};
      NothingWithin(ticks);
    } else {
      var n := |keys| - 1;
      CountedWithin(m, ticks, keys[..n], out[..n]);
      LastKey(keys);
      WithinOneMore(ticks, KeySet(keys[..n]), keys[n]);
    }
  }

  lemma BucketAt(m: map<int, TimeBucket>, ticks: seq<Tick>, k: int)
    requires Buckets(m, ticks) && k in m
    ensures m[k].offsetMs == k * BUCKET_MS && m[k].packets > 0
  {
  }

  /** `out` lists the buckets of `m`, each once. */
  ghost predicate Lists(out: seq<TimeBucket>, m: map<int, TimeBucket>) {
    && |out| == |m|
    && (forall i :: 0 <= i < |out| ==> out[i].offsetMs / BUCKET_MS in m)
    && forall i :: 0 <= i < |out| ==> out[i] == m[out[i].offsetMs / BUCKET_MS]
  }

  ghost predicate Picked(m: map<int, TimeBucket>, keys: seq<int>, out: seq<TimeBucket>) {
    |out| == |keys| && forall i :: 0 <= i < |keys| ==> keys[i] in m && out[i] == m[keys[i]]
  }

  /** The numbers of the buckets listed. */
  ghost function Numbers(out: seq<TimeBucket>): set<int> {
    set b | b in out :: b.offsetMs / BUCKET_MS
  }

  /** The numbers of the buckets the events fall in. */
  ghost function NumbersOf(ticks: seq<Tick>): set<int> {
    set t | t in ticks :: Quotient(t.offMs, BUCKET_MS)
  }

  lemma SameNumbers(m: map<int, TimeBucket>, ticks: seq<Tick>)
    requires Buckets(m, ticks)
    ensures m.Keys == NumbersOf(ticks)
  {
    forall i
      ensures i in m <==> i in NumbersOf(ticks)
    {
      FilterMembers(ticks, (t: Tick) => Quotient(t.offMs, BUCKET_MS) == i);
      if i in m {
        assert InBucket(ticks, i)[0] in InBucket(ticks, i);
      }
    }
  }

  lemma KeysAreNumbers(keys: seq<int>, out: seq<TimeBucket>)
    requires |out| == |keys| && forall i :: 0 <= i < |keys| ==> out[i].offsetMs == keys[i] * BUCKET_MS
    ensures Numbers(out) == KeySet(keys)
  {
    forall k
      ensures k in Numbers(out) <==> k in KeySet(keys)
    {
      if k in Numbers(out) {
        var b :| b in out && b.offsetMs / BUCKET_MS == k;
        var i :| 0 <= i < |out| && out[i] == b;
      }
      if k in keys {
        var i :| 0 <= i < |keys| && keys[i] == k;
        assert out[i] in out;
      }
    }
  }

  lemma GridOf(m: map<int, TimeBucket>, ticks: seq<Tick>, keys: seq<int>, out: seq<TimeBucket>)
    requires Buckets(m, ticks) && Ascending(keys) && |keys| == |m| && Picked(m, keys, out)
    ensures OnGrid(out) && Lists(out, m) && Numbers(out) == KeySet(keys)
  {
    forall i | 0 <= i < |keys|
      ensures out[i].offsetMs == keys[i] * BUCKET_MS && out[i].packets > 0
    {
      BucketAt(m, ticks, keys[i]);
    }
    KeysAreNumbers(keys, out);
  }

  lemma SortedOut(m: map<int, TimeBucket>, ticks: seq<Tick>, keys: seq<int>, out: seq<TimeBucket>)
    requires Buckets(m, ticks) && Ascending(keys) && |keys| == |m| && Picked(m, keys, out)
    requires KeySet(keys) == m.Keys
    ensures OnGrid(out) && Lists(out, m) && Numbers(out) == m.Keys
    ensures TotalPackets(out) == |ticks| && TotalBytes(out) == Lengths(ticks)
  {
    GridOf(m, ticks, keys, out);
    CountedWithin(m, ticks, keys, out);
    AllWithin(m, ticks);
  }

  /** The buckets in the order of their keys. Every event is counted in exactly one of them. */
  method SortedBuckets(m: map<int, TimeBucket>, ghost ticks: seq<Tick>) returns (out: seq<TimeBucket>)
    requires Buckets(m, ticks)
    ensures OnGrid(out) && Lists(out, m) && Numbers(out) == m.Keys
    ensures TotalPackets(out) == |ticks| && TotalBytes(out) == Lengths(ticks)
  {
    var keys := SortedKeys(m.Keys);
    out := [];
    for n := 0 to |keys|
      invariant Picked(m, keys[..n], out)
    {
      assert keys[n] in keys;
      out := out + [m[keys[n]]];
    }
    assert keys[..|keys|] == keys;
    assert KeySet(keys) == m.Keys;
    SortedOut(m, ticks, keys, out);
  }

  lemma {:induction false} NothingWithin(ticks: seq<Tick>)
    ensures Within(ticks, {}) == []
  {
    if ticks != [] {
      NothingWithin(ticks[..|ticks| - 1]);
    }
  }

  lemma AllWithin(m: map<int, TimeBucket>, ticks: seq<Tick>)
    requires Buckets(m, ticks)
    ensures Within(ticks, m.Keys) == ticks
  {
    forall t | t in ticks
      ensures Quotient(t.offMs, BUCKET_MS) in m.Keys
    {
      var i := Quotient(t.offMs, BUCKET_MS);
      FilterMembers(ticks, (u: Tick) => Quotient(u.offMs, BUCKET_MS) == i);
      assert t in InBucket(ticks, i);
    }
    FilterAgrees(ticks, (t: Tick) => Quotient(t.offMs, BUCKET_MS) in m.Keys, (t: Tick) => true);
    FilterEverything(ticks);
  }

  lemma {:induction false} FilterEverything(ticks: seq<Tick>)
    ensures Filter(ticks, (t: Tick) => true) == ticks
  {
    if ticks != [] {
      FilterEverything(ticks[..|ticks| - 1]);
      assert ticks == ticks[..|ticks| - 1] + [ticks[|ticks| - 1]];
    }
  }

  /** Whether an event falls in a bucket: those below zero reach back, and that at zero both ways. */
  predicate Falls(offMs: int, at: int) {
    if at > 0 then at <= offMs < at + 100
    else if at < 0 then at - 100 < offMs <= at
    else -100 < offMs < 100
  }

  ghost function FallingIn(ticks: seq<Tick>, at: int): seq<Tick> {
    Filter(ticks, (t: Tick) => Falls(t.offMs, at))
  }

  lemma FallsIff(offMs: int, i: int)
    ensures Quotient(offMs, BUCKET_MS) == i <==> Falls(offMs, i * 100)
  {
  }

  lemma InBucketIs(ticks: seq<Tick>, i: int)
    ensures InBucket(ticks, i) == FallingIn(ticks, i * 100)
  {
    forall t: Tick
      ensures Quotient(t.offMs, BUCKET_MS) == i <==> Falls(t.offMs, i * 100)
    {
      FallsIff(t.offMs, i);
    }
    FilterAgrees(ticks, (t: Tick) => Quotient(t.offMs, BUCKET_MS) == i, (t: Tick) => Falls(t.offMs, i * 100));
  }

  /** The bucket holds exactly the events that fall in it. */
  ghost predicate HoldsItsOwn(b: TimeBucket, ticks: seq<Tick>) {
    b.packets == |FallingIn(ticks, b.offsetMs)| && b.bytes == Lengths(FallingIn(ticks, b.offsetMs))
  }

  ghost predicate Fallen(t: Tick, out: seq<TimeBucket>) {
    exists b :: b in out && Falls(t.offMs, b.offsetMs)
  }

  /** The bucket part of the analysis: every event is in a bucket, and each bucket holds exactly its events. */
  method TimeBuckets(ticks: seq<Tick>) returns (out: seq<TimeBucket>)
    ensures OnGrid(out) && Numbers(out) == NumbersOf(ticks)
    ensures TotalPackets(out) == |ticks| && TotalBytes(out) == Lengths(ticks)
    ensures forall b :: b in out ==> HoldsItsOwn(b, ticks)
    ensures forall t :: t in ticks ==> Fallen(t, out)
  {
    var m := FillBuckets(ticks);
    out := SortedBuckets(m, ticks);
    SameNumbers(m, ticks);
    forall b | b in out {
      OwnTicks(m, ticks, out, b);
    }
    forall t | t in ticks {
      SomeBucket(ticks, out, t);
    }
  }

  lemma OwnTicks(m: map<int, TimeBucket>, ticks: seq<Tick>, out: seq<TimeBucket>, b: TimeBucket)
    requires Buckets(m, ticks) && Lists(out, m) && b in out
    ensures HoldsItsOwn(b, ticks)
  {
    var i := b.offsetMs / BUCKET_MS;
    var k :| 0 <= k < |out| && out[k] == b;
    assert b == m[i];
    InBucketIs(ticks, i);
  }

  lemma SomeBucket(ticks: seq<Tick>, out: seq<TimeBucket>, t: Tick)
    requires Numbers(out) == NumbersOf(ticks) && OnGrid(out) && t in ticks
    ensures Fallen(t, out)
  {
    var i := Quotient(t.offMs, BUCKET_MS);
    assert i in Numbers(out);
    var b :| b in out && b.offsetMs / BUCKET_MS == i;
    var k :| 0 <= k < |out| && out[k] == b;
    FallsIff(t.offMs, i);
  }
}
