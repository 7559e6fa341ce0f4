/** The bars of the burst chart: time buckets sorted, filled in and merged. */
module Burst {
  import Analytics
  import opened Sequences
  import opened Wrappers

  const BUCKET_MS := Analytics.BUCKET_MS

  type TimeBucket = Analytics.TimeBucket

  datatype BurstBar = BurstBar(offsetMs: int, packets: nat, bytes: nat, spanMs: nat)

  /** The two things a bar counts. */
  datatype Measure = Packets | Bytes {
    function Of(b: BurstBar): nat {
      match this
      case Packets => b.packets
      case Bytes => b.bytes
    }
  }

  ghost function Total(s: seq<BurstBar>, m: Measure): nat {
    if s == [] then 0 else m.Of(s[0]) + Total(s[1..], m)
  }

  lemma {:induction false} TotalConcat(a: seq<BurstBar>, b: seq<BurstBar>, m: Measure)
    ensures Total(a + b, m) == Total(a, m) + Total(b, m)
  {
    if a == [] {
      assert a + b == b;
    } else {
      assert (a + b)[1..] == a[1..] + b;
      TotalConcat(a[1..], b, m);
    }
  }

  lemma TotalOneMore(s: seq<BurstBar>, b: BurstBar, m: Measure)
    ensures Total(s + [b], m) == Total(s, m) + m.Of(b)
  {
    TotalConcat(s, [b], m);
    assert Total([b], m) == m.Of(b) + Total([], m);
  }

  // ---- Sorting -----------------------------------------------------------------------------------

  ghost predicate Ordered(s: seq<BurstBar>) {
    forall i, j :: 0 <= i < j < |s| ==> s[i].offsetMs <= s[j].offsetMs
  }

  /** The bars at one offset, in their order. */
  ghost function AtOffset(s: seq<BurstBar>, o: int): seq<BurstBar> {
    Filter(s, (b: BurstBar) => b.offsetMs == o)
  }

  lemma {:induction false} AtOffsetConcat(a: seq<BurstBar>, b: seq<BurstBar>, o: int)
    ensures AtOffset(a + b, o) == AtOffset(a, o) + AtOffset(b, o)
  {
    if b == [] {
      assert a + b == a;
    } else {
      var n := |b| - 1;
      assert (a + b)[..|a + b| - 1] == a + b[..n];
      AtOffsetConcat(a, b[..n], o);
    }
  }

  lemma SomethingAt(s: seq<BurstBar>, o: int)
    ensures AtOffset(s, o) != [] <==> exists j :: 0 <= j < |s| && s[j].offsetMs == o
  {
    FilterMembers(s, (b: BurstBar) => b.offsetMs == o);
    if |AtOffset(s, o)| > 0 {
      var b := AtOffset(s, o)[0];
      assert b in s && b.offsetMs == o;
      var j :| 0 <= j < |s| && s[j] == b;
    }
    if j :| 0 <= j < |s| && s[j].offsetMs == o {
      assert s[j] in AtOffset(s, o);
    }
  }

  lemma NothingAt(s: seq<BurstBar>, o: int)
    requires forall b :: b in s ==> b.offsetMs != o
    ensures AtOffset(s, o) == []
  {
    SomethingAt(s, o);
    assert forall j :: 0 <= j < |s| ==> s[j] in s;
  }

  /** A bar put in front of the later ones comes after the others of its offset. */
  lemma Inserted(front: seq<BurstBar>, back: seq<BurstBar>, b: BurstBar, o: int)
    requires forall c :: c in back ==> b.offsetMs < c.offsetMs
    ensures AtOffset(front + [b] + back, o) == AtOffset(front + back + [b], o)
  {
    AtOffsetConcat(front + [b], back, o);
    AtOffsetConcat(front, [b], o);
    AtOffsetConcat(front + back, [b], o);
    AtOffsetConcat(front, back, o);
    if o == b.offsetMs {
      NothingAt(back, o);
    } else {
      NothingAt([b], o);
    }
  }

  lemma InsertedTotal(front: seq<BurstBar>, back: seq<BurstBar>, b: BurstBar, m: Measure)
    ensures Total(front + [b] + back, m) == Total(front + back + [b], m)
  {
    TotalConcat(front + [b], back, m);
    TotalConcat(front, [b], m);
    TotalConcat(front + back, [b], m);
    TotalConcat(front, back, m);
  }

  ghost predicate SameTotals(a: seq<BurstBar>, b: seq<BurstBar>) {
    forall m :: Total(a, m) == Total(b, m)
  }

  /** `Array.sort` by offset, which is stable. */
  method SortByOffset(s: seq<BurstBar>) returns (r: seq<BurstBar>)
    ensures Ordered(r) && SameTotals(r, s) && |r| == |s|
    ensures forall o :: AtOffset(r, o) == AtOffset(s, o)
    ensures Ordered(s) ==> r == s
  {
    r := [];
    for n := 0 to |s|
      invariant Ordered(r) && SameTotals(r, s[..n]) && |r| == n
      invariant forall o :: AtOffset(r, o) == AtOffset(s[..n], o)
      invariant Ordered(s) ==> r == s[..n]
    {
      var k := |r|;
      while k > 0 && s[n].offsetMs < r[k - 1].offsetMs
        invariant 0 <= k <= |r|
        invariant forall i :: k <= i < |r| ==> s[n].offsetMs < r[i].offsetMs
      {
        k := k - 1;
      }
      InsertedStep(s, n, r, k);
      r := r[..k] + [s[n]] + r[k..];
    }
    assert s[..|s|] == s;
  }

  lemma InsertedStep(s: seq<BurstBar>, n: nat, r: seq<BurstBar>, k: nat)
    requires n < |s| && k <= |r| && Ordered(r) && SameTotals(r, s[..n])
    requires forall o :: AtOffset(r, o) == AtOffset(s[..n], o)
    requires forall i :: k <= i < |r| ==> s[n].offsetMs < r[i].offsetMs
    requires k > 0 ==> r[k - 1].offsetMs <= s[n].offsetMs
    ensures var q := r[..k] + [s[n]] + r[k..];
      Ordered(q) && SameTotals(q, s[..n + 1]) && forall o :: AtOffset(q, o) == AtOffset(s[..n + 1], o)
  {
    var q := r[..k] + [s[n]] + r[k..];
    assert r[..k] + r[k..] == r && s[..n + 1] == s[..n] + [s[n]];
    forall m
      ensures Total(q, m) == Total(s[..n + 1], m)
    {
      InsertedTotal(r[..k], r[k..], s[n], m);
      TotalOneMore(r, s[n], m);
      TotalOneMore(s[..n], s[n], m);
    }
    forall o
      ensures AtOffset(q, o) == AtOffset(s[..n + 1], o)
    {
      Inserted(r[..k], r[k..], s[n], o);
      AtOffsetConcat(r, [s[n]], o);
      AtOffsetConcat(s[..n], [s[n]], o);
    }
  }

  // ---- Filling in ---------------------------------------------------------------------------------

  /** The bar a map from offsets to bars ends up with. */
  ghost function Latest(s: seq<BurstBar>, o: int): Option<BurstBar> {
    if AtOffset(s, o) == [] then None else Some(AtOffset(s, o)[|AtOffset(s, o)| - 1])
  }

  ghost function Shown(s: seq<BurstBar>, o: int, m: Measure): nat {
    match Latest(s, o)
    case None => 0
    case Some(b) => m.Of(b)
  }

  /** What the bars at 0, 100, ... below `n * 100` show. */
  ghost function GridTotal(s: seq<BurstBar>, n: nat, m: Measure): nat {
    if n == 0 then 0 else GridTotal(s, n - 1, m) + Shown(s, (n - 1) * BUCKET_MS, m)
  }

  method IndexByOffset(s: seq<BurstBar>) returns (m: map<int, BurstBar>)
    ensures forall o :: Latest(s, o) == if o in m then Some(m[o]) else None
  {
    m := map[];
    for n := 0 to |s|
      invariant forall o :: Latest(s[..n], o) == if o in m then Some(m[o]) else None
    {
      assert s[..n + 1] == s[..n] + [s[n]];
      forall o {
        FilterOneMore(s, n, (b: BurstBar) => b.offsetMs == o);
      }
      m := m[s[n].offsetMs := s[n]];
    }
    assert s[..|s|] == s;
  }

  /** A bar for each of the first slots, showing what the series has at exactly that offset. */
  ghost predicate IsGrid(out: seq<BurstBar>, s: seq<BurstBar>) {
    && (forall k :: 0 <= k < |out| ==> out[k].offsetMs == k * BUCKET_MS && out[k].spanMs == BUCKET_MS)
    && forall k, m: Measure :: 0 <= k < |out| ==> m.Of(out[k]) == Shown(s, k * BUCKET_MS, m)
  }

  lemma {:induction false} GridTotals(out: seq<BurstBar>, s: seq<BurstBar>, m: Measure)
    requires IsGrid(out, s)
    ensures Total(out, m) == GridTotal(s, |out|, m)
  {
    if out != [] {
      var n := |out| - 1;
      GridTotals(out[..n], s, m);
      TotalOneMore(out[..n], out[n], m);
      assert out == out[..n] + [out[n]];
    }
  }

  /** How many slots there are from 0 up to the last offset. */
  function Slots(lastOffset: int): nat {
    if lastOffset < 0 then 0 else lastOffset / BUCKET_MS + 1
  }

  method Densify(sorted: seq<BurstBar>, lastOffset: int) returns (out: seq<BurstBar>)
    requires forall b :: b in sorted ==> b.spanMs == BUCKET_MS
    ensures IsGrid(out, sorted) && |out| == Slots(lastOffset)
  {
    var hits := IndexByOffset(sorted);
    out := [];
    var ms := 0;
    while ms <= lastOffset
      invariant ms == |out| * BUCKET_MS && |out| <= Slots(lastOffset)
      invariant IsGrid(out, sorted)
      decreases lastOffset - ms
    {
      var bar := if ms in hits then hits[ms] else BurstBar(ms, 0, 0, BUCKET_MS);
      LatestMember(sorted, ms);
      out := out + [bar];
      ms := ms + BUCKET_MS;
    }
  }

  lemma LatestMember(s: seq<BurstBar>, o: int)
    ensures Latest(s, o).Some? ==> Latest(s, o).value in s && Latest(s, o).value.offsetMs == o
  {
    FilterMembers(s, (b: BurstBar) => b.offsetMs == o);
    if AtOffset(s, o) != [] {
      assert AtOffset(s, o)[|AtOffset(s, o)| - 1] in AtOffset(s, o);
    }
  }

  /** A bar that filling in passes over: before 0, off the grid, or hidden by a later one. */
  predicate Overlooked(s: seq<BurstBar>, i: nat)
    requires i < |s|
  {
    s[i].offsetMs < 0 || s[i].offsetMs % BUCKET_MS != 0 || exists j :: i < j < |s| && s[j].offsetMs == s[i].offsetMs
  }

  ghost function Missing(s: seq<BurstBar>, m: Measure): nat {
    if s == [] then 0 else Missing(s[1..], m) + if Overlooked(s, 0) then m.Of(s[0]) else 0
  }

  lemma AtHead(s: seq<BurstBar>, o: int)
    requires s != []
    ensures AtOffset(s, o) == (if s[0].offsetMs == o then [s[0]] else []) + AtOffset(s[1..], o)
  {
    assert s == [s[0]] + s[1..];
    AtOffsetConcat([s[0]], s[1..], o);
    assert [s[0]][..0] == [] && AtOffset([], o) == [];
  }

  /** The first bar shows at its offset only when no later one does. */
  lemma ShownAtHead(s: seq<BurstBar>, k: nat, m: Measure)
    requires s != []
    ensures Shown(s, k * BUCKET_MS, m) ==
            Shown(s[1..], k * BUCKET_MS, m) +
            if s[0].offsetMs == k * BUCKET_MS && !Overlooked(s, 0) then m.Of(s[0]) else 0
  {
    AtHead(s, k * BUCKET_MS);
    SomethingAt(s[1..], k * BUCKET_MS);
    if s[0].offsetMs == k * BUCKET_MS {
      assert (exists j :: 0 <= j < |s[1..]| && s[1..][j].offsetMs == s[0].offsetMs) <==>
             (exists j :: 0 < j < |s| && s[j].offsetMs == s[0].offsetMs) by {
        if j :| 0 < j < |s| && s[j].offsetMs == s[0].offsetMs {
          assert s[1..][j - 1].offsetMs == s[0].offsetMs;
        }
      }
    }
  }

  lemma {:induction false} GridAtHead(s: seq<BurstBar>, n: nat, m: Measure)
    requires s != []
    ensures GridTotal(s, n, m) ==
            GridTotal(s[1..], n, m) +
            if s[0].offsetMs < n * BUCKET_MS && !Overlooked(s, 0) then m.Of(s[0]) else 0
  {
    if n > 0 {
      GridAtHead(s, n - 1, m);
      ShownAtHead(s, n - 1, m);
    }
  }

  /** Filling in shows everything but the bars it passes over. */
  lemma {:induction false} GridAndMissing(s: seq<BurstBar>, n: nat, m: Measure)
    requires forall b :: b in s ==> b.offsetMs < n * BUCKET_MS
    ensures GridTotal(s, n, m) + Missing(s, m) == Total(s, m)
  {
    if s == [] {
      EmptyGrid(n, m);
    } else {
      GridAndMissing(s[1..], n, m);
      GridAtHead(s, n, m);
    }
  }

  lemma {:induction false} EmptyGrid(n: nat, m: Measure)
    ensures GridTotal([], n, m) == 0
  {
    if n > 0 {
      EmptyGrid(n - 1, m);
    }
  }

  lemma {:induction false} NothingMissing(s: seq<BurstBar>, m: Measure)
    ensures Missing(s, m) == 0 <==> forall i :: 0 <= i < |s| && Overlooked(s, i) ==> m.Of(s[i]) == 0
  {
    if s != [] {
      NothingMissing(s[1..], m);
      forall i | 0 <= i < |s| - 1
        ensures Overlooked(s[1..], i) == Overlooked(s, i + 1)
      {
        LaterInTail(s, i);
      }
      assert forall i :: 0 < i < |s| ==> Overlooked(s, i) == Overlooked(s[1..], i - 1) && s[i] == s[1..][i - 1];
    }
  }

  lemma LaterInTail(s: seq<BurstBar>, i: nat)
    requires i + 1 < |s|
    ensures Overlooked(s[1..], i) == Overlooked(s, i + 1)
  {
    if j :| i + 1 < j < |s| && s[j].offsetMs == s[i + 1].offsetMs {
      assert s[1..][j - 1].offsetMs == s[1..][i].offsetMs;
    }
    if j :| i < j < |s[1..]| && s[1..][j].offsetMs == s[1..][i].offsetMs {
      assert s[j + 1].offsetMs == s[i + 1].offsetMs;
    }
  }

  // ---- Merging ------------------------------------------------------------------------------------

  /** The total of the bars from `lo` up to `hi`. */
  ghost function TotalIn(s: seq<BurstBar>, lo: int, hi: int, m: Measure): nat {
    if s == [] then 0
    else
      TotalIn(s[..|s| - 1], lo, hi, m) + if lo <= s[|s| - 1].offsetMs < hi then m.Of(s[|s| - 1]) else 0
  }

  function CeilDiv(a: nat, b: nat): (c: nat)
    requires b > 0
    ensures (c - 1) * b < a <= c * b
  {
    (a + b - 1) / b
  }

  function Max(a: int, b: int): int { if a > b then a else b }

  /** Bars at least `binMs` apart, none before `start`. */
  ghost predicate Spaced(bars: seq<BurstBar>, start: int, binMs: nat) {
    && (forall i :: 0 <= i < |bars| ==> start <= bars[i].offsetMs)
    && forall i, j :: 0 <= i < j < |bars| ==> bars[i].offsetMs + binMs <= bars[j].offsetMs
  }

  lemma {:induction false} SpacedFit(bars: seq<BurstBar>, start: int, binMs: nat)
    requires Spaced(bars, start, binMs) && |bars| > 0
    ensures start + (|bars| - 1) * binMs <= bars[|bars| - 1].offsetMs
  {
    if |bars| > 1 {
      SpacedFit(bars[..|bars| - 1], start, binMs);
      assert (|bars| - 2) * binMs + binMs == (|bars| - 1) * binMs;
    }
  }

  /** Bins lie on the grid of `start` and hold exactly the bars of their span. */
  ghost predicate IsBin(b: BurstBar, s: seq<BurstBar>, start: int, binMs: nat) {
    && b.spanMs == binMs
    && (exists idx: nat :: b.offsetMs == start + idx * binMs)
    && forall m: Measure :: m.Of(b) == TotalIn(s, b.offsetMs, b.offsetMs + binMs, m)
  }

  lemma TotalInOneMore(s: seq<BurstBar>, b: BurstBar, lo: int, hi: int, m: Measure)
    ensures TotalIn(s + [b], lo, hi, m) == TotalIn(s, lo, hi, m) + if lo <= b.offsetMs < hi then m.Of(b) else 0
  {
    assert (s + [b])[..|s|] == s;
  }

  lemma {:induction false} NothingIn(s: seq<BurstBar>, lo: int, hi: int, m: Measure)
    requires forall b :: b in s ==> !(lo <= b.offsetMs < hi)
    ensures TotalIn(s, lo, hi, m) == 0
  {
    if s != [] {
      NothingIn(s[..|s| - 1], lo, hi, m);
      assert s[|s| - 1] in s;
    }
  }

  /** The bin an offset falls in. */
  lemma BinOf(off: int, start: int, binMs: nat)
    requires binMs > 0 && start <= off
    ensures var idx := (off - start) / binMs; 0 <= idx && start + idx * binMs <= off < start + idx * binMs + binMs
  {
  }

  lemma MulMono(a: int, b: int, c: nat)
    requires a <= b
    ensures a * c <= b * c
  {
  }

  /** Two bins of the grid are the same or do not meet. */
  lemma BinsApart(start: int, binMs: nat, i: int, j: int)
    requires binMs > 0 && i < j
    ensures start + i * binMs + binMs <= start + j * binMs
  {
    MulMono(i + 1, j, binMs);
    assert (i + 1) * binMs == i * binMs + binMs;
  }

  /** The last bin is the one the bars so far end in. */
  ghost predicate EndsIn(s: seq<BurstBar>, bins: seq<BurstBar>, binMs: nat) {
    && (s == [] <==> bins == [])
    && (s != [] ==> bins[|bins| - 1].offsetMs <= s[|s| - 1].offsetMs)
    && forall b :: b in s ==> b.offsetMs < bins[|bins| - 1].offsetMs + binMs
  }

  /** The bins of the bars so far, in the order the map got them. */
  ghost predicate Binned(bins: seq<BurstBar>, s: seq<BurstBar>, start: int, binMs: nat) {
    && binMs > 0
    && Spaced(bins, start, binMs)
    && EndsIn(s, bins, binMs)
    && SameTotals(bins, s)
    && forall b :: b in bins ==> IsBin(b, s, start, binMs)
  }

  /** Where the next bar of a sorted series goes: into the last bin or into a later one. */
  lemma NextKey(bins: seq<BurstBar>, s: seq<BurstBar>, start: int, binMs: nat, b: BurstBar, key: int)
    requires Binned(bins, s, start, binMs) && start <= b.offsetMs && bins != []
    requires s[|s| - 1].offsetMs <= b.offsetMs
    requires key == start + (b.offsetMs - start) / binMs * binMs
    ensures key == bins[|bins| - 1].offsetMs || key >= bins[|bins| - 1].offsetMs + binMs
  {
    var last := bins[|bins| - 1];
    assert last in bins;
    assert IsBin(last, s, start, binMs);
    var i: nat :| last.offsetMs == start + i * binMs;
    var j := (b.offsetMs - start) / binMs;
    BinOf(b.offsetMs, start, binMs);
    if i < j {
      BinsApart(start, binMs, i, j);
    } else if j < i {
      BinsApart(start, binMs, j, i);
      assert false;
    }
  }

  /** Bins the new bar is not in stay as they are. */
  lemma StillBin(c: BurstBar, s: seq<BurstBar>, start: int, binMs: nat, b: BurstBar)
    requires IsBin(c, s, start, binMs) && c.offsetMs + binMs <= b.offsetMs
    ensures IsBin(c, s + [b], start, binMs)
  {
    forall m: Measure
      ensures m.Of(c) == TotalIn(s + [b], c.offsetMs, c.offsetMs + binMs, m)
    {
      TotalInOneMore(s, b, c.offsetMs, c.offsetMs + binMs, m);
    }
  }

  lemma NewBin(s: seq<BurstBar>, start: int, binMs: nat, b: BurstBar, bin: BurstBar)
    requires binMs > 0 && start <= b.offsetMs
    requires bin == BurstBar(start + (b.offsetMs - start) / binMs * binMs, b.packets, b.bytes, binMs)
    requires forall c :: c in s ==> c.offsetMs < bin.offsetMs
    ensures IsBin(bin, s + [b], start, binMs)
  {
    BinOf(b.offsetMs, start, binMs);
    forall m: Measure
      ensures m.Of(bin) == TotalIn(s + [b], bin.offsetMs, bin.offsetMs + binMs, m)
    {
      NothingIn(s, bin.offsetMs, bin.offsetMs + binMs, m);
      TotalInOneMore(s, b, bin.offsetMs, bin.offsetMs + binMs, m);
    }
  }

  lemma GrownBin(s: seq<BurstBar>, start: int, binMs: nat, b: BurstBar, bin: BurstBar)
    requires IsBin(bin, s, start, binMs) && bin.offsetMs <= b.offsetMs < bin.offsetMs + binMs
    ensures IsBin(bin.(packets := bin.packets + b.packets, bytes := bin.bytes + b.bytes), s + [b], start, binMs)
  {
    var grown := bin.(packets := bin.packets + b.packets, bytes := bin.bytes + b.bytes);
    forall m: Measure
      ensures m.Of(grown) == TotalIn(s + [b], bin.offsetMs, bin.offsetMs + binMs, m)
    {
      TotalInOneMore(s, b, bin.offsetMs, bin.offsetMs + binMs, m);
      assert m.Of(grown) == m.Of(bin) + m.Of(b);
    }
  }

  lemma AddBin(bins: seq<BurstBar>, s: seq<BurstBar>, start: int, binMs: nat, b: BurstBar, bin: BurstBar)
    requires Binned(bins, s, start, binMs) && start <= b.offsetMs
    requires bin == BurstBar(start + (b.offsetMs - start) / binMs * binMs, b.packets, b.bytes, binMs)
    requires bins != [] ==> bins[|bins| - 1].offsetMs + binMs <= bin.offsetMs
    ensures Binned(bins + [bin], s + [b], start, binMs)
  {
    BinOf(b.offsetMs, start, binMs);
    NewBin(s, start, binMs, b, bin);
    forall c | c in bins
      ensures IsBin(c, s + [b], start, binMs)
    {
      StillBin(c, s, start, binMs, b);
    }
    forall m
      ensures Total(bins + [bin], m) == Total(s + [b], m)
    {
      TotalOneMore(bins, bin, m);
      TotalOneMore(s, b, m);
    }
  }

  lemma GrowBin(bins: seq<BurstBar>, s: seq<BurstBar>, start: int, binMs: nat, b: BurstBar)
    requires Binned(bins, s, start, binMs) && bins != []
    requires s[|s| - 1].offsetMs <= b.offsetMs
    requires bins[|bins| - 1].offsetMs <= b.offsetMs < bins[|bins| - 1].offsetMs + binMs
    ensures var bin := bins[|bins| - 1];
      var grown := bin.(packets := bin.packets + b.packets, bytes := bin.bytes + b.bytes);
      Binned(bins[..|bins| - 1] + [grown], s + [b], start, binMs)
  {
    var front, bin := bins[..|bins| - 1], bins[|bins| - 1];
    var grown := bin.(packets := bin.packets + b.packets, bytes := bin.bytes + b.bytes);
    assert bins == front + [bin];
    GrownBin(s, start, binMs, b, bin);
    forall c | c in front
      ensures IsBin(c, s + [b], start, binMs)
    {
      var i :| 0 <= i < |front| && front[i] == c;
      StillBin(c, s, start, binMs, b);
    }
    GrownTotals(front, bin, grown, s, b);
  }

  lemma GrownTotals(front: seq<BurstBar>, bin: BurstBar, grown: BurstBar, s: seq<BurstBar>, b: BurstBar)
    requires SameTotals(front + [bin], s) && forall m: Measure :: m.Of(grown) == m.Of(bin) + m.Of(b)
    ensures SameTotals(front + [grown], s + [b])
  {
    forall m
      ensures Total(front + [grown], m) == Total(s + [b], m)
    {
      TotalOneMore(front, bin, m);
      TotalOneMore(front, grown, m);
      TotalOneMore(s, b, m);
    }
  }

  /** `bins` read in insertion order. */
  ghost predicate MapOf(bins: map<int, BurstBar>, keys: seq<int>, bars: seq<BurstBar>) {
    && |keys| == |bars|
    && (forall i :: 0 <= i < |bars| ==> keys[i] == bars[i].offsetMs && keys[i] in bins && bins[keys[i]] == bars[i])
    && forall k :: k in bins ==> k in keys
  }

  lemma MapAppend(bins: map<int, BurstBar>, keys: seq<int>, bars: seq<BurstBar>, bin: BurstBar)
    requires MapOf(bins, keys, bars) && bin.offsetMs !in bins
    ensures MapOf(bins[bin.offsetMs := bin], keys + [bin.offsetMs], bars + [bin])
  {
  }

  lemma MapGrow(bins: map<int, BurstBar>, keys: seq<int>, bars: seq<BurstBar>, bin: BurstBar)
    requires MapOf(bins, keys, bars) && bars != []
    requires forall i, j :: 0 <= i < j < |bars| ==> bars[i].offsetMs < bars[j].offsetMs
    requires bin.offsetMs == bars[|bars| - 1].offsetMs
    ensures MapOf(bins[bin.offsetMs := bin], keys, bars[..|bars| - 1] + [bin])
  {
  }

  lemma KeyIsLast(bins: map<int, BurstBar>, keys: seq<int>, bars: seq<BurstBar>, start: int, binMs: nat, key: int)
    requires MapOf(bins, keys, bars) && Spaced(bars, start, binMs) && binMs > 0
    requires bars != [] ==> key >= bars[|bars| - 1].offsetMs
    ensures key in bins ==> bars != [] && key == bars[|bars| - 1].offsetMs
  {
    if key in bins {
      var i :| 0 <= i < |keys| && keys[i] == key;
    }
  }

  lemma NotLast(bins: map<int, BurstBar>, keys: seq<int>, bars: seq<BurstBar>, key: int)
    requires MapOf(bins, keys, bars) && key !in bins
    ensures bars != [] ==> key != bars[|bars| - 1].offsetMs
  {
  }

  /** One bar's effect on the bins. */
  lemma Placed(bins: map<int, BurstBar>, keys: seq<int>, bars: seq<BurstBar>,
               s: seq<BurstBar>, start: int, binMs: nat, b: BurstBar, key: int) returns (r: seq<BurstBar>)
    requires Binned(bars, s, start, binMs) && MapOf(bins, keys, bars) && start <= b.offsetMs
    requires s != [] ==> s[|s| - 1].offsetMs <= b.offsetMs
    requires key == start + (b.offsetMs - start) / binMs * binMs
    ensures Binned(r, s + [b], start, binMs)
    ensures key !in bins ==> MapOf(bins[key := BurstBar(key, b.packets, b.bytes, binMs)], keys + [key], r)
    ensures key in bins ==>
              MapOf(bins[key := bins[key].(packets := bins[key].packets + b.packets,
                                           bytes := bins[key].bytes + b.bytes)], keys, r)
  {
    BinOf(b.offsetMs, start, binMs);
    if bars != [] {
      NextKey(bars, s, start, binMs, b, key);
    }
    KeyIsLast(bins, keys, bars, start, binMs, key);
    if key !in bins {
      var bin := BurstBar(key, b.packets, b.bytes, binMs);
      NotLast(bins, keys, bars, key);
      AddBin(bars, s, start, binMs, b, bin);
      MapAppend(bins, keys, bars, bin);
      r := bars + [bin];
    } else {
      var cur := bars[|bars| - 1];
      var grown := cur.(packets := cur.packets + b.packets, bytes := cur.bytes + b.bytes);
      GrowBin(bars, s, start, binMs, b);
      MapGrow(bins, keys, bars, grown);
      r := bars[..|bars| - 1] + [grown];
    }
  }

  /** Whether bins of a width in whole buckets span the time. */
  ghost predicate Spans(width: int, span: int, maxBars: nat) {
    width > 0 && width % BUCKET_MS == 0 && span <= maxBars * width
  }

  /** The least width of which `maxBars` bins span the time. */
  ghost predicate LeastWidth(binMs: nat, span: int, maxBars: nat) {
    Spans(binMs, span, maxBars) && forall width :: Spans(width, span, maxBars) ==> binMs <= width
  }

  /** From the first bucket to the end of the last. */
  ghost function SpanOf(series: seq<BurstBar>): int
    requires series != []
  {
    series[|series| - 1].offsetMs + BUCKET_MS - series[0].offsetMs
  }

  function BinWidth(start: int, end: int, maxBars: nat): (binMs: nat)
    requires maxBars > 0 && start <= end
    ensures LeastWidth(binMs, end + BUCKET_MS - start, maxBars)
  {
    var span := Max(BUCKET_MS, end - start + BUCKET_MS);
    var hundreds := CeilDiv(span, maxBars * BUCKET_MS);
    assert maxBars * (hundreds * BUCKET_MS) == hundreds * (maxBars * BUCKET_MS);
    NoNarrower(span, maxBars, hundreds);
    Max(BUCKET_MS, hundreds * BUCKET_MS)
  }

  lemma NoNarrower(span: int, maxBars: nat, hundreds: nat)
    requires span > (hundreds - 1) * (maxBars * BUCKET_MS)
    ensures forall width :: Spans(width, span, maxBars) ==> hundreds * BUCKET_MS <= width
  {
    forall width | Spans(width, span, maxBars)
      ensures hundreds * BUCKET_MS <= width
    {
      var k := width / BUCKET_MS;
      assert maxBars * width == k * (maxBars * BUCKET_MS);
      if k < hundreds {
        MulMono(k, hundreds - 1, maxBars * BUCKET_MS);
        assert false;
      }
    }
  }

  /** Adds a bar to its bin, opening the bin if need be. */
  method PutBar(bins0: map<int, BurstBar>, keys0: seq<int>, b: BurstBar, start: int, binMs: nat,
                ghost bars0: seq<BurstBar>, ghost s: seq<BurstBar>)
    returns (bins: map<int, BurstBar>, keys: seq<int>, ghost bars: seq<BurstBar>)
    requires Binned(bars0, s, start, binMs) && MapOf(bins0, keys0, bars0) && start <= b.offsetMs
    requires s != [] ==> s[|s| - 1].offsetMs <= b.offsetMs
    ensures Binned(bars, s + [b], start, binMs) && MapOf(bins, keys, bars)
  {
    var idx := (b.offsetMs - start) / binMs;
    var key := start + idx * binMs;
    bars := Placed(bins0, keys0, bars0, s, start, binMs, b, key);
    if key !in bins0 {
      keys, bins := keys0 + [key], bins0[key := BurstBar(key, b.packets, b.bytes, binMs)];
    } else {
      var cur := bins0[key];
      keys, bins := keys0, bins0[key := cur.(packets := cur.packets + b.packets, bytes := cur.bytes + b.bytes)];
    }
  }

  method Downsample(series: seq<BurstBar>, maxBars: nat) returns (out: seq<BurstBar>)
    requires maxBars > 0 && series != [] && Ordered(series)
    ensures |out| <= maxBars
    ensures exists binMs :: LeastWidth(binMs, SpanOf(series), maxBars) && Binned(out, series, series[0].offsetMs, binMs)
  {
    var sorted := SortByOffset(series);
    var start, end := sorted[0].offsetMs, sorted[|sorted| - 1].offsetMs;
    var binMs := BinWidth(start, end, maxBars);
    out := FillBins(sorted, start, binMs);
    BinsWithin(out, sorted, start, binMs, maxBars);
  }

  method FillBins(sorted: seq<BurstBar>, start: int, binMs: nat) returns (out: seq<BurstBar>)
    requires Ordered(sorted) && binMs > 0 && forall b :: b in sorted ==> start <= b.offsetMs
    ensures Binned(out, sorted, start, binMs)
  {
    var keys: seq<int>, bins: map<int, BurstBar> := [], map[];
    ghost var bars: seq<BurstBar> := [];
    for n := 0 to |sorted|
      invariant Binned(bars, sorted[..n], start, binMs)
      invariant MapOf(bins, keys, bars)
    {
      assert sorted[n] in sorted;
      bins, keys, bars := PutBar(bins, keys, sorted[n], start, binMs, bars, sorted[..n]);
      assert sorted[..n + 1] == sorted[..n] + [sorted[n]];
    }
    assert sorted[..|sorted|] == sorted;
    out := BinValues(bins, keys, bars);
  }

  /** The values of the map, sorted: they already were. */
  method BinValues(bins: map<int, BurstBar>, keys: seq<int>, ghost bars: seq<BurstBar>) returns (out: seq<BurstBar>)
    requires MapOf(bins, keys, bars) && Ordered(bars)
    ensures out == bars
  {
    var values := seq(|keys|, i requires 0 <= i < |keys| => bins[keys[i]]);
    assert values == bars;
    out := SortByOffset(values);
  }

  lemma BinsWithin(bars: seq<BurstBar>, s: seq<BurstBar>, start: int, binMs: nat, maxBars: nat)
    requires Binned(bars, s, start, binMs) && s != []
    requires s[|s| - 1].offsetMs - start < maxBars * binMs
    ensures |bars| <= maxBars
  {
    SpacedFit(bars, start, binMs);
    if |bars| > maxBars {
      MulMono(maxBars, |bars| - 1, binMs);
    }
  }

  // ---- The series ---------------------------------------------------------------------------------

  function Bar(b: TimeBucket): BurstBar { BurstBar(b.offsetMs, b.packets, b.bytes, BUCKET_MS) }

  function Bars(buckets: seq<TimeBucket>): seq<BurstBar> {
    seq(|buckets|, i requires 0 <= i < |buckets| => Bar(buckets[i]))
  }

  function LastOffset(s: seq<BurstBar>): (o: int)
    requires s != []
    ensures (exists b :: b in s && b.offsetMs == o) && forall b :: b in s ==> b.offsetMs <= o
  {
    assert forall b :: b in s <==> b == s[0] || b in s[1..];
    if |s| == 1 then s[0].offsetMs else Max(s[0].offsetMs, LastOffset(s[1..]))
  }

  function Ceil(x: real): (c: int)
    ensures c as real - 1.0 < x <= c as real
  {
    -(-x).Floor
  }

  /** The slots the chart would have, one for every 100 ms. */
  function SlotCount(lastOffset: int, durationSec: Option<real>): int {
    var spanMs :=
      if durationSec.Some? && durationSec.value > 0.0 then Ceil(durationSec.value * 1000.0) else lastOffset + BUCKET_MS;
    Max(1, Ceil(spanMs as real / BUCKET_MS as real))
  }

  /** Whether the chart fills in the slots between the buckets. */
  predicate FillsIn(buckets: seq<TimeBucket>, durationSec: Option<real>, maxBars: nat) {
    buckets != [] && SlotCount(LastOffset(Bars(buckets)), durationSec) <= maxBars
  }

  /** Whether slots of 100 ms hold the whole time: the given duration, or that up to the last bucket's end. */
  predicate HoldAll(slots: nat, lastOffset: int, durationSec: Option<real>) {
    if durationSec.Some? && durationSec.value > 0.0 then durationSec.value * 10.0 <= slots as real
    else lastOffset + 100 <= slots * 100
  }

  lemma CeilAtMost(x: real, n: int)
    ensures Ceil(x) <= n <==> x <= n as real
  {
    if x <= n as real {
      assert (Ceil(x) - 1) as real < n as real;
    } else {
      assert n as real < Ceil(x) as real;
    }
  }

  lemma HundredthAtMost(ms: int, n: int)
    ensures Ceil(ms as real / BUCKET_MS as real) <= n <==> ms <= n * BUCKET_MS
  {
    CeilAtMost(ms as real / BUCKET_MS as real, n);
    assert (n * BUCKET_MS) as real == n as real * 100.0;
    assert ms as real / 100.0 <= n as real <==> ms as real <= n as real * 100.0;
  }

  /** The chart fills in the slots exactly when `maxBars` of them hold the whole time. */
  lemma FillsInIff(buckets: seq<TimeBucket>, durationSec: Option<real>, maxBars: nat)
    requires maxBars > 0 && buckets != []
    ensures FillsIn(buckets, durationSec, maxBars) <==> HoldAll(maxBars, LastOffset(Bars(buckets)), durationSec)
  {
    var lastOffset := LastOffset(Bars(buckets));
    if durationSec.Some? && durationSec.value > 0.0 {
      var spanMs := Ceil(durationSec.value * 1000.0);
      HundredthAtMost(spanMs, maxBars);
      CeilAtMost(durationSec.value * 1000.0, maxBars * BUCKET_MS);
      assert (maxBars * BUCKET_MS) as real == maxBars as real * 100.0;
    } else {
      HundredthAtMost(lastOffset + BUCKET_MS, maxBars);
    }
  }

  lemma {:induction false} SameGrid(r: seq<BurstBar>, s: seq<BurstBar>, n: nat, m: Measure)
    requires forall o :: AtOffset(r, o) == AtOffset(s, o)
    ensures GridTotal(r, n, m) == GridTotal(s, n, m)
  {
    if n > 0 {
      SameGrid(r, s, n - 1, m);
    }
  }

  lemma SameBars(r: seq<BurstBar>, s: seq<BurstBar>)
    requires forall o :: AtOffset(r, o) == AtOffset(s, o)
    ensures forall b :: b in r <==> b in s
  {
    forall b
      ensures b in r <==> b in s
    {
      assert AtOffset(r, b.offsetMs) == AtOffset(s, b.offsetMs);
      FilterMembers(r, (c: BurstBar) => c.offsetMs == b.offsetMs);
      FilterMembers(s, (c: BurstBar) => c.offsetMs == b.offsetMs);
    }
  }

  /** `r` is `s` stably sorted. */
  ghost predicate StablySorted(r: seq<BurstBar>, s: seq<BurstBar>) {
    Ordered(r) && |r| == |s| && forall o :: AtOffset(r, o) == AtOffset(s, o)
  }

  /** The series before any merging: the slots filled in, or all bars in order. */
  ghost predicate Prepared(series: seq<BurstBar>, s: seq<BurstBar>, fillsIn: bool) {
    if s != [] && fillsIn then IsGrid(series, s) && |series| == Slots(LastOffset(s))
    else StablySorted(series, s) && SameTotals(series, s)
  }

  /** What the chart draws of a series: at most `maxBars` bars, merged no more than that takes. */
  ghost predicate Drawn(out: seq<BurstBar>, series: seq<BurstBar>, maxBars: nat)
    requires maxBars > 0
  {
    if |series| <= maxBars then out == series
    else
      && Ordered(series) && |out| <= maxBars
      && exists binMs :: LeastWidth(binMs, SpanOf(series), maxBars) && Binned(out, series, series[0].offsetMs, binMs)
  }

  ghost predicate Charted(out: seq<BurstBar>, s: seq<BurstBar>, fillsIn: bool, maxBars: nat)
    requires maxBars > 0
  {
    exists series :: Prepared(series, s, fillsIn) && Drawn(out, series, maxBars)
  }

  /** Filling in a stably sorted series shows what it would show unsorted. */
  lemma SortedGrid(series: seq<BurstBar>, sorted: seq<BurstBar>, s: seq<BurstBar>)
    requires StablySorted(sorted, s) && IsGrid(series, sorted)
    ensures IsGrid(series, s)
  {
  }

  method PrepareSeries(s: seq<BurstBar>, durationSec: Option<real>, maxBars: nat) returns (series: seq<BurstBar>)
    requires s != [] && forall b :: b in s ==> b.spanMs == BUCKET_MS
    ensures series != [] ==> Ordered(series)
    ensures Prepared(series, s, SlotCount(LastOffset(s), durationSec) <= maxBars)
  {
    series := SortByOffset(s);
    SameBars(series, s);
    LastOfSorted(series, s);
    var lastOffset := series[|series| - 1].offsetMs;
    if SlotCount(lastOffset, durationSec) <= maxBars {
      ghost var sorted := series;
      series := Densify(series, lastOffset);
      SortedGrid(series, sorted, s);
    }
  }

  method PrepareBurstSeries(buckets: seq<TimeBucket>, durationSec: Option<real>, maxBars: nat)
    returns (out: seq<BurstBar>)
    requires maxBars > 0
    ensures Charted(out, Bars(buckets), FillsIn(buckets, durationSec, maxBars), maxBars)
  {
    if buckets == [] {
      assert Prepared([], Bars(buckets), false) && Drawn([], [], maxBars);
      return [];
    }
    var series := PrepareSeries(Bars(buckets), durationSec, maxBars);
    if |series| > maxBars {
      out := Downsample(series, maxBars);
    } else {
      out := series;
    }
    assert Drawn(out, series, maxBars);
  }

  lemma LastOfSorted(sorted: seq<BurstBar>, s: seq<BurstBar>)
    requires s != [] && |sorted| == |s| && Ordered(sorted) && forall b :: b in sorted <==> b in s
    ensures sorted[|sorted| - 1].offsetMs == LastOffset(s)
  {
    assert sorted[|sorted| - 1] in sorted;
    var b :| b in s && b.offsetMs == LastOffset(s);
    var i :| 0 <= i < |sorted| && sorted[i] == b;
  }

  lemma PreparedTotals(series: seq<BurstBar>, s: seq<BurstBar>, fillsIn: bool, m: Measure)
    requires Prepared(series, s, fillsIn)
    ensures Ordered(series)
    ensures Total(series, m) == Total(s, m) - if fillsIn then Missing(s, m) else 0
  {
    if s != [] && fillsIn {
      GridTotals(series, s, m);
      GridAndMissing(s, |series|, m);
    }
  }

  /** At most `maxBars` bars in order; all the packets and bytes but those of the bars passed over. */
  lemma {:induction false} ChartTotals(out: seq<BurstBar>, s: seq<BurstBar>, fillsIn: bool, maxBars: nat, m: Measure)
    requires maxBars > 0 && Charted(out, s, fillsIn, maxBars)
    ensures |out| <= maxBars && Ordered(out)
    ensures Total(out, m) == Total(s, m) - if fillsIn then Missing(s, m) else 0
  {
    var series: seq<BurstBar> :| Prepared(series, s, fillsIn) && Drawn(out, series, maxBars);
    PreparedTotals(series, s, fillsIn, m);
  }

  /** The chart keeps a total exactly when it fills nothing in or the bars passed over are empty. */
  lemma {:induction false} ChartKeepsTotals(out: seq<BurstBar>, s: seq<BurstBar>, fillsIn: bool, maxBars: nat,
                                            m: Measure)
    requires maxBars > 0 && Charted(out, s, fillsIn, maxBars)
    ensures Total(out, m) == Total(s, m) <==>
            !fillsIn || forall i :: 0 <= i < |s| && Overlooked(s, i) ==> m.Of(s[i]) == 0
  {
    ChartTotals(out, s, fillsIn, maxBars, m);
    NothingMissing(s, m);
  }

  /** Bars of one width, and at least that far apart. */
  ghost predicate Merged(out: seq<BurstBar>, binMs: nat) {
    && binMs >= BUCKET_MS && (forall b :: b in out ==> b.spanMs == binMs)
    && forall i, j :: 0 <= i < j < |out| ==> out[i].offsetMs + binMs <= out[j].offsetMs
  }

  lemma BinnedIsMerged(out: seq<BurstBar>, series: seq<BurstBar>, start: int, binMs: nat)
    requires Binned(out, series, start, binMs) && binMs >= BUCKET_MS
    ensures Merged(out, binMs)
  {
    assert forall b :: b in out ==> IsBin(b, series, start, binMs);
  }

  lemma DrawnIsMerged(out: seq<BurstBar>, series: seq<BurstBar>, maxBars: nat)
    requires maxBars > 0 && Drawn(out, series, maxBars) && |series| > maxBars
    ensures exists binMs :: Merged(out, binMs)
  {
    var binMs :| LeastWidth(binMs, SpanOf(series), maxBars) && Binned(out, series, series[0].offsetMs, binMs);
    BinnedIsMerged(out, series, series[0].offsetMs, binMs);
  }

  /** More slots or bars than fit are merged. */
  lemma {:induction false} BinsAreApart(out: seq<BurstBar>, s: seq<BurstBar>, fillsIn: bool, maxBars: nat)
    requires maxBars > 0 && s != [] && Charted(out, s, fillsIn, maxBars)
    requires maxBars < if fillsIn then Slots(LastOffset(s)) else |s|
    ensures exists binMs :: Merged(out, binMs)
  {
    var series: seq<BurstBar> :| Prepared(series, s, fillsIn) && Drawn(out, series, maxBars);
    DrawnIsMerged(out, series, maxBars);
  }

  /** Of the buckets the analysis makes, filling in passes over the negative ones only. */
  lemma {:induction false} GridOverlooked(buckets: seq<TimeBucket>, i: nat)
    requires Analytics.OnGrid(buckets) && i < |buckets|
    ensures Overlooked(Bars(buckets), i) <==> buckets[i].offsetMs < 0
  {
    forall j | i < j < |buckets|
      ensures Bars(buckets)[j].offsetMs != Bars(buckets)[i].offsetMs
    {
      assert buckets[i].offsetMs < buckets[j].offsetMs;
    }
  }

  lemma {:induction false} SameBucketTotals(buckets: seq<TimeBucket>)
    ensures Total(Bars(buckets), Packets) == Analytics.TotalPackets(buckets)
    ensures Total(Bars(buckets), Bytes) == Analytics.TotalBytes(buckets)
  {
    if buckets != [] {
      var n := |buckets| - 1;
      SameBucketTotals(buckets[..n]);
      assert Bars(buckets) == Bars(buckets[..n]) + [Bar(buckets[n])];
      TotalOneMore(Bars(buckets[..n]), Bar(buckets[n]), Packets);
      TotalOneMore(Bars(buckets[..n]), Bar(buckets[n]), Bytes);
    }
  }

  lemma GridKeeps(buckets: seq<TimeBucket>, m: Measure)
    requires Analytics.OnGrid(buckets)
    ensures (forall i :: 0 <= i < |buckets| && Overlooked(Bars(buckets), i) ==> m.Of(Bars(buckets)[i]) == 0) <==>
            forall i :: 0 <= i < |buckets| && buckets[i].offsetMs < 0 ==> m.Of(Bars(buckets)[i]) == 0
  {
    forall i | 0 <= i < |buckets|
      ensures Overlooked(Bars(buckets), i) <==> buckets[i].offsetMs < 0
    {
      GridOverlooked(buckets, i);
    }
  }

  /**
   The chart of an analysis counts every event, exactly when it fills nothing in or
   no bucket lies before the first event.
   */
  lemma {:induction false} EventsAreCharted(out: seq<BurstBar>, buckets: seq<TimeBucket>, fillsIn: bool, maxBars: nat)
    requires maxBars > 0 && Analytics.OnGrid(buckets) && Charted(out, Bars(buckets), fillsIn, maxBars)
    ensures Total(out, Packets) == Analytics.TotalPackets(buckets) <==>
            !fillsIn || forall i :: 0 <= i < |buckets| ==> buckets[i].offsetMs >= 0
  {
    ChartKeepsTotals(out, Bars(buckets), fillsIn, maxBars, Packets);
    SameBucketTotals(buckets);
    GridKeeps(buckets, Packets);
    assert forall i :: 0 <= i < |buckets| ==> Packets.Of(Bars(buckets)[i]) == buckets[i].packets;
  }

  lemma {:induction false} BytesAreCharted(out: seq<BurstBar>, buckets: seq<TimeBucket>, fillsIn: bool, maxBars: nat)
    requires maxBars > 0 && Analytics.OnGrid(buckets) && Charted(out, Bars(buckets), fillsIn, maxBars)
    ensures Total(out, Bytes) == Analytics.TotalBytes(buckets) <==>
            !fillsIn || forall i :: 0 <= i < |buckets| && buckets[i].offsetMs < 0 ==> buckets[i].bytes == 0
  {
    ChartKeepsTotals(out, Bars(buckets), fillsIn, maxBars, Bytes);
    SameBucketTotals(buckets);
    GridKeeps(buckets, Bytes);
    assert forall i :: 0 <= i < |buckets| ==> Bytes.Of(Bars(buckets)[i]) == buckets[i].bytes;
  }

  // ---- An event that is not charted -----------------------------------------------------------------

  /** An event, and one that its clock puts 150 ms before it. */
  const EARLY := [Analytics.Tick(0, 1), Analytics.Tick(-150, 1)]

  lemma EarlyNumbers()
    ensures Analytics.NumbersOf(EARLY) == {0, -1}
  {
    assert Analytics.Quotient(-150, BUCKET_MS) == -1;
    assert EARLY[0] in EARLY && EARLY[1] in EARLY;
  }

  lemma EarlyBuckets(buckets: seq<TimeBucket>)
    requires Analytics.OnGrid(buckets) && Analytics.Numbers(buckets) == {0, -1}
    ensures (forall b :: b in buckets ==> b.offsetMs in {0, -100})
    ensures exists i :: 0 <= i < |buckets| && buckets[i].offsetMs == -100
  {
    forall b | b in buckets
      ensures b.offsetMs == b.offsetMs / BUCKET_MS * BUCKET_MS && b.offsetMs / BUCKET_MS in {0, -1}
    {
      assert b.offsetMs / BUCKET_MS in Analytics.Numbers(buckets);
    }
    assert -1 in Analytics.Numbers(buckets);
    var c :| c in buckets && c.offsetMs / BUCKET_MS == -1;
  }

  /** Two events, of which the chart does not show both. */
  method EarlyEventIsNotCharted() returns (out: seq<BurstBar>)
    ensures Total(out, Packets) != |EARLY|
  {
    var buckets := Analytics.TimeBuckets(EARLY);
    EarlyNumbers();
    EarlyBuckets(buckets);
    out := PrepareBurstSeries(buckets, None, 180);
    EarlyFillsIn(buckets);
    EventsAreCharted(out, buckets, true, 180);
  }

  lemma EarlyFillsIn(buckets: seq<TimeBucket>)
    requires buckets != [] && forall b :: b in buckets ==> b.offsetMs in {0, -100}
    ensures FillsIn(buckets, None, 180)
  {
    var last := LastOffset(Bars(buckets));
    var bar :| bar in Bars(buckets) && bar.offsetMs == last;
    var i :| 0 <= i < |buckets| && Bar(buckets[i]) == bar;
    assert buckets[i] in buckets;
  }
}
