/** The PCAP-NG writer, and a reader written from draft-ietf-opsawg-pcapng. */
module Pcapng {
  import opened Wrappers

  type byte = x: int | 0 <= x < 256
  type Bytes = seq<byte>

  const TWO32 := 0x1_0000_0000
  const TWO64 := TWO32 * TWO32
  const BLOCK_SHB := 0x0a0d0d0a
  const BLOCK_IDB := 1
  const BLOCK_EPB := 6
  const BYTE_ORDER_MAGIC := 0x1a2b3c4d
  const LINK_ETHERNET := 1
  const SNAP_LEN := 65535

  /** A captured frame; `at` is in microseconds since 1970, `None` for Go's zero time. */
  datatype Frame = Frame(data: Bytes, at: Option<int>)

  // ---- Writing -----------------------------------------------------------------------

  function LE16(n: int): (b: Bytes)
    requires 0 <= n < 0x1_0000
    ensures |b| == 2
  {
    [n % 256, n / 256]
  }

  function LE32(n: int): (b: Bytes)
    requires 0 <= n < TWO32
    ensures |b| == 4
  {
    [n % 256, n / 0x100 % 256, n / 0x1_0000 % 256, n / 0x100_0000]
  }

  /** Go's `uint32(n)`. */
  function UInt32(n: int): (r: int)
    ensures 0 <= r < TWO32
  {
    n % TWO32
  }

  function Zeros(n: nat): (b: Bytes)
    ensures |b| == n
  {
    seq(n, _ => 0)
  }

  function Pad4(n: nat): (p: nat)
    ensures p < 4 && (n + p) % 4 == 0
  {
    (4 - n % 4) % 4
  }

  function Block(blockType: int, body: Bytes): Bytes
    requires 0 <= blockType < TWO32
  {
    var total := UInt32(12 + |body|);
    LE32(blockType) + LE32(total) + body + LE32(total)
  }

  function SHBBody(): Bytes {
    LE32(BYTE_ORDER_MAGIC) + LE16(1) + LE16(0) + [255, 255, 255, 255, 255, 255, 255, 255] + LE16(0) + LE16(0)
  }

  function SHB(): Bytes { Block(BLOCK_SHB, SHBBody()) }

  function IDB(): Bytes {
    Block(BLOCK_IDB, LE16(LINK_ETHERNET) + LE16(0) + LE32(SNAP_LEN) + LE16(0) + LE16(0))
  }

  /** The parts of a packet block's body that precede and follow the packet. */
  function EPBHead(us: int, captured: int): (b: Bytes)
    requires 0 <= captured < TWO32
    ensures |b| == 20
  {
    LE32(0) + LE32(UInt32(us / TWO32)) + LE32(UInt32(us)) + LE32(captured) + LE32(captured)
  }

  function EPBBody(packet: Bytes, us: int): (b: Bytes)
    ensures |b| == 24 + |packet| + Pad4(|packet|)
  {
    EPBHead(us, UInt32(|packet|)) + packet + Zeros(Pad4(|packet|)) + LE16(0) + LE16(0)
  }

  function EPB(packet: Bytes, us: int): Bytes {
    Block(BLOCK_EPB, EPBBody(packet, us))
  }

  function Header(): (b: Bytes)
    ensures |b| == 56
  {
    SHB() + IDB()
  }

  function Micros(frames: seq<Frame>, i: nat, base: int): int
    requires i < |frames|
  {
    if frames[i].at.Some? then frames[i].at.value else base + i
  }

  /** What a reader learns of the interface a packet was captured on. */
  datatype Interface = Interface(linkType: nat, snapLen: nat)

  /** A packet as a reader sees it: an unsigned 64-bit timestamp, the captured bytes, and the length on the wire. */
  datatype Packet = Packet(on: Interface, us: nat, data: Bytes, original: nat)

  /**
   The non-empty frames among the first `n`, with the timestamps the writer gives them; `base` is
   the time of writing.
   */
  function Packets(frames: seq<Frame>, n: nat, base: int): (r: seq<(Bytes, int)>)
    requires n <= |frames|
    ensures forall i :: 0 <= i < |r| ==> |r[i].0| > 0
  {
    if n == 0 then []
    else if frames[n - 1].data == [] then Packets(frames, n - 1, base)
    else Packets(frames, n - 1, base) + [(frames[n - 1].data, Micros(frames, n - 1, base))]
  }

  /** One packet block after the other. */
  function Blocks(packets: seq<(Bytes, int)>): Bytes {
    if packets == [] then []
    else Blocks(packets[..|packets| - 1]) + EPB(packets[|packets| - 1].0, packets[|packets| - 1].1)
  }

  lemma BlocksOneMore(header: Bytes, packets: seq<(Bytes, int)>, data: Bytes, us: int)
    ensures header + Blocks(packets + [(data, us)]) == header + Blocks(packets) + EPB(data, us)
  {
    assert (packets + [(data, us)])[..|packets|] == packets;
    Regroup(header, Blocks(packets), EPB(data, us));
  }

  lemma Regroup(a: Bytes, b: Bytes, c: Bytes)
    ensures a + (b + c) == a + b + c
  {
  }

  /** The file of a batch of frames; nothing at all when there are none. */
  ghost function Batch(frames: seq<Frame>, base: int): Bytes {
    if frames == [] then [] else Header() + Blocks(Packets(frames, |frames|, base))
  }

  method EncodePCAPng(frames: seq<Frame>, base: int) returns (out: Bytes)
    ensures out == Batch(frames, base)
  {
    if |frames| == 0 { return []; }
    out := Header();
    for i := 0 to |frames|
      invariant out == Header() + Blocks(Packets(frames, i, base))
    {
      var fr := frames[i];
      if |fr.data| == 0 { continue; }
      var ts := if fr.at.None? then base + i else fr.at.value;
      BlocksOneMore(Header(), Packets(frames, i, base), fr.data, ts);
      out := out + EPB(fr.data, ts);
    }
  }

  /** Whether bytes already begin with a pcap or pcapng container. */
  predicate IsPCAPContainer(b: Bytes) {
    |b| >= 4 && ReadU32(b, 0) in {BLOCK_SHB, 0xa1b2c3d4, 0xd4c3b2a1}
  }

  // ---- Reading ------------------------------------------------------------------------

  function ReadU16(b: Bytes, i: nat): nat
    requires i + 2 <= |b|
  {
    b[i] as int + b[i + 1] as int * 0x100
  }

  function ReadU32(b: Bytes, i: nat): (n: nat)
    requires i + 4 <= |b|
    ensures n < TWO32
  {
    b[i] as int + b[i + 1] as int * 0x100 + b[i + 2] as int * 0x1_0000 + b[i + 3] as int * 0x100_0000
  }

  /** Section 3.1: a block's length is a multiple of 4, covers at least its frame, fits, and is repeated at the end. */
  predicate Framed(b: Bytes) {
    && |b| >= 12
    && var total := ReadU32(b, 4);
      12 <= total <= |b| && total % 4 == 0 && ReadU32(b, total - 4) == total
  }

  function Total(b: Bytes): (n: nat)
    requires Framed(b)
    ensures 12 <= n <= |b| && n < TWO32
  {
    ReadU32(b, 4)
  }

  function Body(b: Bytes): (r: Bytes)
    requires Framed(b)
    ensures |r| == Total(b) - 12
  {
    b[8..Total(b) - 4]
  }

  /** Section 3.5: no options at all, or options up to the one that ends them. */
  predicate AreOptions(b: Bytes)
    decreases |b|
  {
    b == [] ||
    (|b| >= 4 &&
     var code, len := ReadU16(b, 0), ReadU16(b, 2);
     var n := 4 + len + Pad4(len);
     if code == 0 then len == 0 && |b| == 4 else n <= |b| && AreOptions(b[n..]))
  }

  /**
   Section 4.3: interface, timestamp, captured and original length, the packet padded to 4 bytes
   with zeros, and options.
   */
  function ReadEPB(body: Bytes, interfaces: seq<Interface>): Option<Packet> {
    if |body| < 20 || ReadU32(body, 0) >= |interfaces| then None
    else
      var captured := ReadU32(body, 12);
      var end := 20 + captured + Pad4(captured);
      if end > |body| || !AreOptions(body[end..]) || exists i :: 20 + captured <= i < end && body[i] != 0 then None
      else
        Some(Packet(interfaces[ReadU32(body, 0)], ReadU32(body, 4) * TWO32 + ReadU32(body, 8),
                    body[20..20 + captured], ReadU32(body, 16)))
  }

  /**
   Section 4.1: byte-order magic, version 1.0, options, and the length of the section that
   follows, where all ones stand for an unknown one.
   */
  predicate IsSectionHeader(body: Bytes, rest: Bytes) {
    && |body| >= 16
    && ReadU32(body, 0) == 0x1a2b3c4d && ReadU16(body, 4) == 1 && ReadU16(body, 6) == 0
    && ReadU32(body, 8) + ReadU32(body, 12) * TWO32 in {TWO64 - 1, |rest|}
    && AreOptions(body[16..])
  }

  /** Section 4.2: link type, a reserved zero, snap length, options. */
  function ReadIDB(body: Bytes): Option<Interface> {
    if |body| < 8 || ReadU16(body, 2) != 0 || !AreOptions(body[8..]) then None
    else Some(Interface(ReadU16(body, 0), ReadU32(body, 4)))
  }

  /** The blocks after a section header; `interfaces` are those described so far. */
  function ReadBlocks(b: Bytes, interfaces: seq<Interface>): Option<seq<Packet>>
    decreases |b|
  {
    if b == [] then Some([])
    else if !Framed(b) then None
    else
      var blockType, body, rest := ReadU32(b, 0), Body(b), b[Total(b)..];
      if blockType == 0x0a0d0d0a then
        if IsSectionHeader(body, rest) then ReadBlocks(rest, []) else None
      else if blockType == 1 then
        var described := ReadIDB(body);
        if described.None? then None else ReadBlocks(rest, interfaces + [described.value])
      else if blockType == 6 then
        var packet, others := ReadEPB(body, interfaces), ReadBlocks(rest, interfaces);
        if packet.None? || others.None? then None else Some([packet.value] + others.value)
      else ReadBlocks(rest, interfaces)
  }

  /** A file begins with a section header. */
  function Read(b: Bytes): Option<seq<Packet>> {
    if Framed(b) && ReadU32(b, 0) == 0x0a0d0d0a then ReadBlocks(b, []) else None
  }

  // ---- Round trip ------------------------------------------------------------------------

  /** The block of a packet of this length has a length that fits 32 bits. */
  predicate Fits(len: nat) { 36 + len + Pad4(len) < TWO32 }

  /** Link type 1 is Ethernet. */
  const ETHERNET := Interface(1, 65535)

  function PacketOf(data: Bytes, us: int): Packet { Packet(ETHERNET, us % TWO64, data, |data|) }

  /** What a reader should find: whole packets on an Ethernet interface, timestamps as unsigned 64-bit numbers. */
  function AsRead(packets: seq<(Bytes, int)>): (r: seq<Packet>)
    ensures |r| == |packets|
  {
    seq(|packets|, i requires 0 <= i < |packets| => PacketOf(packets[i].0, packets[i].1))
  }

  lemma {:induction false} LE32RoundTrip(n: int, pre: Bytes, post: Bytes)
    requires 0 <= n < TWO32
    ensures ReadU32(pre + LE32(n) + post, |pre|) == n
  {
    var b := pre + LE32(n) + post;
    assert forall k :: 0 <= k < 4 ==> b[|pre| + k] == LE32(n)[k];
    Digits(n);
  }

  lemma Digits(n: int)
    requires 0 <= n < TWO32
    ensures n % 256 + n / 0x100 % 256 * 0x100 + n / 0x1_0000 % 256 * 0x1_0000 + n / 0x100_0000 * 0x100_0000 == n
  {
    assert n / 0x100 / 0x100 == n / 0x1_0000 && n / 0x1_0000 / 0x100 == n / 0x100_0000;
  }

  lemma BlockWords(blockType: int, body: Bytes, rest: Bytes)
    requires 0 <= blockType < TWO32 && 12 + |body| < TWO32
    ensures var b := Block(blockType, body) + rest;
      ReadU32(b, 0) == blockType && ReadU32(b, 4) == 12 + |body| && ReadU32(b, 8 + |body|) == 12 + |body|
  {
    var total := 12 + |body|;
    var b := Block(blockType, body) + rest;
    LE32RoundTrip(blockType, [], LE32(total) + body + LE32(total) + rest);
    assert b == [] + LE32(blockType) + (LE32(total) + body + LE32(total) + rest);
    LE32RoundTrip(total, LE32(blockType), body + LE32(total) + rest);
    assert b == LE32(blockType) + LE32(total) + (body + LE32(total) + rest);
    LE32RoundTrip(total, LE32(blockType) + LE32(total) + body, rest);
    assert b == (LE32(blockType) + LE32(total) + body) + LE32(total) + rest;
  }

  /** The block writer and the block reader agree on every block whose length fits and is a multiple of 4. */
  lemma {:induction false} BlockRoundTrip(blockType: int, body: Bytes, rest: Bytes)
    requires 0 <= blockType < TWO32 && 12 + |body| < TWO32 && |body| % 4 == 0
    ensures var b := Block(blockType, body) + rest;
      Framed(b) && Total(b) == 12 + |body| && Body(b) == body && b[Total(b)..] == rest && ReadU32(b, 0) == blockType
  {
    var b := Block(blockType, body) + rest;
    BlockWords(blockType, body, rest);
    assert b[8..8 + |body|] == body && b[12 + |body|..] == rest;
  }

  lemma Halves(us: int)
    ensures UInt32(us / TWO32) * TWO32 + UInt32(us) == us % TWO64
  {
    var hi, lo := us / TWO32, us % TWO32;
    assert us == hi * TWO32 + lo;
    var top := hi / TWO32;
    assert hi == top * TWO32 + hi % TWO32;
    assert us == top * TWO64 + (hi % TWO32 * TWO32 + lo);
    assert 0 <= hi % TWO32 * TWO32 + lo < TWO64;
  }

  lemma EPBHeadRoundTrip(us: int, captured: int, post: Bytes)
    requires 0 <= captured < TWO32
    ensures var b := EPBHead(us, captured) + post;
      ReadU32(b, 0) == 0 && ReadU32(b, 4) * TWO32 + ReadU32(b, 8) == us % TWO64 && ReadU32(b, 12) == captured
    ensures ReadU32(EPBHead(us, captured) + post, 16) == captured
  {
    var hi, lo := LE32(UInt32(us / TWO32)), LE32(UInt32(us));
    var c, z := LE32(captured), LE32(0);
    var b := EPBHead(us, captured) + post;
    LE32RoundTrip(0, [], hi + lo + c + c + post);
    assert b == [] + z + (hi + lo + c + c + post);
    LE32RoundTrip(UInt32(us / TWO32), z, lo + c + c + post);
    assert b == z + hi + (lo + c + c + post);
    LE32RoundTrip(UInt32(us), z + hi, c + c + post);
    assert b == (z + hi) + lo + (c + c + post);
    LE32RoundTrip(captured, z + hi + lo, c + post);
    assert b == (z + hi + lo) + c + (c + post);
    LE32RoundTrip(captured, z + hi + lo + c, post);
    assert b == (z + hi + lo + c) + c + post;
    Halves(us);
  }

  lemma ReadsAs(body: Bytes, interfaces: seq<Interface>, data: Bytes, us: nat)
    requires |body| == 24 + |data| + Pad4(|data|) && interfaces != [] && ReadU32(body, 0) == 0
    requires ReadU32(body, 4) * TWO32 + ReadU32(body, 8) == us && ReadU32(body, 12) == |data| == ReadU32(body, 16)
    requires body[20..20 + |data|] == data && forall i :: 20 + |data| <= i < |body| ==> body[i] == 0
    ensures ReadEPB(body, interfaces) == Some(Packet(interfaces[0], us, data, |data|))
  {
    var end := 20 + |data| + Pad4(|data|);
    assert AreOptions(body[end..]);
  }

  lemma SliceAfter(head: Bytes, data: Bytes, tail: Bytes)
    ensures (head + data + tail)[|head|..|head| + |data|] == data
  {
  }

  lemma EPBParts(data: Bytes, us: int)
    requires |data| < TWO32
    ensures EPBBody(data, us) == EPBHead(us, |data|) + data + (Zeros(Pad4(|data|)) + LE16(0) + LE16(0))
  {
    FiveParts(EPBHead(us, |data|), data, Zeros(Pad4(|data|)), LE16(0), LE16(0));
  }

  lemma FiveParts(a: Bytes, b: Bytes, c: Bytes, d: Bytes, e: Bytes)
    ensures a + b + c + d + e == a + b + (c + d + e)
  {
  }

  lemma {:induction false} EPBRoundTrip(data: Bytes, us: int, interfaces: seq<Interface>)
    requires Fits(|data|) && interfaces != []
    ensures ReadEPB(EPBBody(data, us), interfaces) == Some(Packet(interfaces[0], us % TWO64, data, |data|))
  {
    var head, tail := EPBHead(us, |data|), Zeros(Pad4(|data|)) + LE16(0) + LE16(0);
    EPBParts(data, us);
    Regroup(head, data, tail);
    EPBHeadRoundTrip(us, |data|, data + tail);
    SliceAfter(head, data, tail);
    TailAfter(head, data, tail);
    ReadsAs(EPBBody(data, us), interfaces, data, us % TWO64);
  }

  lemma TailAfter(head: Bytes, data: Bytes, tail: Bytes)
    requires forall i :: 0 <= i < |tail| ==> tail[i] == 0
    ensures var b := head + data + tail; forall i :: |head| + |data| <= i < |b| ==> b[i] == 0
  {
  }

  function Flat(blocks: seq<Bytes>): Bytes {
    if blocks == [] then [] else Flat(blocks[..|blocks| - 1]) + blocks[|blocks| - 1]
  }

  lemma {:induction false} FlatFromFront(blocks: seq<Bytes>)
    requires blocks != []
    ensures Flat(blocks) == blocks[0] + Flat(blocks[1..])
  {
    var n := |blocks| - 1;
    if n > 0 {
      FlatFromFront(blocks[..n]);
      var tail := blocks[1..];
      assert blocks[..n][1..] == tail[..n - 1] && tail[n - 1] == blocks[n];
      Regroup(blocks[0], Flat(tail[..n - 1]), blocks[n]);
    } else {
      assert blocks[..0] == [] && blocks[1..] == [];
    }
  }

  function EPBs(packets: seq<(Bytes, int)>): (r: seq<Bytes>)
    ensures |r| == |packets|
  {
    seq(|packets|, i requires 0 <= i < |packets| => EPB(packets[i].0, packets[i].1))
  }

  lemma {:induction false} BlocksAreFlat(packets: seq<(Bytes, int)>)
    ensures Blocks(packets) == Flat(EPBs(packets))
  {
    if packets != [] {
      BlocksAreFlat(packets[..|packets| - 1]);
      assert EPBs(packets)[..|packets| - 1] == EPBs(packets[..|packets| - 1]);
    }
  }

  lemma BlocksFromFront(packets: seq<(Bytes, int)>)
    requires packets != []
    ensures Blocks(packets) == EPB(packets[0].0, packets[0].1) + Blocks(packets[1..])
  {
    BlocksAreFlat(packets);
    BlocksAreFlat(packets[1..]);
    FlatFromFront(EPBs(packets));
    assert EPBs(packets)[1..] == EPBs(packets[1..]);
  }

  predicate AllFit(packets: seq<(Bytes, int)>) {
    forall i :: 0 <= i < |packets| ==> Fits(|packets[i].0|)
  }

  /** What reading yields when these packets come first. */
  function Prepend(packets: seq<Packet>, r: Option<seq<Packet>>): Option<seq<Packet>> {
    if r.None? then None else Some(packets + r.value)
  }

  lemma ReadOneBlock(b: Bytes, rest: Bytes, interfaces: seq<Interface>, packet: Packet)
    requires Framed(b) && ReadU32(b, 0) == BLOCK_EPB && b[Total(b)..] == rest
    requires ReadEPB(Body(b), interfaces) == Some(packet)
    ensures ReadBlocks(b, interfaces) == Prepend([packet], ReadBlocks(rest, interfaces))
  {
  }

  lemma ReadOneEPB(data: Bytes, us: int, rest: Bytes, interfaces: seq<Interface>)
    requires Fits(|data|) && interfaces == [ETHERNET]
    ensures ReadBlocks(EPB(data, us) + rest, interfaces) ==
            Prepend([PacketOf(data, us)], ReadBlocks(rest, interfaces))
  {
    BlockRoundTrip(BLOCK_EPB, EPBBody(data, us), rest);
    EPBRoundTrip(data, us, interfaces);
    ReadOneBlock(EPB(data, us) + rest, rest, interfaces, PacketOf(data, us));
  }

  /** Reading the written packets gives them back and goes on with what follows. */
  lemma {:induction false} BlocksRoundTrip(packets: seq<(Bytes, int)>, rest: Bytes, interfaces: seq<Interface>)
    requires AllFit(packets) && interfaces == [ETHERNET]
    ensures ReadBlocks(Blocks(packets) + rest, interfaces) == Prepend(AsRead(packets), ReadBlocks(rest, interfaces))
    decreases |packets|
  {
    var r := ReadBlocks(rest, interfaces);
    if packets == [] {
      assert Blocks(packets) + rest == rest;
      assert r.Some? ==> AsRead(packets) + r.value == r.value;
    } else {
      var data, us := packets[0].0, packets[0].1;
      BlocksFromFront(packets);
      Regroup(EPB(data, us), Blocks(packets[1..]), rest);
      ReadOneEPB(data, us, Blocks(packets[1..]) + rest, interfaces);
      BlocksRoundTrip(packets[1..], rest, interfaces);
      PrependFirst(packets, r);
    }
  }

  lemma PrependFirst(packets: seq<(Bytes, int)>, r: Option<seq<Packet>>)
    requires packets != []
    ensures Prepend([PacketOf(packets[0].0, packets[0].1)], Prepend(AsRead(packets[1..]), r)) ==
            Prepend(AsRead(packets), r)
  {
    var first := [PacketOf(packets[0].0, packets[0].1)];
    assert AsRead(packets) == first + AsRead(packets[1..]);
    if r.Some? {
      assert first + (AsRead(packets[1..]) + r.value) == first + AsRead(packets[1..]) + r.value;
    }
  }

  lemma SHBBodyIsHeader(rest: Bytes)
    ensures |SHBBody()| == 20 && IsSectionHeader(SHBBody(), rest)
  {
    SHBBytes();
    NoMoreOptions(SHBBody(), 16);
  }

  lemma SHBBytes()
    ensures SHBBody() == [0x4d, 0x3c, 0x2b, 0x1a, 1, 0, 0, 0, 255, 255, 255, 255, 255, 255, 255, 255, 0, 0, 0, 0]
  {
    assert LE32(BYTE_ORDER_MAGIC) == [0x4d, 0x3c, 0x2b, 0x1a];
    assert LE16(0) == [0, 0] && LE16(1) == [1, 0];
  }

  lemma NoMoreOptions(body: Bytes, n: nat)
    requires |body| == n + 4 && body[n] == 0 && body[n + 1] == 0 && body[n + 2] == 0 && body[n + 3] == 0
    ensures AreOptions(body[n..])
  {
  }

  lemma SHBRoundTrip(rest: Bytes)
    ensures Framed(SHB() + rest) && ReadU32(SHB() + rest, 0) == BLOCK_SHB
    ensures ReadBlocks(SHB() + rest, []) == ReadBlocks(rest, [])
  {
    SHBBodyIsHeader(rest);
    BlockRoundTrip(BLOCK_SHB, SHBBody(), rest);
  }

  lemma IDBRoundTrip(rest: Bytes)
    ensures ReadBlocks(IDB() + rest, []) == ReadBlocks(rest, [ETHERNET])
  {
    var body := LE16(LINK_ETHERNET) + LE16(0) + LE32(SNAP_LEN) + LE16(0) + LE16(0);
    BlockRoundTrip(BLOCK_IDB, body, rest);
    NoMoreOptions(body, 8);
    assert ReadIDB(body) == Some(ETHERNET);
    assert [] + [ETHERNET] == [ETHERNET];
  }

  lemma HeaderRoundTrip(rest: Bytes)
    ensures Framed(Header() + rest) && ReadU32(Header() + rest, 0) == BLOCK_SHB
    ensures ReadBlocks(Header() + rest, []) == ReadBlocks(rest, [ETHERNET])
  {
    Regroup(SHB(), IDB(), rest);
    SHBRoundTrip(IDB() + rest);
    IDBRoundTrip(rest);
  }

  // ---- When the round trip fails ------------------------------------------------------------

  predicate Short(len: nat) { 32 + len + Pad4(len) < TWO32 }

  ghost predicate AllShort(r: Option<seq<Packet>>) {
    r.Some? ==> forall i :: 0 <= i < |r.value| ==> Short(|r.value[i].data|)
  }

  /** Whatever is read came out of a block whose length fits 32 bits. */
  lemma {:induction false} ReadPacketsAreShort(b: Bytes, interfaces: seq<Interface>)
    ensures AllShort(ReadBlocks(b, interfaces))
    decreases |b|
  {
    if b != [] && Framed(b) {
      var rest, packet := b[Total(b)..], ReadEPB(Body(b), interfaces);
      ReadPacketsAreShort(rest, []);
      ReadPacketsAreShort(rest, interfaces);
      if ReadIDB(Body(b)).Some? {
        ReadPacketsAreShort(rest, interfaces + [ReadIDB(Body(b)).value]);
      }
      if packet.Some? {
        assert Short(|packet.value.data|);
      }
    }
  }

  /** The one length just past the limit: the block's length wraps to 0. */
  lemma WrappedBlockIsNotFramed(data: Bytes, us: int, rest: Bytes)
    requires 36 + |data| + Pad4(|data|) == TWO32
    ensures !Framed(EPB(data, us) + rest)
  {
    var body := EPBBody(data, us);
    LE32RoundTrip(0, LE32(BLOCK_EPB), body + LE32(0) + rest);
    assert EPB(data, us) + rest == LE32(BLOCK_EPB) + LE32(0) + (body + LE32(0) + rest);
  }

  /** The first packet that does not fit. */
  lemma FirstMisfit(packets: seq<(Bytes, int)>) returns (k: nat)
    requires !AllFit(packets)
    ensures k < |packets| && !Fits(|packets[k].0|) && AllFit(packets[..k])
  {
    k := 0;
    while Fits(|packets[k].0|)
      invariant k < |packets| && AllFit(packets[..k])
      decreases |packets| - k
    {
      assert k + 1 < |packets| by {
        assert !AllFit(packets) && packets[..k + 1] == packets[..k] + [packets[k]];
      }
      k := k + 1;
    }
  }

  lemma {:induction false} BlocksSplit(packets: seq<(Bytes, int)>, k: nat)
    requires k <= |packets|
    ensures Blocks(packets) == Blocks(packets[..k]) + Blocks(packets[k..])
    decreases |packets| - k
  {
    if k == |packets| {
      assert packets[..k] == packets;
    } else {
      BlocksSplit(packets, k + 1);
      BlocksFromFront(packets[k..]);
      assert packets[k..][1..] == packets[k + 1..];
      assert packets[..k + 1] == packets[..k] + [packets[k]];
      BlocksOneMore([], packets[..k], packets[k].0, packets[k].1);
      NoPrefix(Blocks(packets[..k + 1]), Blocks(packets[..k]));
      Regroup(Blocks(packets[..k]), EPB(packets[k].0, packets[k].1), Blocks(packets[k + 1..]));
    }
  }

  lemma NoPrefix(a: Bytes, b: Bytes)
    ensures [] + a == a && [] + b == b
  {
  }

  lemma FittingPacketsAreRead(packets: seq<(Bytes, int)>)
    requires AllFit(packets)
    ensures ReadBlocks(Blocks(packets), [ETHERNET]) == Some(AsRead(packets))
  {
    BlocksRoundTrip(packets, [], [ETHERNET]);
    assert Blocks(packets) + [] == Blocks(packets) && AsRead(packets) + [] == AsRead(packets);
  }

  /** From a packet whose length wraps to 0 onwards nothing can be read. */
  lemma WrappedPacketIsNotRead(packets: seq<(Bytes, int)>, k: nat)
    requires k < |packets| && AllFit(packets[..k]) && 36 + |packets[k].0| + Pad4(|packets[k].0|) == TWO32
    ensures ReadBlocks(Blocks(packets), [ETHERNET]) == None
  {
    BlocksSplit(packets, k);
    BlocksFromFront(packets[k..]);
    WrappedBlockIsNotFramed(packets[k].0, packets[k].1, Blocks(packets[k..][1..]));
    assert !Framed(Blocks(packets[k..]));
    BlocksRoundTrip(packets[..k], Blocks(packets[k..]), [ETHERNET]);
    assert |Blocks(packets[k..])| > 0;
  }

  lemma {:induction false} MisfitsAreNotRead(packets: seq<(Bytes, int)>)
    requires !AllFit(packets)
    ensures ReadBlocks(Blocks(packets), [ETHERNET]) != Some(AsRead(packets))
  {
    var k := FirstMisfit(packets);
    var len := |packets[k].0|;
    if 36 + len + Pad4(len) == TWO32 {
      WrappedPacketIsNotRead(packets, k);
    } else {
      ReadPacketsAreShort(Blocks(packets), [ETHERNET]);
      assert AsRead(packets)[k].data == packets[k].0;
      assert (len + Pad4(len)) % 4 == 0;
      assert !Short(len);
    }
  }

  /**
   Main result: reading the file that holds these packets finds exactly them, in order and
   with their timestamps modulo 2^64, if and only if every packet's block length fits 32 bits.
   */
  lemma RoundTrip(packets: seq<(Bytes, int)>)
    ensures Read(Header() + Blocks(packets)) == Some(AsRead(packets)) <==> AllFit(packets)
  {
    HeaderRoundTrip(Blocks(packets));
    if AllFit(packets) {
      FittingPacketsAreRead(packets);
    } else {
      MisfitsAreNotRead(packets);
    }
  }

  /** The writer and the reader together: the non-empty frames come back, none is added or moved. */
  method EncodeThenRead(frames: seq<Frame>, base: int) returns (r: Option<seq<Packet>>)
    ensures frames != [] ==>
              (r == Some(AsRead(Packets(frames, |frames|, base))) <==> AllFit(Packets(frames, |frames|, base)))
    ensures frames == [] ==> r == None
  {
    var out := EncodePCAPng(frames, base);
    RoundTrip(Packets(frames, |frames|, base));
    r := Read(out);
  }

  /** One packet of 4 GiB less 36 bytes does not come back: the length of its block wraps to 0. */
  lemma LongPacketIsLost(data: Bytes, us: int)
    requires |data| == TWO32 - 36
    ensures Read(Header() + Blocks([(data, us)])) != Some(AsRead([(data, us)]))
  {
    var packets := [(data, us)];
    RoundTrip(packets);
    assert !Fits(|packets[0].0|);
  }

  predicate StartsWith(b: Bytes, w: byte, x: byte, y: byte, z: byte) {
    |b| >= 4 && b[0] == w && b[1] == x && b[2] == y && b[3] == z
  }

  /** The signatures of a container: a section header block, or a pcap file in either byte order. */
  lemma ContainerIff(b: Bytes)
    ensures IsPCAPContainer(b) <==>
            || StartsWith(b, 0x0a, 0x0d, 0x0d, 0x0a)
            || StartsWith(b, 0xa1, 0xb2, 0xc3, 0xd4)
            || StartsWith(b, 0xd4, 0xc3, 0xb2, 0xa1)
  {
  }

  /** What the writer makes is recognised as a container, so it is never wrapped a second time. */
  lemma BatchIsContainer(frames: seq<Frame>, base: int)
    ensures IsPCAPContainer(Batch(frames, base)) <==> frames != []
  {
    if frames != [] {
      HeaderRoundTrip(Blocks(Packets(frames, |frames|, base)));
    }
  }
}
