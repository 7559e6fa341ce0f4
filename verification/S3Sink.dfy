/** Streams PCAP-NG blocks to object storage as a multipart upload. */
module S3Streaming {
  import opened Wrappers
  import opened Pcapng

  const S3_PART_SIZE := 5 * 1024 * 1024

  function Concat(stored: map<nat, Bytes>, parts: seq<nat>): Bytes
    requires forall p :: p in parts ==> p in stored
  {
    if parts == [] then []
    else
      assert forall p :: p in parts[..|parts| - 1] ==> p in stored;
      Concat(stored, parts[..|parts| - 1]) + stored[parts[|parts| - 1]]
  }

  predicate Rising(parts: seq<nat>) {
    forall i, j :: 0 <= i < j < |parts| ==> parts[i] < parts[j]
  }

  /** Every part has at least the store's minimum size. */
  predicate LargeParts(stored: map<nat, Bytes>, parts: seq<nat>) {
    forall i :: 0 <= i < |parts| ==> parts[i] in stored && |stored[parts[i]]| >= S3_PART_SIZE
  }

  /** The numbered parts and the pending bytes together are exactly `file`. */
  ghost predicate Ledger(stored: map<nat, Bytes>, parts: seq<nat>, partNum: nat, pending: Bytes, file: Bytes) {
    && (forall i :: 0 <= i < |parts| ==> parts[i] in stored && parts[i] <= partNum)
    && Rising(parts)
    && Concat(stored, parts) + pending == file
  }

  /** An accepted part moves the pending bytes into the store. */
  lemma PartAccepted(stored: map<nat, Bytes>, parts: seq<nat>, partNum: nat, pending: Bytes, file: Bytes)
    requires Ledger(stored, parts, partNum, pending, file)
    ensures Ledger(stored[partNum + 1 := pending], parts + [partNum + 1], partNum + 1, [], file)
  {
    ConcatOneMore(stored, parts, partNum + 1, pending);
    assert file + [] == file;
  }

  lemma SameSizes(stored: map<nat, Bytes>, parts: seq<nat>, num: nat, body: Bytes)
    requires num !in parts
    ensures LargeParts(stored[num := body], parts) <==> LargeParts(stored, parts)
  {
    assert forall i :: 0 <= i < |parts| ==> parts[i] in parts;
  }

  lemma OneMoreSize(stored: map<nat, Bytes>, parts: seq<nat>, num: nat, body: Bytes)
    requires num !in parts
    ensures LargeParts(stored[num := body], parts + [num]) <==> LargeParts(stored, parts) && |body| >= S3_PART_SIZE
  {
    SameSizes(stored, parts, num, body);
    var more := parts + [num];
    assert more[|parts|] == num && forall i :: 0 <= i < |parts| ==> more[i] == parts[i];
  }

  lemma NothingPending(stored: map<nat, Bytes>, parts: seq<nat>, partNum: nat, file: Bytes)
    requires Ledger(stored, parts, partNum, [], file) && file != []
    ensures parts != [] && Rising(parts) && forall p :: p in parts ==> p in stored
  {
    assert Concat(stored, []) == [];
  }

  /** With nothing pending, the parts but the last are large exactly when they were before the last upload. */
  lemma RestUploaded(before: map<nat, Bytes>, parts0: seq<nat>, pending: Bytes,
                     after: map<nat, Bytes>, parts: seq<nat>, partNum: nat, file: Bytes)
    requires Ledger(after, parts, partNum, [], file) && file != []
    requires if pending == [] then parts == parts0 && after == before else parts == parts0 + [partNum]
    requires LargeParts(after, parts0) <==> LargeParts(before, parts0)
    ensures parts != [] && Rising(parts) && forall p :: p in parts ==> p in after
    ensures LargeParts(after, parts[..|parts| - 1]) <==>
            LargeParts(before, if pending == [] && parts0 != [] then parts0[..|parts0| - 1] else parts0)
  {
    NothingPending(after, parts, partNum, file);
    assert pending != [] ==> parts[..|parts| - 1] == parts0;
  }

  lemma SmallEnd(stored: map<nat, Bytes>, parts: seq<nat>)
    requires parts != [] && parts[|parts| - 1] in stored
    ensures |stored[parts[|parts| - 1]]| < S3_PART_SIZE ==> !LargeParts(stored, parts)
  {
  }

  /** A part that the store has taken without the client hearing of it changes nothing for the client. */
  lemma PartUnheard(stored: map<nat, Bytes>, parts: seq<nat>, partNum: nat, pending: Bytes, file: Bytes)
    requires Ledger(stored, parts, partNum, pending, file)
    ensures Ledger(stored[partNum + 1 := pending], parts, partNum + 1, pending, file)
    ensures Ledger(stored, parts, partNum + 1, pending, file)
    ensures LargeParts(stored[partNum + 1 := pending], parts) <==> LargeParts(stored, parts)
  {
    ConcatAgrees(stored, stored[partNum + 1 := pending], parts);
    SameSizes(stored, parts, partNum + 1, pending);
  }

  /** Whatever has become of an upload. */
  lemma PartTried(stored: map<nat, Bytes>, after: map<nat, Bytes>, parts: seq<nat>, partNum: nat, pending: Bytes,
                  file: Bytes)
    requires Ledger(stored, parts, partNum, pending, file)
    requires after == stored || after == stored[partNum + 1 := pending]
    ensures Ledger(after, parts, partNum + 1, pending, file)
    ensures LargeParts(after, parts) <==> LargeParts(stored, parts)
    ensures after == stored[partNum + 1 := pending] ==>
              && Ledger(after, parts + [partNum + 1], partNum + 1, [], file)
              && (LargeParts(after, parts + [partNum + 1]) <==> LargeParts(stored, parts) && |pending| >= S3_PART_SIZE)
  {
    PartUnheard(stored, parts, partNum, pending, file);
    PartAccepted(stored, parts, partNum, pending, file);
    OneMoreSize(stored, parts, partNum + 1, pending);
  }

  /** Appending to the pending bytes appends to the file. */
  lemma PendingGrows(stored: map<nat, Bytes>, parts: seq<nat>, partNum: nat, pending: Bytes, file: Bytes, more: Bytes)
    requires Ledger(stored, parts, partNum, pending, file)
    ensures Ledger(stored, parts, partNum, pending + more, file + more)
  {
    Regroup(Concat(stored, parts), pending, more);
  }

  /** What becomes of a request: it never arrives, or it takes effect unheard of, or the client gets the answer. */
  datatype Call = Lost | Unheard | Heard {
    predicate Arrives() { this != Lost }
  }

  /**
   The store's side of a multipart upload. What becomes of a call is up to the network; the
   store itself refuses everything once the upload is aborted or assembled, and will not
   assemble parts that are out of order or, but for the last, below the minimum size.
   */
  class MultipartUpload {
    var stored: map<nat, Bytes>
    var aborted: bool
    var assembled: Option<Bytes>

    constructor ()
      ensures stored == map[] && Open()
    {
      stored, aborted, assembled := map[], false, None;
    }

    predicate Open()
      reads this
    {
      !aborted && assembled == None
    }

    predicate Acceptable(parts: seq<nat>)
      reads this
    {
      && Open() && parts != [] && Rising(parts)
      && (forall p :: p in parts ==> p in stored)
      && LargeParts(stored, parts[..|parts| - 1])
    }

    method UploadPart(num: nat, body: Bytes, call: Call) returns (ok: bool)
      modifies this`stored
      ensures ok == (call.Heard? && Open())
      ensures stored == if call.Arrives() && Open() then old(stored)[num := body] else old(stored)
    {
      if call.Arrives() && Open() {
        stored := stored[num := body];
      }
      ok := call.Heard? && Open();
    }

    method Complete(parts: seq<nat>, call: Call) returns (ok: bool)
      modifies this`assembled
      ensures ok == (call.Heard? && old(Acceptable(parts)))
      ensures assembled ==
              if call.Arrives() && old(Acceptable(parts)) then Some(Concat(stored, parts)) else old(assembled)
    {
      ok := call.Heard? && Acceptable(parts);
      if call.Arrives() && Acceptable(parts) {
        assembled := Some(Concat(stored, parts));
      }
    }

    method Abort(call: Call)
      modifies this`aborted
      ensures aborted == (old(aborted) || (call.Arrives() && assembled == None))
    {
      aborted := aborted || (call.Arrives() && assembled == None);
    }
  }

  lemma ConcatOneMore(stored: map<nat, Bytes>, parts: seq<nat>, num: nat, body: Bytes)
    requires (forall p :: p in parts ==> p in stored) && num !in parts
    ensures (forall p :: p in parts + [num] ==> p in stored[num := body])
    ensures Concat(stored[num := body], parts + [num]) == Concat(stored, parts) + body
  {
    ConcatAgrees(stored, stored[num := body], parts);
    assert (parts + [num])[..|parts|] == parts;
  }

  lemma {:induction false} ConcatAgrees(a: map<nat, Bytes>, b: map<nat, Bytes>, parts: seq<nat>)
    requires forall p :: p in parts ==> p in a && p in b && a[p] == b[p]
    ensures Concat(a, parts) == Concat(b, parts)
  {
    if parts != [] {
      ConcatAgrees(a, b, parts[..|parts| - 1]);
    }
  }

  function PayloadSize(packets: seq<(Bytes, int)>): nat {
    if packets == [] then 0 else PayloadSize(packets[..|packets| - 1]) + |packets[|packets| - 1].0|
  }

  datatype S3ExportInfo = S3ExportInfo(bytes: nat, uploadDone: bool)

  /** The file and the byte count of the accepted frames. */
  ghost predicate Records(file: Bytes, bytes: nat, headerOK: bool, written: seq<(Bytes, int)>) {
    && file == (if headerOK then Header() + Blocks(written) else [])
    && bytes == (if headerOK then 56 else 0) + PayloadSize(written)
    && (!headerOK ==> written == [])
  }

  lemma RecordsOneMore(file: Bytes, bytes: nat, written: seq<(Bytes, int)>, data: Bytes, ts: int)
    requires Records(file, bytes, true, written)
    ensures Records(file + EPB(data, ts), bytes + |data|, true, written + [(data, ts)])
  {
    BlocksOneMore(Header(), written, data, ts);
    assert (written + [(data, ts)])[..|written|] == written;
  }

  class S3Sink {
    const upload: MultipartUpload
    var parts: seq<nat>
    var partBuf: Bytes
    var partNum: nat
    var bytes: nat
    var headerOK: bool
    var closed: bool
    /** The frames accepted so far, the file they make, and whether closing has been tried. */
    ghost var written: seq<(Bytes, int)>
    ghost var file: Bytes
    ghost var closing: bool

    /**
     Uploaded parts and pending buffer together are exactly the file. Until closing is tried,
     the upload is open and every part has the store's minimum size.
     */
    ghost predicate Streaming()
      reads this, upload
    {
      && Ledger(upload.stored, parts, partNum, partBuf, file)
      && (!closing ==> upload.Open() && LargeParts(upload.stored, parts))
      && (closed ==> closing && upload.assembled == Some(file))
    }

    ghost predicate Valid()
      reads this, upload
    {
      && Streaming()
      && Records(file, bytes, headerOK, written)
      && (!headerOK ==> !closing)
    }

    /** Closing needs no more than the network: the upload is open, and no part but what will be the last is small. */
    ghost predicate Closable()
      reads this, upload
    {
      && upload.Open()
      && LargeParts(upload.stored, if partBuf == [] && parts != [] then parts[..|parts| - 1] else parts)
    }

    /**
     What an upload of `pending` as the next part leaves, if it is `due`: the part is with the
     store when the call arrives there, and off the buffer when the answer gets back.
     */
    twostate predicate Flushes(due: bool, pending: Bytes, call: Call, ok: bool)
      reads this, upload
    {
      && ok == (due ==> call.Heard? && old(upload.Open()))
      && partNum == old(partNum) + (if due then 1 else 0)
      && upload.stored == (if due && call.Arrives() && old(upload.Open()) then old(upload.stored)[partNum := pending]
                           else old(upload.stored))
      && (if due && ok then partBuf == [] && parts == old(parts) + [partNum]
          else partBuf == pending && parts == old(parts))
    }

    /**
     What an attempt to close leaves at the store: the last part like any other; the object,
     when the parts are complete and acceptable and the call for it arrives; and an abort
     exactly when the last part failed and that call arrives.
     */
    twostate predicate Ends(last: Call, complete: Call, abort: Call)
      reads this, upload
    {
      var flushed := old(partBuf) == [] || (last.Heard? && old(upload.Open()));
      && Flushes(old(partBuf) != [], old(partBuf), last, flushed)
      && upload.assembled == (if flushed && complete.Arrives() && old(Closable()) then Some(file)
                              else old(upload.assembled))
      && upload.aborted == (old(upload.aborted) ||
                            (!flushed && abort.Arrives() && old(upload.assembled) == None))
    }

    constructor (upload: MultipartUpload)
      requires upload.stored == map[] && upload.Open()
      modifies upload`stored
      ensures this.upload == upload && Valid() && headerOK && !closed && !closing && written == []
      ensures upload.stored == map[] && parts == [] && partBuf == Header()
    {
      this.upload := upload;
      parts, partBuf, partNum, bytes, headerOK, closed := [], [], 0, 0, false, false;
      written, file, closing := [], [], false;
      new;
      var _ := WriteHeader(Heard);
    }

    /** 56 bytes: never enough for a part, so the network is not involved. */
    method WriteHeader(call: Call) returns (ok: bool)
      requires Valid() && !headerOK && partBuf == [] && parts == []
      modifies this`partBuf, this`bytes, this`headerOK, this`partNum, this`parts, this`file, upload`stored
      ensures Valid() && headerOK && ok && upload.stored == old(upload.stored)
      ensures parts == [] && partBuf == Header()
    {
      partBuf := partBuf + Header();
      bytes := bytes + |Header()|;
      headerOK := true;
      file := Header();
      assert Blocks([]) == [] && Concat(upload.stored, []) == [];
      ok := FlushPart(false, call);
    }

    /**
     Uploads the buffer as the next part if it is large enough or the caller insists. An
     upload that fails, or seems to, keeps the buffer and uses up the number.
     */
    method FlushPart(force: bool, call: Call) returns (ok: bool)
      requires Streaming() && (force ==> closing) && !closed
      modifies this`partNum, this`parts, this`partBuf, upload`stored
      ensures Streaming()
      ensures Flushes(|old(partBuf)| >= S3_PART_SIZE || (force && old(partBuf) != []), old(partBuf), call, ok)
      ensures LargeParts(upload.stored, old(parts)) <==> old(LargeParts(upload.stored, parts))
    {
      if |partBuf| < S3_PART_SIZE && !force { return true; }
      if |partBuf| == 0 { return true; }
      ok := UploadPending(call);
    }

    method UploadPending(call: Call) returns (ok: bool)
      requires Streaming() && (closing || |partBuf| >= S3_PART_SIZE) && !closed
      modifies this`partNum, this`parts, this`partBuf, upload`stored
      ensures Streaming() && Flushes(true, old(partBuf), call, ok)
      ensures LargeParts(upload.stored, old(parts)) <==> old(LargeParts(upload.stored, parts))
    {
      ghost var stored := upload.stored;
      partNum := partNum + 1;
      ok := upload.UploadPart(partNum, partBuf, call);
      PartTried(stored, upload.stored, parts, partNum - 1, partBuf, file);
      if ok {
        parts := parts + [partNum];
        partBuf := [];
      }
    }

    /** Appends a block to the buffer and uploads it when it is large enough. */
    method WriteBlock(block: Bytes, call: Call) returns (ok: bool)
      requires Streaming() && !closed && block != []
      modifies this`partBuf, this`partNum, this`parts, this`file, upload`stored
      ensures Streaming() && file == old(file) + block
      ensures Closable() <==> upload.Open() && old(LargeParts(upload.stored, parts))
      ensures Flushes(|old(partBuf)| + |block| >= S3_PART_SIZE, old(partBuf) + block, call, ok)
    {
      PendingGrows(upload.stored, parts, partNum, partBuf, file, block);
      partBuf := partBuf + block;
      file := file + block;
      ok := FlushPart(false, call);
      assert partBuf == [] ==> parts[..|parts| - 1] == old(parts);
    }

    /**
     A frame offered to an open sink becomes part of the file, even when the upload it
     triggers fails and the call reports an error. From then on no part accepted so far can
     be the last one. `now` stands for the current time.
     */
    method WriteFrame(data: Bytes, at: Option<int>, now: int, call: Call) returns (ok: bool)
      requires Valid() && headerOK
      modifies this`partBuf, this`bytes, this`partNum, this`parts, this`written, this`file, upload`stored
      ensures Valid() && headerOK
      ensures var taken := data != [] && !closed;
        var ts := if at.Some? then at.value else now;
        && written == (if taken then old(written) + [(data, ts)] else old(written))
        && (!taken ==> ok == (data == []) && (Closable() <==> old(Closable())))
        && (taken ==> (Closable() <==> upload.Open() && old(LargeParts(upload.stored, parts))))
        && (!taken ==> Flushes(false, old(partBuf), call, true) && bytes == old(bytes))
        && var pending := old(partBuf) + EPB(data, ts);
           taken ==> Flushes(|pending| >= S3_PART_SIZE, pending, call, ok)
    {
      if |data| == 0 { return true; }
      if closed { return false; }
      var ts := if at.Some? then at.value else now;
      ok := WritePacket(data, ts, EPB(data, ts), call);
    }

    /** Appends the block of a packet. */
    method WritePacket(data: Bytes, ts: int, block: Bytes, call: Call) returns (ok: bool)
      requires Valid() && headerOK && !closed && block == EPB(data, ts)
      modifies this`partBuf, this`bytes, this`partNum, this`parts, this`written, this`file, upload`stored
      ensures Valid() && written == old(written) + [(data, ts)]
      ensures Closable() <==> upload.Open() && old(LargeParts(upload.stored, parts))
      ensures Flushes(|old(partBuf)| + |block| >= S3_PART_SIZE, old(partBuf) + block, call, ok)
    {
      RecordsOneMore(file, bytes, written, data, ts);
      ok := WriteBlock(block, call);
      bytes := bytes + |data|;
      written := written + [(data, ts)];
    }

    /** Offers the next frame of a stream. */
    method WriteNext(frames: seq<Frame>, i: nat, base: int, call: Call)
      requires Valid() && headerOK && !closed && i < |frames| && written == Packets(frames, i, base)
      modifies this`partBuf, this`bytes, this`partNum, this`parts, this`written, this`file, upload`stored
      ensures Valid() && written == Packets(frames, i + 1, base)
    {
      ghost var before := written;
      var _ := WriteFrame(frames[i].data, frames[i].at, base + i, call);
      PacketsOneMore(frames, i, base, before);
    }

    /** Offers the first `n` frames one after the other; anything may become of the uploads this triggers. */
    method WriteAll(frames: seq<Frame>, n: nat, base: int, calls: seq<Call>)
      requires Valid() && headerOK && !closed && written == [] && |calls| == |frames| && n <= |frames|
      modifies this`partBuf, this`bytes, this`partNum, this`parts, this`written, this`file, upload`stored
      ensures Valid() && written == Packets(frames, n, base)
      decreases n
    {
      if n > 0 {
        WriteAll(frames, n - 1, base, calls);
        WriteNext(frames, n - 1, base, calls[n - 1]);
      }
    }

    /** The assembly of the object from the parts. */
    method Assemble(call: Call) returns (ok: bool)
      requires Streaming() && !closed && closing && partBuf == []
      modifies this`closed, upload`assembled
      ensures Streaming() && ok == closed && (ok <==> call.Heard? && old(upload.Acceptable(parts)))
      ensures upload.assembled ==
              if call.Arrives() && old(upload.Acceptable(parts)) then Some(file) else old(upload.assembled)
    {
      assert Concat(upload.stored, parts) == file by {
        assert Concat(upload.stored, parts) + [] == Concat(upload.stored, parts);
      }
      ok := upload.Complete(parts, call);
      if ok {
        closed := true;
      }
    }

    /** The last upload, of whatever is pending. */
    method UploadRest(last: Call) returns (ok: bool)
      requires Streaming() && !closed
      modifies this`partNum, this`parts, this`partBuf, this`closing, upload`stored
      ensures Streaming() && closing
      ensures Flushes(old(partBuf) != [], old(partBuf), last, ok)
      ensures LargeParts(upload.stored, old(parts)) <==> old(LargeParts(upload.stored, parts))
    {
      closing := true;
      ok := FlushPart(true, last);
    }

    /** With the rest uploaded, the store would accept the parts exactly when the sink was closable. */
    twostate lemma RestIsAcceptable()
      requires old(Streaming()) && Streaming() && file != [] && partBuf == [] && upload.Open() == old(upload.Open())
      requires if old(partBuf) == [] then parts == old(parts) && upload.stored == old(upload.stored)
               else parts == old(parts) + [partNum]
      requires LargeParts(upload.stored, old(parts)) <==> old(LargeParts(upload.stored, parts))
      ensures upload.Acceptable(parts) <==> old(Closable())
    {
      RestUploaded(old(upload.stored), old(parts), old(partBuf), upload.stored, parts, partNum, file);
    }

    /** The last upload and the assembly of the object. */
    method Finish(last: Call, complete: Call, abort: Call) returns (ok: bool)
      requires Streaming() && !closed && file != []
      modifies this`partNum, this`parts, this`partBuf, this`closed, this`closing, upload
      ensures Streaming() && ok == closed
      ensures ok <==> old(Closable()) && (old(partBuf) != [] ==> last.Heard?) && complete.Heard?
      ensures !old(Closable()) ==> !Closable()
      ensures Ends(last, complete, abort)
    {
      ok := UploadRest(last);
      if !ok {
        upload.Abort(abort);
        return;
      }
      RestIsAcceptable();
      assert upload.Acceptable(parts) <==> old(Closable());
      ok := Assemble(complete);
    }

    /**
     Uploads the rest and has the store assemble the object. When it succeeds, the object is
     the file, byte for byte, whatever failed on the way. It succeeds exactly when the sink is
     closable and the answers get through; the first attempt always finds it closable.
     */
    method Close(last: Call, complete: Call, abort: Call) returns (info: Option<S3ExportInfo>)
      requires Valid() && headerOK
      modifies this`partNum, this`parts, this`partBuf, this`closed, this`closing, upload
      ensures Valid() && info.Some? == closed
      ensures info.Some? ==> upload.assembled == Some(Header() + Blocks(written)) && info.value.bytes == bytes
      ensures !old(closing) ==> old(Closable())
      ensures info.Some? <==>
              old(closed) || (old(Closable()) && (old(partBuf) != [] ==> last.Heard?) && complete.Heard?)
      ensures !old(Closable()) ==> !Closable()
      ensures if old(closed) then upload.assembled == old(upload.assembled) else Ends(last, complete, abort)
    {
      if closed {
        return Some(S3ExportInfo(bytes, true));
      }
      assert |Header()| == 56;
      var ok := Finish(last, complete, abort);
      if !ok { return None; }
      return Some(S3ExportInfo(bytes, true));
    }
  }

  lemma PacketsOneMore(frames: seq<Frame>, i: nat, base: int, written: seq<(Bytes, int)>)
    requires i < |frames| && written == Packets(frames, i, base)
    ensures Packets(frames, i + 1, base) ==
            var f := frames[i];
            if f.data != [] then written + [(f.data, if f.at.Some? then f.at.value else base + i)] else written
  {
  }

  /** Offers every frame to a new sink. */
  method StreamAll(frames: seq<Frame>, base: int, calls: seq<Call>) returns (sink: S3Sink)
    requires |calls| == |frames|
    ensures fresh(sink) && fresh(sink.upload) && sink.Valid() && sink.headerOK && !sink.closed && !sink.closing
    ensures sink.written == Packets(frames, |frames|, base)
  {
    var upload := new MultipartUpload();
    sink := new S3Sink(upload);
    sink.WriteAll(frames, |frames|, base, calls);
  }

  /**
   Main result, for any frames and whatever becomes of the calls: if closing succeeds, there is
   an object; and if there is one, even unheard of, it is what the batch writer makes of the
   same frames at the same times, and just the header if there are no frames. It reads back as
   them when they fit.
   */
  method StreamThenClose(frames: seq<Frame>, base: int, calls: seq<Call>, last: Call, complete: Call, abort: Call)
    returns (ok: bool, object': Option<Bytes>)
    requires |calls| == |frames|
    ensures last.Heard? && complete.Heard? ==> ok
    ensures ok ==> object'.Some?
    ensures object'.Some? ==> object'.value == if frames == [] then Header() else Batch(frames, base)
    ensures object'.Some? ==> (Read(object'.value) == Some(AsRead(Packets(frames, |frames|, base))) <==>
                               AllFit(Packets(frames, |frames|, base)))
  {
    var sink := StreamAll(frames, base, calls);
    var info := sink.Close(last, complete, abort);
    ok, object' := info.Some?, sink.upload.assembled;
    RoundTrip(Packets(frames, |frames|, base));
    HeaderAlone();
  }

  // ---- After a failed attempt to close -----------------------------------------------------------

  /** What may be done with a sink. */
  datatype Step =
    | Write(data: Bytes, at: Option<int>, now: int, call: Call)
    | TryClose(last: Call, complete: Call, abort: Call)

  method Take(sink: S3Sink, step: Step)
    requires sink.Valid() && sink.headerOK && !sink.closed && !sink.Closable()
    modifies sink, sink.upload
    ensures sink.Valid() && sink.headerOK && !sink.closed && !sink.Closable()
  {
    if step.Write? {
      var _ := sink.WriteFrame(step.data, step.at, step.now, step.call);
    } else {
      CloseInVainAgain(sink, step.last, step.complete, step.abort);
    }
  }

  method CloseInVainAgain(sink: S3Sink, last: Call, complete: Call, abort: Call)
    requires sink.Valid() && sink.headerOK && !sink.closed && !sink.Closable()
    modifies sink, sink.upload
    ensures sink.Valid() && sink.headerOK && !sink.closed && !sink.Closable()
  {
    var info := sink.Close(last, complete, abort);
    assert info.None?;
  }

  /** A sink that is not closable can never be closed again, whatever is done and however the network behaves. */
  method NeverClosed(sink: S3Sink, steps: seq<Step>)
    requires sink.Valid() && sink.headerOK && !sink.closed && !sink.Closable()
    modifies sink, sink.upload
    ensures sink.Valid() && sink.headerOK && !sink.closed && !sink.Closable()
  {
    for i := 0 to |steps|
      invariant sink.Valid() && sink.headerOK && !sink.closed && !sink.Closable()
    {
      Take(sink, steps[i]);
    }
  }

  /** One small frame, and an attempt to close that uploads it and then fails. */
  method CloseInVain(small: Bytes, now: int) returns (sink: S3Sink)
    requires 0 < |small| < 1000
    ensures fresh(sink) && fresh(sink.upload) && sink.Valid() && sink.headerOK && !sink.closed
    ensures !LargeParts(sink.upload.stored, sink.parts)
  {
    var upload := new MultipartUpload();
    sink := new S3Sink(upload);
    var _ := sink.WriteFrame(small, None, now, Heard);
    var first := sink.Close(Heard, Lost, Lost);
    assert first.None?;
    SmallEnd(sink.upload.stored, sink.parts);
  }

  /** After that, one more frame, and no attempt ever succeeds again, although the store refused nothing before. */
  method FrameAfterFailedClose(small: Bytes, more: Bytes, now: int, call: Call, steps: seq<Step>)
    returns (info: Option<S3ExportInfo>)
    requires 0 < |small| < 1000 && more != []
    ensures info == None
  {
    var sink := CloseInVain(small, now);
    var _ := sink.WriteFrame(more, None, now, call);
    NeverClosed(sink, steps);
    info := sink.Close(Heard, Heard, Lost);
  }

  lemma HeaderAlone()
    ensures Header() + Blocks([]) == Header()
  {
    assert Blocks([]) == [];
  }
}
