// The per-connection state machine: buffered bytes in each direction, the
// framing of requests out of the inbound buffer, and the want_read /
// want_write / want_close intents the event loop polls on. The read and write
// system calls are not modelled; their outcomes arrive as parameters.
module Connection {
  import opened Bytes
  import opened Wire
  import opened KeyValue

  /** What the front of the inbound buffer holds. */
  datatype Frame =
    | NeedMore                                   // header or body incomplete
    | TooLong                                    // header announces more than MAX_MSG
    | BadRequest                                 // complete body that parse_req rejects
    | Request(args: seq<seq<byte>>, size: nat)   // a request spanning `size` bytes

  /** The framing decision of try_one_request for the bytes in `incoming`. */
  function NextFrame(incoming: seq<byte>): (f: Frame)
    ensures f.Request? ==> 4 <= f.size <= |incoming|
  {
    if |incoming| < 4 then NeedMore
    else
      var len := ReadU32Le(incoming[..4]);
      if len > MAX_MSG then TooLong
      else if 4 + len > |incoming| then NeedMore
      else match Parse(incoming[4..4 + len])
        case None => BadRequest
        case Some(args) => Request(args, 4 + len)
  }

  /** A request a client can send: encodable, within the argument and size limits. */
  predicate Sendable(args: seq<seq<byte>>) {
    Encodable(args) && |args| <= MAX_ARGS && |EncodeReq(args)| <= MAX_MSG
  }

  /** A whole request frame as the client writes it: the body length, then the body. */
  function EncodeFrame(args: seq<seq<byte>>): seq<byte>
    requires Sendable(args)
  {
    U32Le(|EncodeReq(args)|) + EncodeReq(args)
  }

  /** Client frame round trip: whatever follows a frame, try_one_request finds
      exactly that request, spanning exactly that frame. */
  lemma FrameRoundTrip(args: seq<seq<byte>>, rest: seq<byte>)
    requires Sendable(args)
    ensures NextFrame(EncodeFrame(args) + rest) == Request(args, |EncodeFrame(args)|)
  {
    var body := EncodeReq(args);
    var bytes := EncodeFrame(args) + rest;
    ReadWriteU32(|body|);
    assert bytes[..4] == U32Le(|body|);
    assert bytes[4..4 + |body|] == body;
    ParseEncode(args);
  }

  /** A request found at the front of the buffer is a frame a client could have sent. */
  lemma FrameSound(incoming: seq<byte>)
    requires NextFrame(incoming).Request?
    ensures var f := NextFrame(incoming);
      Sendable(f.args) && incoming[..f.size] == EncodeFrame(f.args)
  {
    var f := NextFrame(incoming);
    var len := ReadU32Le(incoming[..4]);
    ParseSound(incoming[4..4 + len]);
    WriteReadU32(incoming[..4]);
    assert incoming[..f.size] == incoming[..4] + incoming[4..4 + len];
  }

  /** Every string of a framed request is shorter than the frame limit. */
  lemma FrameArgsWithin(incoming: seq<byte>)
    requires NextFrame(incoming).Request?
    ensures var args := NextFrame(incoming).args;
      forall i | 0 <= i < |args| :: |args[i]| <= MAX_MSG
  {
    var len := ReadU32Le(incoming[..4]);
    ParseArgsWithin(incoming[4..4 + len]);
  }

  /** Values stay within the frame limit, so the 32-bit length header of every
      response is exactly four plus its payload length and never wraps. */
  lemma ResponseHeaderExact(incoming: seq<byte>, store: Store)
    requires NextFrame(incoming).Request? && ValuesWithin(store, MAX_MSG)
    ensures var o := Execute(store, NextFrame(incoming).args);
      ValuesWithin(o.store, MAX_MSG) && ResponseLength(o.resp) == 4 + |o.resp.data|
  {
    FrameArgsWithin(incoming);
    ExecuteWithin(store, NextFrame(incoming).args, MAX_MSG);
  }

  /** The result of draining the inbound buffer. */
  datatype Drained = Drained(incoming: seq<byte>, outgoing: seq<byte>, store: Store, close: bool)

  /** The drain loop of handle_read as a function: answer every complete request
      at the front of `incoming` in order, and stop at the first frame that is
      incomplete (keep reading) or bad (close). */
  function Drain(incoming: seq<byte>, outgoing: seq<byte>, store: Store): (r: Drained)
    ensures !NextFrame(r.incoming).Request?
    ensures r.close <==> !NextFrame(r.incoming).NeedMore?
    decreases |incoming|
  {
    match NextFrame(incoming)
    case NeedMore => Drained(incoming, outgoing, store, false)
    case TooLong => Drained(incoming, outgoing, store, true)
    case BadRequest => Drained(incoming, outgoing, store, true)
    case Request(args, size) =>
      var o := Execute(store, args);
      Drain(incoming[size..], outgoing + EncodeResponse(o.resp), o.store)
  }

  /** Draining only consumes from the front of the inbound bytes. */
  lemma {:induction false} DrainKeepsSuffix(incoming: seq<byte>, outgoing: seq<byte>, store: Store)
    ensures var r := Drain(incoming, outgoing, store);
      |r.incoming| <= |incoming| && incoming[|incoming| - |r.incoming|..] == r.incoming
    decreases |incoming|
  {
    var f := NextFrame(incoming);
    if f.Request? {
      var o := Execute(store, f.args);
      var rest := incoming[f.size..];
      var out' := outgoing + EncodeResponse(o.resp);
      DrainKeepsSuffix(rest, out', o.store);
      var m := |Drain(rest, out', o.store).incoming|;
      assert rest[|rest| - m..] == incoming[|incoming| - m..];
    }
  }

  /** Draining only appends to the outbound bytes. */
  lemma {:induction false} DrainKeepsPrefix(incoming: seq<byte>, outgoing: seq<byte>, store: Store)
    ensures var r := Drain(incoming, outgoing, store);
      |outgoing| <= |r.outgoing| && r.outgoing[..|outgoing|] == outgoing
    decreases |incoming|
  {
    var f := NextFrame(incoming);
    if f.Request? {
      var o := Execute(store, f.args);
      var out' := outgoing + EncodeResponse(o.resp);
      DrainKeepsPrefix(incoming[f.size..], out', o.store);
      assert out'[..|outgoing|] == outgoing;
    }
  }

  /** Frames one after the other, as a pipelining client sends them. */
  function EncodeFrames(reqs: seq<seq<seq<byte>>>): seq<byte>
    requires forall i | 0 <= i < |reqs| :: Sendable(reqs[i])
  {
    if reqs == [] then [] else EncodeFrame(reqs[0]) + EncodeFrames(reqs[1..])
  }

  /** Responses one after the other. */
  function EncodeResponses(resps: seq<Response>): seq<byte> {
    if resps == [] then [] else EncodeResponse(resps[0]) + EncodeResponses(resps[1..])
  }

  /** Pipelined requests are answered in arrival order: draining several whole
      frames followed by an incomplete tail runs the requests in order against the
      store, appends their responses in the same order and keeps only the tail. */
  lemma {:induction false} DrainInOrder(reqs: seq<seq<seq<byte>>>, tail: seq<byte>, outgoing: seq<byte>, store: Store)
    requires forall i | 0 <= i < |reqs| :: Sendable(reqs[i])
    requires NextFrame(tail).NeedMore?
    ensures var run := Run(store, reqs);
      Drain(EncodeFrames(reqs) + tail, outgoing, store) ==
        Drained(tail, outgoing + EncodeResponses(run.1), run.0, false)
    decreases |reqs|
  {
    var run := Run(store, reqs);
    if reqs == [] {
      assert EncodeFrames(reqs) + tail == tail;
      assert outgoing + [] == outgoing;
    } else {
      var args := reqs[0];
      var frames := EncodeFrames(reqs[1..]);
      var rest := frames + tail;
      assert EncodeFrames(reqs) == EncodeFrame(args) + frames;
      assert EncodeFrames(reqs) + tail == EncodeFrame(args) + rest;
      var o := Execute(store, args);
      DrainStep(args, rest, outgoing, store);
      var out' := outgoing + EncodeResponse(o.resp);
      DrainInOrder(reqs[1..], tail, out', o.store);
      var run' := Run(o.store, reqs[1..]);
      assert run.1 == [o.resp] + run'.1;
      assert EncodeResponses(run.1) == EncodeResponse(o.resp) + EncodeResponses(run'.1) by {
        assert run.1[0] == o.resp && run.1[1..] == run'.1;
      }
      assert out' + EncodeResponses(run'.1) == outgoing + EncodeResponses(run.1);
    }
  }

  /** Draining past one whole frame answers it and continues with what follows. */
  lemma DrainStep(args: seq<seq<byte>>, rest: seq<byte>, outgoing: seq<byte>, store: Store)
    requires Sendable(args)
    ensures var o := Execute(store, args);
      Drain(EncodeFrame(args) + rest, outgoing, store) == Drain(rest, outgoing + EncodeResponse(o.resp), o.store)
  {
    FrameRoundTrip(args, rest);
    assert (EncodeFrame(args) + rest)[|EncodeFrame(args)|..] == rest;
  }

  /** The outcome of the non-blocking read: `Read(bytes)` with the `rv` bytes
      received (none means end of stream), EAGAIN, or any other failure. */
  datatype ReadResult = Read(bytes: seq<byte>) | ReadWouldBlock | ReadFailed

  /** The outcome of the non-blocking write: `rv` bytes accepted, EAGAIN, or any
      other failure. */
  datatype WriteResult = Wrote(count: nat) | WriteWouldBlock | WriteFailed

  /** Size of the stack buffer handle_read reads into. */
  const READ_CHUNK: nat := 4096

  /** One client connection. */
  class Conn {
    var wantRead: bool
    var wantWrite: bool
    var wantClose: bool
    var incoming: seq<byte>
    var outgoing: seq<byte>

    /** The connection is either waiting to read with nothing to send, or
        waiting to write what it has to send. */
    ghost predicate Polling()
      reads this
    {
      wantRead != wantWrite && (wantWrite <==> outgoing != [])
    }

    /** A freshly accepted connection: empty buffers, waiting to read. */
    constructor Accepted()
      ensures wantRead && !wantWrite && !wantClose
      ensures incoming == [] && outgoing == []
      ensures Polling()
    {
      wantRead, wantWrite, wantClose := true, false, false;
      incoming, outgoing := [], [];
    }

    /** try_one_request: answer the request at the front of `incoming`, if a
        whole one is there. */
    method TryOneRequest(store: KvStore) returns (progress: bool)
      modifies this, store
      ensures wantRead == old(wantRead) && wantWrite == old(wantWrite)
      ensures progress <==> NextFrame(old(incoming)).Request?
      ensures match NextFrame(old(incoming))
        case NeedMore =>
          incoming == old(incoming) && outgoing == old(outgoing) &&
          wantClose == old(wantClose) && store.data == old(store.data)
        case TooLong =>
          incoming == old(incoming) && outgoing == old(outgoing) &&
          wantClose && store.data == old(store.data)
        case BadRequest =>
          incoming == old(incoming) && outgoing == old(outgoing) &&
          wantClose && store.data == old(store.data)
        case Request(args, size) =>
          var o := Execute(old(store.data), args);
          incoming == old(incoming)[size..] &&
          outgoing == old(outgoing) + EncodeResponse(o.resp) &&
          wantClose == old(wantClose) && store.data == o.store
    {
      if |incoming| < 4 {
        return false;
      }
      var len := ReadU32Le(incoming[..4]);
      if len > MAX_MSG {
        wantClose := true;
        return false;
      }
      if 4 + len > |incoming| {
        return false;
      }
      var request := incoming[4..4 + len];
      var rc, cmd := ParseReq(request);
      if rc < 0 {
        wantClose := true;
        return false;
      }
      var resp := store.DoRequest(cmd);
      outgoing := MakeResponse(resp, outgoing);
      incoming := BufConsume(incoming, 4 + len);
      return true;
    }

    /** handle_read: take the read outcome, drain whole requests, and switch to
        writing when there is something to send. */
    method HandleRead(store: KvStore, r: ReadResult)
      requires r.Read? ==> |r.bytes| <= READ_CHUNK
      modifies this, store
      ensures old(Polling()) ==> Polling()
      ensures r.ReadWouldBlock? ==>
        incoming == old(incoming) && outgoing == old(outgoing) && store.data == old(store.data) &&
        wantRead == old(wantRead) && wantWrite == old(wantWrite) && wantClose == old(wantClose)
      ensures (r.ReadFailed? || r == Read([])) ==>
        incoming == old(incoming) && outgoing == old(outgoing) && store.data == old(store.data) &&
        wantRead == old(wantRead) && wantWrite == old(wantWrite) && wantClose
      ensures r.Read? && r.bytes != [] ==>
        var d := Drain(old(incoming) + r.bytes, old(outgoing), old(store.data));
        incoming == d.incoming && outgoing == d.outgoing && store.data == d.store &&
        wantClose == (old(wantClose) || d.close) &&
        if outgoing != [] then !wantRead && wantWrite
        else wantRead == old(wantRead) && wantWrite == old(wantWrite)
    {
      if r.ReadWouldBlock? {
        return;
      }
      if r.ReadFailed? {
        wantClose := true;
        return;
      }
      if r.bytes == [] {
        wantClose := true;
        return;
      }
      incoming := BufAppend(incoming, r.bytes);
      assert incoming == old(incoming) + r.bytes;
      ghost var target := Drain(old(incoming) + r.bytes, old(outgoing), old(store.data));
      var more := true;
      while more
        invariant wantRead == old(wantRead) && wantWrite == old(wantWrite)
        invariant more ==> Drain(incoming, outgoing, store.data) == target && wantClose == old(wantClose)
        invariant !more ==> (incoming == target.incoming && outgoing == target.outgoing &&
                             store.data == target.store && wantClose == (old(wantClose) || target.close))
        decreases |incoming| + (if more then 1 else 0)
      {
        more := TryOneRequest(store);
      }
      DrainKeepsPrefix(old(incoming) + r.bytes, old(outgoing), old(store.data));
      if |outgoing| > 0 {
        wantRead := false;
        wantWrite := true;
      }
    }

    /** handle_write: drop the bytes the socket accepted and switch back to
        reading once everything is sent. */
    method HandleWrite(w: WriteResult)
      requires w.Wrote? ==> w.count <= |outgoing|
      modifies this
      ensures old(Polling()) ==> Polling()
      ensures incoming == old(incoming)
      ensures w.WriteWouldBlock? ==>
        outgoing == old(outgoing) &&
        wantRead == old(wantRead) && wantWrite == old(wantWrite) && wantClose == old(wantClose)
      ensures w.WriteFailed? ==>
        outgoing == old(outgoing) && wantRead == old(wantRead) && wantWrite == old(wantWrite) && wantClose
      ensures w.Wrote? ==>
        old(outgoing) == old(outgoing)[..w.count] + outgoing && wantClose == old(wantClose) &&
        if outgoing == [] then wantRead && !wantWrite
        else wantRead == old(wantRead) && wantWrite == old(wantWrite)
    {
      if w.WriteWouldBlock? {
        return;
      }
      if w.WriteFailed? {
        wantClose := true;
        return;
      }
      outgoing := BufConsume(outgoing, w.count);
      if |outgoing| == 0 {
        wantWrite := false;
        wantRead := true;
      }
    }
  }
}
