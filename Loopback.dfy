/** The two codecs back to back, as the two ends of a tunnel run them: the bytes one
    side's encoder writes are the bytes the other side's decoder reads. */
module Loopback {
  import opened Bytes
  import opened Io
  import opened Framing
  import Encode
  import Decode

  /** The sending end: encodes `data`, read under `readPlan`, into a writer working
      under `sendPlan`, polling again for as long as the encoder is not ready. What it
      sends decodes to `data`; it fails only on a failing read or write, or on a write
      that takes no bytes. */
  method Send(data: seq<Byte>, readPlan: seq<ReadStep>, sendPlan: seq<WriteStep>)
    returns (wire: Result<seq<Byte>>)
    ensures wire.Ok? ==> Deframe(wire.value) == Ok(data)
    ensures wire == Failure(Transport) ==> ReadFails in readPlan || WriteFails in sendPlan
    ensures wire == Failure(UnexpectedEof) ==> Accept(0) in sendPlan
  {
    var e := Encode.CopyEncode(Reader(data, readPlan), Writer([], sendPlan));
    var sent: Poll<nat> := NotReady;
    while sent == NotReady
      invariant e.Valid() && !e.closing && e.source == data && e.sink == []
      invariant sent.Ready? ==> Deframe(e.w.written) == Ok(data)
      invariant sent == Err(Transport) ==> ReadFails in readPlan || WriteFails in sendPlan
      invariant sent == Err(UnexpectedEof) ==> Accept(0) in sendPlan
      invariant |e.r.plan| <= |readPlan| && |e.w.plan| <= |sendPlan|
      invariant Within(e.r.plan, readPlan) && Within(e.w.plan, sendPlan)
      decreases |e.r.plan| + |e.w.plan| + (if sent == NotReady then 1 else 0)
    {
      sent := e.Poll();
      if sent.Ready? {
        assert e.w.written[|e.sink|..] == e.w.written;
      }
    }
    if !sent.Ready? {
      return Failure(sent.error);
    }
    return Ok(e.w.written);
  }

  /** The receiving end: decodes `wire`, received under `receivePlan`, into a writer
      working under `writePlan`, polling again for as long as the decoder is not ready.
      What it delivers is what `wire` decodes to; it fails with `UnexpectedEof` only on
      a cut frame or a zero-byte write, and otherwise only on a failing read or write.
      The count it reports is the payload length. */
  method Receive(wire: seq<Byte>, receivePlan: seq<ReadStep>, writePlan: seq<WriteStep>)
    returns (out: Result<seq<Byte>>, count: nat)
    ensures out.Ok? ==> Deframe(wire) == Ok(out.value) && count == |out.value|
    ensures out == Failure(Transport) ==> ReadFails in receivePlan || WriteFails in writePlan
    ensures out == Failure(UnexpectedEof) ==> Deframe(wire) == Failure(UnexpectedEof) || Accept(0) in writePlan
  {
    var d := Decode.CopyDecode(Reader(wire, receivePlan), Writer([], writePlan));
    var received: Poll<nat> := NotReady;
    while received == NotReady
      invariant d.Valid() && !d.closing && d.source == wire && d.sink == []
      invariant received.Ready? ==> Deframe(wire) == Ok(d.w.written) && received.value == |d.w.written|
      invariant received == Err(Transport) ==> ReadFails in receivePlan || WriteFails in writePlan
      invariant received == Err(UnexpectedEof) ==> Deframe(wire) == Failure(UnexpectedEof) || Accept(0) in writePlan
      invariant |d.r.plan| <= |receivePlan| && |d.w.plan| <= |writePlan|
      invariant Within(d.r.plan, receivePlan) && Within(d.w.plan, writePlan)
      decreases |d.r.plan| + |d.w.plan| + (if received == NotReady then 1 else 0)
    {
      received := d.Poll();
      if received.Ready? {
        assert d.w.written == Flatten(d.frames);
      }
    }
    if !received.Ready? {
      return Failure(received.error), 0;
    }
    return Ok(d.w.written), received.value;
  }

  /** Encodes `data`, then decodes what the encoder sent: the decoder delivers exactly
      `data` and counts `|data|` bytes, and it always gets there when no read or write
      fails and no write takes zero bytes, however the transfers are split and however
      often they would block. */
  method RoundTrip(data: seq<Byte>, readPlan: seq<ReadStep>, sendPlan: seq<WriteStep>,
                   receivePlan: seq<ReadStep>, writePlan: seq<WriteStep>)
    returns (out: Result<seq<Byte>>, count: nat)
    ensures out.Ok? ==> out.value == data && count == |data|
    ensures (ReadFails !in readPlan && ReadFails !in receivePlan &&
             WriteFails !in sendPlan && WriteFails !in writePlan &&
             Accept(0) !in sendPlan && Accept(0) !in writePlan) ==> out == Ok(data) && count == |data|
  {
    var wire := Send(data, readPlan, sendPlan);
    if wire.Failure? {
      assert wire.error == Transport || wire.error == UnexpectedEof;
      return Failure(wire.error), 0;
    }
    out, count := Receive(wire.value, receivePlan, writePlan);
    assert out.Failure? ==> out.error == Transport || out.error == UnexpectedEof;
  }
}
