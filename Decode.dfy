/** `TunnelCopyDecode`: reads frames from a reader and writes their payloads to a writer,
    as a state machine `ReadLength -> Read -> ReadDone -> ReadLength ...` that ends in `Eof`. */
module Decode {
  import opened Bytes
  import opened Io
  import opened Framing

  datatype DecodeState = ReadLength | Read | ReadDone | Eof

  /** The payload buffer starts at 2048 bytes and only grows. */
  const InitialCapacity: nat := 2048

  /** Order in which `poll` moves through the states without consuming input. */
  function Rank(s: DecodeState): nat
  {
    match s
    case Eof => 0
    case ReadLength => 1
    case ReadDone => 2
    case Read => 3
  }

  /** `buf.resize(need, 0)` when `buf.len() < need`; otherwise the buffer is left as is. */
  function Grow(buf: seq<Byte>, need: nat): (grown: seq<Byte>)
    ensures |grown| >= need && |grown| >= |buf|
    ensures |grown| == if |buf| < need then need else |buf|
    ensures grown[..|buf|] == buf
  {
    if |buf| < need then buf + seq(need - |buf|, _ => 0) else buf
  }

  /** Stores `data` at `buf[at..]`, as a read into `&mut buf[at..]` does. */
  function Store(buf: seq<Byte>, at: nat, data: seq<Byte>): (stored: seq<Byte>)
    requires at + |data| <= |buf|
    ensures |stored| == |buf|
    ensures stored[..at + |data|] == buf[..at] + data
  {
    buf[..at] + data + buf[at + |data|..]
  }

  /** The decoder's fields, with the reader and writer reduced to what they hold, and the
      ghost history: `wire`, the bytes taken from the reader, and `frames`, the payloads
      delivered in full. */
  datatype DecoderView = DecoderView(
    state: DecodeState, input: seq<Byte>, written: seq<Byte>,
    buf: seq<Byte>, cap: nat, pos: nat, amt: nat, dataLength: nat, closing: bool,
    wire: seq<Byte>, frames: seq<seq<Byte>>)

  /** What holds in every state: the buffer never shrinks below its first size, the
      cursors stay inside it, and what was taken plus what is left is the whole input. */
  ghost predicate Shared(v: DecoderView, source: seq<Byte>)
  {
    InitialCapacity <= |v.buf| && v.pos <= v.cap <= |v.buf| &&
    v.wire + v.input == source && AllSendable(v.frames)
  }

  /** The writer has received exactly the delivered payloads, and `amt` counts them. */
  ghost predicate Delivered(v: DecoderView, sink: seq<Byte>)
  {
    v.written == sink + Flatten(v.frames) && v.amt == |Flatten(v.frames)|
  }

  /** Gathering a length prefix: whole frames were taken, then `cap` header bytes. */
  ghost predicate Gathering(v: DecoderView, source: seq<Byte>, sink: seq<Byte>)
  {
    Shared(v, source) && v.state == ReadLength && v.pos == 0 && v.cap <= HeaderSize &&
    v.wire == Frames(v.frames) + v.buf[..v.cap] && Delivered(v, sink)
  }

  /** Gathering a payload: whole frames were taken, then a header announcing
      `dataLength` bytes, then `cap` of them. */
  ghost predicate Filling(v: DecoderView, source: seq<Byte>, sink: seq<Byte>)
  {
    Shared(v, source) && v.state == Read && v.pos == 0 &&
    1 <= v.dataLength < U32Limit && v.cap <= v.dataLength <= |v.buf| &&
    v.wire == Frames(v.frames) + U32Bytes(v.dataLength) + v.buf[..v.cap] && Delivered(v, sink)
  }

  /** Writing a payload out: whole frames were taken, then a header announcing
      `dataLength` bytes, then all of them; the writer has received the delivered
      payloads and the first `pos` bytes of this one. */
  ghost predicate Writing(v: DecoderView, source: seq<Byte>, sink: seq<Byte>)
  {
    Shared(v, source) && v.state == ReadDone && 1 <= v.dataLength < U32Limit && v.cap == v.dataLength &&
    v.wire == Frames(v.frames) + U32Bytes(v.dataLength) + v.buf[..v.cap] &&
    v.written == sink + Flatten(v.frames) + v.buf[..v.pos] && v.amt == |Flatten(v.frames)| + v.pos
  }

  /** The decoder invariant, state by state. */
  ghost predicate Good(v: DecoderView, source: seq<Byte>, sink: seq<Byte>)
  {
    match v.state
    case ReadLength => Gathering(v, source, sink) && v.cap < HeaderSize
    case Read => Filling(v, source, sink)
    case ReadDone => Writing(v, source, sink)
    case Eof =>
      Shared(v, source) && v.cap == 0 && v.pos == 0 && Delivered(v, sink) &&
      (v.wire == Frames(v.frames) + ZeroHeader || (v.wire == Frames(v.frames) && (v.input == [] || v.closing)))
  }

  /** Bytes read into the header keep the decoder gathering. */
  lemma HeaderBytes(v: DecoderView, data: seq<Byte>, rest: seq<Byte>, source: seq<Byte>, sink: seq<Byte>)
    requires Gathering(v, source, sink) && v.cap + |data| <= HeaderSize && data + rest == v.input
    ensures Gathering(v.(buf := Store(v.buf, v.cap, data), cap := v.cap + |data|, wire := v.wire + data, input := rest), source, sink)
  {
    assert v.wire + data + rest == v.wire + (data + rest);
    assert v.wire + data == Frames(v.frames) + (v.buf[..v.cap] + data);
  }

  /** Bytes read into the payload keep the decoder filling. */
  lemma PayloadBytes(v: DecoderView, data: seq<Byte>, rest: seq<Byte>, source: seq<Byte>, sink: seq<Byte>)
    requires Filling(v, source, sink) && v.cap + |data| <= v.dataLength && data + rest == v.input
    ensures Filling(v.(buf := Store(v.buf, v.cap, data), cap := v.cap + |data|, wire := v.wire + data, input := rest), source, sink)
  {
    assert v.wire + data + rest == v.wire + (data + rest);
    assert v.wire + data == Frames(v.frames) + U32Bytes(v.dataLength) + (v.buf[..v.cap] + data);
  }

  /** Running out of input, or `close`, on a frame boundary ends the stream. */
  lemma HeaderEnds(v: DecoderView, u: DecoderView, source: seq<Byte>, sink: seq<Byte>)
    requires Gathering(v, source, sink) && v.cap == 0 && (v.input == [] || v.closing)
    requires u == v.(state := Eof)
    ensures Good(u, source, sink)
  {
    assert v.buf[..0] == [];
  }

  /** A complete header of length 0 ends the stream; any other length starts a payload,
      with the buffer grown to hold it. */
  lemma HeaderDone(v: DecoderView, source: seq<Byte>, sink: seq<Byte>)
    requires Gathering(v, source, sink) && v.cap == HeaderSize
    ensures ReadU32(v.buf[..HeaderSize]) == 0 ==>
      Good(v.(state := Eof, cap := 0, dataLength := 0), source, sink)
    ensures ReadU32(v.buf[..HeaderSize]) != 0 ==>
      Filling(v.(state := Read, cap := 0, dataLength := ReadU32(v.buf[..HeaderSize]),
                 buf := Grow(v.buf, ReadU32(v.buf[..HeaderSize]))), source, sink)
  {
    var n := ReadU32(v.buf[..HeaderSize]);
    assert U32Bytes(n) == v.buf[..HeaderSize];
    assert U32Bytes(0) == ZeroHeader;
    var g := Grow(v.buf, n);
    assert g[..0] == [];
  }

  /** A complete payload moves the decoder on to writing it. */
  lemma PayloadDone(v: DecoderView, source: seq<Byte>, sink: seq<Byte>)
    requires Filling(v, source, sink) && v.cap == v.dataLength
    ensures Good(v.(state := ReadDone, pos := 0), source, sink)
  {
    assert v.buf[..0] == [];
  }

  /** The writer accepting the next bytes of the payload keeps the invariant, with `pos`
      and `amt` advanced by their count. */
  lemma PayloadWritten(v: DecoderView, chunk: seq<Byte>, u: DecoderView, source: seq<Byte>, sink: seq<Byte>)
    requires Good(v, source, sink) && v.state == ReadDone
    requires v.pos + |chunk| <= v.cap && chunk == v.buf[v.pos..v.pos + |chunk|]
    requires u == v.(written := v.written + chunk, pos := v.pos + |chunk|, amt := v.amt + |chunk|)
    ensures Good(u, source, sink)
  {
    SliceGrows(sink + Flatten(v.frames), v.buf, 0, v.pos, u.pos);
    assert Writing(u, source, sink);
  }

  /** A payload written in full joins the delivered frames. */
  lemma FrameDone(v: DecoderView, u: DecoderView, source: seq<Byte>, sink: seq<Byte>)
    requires Good(v, source, sink) && v.state == ReadDone && v.pos == v.cap
    requires u == v.(state := ReadLength, cap := 0, pos := 0, frames := v.frames + [v.buf[..v.cap]])
    ensures Good(u, source, sink)
  {
    var payload := v.buf[..v.cap];
    FramesAppend(v.frames, payload);
    FlattenAppend(v.frames, payload);
    assert v.buf[..0] == [];
  }

  /** Finishing: what was taken from the reader decodes to what the writer received, and
      unless `close` cut the stream short, so does the whole input. */
  lemma Finished(v: DecoderView, source: seq<Byte>, sink: seq<Byte>)
    requires Good(v, source, sink) && v.state == Eof
    ensures v.written == sink + Flatten(v.frames) && v.amt == |Flatten(v.frames)|
    ensures Deframe(v.wire) == Ok(Flatten(v.frames))
    ensures !v.closing ==> Deframe(source) == Ok(Flatten(v.frames))
  {
    if v.wire == Frames(v.frames) + ZeroHeader {
      DeframeClosed(v.frames, []);
      assert v.wire + [] == v.wire;
      DeframeClosed(v.frames, v.input);
    } else {
      DeframeExhausted(v.frames);
      if !v.closing {
        assert v.input == [];
        assert source == v.wire + v.input == v.wire;
      }
    }
  }

  /** Running out of input inside a header or a payload: the input is a cut frame. */
  lemma CutShort(v: DecoderView, source: seq<Byte>, sink: seq<Byte>)
    requires Good(v, source, sink) && v.input == []
    requires (v.state == ReadLength && 1 <= v.cap) || (v.state == Read && v.cap < v.dataLength)
    ensures Deframe(source) == Failure(UnexpectedEof)
  {
    assert source == v.wire;
    if v.state == ReadLength {
      DeframeCutHeader(v.frames, v.buf[..v.cap]);
    } else {
      DeframeCutBody(v.frames, v.dataLength, v.buf[..v.cap]);
    }
  }

  /** The header of a one-byte frame. */
  lemma HeaderOfOne()
    ensures U32Bytes(1) == [1, 0, 0, 0]
  {
    assert ToLe(0, 1) == [0] + ToLe(0, 0);
    assert ToLe(0, 2) == [0] + ToLe(0, 1);
    assert ToLe(0, 3) == [0] + ToLe(0, 2);
  }

  /** The input `[1,0,0,0,97]` then the zero-length frame `[0,0,0,0]`, all available at
      once: after the header, the source's read into `buf[0..2048]` takes all five
      remaining bytes, where a read bounded by the frame's length takes `97` alone. The
      frames hold the payload `[97]` only. */
  lemma OverreadWitness()
    ensures Reader([97, 0, 0, 0, 0], []).Read(InitialCapacity).0 == Ready([97, 0, 0, 0, 0])
    ensures Reader([97, 0, 0, 0, 0], []).Read(1).0 == Ready([97])
    ensures Deframe([1, 0, 0, 0, 97, 0, 0, 0, 0]) == Ok([97])
  {
    var input: seq<Byte> := [97, 0, 0, 0, 0];
    assert input[..5] == input;
    assert input[..1] == [97];
    HeaderOfOne();
    var ps: seq<seq<Byte>> := [[97]];
    assert ps[1..] == [];
    assert Frames(ps) == Frame([97]) + Frames([]) == [1, 0, 0, 0, 97];
    assert Flatten(ps) == [97] + Flatten([]) == [97];
    assert [1, 0, 0, 0, 97, 0, 0, 0, 0] == Frames(ps) + ZeroHeader + [];
    DeframeClosed(ps, []);
  }

  class TunnelCopyDecode {
    var r: Reader
    var w: Writer
    var buf: seq<Byte>
    var cap: nat
    var pos: nat
    var amt: nat
    var state: DecodeState
    var dataLength: nat
    var closing: bool

    /** What the reader held and the writer had received when the decoder was made. */
    ghost const source: seq<Byte>
    ghost const sink: seq<Byte>
    /** The bytes taken from the reader so far. */
    ghost var wire: seq<Byte>
    /** The payloads of the frames delivered in full so far. */
    ghost var frames: seq<seq<Byte>>

    ghost function View(): DecoderView
      reads this
    {
      DecoderView(state, r.input, w.written, buf, cap, pos, amt, dataLength, closing, wire, frames)
    }

    ghost predicate Valid()
      reads this
    {
      Good(View(), source, sink)
    }

    /** `TunnelCopyDecode::new`. */
    constructor (r: Reader, w: Writer)
      ensures Valid()
      ensures this.r == r && this.w == w && |buf| == InitialCapacity
      ensures state == DecodeState.ReadLength && cap == 0 && pos == 0 && amt == 0 && dataLength == 0 && !closing
      ensures source == r.input && sink == w.written && wire == [] && frames == []
    {
      this.r := r;
      this.w := w;
      buf := seq(InitialCapacity, _ => 0);
      cap, pos, amt := 0, 0, 0;
      state := DecodeState.ReadLength;
      dataLength := 0;
      closing := false;
      source := r.input;
      sink := w.written;
      wire := [];
      frames := [];
    }

    /** One `read` into `buf[cap..4]`: `Ready(n)` with the `n` bytes stored, 0 at end of input. */
    method ReadHeaderBytes() returns (p: Poll<nat>)
      requires Gathering(View(), source, sink) && cap < HeaderSize
      modifies this`r, this`buf, this`wire, this`cap
      ensures Gathering(View(), source, sink) && |buf| == |old(buf)|
      ensures |r.plan| <= |old(r.plan)| && Within(r.plan, old(r.plan))
      ensures p.Ready? ==> cap == old(cap) + p.value && |r.input| + p.value == |old(r.input)|
      ensures p == Ready(0) ==> r.input == []
      ensures !p.Ready? ==> cap == old(cap) && |r.input| == |old(r.input)|
      ensures p == NotReady ==> |r.plan| < |old(r.plan)| && ReadBlocks in old(r.plan)
      ensures p.Err? ==> p.error == Transport && ReadFails in old(r.plan)
    {
      var step := r.Read(HeaderSize - cap);
      ghost var v := View();
      r := step.1;
      if step.0.Ready? {
        var data := step.0.value;
        HeaderBytes(v, data, r.input, source, sink);
        buf, wire, cap := Store(buf, cap, data), wire + data, cap + |data|;
        p := Ready(|data|);
      } else {
        p := Stalled(step.0);
      }
    }

    /** `read_length`: gathers the 4-byte length prefix, then either ends the stream
        (length 0) or grows the buffer to hold the payload and moves to `Read`. */
    method ReadLength() returns (p: Poll<()>)
      requires Valid() && state == DecodeState.ReadLength
      modifies this`r, this`buf, this`wire, this`cap, this`state, this`dataLength
      ensures Valid() && |buf| >= |old(buf)|
      ensures |r.input| <= |old(r.input)| && |r.plan| <= |old(r.plan)|
      ensures closing && old(cap) == 0 ==> p == Ready(()) && state == DecodeState.Eof && unchanged(this`r)
      ensures p.Ready? ==> cap == 0 && (state == DecodeState.Eof || state == DecodeState.Read)
      ensures p.Ready? && state == DecodeState.Read ==> |r.input| < |old(r.input)| && |buf| >= dataLength
      ensures !p.Ready? ==> state == DecodeState.ReadLength
      ensures Within(r.plan, old(r.plan))
      ensures p == NotReady ==> |r.plan| < |old(r.plan)| && ReadBlocks in old(r.plan)
      ensures p == Err(Transport) ==> ReadFails in old(r.plan)
      ensures p == Err(UnexpectedEof) ==> r.input == [] && 1 <= cap < HeaderSize
    {
      if closing && cap == 0 && state != DecodeState.Eof {
        ghost var v := View();
        state := DecodeState.Eof;
        HeaderEnds(v, View(), source, sink);
        return Ready(());
      }

      while cap < HeaderSize
        invariant Gathering(View(), source, sink) && |buf| == |old(buf)|
        invariant |r.input| + cap == |old(r.input)| + old(cap)
        invariant |r.plan| <= |old(r.plan)| && Within(r.plan, old(r.plan))
        modifies this`r, this`buf, this`wire, this`cap, this`state
        decreases HeaderSize - cap
      {
        var n := ReadHeaderBytes();
        if !n.Ready? {
          return Stalled(n);
        }
        if n.value == 0 {
          if cap == 0 {
            ghost var v := View();
            state := DecodeState.Eof;
            HeaderEnds(v, View(), source, sink);
            return Ready(());
          }
          return Err(UnexpectedEof);
        }
      }

      LengthRead();
      return Ready(());
    }

    /** The end of `read_length`: decodes the complete header; length 0 ends the stream,
        any other length grows the buffer to hold the payload and moves to `Read`. */
    method LengthRead()
      requires Gathering(View(), source, sink) && cap == HeaderSize
      modifies this`buf, this`cap, this`state, this`dataLength
      ensures Valid() && cap == 0 && dataLength < U32Limit && U32Bytes(dataLength) == old(buf[..HeaderSize])
      ensures dataLength == 0 ==> state == DecodeState.Eof && buf == old(buf)
      ensures dataLength != 0 ==> state == DecodeState.Read && buf == Grow(old(buf), dataLength)
    {
      HeaderDone(View(), source, sink);
      var length := ReadU32(buf[..HeaderSize]);
      dataLength, cap := length, 0;
      if length == 0 {
        state := DecodeState.Eof;
      } else {
        buf, state := Grow(buf, length), DecodeState.Read;
      }
    }

    /** One `read` into `buf[cap..dataLength]`: `Ready(n)` with the `n` bytes stored. */
    method ReadPayloadBytes() returns (p: Poll<nat>)
      requires Filling(View(), source, sink) && cap < dataLength
      modifies this`r, this`buf, this`wire, this`cap
      ensures Filling(View(), source, sink) && |buf| == |old(buf)|
      ensures |r.plan| <= |old(r.plan)| && |r.input| <= |old(r.input)| && Within(r.plan, old(r.plan))
      ensures p.Ready? ==> cap == old(cap) + p.value
      ensures p == Ready(0) ==> r.input == []
      ensures !p.Ready? ==> cap == old(cap)
      ensures p == NotReady ==> |r.plan| < |old(r.plan)| && ReadBlocks in old(r.plan)
      ensures p.Err? ==> p.error == Transport && ReadFails in old(r.plan)
    {
      var step := r.Read(dataLength - cap);
      ghost var v := View();
      r := step.1;
      if step.0.Ready? {
        var data := step.0.value;
        PayloadBytes(v, data, r.input, source, sink);
        buf, wire, cap := Store(buf, cap, data), wire + data, cap + |data|;
        p := Ready(|data|);
      } else {
        p := Stalled(step.0);
      }
    }

    /** `read`: gathers the `dataLength` payload bytes, reading into `buf[cap..dataLength]`
        (corrected: the source reads into all of `buf[cap..]`; see `ReadAsWritten`). */
    method Read() returns (p: Poll<()>)
      requires Valid() && state == DecodeState.Read
      modifies this`r, this`buf, this`wire, this`cap, this`state, this`pos
      ensures Valid() && |buf| == |old(buf)|
      ensures |r.input| <= |old(r.input)| && |r.plan| <= |old(r.plan)|
      ensures p.Ready? ==> state == DecodeState.ReadDone && cap == dataLength && pos == 0
      ensures !p.Ready? ==> state == DecodeState.Read
      ensures Within(r.plan, old(r.plan))
      ensures p == NotReady ==> |r.plan| < |old(r.plan)| && ReadBlocks in old(r.plan)
      ensures p == Err(Transport) ==> ReadFails in old(r.plan)
      ensures p == Err(UnexpectedEof) ==> r.input == [] && cap < dataLength
    {
      while cap < dataLength
        invariant Filling(View(), source, sink) && |buf| == |old(buf)|
        invariant |r.input| <= |old(r.input)| && |r.plan| <= |old(r.plan)| && Within(r.plan, old(r.plan))
        modifies this`r, this`buf, this`wire, this`cap
        decreases dataLength - cap
      {
        var n := ReadPayloadBytes();
        if !n.Ready? {
          return Stalled(n);
        }
        if n.value == 0 {
          return Err(UnexpectedEof);
        }
      }

      PayloadDone(View(), source, sink);
      state, pos := DecodeState.ReadDone, 0;
      return Ready(());
    }

    /** `read` as the source has it: every read goes into all of `buf[cap..]`, not
        `buf[cap..dataLength]`. With a reader that delivers all it holds, the first read
        fills the buffer or drains the input, so bytes of the frames after this one end up
        in `buf[dataLength..cap]`, and `read_done` writes them out as payload. */
    method ReadAsWritten() returns (p: Poll<()>)
      requires Valid() && state == DecodeState.Read
      modifies this`r, this`buf, this`cap, this`state, this`pos
      ensures |buf| == |old(buf)| && old(cap) <= cap <= |buf|
      ensures buf[..cap] + r.input == old(buf[..cap]) + old(r.input)
      ensures p.Ready? ==> state == DecodeState.ReadDone && pos == 0 && dataLength <= cap
      ensures p.Ready? && old(r.plan) == [] && old(cap) < dataLength ==> cap == |buf| || r.input == []
      ensures p == Err(UnexpectedEof) ==> r.input == [] && cap < dataLength
      ensures p == NotReady ==> ReadBlocks in old(r.plan)
      ensures p == Err(Transport) ==> ReadFails in old(r.plan)
    {
      while cap < dataLength
        invariant |buf| == |old(buf)| && old(cap) <= cap <= |buf| && dataLength <= |buf|
        invariant buf[..cap] + r.input == old(buf[..cap]) + old(r.input)
        invariant old(r.plan) == [] ==> r.plan == []
        invariant Within(r.plan, old(r.plan))
        invariant old(r.plan) == [] && old(cap) < cap ==> cap == |buf| || r.input == []
        modifies this`r, this`buf, this`cap
        decreases dataLength - cap
      {
        var step := r.Read(|buf| - cap);
        ghost var before := r.input;
        r := step.1;
        if !step.0.Ready? {
          return Stalled(step.0);
        }
        var data := step.0.value;
        if data == [] {
          return Err(UnexpectedEof);
        }
        assert buf[..cap] + data + r.input == buf[..cap] + before;
        buf, cap := Store(buf, cap, data), cap + |data|;
      }

      state, pos := DecodeState.ReadDone, 0;
      return Ready(());
    }

    /** One `write` of `buf[pos..cap]`: `Ready(n)` with `pos` and `amt` advanced by the
        `n` bytes the writer took. */
    method WritePayloadBytes() returns (p: Poll<nat>)
      requires Valid() && state == DecodeState.ReadDone && pos < cap
      modifies this`w, this`pos, this`amt
      ensures Valid()
      ensures old(pos) <= pos && amt == old(amt) + (pos - old(pos))
      ensures w.written == old(w.written) + buf[old(pos)..pos]
      ensures |w.plan| <= |old(w.plan)| && Within(w.plan, old(w.plan))
      ensures p.Ready? ==> pos == old(pos) + p.value
      ensures p == Ready(0) <==> old(w.plan) != [] && old(w.plan)[0] == Accept(0)
      ensures !p.Ready? ==> pos == old(pos)
      ensures p == NotReady ==> |w.plan| < |old(w.plan)| && WriteBlocks in old(w.plan)
      ensures p.Err? ==> p.error == Transport && WriteFails in old(w.plan)
    {
      var chunk := buf[pos..cap];
      var step := w.Write(chunk);
      if step.0.Ready? {
        var n := step.0.value;
        assert pos + n <= cap && chunk[..n] == buf[pos..pos + n];
        PayloadTaken(step.1, n);
        p := Ready(n);
      } else {
        PayloadTaken(step.1, 0);
        p := Stalled(step.0);
      }
    }

    /** The writer `next` took the `n` payload bytes after `pos`: it replaces the writer,
        and `pos` and `amt` advance by `n`. */
    method PayloadTaken(next: Writer, n: nat)
      requires Valid() && state == DecodeState.ReadDone && pos + n <= cap
      requires next.written == w.written + buf[pos..pos + n]
      modifies this`w, this`pos, this`amt
      ensures Valid() && w == next && pos == old(pos) + n && amt == old(amt) + n
    {
      ghost var v := View();
      w, pos, amt := next, pos + n, amt + n;
      PayloadWritten(v, buf[v.pos..pos], View(), source, sink);
    }

    /** `read_done`: writes the payload `buf[pos..cap]` to the writer, counting every
        byte in `amt`, then returns to `ReadLength` with both cursors reset. */
    method ReadDone() returns (p: Poll<()>)
      requires Valid() && state == DecodeState.ReadDone
      modifies this`w, this`pos, this`amt, this`frames, this`state, this`cap
      ensures Valid() && |w.plan| <= |old(w.plan)|
      ensures p.Ready? ==> state == DecodeState.ReadLength && cap == 0 && pos == 0
      ensures p.Ready? ==> frames == old(frames) + [old(buf[..cap])]
      ensures p.Ready? ==> w.written == old(w.written) + old(buf[pos..cap]) && amt == old(amt) + old(cap - pos)
      ensures !p.Ready? ==> state == DecodeState.ReadDone && unchanged(this`frames)
      ensures Within(w.plan, old(w.plan))
      ensures p == NotReady ==> |w.plan| < |old(w.plan)| && WriteBlocks in old(w.plan)
      ensures p == Err(Transport) ==> WriteFails in old(w.plan)
      ensures p == Err(UnexpectedEof) ==> Accept(0) in old(w.plan)
      ensures old(w.plan) != [] && old(w.plan)[0] == Accept(0) && old(pos) < old(cap) ==> p == Err(UnexpectedEof)
    {
      while pos < cap
        invariant Valid() && state == DecodeState.ReadDone
        invariant old(pos) <= pos && w.written == old(w.written) + buf[old(pos)..pos] && amt == old(amt) + (pos - old(pos))
        invariant |w.plan| <= |old(w.plan)| && Within(w.plan, old(w.plan))
        invariant pos == old(pos) ==> w.plan == old(w.plan)
        invariant old(w.plan) != [] && old(w.plan)[0] == Accept(0) ==> pos == old(pos)
        modifies this`w, this`pos, this`amt
        decreases cap - pos
      {
        ghost var before := w.written;
        ghost var at := pos;
        var n := WritePayloadBytes();
        if !n.Ready? {
          return Stalled(n);
        }
        if n.value == 0 {
          return Err(UnexpectedEof);
        }
        SliceGrows(old(w.written), buf, old(pos), at, pos);
      }

      PayloadSent();
      return Ready(());
    }

    /** The end of `read_done`, once the whole payload is written: back to `ReadLength`
        with both cursors reset; the payload joins the frames delivered. */
    method PayloadSent()
      requires Valid() && state == DecodeState.ReadDone && pos == cap
      modifies this`frames, this`state, this`cap, this`pos
      ensures Valid() && state == DecodeState.ReadLength && cap == 0 && pos == 0
      ensures frames == old(frames) + [buf[..old(cap)]]
    {
      ghost var v := View();
      frames, state, cap, pos := frames + [buf[..cap]], DecodeState.ReadLength, 0, 0;
      FrameDone(v, View(), source, sink);
    }

    /** `close`: asks the decoder to stop at the next frame boundary. */
    method Close()
      requires Valid()
      modifies this`closing
      ensures Valid() && closing
    {
      closing := true;
    }

    /** One turn of `poll`'s loop: the step for the current state. */
    method Step() returns (s: Poll<()>)
      requires Valid() && state != DecodeState.Eof
      modifies this`r, this`w, this`buf, this`wire, this`cap, this`pos, this`amt, this`state, this`dataLength, this`frames
      ensures Valid()
      ensures |r.plan| <= |old(r.plan)| && |w.plan| <= |old(w.plan)|
      ensures s.Ready? ==> |r.input| < |old(r.input)| || (|r.input| == |old(r.input)| && Rank(state) < Rank(old(state)))
      ensures s == Err(UnexpectedEof) && state != DecodeState.ReadDone ==> Deframe(source) == Failure(UnexpectedEof)
      ensures s == Err(UnexpectedEof) && state == DecodeState.ReadDone ==> Accept(0) in old(w.plan)
      ensures Within(r.plan, old(r.plan)) && Within(w.plan, old(w.plan))
      ensures s == NotReady ==> |r.plan| + |w.plan| < |old(r.plan)| + |old(w.plan)|
      ensures s == NotReady ==> ReadBlocks in old(r.plan) || WriteBlocks in old(w.plan)
      ensures s == Err(Transport) ==> ReadFails in old(r.plan) || WriteFails in old(w.plan)
    {
      if state == DecodeState.ReadLength {
        s := ReadLength();
      } else if state == DecodeState.Read {
        s := Read();
      } else {
        s := ReadDone();
      }
      if s == Err(UnexpectedEof) && state != DecodeState.ReadDone {
        CutShort(View(), source, sink);
      }
    }

    /** `poll`: runs the state machine until it finishes (`Eof`: flush, then the byte
        count), has to wait, or fails. */
    method Poll() returns (p: Poll<nat>)
      requires Valid()
      modifies this`r, this`w, this`buf, this`wire, this`cap, this`pos, this`amt, this`state, this`dataLength, this`frames
      ensures Valid()
      ensures |r.plan| <= |old(r.plan)| && |w.plan| <= |old(w.plan)|
      ensures p.Ready? ==> state == DecodeState.Eof && p.value == amt && w.written == sink + Flatten(frames)
      ensures p.Ready? ==> p.value == |Flatten(frames)|
      ensures p.Ready? ==> Deframe(wire) == Ok(Flatten(frames))
      ensures p.Ready? && !closing ==> Deframe(source) == Ok(Flatten(frames))
      ensures p == Err(UnexpectedEof) && state != DecodeState.ReadDone ==> Deframe(source) == Failure(UnexpectedEof)
      ensures p == Err(UnexpectedEof) && state == DecodeState.ReadDone ==> Accept(0) in old(w.plan)
      ensures Within(r.plan, old(r.plan)) && Within(w.plan, old(w.plan))
      ensures p == NotReady ==> |r.plan| + |w.plan| < |old(r.plan)| + |old(w.plan)|
      ensures p == NotReady ==> ReadBlocks in old(r.plan) || WriteBlocks in old(w.plan)
      ensures p == Err(Transport) ==> ReadFails in old(r.plan) || WriteFails in old(w.plan)
      ensures old(state) == DecodeState.Eof ==> state == DecodeState.Eof && amt == old(amt) && r == old(r)
      ensures old(state) == DecodeState.Eof ==> w.written == old(w.written) && frames == old(frames) && wire == old(wire)
    {
      while state != DecodeState.Eof
        invariant Valid()
        invariant |r.plan| <= |old(r.plan)| && |w.plan| <= |old(w.plan)|
        invariant Within(r.plan, old(r.plan)) && Within(w.plan, old(w.plan))
        invariant old(state) == DecodeState.Eof ==> state == DecodeState.Eof && amt == old(amt) && r == old(r)
        invariant old(state) == DecodeState.Eof ==> w.written == old(w.written) && frames == old(frames) && wire == old(wire)
        modifies this`r, this`w, this`buf, this`wire, this`cap, this`pos, this`amt, this`state, this`dataLength, this`frames
        decreases |r.input|, Rank(state)
      {
        var s := Step();
        if !s.Ready? {
          return Stalled(s);
        }
      }

      var flushed := w.Flush();
      w := flushed.1;
      if !flushed.0.Ready? {
        return Stalled(flushed.0);
      }
      Finished(View(), source, sink);
      return Ready(amt);
    }
  }

  /** `read_length` on a fresh decoder whose input starts with more than a header, when
      its reads neither block nor fail, cannot run out of input inside that header. */
  lemma HeaderNotCut(v: DecoderView, p: Poll<()>, source: seq<Byte>, sink: seq<Byte>)
    requires Good(v, source, sink) && v.frames == [] && |source| > HeaderSize
    requires p.Err? ==> p.error == UnexpectedEof && v.state == ReadLength && v.input == [] && v.cap < HeaderSize
    requires !p.NotReady?
    ensures p.Ready?
  {
    assert Frames([]) == [];
    assert v.state == ReadLength ==> v.wire + v.input == source && v.wire == v.buf[..v.cap];
  }

  /** `read_length` on a fresh decoder whose input starts with a one-byte frame's header,
      once it is ready: it took that header and nothing else, and moved on to reading the
      one-byte payload. */
  lemma FirstHeaderOfOne(v: DecoderView, source: seq<Byte>, sink: seq<Byte>)
    requires Good(v, source, sink) && v.frames == [] && !v.closing && v.cap == 0
    requires v.state == Eof || v.state == Read
    requires |source| > HeaderSize && source[..HeaderSize] == [1, 0, 0, 0]
    ensures v.state == Read && v.dataLength == 1 && v.input == source[HeaderSize..]
  {
    assert Frames([]) == [] && v.buf[..0] == [];
    assert |v.wire| > 0 ==> v.wire[0] == source[0] == 1;
    assert v.wire != ZeroHeader && (v.wire == [] ==> v.input == source);
    assert v.wire == U32Bytes(v.dataLength) == source[..HeaderSize];
    HeaderOfOne();
    U32BytesInjective(v.dataLength, 1);
  }

  /** The input of `OverreadWitness` is the header of a one-byte frame and five bytes more. */
  lemma OverreadInputSplits(input: seq<Byte>)
    requires input == [1, 0, 0, 0, 97, 0, 0, 0, 0]
    ensures |input| > HeaderSize && input[..HeaderSize] == [1, 0, 0, 0] && input[HeaderSize..] == [97, 0, 0, 0, 0]
  {
  }

  /** The input of `OverreadWitness` after the decoder with the source's `read` has taken
      the header: a payload of one byte is announced and five bytes are left. */
  method OverreadHeader() returns (d: TunnelCopyDecode)
    ensures fresh(d) && d.Valid()
    ensures d.state == DecodeState.Read && d.dataLength == 1 && d.cap == 0
    ensures d.r.input == [97, 0, 0, 0, 0] && d.r.plan == []
  {
    var input: seq<Byte> := [1, 0, 0, 0, 97, 0, 0, 0, 0];
    OverreadInputSplits(input);
    d := CopyDecode(Reader(input, []), Writer([], []));
    assert d.r.plan == [];
    var p := d.ReadLength();
    assert |d.r.plan| == 0 && p != NotReady && p != Err(Transport);
    assert p.Err? ==> p.error == Transport || p.error == UnexpectedEof;
    assert d.source == input;
    HeaderNotCut(d.View(), p, d.source, d.sink);
    FirstHeaderOfOne(d.View(), d.source, d.sink);
  }

  /** Then the source's `read`: it takes all five bytes that are left, so `buf[..cap]`
      holds the payload and the zero-length frame behind it, where the frame is one byte
      long. */
  method OverreadAsWritten() returns (d: TunnelCopyDecode)
    ensures d.state == DecodeState.ReadDone && d.dataLength == 1
    ensures d.cap == 5 && |d.buf| >= InitialCapacity && d.buf[..5] == [97, 0, 0, 0, 0]
  {
    d := OverreadHeader();
    assert |d.buf| >= InitialCapacity && d.buf[..d.cap] == [];
    var q := d.ReadAsWritten();
    assert q != NotReady && q != Err(Transport) && q != Err(UnexpectedEof);
    assert q.Err? ==> q.error == Transport || q.error == UnexpectedEof;
    assert d.buf[..d.cap] + d.r.input == [97, 0, 0, 0, 0];
    assert d.cap < |d.buf|;
    assert d.r.input == [];
  }

  /** `copy_decode`: a decoder from `r` to `w`, ready to poll. */
  method CopyDecode(r: Reader, w: Writer) returns (d: TunnelCopyDecode)
    ensures fresh(d) && d.Valid()
    ensures d.r == r && d.w == w && d.state == ReadLength && d.amt == 0 && !d.closing
    ensures d.source == r.input && d.sink == w.written && d.wire == [] && d.frames == []
  {
    d := new TunnelCopyDecode(r, w);
  }
}
