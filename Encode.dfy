/** `TunnelCopyEncode`: reads the source in chunks of at most 2048 bytes and writes each
    chunk as a frame; when the source ends, or after `close`, it writes the zero-length
    frame and stops. States: `Read -> CopyEncoded -> Read ...`, then `WriteEof -> Eof`. */
module Encode {
  import opened Bytes
  import opened Io
  import opened Framing

  datatype EncodeState = Read | CopyEncoded | WriteEof | Eof

  /** The most payload one frame carries: the buffer is 2048 + 4 bytes. */
  const ChunkSize: nat := 2048
  const BufferSize: nat := ChunkSize + HeaderSize

  /** Order in which `poll` moves through the states without consuming input. */
  function Rank(s: EncodeState): nat
  {
    match s
    case Eof => 0
    case WriteEof => 1
    case Read => 2
    case CopyEncoded => 3
  }

  /** The buffer after `data` was read into `buf[4..]` and its length written into
      `buf[0..4]`. */
  function Encoded(buf: seq<Byte>, data: seq<Byte>): (framed: seq<Byte>)
    requires HeaderSize + |data| <= |buf| && |data| < U32Limit
    ensures |framed| == |buf|
    ensures framed[..HeaderSize] == U32Bytes(|data|)
    ensures framed[HeaderSize..HeaderSize + |data|] == data
  {
    U32Bytes(|data|) + data + buf[HeaderSize + |data|..]
  }

  /** Every chunk fits in one buffer. */
  predicate Bounded(ps: seq<seq<Byte>>)
  {
    forall i :: 0 <= i < |ps| ==> |ps[i]| <= ChunkSize
  }

  /** The encoder's fields, with the reader and writer reduced to what they hold, and the
      ghost history `chunks`: the payloads whose frames were written in full. */
  datatype EncoderView = EncoderView(
    state: EncodeState, input: seq<Byte>, written: seq<Byte>,
    buf: seq<Byte>, cap: nat, pos: nat, amt: nat, closing: bool,
    chunks: seq<seq<Byte>>)

  /** The writer has received the frames of the chunks sent, then `buf[..pos]`; `amt`
      counts all of it, headers included. */
  ghost predicate Sending(v: EncoderView, sink: seq<Byte>)
    requires AllSendable(v.chunks) && v.pos <= |v.buf|
  {
    v.written == sink + Frames(v.chunks) + v.buf[..v.pos] && v.amt == |Frames(v.chunks)| + v.pos
  }

  /** The encoder invariant, state by state. */
  ghost predicate Good(v: EncoderView, source: seq<Byte>, sink: seq<Byte>)
  {
    |v.buf| == BufferSize && v.pos <= v.cap <= |v.buf| && AllSendable(v.chunks) && Bounded(v.chunks) &&
    match v.state
    case Read =>
      v.cap == 0 && v.pos == 0 && Flatten(v.chunks) + v.input == source &&
      v.written == sink + Frames(v.chunks) && v.amt == |Frames(v.chunks)|
    case CopyEncoded =>
      HeaderSize < v.cap && v.buf[..HeaderSize] == U32Bytes(v.cap - HeaderSize) &&
      Flatten(v.chunks) + v.buf[HeaderSize..v.cap] + v.input == source && Sending(v, sink)
    case WriteEof =>
      v.cap == HeaderSize && v.buf[..HeaderSize] == ZeroHeader &&
      Flatten(v.chunks) + v.input == source && Sending(v, sink) && (v.input == [] || v.closing)
    case Eof =>
      v.cap == 0 && v.pos == 0 && Flatten(v.chunks) + v.input == source &&
      v.written == sink + Frames(v.chunks) + ZeroHeader && v.amt == |Frames(v.chunks)| + HeaderSize &&
      (v.input == [] || v.closing)
  }

  /** A chunk read from the source becomes the frame in the buffer. */
  lemma ChunkRead(v: EncoderView, data: seq<Byte>, u: EncoderView, source: seq<Byte>, sink: seq<Byte>)
    requires Good(v, source, sink) && v.state == Read
    requires 1 <= |data| <= ChunkSize && data + u.input == v.input
    requires u == v.(state := CopyEncoded, buf := Encoded(v.buf, data), cap := HeaderSize + |data|, pos := 0, input := u.input)
    ensures Good(u, source, sink)
  {
    var rest := u.input;
    assert Flatten(v.chunks) + data + rest == Flatten(v.chunks) + (data + rest);
    assert Encoded(v.buf, data)[..0] == [];
  }

  /** One read into the buffer: a chunk becomes a frame, end of source the zero frame. */
  lemma Refilled(v: EncoderView, data: seq<Byte>, u: EncoderView, source: seq<Byte>, sink: seq<Byte>)
    requires Good(v, source, sink) && v.state == Read
    requires |data| <= ChunkSize && data + u.input == v.input && (data == [] ==> v.input == [])
    requires u == v.(state := if data == [] then WriteEof else CopyEncoded, buf := Encoded(v.buf, data),
                     cap := HeaderSize + |data|, pos := 0, input := u.input)
    ensures Good(u, source, sink)
  {
    if data == [] {
      assert u.input == v.input;
      EndFrame(v, u, source, sink);
    } else {
      ChunkRead(v, data, u, source, sink);
    }
  }

  /** At the end of the source, or when closing, the buffer holds the zero-length frame. */
  lemma EndFrame(v: EncoderView, u: EncoderView, source: seq<Byte>, sink: seq<Byte>)
    requires Good(v, source, sink) && v.state == Read && (v.input == [] || v.closing)
    requires u == v.(state := WriteEof, buf := Encoded(v.buf, []), cap := HeaderSize, pos := 0)
    ensures Good(u, source, sink)
  {
    assert U32Bytes(0) == ZeroHeader;
    assert Encoded(v.buf, [])[..0] == [];
  }

  /** The writer accepting `n` more bytes of the frame keeps the invariant. */
  lemma FrameBytesWritten(v: EncoderView, n: nat, u: EncoderView, source: seq<Byte>, sink: seq<Byte>)
    requires Good(v, source, sink) && (v.state == CopyEncoded || v.state == WriteEof) && v.pos + n <= v.cap
    requires u == v.(written := v.written + v.buf[v.pos..v.cap][..n], pos := v.pos + n, amt := v.amt + n)
    ensures Good(u, source, sink)
    ensures u.written == v.written + v.buf[v.pos..u.pos]
  {
    assert v.buf[v.pos..v.cap][..n] == v.buf[v.pos..v.pos + n];
    assert v.buf[..v.pos + n] == v.buf[..v.pos] + v.buf[v.pos..v.pos + n];
    assert Sending(u, sink);
    if v.state == CopyEncoded {
      assert Flatten(u.chunks) + u.buf[HeaderSize..u.cap] + u.input == source;
    } else {
      assert Flatten(u.chunks) + u.input == source;
    }
  }

  /** A data frame written in full: its chunk joins the ones sent. */
  lemma ChunkSent(v: EncoderView, u: EncoderView, source: seq<Byte>, sink: seq<Byte>)
    requires Good(v, source, sink) && v.state == CopyEncoded && v.pos == v.cap
    requires u == v.(state := Read, cap := 0, pos := 0, chunks := v.chunks + [v.buf[HeaderSize..v.cap]])
    ensures Good(u, source, sink)
  {
    var chunk := v.buf[HeaderSize..v.cap];
    assert v.buf[..v.cap] == v.buf[..HeaderSize] + chunk;
    FramesAppend(v.chunks, chunk);
    FlattenAppend(v.chunks, chunk);
  }

  /** The zero-length frame written in full ends the stream. */
  lemma EndSent(v: EncoderView, u: EncoderView, source: seq<Byte>, sink: seq<Byte>)
    requires Good(v, source, sink) && v.state == WriteEof && v.pos == v.cap
    requires u == v.(state := Eof, cap := 0, pos := 0)
    ensures Good(u, source, sink)
  {
  }

  /** Finishing: the writer received the frames of the chunks, each at most 2048 bytes,
      then the zero-length frame; `amt` counts every byte; the frames decode to the chunks
      and, unless `close` cut it short, the chunks are the whole source. */
  lemma EncodeFinished(v: EncoderView, source: seq<Byte>, sink: seq<Byte>)
    requires Good(v, source, sink) && v.state == Eof
    ensures Bounded(v.chunks) && AllSendable(v.chunks)
    ensures v.written == sink + Frames(v.chunks) + ZeroHeader && v.amt + |sink| == |v.written|
    ensures Deframe(v.written[|sink|..]) == Ok(Flatten(v.chunks))
    ensures Flatten(v.chunks) + v.input == source
    ensures !v.closing ==> Flatten(v.chunks) == source
  {
    DeframeClosed(v.chunks, []);
    assert v.written[|sink|..] == Frames(v.chunks) + ZeroHeader + [];
    if !v.closing {
      assert Flatten(v.chunks) + [] == Flatten(v.chunks);
    }
  }

  class TunnelCopyEncode {
    var r: Reader
    var w: Writer
    var buf: seq<Byte>
    var cap: nat
    var pos: nat
    var state: EncodeState
    var amt: nat
    var closing: bool

    /** What the reader held and the writer had received when the encoder was made. */
    ghost const source: seq<Byte>
    ghost const sink: seq<Byte>
    /** The payloads whose frames were written in full so far. */
    ghost var chunks: seq<seq<Byte>>

    ghost function View(): EncoderView
      reads this
    {
      EncoderView(state, r.input, w.written, buf, cap, pos, amt, closing, chunks)
    }

    ghost predicate Valid()
      reads this
    {
      Good(View(), source, sink)
    }

    /** `TunnelCopyEncode::new`. */
    constructor (r: Reader, w: Writer)
      ensures Valid()
      ensures this.r == r && this.w == w && |buf| == BufferSize
      ensures state == EncodeState.Read && cap == 0 && pos == 0 && amt == 0 && !closing
      ensures source == r.input && sink == w.written && chunks == []
    {
      this.r := r;
      this.w := w;
      buf := seq(BufferSize, _ => 0);
      cap, pos, amt := 0, 0, 0;
      state := EncodeState.Read;
      closing := false;
      source := r.input;
      sink := w.written;
      chunks := [];
    }

    /** The part of `read` that reads: one `read` into `buf[4..]`, the count written
        into `buf[0..4]`, `cap = n + 4`; 0 bytes (end of the source) moves to `WriteEof`,
        anything else to `CopyEncoded`. */
    method ReadSource() returns (p: Poll<()>)
      requires Valid() && state == EncodeState.Read
      modifies this`r, this`buf, this`cap, this`pos, this`state
      ensures Valid() && |r.plan| <= |old(r.plan)| && |r.input| <= |old(r.input)|
      ensures p.Ready? ==> pos == 0 && HeaderSize <= cap <= BufferSize && buf[..HeaderSize] == U32Bytes(cap - HeaderSize)
      ensures p.Ready? ==> old(r.input) == buf[HeaderSize..cap] + r.input
      ensures p.Ready? ==> (state == EncodeState.WriteEof <==> cap == HeaderSize)
      ensures p.Ready? && cap == HeaderSize ==> state == EncodeState.WriteEof && r.input == []
      ensures p.Ready? && cap != HeaderSize ==> state == EncodeState.CopyEncoded && |r.input| < |old(r.input)|
      ensures !p.Ready? ==> state == EncodeState.Read
      ensures Within(r.plan, old(r.plan))
      ensures p == NotReady ==> |r.plan| < |old(r.plan)| && ReadBlocks in old(r.plan)
      ensures p.Err? ==> p.error == Transport && ReadFails in old(r.plan)
    {
      var step := r.Read(|buf| - HeaderSize);
      ghost var v := View();
      r := step.1;
      if !step.0.Ready? {
        return Stalled(step.0);
      }
      var data := step.0.value;
      buf, cap, pos := Encoded(buf, data), HeaderSize + |data|, 0;
      state := if data == [] then EncodeState.WriteEof else EncodeState.CopyEncoded;
      Refilled(v, data, View(), source, sink);
      return Ready(());
    }

    /** `read`: when closing, prepares the zero-length frame (corrected: `cap = 4`, so
        that the frame is written; see `ReadAsWritten`); otherwise reads the next chunk. */
    method Read() returns (p: Poll<()>)
      requires Valid() && state == EncodeState.Read
      modifies this`r, this`buf, this`cap, this`pos, this`state
      ensures Valid() && |r.plan| <= |old(r.plan)| && |r.input| <= |old(r.input)|
      ensures closing ==> p == Ready(()) && state == EncodeState.WriteEof && unchanged(this`r)
      ensures p.Ready? ==> pos == 0 && HeaderSize <= cap <= BufferSize && buf[..HeaderSize] == U32Bytes(cap - HeaderSize)
      ensures p.Ready? ==> (state == EncodeState.WriteEof <==> cap == HeaderSize)
      ensures p.Ready? && state == EncodeState.CopyEncoded ==> |r.input| < |old(r.input)|
      ensures !p.Ready? ==> state == EncodeState.Read
      ensures Within(r.plan, old(r.plan))
      ensures p == NotReady ==> |r.plan| < |old(r.plan)| && ReadBlocks in old(r.plan)
      ensures p.Err? ==> p.error == Transport && ReadFails in old(r.plan)
    {
      if closing && state != EncodeState.Eof {
        ghost var v := View();
        buf, state, cap, pos := Encoded(buf, []), EncodeState.WriteEof, HeaderSize, 0;
        EndFrame(v, View(), source, sink);
        return Ready(());
      }
      p := ReadSource();
    }

    /** `read` as the source has it: the closing branch sets `cap = 0`, so the zero-length
        frame it prepared is never written (`copy_encoded` finds `pos == cap` at once). */
    method ReadAsWritten() returns (p: Poll<()>)
      requires Valid() && state == EncodeState.Read
      modifies this`r, this`buf, this`cap, this`pos, this`state
      ensures closing ==> p == Ready(()) && state == EncodeState.WriteEof && unchanged(this`r)
      ensures |buf| == BufferSize && (closing ==> buf[..HeaderSize] == ZeroHeader && cap == 0 && pos == cap)
      ensures !closing ==> Valid()
      ensures p == NotReady ==> ReadBlocks in old(r.plan)
      ensures p.Err? ==> p.error == Transport && ReadFails in old(r.plan)
    {
      if closing && state != EncodeState.Eof {
        assert U32Bytes(0) == ZeroHeader;
        buf, state, cap, pos := Encoded(buf, []), EncodeState.WriteEof, 0, 0;
        return Ready(());
      }
      p := ReadSource();
    }

    /** One `write` of `buf[pos..cap]`: `Ready(n)` with `pos` and `amt` advanced by the
        `n` bytes the writer took. */
    method WriteFrameBytes() returns (p: Poll<nat>)
      requires Valid() && (state == EncodeState.CopyEncoded || state == EncodeState.WriteEof) && pos < cap
      modifies this`w, this`pos, this`amt
      ensures Valid()
      ensures old(pos) <= pos && amt == old(amt) + (pos - old(pos))
      ensures w.written == old(w.written) + buf[old(pos)..pos]
      ensures |w.plan| <= |old(w.plan)| && Within(w.plan, old(w.plan))
      ensures p.Ready? ==> pos == old(pos) + p.value
      ensures p == Ready(0) <==> old(w.plan) != [] && old(w.plan)[0] == Accept(0)
      ensures !p.Ready? ==> pos == old(pos)
      ensures p == NotReady ==> |w.plan| < |old(w.plan)| && WriteBlocks in old(w.plan)
      ensures p.Err? ==> p.error == Transport && WriteFails in old(w.plan)
    {
      var step := w.Write(buf[pos..cap]);
      ghost var v := View();
      w := step.1;
      if step.0.Ready? {
        var n := step.0.value;
        pos, amt := pos + n, amt + n;
        FrameBytesWritten(v, n, View(), source, sink);
        p := Ready(n);
      } else {
        assert buf[pos..pos] == [];
        p := Stalled(step.0);
      }
    }

    /** `copy_encoded(to_state)`: writes `buf[pos..cap]` to the writer, counting every
        byte in `amt`, then moves to `to_state` with both cursors reset. */
    method CopyEncoded(toState: EncodeState) returns (p: Poll<()>)
      requires Valid()
      requires (state == EncodeState.CopyEncoded && toState == EncodeState.Read) ||
               (state == EncodeState.WriteEof && toState == EncodeState.Eof)
      modifies this`w, this`pos, this`amt, this`state, this`cap, this`chunks
      ensures Valid() && |w.plan| <= |old(w.plan)|
      ensures p.Ready? ==> state == toState && cap == 0 && pos == 0
      ensures p.Ready? ==> w.written == old(w.written) + old(buf[pos..cap]) && amt == old(amt) + old(cap - pos)
      ensures p.Ready? && toState == EncodeState.Read ==> chunks == old(chunks) + [old(buf[HeaderSize..cap])]
      ensures p.Ready? && toState == EncodeState.Eof ==> unchanged(this`chunks)
      ensures !p.Ready? ==> state == old(state) && unchanged(this`chunks)
      ensures Within(w.plan, old(w.plan))
      ensures p == NotReady ==> |w.plan| < |old(w.plan)| && WriteBlocks in old(w.plan)
      ensures p == Err(Transport) ==> WriteFails in old(w.plan)
      ensures p == Err(UnexpectedEof) ==> Accept(0) in old(w.plan)
      ensures old(w.plan) != [] && old(w.plan)[0] == Accept(0) && old(pos) < old(cap) ==> p == Err(UnexpectedEof)
    {
      while pos < cap
        invariant Valid() && state == old(state)
        invariant old(pos) <= pos && w.written == old(w.written) + buf[old(pos)..pos] && amt == old(amt) + (pos - old(pos))
        invariant |w.plan| <= |old(w.plan)| && Within(w.plan, old(w.plan))
        invariant pos == old(pos) ==> w.plan == old(w.plan)
        invariant old(w.plan) != [] && old(w.plan)[0] == Accept(0) ==> pos == old(pos)
        modifies this`w, this`pos, this`amt
        decreases cap - pos
      {
        ghost var at := pos;
        var n := WriteFrameBytes();
        if !n.Ready? {
          return Stalled(n);
        }
        if n.value == 0 {
          return Err(UnexpectedEof);
        }
        SliceGrows(old(w.written), buf, old(pos), at, pos);
      }
      FrameSent(toState);
      return Ready(());
    }

    /** The end of `copy_encoded`, once the whole frame is written: `state = to_state`,
        `cap = pos = 0`; a data frame's chunk joins the ones sent. */
    method FrameSent(toState: EncodeState)
      requires Valid() && pos == cap
      requires (state == EncodeState.CopyEncoded && toState == EncodeState.Read) ||
               (state == EncodeState.WriteEof && toState == EncodeState.Eof)
      modifies this`pos, this`state, this`cap, this`chunks
      ensures Valid() && state == toState && cap == 0 && pos == 0
      ensures toState == EncodeState.Read ==> chunks == old(chunks) + [buf[HeaderSize..old(cap)]]
      ensures toState == EncodeState.Eof ==> unchanged(this`chunks)
    {
      ghost var v := View();
      if toState == EncodeState.Read {
        chunks := chunks + [buf[HeaderSize..cap]];
        state, cap, pos := toState, 0, 0;
        ChunkSent(v, View(), source, sink);
      } else {
        state, cap, pos := toState, 0, 0;
        EndSent(v, View(), source, sink);
      }
    }

    /** `close`: asks the encoder to end the stream with the zero-length frame; an encoder
        already at `Eof` is left as it is. */
    method Close()
      requires Valid()
      modifies this`closing
      ensures Valid()
      ensures old(state) == EncodeState.Eof ==> unchanged(this)
      ensures old(state) != EncodeState.Eof ==> closing
    {
      if state == EncodeState.Eof {
        return;
      }
      closing := true;
    }

    /** One turn of `poll`'s loop: the step for the current state. */
    method Step() returns (s: Poll<()>)
      requires Valid() && state != EncodeState.Eof
      modifies this`r, this`w, this`buf, this`cap, this`pos, this`amt, this`state, this`chunks
      ensures Valid()
      ensures |r.plan| <= |old(r.plan)| && |w.plan| <= |old(w.plan)|
      ensures s.Ready? ==> |r.input| < |old(r.input)| || (|r.input| == |old(r.input)| && Rank(state) < Rank(old(state)))
      ensures Within(r.plan, old(r.plan)) && Within(w.plan, old(w.plan))
      ensures s == NotReady ==> |r.plan| + |w.plan| < |old(r.plan)| + |old(w.plan)|
      ensures s == NotReady ==> ReadBlocks in old(r.plan) || WriteBlocks in old(w.plan)
      ensures s == Err(Transport) ==> ReadFails in old(r.plan) || WriteFails in old(w.plan)
      ensures s == Err(UnexpectedEof) ==> Accept(0) in old(w.plan)
    {
      if state == EncodeState.Read {
        s := Read();
      } else if state == EncodeState.CopyEncoded {
        s := CopyEncoded(EncodeState.Read);
      } else {
        s := CopyEncoded(EncodeState.Eof);
      }
    }

    /** `poll`: runs the state machine until it finishes (`Eof`: flush, then the byte
        count), has to wait, or fails. */
    method Poll() returns (p: Poll<nat>)
      requires Valid()
      modifies this`r, this`w, this`buf, this`cap, this`pos, this`amt, this`state, this`chunks
      ensures Valid()
      ensures |r.plan| <= |old(r.plan)| && |w.plan| <= |old(w.plan)|
      ensures p.Ready? ==> state == EncodeState.Eof && p.value == amt && amt + |sink| == |w.written|
      ensures p.Ready? ==> w.written == sink + Frames(chunks) + ZeroHeader && Bounded(chunks)
      ensures p.Ready? ==> Deframe(w.written[|sink|..]) == Ok(Flatten(chunks)) && Flatten(chunks) + r.input == source
      ensures p.Ready? && !closing ==> Flatten(chunks) == source
      ensures Within(r.plan, old(r.plan)) && Within(w.plan, old(w.plan))
      ensures p == NotReady ==> |r.plan| + |w.plan| < |old(r.plan)| + |old(w.plan)|
      ensures p == NotReady ==> ReadBlocks in old(r.plan) || WriteBlocks in old(w.plan)
      ensures p == Err(Transport) ==> ReadFails in old(r.plan) || WriteFails in old(w.plan)
      ensures p == Err(UnexpectedEof) ==> Accept(0) in old(w.plan)
      ensures old(state) == EncodeState.Eof ==> state == EncodeState.Eof && amt == old(amt) && r == old(r)
      ensures old(state) == EncodeState.Eof ==> w.written == old(w.written) && chunks == old(chunks)
    {
      while state != EncodeState.Eof
        invariant Valid()
        invariant |r.plan| <= |old(r.plan)| && |w.plan| <= |old(w.plan)|
        invariant Within(r.plan, old(r.plan)) && Within(w.plan, old(w.plan))
        invariant old(state) == EncodeState.Eof ==> state == EncodeState.Eof && amt == old(amt) && r == old(r)
        invariant old(state) == EncodeState.Eof ==> w.written == old(w.written) && chunks == old(chunks)
        modifies this`r, this`w, this`buf, this`cap, this`pos, this`amt, this`state, this`chunks
        decreases |r.input|, Rank(state)
      {
        var s := Step();
        if !s.Ready? {
          return Stalled(s);
        }
      }

      var flushed := w.Flush();
      w := flushed.1;
      if !flushed.0.Ready? {
        return Stalled(flushed.0);
      }
      EncodeFinished(View(), source, sink);
      return Ready(amt);
    }
  }

  /** `copy_encode`: an encoder from `r` to `w`, ready to poll. */
  method CopyEncode(r: Reader, w: Writer) returns (e: TunnelCopyEncode)
    ensures fresh(e) && e.Valid()
    ensures e.r == r && e.w == w && e.state == Read && e.amt == 0 && !e.closing
    ensures e.source == r.input && e.sink == w.written
  {
    e := new TunnelCopyEncode(r, w);
  }

  /** An empty source, closed before the first `poll`, with the source's `read`: the
      frame loop that follows has nothing to write (`buf[pos..cap]` is empty), so the
      zero-length frame never reaches the peer. */
  method ClosedAsWritten() returns (sent: seq<Byte>)
    ensures sent == []
  {
    var e := new TunnelCopyEncode(Reader([], []), Writer([], []));
    e.Close();
    var _ := e.ReadAsWritten();
    sent := e.buf[e.pos..e.cap];
  }

  /** The same encoder with the corrected `read`: `poll` writes the zero-length frame. */
  method ClosedCorrected() returns (sent: seq<Byte>)
    ensures sent == ZeroHeader
  {
    var e := new TunnelCopyEncode(Reader([], []), Writer([], []));
    e.Close();
    assert e.r.plan == [] && e.w.plan == [];
    var p := e.Poll();
    assert p.Err? ==> p.error == Transport || p.error == UnexpectedEof;
    assert p.Ready?;
    FlattenEmpty(e.chunks);
    sent := e.w.written;
  }
}
