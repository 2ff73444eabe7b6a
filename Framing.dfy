/** The tunnel wire format: each frame is a 4-byte little-endian length followed by
    that many payload bytes; a length of 0 marks the end of the stream. This module
    states what a well-formed frame stream means, independently of the two state
    machines that produce and consume it. */
module Framing {
  import opened Bytes
  import opened Io

  /** Size of the length prefix. */
  const HeaderSize: nat := 4

  /** The end-of-stream frame: length 0, no payload. */
  const ZeroHeader: seq<Byte> := [0, 0, 0, 0]

  /** A payload the wire can carry as a data frame: non-empty, length fits in a `u32`. */
  predicate Sendable(p: seq<Byte>)
  {
    1 <= |p| < U32Limit
  }

  predicate AllSendable(ps: seq<seq<Byte>>)
  {
    forall i :: 0 <= i < |ps| ==> Sendable(ps[i])
  }

  function Frame(p: seq<Byte>): (f: seq<Byte>)
    requires Sendable(p)
    ensures |f| == HeaderSize + |p|
  {
    U32Bytes(|p|) + p
  }

  /** The data frames carrying `ps`, in order. */
  function Frames(ps: seq<seq<Byte>>): seq<Byte>
    requires AllSendable(ps)
  {
    if ps == [] then [] else Frame(ps[0]) + Frames(ps[1..])
  }

  /** The payloads, concatenated. */
  function Flatten(ps: seq<seq<Byte>>): seq<Byte>
  {
    if ps == [] then [] else ps[0] + Flatten(ps[1..])
  }

  /** Frames carry at least one byte each, so no bytes means no frames. */
  lemma FlattenEmpty(ps: seq<seq<Byte>>)
    requires AllSendable(ps)
    ensures Flatten(ps) == [] <==> ps == []
  {
  }

  /** Adds `prefix` in front of a decoded payload; errors pass through. */
  function Prepend(prefix: seq<Byte>, r: Result<seq<Byte>>): Result<seq<Byte>>
  {
    match r
    case Ok(p) => Ok(prefix + p)
    case Failure(e) => Failure(e)
  }

  /** The payload a frame stream stands for. It ends at the first zero-length frame
      (ignoring whatever follows) or, gracefully, where the stream ends on a frame
      boundary; a stream cut inside a header or a payload is an `UnexpectedEof`. */
  function Deframe(wire: seq<Byte>): Result<seq<Byte>>
    decreases |wire|
  {
    if wire == [] then Ok([])
    else if |wire| < HeaderSize then Failure(UnexpectedEof)
    else
      var n := ReadU32(wire[..HeaderSize]);
      if n == 0 then Ok([])
      else if |wire| - HeaderSize < n then Failure(UnexpectedEof)
      else Prepend(wire[HeaderSize..HeaderSize + n], Deframe(wire[HeaderSize + n..]))
  }

  lemma {:induction false} FramesAppend(ps: seq<seq<Byte>>, p: seq<Byte>)
    requires AllSendable(ps) && Sendable(p)
    ensures AllSendable(ps + [p])
    ensures Frames(ps + [p]) == Frames(ps) + Frame(p)
  {
    var qs := ps + [p];
    assert forall i :: 0 <= i < |ps| ==> qs[i] == ps[i];
    assert qs[|ps|] == p;
    if ps == [] {
      assert qs[1..] == [];
    } else {
      assert qs[1..] == ps[1..] + [p];
      FramesAppend(ps[1..], p);
      calc {
        Frames(qs);
        Frame(ps[0]) + Frames(ps[1..] + [p]);
        Frame(ps[0]) + (Frames(ps[1..]) + Frame(p));
        Frames(ps) + Frame(p);
      }
    }
  }

  lemma {:induction false} FlattenAppend(ps: seq<seq<Byte>>, p: seq<Byte>)
    ensures Flatten(ps + [p]) == Flatten(ps) + p
  {
    if ps == [] {
      assert [p][1..] == [];
    } else {
      assert (ps + [p])[1..] == ps[1..] + [p];
      FlattenAppend(ps[1..], p);
    }
  }

  /** A data frame in front of any stream contributes exactly its payload. */
  lemma DeframeFrame(p: seq<Byte>, rest: seq<Byte>)
    requires Sendable(p)
    ensures Deframe(Frame(p) + rest) == Prepend(p, Deframe(rest))
  {
    var wire := Frame(p) + rest;
    assert wire[..HeaderSize] == U32Bytes(|p|);
    ReadU32OfU32Bytes(|p|);
    assert wire[HeaderSize..HeaderSize + |p|] == p;
    assert wire[HeaderSize + |p|..] == rest;
  }

  /** Complete data frames in front of any stream contribute their payloads, in order. */
  lemma {:induction false} DeframeFrames(ps: seq<seq<Byte>>, rest: seq<Byte>)
    requires AllSendable(ps)
    ensures Deframe(Frames(ps) + rest) == Prepend(Flatten(ps), Deframe(rest))
  {
    if ps == [] {
      assert Frames(ps) + rest == rest;
      match Deframe(rest) {
        case Ok(q) => assert [] + q == q;
        case Failure(_) =>
      }
    } else {
      var tail := Frames(ps[1..]) + rest;
      DeframeFrames(ps[1..], rest);
      assert Frames(ps) == Frame(ps[0]) + Frames(ps[1..]);
      assert Frames(ps) + rest == Frame(ps[0]) + tail;
      DeframeFrame(ps[0], tail);
      PrependTwice(ps[0], Flatten(ps[1..]), Deframe(rest));
      assert Flatten(ps) == ps[0] + Flatten(ps[1..]);
    }
  }

  /** Two prefixes added one after the other are one prefix. */
  lemma PrependTwice(a: seq<Byte>, b: seq<Byte>, r: Result<seq<Byte>>)
    ensures Prepend(a, Prepend(b, r)) == Prepend(a + b, r)
  {
    if r.Ok? {
      assert a + (b + r.value) == a + b + r.value;
    }
  }

  /** The zero-length frame ends the stream: nothing after it is read. */
  lemma DeframeClosed(ps: seq<seq<Byte>>, rest: seq<Byte>)
    requires AllSendable(ps)
    ensures Deframe(Frames(ps) + ZeroHeader + rest) == Ok(Flatten(ps))
  {
    var tail := ZeroHeader + rest;
    assert tail[..HeaderSize] == U32Bytes(0);
    ReadU32OfU32Bytes(0);
    assert Deframe(tail) == Ok([]);
    assert Frames(ps) + ZeroHeader + rest == Frames(ps) + tail;
    DeframeFrames(ps, tail);
    assert Flatten(ps) + [] == Flatten(ps);
  }

  /** A stream that stops right after a complete frame ends gracefully. */
  lemma DeframeExhausted(ps: seq<seq<Byte>>)
    requires AllSendable(ps)
    ensures Deframe(Frames(ps)) == Ok(Flatten(ps))
  {
    assert Frames(ps) + [] == Frames(ps);
    DeframeFrames(ps, []);
    assert Flatten(ps) + [] == Flatten(ps);
  }

  /** A stream cut after 1 to 3 bytes of a length prefix is an `UnexpectedEof`. */
  lemma DeframeCutHeader(ps: seq<seq<Byte>>, partial: seq<Byte>)
    requires AllSendable(ps)
    requires 1 <= |partial| < HeaderSize
    ensures Deframe(Frames(ps) + partial) == Failure(UnexpectedEof)
  {
    DeframeFrames(ps, partial);
  }

  /** A stream cut inside the payload of a frame of length `n` is an `UnexpectedEof`. */
  lemma DeframeCutBody(ps: seq<seq<Byte>>, n: nat, partial: seq<Byte>)
    requires AllSendable(ps)
    requires 1 <= n < U32Limit && |partial| < n
    ensures Deframe(Frames(ps) + U32Bytes(n) + partial) == Failure(UnexpectedEof)
  {
    var tail := U32Bytes(n) + partial;
    assert tail[..HeaderSize] == U32Bytes(n);
    ReadU32OfU32Bytes(n);
    assert Frames(ps) + U32Bytes(n) + partial == Frames(ps) + tail;
    DeframeFrames(ps, tail);
  }
}
