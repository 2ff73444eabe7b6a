/** The byte-stream endpoints the codec runs between, and the `Poll` convention of the
    `futures` crate it is written against.

    A reader or writer is driven by a plan: one step per call, saying whether the call
    transfers bytes (and at most how many), would block, or fails. Once the plan is used
    up, a read returns as many bytes as fit and a write takes everything offered. This
    makes every interleaving of partial transfers, `WouldBlock` and transport errors an
    input of the model. */
module Io {
  import opened Bytes

  /** `io::ErrorKind`s the codec can return: the codec's own `UnexpectedEof`, or an
      error of the underlying transport, passed on unchanged. */
  datatype IoError = UnexpectedEof | Transport

  /** `Poll<T, io::Error>`: finished with a value, not ready yet (`WouldBlock`), or failed. */
  datatype Poll<T> = Ready(value: T) | NotReady | Err(error: IoError)

  /** Outcome of a pure decoding: a value or an error. */
  datatype Result<T> = Ok(value: T) | Failure(error: IoError)

  /** A read or write that did not complete, passed on as `try_nb!` does. */
  function Stalled<T, U>(p: Poll<T>): (q: Poll<U>)
    requires !p.Ready?
    ensures q == NotReady <==> p == NotReady
    ensures q.Err? <==> p.Err?
    ensures q.Err? ==> q.error == p.error
  {
    if p.NotReady? then NotReady else Err(p.error)
  }

  type Positive = k: nat | k >= 1 witness 1

  /** How one `read` call behaves: returns at most `limit` bytes, returns `WouldBlock`, or fails. */
  datatype ReadStep = Deliver(limit: Positive) | ReadBlocks | ReadFails

  /** How one `write` (or `flush`) call behaves: takes at most `limit` bytes, returns
      `WouldBlock`, or fails. `Accept(0)` is a write that returns `Ok(0)`. */
  datatype WriteStep = Accept(limit: nat) | WriteBlocks | WriteFails

  function Min(a: nat, b: nat): nat
  {
    if a <= b then a else b
  }

  /** Every step left in `plan` is one of the steps of `from`: `plan` is what remains
      of `from` after some calls. */
  ghost predicate Within<T>(plan: seq<T>, from: seq<T>)
  {
    forall s :: s in plan ==> s in from
  }

  function Rest<T>(plan: seq<T>): (r: seq<T>)
    ensures |r| == if plan == [] then 0 else |plan| - 1
    ensures Within(r, plan)
  {
    if plan == [] then [] else plan[1..]
  }

  /** The outcome of a read into `room` free bytes when the stream still holds `available` bytes.
      A read returns 0 exactly when there is no room or the stream is exhausted. */
  function Granted(plan: seq<ReadStep>, room: nat, available: nat): (p: Poll<nat>)
    ensures p.Ready? ==> p.value <= room && p.value <= available
    ensures p.Ready? ==> (p.value == 0 <==> room == 0 || available == 0)
    ensures p == NotReady <==> plan != [] && plan[0] == ReadBlocks
    ensures p == Err(Transport) <==> plan != [] && plan[0] == ReadFails
    ensures p.Ready? || p == NotReady || p == Err(Transport)
    ensures plan == [] ==> p == Ready(Min(room, available))
  {
    if plan == [] then Ready(Min(room, available))
    else match plan[0]
      case Deliver(limit) => Ready(Min(limit, Min(room, available)))
      case ReadBlocks => NotReady
      case ReadFails => Err(Transport)
  }

  /** The outcome of a write offered `offered` bytes. A write of a non-empty slice
      returns 0 only under an `Accept(0)` step. */
  function Accepted(plan: seq<WriteStep>, offered: nat): (p: Poll<nat>)
    ensures p.Ready? ==> p.value <= offered
    ensures p.Ready? && p.value == 0 && offered > 0 ==> plan != [] && plan[0] == Accept(0)
    ensures plan != [] && plan[0] == Accept(0) ==> p == Ready(0)
    ensures p == NotReady <==> plan != [] && plan[0] == WriteBlocks
    ensures p == Err(Transport) <==> plan != [] && plan[0] == WriteFails
    ensures p.Ready? || p == NotReady || p == Err(Transport)
  {
    if plan == [] then Ready(offered)
    else match plan[0]
      case Accept(limit) => Ready(Min(limit, offered))
      case WriteBlocks => NotReady
      case WriteFails => Err(Transport)
  }

  /** The source side: an `io::Read` over the bytes not yet delivered. The codec owns
      it by value, as the Rust structs own their `r: R`. */
  datatype Reader = Reader(input: seq<Byte>, plan: seq<ReadStep>) {

    /** `read` into a slice of `room` bytes: what the call returns (the bytes it copied
        into the slice) and the reader afterwards. */
    function Read(room: nat): (res: (Poll<seq<Byte>>, Reader))
      ensures res.1.plan == Rest(plan)
      ensures res.0.Ready? ==> |res.0.value| <= room && |res.0.value| <= |input|
      ensures res.0.Ready? ==> res.0.value + res.1.input == input
      ensures res.0.Ready? ==> (res.0.value == [] <==> room == 0 || input == [])
      ensures plan == [] ==> res.0.Ready? && |res.0.value| == Min(room, |input|)
      ensures !res.0.Ready? ==> res.1.input == input
      ensures res.0 == NotReady <==> plan != [] && plan[0] == ReadBlocks
      ensures res.0.Err? <==> plan != [] && plan[0] == ReadFails
      ensures res.0.Err? ==> res.0.error == Transport
    {
      match Granted(plan, room, |input|)
      case Ready(n) => (Ready(input[..n]), Reader(input[n..], Rest(plan)))
      case NotReady => (NotReady, Reader(input, Rest(plan)))
      case Err(e) => (Err(e), Reader(input, Rest(plan)))
    }
  }

  /** The sink side: an `io::Write` that appends what it takes to `written`, owned by value. */
  datatype Writer = Writer(written: seq<Byte>, plan: seq<WriteStep>) {

    /** `write(data)`: takes a prefix of the slice offered. */
    function Write(data: seq<Byte>): (res: (Poll<nat>, Writer))
      ensures res.1.plan == Rest(plan)
      ensures res.0.Ready? ==> res.0.value <= |data| && res.1.written == written + data[..res.0.value]
      ensures res.0.Ready? && res.0.value == 0 && data != [] ==> plan != [] && plan[0] == Accept(0)
      ensures plan != [] && plan[0] == Accept(0) ==> res.0 == Ready(0)
      ensures !res.0.Ready? ==> res.1.written == written
      ensures res.0 == NotReady <==> plan != [] && plan[0] == WriteBlocks
      ensures res.0.Err? <==> plan != [] && plan[0] == WriteFails
      ensures res.0.Err? ==> res.0.error == Transport
    {
      match Accepted(plan, |data|)
      case Ready(n) => (Ready(n), Writer(written + data[..n], Rest(plan)))
      case NotReady => (NotReady, Writer(written, Rest(plan)))
      case Err(e) => (Err(e), Writer(written, Rest(plan)))
    }

    /** `flush()`: consumes one step; only a blocking or failing step keeps it from succeeding. */
    function Flush(): (res: (Poll<()>, Writer))
      ensures res.1 == Writer(written, Rest(plan))
      ensures res.0 == NotReady <==> plan != [] && plan[0] == WriteBlocks
      ensures res.0.Err? <==> plan != [] && plan[0] == WriteFails
      ensures res.0.Err? ==> res.0.error == Transport
    {
      var step := if plan == [] then Accept(0) else plan[0];
      var p: Poll<()> := match step
        case Accept(_) => Ready(())
        case WriteBlocks => NotReady
        case WriteFails => Err(Transport);
      (p, Writer(written, Rest(plan)))
    }
  }
}
