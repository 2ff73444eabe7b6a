# sskcp-proxy tunnel codec, in Dafny

This project models the core of sskcp-proxy: the tunnel framing codec and the small
configuration values around it. sskcp-proxy carries TCP connections over KCP, a
reliable transport that runs on UDP.

- **The frame format** (`Framing`). A stream is cut into frames. Each frame is a 4-byte
  little-endian length followed by that many payload bytes. A length of 0 is the
  end-of-stream signal. `Deframe` is the reference reading of a byte stream as frames.
  A stream that stops on a frame boundary ends gracefully. One that stops inside a header
  or a payload is an `UnexpectedEof`.
- **`TunnelCopyDecode`** (`Decode`). A class with the Rust struct's fields and its state
  machine `ReadLength -> Read -> ReadDone -> ReadLength ... -> Eof`. It reads frames from
  a reader and writes their payloads to a writer.
- **`TunnelCopyEncode`** (`Encode`). A class with the Rust struct's fields and its state
  machine `Read -> CopyEncoded -> Read ... -> WriteEof -> Eof`. It reads chunks of at
  most 2048 bytes and writes each chunk as a frame, then writes the zero-length frame.
- **The reader and writer** (`Io`). They are values owned by the codec, as the Rust
  structs own `r` and `w`. Each `read`, `write` or `flush` call uses up one step of a
  *plan*. A step transfers at most some number of bytes, would block (`NotReady`), or
  fails. An empty plan transfers everything that fits. So every interleaving of partial
  transfers, `WouldBlock` and transport errors is an input of the model.
- **Each codec's invariant.** It is stated over a snapshot of its fields (`DecoderView`,
  `EncoderView`) together with ghost history: the bytes taken so far, and the frames or
  chunks completed so far.
  - `Poll` keeps the invariant.
  - When `Poll` finishes, the writer holds exactly what the frame format says it should.
  - `Poll` returns `NotReady` only after using up a plan step, and only when a step
    that blocks was in the plan.
  - `Poll` fails with a transport error only when a failing step was in the plan. It
    fails with `UnexpectedEof` only on a zero-byte write step or, for the decoder, on a
    cut frame.
  - `Poll` on a codec already at `Eof` changes nothing and returns the same count.
- **Back to back** (`Loopback`). The encoder's output is fed to a decoder. The decoder
  delivers the original bytes. When no plan holds a failing step or a zero-byte write
  step, the run always gets there, however the transfers are split and however often
  they block.
- **`ServerAddr`** (`Config`): `from_str`, `host`, `port` and the `host:port` text form.
- **`PluginOpts`** (`Opt`): `has_kcp_config` and `has_kcp_nodelay_config`.

## Model

| member | source | states |
|---|---|---|
| Bytes.ReadU32 | src/protocol.rs:95 | the 4 header bytes read as a little-endian u32 give a number below 2^32, and writing that number back gives the same 4 bytes |
| Bytes.U32Bytes | src/protocol.rs:229 | `write_u32` stores exactly 4 bytes |
| Bytes.ReadU32OfU32Bytes | src/protocol.rs:229 | reading back a header written for `n` gives `n` |
| Bytes.U32BytesInjective | src/protocol.rs:229 | different lengths get different headers |
| Io.Stalled | src/protocol.rs:82 | `try_nb!` passes on a read or write that did not complete: `WouldBlock` becomes `NotReady`, and an error keeps its kind |
| Io.Reader.Read | src/protocol.rs:82 | a read returns a prefix of the remaining input that fits the slice. It returns 0 bytes exactly when the slice is empty or the input is exhausted. `WouldBlock` and errors leave the input untouched |
| Io.Writer.Write | src/protocol.rs:130 | a write appends a prefix of the offered bytes to what the writer holds. It accepts 0 bytes of a non-empty slice exactly under a zero-write step (`Accept(0)`). It is `NotReady` exactly under a blocking step and fails exactly under a failing step |
| Io.Writer.Flush | src/protocol.rs:162 | a flush leaves the written bytes as they are and can only block or fail |
| Framing.Frame | src/protocol.rs:5-9 | a frame is the 4 length bytes followed by the payload |
| Framing.DeframeFrame | src/protocol.rs:5-9 | a data frame in front of any stream contributes exactly its payload, in front of whatever the rest decodes to |
| Framing.DeframeFrames | src/protocol.rs:5-9 | a sequence of complete data frames contributes the concatenation of their payloads, in order |
| Framing.DeframeClosed | src/protocol.rs:11 | the zero-length frame ends the stream: it decodes to the payloads before it, whatever follows |
| Framing.DeframeExhausted | src/protocol.rs:83-88 | a stream that stops right after a complete frame decodes to its payloads |
| Framing.DeframeCutHeader | src/protocol.rs:83-89 | a stream that stops after 1 to 3 header bytes is an `UnexpectedEof` |
| Framing.DeframeCutBody | src/protocol.rs:114-118 | a stream that stops inside a payload is an `UnexpectedEof` |
| Decode.Grow | src/protocol.rs:105-107 | the buffer is resized to `data_length` only when smaller: afterwards it holds at least `data_length` bytes, it never shrinks, and its old contents are kept |
| Decode.Store | src/protocol.rs:82 | a read into `buf[at..]` puts the bytes read right after `buf[..at]` |
| Decode.HeaderBytes | src/protocol.rs:81-93 | header bytes read so far are the bytes taken from the reader after the last complete frame |
| Decode.PayloadBytes | src/protocol.rs:113-121 | payload bytes read so far are the bytes taken after the header |
| Decode.HeaderEnds | src/protocol.rs:75-88 | closing, or running out of input, with no header byte read moves to `Eof` with everything delivered |
| Decode.HeaderDone | src/protocol.rs:95-110 | a complete header of length 0 is the end of the stream. Any other length starts a payload of that length, in a buffer grown to hold it |
| Decode.PayloadDone | src/protocol.rs:123-125 | a complete payload moves to `ReadDone` with `pos` 0 |
| Decode.PayloadWritten | src/protocol.rs:129-135 | when the writer accepts the next `chunk` of `buf[pos..cap]`, advancing `pos` and `amt` by its length keeps the decoder invariant |
| Decode.FrameDone | src/protocol.rs:138-141 | a payload written in full joins the delivered frames, and the decoder is back at `ReadLength` with `cap == pos == 0` |
| Decode.Finished | src/protocol.rs:161-165 | at `Eof` the writer has received exactly the payloads, and `amt` is their total length. The bytes taken decode to those payloads, and, unless `close` stopped the decoder, so does the whole input |
| Decode.CutShort | src/protocol.rs:81-118 | running out of input inside a header or a payload means the input is a cut frame stream |
| Decode.OverreadWitness | src/protocol.rs:115 | with the next frame already available, a read into `buf[cap..]` takes the next frame's bytes along with the 1-byte payload. A read bounded by the frame length takes the payload alone |
| Decode.FirstHeaderOfOne | src/protocol.rs:95-110 | `read_length` on a fresh decoder whose input starts with the header `01 00 00 00`, once ready, is at `Read` with `data_length == 1`, and it has taken exactly the 4 header bytes |
| Decode.OverreadHeader | src/protocol.rs:74-111 | a fresh decoder over `01 00 00 00 61 00 00 00 00`, with a reader that delivers all it has: `read_length` takes the header, leaving `data_length == 1`, `cap == 0` and the five bytes `61 00 00 00 00` unread |
| Decode.OverreadAsWritten | src/protocol.rs:113-126 | then `read` as written ends at `ReadDone` with `data_length == 1` but `cap == 5`, and `buf[..5]` is `61 00 00 00 00`: the next frame's header sits in the payload |
| Decode.TunnelCopyDecode.constructor | src/protocol.rs:60-72 | a new decoder has a 2048-byte buffer, is at `ReadLength`, has all counters at 0, and keeps the invariant |
| Decode.TunnelCopyDecode.ReadHeaderBytes | src/protocol.rs:82-92 | one read into `buf[cap..4]` advances `cap` by the bytes read. A 0-byte read means the input is exhausted |
| Decode.TunnelCopyDecode.ReadLength | src/protocol.rs:74-111 | `read_length`. When closing with no header byte, it goes to `Eof` without reading. It fails with `UnexpectedEof` only when the input runs out after 1 to 3 header bytes. When it is ready, `cap == 0` and it is at `Eof` or `Read`; at `Read` the buffer holds at least `data_length` bytes and at least one byte was consumed |
| Decode.TunnelCopyDecode.LengthRead | src/protocol.rs:95-110 | `data_length` is the header's little-endian value and `cap` is reset. Length 0 goes to `Eof` with the buffer untouched. Any other length goes to `Read`, with the buffer grown |
| Decode.TunnelCopyDecode.ReadPayloadBytes | src/protocol.rs:114-120 | one read into `buf[cap..data_length]` advances `cap` by the bytes read |
| Decode.TunnelCopyDecode.Read | src/protocol.rs:113-126 | `read` (corrected). When ready, it is at `ReadDone` with `cap == data_length` and `pos == 0`. It fails with `UnexpectedEof` only when the input runs out before the payload is complete |
| Decode.TunnelCopyDecode.ReadAsWritten | src/protocol.rs:113-126 | `read` as written. The bytes read land after `buf[..cap]`, up to the whole buffer. With a reader that delivers all it has, `cap` ends at the buffer's end or the input is drained, whatever `data_length` is |
| Decode.TunnelCopyDecode.WritePayloadBytes | src/protocol.rs:130-135 | one write of `buf[pos..cap]`: the writer receives `buf[old pos..pos]`, and `amt` grows by the same count. It returns `Ready(0)` exactly when the writer's next step is a zero-byte write. `NotReady` needs a blocking step, an error a failing one |
| Decode.TunnelCopyDecode.PayloadTaken | src/protocol.rs:130-135 | after a write that took the `n` bytes after `pos`, the new writer replaces the old one and `pos` and `amt` advance by `n`, keeping the invariant |
| Decode.TunnelCopyDecode.ReadDone | src/protocol.rs:128-142 | `read_done`. When ready, the writer has received exactly `buf[pos..cap]`, `amt` counts it, the payload joins the delivered frames, and it is at `ReadLength` with `cap == pos == 0`. It fails with `UnexpectedEof` only when the writer's plan held a zero-byte write step, and always does when that is the first step and bytes remain. `NotReady` needs a blocking step, a transport error a failing one. Unless ready, the state and the frames are unchanged |
| Decode.TunnelCopyDecode.PayloadSent | src/protocol.rs:138-141 | once the payload is written in full, it joins the delivered frames and the decoder is back at `ReadLength` with `cap == pos == 0` |
| Decode.TunnelCopyDecode.Close | src/protocol.rs:144-147 | `close` sets `closing` and keeps the invariant |
| Decode.TunnelCopyDecode.Step | src/protocol.rs:160-170 | one turn of the state machine either consumes input or moves to a lower-ranked state. An `UnexpectedEof` outside `ReadDone` means the input is a cut frame stream; at `ReadDone` it means the writer's plan held a zero-byte write step. `NotReady` needs a blocking step, a transport error a failing one |
| Decode.TunnelCopyDecode.Poll | src/protocol.rs:158-173 | `poll` finishes at `Eof` after flushing, returning `amt`, which is the payload length. The writer has received exactly the payloads the bytes taken decode to, and, unless `close` was called, the payloads the whole input decodes to. `UnexpectedEof` means a cut input, or a zero-byte write step in the writer's plan. `NotReady` needs a blocking step, a transport error a failing one. At `Eof` already, it changes nothing and returns the same `amt` |
| Decode.CopyDecode | src/protocol.rs:176-182 | `copy_decode` is a fresh decoder over `r` and `w` |
| Encode.Encoded | src/protocol.rs:228-230 | after a read of `n` bytes into `buf[4..]`, the buffer holds the header for `n` and then those bytes |
| Encode.Refilled | src/protocol.rs:228-241 | a read of a chunk gives a frame ready to copy. A read of 0 bytes gives the zero-length frame |
| Encode.ChunkRead | src/protocol.rs:228-241 | the chunk read is the next part of the source, and the buffer holds its frame, at `CopyEncoded` |
| Encode.EndFrame | src/protocol.rs:219-238 | at the end of the source, or when closing, the buffer holds the zero-length frame (`cap == 4`), at `WriteEof` |
| Encode.FrameBytesWritten | src/protocol.rs:245-252 | the frame bytes the writer accepts are the next ones of `buf[pos..cap]`, and `amt` counts them, header bytes included |
| Encode.ChunkSent | src/protocol.rs:254-257 | a data frame written in full adds its chunk to those sent, back at `Read` |
| Encode.EndSent | src/protocol.rs:254-257 | the zero-length frame written in full reaches `Eof` |
| Encode.EncodeFinished | src/protocol.rs:283-288 | at `Eof` the writer holds the frames of the chunks, each at most 2048 bytes, followed by the zero-length frame. `amt` counts every byte. The output decodes to the chunks, and unless `close` cut it short, the chunks are the whole source |
| Encode.TunnelCopyEncode.constructor | src/protocol.rs:205-216 | a new encoder has a 2052-byte buffer, is at `Read`, has all counters at 0, and keeps the invariant |
| Encode.TunnelCopyEncode.ReadSource | src/protocol.rs:228-241 | one read into `buf[4..]` takes at most 2048 bytes, the next ones of the source. The header is their count, `cap = n + 4` and `pos = 0`. 0 bytes means the source is exhausted and goes to `WriteEof`; otherwise it goes to `CopyEncoded` |
| Encode.TunnelCopyEncode.Read | src/protocol.rs:218-242 | `read` (corrected). When closing, it goes to `WriteEof` with the zero-length frame in `buf[..4]` and `cap == 4`, without reading. Otherwise it behaves as `ReadSource` |
| Encode.TunnelCopyEncode.ReadAsWritten | src/protocol.rs:218-226 | `read` as written. When closing, it prepares the zero-length header but leaves `cap == pos == 0`, without reading |
| Encode.TunnelCopyEncode.WriteFrameBytes | src/protocol.rs:246-251 | one write of `buf[pos..cap]`: the writer receives `buf[old pos..pos]`, and `amt` grows by the same count. It returns `Ready(0)` exactly when the writer's next step is a zero-byte write. `NotReady` needs a blocking step, an error a failing one |
| Encode.TunnelCopyEncode.CopyEncoded | src/protocol.rs:244-258 | `copy_encoded(to_state)`. When ready, the writer has received exactly `buf[pos..cap]`, `amt` counts it, and it is at `to_state` with `cap == pos == 0`; a data frame's chunk joins those sent. It fails with `UnexpectedEof` only when the writer's plan held a zero-byte write step, and always does when that is the first step and bytes remain. `NotReady` needs a blocking step, a transport error a failing one |
| Encode.TunnelCopyEncode.FrameSent | src/protocol.rs:254-257 | moves to `to_state` with both cursors reset, recording a completed data frame's chunk |
| Encode.TunnelCopyEncode.Close | src/protocol.rs:260-267 | `close` on an encoder at `Eof` changes nothing. On any other encoder it sets `closing` |
| Encode.TunnelCopyEncode.Step | src/protocol.rs:279-283 | one turn of the state machine either consumes input or moves to a lower-ranked state. `UnexpectedEof` needs a zero-byte write step, `NotReady` a blocking step, a transport error a failing one |
| Encode.TunnelCopyEncode.Poll | src/protocol.rs:277-291 | `poll` finishes at `Eof` after flushing, returning `amt`, the number of bytes written. The output is the frames of the source's chunks, each at most 2048 bytes, followed by the zero-length frame. It decodes to the chunks, which make up the whole source unless `close` was called. `UnexpectedEof` needs a zero-byte write step, `NotReady` a blocking step, a transport error a failing one. At `Eof` already, it changes nothing and returns the same `amt` |
| Encode.CopyEncode | src/protocol.rs:294-300 | `copy_encode` is a fresh encoder over `r` and `w` |
| Encode.ClosedAsWritten | src/protocol.rs:219-226 | an empty source closed before the first `poll`: as written, the frame loop has nothing to write |
| Encode.ClosedCorrected | src/protocol.rs:219-226 | the same encoder with the corrected `read` writes exactly the zero-length frame |
| Loopback.Send | src/protocol.rs:277-291 | driving the encoder until it is ready produces bytes that decode to the source. It fails with a transport error only when a plan held a failing step, and with `UnexpectedEof` only when the send plan held a zero-byte write step |
| Loopback.Receive | src/protocol.rs:158-173 | driving the decoder until it is ready delivers what the input decodes to, and reports its length. It fails with `UnexpectedEof` only on a cut input or when the write plan held a zero-byte write step, and with a transport error only when a plan held a failing step |
| Loopback.RoundTrip | src/protocol.rs:1-11 | the decoder delivers exactly the bytes the encoder read, and counts that many. When no plan holds a failing step or a zero-byte write step, the round trip succeeds, whatever partial transfers and blocking steps the plans hold |
| Config.FromStr | src/config.rs:15-20 | `from_str` gives a socket address exactly when the host parses as an IP literal, with that IP, and a domain name otherwise |
| Config.FromStrHostPort | src/config.rs:15-34 | `port` returns the port given to `from_str`. `host` returns the domain name given, or the parsed IP's printed form |
| Config.Decimal | src/config.rs:41 | a port prints as decimal digits without a leading zero |
| Config.DecimalRoundTrip | src/config.rs:41 | the printed port reads back as the same number |
| Config.Display | src/config.rs:37-44 | the text form is the host part (in brackets for IPv6), `:`, and the port in decimal |
| Config.DisplaySplits | src/config.rs:37-44 | in the text form of any address, everything before the last `:` is the host (in brackets for IPv6), and everything after it is the port in decimal |
| Config.FromStrDisplay | src/config.rs:15-44 | printing what `from_str` built and splitting at the last `:` gives back the host as given when it is not an IP literal, the IP's printed form (bracketed for IPv6) when it is, and the port |
| Opt.Default | src/opt.rs:4-12 | the derived default has every knob absent |
| Opt.HasKcpConfig | src/opt.rs:23-25 | `has_kcp_config` holds exactly when the options differ from the default |
| Opt.HasKcpNodelayConfig | src/opt.rs:27-29 | `has_kcp_nodelay_config` holds exactly when the four no-delay knobs are not all at their defaults |
| Opt.NodelayIsKcpConfig | src/opt.rs:23-29 | a no-delay setting counts as a transport setting. A transport setting that is not a no-delay one is `mtu` or `rx_minrto` |
| Opt.DefaultHasNoKcpConfig | src/opt.rs:4-29 | for the default options both questions are answered no |
| Opt.NodelayIgnoresOtherKnobs | src/opt.rs:27-29 | `has_kcp_nodelay_config` does not depend on `mtu` or `rx_minrto` |

## Left out

- Grow: the decoder grows its buffer to whatever length the peer announces, up to 2^32 - 1 bytes (`src/protocol.rs:105-106`), which is an allocation of up to 4 GiB that may fail. The buffer here is an unbounded `seq`, so allocation failure and memory use are not modelled.
- Byte counts: `amt` is a `u64` in the source and a `nat` here. Wrapping at 2^64 bytes is not modelled.
- Counting header bytes: the encoder's `amt` counts the 4-byte headers, as the code does, so `Encode.TunnelCopyEncode.Poll` returns the number of bytes written, not the payload length.
- Buffers: the codecs' `Vec<u8>` buffers are `seq` fields that each step reassigns. In-place update of the heap vector is not modelled; nothing else refers to these buffers.
- `close(mut self) -> Self`: this consumes the codec and returns it. Here it is a method that updates the object in place.
- The `futures` runtime: task wake-ups and scheduling are not modelled. `WouldBlock` is the `NotReady` result of a plan step.
- Transport errors are one kind, `Transport`, passed on unchanged. Their kinds are not told apart.
- The `trace!` logging is not modelled.
- IP literals: `str::parse::<IpAddr>` and `IpAddr::to_string` belong to the standard library, so they are the parameters `parseIp` and `formatIp`.
- IPv6 text: a socket address prints as `ip:port`, or `[ip]:port` for IPv6. Flow info and scope id are not modelled, because `SocketAddr::new` sets both to 0.
- `Config.Host`, `Config.Port`: these are plain accessor functions without a contract. What they return is stated by `Config.FromStrHostPort` and `Config.DisplaySplits`.
- The `Config` struct in src/config.rs is a record with no operations, so it is not modelled.
- `PluginOpts::from_str` and `PluginOpts::to_string` are URL-encoding by an external crate and are not modelled.
- Everything outside src/protocol.rs, src/config.rs and src/opt.rs is not part of this model: the local and server brokers, the session pool, DNS resolution, plugin launching and the binaries.
- `Decode.TunnelCopyDecode.ReadAsWritten`: it does not keep the decoder invariant, because it can take bytes beyond the frame. Its contract states only where the bytes land and how far it reads.
- `Encode.TunnelCopyEncode.ReadAsWritten`: it keeps the invariant only when not closing. Its contract for the closing branch states the buffer and cursors it leaves.
- `Loopback.RoundTrip`: the encoder runs to completion before the decoder starts. Running the two sides concurrently over a shared channel is not modelled.

## Findings

| source | as written | input that shows it | evidently intended | confidence | as-written member | corrected member |
|---|---|---|---|---|---|---|
| src/protocol.rs:115 | the payload read goes into `buf[cap..]`, the whole rest of a buffer of at least 2048 bytes, so one read can take the following frames' bytes too; `read_done` then writes them out as payload | input `01 00 00 00 61 00 00 00 00` (one frame holding `61`, then the zero-length frame) available in a single read: the read after the header takes all five remaining bytes, and the writer receives `61 00 00 00 00` instead of `61` | read into `buf[cap..data_length]` | high; not executed | Decode.TunnelCopyDecode.ReadAsWritten, Decode.OverreadWitness, Decode.OverreadAsWritten | Decode.TunnelCopyDecode.Read |
| src/protocol.rs:222 | when closing, `read` stores the zero-length header but sets `cap = 0`, so `copy_encoded` writes nothing and the peer never receives the end-of-stream frame | an encoder over an empty source, closed before its first `poll`: it reaches `Eof` having written no frame (the closing branch runs before any read, so the source's contents do not matter) | `cap = 4`, so that the 4-byte zero-length frame is written | high; not executed | Encode.TunnelCopyEncode.ReadAsWritten, Encode.ClosedAsWritten | Encode.TunnelCopyEncode.Read, Encode.ClosedCorrected |
