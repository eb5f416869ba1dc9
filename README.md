# mini-redis: connection framing and command dispatch

This project models the core of a small Redis-style server written in Rust on
Tokio, and proves properties of the model. There are two server variants and
two connection variants.

- **The buffered connection** (`src/connection.rs`). It keeps a growable read buffer.
  - `read_frame` loops between `parse_frame` and reading more bytes from the socket, until a frame is parsed, an error occurs, or the stream ends.
  - `parse_frame` asks `Frame::check` whether a whole frame is buffered. If so, it parses that frame and consumes exactly its bytes from the front of the buffer.
  - `write_frame` and `write_decimal` write a frame in the RESP2 wire format (the Redis serialization protocol, version 2): simple strings, simple errors, integers, bulk strings and the null bulk string.
- **The hand-rolled connection** (`src/connection_raw.rs`). It reads into a zero-filled `Vec<u8>` with a `cursor`.
  - The vector doubles when full.
  - Parsed frames are drained from the front of the vector.
  - Its writers are `unimplemented!()`.
- **`MiniRedisServer`** (`src/server.rs`). Every client shares one `HashMap<String, Vec<u8>>` behind a mutex.
  - Each frame read becomes a command. SET and GET run against the map; any other command is answered "unimplemented"; a failed lock is answered "lock error".
  - One reply is written per frame.
- **The binary's `TcpListener`** (`src/main.rs`). It does the same dispatch over a map private to each connection. Every error there is an `unwrap` or a `panic!` that ends the connection's task.

Model layout, one module per file:

| module | file | contents |
|---|---|---|
| `Outcomes` | `outcomes.dfy` | `Option`, `Res` (Rust's `Result`), `Outcome`, which is either a return or a panic |
| `Resp` | `resp.dfy` | the `Frame` datatype; `Encode`, the RESP2 encoding; `Decode`, an independent reference reader; the round-trip lemma |
| `Transport` | `transport.dfy` | the socket |
| `Framing` | `framing.dfy` | the contract of the external `Frame::check` (the `Checker` subset type); `ParseStep`, what `parse_frame` does; `FirstFrame`, the all-at-once decoder |
| `Connection` | `connection.dfy` | the buffered connection as a class with the `stream` and `buffer` fields; its loops are proved against the `ReadFrameSpec` and `WriteFrameSpec` functions |
| `ConnectionRaw` | `connection_raw.dfy` | the hand-rolled connection with `buffer` and `cursor`: as written, with only the `check` window corrected, and fully corrected |
| `Store` | `store.dfy` | the key-value semantics; `ApplyAll` and `Latest` are reference definitions |
| `Sessions` | `sessions.dfy` | what one session produces: its ending, requests, replies, buffer, stream and map |
| `Server` | `server.dfy` | `MiniRedisServer`: `Dispatch` and its reference `DispatchAll`; the `Serve` function and the `Process` loop proved against it |
| `Listener` | `listener.dfy` | the binary's `TcpListener`: `MainServe` and its `Process` loop |

The socket is a value `TcpStream(incoming, sent, room)`:
- `incoming` is a script of read events. Each event is a data chunk or an I/O fault. Once the script is exhausted, the peer has closed and every read returns 0 bytes.
- `sent` holds the bytes written so far; writes only append to it.
- `room` is how many more bytes the peer accepts. A `write_all` that does not fit writes the part that fits and then fails.

`Frame::check`, `Frame::parse` and `Command::from_frame` belong to the external `mini_redis` crate, so the model takes them as parameters:
- `check` is a `Checker`. Its contract:
  - `Complete(len)` has `0 < len <= |buf|`;
  - an empty window is `Incomplete`;
  - a window whose first byte is not a type byte is `Malformed`;
  - a verdict other than `Incomplete` stays the same when bytes are appended, because frames are self-delimiting.
- `parse` is a `FrameParser`, a function from bytes to a frame or an error.
- `from_frame` is a `CommandParser`, a function from a frame to `Get`, `Set`, `Other` or an error.

The main results:
- `Connection.ReadFrameSeesOnlyBytes` and `Connection.ChunkingDoesNotMatter`: on a stream without I/O faults, `read_frame` reports what a decoder that sees all the bytes at once would report, however the bytes are split into reads.
- `Resp.DecodeEncode` and `Sessions.ReadRepliesWire`: every reply the servers write is read back intact by the reference reader.
- `Server.ServeRunsCommands`: whatever the client sends and whichever locks fail, a `MiniRedisServer` session's replies and final map are those of dispatching its requests in order with `Server.DispatchAll`; an unsupported command is answered "unimplemented" and the session goes on. `Server.ServeAppliesCommands`: with every lock succeeding and only SET and GET sent, that is `Store.ApplyAll`.
- `Listener.MainRunsCommands`: the binary's session replies and leaves its map as `Store.ApplyAll` of its requests, which are only SET and GET because it panics on anything else.
- `Server.ServerGetSeesLatest` and `Listener.MainGetSeesLatest`: read-your-writes on one connection. For the server, only the locks of the earlier SETs must succeed, and a GET whose own lock fails is answered "lock error".
- `Server.ClientReadsReplies` and `Listener.MainClientReadsReplies`: one reply per request, in order, on the wire.

## Model

| member | source | states |
|---|---|---|
| Resp.Digits | src/connection.rs:155-157 | the text `write!("{}", val)` produces is a non-empty run of decimal digits without a leading zero |
| Resp.DecimalRoundTrip | src/connection.rs:155-160 | reading the digits written for `n` back gives `n`: the decimal form is lossless |
| Resp.DigitsLength | src/connection.rs:155-157 | `n` has at most `k` digits exactly when `n < 10^k` |
| Resp.EncodeFraming | src/connection.rs:71-99 | the RESP2 encoding `Encode` of every non-Array frame starts with its tag byte and ends with CRLF; the body of `Encode` gives the byte string of each variant: `+s CRLF`, `-s CRLF`, `:digits CRLF`, `$-1 CRLF`, `$len CRLF data CRLF` |
| Resp.DecodeEncode | src/connection.rs:71-99 | the reference RESP2 reader recovers every encodable frame from its encoding, whatever follows, and reports the encoding's exact length |
| Framing.ParseStep | src/connection.rs:119-148 | `parse_frame` gives no frame exactly when `check` says Incomplete; a frame exactly consumes the checked prefix (strictly shrinking the buffer); otherwise the buffer is untouched |
| Framing.DecidedPrefix | src/connection.rs:124-146 | once `check` decides on the buffered prefix, `parse_frame` reports the same frame or error as the all-at-once decoder, with the same bytes left |
| Transport.ReadBuf | src/connection.rs:51 | `read_buf` delivers the next chunk whole, an I/O error as `Err`, and 0 bytes once the peer has closed; the write side is untouched |
| Transport.Read | src/connection_raw.rs:47 | `read` into a slice of `space` bytes delivers at most `space` bytes, keeps the rest of the chunk pending, loses no byte, and on a fault-free stream reads 0 bytes only at the end (when `space > 0`) |
| Transport.Transmit | src/connection.rs:74-76 | `write_all` on the unbuffered socket of the model (the `BufWriter` is left out) appends the part that fits, succeeds exactly when all of it fits, and never touches the read side |
| Transport.TransmitConcat | src/connection.rs:74-76 | a sequence of `write_all(..)?` calls has the effect of one write of the concatenation |
| Connection.ReadFrameSpec | src/connection.rs:38-61 | `read_frame` never writes, never grows its bytes-plus-pending measure, and strictly consumes input when it returns a frame |
| Connection.ReadFrameReturnsBufferedFrame | src/connection.rs:39-44 | a frame already buffered is returned at once, leaving the stream untouched |
| Connection.ReadFrameDecided | src/connection.rs:42 | once `check` has decided on the buffer, `read_frame` returns what `parse_frame` returns, without reading |
| Connection.ReadFrameReads | src/connection.rs:46-51 | with no decided frame buffered, `read_frame` appends the next chunk to the buffer and starts over |
| Connection.ReadFrameEndOfStream | src/connection.rs:51-58 | a 0-byte read gives Ok(None) on an empty buffer and "connection reset by peer" when bytes remain, keeping the buffer |
| Connection.ReadFrameSeesOnlyBytes | src/connection.rs:38-61 | on a fault-free stream `read_frame` returns what the all-at-once decoder returns, and leaves the same bytes unconsumed |
| Connection.ChunkingDoesNotMatter | src/connection.rs:38-61 | two fault-free deliveries of the same bytes in different chunks make `read_frame` return the same result |
| Connection.TruncatedFrameResets | src/connection.rs:51-58 | a stream that ends inside a frame yields "connection reset by peer", never a frame |
| Connection.WriteFrameSpec | src/connection.rs:71-117 | `write_frame` leaves the read side alone, and panics exactly on an Array |
| Connection.FitsScratchBound | src/connection.rs:155-157 | a number fits the 12-byte scratch buffer exactly when it is below 10^12 |
| Connection.WriteFrameEmitsEncoding | src/connection.rs:71-117 | for a non-Array frame, `write_frame` writes the accepted prefix of the frame's RESP2 encoding and succeeds exactly when all of it was accepted; a number too long for the scratch buffer writes only the tag byte and fails |
| Connection.WrittenFrameReadsBack | src/connection.rs:71-117 | a frame written in full is read back as the same frame, whatever the peer receives after it |
| Connection.LargeIntegerUnwritable | src/connection.rs:83-86 | Integer(10^12) fails to write, after its tag byte ':' is already on the wire |
| Connection.U64FitsWideScratch | src/connection.rs:155 | the digits of every u64 fit a 20-byte scratch buffer |
| Connection.Connection.constructor | src/connection.rs:28-33 | `new` starts with an empty read buffer over the given stream |
| Connection.Connection.ParseFrame | src/connection.rs:119-148 | on Complete(len), returns the parsed frame and drops exactly the first `len` bytes; on Incomplete, Ok(None) and the buffer unchanged; a check or parse error is returned with the buffer unchanged |
| Connection.Connection.ReadFrame | src/connection.rs:38-61 | the loop returns, and leaves the buffer and stream, exactly as `ReadFrameSpec` says |
| Connection.Connection.Send | src/connection.rs:74-76 | one `write_all` or `write_u8` is one `Transmit` |
| Connection.Connection.WriteDecimal | src/connection.rs:151-164 | more than 12 digits fails before writing anything; otherwise writes the digits and CRLF, failing exactly when the transport does |
| Connection.Connection.WriteDecimalFixed | src/connection.rs:151-164 | with a 20-byte scratch buffer every u64 is written as its digits and CRLF; only the transport can fail |
| Connection.Connection.WriteLine | src/connection.rs:73-82 | a simple string or error is written as `tag text CRLF` in one transmission |
| Connection.Connection.WriteBulk | src/connection.rs:90-97 | a bulk string is written as `'$' len CRLF data CRLF`; a length too long for the scratch buffer writes only '$' and fails |
| Connection.Connection.WriteFrame | src/connection.rs:71-117 | the variant-by-variant writes have exactly the effect and result of `WriteFrameSpec` |
| ConnectionRaw.Zeros | src/connection_raw.rs:24 | `vec![0; n]` has length `n` and every byte 0 |
| ConnectionRaw.Grow | src/connection_raw.rs:41-44 | a full vector (`len == cursor`) doubles with zero fill, any other keeps its length; existing bytes are kept |
| ConnectionRaw.GrowFixed | src/connection_raw.rs:41-44 | corrected growth: the vector never shrinks, existing bytes are kept, and there is always room after `cursor` |
| ConnectionRaw.Land | src/connection_raw.rs:47 | a read of `data` changes exactly `buffer[cursor..cursor + |data|]` to `data`, and nothing else |
| ConnectionRaw.Pass | src/connection_raw.rs:33-59 | one pass of the loop never writes, and a pass that goes round again strictly consumes pending input |
| ConnectionRaw.PassAfterParse | src/connection_raw.rs:36-47 | a frame or an error from `parse_frame` ends the pass with it; a cursor past the end of the grown vector panics on the slice |
| ConnectionRaw.PassReadStops | src/connection_raw.rs:47-54 | a read error ends the pass with that error; a 0-byte read gives Ok(None) when `cursor == 0` and "connection reset by peer" otherwise |
| ConnectionRaw.PassAgain | src/connection_raw.rs:47-57 | a read of `n > 0` bytes lands them at `buffer[cursor..]`, advances `cursor` by exactly `n`, and goes round again |
| ConnectionRaw.ReadFrameSpec | src/connection_raw.rs:32-60 | the passes until one returns never write to the stream |
| ConnectionRaw.FreshConnectionFails | src/connection_raw.rs:69-72 | as written, a fresh connection fails with a protocol error without reading, because `check` sees the 4096 zero bytes |
| ConnectionRaw.StaleCursorPanics | src/connection_raw.rs:41-47 | with no frame buffered and `cursor` past the end of the vector, the slice of the read panics before anything is read; the code as written never reaches that state |
| ConnectionRaw.Refill | src/connection_raw.rs:40-58 | the grow-and-read part of a pass never writes, and a pass that goes round again strictly consumes pending input |
| ConnectionRaw.PassWindowed | src/connection_raw.rs:67-88 | with line 69 reading only `buffer[..cursor]` and line 85 as written: a `cursor` past the end of the vector panics on that slice, and a returned frame is drained from the vector while `cursor` stays as it was |
| ConnectionRaw.ReadFrameWindowed | src/connection_raw.rs:32-60 | with line 69 corrected and line 85 as written, the passes until one returns never write to the stream |
| ConnectionRaw.DrainedZerosMalformed | src/connection_raw.rs:85 | with line 69 corrected, two "+OK" frames arriving in one read are returned, and then the third `read_frame` fails with a protocol error on the ten zero bytes in the window, where the all-at-once decoder finds nothing left and a clean end |
| ConnectionRaw.ZeroByteRead | src/connection_raw.rs:49-54 | a 0-byte read gives Ok(None) when `cursor == 0` and "connection reset by peer" otherwise |
| ConnectionRaw.Connection.constructor | src/connection_raw.rs:21-27 | `new` makes a 4096-byte zero-filled vector with `cursor == 0` |
| ConnectionRaw.Connection.ParseFrame | src/connection_raw.rs:67-96 | `check` sees the whole vector; on Complete(len) the first `len` bytes are drained, the rest shifts down in order and `cursor` is untouched; Incomplete changes nothing; errors propagate |
| ConnectionRaw.Connection.ReadPass | src/connection_raw.rs:33-59 | one pass of the loop changes the vector, cursor and stream, and returns, exactly as `Pass` says |
| ConnectionRaw.Connection.ReadFrame | src/connection_raw.rs:32-60 | the loop returns, and leaves the vector, cursor and stream, exactly as `ReadFrameSpec` says |
| ConnectionRaw.Connection.WriteFrame | src/connection_raw.rs:63-65 | `write_frame` always panics |
| ConnectionRaw.Connection.WriteDecimal | src/connection_raw.rs:99-101 | `write_decimal` always panics |
| ConnectionRaw.Connection.ParseFrameFixed | src/connection_raw.rs:67-96 | corrected: `check` sees only the filled bytes `buffer[..cursor]`, which change exactly as in the buffered connection, and `cursor` moves back by the drained length |
| ConnectionRaw.Connection.ReadPassFixed | src/connection_raw.rs:33-59 | corrected pass: one that returns reports what the all-at-once decoder reports for the filled and pending bytes; one that goes round again loses no byte and consumes input |
| ConnectionRaw.Connection.ReadFrameFixed | src/connection_raw.rs:32-60 | corrected: it never writes to the stream, and on a fault-free stream `read_frame` returns what the all-at-once decoder returns and keeps the unconsumed bytes |
| Store.Apply | src/main.rs:72-85 | SET stores the value under the key, replies "OK" and leaves every other key unchanged; GET replies Bulk(value) on a hit and Null on a miss, leaving the map unchanged; every reply is encodable |
| Store.ApplyAll | src/main.rs:67-91 | running a script of SET and GET commands gives one reply per command |
| Store.ApplyAllSnoc | src/main.rs:67-91 | running one more command after a script replies with that command's reply, from the map the script left |
| Store.FinalIsLatest | src/main.rs:72-76 | after a script, every key holds the value of its latest SET, or its initial value when there is none |
| Store.GetSeesLatest | src/main.rs:72-85 | the reply to a GET is the value of the latest earlier SET to its key, or the initial value, or Null |
| Store.PrefixReplies | src/main.rs:67-91 | the replies to a prefix of a script are the prefix of its replies |
| Store.SetOverwrites | src/main.rs:75 | a second SET to the same key replaces the first |
| Store.GetIdempotent | src/main.rs:77-85 | GET does not change the map, so a repeated GET gets the same reply |
| Sessions.ReadRepliesWire | src/connection.rs:71-117 | the byte stream of the replies written one after another decodes to exactly those replies, in order |
| Server.Db.constructor | src/server.rs:21 | the shared database starts empty |
| Server.MiniRedisServer.constructor | src/server.rs:20-23 | `new` keeps the address and makes a fresh, empty shared database |
| Server.Dispatch | src/server.rs:61-105 | a command other than SET and GET is answered "unimplemented"; a failed lock is answered "lock error" with no change; otherwise the command runs as in `Store.Apply`; the map changes only on a SET under the lock |
| Server.DispatchAll | src/server.rs:47-56 | dispatching a script of requests, the `j`-th under its lock outcome, gives one encodable reply per request |
| Server.DispatchAllSnoc | src/server.rs:47-56 | dispatching one more request after a script replies with its dispatch on the map the script left |
| Server.DispatchPrefix | src/server.rs:47-56 | the replies to a prefix of a script are the prefix of its replies |
| Server.DispatchAllAt | src/server.rs:47-56 | the reply to the `i`-th request is its dispatch on the map the requests before it left, under its own lock outcome |
| Server.DispatchFinalIsLatest | src/server.rs:62-103 | when every SET took its lock, every key ends with the value of its latest SET, or its initial value: GETs, failed GET locks and unsupported commands change nothing |
| Server.DispatchGetSeesLatest | src/server.rs:78-101 | a GET whose lock succeeds sees the latest earlier SET to its key (when those SETs took their locks), the initial value, or Null; one whose lock fails gets "lock error" |
| Server.DispatchAllIsApplyAll | src/server.rs:61-102 | with every lock succeeding and only SET and GET sent, dispatching is running the commands with `Store.ApplyAll` |
| Server.MiniRedisServer.HandleFrame | src/server.rs:59-105 | an unparsable frame panics with the `unwrap` message and leaves the map alone; otherwise the reply and the new map are those of `Dispatch` under the lock's outcome |
| Server.Serve | src/server.rs:43-57 | a session writes one reply per request, and every reply is encodable |
| Server.ServeContinues | src/server.rs:47-56 | a request answered and written in full consumes input, and the session goes on with the next request |
| Server.ServeEnds | src/server.rs:47 | a session that reads no frame, or one that is not a command, runs nothing, writes nothing and leaves the map alone |
| Server.ServeWriteFails | src/server.rs:52-55 | a reply not written in full ends the session with a write error, after its one command ran |
| Server.ServeStops | src/server.rs:47-56 | a session that stops at a request ran nothing, or ran one command whose reply could not be written |
| Server.ServeStep | src/server.rs:47-56 | a continuing session writes exactly the encoding of the reply to its request, then goes on from the state it left |
| Server.ServeWritesReplies | src/server.rs:47-56 | unless a write failed, the bytes written are the encodings of the replies in order, with nothing in between |
| Server.ServeRunsCommands | src/server.rs:43-57 | for every session, whatever it sends and whichever locks fail, the replies and the final map are those of dispatching its requests in order |
| Server.ServeAppliesCommands | src/server.rs:43-57 | with every lock succeeding and only SET and GET sent, the replies and the final map are those of running the commands with `Store.ApplyAll` |
| Server.ServerGetSeesLatest | src/server.rs:47-103 | the reply to a GET is the value of the latest earlier SET to its key, or the value the database held, or Null, provided its lock and those of the earlier SETs succeed; with its own lock failing it is "lock error"; unsupported requests in between change nothing |
| Server.ServerAnswersUnimplemented | src/server.rs:103 | a request other than SET and GET is answered "unimplemented", wherever it comes in the session |
| Server.ClientReadsReplies | src/server.rs:43-57 | unless a write failed, the client decodes from the socket exactly the replies, one per request, in order |
| Server.MiniRedisServer.Process | src/server.rs:43-57 | the loop over the connection ends, leaves the socket and leaves the shared map exactly as `Serve` says |
| Listener.MainServe | src/main.rs:60-92 | a session writes one reply per request and runs only SET and GET; every reply is encodable |
| Listener.MainStep | src/main.rs:67-91 | a continuing loop ran a SET or GET, wrote exactly the encoding of its reply, and goes on from the state it left |
| Listener.MainStops | src/main.rs:67-91 | a loop that stops at a request ran nothing and wrote nothing, or ran one command and then panicked on writing its reply |
| Listener.MainWriteFails | src/main.rs:90 | a reply not written in full ends the task with the `unwrap` panic, after its command ran |
| Listener.MainRunsCommands | src/main.rs:60-92 | the replies and the map the loop leaves are those of running its commands in order |
| Listener.MainWritesReplies | src/main.rs:67-91 | after a clean close, the bytes written are the encodings of the replies in order, with nothing in between |
| Listener.MainGetSeesLatest | src/main.rs:60-85 | the reply to a GET is the value of the latest earlier SET to its key on the same connection, or Null: the map starts empty |
| Listener.MainClientReadsReplies | src/main.rs:67-91 | after a clean close, the client decodes from the socket exactly the replies, one per request, in order |
| Listener.TcpListener.constructor | src/main.rs:36-42 | `new` keeps the address it binds |
| Listener.TcpListener.Process | src/main.rs:60-92 | starting from an empty map, the loop over the connection ends and leaves the socket exactly as `MainServe` says |

## Left out

- The Tokio runtime, `async`/`await`, the accept loops (`run` in both servers) and `tokio::spawn`. Each connection is modelled as one sequential session over a `TcpStream` value.
- `TcpListener::bind` and `accept`. `Listener.TcpListener.constructor` keeps only the address.
- `Arc<Mutex<..>>` and interleaving across connections. Whether the lock for the `n`-th request of a connection succeeds is the parameter `locks(n)`. The shared map is a `Db` object that only this session changes.
- `BufWriter` buffering and `flush`. In the model every write goes straight to an unbuffered socket that accepts `room` more bytes, so a write that does not fit fails at once. In the program, writes go to a `BufWriter` with an 8 KiB buffer. A write that fits the buffer succeeds without touching the socket, and `write_frame` throws away the error of its final `flush` (src/connection.rs:114). So in the program `write_frame` can return `Ok(())` for a reply the peer never receives: the loss is silent, and writes fail only once about 8 KiB are pending. For example, a socket that accepts nothing and one SET: the model ends the session with `WriteFailed(Io)`, while the program returns `Ok` and goes on to read the next frame. `room` and the `WriteFailed` ending exist only in the model. The "unless a write failed" of `Server.ServeWritesReplies` and `Server.ClientReadsReplies`, and the write failures of `Listener.MainStops` and `Listener.MainWriteFails`, are relative to this unbuffered socket.
- The bodies of `Frame::check`, `Frame::parse` and `Command::from_frame`. They belong to the external `mini_redis` crate and are parameters under the contract above.
- The Array frame. `write_frame` panics on it, and nothing else about arrays is modelled. `check` and `parse` may still accept arrays on the read side.
- The 4096-byte initial capacity of the `BytesMut` in `src/connection.rs`. Capacity does not change what is read.
- `usize` overflow of lengths and of `cursor`. Lengths are unbounded naturals.
- Connection.Connection.WriteDecimal: takes a `nat` rather than a `u64`, because its callers pass either a u64 or a length.
- Keys are `string` and values are bytes. The UTF-8 validation done by `from_frame` is inside the external crate.
- The text a Rust panic carries after its fixed part. That covers the `Debug` text after "unimplemented" in `src/main.rs`, and the error after the `unwrap` message.
- `tracing` and `println!` logging, `src/args_parser.rs`, `main`, and the files under `examples/`.
- `src/main.rs` uses the `mini_redis` crate's own `Connection`. That crate's source is not part of this model, so the binary is modelled over the buffered connection of `src/connection.rs`, which follows the same design.
- ConnectionRaw.Connection.ReadFrame: the message of a slice-out-of-range panic ("range start index … out of range for slice of length …", and its "range end index" form in `ConnectionRaw.PassWindowed`) is modelled by its fixed words, without the indices.

## Findings

| source | as written | input that shows it | evidently intended | confidence | as-written member | corrected member |
|---|---|---|---|---|---|---|
| src/connection_raw.rs:69-72 | `parse_frame` runs `check` over the whole vector, including the zero-filled tail past `cursor` | a fresh connection: `check` sees 4096 zero bytes, and 0 is not a frame type byte, so the first `read_frame` fails with a protocol error before reading anything | `check` sees only the filled bytes `buffer[..cursor]`, and `read_frame` decodes like the buffered connection | high, not executed | ConnectionRaw.FreshConnectionFails | ConnectionRaw.Connection.ReadFrameFixed |
| src/connection_raw.rs:85 | after `drain(..len)`, `cursor` is not reduced | as written, this defect is masked by the one in the row above: a fresh connection never reads a byte, so no frame is drained. Modelled with line 69 reading only `buffer[..cursor]`: "+OK\r\n+OK\r\n" arrives in one read, so `cursor == 10`. The first two `read_frame` calls each return a frame and drain 5 bytes, but `cursor` stays 10, so the zero bytes moved down from the tail enter the window. The third call sees ten zero bytes and fails with a protocol error, where the stream has in fact closed cleanly. (A drain that leaves the vector shorter than `cursor` panics on the slice of line 69 instead.) | `cursor` moves back by `len`, and an emptied vector is grown to 4096 bytes rather than to 0 | medium (latent behind the row above), not executed | ConnectionRaw.DrainedZerosMalformed | ConnectionRaw.Connection.ParseFrameFixed |
| src/connection.rs:155 | `write_decimal` formats into a 12-byte scratch buffer, but a u64 has up to 20 digits | `write_frame(Integer(10^12))`: the ':' is written, then formatting fails, so the reply is left unfinished after its tag byte. In the model that byte is on the wire. In the program it sits in the `BufWriter`, which the early return does not flush | a scratch buffer of 20 bytes, so that every u64 is written | medium, not executed | Connection.LargeIntegerUnwritable | Connection.Connection.WriteDecimalFixed |

The servers use only the buffered connection, so the corrected raw connection is not used elsewhere in the model. The servers never reply with an Integer frame. A Bulk reply fails on the scratch buffer only when its length has more than 12 digits, and `write_frame` keeps that behaviour as written.
