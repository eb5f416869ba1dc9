/**
 * src/main.rs: the single-binary server. Each accepted socket gets its own
 * `HashMap`, created empty when the connection is processed; frames are read,
 * answered inline and written back. Unlike `MiniRedisServer`, every error here
 * is an `unwrap` or a `panic!` that ends the connection's task.
 */
module Listener {
  import opened Outcomes
  import opened Resp
  import opened Transport
  import opened Framing
  import opened Store
  import opened Sessions
  import Connection

  /** The start of the message of `panic!("unimplemented {:?}", cmd)`. */
  const UNIMPLEMENTED_PANIC: string := "unimplemented"

  /**
   * The `while let` loop of `process`: `read_frame().unwrap()` panics on a read
   * error, the loop ends on `None`, `from_frame(frame).unwrap()` panics on an
   * unparsable frame, any command but SET and GET panics, and
   * `write_frame(..).unwrap()` panics on a write error.
   */
  function MainServe(check: Checker, parse: FrameParser, fromFrame: CommandParser,
                     buffer: Bytes, stream: TcpStream, entries: Entries): (s: Session)
    ensures |s.requests| == |s.replies| && AllEncodable(s.replies) && Supported(s.requests)
    decreases Connection.Measure(buffer, stream)
  {
    var (got, buf1, s1) := Connection.ReadFrameSpec(check, parse, buffer, stream);
    match got
    case Err(_) => Session(Crashed(UNWRAP_PANIC), [], [], buf1, s1, entries)
    case Ok(None) => Session(Closed, [], [], buf1, s1, entries)
    case Ok(Some(frame)) =>
      match fromFrame(frame)
      case Err(_) => Session(Crashed(UNWRAP_PANIC), [], [], buf1, s1, entries)
      case Ok(cmd) =>
        if cmd.Other? then Session(Crashed(UNIMPLEMENTED_PANIC), [], [], buf1, s1, entries)
        else
          var (reply, e1) := Apply(entries, cmd);
          var (w, s2) := Connection.WriteFrameSpec(s1, reply);
          match w
          case Panicked(m) => Session(Crashed(m), [cmd], [reply], buf1, s2, e1)
          case Returned(Err(_)) => Session(Crashed(UNWRAP_PANIC), [cmd], [reply], buf1, s2, e1)
          case Returned(Ok(_)) =>
            var rest := MainServe(check, parse, fromFrame, buf1, s2, e1);
            WireSnoc(rest.replies, reply);
            SupportedCons(cmd, rest.requests);
            Served(cmd, reply, rest)
  }

  /** Whether the loop answers a request in full and goes round again. */
  ghost predicate MainContinues(check: Checker, parse: FrameParser, fromFrame: CommandParser,
                                buffer: Bytes, stream: TcpStream, entries: Entries)
  {
    var r := Connection.ReadFrameSpec(check, parse, buffer, stream);
    r.0.Ok? && r.0.value.Some? && fromFrame(r.0.value.value).Ok? && !fromFrame(r.0.value.value).value.Other? &&
    Connection.WriteFrameSpec(r.2, Apply(entries, fromFrame(r.0.value.value).value).0).0 == Returned(Ok(()))
  }

  /** The request a continuing loop answers, and the connection state it goes on from. */
  lemma MainStep(check: Checker, parse: FrameParser, fromFrame: CommandParser,
                 buffer: Bytes, stream: TcpStream, entries: Entries)
    returns (cmd: Command, buf1: Bytes, s2: TcpStream)
    requires MainContinues(check, parse, fromFrame, buffer, stream, entries)
    ensures !cmd.Other?
    ensures Connection.Measure(buf1, s2) < Connection.Measure(buffer, stream)
    ensures s2.sent == stream.sent + Encode(Apply(entries, cmd).0)
    ensures MainServe(check, parse, fromFrame, buffer, stream, entries) ==
      Served(cmd, Apply(entries, cmd).0, MainServe(check, parse, fromFrame, buf1, s2, Apply(entries, cmd).1))
  {
    var r := Connection.ReadFrameSpec(check, parse, buffer, stream);
    cmd := fromFrame(r.0.value.value).value;
    buf1 := r.1;
    var reply := Apply(entries, cmd).0;
    s2 := Connection.WriteFrameSpec(r.2, reply).1;
    Connection.WriteFrameEmitsEncoding(r.2, reply);
  }

  /**
   * A loop that stops at this request either answered nothing and wrote nothing,
   * or ran one command and then panicked on writing its reply.
   */
  lemma MainStops(check: Checker, parse: FrameParser, fromFrame: CommandParser,
                  buffer: Bytes, stream: TcpStream, entries: Entries)
    requires !MainContinues(check, parse, fromFrame, buffer, stream, entries)
    ensures var s := MainServe(check, parse, fromFrame, buffer, stream, entries);
      (s.requests == [] && s.replies == [] && s.stream.sent == stream.sent && s.entries == entries)
      || (s.ending == Crashed(UNWRAP_PANIC) && |s.requests| == 1 && !s.requests[0].Other? &&
          (s.replies[0], s.entries) == Apply(entries, s.requests[0]))
  {
    var r := Connection.ReadFrameSpec(check, parse, buffer, stream);
    if r.0.Ok? && r.0.value.Some? && fromFrame(r.0.value.value).Ok? && !fromFrame(r.0.value.value).value.Other? {
      MainWriteFails(check, parse, fromFrame, buffer, stream, entries);
    }
  }

  /** A reply not written in full ends the loop with the panic of `unwrap`, after running its command. */
  lemma MainWriteFails(check: Checker, parse: FrameParser, fromFrame: CommandParser,
                       buffer: Bytes, stream: TcpStream, entries: Entries)
    requires var r := Connection.ReadFrameSpec(check, parse, buffer, stream);
      r.0.Ok? && r.0.value.Some? && fromFrame(r.0.value.value).Ok? && !fromFrame(r.0.value.value).value.Other? &&
      Connection.WriteFrameSpec(r.2, Apply(entries, fromFrame(r.0.value.value).value).0).0 != Returned(Ok(()))
    ensures var s := MainServe(check, parse, fromFrame, buffer, stream, entries);
      s.ending == Crashed(UNWRAP_PANIC) && |s.requests| == 1 && !s.requests[0].Other? &&
      (s.replies[0], s.entries) == Apply(entries, s.requests[0])
  {
  }

  /**
   * The replies and the map the loop leaves are those of running its commands in
   * order: SET inserts or overwrites, GET reads, and nothing else runs.
   */
  lemma {:induction false} MainRunsCommands(check: Checker, parse: FrameParser, fromFrame: CommandParser,
                                           buffer: Bytes, stream: TcpStream, entries: Entries)
    ensures var s := MainServe(check, parse, fromFrame, buffer, stream, entries);
      s.replies == ApplyAll(entries, s.requests).0 && s.entries == ApplyAll(entries, s.requests).1
    decreases Connection.Measure(buffer, stream)
  {
    if MainContinues(check, parse, fromFrame, buffer, stream, entries) {
      var cmd, buf1, s2 := MainStep(check, parse, fromFrame, buffer, stream, entries);
      var e1 := Apply(entries, cmd).1;
      MainRunsCommands(check, parse, fromFrame, buf1, s2, e1);
      ApplyAllCons(entries, cmd, MainServe(check, parse, fromFrame, buf1, s2, e1).requests);
    } else {
      MainStops(check, parse, fromFrame, buffer, stream, entries);
      RanOne(entries, MainServe(check, parse, fromFrame, buffer, stream, entries));
    }
  }

  /** A session with at most one command run, and its reply, ran its commands. */
  lemma RanOne(entries: Entries, s: Session)
    requires (s.requests == [] && s.replies == [] && s.entries == entries)
      || (|s.requests| == 1 && |s.replies| == 1 && !s.requests[0].Other? && (s.replies[0], s.entries) == Apply(entries, s.requests[0]))
    ensures Supported(s.requests)
    ensures s.replies == ApplyAll(entries, s.requests).0 && s.entries == ApplyAll(entries, s.requests).1
  {
    if s.requests != [] {
      var c := s.requests[0];
      ApplyAllCons(entries, c, []);
      assert s.requests == [c] + [] && s.replies == [s.replies[0]] + [];
    }
  }

  /**
   * When the client closes the connection cleanly, the bytes written are the
   * encodings of the replies, one per request, in order, with nothing in between.
   */
  lemma {:induction false} MainWritesReplies(check: Checker, parse: FrameParser, fromFrame: CommandParser,
                                            buffer: Bytes, stream: TcpStream, entries: Entries)
    ensures var s := MainServe(check, parse, fromFrame, buffer, stream, entries);
      s.ending.Closed? ==> s.stream.sent == stream.sent + Wire(s.replies)
    decreases Connection.Measure(buffer, stream)
  {
    if MainContinues(check, parse, fromFrame, buffer, stream, entries) {
      var cmd, buf1, s2 := MainStep(check, parse, fromFrame, buffer, stream, entries);
      var (reply, e1) := Apply(entries, cmd);
      MainWritesReplies(check, parse, fromFrame, buf1, s2, e1);
      var rest := MainServe(check, parse, fromFrame, buf1, s2, e1);
      if rest.ending.Closed? {
        WireAhead(stream.sent, s2.sent, rest.stream.sent, reply, rest.replies);
      }
    } else {
      MainStops(check, parse, fromFrame, buffer, stream, entries);
      assert Wire([]) == [] && stream.sent + [] == stream.sent;
    }
  }

  class TcpListener {
    const addr: string

    /** `new`: the address the listener is bound to (the bind itself is not modelled). */
    constructor (addr: string)
      ensures this.addr == addr
    {
      this.addr := addr;
    }

    /**
     * `process`: a fresh, empty map and a new connection over the socket, then
     * frames read and answered until the loop stops. Returns why it stopped and
     * the socket as it was left.
     */
    static method Process(socket: TcpStream, check: Checker, parse: FrameParser, fromFrame: CommandParser)
      returns (ending: Ending, out: TcpStream)
      ensures var s := MainServe(check, parse, fromFrame, [], socket, map[]);
        ending == s.ending && out == s.stream
    {
      var db: Entries := map[];
      var connection := new Connection.Connection(socket, check, parse);
      while true
        invariant fresh(connection) && connection.check == check && connection.parse == parse
        invariant var s := MainServe(check, parse, fromFrame, connection.buffer, connection.stream, db);
          var t := MainServe(check, parse, fromFrame, [], socket, map[]);
          s.ending == t.ending && s.stream == t.stream
        decreases Connection.Measure(connection.buffer, connection.stream)
      {
        var got := connection.ReadFrame();
        if got.Err? {
          return Crashed(UNWRAP_PANIC), connection.stream;
        }
        if got.value.None? {
          return Closed, connection.stream;
        }
        var parsed := fromFrame(got.value.value);
        if parsed.Err? {
          return Crashed(UNWRAP_PANIC), connection.stream;
        }
        var response: Frame;
        match parsed.value {
          case Set(key, value) =>
            db := db[key := value];
            response := Simple(OK);
          case Get(key) =>
            if key in db {
              response := Bulk(db[key]);
            } else {
              response := Null;
            }
          case Other(_) =>
            return Crashed(UNIMPLEMENTED_PANIC), connection.stream;
        }
        var written := connection.WriteFrame(response);
        // `write_frame` panics only on an Array, and no reply is one.
        if written.result.Err? {
          return Crashed(UNWRAP_PANIC), connection.stream;
        }
      }
    }
  }

  /**
   * Read-your-writes on one connection: the reply to the `i`-th request, a GET,
   * is the value of the latest SET to its key earlier on the same connection, or
   * Null: the map starts empty, so nothing from another connection is seen.
   */
  lemma MainGetSeesLatest(check: Checker, parse: FrameParser, fromFrame: CommandParser,
                          socket: TcpStream, s: Session, i: nat)
    requires s == MainServe(check, parse, fromFrame, [], socket, map[])
    requires i < |s.requests| && s.requests[i].Get?
    ensures s.replies[i] == Found(Latest(map[], s.requests[..i], s.requests[i].key))
  {
    MainRunsCommands(check, parse, fromFrame, [], socket, map[]);
    GetSeesLatest(map[], s.requests, i);
  }

  /**
   * What the client reads back after closing cleanly: decoding the bytes the loop
   * wrote yields exactly its replies, in order.
   */
  lemma MainClientReadsReplies(check: Checker, parse: FrameParser, fromFrame: CommandParser,
                               socket: TcpStream, s: Session)
    requires s == MainServe(check, parse, fromFrame, [], socket, map[])
    requires s.ending.Closed?
    ensures |socket.sent| <= |s.stream.sent|
    ensures ReadReplies(s.stream.sent[|socket.sent|..]) == s.replies && |s.replies| == |s.requests|
  {
    MainWritesReplies(check, parse, fromFrame, [], socket, map[]);
    assert s.stream.sent[|socket.sent|..] == Wire(s.replies);
    ReadRepliesWire(s.replies);
  }
}
