/**
 * src/server.rs: the server over the buffered connection. Every client task
 * shares one database behind a mutex; each frame read is turned into a command,
 * run against the database and answered with one reply frame.
 */
module Server {
  import opened Outcomes
  import opened Resp
  import opened Transport
  import opened Framing
  import opened Store
  import opened Sessions
  import Connection

  /** The texts of the error replies, "unimplemented" and "lock error". */
  const UNIMPLEMENTED: Bytes := [117, 110, 105, 109, 112, 108, 101, 109, 101, 110, 116, 101, 100]
  const LOCK_ERROR: Bytes := [108, 111, 99, 107, 32, 101, 114, 114, 111, 114]

  /** `Arc<Mutex<HashMap<String, Vec<u8>>>>`: the database every client task shares. */
  class Db {
    var entries: Entries

    constructor ()
      ensures entries == map[]
    {
      entries := map[];
    }
  }

  /**
   * `handle_frame` once the command is known: a command other than SET and GET is
   * answered with the error "unimplemented" without locking; when `db.lock()`
   * fails (`locked == false`) the answer is the error "lock error"; otherwise
   * the command runs against the database. The database changes only on a SET
   * under the lock.
   */
  function Dispatch(entries: Entries, cmd: Command, locked: bool): (r: (Frame, Entries))
    ensures cmd.Other? ==> r == (Error(UNIMPLEMENTED), entries)
    ensures !cmd.Other? && !locked ==> r == (Error(LOCK_ERROR), entries)
    ensures !cmd.Other? && locked ==> r == Apply(entries, cmd)
    ensures r.1 != entries ==> cmd.Set? && locked
    ensures Encodable(r.0)
  {
    if cmd.Other? then
      (Error(UNIMPLEMENTED), entries)
    else if !locked then
      (Error(LOCK_ERROR), entries)
    else Apply(entries, cmd)
  }

  /**
   * Reference definition for the server: the commands dispatched one after
   * another, the `j`-th under the lock outcome `locks(n + j)`; the replies in
   * order and the final database.
   */
  function DispatchAll(entries: Entries, cmds: seq<Command>, locks: nat -> bool, n: nat): (r: (seq<Frame>, Entries))
    ensures |r.0| == |cmds| && AllEncodable(r.0)
    decreases |cmds|
  {
    if cmds == [] then ([], entries)
    else
      var (reply, next) := Dispatch(entries, cmds[0], locks(n));
      var (replies, last) := DispatchAll(next, cmds[1..], locks, n + 1);
      ([reply] + replies, last)
  }

  /** Dispatching commands and then one more is dispatching the longer script. */
  lemma {:induction false} DispatchAllSnoc(entries: Entries, cmds: seq<Command>, c: Command, locks: nat -> bool, n: nat)
    ensures var (replies, last) := DispatchAll(entries, cmds, locks, n);
      var (reply, after) := Dispatch(last, c, locks(n + |cmds|));
      DispatchAll(entries, cmds + [c], locks, n) == (replies + [reply], after)
    decreases |cmds|
  {
    if cmds == [] {
      var (reply, after) := Dispatch(entries, c, locks(n));
      assert cmds + [c] == [c] && [c][0] == c && [c][1..] == [];
      assert DispatchAll(after, [], locks, n + 1) == ([], after);
      assert DispatchAll(entries, [c], locks, n) == ([reply] + [], after);
      assert [] + [reply] == [reply] + [];
    } else {
      var next := Dispatch(entries, cmds[0], locks(n)).1;
      assert (cmds + [c])[0] == cmds[0];
      assert (cmds + [c])[1..] == cmds[1..] + [c];
      DispatchAllSnoc(next, cmds[1..], c, locks, n + 1);
      var replies := DispatchAll(next, cmds[1..], locks, n + 1).0;
      var reply := Dispatch(DispatchAll(next, cmds[1..], locks, n + 1).1, c, locks(n + |cmds|)).0;
      ConcatAssoc([Dispatch(entries, cmds[0], locks(n)).0], replies, [reply]);
    }
  }

  /** The replies to a prefix of the commands are a prefix of the replies. */
  lemma {:induction false} DispatchPrefix(entries: Entries, cmds: seq<Command>, locks: nat -> bool, n: nat, k: nat)
    requires k <= |cmds|
    ensures DispatchAll(entries, cmds[..k], locks, n).0 == DispatchAll(entries, cmds, locks, n).0[..k]
    decreases |cmds|
  {
    if k > 0 {
      var next := Dispatch(entries, cmds[0], locks(n)).1;
      assert cmds[..k][0] == cmds[0];
      assert cmds[..k][1..] == cmds[1..][..k - 1];
      DispatchPrefix(next, cmds[1..], locks, n + 1, k - 1);
    }
  }

  /** The reply to the `i`-th command is its dispatch on the database the commands before it left. */
  lemma DispatchAllAt(entries: Entries, cmds: seq<Command>, locks: nat -> bool, n: nat, i: nat)
    requires i < |cmds|
    ensures DispatchAll(entries, cmds, locks, n).0[i] ==
      Dispatch(DispatchAll(entries, cmds[..i], locks, n).1, cmds[i], locks(n + i)).0
  {
    assert cmds[..i + 1] == cmds[..i] + [cmds[i]];
    DispatchAllSnoc(entries, cmds[..i], cmds[i], locks, n);
    DispatchPrefix(entries, cmds, locks, n, i + 1);
  }

  /**
   * The database after the commands holds, for every key, the value of its latest
   * SET, provided the lock of every SET succeeded: a GET, a failed lock on a GET
   * and an unsupported command change nothing.
   */
  lemma {:induction false} DispatchFinalIsLatest(entries: Entries, cmds: seq<Command>, locks: nat -> bool, n: nat, key: string)
    requires forall j :: 0 <= j < |cmds| && cmds[j].Set? ==> locks(n + j)
    ensures Lookup(DispatchAll(entries, cmds, locks, n).1, key) == Latest(entries, cmds, key)
    decreases |cmds|
  {
    if cmds != [] {
      var init := cmds[..|cmds| - 1];
      var c := cmds[|cmds| - 1];
      assert init + [c] == cmds;
      assert forall j :: 0 <= j < |init| ==> init[j] == cmds[j];
      DispatchFinalIsLatest(entries, init, locks, n, key);
      DispatchAllSnoc(entries, init, c, locks, n);
    }
  }

  /**
   * Read-your-writes over dispatched commands: a GET whose lock succeeds sees the
   * latest SET to its key before it, when the SETs before it took their locks; a
   * GET whose lock fails is answered "lock error".
   */
  lemma DispatchGetSeesLatest(entries: Entries, cmds: seq<Command>, locks: nat -> bool, n: nat, i: nat)
    requires i < |cmds| && cmds[i].Get?
    requires forall j :: 0 <= j < i && cmds[j].Set? ==> locks(n + j)
    ensures DispatchAll(entries, cmds, locks, n).0[i] ==
      if locks(n + i) then Found(Latest(entries, cmds[..i], cmds[i].key)) else Error(LOCK_ERROR)
  {
    DispatchAllAt(entries, cmds, locks, n, i);
    assert forall j :: 0 <= j < i ==> cmds[..i][j] == cmds[j];
    DispatchFinalIsLatest(entries, cmds[..i], locks, n, cmds[i].key);
  }

  /** With every lock succeeding and only SET and GET sent, dispatching is running the commands. */
  lemma {:induction false} DispatchAllIsApplyAll(entries: Entries, cmds: seq<Command>, locks: nat -> bool, n: nat)
    requires Supported(cmds) && forall j :: n <= j < n + |cmds| ==> locks(j)
    ensures DispatchAll(entries, cmds, locks, n) == ApplyAll(entries, cmds)
    decreases |cmds|
  {
    if cmds != [] {
      assert locks(n) && !cmds[0].Other?;
      var next := Apply(entries, cmds[0]).1;
      assert forall j :: 0 <= j < |cmds| - 1 ==> cmds[1..][j] == cmds[j + 1];
      DispatchAllIsApplyAll(next, cmds[1..], locks, n + 1);
    }
  }

  /**
   * The loop of `process`: read a frame; stop on a read error or a clean end;
   * `Command::from_frame(frame).unwrap()` panics on an unparsable frame; the
   * reply is written, and a write error ends the loop. `locks(n)` says whether
   * the lock taken for the `n`-th request of this connection succeeds.
   */
  function Serve(check: Checker, parse: FrameParser, fromFrame: CommandParser, locks: nat -> bool,
                 n: nat, buffer: Bytes, stream: TcpStream, entries: Entries): (s: Session)
    ensures |s.requests| == |s.replies| && AllEncodable(s.replies)
    decreases Connection.Measure(buffer, stream)
  {
    var (got, buf1, s1) := Connection.ReadFrameSpec(check, parse, buffer, stream);
    match got
    case Err(e) => Session(ReadFailed(e), [], [], buf1, s1, entries)
    case Ok(None) => Session(Closed, [], [], buf1, s1, entries)
    case Ok(Some(frame)) =>
      match fromFrame(frame)
      case Err(_) => Session(Crashed(UNWRAP_PANIC), [], [], buf1, s1, entries)
      case Ok(cmd) =>
        var (reply, e1) := Dispatch(entries, cmd, locks(n));
        var (w, s2) := Connection.WriteFrameSpec(s1, reply);
        match w
        case Panicked(m) => Session(Crashed(m), [cmd], [reply], buf1, s2, e1)
        case Returned(Err(f)) => Session(WriteFailed(f), [cmd], [reply], buf1, s2, e1)
        case Returned(Ok(_)) =>
          var rest := Serve(check, parse, fromFrame, locks, n + 1, buf1, s2, e1);
          WireSnoc(rest.replies, reply);
          Served(cmd, reply, rest)
  }

  /** A request answered and written in full: the session goes on with the next one. */
  lemma ServeContinues(check: Checker, parse: FrameParser, fromFrame: CommandParser, locks: nat -> bool,
                       n: nat, buffer: Bytes, stream: TcpStream, entries: Entries,
                       frame: Frame, buf1: Bytes, s1: TcpStream, cmd: Command, s2: TcpStream)
    requires Connection.ReadFrameSpec(check, parse, buffer, stream) == (Ok(Some(frame)), buf1, s1)
    requires fromFrame(frame) == Ok(cmd)
    requires Connection.WriteFrameSpec(s1, Dispatch(entries, cmd, locks(n)).0) == (Returned(Ok(())), s2)
    ensures Connection.Measure(buf1, s2) < Connection.Measure(buffer, stream)
    ensures Serve(check, parse, fromFrame, locks, n, buffer, stream, entries) ==
      Served(cmd, Dispatch(entries, cmd, locks(n)).0,
             Serve(check, parse, fromFrame, locks, n + 1, buf1, s2, Dispatch(entries, cmd, locks(n)).1))
  {
  }

  /** Whether the session answers a request in full and goes on to the next. */
  ghost predicate Continues(check: Checker, parse: FrameParser, fromFrame: CommandParser, locks: nat -> bool,
                            n: nat, buffer: Bytes, stream: TcpStream, entries: Entries)
  {
    var (got, buf1, s1) := Connection.ReadFrameSpec(check, parse, buffer, stream);
    got.Ok? && got.value.Some? && fromFrame(got.value.value).Ok? &&
    Connection.WriteFrameSpec(s1, Dispatch(entries, fromFrame(got.value.value).value, locks(n)).0).0 == Returned(Ok(()))
  }

  /** A session that reads no frame, or one that is not a command, runs nothing and writes nothing. */
  lemma ServeEnds(check: Checker, parse: FrameParser, fromFrame: CommandParser, locks: nat -> bool,
                  n: nat, buffer: Bytes, stream: TcpStream, entries: Entries)
    requires var r := Connection.ReadFrameSpec(check, parse, buffer, stream);
      !(r.0.Ok? && r.0.value.Some? && fromFrame(r.0.value.value).Ok?)
    ensures var s := Serve(check, parse, fromFrame, locks, n, buffer, stream, entries);
      s.requests == [] && s.replies == [] && s.stream.sent == stream.sent && s.entries == entries
  {
  }

  /**
   * A session whose reply is not written in full ends there with a write error,
   * having run that one command. Writing a reply never panics: replies are never arrays.
   */
  lemma ServeWriteFails(check: Checker, parse: FrameParser, fromFrame: CommandParser, locks: nat -> bool,
                        n: nat, buffer: Bytes, stream: TcpStream, entries: Entries)
    requires var r := Connection.ReadFrameSpec(check, parse, buffer, stream);
      r.0.Ok? && r.0.value.Some? && fromFrame(r.0.value.value).Ok? &&
      Connection.WriteFrameSpec(r.2, Dispatch(entries, fromFrame(r.0.value.value).value, locks(n)).0).0 != Returned(Ok(()))
    ensures var s := Serve(check, parse, fromFrame, locks, n, buffer, stream, entries);
      s.ending.WriteFailed? && |s.requests| == 1 && (s.replies[0], s.entries) == Dispatch(entries, s.requests[0], locks(n))
  {
  }

  /**
   * A session that stops at this request either ran nothing and wrote nothing,
   * or ran one command whose reply could not be written.
   */
  lemma ServeStops(check: Checker, parse: FrameParser, fromFrame: CommandParser, locks: nat -> bool,
                   n: nat, buffer: Bytes, stream: TcpStream, entries: Entries)
    requires !Continues(check, parse, fromFrame, locks, n, buffer, stream, entries)
    ensures var s := Serve(check, parse, fromFrame, locks, n, buffer, stream, entries);
      (s.requests == [] && s.replies == [] && s.stream.sent == stream.sent && s.entries == entries)
      || (s.ending.WriteFailed? && |s.requests| == 1 && (s.replies[0], s.entries) == Dispatch(entries, s.requests[0], locks(n)))
  {
    var r := Connection.ReadFrameSpec(check, parse, buffer, stream);
    if r.0.Ok? && r.0.value.Some? && fromFrame(r.0.value.value).Ok? {
      ServeWriteFails(check, parse, fromFrame, locks, n, buffer, stream, entries);
    } else {
      ServeEnds(check, parse, fromFrame, locks, n, buffer, stream, entries);
    }
  }

  /** The request a continuing session answers, and the connection state it goes on from. */
  lemma ServeStep(check: Checker, parse: FrameParser, fromFrame: CommandParser, locks: nat -> bool,
                  n: nat, buffer: Bytes, stream: TcpStream, entries: Entries)
    returns (cmd: Command, buf1: Bytes, s2: TcpStream)
    requires Continues(check, parse, fromFrame, locks, n, buffer, stream, entries)
    ensures Connection.Measure(buf1, s2) < Connection.Measure(buffer, stream)
    ensures s2.sent == stream.sent + Encode(Dispatch(entries, cmd, locks(n)).0)
    ensures Serve(check, parse, fromFrame, locks, n, buffer, stream, entries) ==
      Served(cmd, Dispatch(entries, cmd, locks(n)).0,
             Serve(check, parse, fromFrame, locks, n + 1, buf1, s2, Dispatch(entries, cmd, locks(n)).1))
  {
    var (got, b1, s1) := Connection.ReadFrameSpec(check, parse, buffer, stream);
    cmd := fromFrame(got.value.value).value;
    buf1 := b1;
    var reply := Dispatch(entries, cmd, locks(n)).0;
    s2 := Connection.WriteFrameSpec(s1, reply).1;
    Connection.WriteFrameEmitsEncoding(s1, reply);
    ServeContinues(check, parse, fromFrame, locks, n, buffer, stream, entries, got.value.value, buf1, s1, cmd, s2);
  }

  /**
   * A session's replies and final database are those of dispatching its
   * requests in order, the `j`-th under the lock outcome `locks(n + j)`.
   */
  predicate RunsCommands(s: Session, locks: nat -> bool, n: nat, entries: Entries)
  {
    |s.requests| == |s.replies| && (s.replies, s.entries) == DispatchAll(entries, s.requests, locks, n)
  }

  /** Prepending a request answered in full keeps a session running its commands. */
  lemma RunsNext(entries: Entries, cmd: Command, locks: nat -> bool, n: nat, rest: Session, s: Session)
    requires s == Served(cmd, Dispatch(entries, cmd, locks(n)).0, rest)
    requires RunsCommands(rest, locks, n + 1, Dispatch(entries, cmd, locks(n)).1)
    ensures RunsCommands(s, locks, n, entries)
  {
    assert s.requests[0] == cmd && s.requests[1..] == rest.requests;
  }

  /** A session that stopped at its first request still ran its commands. */
  lemma RunsStopped(entries: Entries, locks: nat -> bool, n: nat, s: Session)
    requires (s.requests == [] && s.replies == [] && s.entries == entries)
      || (|s.requests| == 1 && |s.replies| == 1 && (s.replies[0], s.entries) == Dispatch(entries, s.requests[0], locks(n)))
    ensures RunsCommands(s, locks, n, entries)
  {
    if s.requests != [] {
      var c := s.requests[0];
      var next := Dispatch(entries, c, locks(n)).1;
      assert s.requests == [c] && [c][0] == c && [c][1..] == [];
      assert DispatchAll(next, [], locks, n + 1) == ([], next);
      var reply := Dispatch(entries, c, locks(n)).0;
      assert DispatchAll(entries, [c], locks, n) == ([reply] + [], next);
      assert [reply] + [] == [reply] && s.replies == [s.replies[0]];
    }
  }

  /**
   * Unless a write failed, the bytes written to the client are the encodings of
   * the replies, in order, with nothing in between.
   */
  lemma {:induction false} ServeWritesReplies(check: Checker, parse: FrameParser, fromFrame: CommandParser, locks: nat -> bool,
                                             n: nat, buffer: Bytes, stream: TcpStream, entries: Entries)
    ensures var s := Serve(check, parse, fromFrame, locks, n, buffer, stream, entries);
      !s.ending.WriteFailed? ==> s.stream.sent == stream.sent + Wire(s.replies)
    decreases Connection.Measure(buffer, stream)
  {
    if Continues(check, parse, fromFrame, locks, n, buffer, stream, entries) {
      var cmd, buf1, s2 := ServeStep(check, parse, fromFrame, locks, n, buffer, stream, entries);
      var (reply, e1) := Dispatch(entries, cmd, locks(n));
      ServeWritesReplies(check, parse, fromFrame, locks, n + 1, buf1, s2, e1);
      var rest := Serve(check, parse, fromFrame, locks, n + 1, buf1, s2, e1);
      if !rest.ending.WriteFailed? {
        WireAhead(stream.sent, s2.sent, rest.stream.sent, reply, rest.replies);
      }
    } else {
      ServeStops(check, parse, fromFrame, locks, n, buffer, stream, entries);
      assert Wire([]) == [] && stream.sent + [] == stream.sent;
    }
  }

  /**
   * Whatever the client sends and whichever locks fail, the session replies and
   * leaves the database exactly as dispatching its requests in order does: an
   * unsupported command is answered "unimplemented" and the session goes on.
   */
  lemma {:induction false} ServeRunsCommands(check: Checker, parse: FrameParser, fromFrame: CommandParser, locks: nat -> bool,
                                            n: nat, buffer: Bytes, stream: TcpStream, entries: Entries)
    ensures RunsCommands(Serve(check, parse, fromFrame, locks, n, buffer, stream, entries), locks, n, entries)
    decreases Connection.Measure(buffer, stream)
  {
    if Continues(check, parse, fromFrame, locks, n, buffer, stream, entries) {
      var cmd, buf1, s2 := ServeStep(check, parse, fromFrame, locks, n, buffer, stream, entries);
      var e1 := Dispatch(entries, cmd, locks(n)).1;
      ServeRunsCommands(check, parse, fromFrame, locks, n + 1, buf1, s2, e1);
      RunsNext(entries, cmd, locks, n, Serve(check, parse, fromFrame, locks, n + 1, buf1, s2, e1),
               Serve(check, parse, fromFrame, locks, n, buffer, stream, entries));
    } else {
      ServeStops(check, parse, fromFrame, locks, n, buffer, stream, entries);
      RunsStopped(entries, locks, n, Serve(check, parse, fromFrame, locks, n, buffer, stream, entries));
    }
  }

  /**
   * When every lock succeeds and the client sends only SET and GET, the session
   * replies and leaves the database exactly as running its commands with
   * `ApplyAll` does.
   */
  lemma ServeAppliesCommands(check: Checker, parse: FrameParser, fromFrame: CommandParser, locks: nat -> bool,
                             stream: TcpStream, entries: Entries, s: Session)
    requires s == Serve(check, parse, fromFrame, locks, 0, [], stream, entries)
    requires Supported(s.requests) && forall j :: 0 <= j < |s.requests| ==> locks(j)
    ensures (s.replies, s.entries) == ApplyAll(entries, s.requests)
  {
    ServeRunsCommands(check, parse, fromFrame, locks, 0, [], stream, entries);
    DispatchAllIsApplyAll(entries, s.requests, locks, 0);
  }

  /**
   * Read-your-writes for one client: the reply to the `i`-th request, a GET, is
   * the value of the latest SET to its key before it, or the value the database
   * held, or Null; or "lock error" when its own lock fails. Only the SETs before
   * it need their locks to succeed; any other request in between changes nothing.
   */
  lemma ServerGetSeesLatest(check: Checker, parse: FrameParser, fromFrame: CommandParser, locks: nat -> bool,
                            stream: TcpStream, entries: Entries, s: Session, i: nat)
    requires s == Serve(check, parse, fromFrame, locks, 0, [], stream, entries)
    requires i < |s.requests| && s.requests[i].Get?
    requires forall j :: 0 <= j < i && s.requests[j].Set? ==> locks(j)
    ensures s.replies[i] == if locks(i) then Found(Latest(entries, s.requests[..i], s.requests[i].key)) else Error(LOCK_ERROR)
  {
    ServeRunsCommands(check, parse, fromFrame, locks, 0, [], stream, entries);
    assert s.replies == DispatchAll(entries, s.requests, locks, 0).0;
    DispatchGetSeesLatest(entries, s.requests, locks, 0, i);
  }

  /** A request other than SET and GET is answered "unimplemented", wherever it comes in the session. */
  lemma ServerAnswersUnimplemented(check: Checker, parse: FrameParser, fromFrame: CommandParser, locks: nat -> bool,
                                   stream: TcpStream, entries: Entries, s: Session, i: nat)
    requires s == Serve(check, parse, fromFrame, locks, 0, [], stream, entries)
    requires i < |s.requests| && s.requests[i].Other?
    ensures s.replies[i] == Error(UNIMPLEMENTED)
  {
    ServeRunsCommands(check, parse, fromFrame, locks, 0, [], stream, entries);
    DispatchAllAt(entries, s.requests, locks, 0, i);
  }

  /**
   * What the client reads back: unless a write failed, decoding the bytes the
   * session wrote yields exactly its replies, one per request, in order.
   */
  lemma ClientReadsReplies(check: Checker, parse: FrameParser, fromFrame: CommandParser, locks: nat -> bool,
                           stream: TcpStream, entries: Entries, s: Session)
    requires s == Serve(check, parse, fromFrame, locks, 0, [], stream, entries)
    requires !s.ending.WriteFailed?
    ensures |stream.sent| <= |s.stream.sent|
    ensures ReadReplies(s.stream.sent[|stream.sent|..]) == s.replies && |s.replies| == |s.requests|
  {
    ServeWritesReplies(check, parse, fromFrame, locks, 0, [], stream, entries);
    assert s.stream.sent[|stream.sent|..] == Wire(s.replies);
    ReadRepliesWire(s.replies);
  }

  class MiniRedisServer {
    const addr: string
    const db: Db

    /** `new`: the address to listen on and a fresh, empty shared database. */
    constructor (addr: string)
      ensures this.addr == addr && fresh(db) && db.entries == map[]
    {
      this.addr := addr;
      db := new Db();
    }

    /** `handle_frame`: `Command::from_frame(frame).unwrap()`, then the command under the lock. */
    static method HandleFrame(frame: Frame, db: Db, fromFrame: CommandParser, locked: bool) returns (r: Outcome<Frame>)
      modifies db
      ensures fromFrame(frame).Err? ==> r == Panicked(UNWRAP_PANIC) && db.entries == old(db.entries)
      ensures fromFrame(frame).Ok? ==>
        var (reply, after) := Dispatch(old(db.entries), fromFrame(frame).value, locked);
        r == Returned(reply) && db.entries == after
    {
      var parsed := fromFrame(frame);
      if parsed.Err? {
        return Panicked(UNWRAP_PANIC);
      }
      match parsed.value
      case Set(key, value) =>
        if locked {
          db.entries := db.entries[key := value];
          r := Returned(Simple(OK));
        } else {
          r := Returned(Error(LOCK_ERROR));
        }
      case Get(key) =>
        if locked {
          if key in db.entries {
            r := Returned(Bulk(db.entries[key]));
          } else {
            r := Returned(Null);
          }
        } else {
          r := Returned(Error(LOCK_ERROR));
        }
      case Other(_) =>
        r := Returned(Error(UNIMPLEMENTED));
    }

    /**
     * `process`: a new buffered connection over the socket, then frames read and
     * answered until the loop stops. Returns why it stopped and the socket as it
     * was left; the shared database holds the effects of the session.
     */
    static method Process(socket: TcpStream, db: Db, check: Checker, parse: FrameParser,
                          fromFrame: CommandParser, locks: nat -> bool) returns (ending: Ending, out: TcpStream)
      modifies db
      ensures var s := Serve(check, parse, fromFrame, locks, 0, [], socket, old(db.entries));
        ending == s.ending && out == s.stream && db.entries == s.entries
    {
      var connection := new Connection.Connection(socket, check, parse);
      var n := 0;
      while true
        invariant fresh(connection) && connection.check == check && connection.parse == parse
        invariant var s := Serve(check, parse, fromFrame, locks, n, connection.buffer, connection.stream, db.entries);
          var t := Serve(check, parse, fromFrame, locks, 0, [], socket, old(db.entries));
          s.ending == t.ending && s.stream == t.stream && s.entries == t.entries
        decreases Connection.Measure(connection.buffer, connection.stream)
      {
        var got := connection.ReadFrame();
        if got.Err? {
          return ReadFailed(got.failure), connection.stream;
        }
        if got.value.None? {
          return Closed, connection.stream;
        }
        var response := HandleFrame(got.value.value, db, fromFrame, locks(n));
        if response.Panicked? {
          return Crashed(response.message), connection.stream;
        }
        var written := connection.WriteFrame(response.result);
        // `write_frame` panics only on an Array, and no reply is one.
        if written.result.Err? {
          return WriteFailed(written.result.failure), connection.stream;
        }
        n := n + 1;
      }
    }
  }
}
