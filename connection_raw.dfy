/**
 * src/connection_raw.rs: the hand-rolled connection. A zero-filled byte vector
 * with a `cursor` marking how many bytes have been read into it; the vector
 * doubles when full, and parsed frames are drained from its front.
 *
 * `Connection.ReadFrame` and `Connection.ParseFrame` model the code as written:
 * `check` sees the whole vector, including the zero tail past `cursor`, and
 * `cursor` is left alone by the drain. `ReadFrameWindowed` has only the first of
 * these corrected, which shows what the second does. `ReadFrameFixed` and
 * `ParseFrameFixed` are the corrected operations, proved to decode like the
 * buffered connection.
 */
module ConnectionRaw {
  import opened Outcomes
  import opened Resp
  import opened Transport
  import opened Framing

  /** `new` allocates `vec![0; 4096]`. */
  const INITIAL_LEN: nat := 4096

  function Zeros(n: nat): (r: Bytes)
    ensures |r| == n && forall i :: 0 <= i < n ==> r[i] == 0
  {
    if n == 0 then [] else [0] + Zeros(n - 1)
  }

  /**
   * Lines 41-44: before a read, a vector whose every byte is filled
   * (`len == cursor`) is resized to twice its length with zero fill; otherwise
   * its length is unchanged.
   */
  function Grow(buffer: Bytes, cursor: nat): (r: Bytes)
    ensures |buffer| == cursor ==> |r| == 2 * |buffer|
    ensures |buffer| != cursor ==> |r| == |buffer|
    ensures r[..|buffer|] == buffer
    ensures forall i :: |buffer| <= i < |r| ==> r[i] == 0
  {
    if |buffer| == cursor then buffer + Zeros(|buffer|) else buffer
  }

  /**
   * The corrected growth: a full vector doubles, and an empty one becomes 4096
   * zero bytes, so that there is always room after `cursor`.
   */
  function GrowFixed(buffer: Bytes, cursor: nat): (r: Bytes)
    requires cursor <= |buffer|
    ensures |buffer| <= |r| && cursor < |r|
    ensures r[..|buffer|] == buffer
  {
    if |buffer| == cursor then buffer + Zeros(if |buffer| == 0 then INITIAL_LEN else |buffer|) else buffer
  }

  /** A read of `data` into `buffer[cursor..]`: those positions change, no others. */
  function Land(buffer: Bytes, cursor: nat, data: Bytes): (r: Bytes)
    requires cursor + |data| <= |buffer|
    ensures |r| == |buffer|
    ensures r[cursor..cursor + |data|] == data
    ensures r[..cursor] == buffer[..cursor] && r[cursor + |data|..] == buffer[cursor + |data|..]
    ensures r[..cursor + |data|] == buffer[..cursor] + data
  {
    buffer[..cursor] + data + buffer[cursor + |data|..]
  }

  /** A pass that reads some bytes lands them after the cursor and goes round again. */
  lemma PassAgain(check: Checker, parse: FrameParser, buffer: Bytes, cursor: nat, stream: TcpStream,
                  buf1: Bytes, data: Bytes, s1: TcpStream)
    requires ParseStep(check, parse, buffer) == (Ok(None), buf1)
    requires cursor <= |Grow(buf1, cursor)|
    requires Read(stream, |Grow(buf1, cursor)| - cursor) == (Ok(data), s1)
    requires |data| > 0
    ensures Pass(check, parse, buffer, cursor, stream) == Again(Land(Grow(buf1, cursor), cursor, data), cursor + |data|, s1)
  {
  }

  /**
   * A pass returns what `parse_frame` returns when that is a frame or an error,
   * and panics when the cursor is past the end of the grown vector.
   */
  lemma PassAfterParse(check: Checker, parse: FrameParser, buffer: Bytes, cursor: nat, stream: TcpStream)
    ensures var (p, buf1) := ParseStep(check, parse, buffer);
      (p.Err? || p.value.Some? ==> Pass(check, parse, buffer, cursor, stream) == Stop((Returned(p), buf1, cursor, stream))) &&
      (p == Ok(None) && cursor > |Grow(buf1, cursor)| ==>
        Pass(check, parse, buffer, cursor, stream) == Stop((Panicked(SLICE_PANIC), Grow(buf1, cursor), cursor, stream)))
  {
  }

  /** A pass whose read fails or delivers nothing returns, with the grown vector. */
  lemma PassReadStops(check: Checker, parse: FrameParser, buffer: Bytes, cursor: nat, stream: TcpStream, buf1: Bytes)
    requires ParseStep(check, parse, buffer) == (Ok(None), buf1)
    requires cursor <= |Grow(buf1, cursor)|
    requires var got := Read(stream, |Grow(buf1, cursor)| - cursor).0; got.Err? || |got.value| == 0
    ensures var (got, s1) := Read(stream, |Grow(buf1, cursor)| - cursor);
      Pass(check, parse, buffer, cursor, stream) ==
        Stop((Returned(if got.Err? then Err(got.failure) else if cursor == 0 then Ok(None) else Err(ConnectionReset)),
              Grow(buf1, cursor), cursor, s1))
  {
  }

  /** What `read_frame` returns, and the vector, cursor and stream it leaves. */
  type RawState = (Outcome<Res<Option<Frame>>>, Bytes, nat, TcpStream)

  /** The message of the panic when `&buffer[cursor..]` starts past the end. */
  const SLICE_PANIC: string := "range start index out of range"

  /** One pass of the loop of `read_frame`: it either returns, or goes round again from a new state. */
  datatype Turn = Stop(state: RawState) | Again(buffer: Bytes, cursor: nat, stream: TcpStream)

  /**
   * The rest of a pass once `parse_frame` found no frame (lines 40-58): grow if
   * full; read into `buffer[cursor..]`, which panics when `cursor` is past the end;
   * 0 bytes read is a clean end when `cursor == 0` and "connection reset by peer"
   * otherwise; `n > 0` bytes advance `cursor` by `n` and the loop goes round again.
   */
  function Refill(buffer: Bytes, cursor: nat, stream: TcpStream): (r: Turn)
    ensures r.Stop? ==> r.state.3.sent == stream.sent && r.state.3.room == stream.room
    ensures r.Again? ==> r.stream.sent == stream.sent && r.stream.room == stream.room
    ensures r.Again? ==> Weight(r.stream.incoming) < Weight(stream.incoming)
  {
    var buf2 := Grow(buffer, cursor);
    if cursor > |buf2| then Stop((Panicked(SLICE_PANIC), buf2, cursor, stream))
    else
      var (got, s1) := Read(stream, |buf2| - cursor);
      match got
      case Err(e) => Stop((Returned(Err(e)), buf2, cursor, s1))
      case Ok(data) =>
        if |data| == 0 then Stop((Returned(if cursor == 0 then Ok(None) else Err(ConnectionReset)), buf2, cursor, s1))
        else Again(Land(buf2, cursor, data), cursor + |data|, s1)
  }

  /**
   * One pass of the loop of `read_frame` as written: `parse_frame` over the whole
   * vector; a frame or an error returns, and otherwise the pass goes on with `Refill`.
   */
  function Pass(check: Checker, parse: FrameParser, buffer: Bytes, cursor: nat, stream: TcpStream): (r: Turn)
    ensures r.Stop? ==> r.state.3.sent == stream.sent && r.state.3.room == stream.room
    ensures r.Again? ==> r.stream.sent == stream.sent && r.stream.room == stream.room
    ensures r.Again? ==> Weight(r.stream.incoming) < Weight(stream.incoming)
  {
    var (p, buf1) := ParseStep(check, parse, buffer);
    if p.Err? || p.value.Some? then Stop((Returned(p), buf1, cursor, stream))
    else Refill(buf1, cursor, stream)
  }

  /** What `read_frame` returns, and the vector, cursor and stream it leaves: passes until one returns. */
  function ReadFrameSpec(check: Checker, parse: FrameParser, buffer: Bytes, cursor: nat, stream: TcpStream): (r: RawState)
    ensures r.3.sent == stream.sent && r.3.room == stream.room
    decreases Weight(stream.incoming)
  {
    match Pass(check, parse, buffer, cursor, stream)
    case Stop(state) => state
    case Again(buffer', cursor', stream') => ReadFrameSpec(check, parse, buffer', cursor', stream')
  }

  /**
   * Finding: a fresh connection never yields a frame. The first `parse_frame`
   * runs `check` over the 4096 zero bytes of the new vector; 0 is not a frame type
   * byte, so `read_frame` fails with a protocol error before reading anything.
   */
  lemma FreshConnectionFails(check: Checker, parse: FrameParser, stream: TcpStream)
    ensures var r := ReadFrameSpec(check, parse, Zeros(INITIAL_LEN), 0, stream);
      r.0.Returned? && r.0.result.Err? && r.0.result.failure.Protocol?
      && r.1 == Zeros(INITIAL_LEN) && r.2 == 0 && r.3 == stream
  {
    assert !IsTypeByte(Zeros(INITIAL_LEN)[0]);
  }

  /**
   * The slice of line 47: with no frame buffered and `cursor` past the end of the
   * vector, `&buffer[cursor..]` panics before anything is read. The code as
   * written never gets there, since it never reads (`FreshConnectionFails`).
   */
  lemma StaleCursorPanics(check: Checker, parse: FrameParser, buffer: Bytes, cursor: nat, stream: TcpStream)
    requires check(buffer) == Incomplete && cursor > |buffer|
    ensures ReadFrameSpec(check, parse, buffer, cursor, stream) == (Panicked(SLICE_PANIC), buffer, cursor, stream)
  {
  }

  /** The message of the panic when `&buffer[..cursor]` ends past the end of the vector. */
  const END_PANIC: string := "range end index out of range"

  /**
   * One pass of the loop with line 69 corrected to look only at the filled bytes
   * `buffer[..cursor]`, and line 85 as written: the drain removes the frame from
   * the front of the vector, but `cursor` stays where it was. A `cursor` past the
   * end of the vector panics on the slice of line 69.
   */
  function PassWindowed(check: Checker, parse: FrameParser, buffer: Bytes, cursor: nat, stream: TcpStream): (r: Turn)
    ensures cursor > |buffer| ==> r == Stop((Panicked(END_PANIC), buffer, cursor, stream))
    ensures r.Stop? && r.state.0.Returned? && r.state.0.result.Ok? && r.state.0.result.value.Some? ==>
      cursor <= |buffer| && check(buffer[..cursor]).Complete? &&
      r.state.1 == buffer[check(buffer[..cursor]).len..] && r.state.2 == cursor
    ensures r.Stop? ==> r.state.3.sent == stream.sent && r.state.3.room == stream.room
    ensures r.Again? ==> r.stream.sent == stream.sent && r.stream.room == stream.room
    ensures r.Again? ==> Weight(r.stream.incoming) < Weight(stream.incoming)
  {
    if cursor > |buffer| then Stop((Panicked(END_PANIC), buffer, cursor, stream))
    else
      var window := buffer[..cursor];
      var (p, _) := ParseStep(check, parse, window);
      if p.Err? then Stop((Returned(p), buffer, cursor, stream))
      else if p.value.Some? then Stop((Returned(p), buffer[check(window).len..], cursor, stream))
      else Refill(buffer, cursor, stream)
  }

  /** `read_frame` with line 69 corrected and line 85 as written: passes until one returns. */
  function ReadFrameWindowed(check: Checker, parse: FrameParser, buffer: Bytes, cursor: nat, stream: TcpStream): (r: RawState)
    ensures r.3.sent == stream.sent && r.3.room == stream.room
    decreases Weight(stream.incoming)
  {
    match PassWindowed(check, parse, buffer, cursor, stream)
    case Stop(state) => state
    case Again(buffer', cursor', stream') => ReadFrameWindowed(check, parse, buffer', cursor', stream')
  }

  /** The simple string "+OK\r\n". */
  const OK_LINE: Bytes := [PLUS, 79, 75, CR, LF]

  /**
   * Finding, continued: with line 69 corrected, the stale `cursor` of line 85
   * makes the window take in the zero bytes the drain moved down. Two "+OK\r\n"
   * frames arriving in one read are returned, after which the window is ten zero
   * bytes and the third `read_frame` fails with a protocol error, where a decoder
   * that sees every byte at once finds nothing left and the stream closed cleanly.
   */
  lemma DrainedZerosMalformed(check: Checker, parse: FrameParser, ok: Frame, stream: TcpStream)
    requires check(OK_LINE) == Complete(5) && parse(OK_LINE) == Ok(ok)
    requires stream.incoming == [Data(OK_LINE + OK_LINE)]
    ensures var r1 := ReadFrameWindowed(check, parse, Zeros(INITIAL_LEN), 0, stream);
      var r2 := ReadFrameWindowed(check, parse, r1.1, r1.2, r1.3);
      var r3 := ReadFrameWindowed(check, parse, r2.1, r2.2, r2.3);
      r1.0 == Returned(Ok(Some(ok))) && r2.0 == Returned(Ok(Some(ok))) &&
      r3.0.Returned? && r3.0.result.Err? && r3.0.result.failure.Protocol?
    ensures var f1 := FirstFrame(check, parse, OK_LINE + OK_LINE);
      var f2 := FirstFrame(check, parse, f1.1);
      f1.0 == Ok(Some(ok)) && f2.0 == Ok(Some(ok)) && FirstFrame(check, parse, f2.1).0 == Ok(None)
  {
    var both := OK_LINE + OK_LINE;
    var landed := Land(Zeros(INITIAL_LEN), 0, both);
    var s1 := stream.(incoming := []);
    WindowedFirstCall(check, parse, ok, stream);
    WindowedDrainedCall(check, parse, ok, landed[5..], s1);
    WindowedZeroWindow(check, parse, landed[5..][5..], s1);
    // The all-at-once decoder: two frames, then nothing left.
    CheckStable(check, OK_LINE, OK_LINE);
    assert both[..5] == OK_LINE && both[5..] == OK_LINE;
    assert FirstFrame(check, parse, both) == (Ok(Some(ok)), OK_LINE);
    assert OK_LINE[..5] == OK_LINE && OK_LINE[5..] == [];
    assert FirstFrame(check, parse, OK_LINE) == (Ok(Some(ok)), []);
  }

  /** The first call: the empty window is Incomplete, one read lands both frames, and the next pass drains one. */
  lemma WindowedFirstCall(check: Checker, parse: FrameParser, ok: Frame, stream: TcpStream)
    requires check(OK_LINE) == Complete(5) && parse(OK_LINE) == Ok(ok)
    requires stream.incoming == [Data(OK_LINE + OK_LINE)]
    ensures ReadFrameWindowed(check, parse, Zeros(INITIAL_LEN), 0, stream) ==
      (Returned(Ok(Some(ok))), Land(Zeros(INITIAL_LEN), 0, OK_LINE + OK_LINE)[5..], 10, stream.(incoming := []))
  {
    var both := OK_LINE + OK_LINE;
    CheckStable(check, OK_LINE, OK_LINE);
    assert both[..5] == OK_LINE;
    var s1 := stream.(incoming := []);
    assert Zeros(INITIAL_LEN)[..0] == [];
    assert Read(stream, INITIAL_LEN) == (Ok(both), s1);
    var b0 := Land(Zeros(INITIAL_LEN), 0, both);
    assert PassWindowed(check, parse, Zeros(INITIAL_LEN), 0, stream) == Again(b0, 10, s1);
    assert b0[..10] == both;
    assert PassWindowed(check, parse, b0, 10, s1) == Stop((Returned(Ok(Some(ok))), b0[5..], 10, s1));
  }

  /** The second call: the window is the second frame followed by five zero bytes, and that frame is drained. */
  lemma WindowedDrainedCall(check: Checker, parse: FrameParser, ok: Frame, b1: Bytes, s1: TcpStream)
    requires check(OK_LINE) == Complete(5) && parse(OK_LINE) == Ok(ok)
    requires b1 == Land(Zeros(INITIAL_LEN), 0, OK_LINE + OK_LINE)[5..]
    ensures ReadFrameWindowed(check, parse, b1, 10, s1) == (Returned(Ok(Some(ok))), b1[5..], 10, s1)
  {
    var w1 := b1[..10];
    assert w1 == OK_LINE + w1[5..];
    CheckStable(check, OK_LINE, w1[5..]);
    assert w1[..5] == OK_LINE;
    assert PassWindowed(check, parse, b1, 10, s1) == Stop((Returned(Ok(Some(ok))), b1[5..], 10, s1));
  }

  /** The third call: the window is ten zero bytes, and 0 is not a frame type byte. */
  lemma WindowedZeroWindow(check: Checker, parse: FrameParser, b2: Bytes, s1: TcpStream)
    requires b2 == Land(Zeros(INITIAL_LEN), 0, OK_LINE + OK_LINE)[5..][5..]
    ensures var r := ReadFrameWindowed(check, parse, b2, 10, s1);
      r.0.Returned? && r.0.result.Err? && r.0.result.failure.Protocol?
  {
    assert b2[..10][0] == Zeros(INITIAL_LEN)[10] == 0;
    assert !IsTypeByte(b2[..10][0]);
  }

  /** A read of 0 bytes ends the loop: cleanly when nothing was read yet, as a reset otherwise. */
  lemma ZeroByteRead(check: Checker, parse: FrameParser, buffer: Bytes, cursor: nat, stream: TcpStream)
    requires check(buffer) == Incomplete
    requires cursor <= |Grow(buffer, cursor)|
    requires Read(stream, |Grow(buffer, cursor)| - cursor).0 == Ok([])
    ensures ReadFrameSpec(check, parse, buffer, cursor, stream).0 ==
      Returned(if cursor == 0 then Ok(None) else Err(ConnectionReset))
  {
  }

  /** The outcome of `read_frame` is that of the pass that returns. */
  lemma SpecStop(check: Checker, parse: FrameParser, buffer: Bytes, cursor: nat, stream: TcpStream, state: RawState)
    requires Pass(check, parse, buffer, cursor, stream) == Stop(state)
    ensures ReadFrameSpec(check, parse, buffer, cursor, stream) == state
  {
  }

  /** A pass that goes round again leaves the outcome of `read_frame` unchanged. */
  lemma SpecAgain(check: Checker, parse: FrameParser, buffer: Bytes, cursor: nat, stream: TcpStream,
                  buffer': Bytes, cursor': nat, stream': TcpStream)
    requires Pass(check, parse, buffer, cursor, stream) == Again(buffer', cursor', stream')
    ensures ReadFrameSpec(check, parse, buffer, cursor, stream) == ReadFrameSpec(check, parse, buffer', cursor', stream')
  {
  }

  /**
   * Bytes moved from the stream to the end of the window leave the whole unchanged.
   * A regrouping of concatenations that only helps the solver in `ReadPassFixed`.
   */
  lemma Rejoin(window: Bytes, data: Bytes, later: Bytes, rest: Bytes)
    requires data + later == rest
    ensures (window + data) + later == window + rest
  {
  }

  class Connection {
    var stream: TcpStream
    var buffer: Bytes
    var cursor: nat
    const check: Checker
    const parse: FrameParser

    /** `new`: a 4096-byte zero-filled vector and `cursor == 0`. */
    constructor (stream: TcpStream, check: Checker, parse: FrameParser)
      ensures this.stream == stream && buffer == Zeros(INITIAL_LEN) && cursor == 0
      ensures this.check == check && this.parse == parse
    {
      this.stream := stream;
      buffer := Zeros(INITIAL_LEN);
      cursor := 0;
      this.check := check;
      this.parse := parse;
    }

    /**
     * `parse_frame` as written: `check` over the whole vector; on Complete(len)
     * the first `len` bytes are drained (the rest shifts down in order) and
     * `cursor` is left as it was; Incomplete leaves everything unchanged; other
     * errors propagate.
     */
    method ParseFrame() returns (r: Res<Option<Frame>>)
      modifies this`buffer
      ensures (r, buffer) == ParseStep(check, parse, old(buffer))
      ensures check(old(buffer)).Complete? && r.Ok? ==>
        var len := check(old(buffer)).len;
        r == Ok(Some(parse(old(buffer)[..len]).value)) && buffer == old(buffer)[len..]
      ensures check(old(buffer)) == Incomplete ==> r == Ok(None) && buffer == old(buffer)
      ensures check(old(buffer)).Malformed? ==> r == Err(Protocol(check(old(buffer)).msg)) && buffer == old(buffer)
    {
      match check(buffer)
      case Complete(len) =>
        var parsed := parse(buffer[..len]);
        if parsed.Err? {
          return Err(parsed.failure);
        }
        buffer := buffer[len..];   // drain(..len)
        r := Ok(Some(parsed.value));
      case Incomplete =>
        r := Ok(None);
      case Malformed(msg) =>
        r := Err(Protocol(msg));
    }

    /**
     * One pass of the loop of `read_frame` as written. `done` says whether the pass
     * returns, with `r`; otherwise the loop goes round again from the new state.
     */
    method ReadPass() returns (done: bool, r: Outcome<Res<Option<Frame>>>)
      modifies this`buffer, this`cursor, this`stream
      ensures done ==> Pass(check, parse, old(buffer), old(cursor), old(stream)) == Stop((r, buffer, cursor, stream))
      ensures !done ==> Pass(check, parse, old(buffer), old(cursor), old(stream)) == Again(buffer, cursor, stream)
    {
      ghost var buffer0, stream0 := buffer, stream;
      var parsed := ParseFrame();
      PassAfterParse(check, parse, buffer0, cursor, stream);
      if parsed.Err? || parsed.value.Some? {
        return true, Returned(parsed);
      }
      ghost var parsedBuffer := buffer;
      buffer := Grow(buffer, cursor);   // if len == cursor: resize(len * 2, 0)
      if cursor > |buffer| {
        return true, Panicked(SLICE_PANIC);
      }
      var (got, s1) := Read(stream, |buffer| - cursor);
      stream := s1;
      if got.Err? || |got.value| == 0 {
        PassReadStops(check, parse, buffer0, cursor, stream0, parsedBuffer);
        if got.Err? {
          return true, Returned(Err(got.failure));
        } else if cursor == 0 {
          return true, Returned(Ok(None));
        } else {
          return true, Returned(Err(ConnectionReset));
        }
      }
      buffer := Land(buffer, cursor, got.value);
      cursor := cursor + |got.value|;
      PassAgain(check, parse, buffer0, old(cursor), stream0, parsedBuffer, got.value, stream);
      done, r := false, Returned(Ok(None));
    }

    /** `read_frame` as written: passes of its loop until one returns. */
    method ReadFrame() returns (r: Outcome<Res<Option<Frame>>>)
      modifies this`buffer, this`cursor, this`stream
      ensures (r, buffer, cursor, stream) == ReadFrameSpec(check, parse, old(buffer), old(cursor), old(stream))
    {
      ghost var target := ReadFrameSpec(check, parse, buffer, cursor, stream);
      while true
        invariant ReadFrameSpec(check, parse, buffer, cursor, stream) == target
        decreases Weight(stream.incoming)
      {
        ghost var (b0, c0, s0) := (buffer, cursor, stream);
        var done;
        done, r := ReadPass();
        if done {
          SpecStop(check, parse, b0, c0, s0, (r, buffer, cursor, stream));
          return;
        }
        SpecAgain(check, parse, b0, c0, s0, buffer, cursor, stream);
      }
    }

    /** `write_frame` is `unimplemented!()`: it always panics. */
    method WriteFrame(frame: Frame) returns (r: Outcome<Res<()>>)
      ensures r == Panicked("not implemented")
    {
      r := Panicked("not implemented");
    }

    /** `write_decimal` is `unimplemented!()`: it always panics. */
    method WriteDecimal(val: u64) returns (r: Outcome<Res<()>>)
      ensures r == Panicked("not implemented")
    {
      r := Panicked("not implemented");
    }

    /**
     * Corrected `parse_frame`: `check` sees only the filled bytes
     * `buffer[..cursor]`, and `cursor` moves back by the drained length.
     */
    method ParseFrameFixed() returns (r: Res<Option<Frame>>)
      requires cursor <= |buffer|
      modifies this`buffer, this`cursor
      ensures cursor <= |buffer|
      ensures (r, buffer[..cursor]) == ParseStep(check, parse, old(buffer)[..old(cursor)])
      ensures !(r.Ok? && r.value.Some?) ==> buffer == old(buffer) && cursor == old(cursor)
    {
      var window := buffer[..cursor];
      match check(window)
      case Complete(len) =>
        var parsed := parse(window[..len]);
        if parsed.Err? {
          return Err(parsed.failure);
        }
        assert buffer[len..][..cursor - len] == window[len..];
        buffer := buffer[len..];
        cursor := cursor - len;
        r := Ok(Some(parsed.value));
      case Incomplete =>
        r := Ok(None);
      case Malformed(msg) =>
        r := Err(Protocol(msg));
    }

    /**
     * One pass of the corrected loop. Over a clean stream, a pass that returns
     * reports what the all-at-once decoder reports for the filled bytes followed
     * by everything still to come; a pass that goes round again keeps those bytes
     * as they were.
     */
    method ReadPassFixed() returns (done: bool, r: Outcome<Res<Option<Frame>>>)
      requires cursor <= |buffer|
      modifies this`buffer, this`cursor, this`stream
      ensures cursor <= |buffer|
      ensures stream.sent == old(stream).sent && stream.room == old(stream).room
      ensures !done ==> Weight(stream.incoming) < Weight(old(stream).incoming)
      ensures Clean(old(stream).incoming) && done ==>
        var first := FirstFrame(check, parse, old(buffer)[..old(cursor)] + Delivered(old(stream).incoming));
        r == Returned(first.0) && (first.0.Ok? ==> buffer[..cursor] + Delivered(stream.incoming) == first.1)
      ensures Clean(old(stream).incoming) && !done ==>
        Clean(stream.incoming) &&
        buffer[..cursor] + Delivered(stream.incoming) == old(buffer)[..old(cursor)] + Delivered(old(stream).incoming)
    {
      ghost var window := buffer[..cursor];
      ghost var rest := Delivered(stream.incoming);
      ghost var clean := Clean(stream.incoming);
      var parsed := ParseFrameFixed();
      if parsed.Err? || parsed.value.Some? {
        if clean {
          DecidedPrefix(check, parse, window, rest);
        }
        return true, Returned(parsed);
      }
      buffer := GrowFixed(buffer, cursor);
      assert buffer[..cursor] == window;
      var (got, s1) := Read(stream, |buffer| - cursor);
      stream := s1;
      if got.Err? {
        return true, Returned(Err(got.failure));
      }
      var n := |got.value|;
      if n == 0 {
        if clean {
          assert rest == [];
          assert window + rest == window;
        }
        if cursor == 0 {
          return true, Returned(Ok(None));
        } else {
          return true, Returned(Err(ConnectionReset));
        }
      }
      buffer := Land(buffer, cursor, got.value);
      cursor := cursor + n;
      if clean {
        assert buffer[..cursor] == window + got.value;
        Rejoin(window, got.value, Delivered(stream.incoming), rest);
      }
      done, r := false, Returned(Ok(None));
    }

    /**
     * Corrected `read_frame`: over a stream without I/O errors it reports what
     * the all-at-once decoder reports for the filled bytes followed by everything
     * still to come (the property the buffered connection has), and keeps the
     * unconsumed bytes. A vector of length 0 is grown to 4096 bytes rather than
     * to 0, so a read always has room.
     */
    method ReadFrameFixed() returns (r: Outcome<Res<Option<Frame>>>)
      requires cursor <= |buffer|
      modifies this`buffer, this`cursor, this`stream
      ensures cursor <= |buffer|
      ensures stream.sent == old(stream).sent && stream.room == old(stream).room
      ensures Clean(old(stream).incoming) ==>
        var first := FirstFrame(check, parse, old(buffer)[..old(cursor)] + Delivered(old(stream).incoming));
        r == Returned(first.0) && (first.0.Ok? ==> buffer[..cursor] + Delivered(stream.incoming) == first.1)
    {
      ghost var all := buffer[..cursor] + Delivered(stream.incoming);
      ghost var clean := Clean(stream.incoming);
      while true
        invariant cursor <= |buffer|
        invariant stream.sent == old(stream).sent && stream.room == old(stream).room
        invariant clean ==> Clean(stream.incoming) && buffer[..cursor] + Delivered(stream.incoming) == all
        decreases Weight(stream.incoming)
      {
        var done;
        done, r := ReadPassFixed();
        if done {
          return;
        }
      }
    }
  }
}
