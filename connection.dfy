/**
 * src/connection.rs: the buffered connection. Bytes read from the stream are
 * appended to a growable buffer; complete frames are consumed from its front.
 * Frames are written as RESP2 through the stream's output.
 */
module Connection {
  import opened Outcomes
  import opened Resp
  import opened Transport
  import opened Framing

  /** The decreasing measure of the read loop: buffered bytes plus pending input. */
  function Measure(buffer: Bytes, stream: TcpStream): nat
  {
    |buffer| + Weight(stream.incoming)
  }

  /** What `read_frame` returns, with the buffer and the stream it leaves. */
  type ReadState = (Res<Option<Frame>>, Bytes, TcpStream)

  /**
   * The loop of `read_frame`: try `parse_frame`; if no frame is buffered, read the
   * next chunk; 0 bytes read is a clean end on an empty buffer and "connection
   * reset by peer" otherwise.
   */
  function ReadFrameSpec(check: Checker, parse: FrameParser, buffer: Bytes, stream: TcpStream): (r: ReadState)
    ensures r.2.sent == stream.sent && r.2.room == stream.room
    ensures Measure(r.1, r.2) <= Measure(buffer, stream)
    ensures r.0.Ok? && r.0.value.Some? ==> Measure(r.1, r.2) < Measure(buffer, stream)
    decreases Measure(buffer, stream)
  {
    var (p, buf1) := ParseStep(check, parse, buffer);
    if p.Err? || p.value.Some? then (p, buf1, stream)
    else
      var (got, s1) := ReadBuf(stream);
      match got
      case Err(e) => (Err(e), buf1, s1)
      case Ok(bytes) =>
        if |bytes| == 0 then (if buf1 == [] then Ok(None) else Err(ConnectionReset), buf1, s1)
        else ReadFrameSpec(check, parse, buf1 + bytes, s1)
  }

  /** `write_decimal` fits its digits into a 12-byte scratch buffer. */
  const SCRATCH_LEN: nat := 12

  /** Whether every number the frame's encoding needs fits the scratch buffer. */
  predicate FitsScratch(f: Frame)
  {
    match f
    case Integer(n) => |Digits(n)| <= SCRATCH_LEN
    case Bulk(b) => |Digits(|b|)| <= SCRATCH_LEN
    case _ => true
  }

  /**
   * `write_frame`: an Array panics before writing anything; a number too long for
   * the scratch buffer fails after the tag byte has been written; otherwise the
   * frame's RESP2 encoding is written, and the call succeeds when all of it was
   * accepted (the result of the final flush is ignored).
   */
  function WriteFrameSpec(stream: TcpStream, f: Frame): (r: (Outcome<Res<()>>, TcpStream))
    ensures r.1.incoming == stream.incoming
    ensures r.0.Returned? <==> !f.Array?
  {
    if f.Array? then (Panicked("not implemented"), stream)
    else if !FitsScratch(f) then
      var (ok, s1) := Transmit(stream, [Tag(f)]);
      (Returned(Err(if ok then WriteZero else Io)), s1)
    else
      var (ok, s1) := Transmit(stream, Encode(f));
      (Returned(if ok then Ok(()) else Err(Io)), s1)
  }

  /** A frame already buffered is returned at once, without reading from the stream. */
  lemma ReadFrameReturnsBufferedFrame(check: Checker, parse: FrameParser, buffer: Bytes, stream: TcpStream)
    requires ParseStep(check, parse, buffer).0.Ok? && ParseStep(check, parse, buffer).0.value.Some?
    ensures ReadFrameSpec(check, parse, buffer, stream) ==
      (ParseStep(check, parse, buffer).0, ParseStep(check, parse, buffer).1, stream)
  {
  }

  /**
   * End-of-stream with no frame buffered: a clean end (no frame) when the buffer is
   * empty, "connection reset by peer" when bytes of an unfinished frame remain.
   */
  lemma ReadFrameEndOfStream(check: Checker, parse: FrameParser, buffer: Bytes, stream: TcpStream)
    requires check(buffer) == Incomplete
    requires ReadBuf(stream).0 == Ok([])
    ensures ReadFrameSpec(check, parse, buffer, stream).0 == (if buffer == [] then Ok(None) else Err(ConnectionReset))
    ensures ReadFrameSpec(check, parse, buffer, stream).1 == buffer
  {
  }

  /** Once `check` has decided on the buffer, `read_frame` returns what `parse_frame` did. */
  lemma ReadFrameDecided(check: Checker, parse: FrameParser, buffer: Bytes, stream: TcpStream)
    requires check(buffer) != Incomplete
    ensures ReadFrameSpec(check, parse, buffer, stream) ==
      (ParseStep(check, parse, buffer).0, ParseStep(check, parse, buffer).1, stream)
  {
  }

  /** With nothing decided, `read_frame` reads the next chunk and starts over. */
  lemma ReadFrameReads(check: Checker, parse: FrameParser, buffer: Bytes, stream: TcpStream)
    requires check(buffer) == Incomplete
    requires stream.incoming != [] && stream.incoming[0].Data? && |stream.incoming[0].bytes| > 0
    ensures ReadFrameSpec(check, parse, buffer, stream) ==
      ReadFrameSpec(check, parse, buffer + stream.incoming[0].bytes, stream.(incoming := stream.incoming[1..]))
  {
  }

  /** What `read_frame` and the all-at-once decoder are proved to agree on. */
  ghost predicate AgreesWithFirstFrame(check: Checker, parse: FrameParser, buffer: Bytes, stream: TcpStream)
  {
    var r := ReadFrameSpec(check, parse, buffer, stream);
    var first := FirstFrame(check, parse, buffer + Delivered(stream.incoming));
    r.0 == first.0 && (r.0.Ok? ==> r.1 + Delivered(r.2.incoming) == first.1)
  }

  lemma AgreesWhenDecided(check: Checker, parse: FrameParser, buffer: Bytes, stream: TcpStream)
    requires check(buffer) != Incomplete
    ensures AgreesWithFirstFrame(check, parse, buffer, stream)
  {
    ReadFrameDecided(check, parse, buffer, stream);
    DecidedPrefix(check, parse, buffer, Delivered(stream.incoming));
  }

  lemma AgreesAtEnd(check: Checker, parse: FrameParser, buffer: Bytes, stream: TcpStream)
    requires check(buffer) == Incomplete && stream.incoming == []
    ensures AgreesWithFirstFrame(check, parse, buffer, stream)
  {
    assert buffer + Delivered(stream.incoming) == buffer;
  }

  lemma AgreesAfterRead(check: Checker, parse: FrameParser, buffer: Bytes, stream: TcpStream)
    requires check(buffer) == Incomplete
    requires stream.incoming != [] && stream.incoming[0].Data? && |stream.incoming[0].bytes| > 0
    requires AgreesWithFirstFrame(check, parse, buffer + stream.incoming[0].bytes, stream.(incoming := stream.incoming[1..]))
    ensures AgreesWithFirstFrame(check, parse, buffer, stream)
  {
    var chunk := stream.incoming[0].bytes;
    var s1 := stream.(incoming := stream.incoming[1..]);
    ReadFrameReads(check, parse, buffer, stream);
    DeliveredCons(stream.incoming);
    var all := buffer + Delivered(stream.incoming);
    assert all == (buffer + chunk) + Delivered(s1.incoming);
    assert FirstFrame(check, parse, all) == FirstFrame(check, parse, (buffer + chunk) + Delivered(s1.incoming));
  }

  /**
   * Incremental delivery: over a stream without I/O errors, `read_frame` reports
   * exactly what a decoder that sees the buffered bytes and all bytes still to
   * come at once reports, and leaves the same bytes unconsumed. How the bytes are
   * split into reads makes no difference.
   */
  lemma {:induction false} ReadFrameSeesOnlyBytes(check: Checker, parse: FrameParser, buffer: Bytes, stream: TcpStream)
    requires Clean(stream.incoming)
    ensures AgreesWithFirstFrame(check, parse, buffer, stream)
    decreases Measure(buffer, stream)
  {
    if check(buffer) != Incomplete {
      AgreesWhenDecided(check, parse, buffer, stream);
    } else if stream.incoming == [] {
      AgreesAtEnd(check, parse, buffer, stream);
    } else {
      var s1 := stream.(incoming := stream.incoming[1..]);
      CleanTail(stream.incoming);
      ReadFrameSeesOnlyBytes(check, parse, buffer + stream.incoming[0].bytes, s1);
      AgreesAfterRead(check, parse, buffer, stream);
    }
  }

  /** Two deliveries of the same bytes in different chunks read the same frame. */
  lemma ChunkingDoesNotMatter(check: Checker, parse: FrameParser, buffer: Bytes, s1: TcpStream, s2: TcpStream)
    requires Clean(s1.incoming) && Clean(s2.incoming)
    requires Delivered(s1.incoming) == Delivered(s2.incoming)
    ensures ReadFrameSpec(check, parse, buffer, s1).0 == ReadFrameSpec(check, parse, buffer, s2).0
  {
    assert buffer + Delivered(s1.incoming) == buffer + Delivered(s2.incoming);
    ReadFrameSeesOnlyBytes(check, parse, buffer, s1);
    ReadFrameSeesOnlyBytes(check, parse, buffer, s2);
  }

  /**
   * Truncation: when the buffered and remaining bytes hold no decided frame, the
   * stream ending yields "connection reset by peer", never a frame.
   */
  lemma TruncatedFrameResets(check: Checker, parse: FrameParser, buffer: Bytes, stream: TcpStream)
    requires Clean(stream.incoming)
    requires buffer + Delivered(stream.incoming) != []
    requires check(buffer + Delivered(stream.incoming)) == Incomplete
    ensures ReadFrameSpec(check, parse, buffer, stream).0 == Err(ConnectionReset)
  {
    ReadFrameSeesOnlyBytes(check, parse, buffer, stream);
  }

  /** A number fits the 12-byte scratch buffer exactly when it is below 10^12. */
  lemma FitsScratchBound(n: nat)
    ensures |Digits(n)| <= SCRATCH_LEN <==> n < 1_000_000_000_000
  {
    DigitsLength(n, SCRATCH_LEN);
    assert Pow10(SCRATCH_LEN) == 1_000_000_000_000;
  }

  /**
   * Finding: the 12-byte scratch buffer of `write_decimal` cannot hold every u64.
   * Writing Integer(10^12) fails after the tag byte ':' is already on the wire,
   * leaving a stray byte in the reply stream.
   */
  lemma LargeIntegerUnwritable(stream: TcpStream)
    ensures var (r, s) := WriteFrameSpec(stream, Integer(1_000_000_000_000));
      r.Returned? && r.result.Err? && s.sent == stream.sent + Fitting([COLON], stream.room)
  {
    FitsScratchBound(1_000_000_000_000);
  }

  /** A scratch length that holds the digits of every u64 (2^64 - 1 has 20 digits). */
  const WIDE_SCRATCH_LEN: nat := 20

  lemma U64FitsWideScratch(n: u64)
    ensures |Digits(n)| <= WIDE_SCRATCH_LEN
  {
    DigitsLength(n, WIDE_SCRATCH_LEN);
    assert Pow10(10) == 10_000_000_000;
    assert Pow10(WIDE_SCRATCH_LEN) == 100_000_000_000_000_000_000;
  }

  /**
   * What `write_frame` puts on the wire: the prefix of the frame's RESP2 encoding
   * that the peer accepts, succeeding exactly when all of it was accepted; for a
   * number too long for the scratch buffer, only the tag byte, and an error.
   */
  lemma WriteFrameEmitsEncoding(stream: TcpStream, f: Frame)
    requires !f.Array?
    ensures var (r, s) := WriteFrameSpec(stream, f);
      s.incoming == stream.incoming && r.Returned? &&
      (FitsScratch(f) ==> s.sent == stream.sent + Fitting(Encode(f), stream.room)
                          && (r.result == Ok(()) <==> |Encode(f)| <= stream.room)) &&
      (!FitsScratch(f) ==> s.sent == stream.sent + Fitting([Tag(f)], stream.room) && r.result.Err?)
  {
  }

  /**
   * A frame that `write_frame` sent in full is read back as the same frame by the
   * RESP2 reference reader, whatever the peer receives after it.
   */
  lemma WrittenFrameReadsBack(stream: TcpStream, f: Frame, after: Bytes)
    requires Encodable(f) && FitsScratch(f)
    requires WriteFrameSpec(stream, f).0 == Returned(Ok(()))
    ensures var s := WriteFrameSpec(stream, f).1;
      |stream.sent| <= |s.sent| &&
      Decode(s.sent[|stream.sent|..] + after) == Some((f, |s.sent| - |stream.sent|))
  {
    var s := WriteFrameSpec(stream, f).1;
    var whole := Transmit(stream, Encode(f));
    assert whole.0 && s == whole.1;
    assert s.sent == stream.sent + Encode(f);
    assert s.sent[|stream.sent|..] == Encode(f);
    DecodeEncode(f, after);
  }

  class Connection {
    var stream: TcpStream
    var buffer: Bytes
    const check: Checker
    const parse: FrameParser

    /** `new`: an empty read buffer over the given stream (its 4096-byte capacity is not modelled). */
    constructor (stream: TcpStream, check: Checker, parse: FrameParser)
      ensures this.stream == stream && buffer == []
      ensures this.check == check && this.parse == parse
    {
      this.stream := stream;
      buffer := [];
      this.check := check;
      this.parse := parse;
    }

    /**
     * `parse_frame`: on Complete(len) returns the parsed frame and drops exactly
     * the first `len` bytes (`advance`); on Incomplete returns no frame and keeps
     * the buffer; an error from `check` or `parse` is returned, buffer unchanged.
     */
    method ParseFrame() returns (r: Res<Option<Frame>>)
      modifies this`buffer
      ensures (r, buffer) == ParseStep(check, parse, old(buffer))
      ensures check(old(buffer)).Complete? && r.Ok? ==>
        var len := check(old(buffer)).len;
        r == Ok(Some(parse(old(buffer)[..len]).value)) && buffer == old(buffer)[len..]
      ensures check(old(buffer)) == Incomplete ==> r == Ok(None) && buffer == old(buffer)
      ensures check(old(buffer)).Malformed? ==> r == Err(Protocol(check(old(buffer)).msg)) && buffer == old(buffer)
    {
      match check(buffer)
      case Complete(len) =>
        var parsed := parse(buffer[..len]);
        if parsed.Err? {
          return Err(parsed.failure);
        }
        buffer := buffer[len..];
        r := Ok(Some(parsed.value));
      case Incomplete =>
        r := Ok(None);
      case Malformed(msg) =>
        r := Err(Protocol(msg));
    }

    /**
     * `read_frame`: loops between `parse_frame` and reading from the stream until a
     * frame is parsed, an error occurs, or the stream ends.
     */
    method ReadFrame() returns (r: Res<Option<Frame>>)
      modifies this`buffer, this`stream
      ensures (r, buffer, stream) == ReadFrameSpec(check, parse, old(buffer), old(stream))
    {
      while true
        invariant ReadFrameSpec(check, parse, buffer, stream) == ReadFrameSpec(check, parse, old(buffer), old(stream))
        decreases Measure(buffer, stream)
      {
        var parsed := ParseFrame();
        if parsed.Err? {
          return parsed;
        }
        if parsed.value.Some? {
          return parsed;
        }
        var (got, s1) := ReadBuf(stream);
        stream := s1;
        if got.Err? {
          return Err(got.failure);
        }
        if |got.value| == 0 {
          if buffer == [] {
            return Ok(None);
          } else {
            return Err(ConnectionReset);
          }
        }
        buffer := buffer + got.value;
      }
    }

    /** `write_all` / `write_u8` on the stream. */
    method Send(bytes: Bytes) returns (ok: bool)
      modifies this`stream
      ensures (ok, stream) == Transmit(old(stream), bytes)
    {
      var (sent, s1) := Transmit(stream, bytes);
      stream := s1;
      ok := sent;
    }

    /**
     * `write_decimal`: formats `val` into a 12-byte scratch buffer, then writes the
     * digits and CRLF. More than 12 digits fails before anything is written.
     * (`val` is a u64 in the source; every caller passes a u64 or a length.)
     */
    method WriteDecimal(val: nat) returns (r: Res<()>)
      modifies this`stream
      ensures |Digits(val)| > SCRATCH_LEN ==> r == Err(WriteZero) && stream == old(stream)
      ensures |Digits(val)| <= SCRATCH_LEN ==>
        var (ok, s1) := Transmit(old(stream), Digits(val) + CRLF);
        stream == s1 && r == (if ok then Ok(()) else Err(Io))
    {
      var scratch := new byte[SCRATCH_LEN];
      var digits := Digits(val);
      if |digits| > scratch.Length {
        return Err(WriteZero);
      }
      forall i | 0 <= i < |digits| {
        scratch[i] := digits[i];
      }
      var pos := |digits|;
      assert scratch[..pos] == digits;
      TransmitConcat(stream, digits, CRLF);
      var ok := Send(scratch[..pos]);
      if !ok {
        return Err(Io);
      }
      ok := Send(CRLF);
      if !ok {
        return Err(Io);
      }
      r := Ok(());
    }

    /**
     * Corrected `write_decimal`: with a 20-byte scratch buffer every u64 is
     * written in full, as its digits and CRLF; only the transport can fail.
     */
    method WriteDecimalFixed(val: u64) returns (r: Res<()>)
      modifies this`stream
      ensures var (ok, s1) := Transmit(old(stream), Digits(val) + CRLF);
        stream == s1 && r == (if ok then Ok(()) else Err(Io))
    {
      var scratch := new byte[WIDE_SCRATCH_LEN];
      var digits := Digits(val);
      U64FitsWideScratch(val);
      forall i | 0 <= i < |digits| {
        scratch[i] := digits[i];
      }
      var pos := |digits|;
      assert scratch[..pos] == digits;
      TransmitConcat(stream, digits, CRLF);
      var ok := Send(scratch[..pos]);
      if !ok {
        return Err(Io);
      }
      ok := Send(CRLF);
      if !ok {
        return Err(Io);
      }
      r := Ok(());
    }

    /** The three writes of a simple string or error: the tag, the text, CRLF. */
    method WriteLine(tag: byte, text: Bytes) returns (ok: bool)
      modifies this`stream
      ensures (ok, stream) == Transmit(old(stream), [tag] + text + CRLF)
    {
      assert [tag] + text + CRLF == [tag] + (text + CRLF);
      TransmitConcat(stream, [tag], text + CRLF);
      TransmitConcat(Transmit(stream, [tag]).1, text, CRLF);
      ok := Send([tag]);
      if !ok { return; }
      ok := Send(text);
      if !ok { return; }
      ok := Send(CRLF);
    }

    /** The writes of a bulk string: '$', the length as a decimal line, the payload, CRLF. */
    method WriteBulk(b: Bytes) returns (r: Res<()>)
      modifies this`stream
      ensures FitsScratch(Bulk(b)) ==>
        var (ok, s1) := Transmit(old(stream), Encode(Bulk(b)));
        stream == s1 && r == (if ok then Ok(()) else Err(Io))
      ensures !FitsScratch(Bulk(b)) ==>
        var (ok, s1) := Transmit(old(stream), [DOLLAR]);
        stream == s1 && r == Err(if ok then WriteZero else Io)
    {
      var len := |b|;
      assert Encode(Bulk(b)) == [DOLLAR] + ((Digits(len) + CRLF) + (b + CRLF));
      TransmitConcat(stream, [DOLLAR], (Digits(len) + CRLF) + (b + CRLF));
      var ok := Send([DOLLAR]);
      if !ok { return Err(Io); }
      TransmitConcat(stream, Digits(len) + CRLF, b + CRLF);
      r := WriteDecimal(len);
      if r.Err? { return; }
      TransmitConcat(stream, b, CRLF);
      ok := Send(b);
      if !ok { return Err(Io); }
      ok := Send(CRLF);
      if !ok { return Err(Io); }
    }

    /** `write_frame`: the writes of the source, one variant at a time. */
    method WriteFrame(frame: Frame) returns (r: Outcome<Res<()>>)
      modifies this`stream
      ensures (r, stream) == WriteFrameSpec(old(stream), frame)
    {
      match frame {
      case Simple(s) =>
        var ok := WriteLine(PLUS, s);
        if !ok { return Returned(Err(Io)); }
      case Error(s) =>
        var ok := WriteLine(MINUS, s);
        if !ok { return Returned(Err(Io)); }
      case Integer(n) =>
        assert Encode(frame) == [COLON] + (Digits(n) + CRLF);
        TransmitConcat(stream, [COLON], Digits(n) + CRLF);
        var ok := Send([COLON]);
        if !ok { return Returned(Err(Io)); }
        var written := WriteDecimal(n);
        if written.Err? { return Returned(written); }
      case Null =>
        var ok := Send(NULL_BULK);
        if !ok { return Returned(Err(Io)); }
      case Bulk(b) =>
        var written := WriteBulk(b);
        if written.Err? { return Returned(written); }
      case Array(_) =>
        return Panicked("not implemented");
      }
      // The result of `flush` is discarded: the call succeeds once every write did.
      r := Returned(Ok(()));
    }
  }
}
