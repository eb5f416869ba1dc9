/**
 * What both connection variants share: the interface of the external frame checker
 * and parser, and `parse_frame`'s use of them. `Frame::check` and `Frame::parse`
 * belong to the `mini_redis` crate; they enter the model as function-typed values,
 * and what the model relies on about `check` is the constraint of `Checker`.
 */
module Framing {
  import opened Outcomes
  import opened Resp

  /** The verdict of `Frame::check` on a window of buffered bytes. */
  datatype CheckOutcome = Complete(len: nat) | Incomplete | Malformed(msg: string)

  /** The bytes that may start a frame: '+', '-', ':', '$' and '*'. */
  predicate IsTypeByte(b: byte) { b in {PLUS, MINUS, COLON, DOLLAR, STAR} }

  /**
   * The contract of `Frame::check`:
   * - a complete frame occupies `len` bytes, with 0 < len <= |buf|;
   * - an empty window is Incomplete;
   * - a window whose first byte is not a type byte is Malformed;
   * - frames are self-delimiting: a verdict other than Incomplete does not change
   *   when more bytes are appended to the window.
   */
  ghost predicate CheckContract(check: Bytes -> CheckOutcome)
  {
    && check([]) == Incomplete
    && (forall buf {:trigger check(buf)} :: check(buf).Complete? ==> 0 < check(buf).len <= |buf|)
    && (forall buf {:trigger check(buf)} :: |buf| > 0 && !IsTypeByte(buf[0]) ==> check(buf).Malformed?)
    && (forall buf, more {:trigger check(buf + more)} :: check(buf) != Incomplete ==> check(buf + more) == check(buf))
  }

  type Checker = check: Bytes -> CheckOutcome | CheckContract(check)
    witness (buf: Bytes) => if |buf| > 0 && !IsTypeByte(buf[0]) then Malformed("invalid frame type byte") else Incomplete

  /** `Frame::parse` applied to the bytes of one complete frame. */
  type FrameParser = Bytes -> Res<Frame>

  /** A convenient name for what `parse_frame` returns and the buffer it leaves. */
  type Parsed = (Res<Option<Frame>>, Bytes)

  /**
   * `parse_frame` over the window `buf`: on Complete(len) the frame is parsed from
   * the first `len` bytes, which are then removed from the front; on Incomplete
   * nothing happens; a check or parse error is returned with the buffer untouched.
   */
  function ParseStep(check: Checker, parse: FrameParser, buf: Bytes): (r: Parsed)
    ensures r.0 == Ok(None) <==> check(buf) == Incomplete
    ensures r.0.Ok? && r.0.value.Some? ==>
      check(buf).Complete? && buf == buf[..check(buf).len] + r.1 && |r.1| < |buf|
    ensures !(r.0.Ok? && r.0.value.Some?) ==> r.1 == buf
  {
    match check(buf)
    case Complete(len) =>
      (match parse(buf[..len])
       case Ok(f) => assert buf == buf[..len] + buf[len..]; (Ok(Some(f)), buf[len..])
       case Err(e) => (Err(e), buf))
    case Incomplete => (Ok(None), buf)
    case Malformed(msg) => (Err(Protocol(msg)), buf)
  }

  /**
   * The first frame of a byte stream `all` followed by end-of-stream: what a
   * decoder that could see every byte at once would report, and the bytes after
   * the frame. An empty stream is a clean end; a non-empty Incomplete stream is a
   * truncated frame.
   */
  function FirstFrame(check: Checker, parse: FrameParser, all: Bytes): Parsed
  {
    match check(all)
    case Complete(len) =>
      (match parse(all[..len])
       case Ok(f) => (Ok(Some(f)), all[len..])
       case Err(e) => (Err(e), all))
    case Incomplete => (if all == [] then Ok(None) else Err(ConnectionReset), all)
    case Malformed(msg) => (Err(Protocol(msg)), all)
  }

  /** A verdict reached on a window carries over to every longer window. */
  lemma CheckStable(check: Checker, buf: Bytes, more: Bytes)
    requires check(buf) != Incomplete
    ensures check(buf + more) == check(buf)
  {
  }

  /**
   * When `check` has decided on the buffered prefix of a stream, `parse_frame` on
   * that prefix agrees with the decoder that sees the whole stream: the same frame
   * or error, and the same bytes left over.
   */
  lemma {:induction false} DecidedPrefix(check: Checker, parse: FrameParser, buf: Bytes, more: Bytes)
    requires check(buf) != Incomplete
    ensures var (r, rest) := ParseStep(check, parse, buf);
      var (r', rest') := FirstFrame(check, parse, buf + more);
      r == r' && (r.Ok? ==> rest + more == rest')
  {
    CheckStable(check, buf, more);
    match check(buf)
    case Complete(len) =>
      assert (buf + more)[..len] == buf[..len];
      assert (buf + more)[len..] == buf[len..] + more;
    case Malformed(_) =>
  }
}
