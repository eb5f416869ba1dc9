/**
 * What serving one client connection produces, for both servers: why the
 * session ended, the commands it ran, the replies it produced (in order), and
 * the state it left; and the byte stream those replies form on the wire.
 */
module Sessions {
  import opened Outcomes
  import opened Resp
  import opened Transport
  import opened Store

  /** Why the loop over a connection stopped. */
  datatype Ending =
    | Closed                      // `read_frame` returned Ok(None): the peer closed cleanly
    | ReadFailed(failure: Failure)
    | WriteFailed(failure: Failure)
    | Crashed(message: string)    // the task panicked

  datatype Session = Session(
    ending: Ending,
    requests: seq<Command>,
    replies: seq<Frame>,
    buffer: Bytes,
    stream: TcpStream,
    entries: Entries)

  /** One more request and reply in front of a session. */
  function Served(cmd: Command, reply: Frame, rest: Session): (r: Session)
    ensures r.requests == [cmd] + rest.requests && r.replies == [reply] + rest.replies
    ensures r.ending == rest.ending && r.buffer == rest.buffer && r.stream == rest.stream && r.entries == rest.entries
  {
    rest.(requests := [cmd] + rest.requests, replies := [reply] + rest.replies)
  }

  predicate AllEncodable(fs: seq<Frame>)
  {
    forall i :: 0 <= i < |fs| ==> Encodable(fs[i])
  }

  /** The replies written one after another. */
  function Wire(fs: seq<Frame>): Bytes
    requires AllEncodable(fs)
    decreases |fs|
  {
    if fs == [] then [] else Encode(fs[0]) + Wire(fs[1..])
  }

  /** What a client reading the reply stream with the reference reader sees: frames until one fails to decode. */
  function ReadReplies(b: Bytes): seq<Frame>
    decreases |b|
  {
    match Decode(b)
    case None => []
    case Some((f, n)) => if 0 < n <= |b| then [f] + ReadReplies(b[n..]) else []
  }

  /** The reply stream decodes back to exactly the replies, in order. */
  lemma {:induction false} ReadRepliesWire(fs: seq<Frame>)
    requires AllEncodable(fs)
    ensures ReadReplies(Wire(fs)) == fs
    decreases |fs|
  {
    if fs != [] {
      var tail := Wire(fs[1..]);
      DecodeEncode(fs[0], tail);
      var n := |Encode(fs[0])|;
      assert n > 0 by { assert Encode(fs[0])[0] == Tag(fs[0]); }
      assert Wire(fs)[n..] == tail;
      ReadRepliesWire(fs[1..]);
    } else {
      assert Decode([]) == None;
    }
  }

  /** Concatenation regrouped; a solver aid for the session proofs, with no content of its own. */
  lemma ConcatAssoc<T>(a: seq<T>, b: seq<T>, c: seq<T>)
    ensures (a + b) + c == a + (b + c)
  {
  }

  /** The wire of one more reply. */
  lemma WireSnoc(fs: seq<Frame>, f: Frame)
    requires AllEncodable(fs) && Encodable(f)
    ensures AllEncodable([f] + fs) && Wire([f] + fs) == Encode(f) + Wire(fs)
  {
    assert ([f] + fs)[1..] == fs;
  }

  /** Bytes written before a reply written in full, and then the rest of the replies, are the longer reply stream. */
  lemma WireAhead(sent: Bytes, mid: Bytes, last: Bytes, reply: Frame, replies: seq<Frame>)
    requires Encodable(reply) && AllEncodable(replies)
    requires mid == sent + Encode(reply) && last == mid + Wire(replies)
    ensures AllEncodable([reply] + replies) && last == sent + Wire([reply] + replies)
  {
    WireSnoc(replies, reply);
    ConcatAssoc(sent, Encode(reply), Wire(replies));
  }
}
