/**
 * The byte stream under a connection. The read side is a script of events: each
 * read delivers the next chunk (or an I/O error); once the script is exhausted the
 * peer has closed and every read returns 0 bytes. The write side is an
 * append-only byte sequence; the peer accepts `room` more bytes, and a write
 * that does not fit writes the part that fits and then fails.
 */
module Transport {
  import opened Outcomes
  import opened Resp

  datatype ReadEvent = Data(bytes: Bytes) | Fault

  datatype TcpStream = TcpStream(incoming: seq<ReadEvent>, sent: Bytes, room: nat)

  /** A termination measure: one for each pending event plus its bytes. */
  function Weight(events: seq<ReadEvent>): nat
  {
    if events == [] then 0
    else Weight(events[1..]) + 1 + (if events[0].Data? then |events[0].bytes| else 0)
  }

  /** The bytes a fault-free script delivers, in order. */
  function Delivered(events: seq<ReadEvent>): Bytes
  {
    if events == [] then []
    else (if events[0].Data? then events[0].bytes else []) + Delivered(events[1..])
  }

  /** A script without I/O errors whose every chunk is non-empty (end-of-stream only when exhausted). */
  predicate Clean(events: seq<ReadEvent>)
  {
    forall i :: 0 <= i < |events| ==> events[i].Data? && |events[i].bytes| > 0
  }

  /**
   * `read_buf` into the growable buffer of src/connection.rs: the next chunk is
   * delivered whole; an exhausted script reads as 0 bytes (end-of-stream).
   */
  function ReadBuf(s: TcpStream): (r: (Res<Bytes>, TcpStream))
    ensures r.1.sent == s.sent && r.1.room == s.room
    ensures s.incoming == [] ==> r == (Ok([]), s)
    ensures s.incoming != [] ==> r.1.incoming == s.incoming[1..]
    ensures s.incoming != [] && s.incoming[0].Data? ==> r.0 == Ok(s.incoming[0].bytes)
    ensures s.incoming != [] && s.incoming[0].Fault? ==> r.0 == Err(Io)
  {
    if s.incoming == [] then (Ok([]), s)
    else
      var rest := s.incoming[1..];
      match s.incoming[0]
      case Fault => (Err(Io), s.(incoming := rest))
      case Data(b) => (Ok(b), s.(incoming := rest))
  }

  /**
   * `read(&mut buf)` into a slice of `space` bytes (src/connection_raw.rs): at most
   * `space` bytes of the next chunk are delivered and the rest of the chunk stays
   * pending. On a slice of length 0, a chunk reads as 0 bytes and stays pending,
   * while a fault is still reported as `Err` and used up.
   */
  function Read(s: TcpStream, space: nat): (r: (Res<Bytes>, TcpStream))
    ensures r.1.sent == s.sent && r.1.room == s.room
    ensures r.0.Ok? ==> |r.0.value| <= space
    ensures r.0.Ok? && |r.0.value| > 0 ==> Weight(r.1.incoming) < Weight(s.incoming)
    ensures r.0.Ok? ==> r.0.value + Delivered(r.1.incoming) == Delivered(s.incoming)
    ensures Clean(s.incoming) ==> r.0.Ok? && Clean(r.1.incoming)
    ensures Clean(s.incoming) && space > 0 ==> (|r.0.value| == 0 <==> s.incoming == [])
  {
    if s.incoming == [] then (Ok([]), s)
    else
      var rest := s.incoming[1..];
      match s.incoming[0]
      case Fault => (Err(Io), s.(incoming := rest))
      case Data(b) =>
        if |b| <= space then (Ok(b), s.(incoming := rest))
        else
          assert b == b[..space] + b[space..];
          (Ok(b[..space]), s.(incoming := [Data(b[space..])] + rest))
  }

  /** The part of `bytes` that fits in `room`. */
  function Fitting(bytes: Bytes, room: nat): (r: Bytes)
    ensures |r| <= room && r <= bytes
    ensures |bytes| <= room <==> r == bytes
  {
    if |bytes| <= room then bytes else bytes[..room]
  }

  /**
   * `write_all`: appends what fits to the sent bytes; succeeds exactly when all
   * of `bytes` fitted.
   */
  function Transmit(s: TcpStream, bytes: Bytes): (r: (bool, TcpStream))
    ensures r.1.incoming == s.incoming
    ensures r.0 <==> |bytes| <= s.room
    ensures r.1.sent == s.sent + Fitting(bytes, s.room)
    ensures r.1.room == s.room - |Fitting(bytes, s.room)|
  {
    var part := Fitting(bytes, s.room);
    (|bytes| <= s.room, s.(sent := s.sent + part, room := s.room - |part|))
  }

  /**
   * Writing `a` and then, if that succeeded, `b`, has the same effect as writing
   * `a + b` at once: a sequence of `write_all ... ?` is one transmission.
   */
  lemma TransmitConcat(s: TcpStream, a: Bytes, b: Bytes)
    ensures var (ok1, s1) := Transmit(s, a);
      (ok1 ==> Transmit(s1, b) == Transmit(s, a + b))
      && (!ok1 ==> (false, s1) == Transmit(s, a + b))
  {
    var (ok1, s1) := Transmit(s, a);
    if ok1 {
      var (ok2, s2) := Transmit(s1, b);
      if ok2 {
        assert s2.sent == s.sent + (a + b);
      } else {
        assert (a + b)[..s.room] == a + b[..s.room - |a|];
        assert s2.sent == s.sent + (a + b)[..s.room];
      }
    } else {
      assert (a + b)[..s.room] == a[..s.room];
      assert s1.sent == s.sent + (a + b)[..s.room];
    }
  }

  lemma CleanTail(events: seq<ReadEvent>)
    requires events != [] && Clean(events)
    ensures Clean(events[1..])
  {
    forall i | 0 <= i < |events| - 1 ensures events[1..][i].Data? && |events[1..][i].bytes| > 0 {
      assert events[1..][i] == events[i + 1];
    }
  }

  /** Delivered bytes of a clean script split at its first chunk. */
  lemma DeliveredCons(events: seq<ReadEvent>)
    requires events != [] && events[0].Data?
    ensures Delivered(events) == events[0].bytes + Delivered(events[1..])
  {
  }
}
