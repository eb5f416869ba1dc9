/**
 * The frame type and the RESP2 wire format that `write_frame` emits:
 * simple strings, simple errors, integers, bulk strings and the null bulk string.
 * `Decode` is an independent reference reader of the same grammar; the round-trip
 * lemma shows that the encoding is lossless and self-delimiting.
 */
module Resp {
  import opened Outcomes

  type byte = b: int | 0 <= b < 256
  type u64 = n: int | 0 <= n < 0x1_0000_0000_0000_0000
  type Bytes = seq<byte>

  const CR: byte := 13
  const LF: byte := 10
  const CRLF: Bytes := [CR, LF]
  const PLUS: byte := 43    // '+'
  const MINUS: byte := 45   // '-'
  const COLON: byte := 58   // ':'
  const DOLLAR: byte := 36  // '$'
  const STAR: byte := 42    // '*'
  const ZERO: byte := 48    // '0'
  const ONE: byte := 49     // '1'

  /** The byte written for a null bulk string: "$-1\r\n". */
  const NULL_BULK: Bytes := [DOLLAR, MINUS, ONE, CR, LF]

  /**
   * A protocol message. Textual payloads are the UTF-8 bytes of the Rust `String`
   * (`as_bytes()` is what reaches the wire).
   */
  datatype Frame =
    | Simple(text: Bytes)
    | Error(text: Bytes)
    | Integer(n: u64)
    | Bulk(data: Bytes)
    | Null
    | Array(items: seq<Frame>)

  predicate IsDigit(b: byte) { ZERO <= b <= ZERO + 9 }

  predicate IsDecimal(s: Bytes) { |s| > 0 && forall i :: 0 <= i < |s| ==> IsDigit(s[i]) }

  /** The base-10 digits of `n`, as `write!(buf, "{}", n)` formats an unsigned integer. */
  function Digits(n: nat): (r: Bytes)
    ensures IsDecimal(r)
    ensures r[0] == ZERO ==> n == 0   // no leading zeros
    decreases n
  {
    if n < 10 then [(ZERO + n) as byte] else Digits(n / 10) + [(ZERO + n % 10) as byte]
  }

  /** The number a string of decimal digits denotes. */
  function DigitsValue(s: Bytes): nat
    requires forall i :: 0 <= i < |s| ==> IsDigit(s[i])
  {
    if s == [] then 0
    else
      assert IsDigit(s[|s| - 1]);
      DigitsValue(s[..|s| - 1]) * 10 + (s[|s| - 1] - ZERO)
  }

  function Pow10(k: nat): (r: nat)
    ensures r >= 1
  {
    if k == 0 then 1 else 10 * Pow10(k - 1)
  }

  /** Reading back the digits of `n` gives `n`: the decimal form is lossless. */
  lemma {:induction false} DecimalRoundTrip(n: nat)
    ensures DigitsValue(Digits(n)) == n
    decreases n
  {
    var d := Digits(n);
    if n < 10 {
      assert d[..|d| - 1] == [];
    } else {
      var p := Digits(n / 10);
      assert d[..|d| - 1] == p;
      DecimalRoundTrip(n / 10);
    }
  }

  /** `n` has at most `k` digits exactly when it is below 10^k. */
  lemma {:induction false} DigitsLength(n: nat, k: nat)
    requires k >= 1
    ensures |Digits(n)| <= k <==> n < Pow10(k)
    decreases n
  {
    if n >= 10 {
      if k == 1 {
        assert |Digits(n)| == |Digits(n / 10)| + 1;
      } else {
        DigitsLength(n / 10, k - 1);
        assert n / 10 < Pow10(k - 1) <==> n < 10 * Pow10(k - 1);
      }
    } else {
      assert Pow10(k) == 10 * Pow10(k - 1);
    }
  }

  /** The first byte of a frame's encoding. */
  function Tag(f: Frame): byte
    requires !f.Array?
  {
    match f
    case Simple(_) => PLUS
    case Error(_) => MINUS
    case Integer(_) => COLON
    case Bulk(_) => DOLLAR
    case Null => DOLLAR
  }

  /**
   * The RESP2 encoding of a frame:
   *   Simple(s)  "+" s CRLF            Error(s)  "-" s CRLF
   *   Integer(n) ":" decimal(n) CRLF   Null      "$-1" CRLF
   *   Bulk(b)    "$" decimal(|b|) CRLF b CRLF
   * Arrays have no encoding here.
   */
  function Encode(f: Frame): Bytes
    requires !f.Array?
  {
    match f
    case Simple(s) => [PLUS] + s + CRLF
    case Error(s) => [MINUS] + s + CRLF
    case Integer(n) => [COLON] + Digits(n) + CRLF
    case Null => NULL_BULK
    case Bulk(b) => [DOLLAR] + Digits(|b|) + CRLF + b + CRLF
  }

  /** Every encoding starts with the frame's tag byte and ends with CRLF. */
  lemma EncodeFraming(f: Frame)
    requires !f.Array?
    ensures |Encode(f)| >= 3 && Encode(f)[0] == Tag(f) && Encode(f)[|Encode(f)| - 2..] == CRLF
  {
  }

  predicate NoCR(s: Bytes) { forall i :: 0 <= i < |s| ==> s[i] != CR }

  /** Frames that RESP2 can carry: no arrays, and no CR inside a simple string or error. */
  predicate Encodable(f: Frame)
  {
    match f
    case Simple(s) => NoCR(s)
    case Error(s) => NoCR(s)
    case Array(_) => false
    case _ => true
  }

  /** The position of the first CR at or after `i`. */
  function FindCR(b: Bytes, i: nat): (r: Option<nat>)
    ensures r.Some? ==> i <= r.value < |b| && b[r.value] == CR
    ensures r.Some? ==> forall j :: i <= j < r.value ==> b[j] != CR
    ensures r.None? ==> forall j :: i <= j < |b| ==> b[j] != CR
    decreases |b| - i
  {
    if i >= |b| then None else if b[i] == CR then Some(i) else FindCR(b, i + 1)
  }

  /** The end (position of CR) of the line that starts at `i`, if it is terminated by CRLF. */
  function LineEnd(b: Bytes, i: nat): (r: Option<nat>)
    ensures r.Some? ==> i <= r.value && r.value + 2 <= |b|
  {
    match FindCR(b, i)
    case None => None
    case Some(j) => if j + 1 < |b| && b[j + 1] == LF then Some(j) else None
  }

  /**
   * Reference reader of one RESP2 frame at the front of `b`: the frame and the
   * number of bytes it occupies, or None when `b` does not start with a frame.
   */
  function Decode(b: Bytes): Option<(Frame, nat)>
  {
    if |b| == 0 then None
    else
      match LineEnd(b, 1)
      case None => None
      case Some(e) =>
        var line := b[1..e];
        if b[0] == PLUS then Some((Simple(line), e + 2))
        else if b[0] == MINUS then Some((Error(line), e + 2))
        else if b[0] == COLON then
          if IsDecimal(line) && DigitsValue(line) < 0x1_0000_0000_0000_0000
          then Some((Integer(DigitsValue(line)), e + 2)) else None
        else if b[0] == DOLLAR then
          if line == [MINUS, ONE] then Some((Null, e + 2))
          else if IsDecimal(line) then
            var stop := e + 2 + DigitsValue(line);
            if stop + 2 <= |b| && b[stop..stop + 2] == CRLF
            then Some((Bulk(b[e + 2..stop]), stop + 2)) else None
          else None
        else None
  }

  /** A header line `tag body CRLF` followed by anything ends where its CR is. */
  lemma LineEndOf(tag: byte, body: Bytes, rest: Bytes)
    requires NoCR(body)
    ensures LineEnd([tag] + body + CRLF + rest, 1) == Some(1 + |body|)
  {
    var b := [tag] + body + CRLF + rest;
    assert b[1 + |body|] == CR && b[2 + |body|] == LF;
    assert forall j :: 1 <= j < 1 + |body| ==> b[j] == body[j - 1];
  }

  /** A line frame `tag body CRLF` is read back with its body. */
  lemma DecodeLine(tag: byte, body: Bytes, rest: Bytes)
    requires NoCR(body)
    ensures var b := [tag] + body + CRLF + rest;
      LineEnd(b, 1) == Some(1 + |body|) && b[1..1 + |body|] == body && b[0] == tag
  {
    LineEndOf(tag, body, rest);
    var b := [tag] + body + CRLF + rest;
    assert b[1..1 + |body|] == body;
  }

  lemma DecodeInteger(n: u64, rest: Bytes)
    ensures Decode(Encode(Integer(n)) + rest) == Some((Integer(n), |Encode(Integer(n))|))
  {
    var d := Digits(n);
    DecodeLine(COLON, d, rest);
    assert Encode(Integer(n)) + rest == [COLON] + d + CRLF + rest;
    DecimalRoundTrip(n);
  }

  lemma DecodeNull(rest: Bytes)
    ensures Decode(Encode(Null) + rest) == Some((Null, |Encode(Null)|))
  {
    var b := Encode(Null) + rest;
    assert b[1] != CR && b[2] != CR && b[3] == CR && b[4] == LF;
    assert LineEnd(b, 1) == Some(3);
    assert b[1..3] == [MINUS, ONE];
  }

  /** How `Decode` reads a bulk string whose header line ends at `e`. */
  lemma DecodeBulkHeader(b: Bytes, e: nat)
    requires |b| > 0 && b[0] == DOLLAR && LineEnd(b, 1) == Some(e)
    requires IsDecimal(b[1..e]) && b[1..e] != [MINUS, ONE]
    requires e + 2 + DigitsValue(b[1..e]) + 2 <= |b|
    requires b[e + 2 + DigitsValue(b[1..e])..e + 2 + DigitsValue(b[1..e]) + 2] == CRLF
    ensures Decode(b) == Some((Bulk(b[e + 2..e + 2 + DigitsValue(b[1..e])]), e + 2 + DigitsValue(b[1..e]) + 2))
  {
  }

  lemma DecodeBulk(p: Bytes, rest: Bytes)
    ensures Decode(Encode(Bulk(p)) + rest) == Some((Bulk(p), |Encode(Bulk(p))|))
  {
    var d := Digits(|p|);
    var b := Encode(Bulk(p)) + rest;
    var tail := p + CRLF + rest;
    assert b == [DOLLAR] + d + CRLF + tail;
    DecodeLine(DOLLAR, d, tail);
    var e := 1 + |d|;
    assert b[1..e] == d;
    assert d != [MINUS, ONE] by { assert IsDigit(d[0]); }
    DecimalRoundTrip(|p|);
    var stop := e + 2 + |p|;
    assert b[e + 2..] == tail;
    assert b[e + 2..stop] == p;
    assert b[stop..stop + 2] == CRLF;
    DecodeBulkHeader(b, e);
  }

  /**
   * Round trip: the reference reader recovers every encodable frame from its
   * encoding, whatever follows it, and reports exactly the encoding's length.
   */
  lemma DecodeEncode(f: Frame, rest: Bytes)
    requires Encodable(f)
    ensures Decode(Encode(f) + rest) == Some((f, |Encode(f)|))
  {
    match f
    case Simple(s) =>
      DecodeLine(PLUS, s, rest);
      assert Encode(f) + rest == [PLUS] + s + CRLF + rest;
    case Error(s) =>
      DecodeLine(MINUS, s, rest);
      assert Encode(f) + rest == [MINUS] + s + CRLF + rest;
    case Integer(n) => DecodeInteger(n, rest);
    case Null => DecodeNull(rest);
    case Bulk(p) => DecodeBulk(p, rest);
  }

  /** A buffer that starts with a byte outside the type bytes is never read as a frame. */
  lemma DecodeRejectsUnknownType(b: Bytes)
    requires |b| > 0 && b[0] !in {PLUS, MINUS, COLON, DOLLAR}
    ensures Decode(b).None?
  {
  }
}
