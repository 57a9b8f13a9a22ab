/** Length-prefixed frames over a byte stream that arrives in arbitrary chunks. */
module Framing {
  import opened Contracts
  import opened Text
  import opened Json

  /** The receiving end of a connection whose peer has closed after `incoming`. */
  class Connection {
    var incoming: Bytes

    constructor (stream: Bytes)
      ensures incoming == stream
    {
      incoming := stream;
    }

    /** At most `n` bytes, at least one unless the stream has ended or none are asked for. */
    method Recv(n: nat) returns (chunk: Bytes)
      modifies this
      ensures chunk + incoming == old(incoming) && |chunk| <= n
      ensures n > 0 && old(incoming) != [] ==> chunk != []
    {
      if n == 0 || incoming == [] {
        return [];
      }
      var k :| 1 <= k <= n && k <= |incoming|;
      chunk := incoming[..k];
      incoming := incoming[k..];
    }
  }

  function Join(chunks: seq<Bytes>): Bytes {
    if chunks == [] then [] else Join(chunks[..|chunks| - 1]) + chunks[|chunks| - 1]
  }

  /** Exactly `size` bytes however they are chunked, or an error once the stream has run dry. */
  method ReceiveExact(connection: Connection, size: nat) returns (r: Result<Bytes>)
    modifies connection
    ensures |old(connection.incoming)| >= size ==>
              r == Ok(old(connection.incoming)[..size]) && connection.incoming == old(connection.incoming)[size..]
    ensures |old(connection.incoming)| < size ==>
              r == Err("connection closed mid-frame") && connection.incoming == []
  {
    var chunks: seq<Bytes> := [];
    var remaining := size;
    while remaining > 0
      invariant 0 <= remaining <= size && |Join(chunks)| == size - remaining
      invariant Join(chunks) + connection.incoming == old(connection.incoming)
      decreases remaining
    {
      var chunk := connection.Recv(remaining);
      if chunk == [] {
        return Err("connection closed mid-frame");
      }
      assert (chunks + [chunk])[..|chunks|] == chunks;
      assert Join(chunks + [chunk]) + connection.incoming == Join(chunks) + (chunk + connection.incoming);
      chunks := chunks + [chunk];
      remaining := remaining - |chunk|;
    }
    var whole := Join(chunks);
    assert whole == (whole + connection.incoming)[..size];
    assert connection.incoming == (whole + connection.incoming)[size..];
    return Ok(whole);
  }

  // ---------------------------------------------------------------- headers

  const HEADER_RANGE := 0x1_0000_0000

  /** A length as four bytes, most significant first. */
  function Header(n: nat): (b: Bytes)
    requires n < HEADER_RANGE
    ensures |b| == 4 && n == ((b[0] as int * 256 + b[1] as int) * 256 + b[2] as int) * 256 + b[3] as int
  {
    HeaderPlaces(n);
    [(n / 0x100_0000) as Byte, (n / 0x1_0000 % 256) as Byte, (n / 256 % 256) as Byte, (n % 256) as Byte]
  }

  function HeaderValue(b: Bytes): nat
    requires |b| == 4
  {
    b[0] as int * 0x100_0000 + b[1] as int * 0x1_0000 + b[2] as int * 256 + b[3] as int
  }

  lemma HeaderPlaces(n: nat)
    requires n < HEADER_RANGE
    ensures n == ((n / 0x100_0000 * 256 + n / 0x1_0000 % 256) * 256 + n / 256 % 256) * 256 + n % 256
  {
    assert n / 0x1_0000 == n / 256 / 256 && n / 0x100_0000 == n / 256 / 256 / 256;
  }

  /** A header says its length, and every four bytes are the header of what they say. */
  lemma HeaderRoundTrip(n: nat)
    requires n < HEADER_RANGE
    ensures HeaderValue(Header(n)) == n
  {
  }

  lemma EveryHeaderIsRead(b: Bytes)
    requires |b| == 4
    ensures HeaderValue(b) < HEADER_RANGE && Header(HeaderValue(b)) == b
  {
    var n := HeaderValue(b);
    assert n / 256 == (b[0] as int * 256 + b[1] as int) * 256 + b[2] as int;
    assert n / 0x1_0000 == n / 256 / 256 && n / 0x100_0000 == n / 256 / 256 / 256;
  }

  // ---------------------------------------------------------------- frames

  /** The bytes put on the wire for a frame, when it is within the limit. */
  function FrameBytes(frame: Fields, limit: nat): Result<Bytes> {
    var payload := CanonicalBytes(frame);
    :- Need(2 <= |payload| <= limit, "local-IP frame exceeds configured limit");
    :- Need(|payload| < HEADER_RANGE, "frame length does not fit the header");
    Ok(Header(|payload|) + payload)
  }

  function DecodePayload(raw: Bytes): Result<Fields> {
    match ParseBytes(raw)
    case None => Err("local-IP frame is not valid UTF-8 JSON")
    case Some(Obj(fields)) => Ok(fields)
    case Some(_) => Err("local-IP frame root must be a mapping")
  }

  /** The frame at the front of a whole stream. */
  function ReadFrame(stream: Bytes, limit: nat): Result<Fields> {
    if |stream| < 4 then Err("connection closed mid-frame") else
    var size := HeaderValue(stream[..4]);
    :- Need(2 <= size <= limit, "local-IP frame length is invalid");
    :- Need(|stream| - 4 >= size, "connection closed mid-frame");
    DecodePayload(stream[4..4 + size])
  }

  /** Receiving does not depend on the chunking: it reads what the whole stream holds. */
  method ReceiveFrame(connection: Connection, limit: nat) returns (r: Result<Fields>)
    modifies connection
    ensures r == ReadFrame(old(connection.incoming), limit)
    ensures r.Ok? ==>
              connection.incoming == old(connection.incoming)[4 + HeaderValue(old(connection.incoming)[..4])..]
  {
    ghost var stream := connection.incoming;
    var header := ReceiveExact(connection, 4);
    if header.Err? {
      return Err(header.reason);
    }
    var size := HeaderValue(header.value);
    if size < 2 || size > limit {
      return Err("local-IP frame length is invalid");
    }
    var raw := ReceiveExact(connection, size);
    if raw.Err? {
      return Err(raw.reason);
    }
    assert stream[4..][..size] == stream[4..4 + size] && stream[4..][size..] == stream[4 + size..];
    r := DecodePayload(raw.value);
  }

  /** Every stream, by its first four bytes as a number: closed early, a bad length, or the object it holds, if it does. */
  lemma ReadsExactly(stream: Bytes, limit: nat)
    ensures |stream| < 4 ==> ReadFrame(stream, limit) == Err("connection closed mid-frame")
    ensures |stream| >= 4 ==>
              var size := ((stream[0] as int * 256 + stream[1] as int) * 256 + stream[2] as int) * 256 + stream[3] as int;
              if size < 2 || size > limit then ReadFrame(stream, limit) == Err("local-IP frame length is invalid")
              else if |stream| < 4 + size then ReadFrame(stream, limit) == Err("connection closed mid-frame")
              else forall fields ::
                ReadFrame(stream, limit) == Ok(fields) <==> ParseBytes(stream[4..4 + size]) == Some(Obj(fields))
  {
  }

  lemma CanonicalAtLeastTwo(fields: Fields)
    ensures |CanonicalBytes(fields)| >= 2
  {
    var payload := CanonicalBytes(fields);
    SortedEnumerates();
    assert CanonicalText(fields)[0] == '{';
  }

  /** A sent frame is received unchanged, whatever follows it, within the receiver's limit. */
  lemma FrameRoundTrip(frame: Fields, sendLimit: nat, receiveLimit: nat, rest: Bytes)
    requires FrameBytes(frame, sendLimit).Ok? && |CanonicalBytes(frame)| <= receiveLimit
    ensures ReadFrame(FrameBytes(frame, sendLimit).value + rest, receiveLimit) == Ok(frame)
  {
    var payload := CanonicalBytes(frame);
    var stream := Header(|payload|) + payload + rest;
    assert stream[..4] == Header(|payload|);
    HeaderRoundTrip(|payload|);
    assert stream[4..4 + |payload|] == payload;
    CanonicalRoundTrip(frame);
  }

  /** A stream cut anywhere inside a frame is an error, never a shorter frame. */
  lemma FramePrefixFails(frame: Fields, sendLimit: nat, receiveLimit: nat, cut: nat)
    requires FrameBytes(frame, sendLimit).Ok? && cut < |FrameBytes(frame, sendLimit).value|
    ensures ReadFrame(FrameBytes(frame, sendLimit).value[..cut], receiveLimit).Err?
  {
    var payload := CanonicalBytes(frame);
    if cut >= 4 {
      assert (Header(|payload|) + payload)[..cut][..4] == Header(|payload|);
      HeaderRoundTrip(|payload|);
    }
  }
}
