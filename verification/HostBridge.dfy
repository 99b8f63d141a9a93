/** The host end of the serial line: an independent implementation of the frame format, and the
    service loop that answers every request. */
module HostBridge {
  import opened Basics
  import opened Octets
  import opened Crc16
  import opened Frame
  import Decoding
  import opened ErrorObject

  // ----- framing, as the host does it

  datatype Received = Payload(bytes: seq<byte>) | BadChecksum | Fatal

  /** The payload length a request header announces; `None` raises an unrecoverable error. */
  function RequestLength(header: seq<byte>): Option<nat>
  {
    if |header| != 6 then None
    else if header[0] != MAGIC_FIRST || header[1] != MAGIC_SECOND || header[2] != VERSION || header[3] != REQUEST then None
    else
      var n := Decoding.Length(header[4], header[5]);
      if n > MAX_REQUEST_PAYLOAD then None else Some(n)
  }

  function DecodeBody(header: seq<byte>, body: seq<byte>): Received
  {
    var n := RequestLength(header);
    if n.None? || |body| != n.value + 2 then Fatal
    else
      var payload := body[..|body| - 2];
      if body[|body| - 2..] != Trailer(Crc(INITIAL, header[2..] + payload)) then BadChecksum else Payload(payload)
  }

  /** `None` when the payload is too large to send. */
  function EncodeResponse(payload: seq<byte>): Option<seq<byte>>
  {
    if |payload| > MAX_RESPONSE_PAYLOAD then None
    else
      var header := [MAGIC_FIRST, MAGIC_SECOND, VERSION, RESPONSE, ByteOf(|payload| / 256), ByteOf(|payload| % 256)];
      Some(header + payload + Trailer(Crc(INITIAL, header[2..] + payload)))
  }

  /** The host's frames are the guest's frames, byte for byte. */
  lemma EncodersAgree(payload: seq<byte>)
    requires |payload| <= MAX_RESPONSE_PAYLOAD
    ensures EncodeResponse(payload) == Some(FrameBytes(RESPONSE, payload))
  {
    hide Crc, ByteOf, HighByte, LowByte;
    var h := Header(RESPONSE, |payload|);
    assert h == [MAGIC_FIRST, MAGIC_SECOND, VERSION, RESPONSE, ByteOf(|payload| / 256), ByteOf(|payload| % 256)];
    assert h[2..] == Covered(RESPONSE, |payload|);
  }

  /** The host decodes a header and body exactly when together they are a request frame. */
  lemma DecodersAgree(header: seq<byte>, body: seq<byte>, payload: seq<byte>)
    ensures DecodeBody(header, body) == Payload(payload)
            <==> |header| == 6 && |payload| <= MAX_REQUEST_PAYLOAD && header + body == FrameBytes(REQUEST, payload)
  {
    hide Crc, ByteOf, HighByte, LowByte, IntOf, Decoding.Length;
    if DecodeBody(header, body) == Payload(payload) {
      Decoding.LengthBytes(header[4], header[5]);
      assert header == Header(REQUEST, |payload|);
      assert header[2..] == Covered(REQUEST, |payload|);
      assert body == payload + body[|payload|..];
      assert header + body == FrameBytes(REQUEST, payload);
    }
    if |header| == 6 && |payload| <= MAX_REQUEST_PAYLOAD && header + body == FrameBytes(REQUEST, payload) {
      var f := header + body;
      Decoding.FrameLayout(f, REQUEST, payload);
      assert f[..6] == header && f[6..] == body;
      assert header[..] == Header(REQUEST, |payload|);
      assert header[2..] == Covered(REQUEST, |payload|);
      assert body[..|payload|] == f[6..6 + |payload|] && body[|payload|..] == f[6 + |payload|..8 + |payload|];
    }
  }

  // ----- the service

  /** What planning makes of a request: a JSON text, or an error with a code and a message. */
  datatype Answer = Reply(bytes: seq<byte>) | Failed(code: Text, message: Text)

  function TooLarge(): (r: seq<byte>)
    ensures |r| <= MAX_RESPONSE_PAYLOAD && Says(r, Plain("invalid_response"), Plain("provider response is too large"))
  {
    ErrorSays(Plain("invalid_response"), Plain("provider response is too large"));
    ErrorsFit(Plain("invalid_response"), Plain("provider response is too large"));
    ErrorPayload(Plain("invalid_response"), Plain("provider response is too large"))
  }

  function Mismatch(): (r: seq<byte>)
    ensures |r| <= MAX_RESPONSE_PAYLOAD && Says(r, Plain("protocol_error"), Plain("request checksum mismatch"))
  {
    ErrorSays(Plain("protocol_error"), Plain("request checksum mismatch"));
    ErrorsFit(Plain("protocol_error"), Plain("request checksum mismatch"));
    ErrorPayload(Plain("protocol_error"), Plain("request checksum mismatch"))
  }

  /** What the host owes for an answer: the reply itself if it fits a response, and otherwise an error object. */
  ghost predicate Owed(answer: Answer, r: seq<byte>)
  {
    match answer
    case Reply(bytes) =>
      if |bytes| <= MAX_RESPONSE_PAYLOAD then r == bytes
      else Says(r, Plain("invalid_response"), Plain("provider response is too large"))
    case Failed(code, message) => Says(r, code, message)
  }

  function ResponseFor(payload: seq<byte>, planner: seq<byte> -> Answer): (r: seq<byte>)
    ensures |r| <= MAX_RESPONSE_PAYLOAD && Owed(planner(payload), r)
    ensures planner(payload).Reply? && |planner(payload).bytes| <= MAX_RESPONSE_PAYLOAD ==> r == planner(payload).bytes
  {
    match planner(payload)
    case Reply(bytes) => if |bytes| > MAX_RESPONSE_PAYLOAD then TooLarge() else bytes
    case Failed(code, message) =>
      ErrorsFit(code, message);
      ErrorSays(code, message);
      ErrorPayload(code, message)
  }

  /** A request as it arrives: well-framed, its checksum right or wrong. */
  datatype Request = Request(payload: seq<byte>, high: byte, low: byte)

  predicate Framed(q: Request) { |q.payload| <= MAX_REQUEST_PAYLOAD }

  predicate Intact(q: Request) { [q.high, q.low] == Trailer(Checksum(REQUEST, q.payload)) }

  function Wire(q: Request): (w: seq<byte>)
    ensures |w| == 8 + |q.payload|
  {
    Header(REQUEST, |q.payload|) + q.payload + [q.high, q.low]
  }

  function WireAll(qs: seq<Request>): seq<byte>
  {
    if qs == [] then [] else Wire(qs[0]) + WireAll(qs[1..])
  }

  function ReplyTo(q: Request, planner: seq<byte> -> Answer): (r: seq<byte>)
    ensures |r| <= MAX_RESPONSE_PAYLOAD
  {
    if Intact(q) then ResponseFor(q.payload, planner) else Mismatch()
  }

  /** An intact request is answered with what is owed for it, a damaged one with an error object. */
  lemma ReplyIsOwed(q: Request, planner: seq<byte> -> Answer)
    ensures Intact(q) ==> Owed(planner(q.payload), ReplyTo(q, planner))
    ensures !Intact(q) ==> ReadError(ReplyTo(q, planner))
                           == Some(Fields(Units(Plain("protocol_error")), Units(Plain("request checksum mismatch"))))
  {
    hide Owed, Says, ReadError, Units, ResponseFor, ErrorPayload;
    if !Intact(q) { SaidInFull(Mismatch(), Plain("protocol_error"), Plain("request checksum mismatch")); }
  }

  /** One response frame per request, in order. */
  function Replies(qs: seq<Request>, planner: seq<byte> -> Answer): seq<byte>
  {
    if qs == [] then [] else FrameBytes(RESPONSE, ReplyTo(qs[0], planner)) + Replies(qs[1..], planner)
  }

  /** A stream socket. Each read gives up to `chunks[0]` of the waiting bytes, or fails; each write goes
      out whole, or fails after `cuts[0]` bytes. Failures are timeouts and socket errors. */
  class Stream {
    var incoming: seq<byte>
    var chunks: seq<Option<nat>>
    var cuts: seq<Option<nat>>
    var sent: seq<byte>
    var broken: bool

    constructor (bytes: seq<byte>, sizes: seq<Option<nat>>, limits: seq<Option<nat>>)
      ensures incoming == bytes && chunks == sizes && cuts == limits && sent == [] && !broken
    {
      incoming, chunks, cuts, sent, broken := bytes, sizes, limits, [], false;
    }

    method Recv(limit: nat) returns (chunk: seq<byte>)
      requires limit > 0 && !broken
      modifies this`incoming, this`chunks, this`broken
      ensures |chunk| <= limit && old(incoming) == chunk + incoming
      ensures !broken ==> (chunk == [] <==> old(incoming) == [])
    {
      var size := if chunks == [] then Some(limit) else chunks[0];
      if chunks != [] { chunks := chunks[1..]; }
      if size.None? {
        broken := true;
        return [];
      }
      var n := if size.value == 0 then limit else Min(size.value, limit);
      n := Min(n, |incoming|);
      chunk := incoming[..n];
      incoming := incoming[n..];
    }

    /** Read until `size` bytes are there; fails only at the end of the stream or if a read fails. */
    method ReadExact(size: nat) returns (ok: bool, data: seq<byte>)
      requires !broken
      modifies this`incoming, this`chunks, this`broken
      ensures ok ==> !broken && |data| == size && old(incoming) == data + incoming
      ensures !ok && !broken ==> |old(incoming)| < size && incoming == []
    {
      data := [];
      while |data| < size
        invariant !broken && |data| <= size && old(incoming) == data + incoming
        decreases size - |data|
      {
        var chunk := Recv(size - |data|);
        if broken || chunk == [] { return false, data; }
        data := data + chunk;
      }
      return true, data;
    }

    /** Take one request off the stream, if a well-framed one is at its front. */
    method Receive() returns (r: Received, ghost q: Request)
      requires !broken
      modifies this`incoming, this`chunks, this`broken
      ensures r == Fatal <==> broken || !StartsRequest(old(incoming))
      ensures r != Fatal ==> Framed(q) && old(incoming) == Wire(q) + incoming
      ensures r != Fatal ==> r == if Intact(q) then Payload(q.payload) else BadChecksum
    {
      hide Decoding.Length, Wire, DecodeBody, Intact, RequestLength;
      ghost var all := incoming;
      q := Request([], 0, 0);
      var ok, header := ReadExact(6);
      if !ok { return Fatal, q; }
      ghost var tail := incoming;
      var n := RequestLength(header);
      if n.None? {
        NoRequest(header, tail);
        return Fatal, q;
      }
      var body;
      ok, body := ReadExact(n.value + 2);
      if !ok {
        if !broken { NoRequest(header, tail); }
        return Fatal, q;
      }
      r := DecodeBody(header, body);
      q := Request(body[..n.value], body[n.value], body[n.value + 1]);
      RequestRead(header, body, q, incoming);
    }

    method Send(payload: seq<byte>) returns (ok: bool)
      requires !broken
      modifies this`sent, this`cuts, this`broken
      ensures ok <==> |payload| <= MAX_RESPONSE_PAYLOAD && !broken
      ensures |payload| > MAX_RESPONSE_PAYLOAD ==> sent == old(sent) && !broken
      ensures old(sent) <= sent && (ok ==> sent == old(sent) + FrameBytes(RESPONSE, payload))
      ensures |payload| <= MAX_RESPONSE_PAYLOAD ==> sent <= old(sent) + FrameBytes(RESPONSE, payload)
    {
      var frame := EncodeResponse(payload);
      if frame.None? { return false; }
      EncodersAgree(payload);
      var cut := if cuts == [] then None else cuts[0];
      if cuts != [] { cuts := cuts[1..]; }
      if cut.Some? {
        sent := sent + frame.value[..Min(cut.value, |frame.value|)];
        broken := true;
        return false;
      }
      sent := sent + frame.value;
      return true;
    }

    /** Answer one request. `stop` when no well-framed one is at the front of the stream, the line
        breaks, or an intact one was answered and only that was wanted. */
    method ServeOne(planner: seq<byte> -> Answer, once: bool) returns (stop: bool, ghost took: bool, ghost q: Request)
      requires !broken
      modifies this
      ensures broken ==> stop
      ensures !took ==> stop && sent == old(sent) && (broken || !StartsRequest(old(incoming)))
      ensures took ==> Framed(q) && old(incoming) == Wire(q) + incoming && Sending(old(sent), sent, q, planner)
      ensures took && !broken ==> (stop <==> once && Intact(q)) && sent == old(sent) + FrameBytes(RESPONSE, ReplyTo(q, planner))
    {
      hide Wire, FrameBytes, Intact, Mismatch, ResponseFor, StartsRequest, ErrorPayload;
      var r;
      r, q := Receive();
      match r
      case Fatal => return true, false, q;
      case BadChecksum =>
        var payload := ErrorResponse(Plain("protocol_error"), Plain("request checksum mismatch"));
        assert payload == Mismatch() by { MismatchIs(); }
        var ok := Send(payload);
        return !ok, true, q;
      case Payload(bytes) =>
        var ok := Send(ResponseFor(bytes, planner));
        return !ok || once, true, q;
    }

    /** Serve until something that is not a well-framed request arrives, the stream ends or the line
        breaks; with `once`, until an intact request has been answered. */
    method Serve(planner: seq<byte> -> Answer, once: bool) returns (ghost qs: seq<Request>, ghost tail: seq<byte>)
      requires !broken
      modifies this
      ensures old(incoming) == WireAll(qs) + tail && forall i :: 0 <= i < |qs| ==> Framed(qs[i])
      ensures Answered(old(sent), sent, qs, planner) && (!broken ==> sent == old(sent) + Replies(qs, planner))
      ensures !broken && !once ==> Splits(old(incoming), qs, tail)
      ensures once ==> forall i :: 0 <= i < |qs| - 1 ==> !Intact(qs[i])
      ensures !broken && once && !(qs != [] && Intact(qs[|qs| - 1])) ==> !StartsRequest(tail)
    {
      hide Wire, FrameBytes, ReplyTo, StartsRequest, Intact;
      qs, tail := [], incoming;
      var stop := false;
      while !stop
        invariant broken ==> stop
        invariant old(incoming) == WireAll(qs) + tail && forall i :: 0 <= i < |qs| ==> Framed(qs[i])
        invariant Answered(old(sent), sent, qs, planner) && (!broken ==> sent == old(sent) + Replies(qs, planner))
        invariant !stop ==> tail == incoming && (once ==> forall i :: 0 <= i < |qs| ==> !Intact(qs[i]))
        invariant once ==> forall i :: 0 <= i < |qs| - 1 ==> !Intact(qs[i])
        invariant stop && !broken && !(once && qs != [] && Intact(qs[|qs| - 1])) ==> !StartsRequest(tail)
        decreases |tail|, !stop
      {
        ghost var took, q;
        ghost var before := sent;
        stop, took, q := ServeOne(planner, once);
        if took {
          ServedOneMore(qs, q, incoming, planner);
          OneAnswerMore(old(sent), before, sent, qs, q, planner);
          qs, tail := qs + [q], incoming;
        }
      }
    }
  }

  /** Some of the reply to `q`, or all of it, has gone out. */
  ghost predicate Sending(before: seq<byte>, now: seq<byte>, q: Request, planner: seq<byte> -> Answer)
  {
    before <= now <= before + FrameBytes(RESPONSE, ReplyTo(q, planner))
  }

  /** One response per request has gone out, in order, but for part of the last one. */
  ghost predicate Answered(before: seq<byte>, now: seq<byte>, qs: seq<Request>, planner: seq<byte> -> Answer)
  {
    && now <= before + Replies(qs, planner)
    && before + Replies(if qs == [] then [] else qs[..|qs| - 1], planner) <= now
  }

  lemma OneAnswerMore(start: seq<byte>, before: seq<byte>, now: seq<byte>, qs: seq<Request>, q: Request, planner: seq<byte> -> Answer)
    requires before == start + Replies(qs, planner) && Sending(before, now, q, planner)
    requires Replies(qs + [q], planner) == Replies(qs, planner) + FrameBytes(RESPONSE, ReplyTo(q, planner))
    ensures Answered(start, now, qs + [q], planner)
  {
    hide FrameBytes, ReplyTo, Replies;
    var f := FrameBytes(RESPONSE, ReplyTo(q, planner));
    assert (qs + [q])[..|qs|] == qs;
    assert start + Replies(qs, planner) + f == start + (Replies(qs, planner) + f);
  }

  /** A well-framed request, intact or not, is at the front. */
  ghost predicate StartsRequest(s: seq<byte>)
  {
    exists q :: Framed(q) && Wire(q) <= s
  }

  /** The stream is these requests, then something that is not one. */
  ghost predicate Splits(s: seq<byte>, qs: seq<Request>, tail: seq<byte>)
  {
    s == WireAll(qs) + tail && (forall i :: 0 <= i < |qs| ==> Framed(qs[i])) && !StartsRequest(tail)
  }

  lemma NoRequest(header: seq<byte>, tail: seq<byte>)
    requires |header| == 6 && (RequestLength(header).Some? ==> |tail| < RequestLength(header).value + 2)
    ensures !StartsRequest(header + tail)
  {
    hide RequestLength, Wire;
    var all := header + tail;
    forall q | Framed(q) && Wire(q) <= all ensures false {
      assert all == Wire(q) + all[|Wire(q)|..];
      WireHeader(q, all[|Wire(q)|..], header, tail);
    }
  }

  lemma RequestRead(header: seq<byte>, body: seq<byte>, q: Request, rest: seq<byte>)
    requires RequestLength(header) == Some(|q.payload|) && body == q.payload + [q.high, q.low]
    ensures Framed(q) && header + (body + rest) == Wire(q) + rest && StartsRequest(header + (body + rest))
    ensures DecodeBody(header, body) == if Intact(q) then Payload(q.payload) else BadChecksum
  {
    hide ByteOf, IntOf, Decoding.Length, DecodeBody, Intact;
    Decoding.LengthBytes(header[4], header[5]);
    assert header == Header(REQUEST, |q.payload|);
    assert header + (body + rest) == Wire(q) + rest;
    DecodeWire(q);
  }

  /** One request more at the end. */
  lemma {:induction false} ServedOneMore(qs: seq<Request>, q: Request, rest: seq<byte>, planner: seq<byte> -> Answer)
    ensures WireAll(qs + [q]) + rest == WireAll(qs) + (Wire(q) + rest)
    ensures Replies(qs + [q], planner) == Replies(qs, planner) + FrameBytes(RESPONSE, ReplyTo(q, planner))
    decreases |qs|
  {
    hide Wire, FrameBytes, ReplyTo;
    if qs == [] {
      assert qs + [q] == [q] && [q][1..] == [];
    } else {
      assert (qs + [q])[1..] == qs[1..] + [q] && (qs + [q])[0] == qs[0];
      ServedOneMore(qs[1..], q, rest, planner);
      var w := Wire(qs[0]);
      assert w + WireAll(qs[1..] + [q]) + rest == w + (WireAll(qs[1..] + [q]) + rest);
      assert w + (WireAll(qs[1..]) + (Wire(q) + rest)) == w + WireAll(qs[1..]) + (Wire(q) + rest);
    }
  }

  /** A stream splits in only one way, so what the service answers is determined by the bytes alone. */
  lemma {:induction false} SplitIsUnique(s: seq<byte>, qs: seq<Request>, tail: seq<byte>, qs': seq<Request>, tail': seq<byte>)
    requires Splits(s, qs, tail) && Splits(s, qs', tail')
    ensures qs == qs' && tail == tail'
    decreases |qs|
  {
    hide Wire;
    if qs == [] && qs' == [] {
      assert s == tail == tail';
    } else if qs == [] {
      assert s == tail;
      FrontIsRequest(s, qs', tail');
    } else if qs' == [] {
      assert s == tail';
      FrontIsRequest(s, qs, tail);
    } else {
      FrontIsRequest(s, qs, tail);
      FrontIsRequest(s, qs', tail');
      SameFront(qs[0], WireAll(qs[1..]) + tail, qs'[0], WireAll(qs'[1..]) + tail');
      SplitIsUnique(WireAll(qs[1..]) + tail, qs[1..], tail, qs'[1..], tail');
    }
  }

  lemma FrontIsRequest(s: seq<byte>, qs: seq<Request>, tail: seq<byte>)
    requires Splits(s, qs, tail) && qs != []
    ensures s == Wire(qs[0]) + (WireAll(qs[1..]) + tail) && StartsRequest(s)
  {
    hide Wire;
    assert s == Wire(qs[0]) + (WireAll(qs[1..]) + tail);
    assert Framed(qs[0]) && Wire(qs[0]) <= s;
  }

  lemma SameFront(q: Request, rest: seq<byte>, q': Request, rest': seq<byte>)
    requires Framed(q) && Framed(q') && Wire(q) + rest == Wire(q') + rest'
    ensures q == q' && rest == rest'
  {
    hide RequestLength, ByteOf, IntOf;
    var s := Wire(q) + rest;
    assert s == s[..6] + s[6..];
    WireHeader(q, rest, s[..6], s[6..]);
    WireHeader(q', rest', s[..6], s[6..]);
    var n := |q.payload|;
    assert s[6..][..n] == q.payload && s[6..][..n] == q'.payload;
    assert s[6..][n] == q.high && s[6..][n] == q'.high && s[6..][n + 1] == q.low && s[6..][n + 1] == q'.low;
    assert s[6..][n + 2..] == rest && s[6..][n + 2..] == rest';
  }

  lemma MismatchIs()
    ensures Mismatch() == ErrorPayload(Plain("protocol_error"), Plain("request checksum mismatch"))
  {}

  lemma WireHeader(q: Request, rest: seq<byte>, header: seq<byte>, tail: seq<byte>)
    requires Framed(q) && |header| == 6 && header + tail == Wire(q) + rest
    ensures header == Header(REQUEST, |q.payload|) && tail == q.payload + [q.high, q.low] + rest
    ensures RequestLength(header) == Some(|q.payload|)
  {
    hide ByteOf, IntOf, Decoding.Length;
    var all := header + tail;
    assert all == Header(REQUEST, |q.payload|) + (q.payload + [q.high, q.low] + rest);
    assert header == all[..6] && tail == all[6..];
    Decoding.BytesLength(|q.payload|);
  }

  lemma DecodeWire(q: Request)
    requires Framed(q)
    ensures DecodeBody(Header(REQUEST, |q.payload|), q.payload + [q.high, q.low])
            == if Intact(q) then Payload(q.payload) else BadChecksum
  {
    hide ByteOf, IntOf, Decoding.Length, Crc, HighByte, LowByte;
    var h, body := Header(REQUEST, |q.payload|), q.payload + [q.high, q.low];
    Decoding.BytesLength(|q.payload|);
    assert h[2..] == Covered(REQUEST, |q.payload|);
    assert body[..|body| - 2] == q.payload && body[|body| - 2..] == [q.high, q.low];
  }

  /** Where the `i`-th response starts in what the host sends. */
  function ReplyOffset(qs: seq<Request>, planner: seq<byte> -> Answer, i: nat): nat
    requires i <= |qs|
  {
    if i == 0 then 0 else |FrameBytes(RESPONSE, ReplyTo(qs[0], planner))| + ReplyOffset(qs[1..], planner, i - 1)
  }

  /** The guest's decoder, reset at the `i`-th response, delivers exactly the `i`-th reply. */
  lemma {:induction false} GuestDecodesReplies(qs: seq<Request>, planner: seq<byte> -> Answer, i: nat)
    requires i < |qs|
    ensures ReplyOffset(qs, planner, i) <= |Replies(qs, planner)|
    ensures Decoding.Decodes(Replies(qs, planner)[ReplyOffset(qs, planner, i)..], RESPONSE, ReplyTo(qs[i], planner))
    decreases |qs|
  {
    hide Decoding.Decodes, FrameBytes, ReplyTo;
    var f, rest := FrameBytes(RESPONSE, ReplyTo(qs[0], planner)), Replies(qs[1..], planner);
    if i == 0 {
      assert f <= Replies(qs, planner);
      assert Replies(qs, planner)[0..] == Replies(qs, planner);
      Decoding.FramesAreDecoded(Replies(qs, planner), RESPONSE, ReplyTo(qs[0], planner));
    } else {
      GuestDecodesReplies(qs[1..], planner, i - 1);
      var k := ReplyOffset(qs[1..], planner, i - 1);
      assert Replies(qs, planner)[|f| + k..] == rest[k..];
    }
  }
}
