/** Guest and host together: a request goes out, is served, and its answer comes back. */
module RoundTrip {
  import opened Basics
  import opened Frame
  import opened Decoding
  import opened ErrorObject
  import Exchange
  import opened HostBridge

  /** A request with the right checksum. */
  function Sealed(payload: seq<byte>): Request
  {
    var t := Trailer(Checksum(REQUEST, payload));
    Request(payload, t[0], t[1])
  }

  /** The guest's request frame is one intact request to the host, and nothing else. */
  lemma FrameIsRequest(payload: seq<byte>)
    requires |payload| <= MAX_REQUEST_PAYLOAD
    ensures Framed(Sealed(payload)) && Intact(Sealed(payload)) && Wire(Sealed(payload)) == FrameBytes(REQUEST, payload)
    ensures Splits(FrameBytes(REQUEST, payload), [Sealed(payload)], [])
  {
    hide Checksum, Header, Trailer;
    var q := Sealed(payload);
    assert Wire(q) == FrameBytes(REQUEST, payload);
    assert [q][1..] == [];
    assert WireAll([q]) == Wire(q) + [] == Wire(q);
    forall r | Framed(r) && Wire(r) <= [] ensures false {}
  }

  /** What the host sends for it is one response frame, and the guest takes exactly the planner's
      answer from a line that starts with it. */
  lemma AnswerComesBack(payload: seq<byte>, planner: seq<byte> -> Answer, line: seq<byte>)
    requires |payload| <= MAX_REQUEST_PAYLOAD && Replies([Sealed(payload)], planner) <= line
    ensures Replies([Sealed(payload)], planner) == FrameBytes(RESPONSE, ResponseFor(payload, planner))
    ensures Exchange.Verdict(line) == Ok
    ensures forall p :: Decodes(line, RESPONSE, p) <==> p == ResponseFor(payload, planner)
    ensures forall p :: Decodes(line, RESPONSE, p) ==> Owed(planner(payload), p)
  {
    hide Owed, FrameBytes, ResponseFor, Exchange.Verdict, Decodes;
    FrameIsRequest(payload);
    var q := Sealed(payload);
    assert [q][1..] == [];
    assert Replies([q], planner) == FrameBytes(RESPONSE, ReplyTo(q, planner)) + [];
    Exchange.QuietLineDelivers(line, ResponseFor(payload, planner));
  }

  /** One exchange, end to end: the host is given exactly the bytes the guest sent, and the drained line
      starts with exactly the bytes the host sends. Then the guest gets the planner's answer to its
      request, and the host has answered that one request. */
  method Converse(port: Exchange.Port, request: array?<byte>, requestLen: int, response: array<byte>, frame: array<byte>, d: Decoder,
                  sizes: seq<Option<nat>>, planner: seq<byte> -> Answer)
      returns (n: nat, result: Result, host: Stream)
    requires FitsBuffer(request, MAX_PAYLOAD) && FitsBuffer(response, MAX_PAYLOAD) && frame.Length == MAX_FRAME_SIZE
    requires d.Valid() && d.payload != frame && d.payload != request && d.payload != response && request != frame && response != frame
    requires Admission(REQUEST, request != null, requestLen, true) == Ok
    requires port.present && 8 + requestLen <= Exchange.Accepted(port.ready, Exchange.MAX_PORT_POLLS)
    requires Replies([Sealed(Contents(request, requestLen))], planner)
             <= Exchange.Received(Exchange.Within(Exchange.Drained(port.polls, Exchange.DRAIN_LIMIT)))
    modifies port, frame, d, d.payload, response
    ensures result == Ok && n <= MAX_RESPONSE_PAYLOAD && response[..n] == ResponseFor(old(Contents(request, requestLen)), planner)
    ensures var answer := planner(old(Contents(request, requestLen)));
            answer.Reply? && |answer.bytes| <= MAX_RESPONSE_PAYLOAD ==> response[..n] == answer.bytes
    ensures var answer := planner(old(Contents(request, requestLen)));
            answer.Reply? && |answer.bytes| > MAX_RESPONSE_PAYLOAD ==>
              ReadError(response[..n]) == Some(Fields(Units(Plain("invalid_response")), Units(Plain("provider response is too large"))))
    ensures var answer := planner(old(Contents(request, requestLen)));
            answer.Failed? ==> Says(response[..n], answer.code, answer.message)
    ensures !host.broken ==> host.sent == FrameBytes(RESPONSE, response[..n])
  {
    hide FrameBytes, ResponseFor, Exchange.Verdict, Decodes, Replies, Exchange.Received, Exchange.Drained, Exchange.Accepted, Sealed, Splits, Admission,
         Says, ReadError, Units;
    ghost var payload := Contents(request, requestLen);
    Admitted(request != null, requestLen);
    ghost var line := Exchange.Received(Exchange.Within(Exchange.Drained(port.polls, Exchange.DRAIN_LIMIT)));
    AnswerComesBack(payload, planner, line);
    FrameIsRequest(payload);
    var before := |port.sent|;
    n, result := port.Exchange(request, requestLen, response, frame, d);
    assert port.sent[before..] == FrameBytes(REQUEST, payload);
    host := Answering(port.sent[before..], payload, sizes, planner);
    OwedIs(planner(payload), ResponseFor(payload, planner));
  }

  /** What is owed, case by case. */
  lemma OwedIs(answer: Answer, r: seq<byte>)
    requires Owed(answer, r)
    ensures answer.Reply? && |answer.bytes| <= MAX_RESPONSE_PAYLOAD ==> r == answer.bytes
    ensures answer.Reply? && |answer.bytes| > MAX_RESPONSE_PAYLOAD ==>
              ReadError(r) == Some(Fields(Units(Plain("invalid_response")), Units(Plain("provider response is too large"))))
    ensures answer.Failed? ==> Says(r, answer.code, answer.message)
  {
    hide Says, ReadError, Units;
    if answer.Reply? && |answer.bytes| > MAX_RESPONSE_PAYLOAD {
      SaidInFull(r, Plain("invalid_response"), Plain("provider response is too large"));
    }
  }

  /** The host, given one request frame. */
  method Answering(bytes: seq<byte>, ghost payload: seq<byte>, sizes: seq<Option<nat>>, planner: seq<byte> -> Answer)
      returns (host: Stream)
    requires |payload| <= MAX_REQUEST_PAYLOAD && bytes == FrameBytes(REQUEST, payload)
    ensures fresh(host) && (!host.broken ==> host.sent == Replies([Sealed(payload)], planner))
  {
    hide FrameBytes, Replies, Sealed, Splits, Wire, WireAll, Framed, Intact, Answered;
    host := new Stream(bytes, sizes, []);
    ghost var qs, tail := host.Serve(planner, false);
    if !host.broken { Served(payload, qs, tail); }
  }

  lemma Admitted(hasPayload: bool, payloadLen: int)
    requires Admission(REQUEST, hasPayload, payloadLen, true) == Ok
    ensures 0 <= payloadLen <= MAX_REQUEST_PAYLOAD
  {}

  lemma Served(payload: seq<byte>, qs: seq<Request>, tail: seq<byte>)
    requires |payload| <= MAX_REQUEST_PAYLOAD
    requires Splits(FrameBytes(REQUEST, payload), qs, tail)
    ensures qs == [Sealed(payload)]
  {
    hide FrameBytes, Splits;
    FrameIsRequest(payload);
    SplitIsUnique(FrameBytes(REQUEST, payload), qs, tail, [Sealed(payload)], []);
  }
}
