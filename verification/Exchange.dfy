/** The guest's polled exchange: send one request, wait for one response. */
module Exchange {
  import opened Basics
  import opened Frame
  import opened Decoding

  const MAX_PORT_POLLS := 1000000
  const DRAIN_LIMIT := 2 * MAX_FRAME_SIZE

  /** The bytes among poll results. */
  function Received(polls: seq<Option<byte>>): seq<byte>
  {
    if polls == [] then [] else
    var r := Received(polls[..|polls| - 1]);
    var last := polls[|polls| - 1];
    if last.None? then r else r + [last.value]
  }

  /** What remains of the coming poll results once the line has been drained. */
  function Drained(polls: seq<Option<byte>>, limit: nat): seq<Option<byte>>
  {
    if limit == 0 || polls == [] then polls
    else if polls[0].None? then polls[1..]
    else Drained(polls[1..], limit - 1)
  }

  /** The next `k` polls all bring a byte. */
  predicate Busy(polls: seq<Option<byte>>, k: nat)
    ensures Busy(polls, k) ==> k <= |polls|
  {
    k <= |polls| && forall i :: 0 <= i < k ==> polls[i].Some?
  }

  /** Draining stops right after the first empty poll, or when the limit is reached. */
  lemma {:induction false} DrainedStops(polls: seq<Option<byte>>, limit: nat, k: nat)
    requires k <= limit && Busy(polls, k)
    ensures k < limit && k < |polls| && polls[k].None? ==> Drained(polls, limit) == polls[k + 1..]
    ensures k == limit || k == |polls| ==> Drained(polls, limit) == polls[k..]
    decreases k
  {
    if k > 0 { DrainedStops(polls[1..], limit - 1, k - 1); }
  }

  /** Bytes come in the order of the polls that bring them, and other polls bring none. */
  lemma {:induction false} ReceivedConcat(a: seq<Option<byte>>, b: seq<Option<byte>>, v: byte)
    ensures Received(a + b) == Received(a) + Received(b)
    ensures Received([Some(v)]) == [v] && Received([None]) == []
    decreases |b|
  {
    var one: seq<Option<byte>>, none: seq<Option<byte>> := [Some(v)], [None];
    assert one[..0] == [] && none[..0] == [];
    if b == [] {
      assert a + b == a;
    } else {
      assert (a + b)[..|a + b| - 1] == a + b[..|b| - 1];
      ReceivedConcat(a, b[..|b| - 1], v);
    }
  }

  function Upto(polls: seq<Option<byte>>, k: nat): seq<Option<byte>>
  {
    if |polls| <= k then polls else polls[..k]
  }

  /** The polls the budget allows. */
  function Within(polls: seq<Option<byte>>): seq<Option<byte>> { Upto(polls, MAX_PORT_POLLS) }

  /** One poll more. */
  lemma ReceivedStep(polls: seq<Option<byte>>, k: nat)
    ensures Received(Upto(polls, k + 1)) ==
              Received(Upto(polls, k)) + if k < |polls| && polls[k].Some? then [polls[k].value] else []
  {
    if k < |polls| {
      assert Upto(polls, k + 1)[..k] == Upto(polls, k);
      assert Upto(polls, k + 1)[k] == polls[k];
    }
  }

  /** How the exchange ends, given the bytes that arrive within the poll budget. */
  function Verdict(bytes: seq<byte>): Result
  {
    match Feed(FRESH, bytes, 0)
    case Pending(_) => if bytes == [] then ReadTimeout else PartialFrame
    case Final(r, _, d) => if r == Ok && d.kind != RESPONSE then UnexpectedFrame else r
  }

  /** Pushing one more byte. */
  lemma {:induction false} FeedOneMore(d: Reader, s: seq<byte>, v: byte, i: nat)
    requires i <= |s| && Feed(d, s, i).Pending?
    ensures Feed(d, s + [v], i) ==
              var p := Step(Feed(d, s, i).reader, v);
              if p.result == NeedMore then Pending(p.reader) else Final(p.result, |s| + 1, p.reader)
    decreases |s| - i
  {
    hide Step;
    var t := s + [v];
    if i < |s| {
      assert t[i] == s[i];
      FeedOneMore(Step(d, s[i]).reader, s, v, i + 1);
    } else {
      assert t[i] == v;
      var p := Step(d, v);
      if p.result == NeedMore { assert Feed(p.reader, t, i + 1) == Pending(p.reader); }
    }
  }

  /** Once final, later bytes change nothing. */
  lemma {:induction false} FeedIsFinal(d: Reader, s: seq<byte>, t: seq<byte>, i: nat)
    requires i <= |s| && Feed(d, s, i).Final?
    ensures Feed(d, s + t, i) == Feed(d, s, i)
    decreases |s| - i
  {
    hide Step;
    assert (s + t)[i] == s[i];
    if Step(d, s[i]).result == NeedMore { FeedIsFinal(Step(d, s[i]).reader, s, t, i + 1); }
  }

  lemma {:induction false} ReceivedPrefix(polls: seq<Option<byte>>, j: nat, k: nat)
    requires j <= k
    ensures Received(Upto(polls, j)) <= Received(Upto(polls, k))
    decreases k
  {
    hide Received, Upto;
    if j < k {
      ReceivedPrefix(polls, j, k - 1);
      ReceivedStep(polls, k - 1);
    }
  }

  /** A result reached after some of the polls is the result over all of them. */
  lemma FinalWithin(polls: seq<Option<byte>>, k: nat)
    requires k <= MAX_PORT_POLLS && Feed(FRESH, Received(Upto(polls, k)), 0).Final?
    ensures Feed(FRESH, Received(Within(polls)), 0) == Feed(FRESH, Received(Upto(polls, k)), 0)
  {
    hide Received, Upto, Feed;
    ReceivedPrefix(polls, k, MAX_PORT_POLLS);
    var some, all := Received(Upto(polls, k)), Received(Upto(polls, MAX_PORT_POLLS));
    assert all == some + all[|some|..];
    FeedIsFinal(FRESH, some, all[|some|..], 0);
  }

  /** How many of the next `polls` transmitter polls will accept a byte. */
  function Accepted(ready: seq<bool>, polls: nat): nat
  {
    if ready == [] || polls == 0 then 0 else (if ready[0] then 1 else 0) + Accepted(ready[1..], polls - 1)
  }

  /** The transmitter accepts no more than it is asked, all of it when it is always ready, and none when it never is. */
  lemma {:induction false} AcceptedIs(ready: seq<bool>, polls: nat)
    ensures Accepted(ready, polls) <= Min(|ready|, polls)
    ensures Accepted(ready, polls) == Min(|ready|, polls) <==> forall i :: 0 <= i < |ready| && i < polls ==> ready[i]
    ensures Accepted(ready, polls) == 0 <==> forall i :: 0 <= i < |ready| && i < polls ==> !ready[i]
    decreases polls
  {
    if ready != [] && polls > 0 {
      AcceptedIs(ready[1..], polls - 1);
      assert forall i :: 1 <= i < |ready| ==> ready[i] == ready[1..][i - 1];
    }
  }

  class Port {
    var present: bool
    var ready: seq<bool>            // whether the transmitter will accept a byte, poll by poll
    var polls: seq<Option<byte>>    // what the receiver will give, poll by poll
    var sent: seq<byte>

    constructor (fitted: bool, transmit: seq<bool>, receive: seq<Option<byte>>)
      ensures present == fitted && ready == transmit && polls == receive && sent == []
    {
      present, ready, polls, sent := fitted, transmit, receive, [];
    }

    method TryWriteByte(v: byte) returns (ok: bool)
      modifies this`ready, this`sent
      ensures ok == (old(ready) != [] && old(ready)[0])
      ensures ready == if old(ready) == [] then [] else old(ready)[1..]
      ensures sent == if ok then old(sent) + [v] else old(sent)
    {
      if ready == [] { return false; }
      ok := ready[0];
      ready := ready[1..];
      if ok { sent := sent + [v]; }
    }

    method TryReadByte() returns (r: Option<byte>)
      modifies this`polls
      ensures r == if old(polls) == [] then None else old(polls)[0]
      ensures polls == if old(polls) == [] then [] else old(polls)[1..]
    {
      if polls == [] { return None; }
      r := polls[0];
      polls := polls[1..];
    }

    method DrainInput()
      modifies this`polls
      ensures polls == Drained(old(polls), DRAIN_LIMIT)
      ensures forall k :: 0 <= k < |old(polls)| && k < DRAIN_LIMIT && Busy(old(polls), k) && old(polls)[k].None? ==> polls == old(polls)[k + 1..]
      ensures Busy(old(polls), DRAIN_LIMIT) ==> polls == old(polls)[DRAIN_LIMIT..]
      ensures |old(polls)| <= DRAIN_LIMIT && Busy(old(polls), |old(polls)|) ==> polls == []
    {
      DrainStops(polls);
      for i := 0 to DRAIN_LIMIT
        invariant Drained(polls, DRAIN_LIMIT - i) == Drained(old(polls), DRAIN_LIMIT)
      {
        var r := TryReadByte();
        if r.None? { return; }
      }
    }

    /** As many bytes go out, in order, as the transmitter accepts within the budget. */
    method WriteFrame(frame: array<byte>, n: nat) returns (ok: bool)
      requires n <= frame.Length
      modifies this`ready, this`sent
      ensures ok <==> n <= Accepted(old(ready), MAX_PORT_POLLS)
      ensures sent == old(sent) + frame[..Min(n, Accepted(old(ready), MAX_PORT_POLLS))]
    {
      var written := 0;
      var count := 0;
      while written < n && count < MAX_PORT_POLLS
        invariant written <= n && count <= MAX_PORT_POLLS && sent == old(sent) + frame[..written]
        invariant written + Accepted(ready, MAX_PORT_POLLS - count) == Accepted(old(ready), MAX_PORT_POLLS)
        decreases MAX_PORT_POLLS - count
      {
        var accepted := TryWriteByte(frame[written]);
        if accepted { written := written + 1; }
        count := count + 1;
      }
      return written == n;
    }

    /** Poll for bytes and push them until the decoder has a result or the budget is spent. */
    method ReadFrame(d: Decoder) returns (result: Result)
      requires d.Valid() && d.Reading() == FRESH
      modifies this`polls, d, d.payload
      ensures d.Valid() && d.payload == old(d.payload)
      ensures var bytes := Received(Within(old(polls)));
              var o := Feed(FRESH, bytes, 0);
              if o.Pending? then result == (if bytes == [] then ReadTimeout else PartialFrame)
              else result == o.result && d.Reading() == o.reader
    {
      hide Step, Feed, Received, Upto;
      ghost var all := polls;
      var bytesRead := 0;
      FeedNothing();
      NothingReceived(all);
      for count := 0 to MAX_PORT_POLLS
        invariant d.Valid() && d.payload == old(d.payload)
        invariant polls == if count <= |all| then all[count..] else []
        invariant bytesRead == |Received(Upto(all, count))|
        invariant Feed(FRESH, Received(Upto(all, count)), 0) == Pending(d.Reading())
      {
        ghost var seen := Received(Upto(all, count));
        ReceivedStep(all, count);
        assert seen + [] == seen;
        var r := TryReadByte();
        if r.Some? {
          bytesRead := bytesRead + 1;
          FeedOneMore(FRESH, seen, r.value, 0);
          result := d.Push(r.value);
          if result != NeedMore {
            FinalWithin(all, count + 1);
            return;
          }
        }
      }
      if bytesRead != 0 { return PartialFrame; }
      return ReadTimeout;
    }

    method Exchange(request: array?<byte>, requestLen: int, response: array?<byte>, frame: array<byte>, d: Decoder)
        returns (n: nat, result: Result)
      requires FitsBuffer(request, MAX_PAYLOAD) && FitsBuffer(response, MAX_PAYLOAD) && frame.Length == MAX_FRAME_SIZE
      requires d.Valid() && d.payload != frame && d.payload != request && d.payload != response
      requires request != frame && (response == null || response != frame)
      modifies this, frame, d, d.payload, if response == null then {} else {response}
      ensures result == Ok ==>
                && response != null && n <= MAX_RESPONSE_PAYLOAD
                && Admission(REQUEST, request != null, requestLen, true) == Ok
                && sent == old(sent) + FrameBytes(REQUEST, old(Contents(request, requestLen)))
                && Decodes(Received(Within(Drained(old(polls), DRAIN_LIMIT))), RESPONSE, response[..n])
      ensures result != Ok ==> n == 0 && (response != null ==> response[..] == old(response[..]))
      ensures result ==
                if response == null then InvalidPayload
                else if Admission(REQUEST, request != null, requestLen, true) != Ok
                then Admission(REQUEST, request != null, requestLen, true)
                else if !old(present) then PortUnavailable
                else if Accepted(old(ready), MAX_PORT_POLLS) < 8 + requestLen then WriteTimeout
                else Verdict(Received(Within(Drained(old(polls), DRAIN_LIMIT))))
    {
      hide Step, Feed, Drained, Received, Within, FrameBytes, Admission, Accepted;
      if response == null { return 0, InvalidPayload; }
      var frameLen, encoded := Encode(REQUEST, request, requestLen, frame);
      if encoded != Ok { return 0, encoded; }
      if !present { return 0, PortUnavailable; }
      DrainInput();
      var written := WriteFrame(frame, frameLen);
      if !written { return 0, WriteTimeout; }
      d.Reset();
      ghost var bytes := Received(Within(polls));
      result := ReadFrame(d);
      OtherVerdicts(bytes);
      if result != Ok { return 0, result; }
      ghost var kind, payload := AcceptedIsFrame(bytes);
      if d.kind != RESPONSE { return 0, UnexpectedFrame; }
      assert d.payload[..d.payloadRead] == payload && d.length == |payload|;
      n := d.length;
      for i := 0 to n
        invariant response[..i] == payload[..i]
        modifies response
      {
        response[i] := d.payload[i];
        assert response[..i + 1] == payload[..i + 1];
      }
    }
  }

  lemma DrainStops(polls: seq<Option<byte>>)
    ensures forall k :: 0 <= k < |polls| && k < DRAIN_LIMIT && Busy(polls, k) && polls[k].None? ==> Drained(polls, DRAIN_LIMIT) == polls[k + 1..]
    ensures Busy(polls, DRAIN_LIMIT) ==> Drained(polls, DRAIN_LIMIT) == polls[DRAIN_LIMIT..]
    ensures |polls| <= DRAIN_LIMIT && Busy(polls, |polls|) ==> Drained(polls, DRAIN_LIMIT) == []
  {
    hide Drained, Busy;
    forall k | 0 <= k < |polls| && k < DRAIN_LIMIT && Busy(polls, k) && polls[k].None?
      ensures Drained(polls, DRAIN_LIMIT) == polls[k + 1..]
    {
      DrainedStops(polls, DRAIN_LIMIT, k);
    }
    if Busy(polls, DRAIN_LIMIT) { DrainedStops(polls, DRAIN_LIMIT, DRAIN_LIMIT); }
    if |polls| <= DRAIN_LIMIT && Busy(polls, |polls|) { DrainedStops(polls, DRAIN_LIMIT, |polls|); }
  }

  lemma NothingReceived(polls: seq<Option<byte>>)
    ensures Received(Upto(polls, 0)) == []
  {}

  lemma FeedNothing()
    ensures Feed(FRESH, [], 0) == Pending(FRESH)
  {}

  /** If a response frame is the first thing to arrive on the drained line, it is what comes back. */
  lemma QuietLineDelivers(bytes: seq<byte>, payload: seq<byte>)
    requires |payload| <= MAX_RESPONSE_PAYLOAD && FrameBytes(RESPONSE, payload) <= bytes
    ensures Verdict(bytes) == Ok
    ensures forall p :: Decodes(bytes, RESPONSE, p) <==> p == payload
  {
    hide Feed, FrameBytes;
    FramesAreDecoded(bytes, RESPONSE, payload);
  }

  /** Which bytes bring which end: a response frame first succeeds, a request frame first is unexpected, and only
      silence is a timeout. */
  lemma VerdictIs(bytes: seq<byte>)
    ensures Verdict(bytes) == Ok <==> exists payload :: |payload| <= MAX_RESPONSE_PAYLOAD && FrameBytes(RESPONSE, payload) <= bytes
    ensures Verdict(bytes) == UnexpectedFrame <==> exists payload :: |payload| <= MAX_REQUEST_PAYLOAD && FrameBytes(REQUEST, payload) <= bytes
    ensures Verdict(bytes) == ReadTimeout <==> bytes == []
  {
    hide Feed, FrameBytes;
    AcceptsExactlyFrames(bytes);
    OtherVerdicts(bytes);
    if Accepts(bytes) {
      var kind, payload := AcceptedIsFrame(bytes);
      forall p | |p| <= MAX_RESPONSE_PAYLOAD && FrameBytes(RESPONSE, p) <= bytes ensures kind == RESPONSE {
        FramesAreUnique(bytes, kind, payload, RESPONSE, p);
      }
      forall p | |p| <= MAX_REQUEST_PAYLOAD && FrameBytes(REQUEST, p) <= bytes ensures kind == REQUEST {
        FramesAreUnique(bytes, kind, payload, REQUEST, p);
      }
    } else {
      forall p | |p| <= MAX_RESPONSE_PAYLOAD && FrameBytes(RESPONSE, p) <= bytes ensures false { FramesAreDecoded(bytes, RESPONSE, p); }
      forall p | |p| <= MAX_REQUEST_PAYLOAD && FrameBytes(REQUEST, p) <= bytes ensures false { FramesAreDecoded(bytes, REQUEST, p); }
    }
  }

  /** A run that delivers no frame ends as malformed or oversized, or not at all. */
  lemma OtherVerdicts(bytes: seq<byte>)
    ensures var o := Feed(FRESH, bytes, 0);
            o.Final? ==> o.result == Ok || o.result == MalformedFrame || o.result == OversizedFrame
    ensures bytes == [] ==> Feed(FRESH, bytes, 0).Pending?
  {
    EndsFrom(FRESH, bytes, 0);
  }

  lemma {:induction false} EndsFrom(d: Reader, s: seq<byte>, i: nat)
    requires i <= |s|
    ensures var o := Feed(d, s, i);
            o.Final? ==> o.result == Ok || o.result == MalformedFrame || o.result == OversizedFrame
    decreases |s| - i
  {
    hide Step;
    if i < |s| {
      StepResults(d, s[i]);
      EndsFrom(Step(d, s[i]).reader, s, i + 1);
    }
  }
}
