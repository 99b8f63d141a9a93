/** The byte-at-a-time frame decoder, and the exact language it accepts. */
module Decoding {
  import opened Basics
  import opened Octets
  import opened Crc16
  import opened Frame

  const MAGIC_1 := 0
  const MAGIC_2 := 1
  const VERSION_BYTE := 2
  const KIND_BYTE := 3
  const LENGTH_HIGH := 4
  const LENGTH_LOW := 5
  const PAYLOAD := 6
  const CHECKSUM_HIGH := 7
  const CHECKSUM_LOW := 8

  /** What a decoder holds; `payload` is the part of the buffer written since the last reset. */
  datatype Reader = Reader(kind: byte, payload: seq<byte>, length: nat, state: nat, checksum: bv16, receivedCRC: bv16)

  datatype Pushed = Pushed(reader: Reader, result: Result)

  const FRESH := Reader(0, [], 0, MAGIC_1, INITIAL, 0)

  function OrLow(c: bv16, low: byte): bv16 { c | (low as bv16) }
  function Length(high: byte, low: byte): nat { 256 * IntOf(high) + IntOf(low) }

  /** The effect of one byte. */
  function Step(d: Reader, value: byte): Pushed
  {
    match d.state
    case 0 =>
      if value != MAGIC_FIRST then Pushed(FRESH, MalformedFrame)
      else Pushed(d.(state := MAGIC_2), NeedMore)
    case 1 =>
      if value != MAGIC_SECOND then Pushed(FRESH, MalformedFrame)
      else Pushed(d.(state := VERSION_BYTE), NeedMore)
    case 2 =>
      if value != VERSION then Pushed(FRESH, MalformedFrame)
      else Pushed(d.(state := KIND_BYTE, checksum := Update(d.checksum, value)), NeedMore)
    case 3 =>
      if !ValidKind(value) then Pushed(FRESH, MalformedFrame)
      else Pushed(d.(state := LENGTH_HIGH, kind := value, checksum := Update(d.checksum, value)), NeedMore)
    case 4 =>
      Pushed(d.(state := LENGTH_LOW, length := 256 * IntOf(value), checksum := Update(d.checksum, value)), NeedMore)
    case 5 =>
      var length := d.length + IntOf(value);
      if length > MaxPayload(d.kind) then Pushed(FRESH, OversizedFrame)
      else Pushed(d.(state := if length == 0 then CHECKSUM_HIGH else PAYLOAD, length := length,
                     checksum := Update(d.checksum, value)), NeedMore)
    case 6 =>
      var payload := d.payload + [value];
      Pushed(d.(state := if |payload| == d.length then CHECKSUM_HIGH else PAYLOAD, payload := payload,
                checksum := Update(d.checksum, value)), NeedMore)
    case 7 =>
      Pushed(d.(state := CHECKSUM_LOW, receivedCRC := Word(value, 0)), NeedMore)
    case 8 =>
      var received := OrLow(d.receivedCRC, value);
      if received != d.checksum then Pushed(FRESH, MalformedFrame)
      else Pushed(d.(receivedCRC := received), Ok)
    case _ =>
      Pushed(FRESH, MalformedFrame)
  }

  /** The buffer index of the next payload byte is always inside the buffer. */
  predicate InBounds(d: Reader)
  {
    && (d.state < PAYLOAD ==> d.payload == [])
    && (d.state == PAYLOAD ==> |d.payload| < d.length <= MAX_PAYLOAD)
    && (d.state > PAYLOAD ==> |d.payload| <= MAX_PAYLOAD)
  }

  lemma StepInBounds(d: Reader, value: byte)
    requires InBounds(d)
    ensures InBounds(Step(d, value).reader)
  {
    hide Update, IntOf, Word, OrLow;
  }

  lemma StepResults(d: Reader, value: byte)
    ensures var r := Step(d, value).result;
            r == NeedMore || r == Ok || r == MalformedFrame || r == OversizedFrame
  {
    hide Update, IntOf, Word, OrLow;
  }

  class Decoder {
    var kind: byte
    var payload: array<byte>
    var length: nat
    var state: nat
    var checksum: bv16
    var receivedCRC: bv16
    var payloadRead: nat

    ghost function Reading(): Reader
      reads this, payload
      requires payloadRead <= payload.Length
    {
      Reader(kind, payload[..payloadRead], length, state, checksum, receivedCRC)
    }

    ghost predicate Valid()
      reads this, payload
    {
      payload.Length == MAX_PAYLOAD && payloadRead <= payload.Length && InBounds(Reading())
    }

    constructor ()
      ensures Valid() && fresh(payload) && Reading() == FRESH
    {
      payload := new byte[MAX_PAYLOAD];
      kind, length, state, checksum, receivedCRC, payloadRead := 0, 0, MAGIC_1, INITIAL, 0, 0;
    }

    method Reset()
      requires payload.Length == MAX_PAYLOAD
      modifies this
      ensures Valid() && payload == old(payload) && Reading() == FRESH
    {
      kind, length, state := 0, 0, MAGIC_1;
      checksum, receivedCRC, payloadRead := INITIAL, 0, 0;
    }

    method Push(value: byte) returns (result: Result)
      requires Valid()
      modifies this, payload
      ensures Valid() && payload == old(payload)
      ensures Pushed(Reading(), result) == Step(old(Reading()), value)
    {
      hide Update, IntOf, Word, OrLow;
      StepInBounds(Reading(), value);
      result := NeedMore;
      match state
      case 0 =>
        if value != MAGIC_FIRST { Reset(); return MalformedFrame; }
        state := MAGIC_2;
      case 1 =>
        if value != MAGIC_SECOND { Reset(); return MalformedFrame; }
        state := VERSION_BYTE;
      case 2 =>
        if value != VERSION { Reset(); return MalformedFrame; }
        checksum := UpdateChecksum(checksum, value);
        state := KIND_BYTE;
      case 3 =>
        kind := value;
        if !ValidKind(kind) { Reset(); return MalformedFrame; }
        checksum := UpdateChecksum(checksum, value);
        state := LENGTH_HIGH;
      case 4 =>
        length := 256 * IntOf(value);
        checksum := UpdateChecksum(checksum, value);
        state := LENGTH_LOW;
      case 5 =>
        length := length + IntOf(value);
        checksum := UpdateChecksum(checksum, value);
        if length > MaxPayload(kind) { Reset(); return OversizedFrame; }
        state := if length == 0 then CHECKSUM_HIGH else PAYLOAD;
      case 6 =>
        PushPayload(value);
      case 7 =>
        receivedCRC := Word(value, 0);
        state := CHECKSUM_LOW;
      case 8 =>
        receivedCRC := OrLow(receivedCRC, value);
        if receivedCRC != checksum { Reset(); return MalformedFrame; }
        return Ok;
      case _ =>
        Reset();
        return MalformedFrame;
    }

    method PushPayload(value: byte)
      requires Valid() && state == PAYLOAD
      modifies this, payload
      ensures Valid() && payload == old(payload)
      ensures Pushed(Reading(), NeedMore) == Step(old(Reading()), value)
    {
      hide Update;
      ghost var before := payload[..payloadRead];
      payload[payloadRead] := value;
      payloadRead := payloadRead + 1;
      assert payload[..payloadRead] == before + [value];
      checksum := UpdateChecksum(checksum, value);
      if payloadRead == length {
        state := CHECKSUM_HIGH;
      }
    }
  }

  // ----- whole runs

  datatype Outcome = Pending(reader: Reader) | Final(result: Result, consumed: nat, reader: Reader)

  /** Bytes pushed one by one from position `i`, up to the first result other than NeedMore. */
  function Feed(d: Reader, s: seq<byte>, i: nat): Outcome
    requires i <= |s|
    decreases |s| - i
  {
    if i == |s| then Pending(d) else
    var p := Step(d, s[i]);
    if p.result == NeedMore then Feed(p.reader, s, i + 1) else Final(p.result, i + 1, p.reader)
  }

  predicate GoodHeader(s: seq<byte>)
    ensures GoodHeader(s) ==> |s| >= 6
  {
    |s| >= 6 && s[0] == MAGIC_FIRST && s[1] == MAGIC_SECOND && s[2] == VERSION
    && ValidKind(s[3]) && Length(s[4], s[5]) <= MaxPayload(s[3])
  }

  /** The reader after the header and `data` bytes of the payload. */
  function Midway(kind: byte, length: nat, data: seq<byte>): Reader
  {
    Reader(kind, data, length, if |data| == length then CHECKSUM_HIGH else PAYLOAD,
           Crc(INITIAL, Covered(kind, length) + data), 0)
  }

  lemma LengthBytes(high: byte, low: byte)
    ensures var n := Length(high, low);
            n < 0x1_0000 && ByteOf(n / 256) == high && ByteOf(n % 256) == low
  {
    hide IntOf, ByteOf;
    ByteOfIntOf(high);
    ByteOfIntOf(low);
    assert (256 * IntOf(high) + IntOf(low)) / 256 == IntOf(high);
  }

  lemma BytesLength(n: nat)
    requires n < 0x1_0000
    ensures Length(ByteOf(n / 256), ByteOf(n % 256)) == n
  {
    hide IntOf, ByteOf;
    IntOfByteOf(n / 256);
    IntOfByteOf(n % 256);
  }

  lemma CrcCovered(kind: byte, high: byte, low: byte)
    ensures Crc(INITIAL, Covered(kind, Length(high, low)) + [])
            == Update(Update(Update(Update(INITIAL, VERSION), kind), high), low)
  {
    hide Update, Length, IntOf, ByteOf, Crc;
    LengthBytes(high, low);
    CrcStep(INITIAL, [], VERSION);
    CrcStep(INITIAL, [VERSION], kind);
    CrcStep(INITIAL, [VERSION, kind], high);
    CrcStep(INITIAL, [VERSION, kind, high], low);
    CrcNothing(INITIAL);
    assert [] + [VERSION] == [VERSION] && [VERSION] + [kind] == [VERSION, kind]
           && [VERSION, kind] + [high] == [VERSION, kind, high];
    assert Covered(kind, Length(high, low)) + [] == [VERSION, kind, high] + [low];
  }

  /** The first four header bytes, one step each. */
  function AfterKind(kind: byte): Reader
  {
    FRESH.(kind := kind, state := LENGTH_HIGH, checksum := Update(Update(INITIAL, VERSION), kind))
  }

  /** One of the first four bytes is what a frame has there. */
  predicate Good(s: seq<byte>, i: nat)
    requires i < |s|
  {
    if i == 0 then s[i] == 0x44 else if i == 1 then s[i] == 0x56 else if i == 2 then s[i] == 1 else s[i] == 1 || s[i] == 2
  }

  /** The first `i` bytes are the start of a frame. */
  predicate OpensWell(s: seq<byte>, i: nat)
  {
    i <= |s| && forall j :: 0 <= j < i ==> Good(s, j)
  }

  function Opening(s: seq<byte>, i: nat): Reader
    requires i <= 4 && i <= |s|
  {
    if i == 0 then FRESH
    else if i == 1 then FRESH.(state := MAGIC_2)
    else if i == 2 then FRESH.(state := VERSION_BYTE)
    else if i == 3 then FRESH.(state := KIND_BYTE, checksum := Update(INITIAL, VERSION))
    else AfterKind(s[3])
  }

  lemma OpeningStep(s: seq<byte>, i: nat)
    requires i < 4 && i < |s|
    ensures Step(Opening(s, i), s[i]) == if Good(s, i) then Pushed(Opening(s, i + 1), NeedMore) else Pushed(FRESH, MalformedFrame)
  {
    hide Update;
  }

  lemma {:induction false} FeedOpening(s: seq<byte>, i: nat)
    requires i <= 4 && OpensWell(s, i)
    ensures Feed(FRESH, s, 0) == Feed(Opening(s, i), s, i)
  {
    hide Step, Good, Opening;
    if i == 0 {
      assert Opening(s, 0) == FRESH by { OpeningFresh(s); }
    } else {
      FeedOpening(s, i - 1);
      OpeningStep(s, i - 1);
    }
  }

  lemma OpeningFresh(s: seq<byte>)
    ensures Opening(s, 0) == FRESH
  {}

  lemma FeedMagic(s: seq<byte>)
    requires OpensWell(s, 4)
    ensures Feed(FRESH, s, 0) == Feed(AfterKind(s[3]), s, 4)
  {
    hide Step, Good, AfterKind, Feed;
    FeedOpening(s, 4);
  }

  /** The first byte out of place among the first four ends the run there. */
  lemma FeedBadMagic(s: seq<byte>, i: nat)
    requires i < 4 && i < |s| && OpensWell(s, i) && !Good(s, i)
    ensures Feed(FRESH, s, 0) == Final(MalformedFrame, i + 1, FRESH)
  {
    hide Step, Good, Opening;
    FeedOpening(s, i);
    OpeningStep(s, i);
  }

  /** The fifth byte goes in. */
  lemma FeedLengthHigh(s: seq<byte>)
    requires OpensWell(s, 4) && |s| >= 5
    ensures Feed(FRESH, s, 0) == Feed(AfterLength(s[3], s[4]), s, 5)
  {
    hide Update, IntOf, Good;
    FeedMagic(s);
    assert Feed(AfterKind(s[3]), s, 4) == Feed(AfterLength(s[3], s[4]), s, 5);
  }

  function AfterLength(kind: byte, high: byte): Reader
  {
    AfterKind(kind).(state := LENGTH_LOW, length := 256 * IntOf(high), checksum := Update(AfterKind(kind).checksum, high))
  }

  lemma OpensGood(s: seq<byte>)
    ensures OpensWell(s, 4) <==> |s| >= 4 && s[0] == MAGIC_FIRST && s[1] == MAGIC_SECOND && s[2] == VERSION && ValidKind(s[3])
  {
    if |s| >= 4 && s[0] == MAGIC_FIRST && s[1] == MAGIC_SECOND && s[2] == VERSION && ValidKind(s[3]) {
      assert Good(s, 0) && Good(s, 1) && Good(s, 2) && Good(s, 3);
    }
    if OpensWell(s, 4) { assert Good(s, 0) && Good(s, 1) && Good(s, 2) && Good(s, 3); }
  }

  lemma FeedHeader(s: seq<byte>)
    requires GoodHeader(s)
    ensures Feed(FRESH, s, 0) == Feed(Midway(s[3], Length(s[4], s[5]), []), s, 6)
  {
    hide Update, IntOf, Crc, Covered, OpensWell;
    OpensGood(s);
    FeedLengthHigh(s);
    CrcCovered(s[3], s[4], s[5]);
    assert Step(AfterLength(s[3], s[4]), s[5]) == Pushed(Midway(s[3], Length(s[4], s[5]), []), NeedMore);
  }

  lemma FeedOversized(s: seq<byte>)
    requires OpensWell(s, 4) && |s| >= 6 && Length(s[4], s[5]) > MaxPayload(s[3])
    ensures Feed(FRESH, s, 0) == Final(OversizedFrame, 6, FRESH)
  {
    hide Update, IntOf, OpensWell;
    FeedLengthHigh(s);
  }

  /** Too short to say. */
  lemma FeedShort(s: seq<byte>)
    requires |s| < 6 && OpensWell(s, Min(|s|, 4))
    ensures Feed(FRESH, s, 0).Pending?
  {
    hide Update, IntOf, Step, Good;
    if |s| <= 4 { FeedOpening(s, |s|); } else { FeedLengthHigh(s); }
  }

  lemma FeedBadHeader(s: seq<byte>)
    requires !GoodHeader(s)
    ensures var o := Feed(FRESH, s, 0); o.Pending? || o.result != Ok
  {
    hide Feed, IntOf, Length;
    OpensGood(s);
    var i := 0;
    while i < 4 && i < |s| && Good(s, i)
      invariant i <= 4 && OpensWell(s, i)
      decreases 4 - i
    {
      i := i + 1;
    }
    if i < 4 && i < |s| {
      FeedBadMagic(s, i);
    } else if |s| < 6 {
      FeedShort(s);
    } else {
      FeedOversized(s);
    }
  }

  lemma {:induction false} FeedPayload(s: seq<byte>, kind: byte, length: nat, j: nat)
    requires j <= length && 6 + j <= |s|
    ensures var o := Feed(Midway(kind, length, s[6..6 + j]), s, 6 + j);
            if |s| < 6 + length then o.Pending?
            else o == Feed(Midway(kind, length, s[6..6 + length]), s, 6 + length)
    decreases length - j
  {
    hide Update, Crc;
    if j < length && 6 + j < |s| {
      var data, v := s[6..6 + j], s[6 + j];
      CrcStep(INITIAL, Covered(kind, length) + data, v);
      assert Covered(kind, length) + data + [v] == Covered(kind, length) + (data + [v]);
      assert s[6..6 + j + 1] == data + [v];
      assert Step(Midway(kind, length, data), v) == Pushed(Midway(kind, length, data + [v]), NeedMore);
      FeedPayload(s, kind, length, j + 1);
    }
  }

  lemma BytesOfReceived(high: byte, low: byte)
    ensures HighByte(OrLow(Word(high, 0), low)) == high && LowByte(OrLow(Word(high, 0), low)) == low
  {}

  lemma WordEqual(c: bv16, high: byte, low: byte)
    ensures OrLow(Word(high, 0), low) == c <==> high == HighByte(c) && low == LowByte(c)
  {
    hide *;
    BytesOfReceived(high, low);
    if high == HighByte(c) && low == LowByte(c) { BytesOfWord(OrLow(Word(high, 0), low), c); }
  }

  lemma FeedTrailer(s: seq<byte>, kind: byte, length: nat, data: seq<byte>)
    requires |data| == length && |s| >= 6 + length
    ensures var o := Feed(Midway(kind, length, data), s, 6 + length);
            var c := Crc(INITIAL, Covered(kind, length) + data);
            if |s| >= 8 + length && s[6 + length..8 + length] == Trailer(c)
            then o == Final(Ok, 8 + length, Midway(kind, length, data).(state := CHECKSUM_LOW, receivedCRC := c))
            else if |s| >= 8 + length then o == Final(MalformedFrame, 8 + length, FRESH)
            else o.Pending?
  {
    hide Crc, HighByte, LowByte, Word, OrLow, Step, Covered;
    var d := Midway(kind, length, data);
    if |s| > 6 + length {
      var h := s[6 + length];
      var d1 := d.(state := CHECKSUM_LOW, receivedCRC := Word(h, 0));
      TrailerSteps(d, h, 0);
      assert Feed(d, s, 6 + length) == Feed(d1, s, 7 + length);
      if |s| > 7 + length {
        var l := s[7 + length];
        TrailerSteps(d, h, l);
        assert s[6 + length..8 + length] == [h, l];
      }
    }
  }

  /** The two checksum bytes. */
  lemma TrailerSteps(d: Reader, h: byte, l: byte)
    requires d.state == CHECKSUM_HIGH
    ensures var d1 := d.(state := CHECKSUM_LOW, receivedCRC := Word(h, 0));
            && Step(d, h) == Pushed(d1, NeedMore)
            && Step(d1, l) == if [h, l] == Trailer(d.checksum) then Pushed(d1.(receivedCRC := d.checksum), Ok) else Pushed(FRESH, MalformedFrame)
  {
    hide HighByte, LowByte, Word, OrLow, Update, IntOf;
    WordEqual(d.checksum, h, l);
  }

  /** A run that starts at a reset decoder ends in a frame of this kind and payload. */
  predicate Decodes(s: seq<byte>, kind: byte, payload: seq<byte>)
  {
    var o := Feed(FRESH, s, 0);
    o.Final? && o.result == Ok && o.consumed == 8 + |payload|
    && o.reader.kind == kind && o.reader.payload == payload && o.reader.length == |payload|
  }

  predicate Accepts(s: seq<byte>)
  {
    var o := Feed(FRESH, s, 0);
    o.Final? && o.result == Ok
  }

  lemma FrameLayout(s: seq<byte>, kind: byte, payload: seq<byte>)
    requires FrameBytes(kind, payload) <= s && |payload| < 0x1_0000
    ensures |s| >= 8 + |payload|
    ensures s[0] == MAGIC_FIRST && s[1] == MAGIC_SECOND && s[2] == VERSION && s[3] == kind
    ensures Length(s[4], s[5]) == |payload| && s[6..6 + |payload|] == payload
    ensures s[6 + |payload|..8 + |payload|] == Trailer(Checksum(kind, payload))
  {
    hide ByteOf, IntOf, Length, HighByte, LowByte, Crc;
    var f := FrameBytes(kind, payload);
    var n := |payload|;
    assert s[..8 + n] == f;
    BytesLength(n);
    assert f[..6] == Header(kind, n);
    assert s[0] == f[0] && s[1] == f[1] && s[2] == f[2] && s[3] == f[3] && s[4] == f[4] && s[5] == f[5];
    assert s[6..6 + n] == f[6..6 + n] == payload;
    assert s[6 + n..8 + n] == f[6 + n..8 + n] == Trailer(Checksum(kind, payload));
  }

  /** Completeness: every valid frame at the front of the input is delivered, whatever follows. */
  lemma FramesAreDecoded(s: seq<byte>, kind: byte, payload: seq<byte>)
    requires ValidFrame(kind, payload) && FrameBytes(kind, payload) <= s
    ensures Decodes(s, kind, payload)
  {
    hide ByteOf, IntOf, Length, Feed, Crc, HighByte, LowByte, FrameBytes;
    FrameLayout(s, kind, payload);
    FeedHeader(s);
    assert s[6..6] == [];
    FeedPayload(s, kind, |payload|, 0);
    FeedTrailer(s, kind, |payload|, payload);
  }

  /** The accepted language, byte by byte: a good header, and after as many bytes as it announces their
      checksum. */
  lemma AcceptsByParts(s: seq<byte>)
    ensures Accepts(s) <==>
              && GoodHeader(s)
              && var n := Length(s[4], s[5]);
                 8 + n <= |s| && s[6 + n..8 + n] == Trailer(Checksum(s[3], s[6..6 + n]))
  {
    hide IntOf, Length, Feed, Crc, HighByte, LowByte;
    if GoodHeader(s) {
      var n := Length(s[4], s[5]);
      FeedHeader(s);
      assert s[6..6] == [];
      FeedPayload(s, s[3], n, 0);
      if 6 + n <= |s| { FeedTrailer(s, s[3], n, s[6..6 + n]); }
    } else {
      FeedBadHeader(s);
    }
  }

  /** How every run ends that does not deliver a frame, byte by byte: at the first of the four opening bytes that is
      wrong, at a length that is too large, at a checksum that does not match, or not yet. */
  lemma OutcomeByParts(s: seq<byte>)
    ensures forall i :: 0 <= i < 4 && i < |s| && OpensWell(s, i) && !Good(s, i) ==>
              Feed(FRESH, s, 0) == Final(MalformedFrame, i + 1, FRESH)
    ensures |s| < 6 && OpensWell(s, Min(|s|, 4)) ==> Feed(FRESH, s, 0).Pending?
    ensures OpensWell(s, 4) && |s| >= 6 && Length(s[4], s[5]) > MaxPayload(s[3]) ==> Feed(FRESH, s, 0) == Final(OversizedFrame, 6, FRESH)
    ensures GoodHeader(s) && |s| < 8 + Length(s[4], s[5]) ==> Feed(FRESH, s, 0).Pending?
    ensures GoodHeader(s) && |s| >= 8 + Length(s[4], s[5]) && !Accepts(s) ==>
              Feed(FRESH, s, 0) == Final(MalformedFrame, 8 + Length(s[4], s[5]), FRESH)
  {
    hide IntOf, Length, Feed, Good, OpensWell, GoodHeader, MaxPayload, Crc, HighByte, LowByte;
    forall i | 0 <= i < 4 && i < |s| && OpensWell(s, i) && !Good(s, i)
      ensures Feed(FRESH, s, 0) == Final(MalformedFrame, i + 1, FRESH)
    {
      FeedBadMagic(s, i);
    }
    if |s| < 6 && OpensWell(s, Min(|s|, 4)) { FeedShort(s); }
    if OpensWell(s, 4) && |s| >= 6 && Length(s[4], s[5]) > MaxPayload(s[3]) { FeedOversized(s); }
    if GoodHeader(s) {
      var n := Length(s[4], s[5]);
      FeedHeader(s);
      assert s[6..6] == [];
      FeedPayload(s, s[3], n, 0);
      if 6 + n <= |s| { FeedTrailer(s, s[3], n, s[6..6 + n]); }
    }
  }

  lemma FrameOfParts(s: seq<byte>, n: nat)
    requires GoodHeader(s) && n == Length(s[4], s[5]) && |s| >= 8 + n
    requires s[6 + n..8 + n] == Trailer(Checksum(s[3], s[6..6 + n]))
    ensures s[..8 + n] == FrameBytes(s[3], s[6..6 + n])
  {
    hide ByteOf, IntOf, Length, HighByte, LowByte, Crc;
    LengthBytes(s[4], s[5]);
    assert s[..6] == Header(s[3], n);
    assert s[..8 + n] == s[..6] + s[6..6 + n] + s[6 + n..8 + n];
  }

  /** Soundness: whatever is accepted is the encoding of a valid frame, which the decoder holds. */
  lemma AcceptedIsFrame(s: seq<byte>) returns (kind: byte, payload: seq<byte>)
    requires Accepts(s)
    ensures ValidFrame(kind, payload) && FrameBytes(kind, payload) <= s && Decodes(s, kind, payload)
  {
    hide ByteOf, IntOf, Length, Feed, Crc, HighByte, LowByte, FrameBytes;
    if !GoodHeader(s) { FeedBadHeader(s); }
    FeedHeader(s);
    kind := s[3];
    var n := Length(s[4], s[5]);
    assert s[6..6] == [];
    FeedPayload(s, kind, n, 0);
    payload := s[6..6 + n];
    FeedTrailer(s, kind, n, payload);
    FrameOfParts(s, n);
    assert s == s[..8 + n] + s[8 + n..];
  }

  /** The accepted language, exactly. */
  lemma AcceptsExactlyFrames(s: seq<byte>)
    ensures Accepts(s) <==> exists kind, payload :: ValidFrame(kind, payload) && FrameBytes(kind, payload) <= s
    ensures forall kind, payload :: Decodes(s, kind, payload) <==> ValidFrame(kind, payload) && FrameBytes(kind, payload) <= s
  {
    hide Feed, FrameBytes;
    if Accepts(s) {
      var kind, payload := AcceptedIsFrame(s);
    }
    forall kind, payload | ValidFrame(kind, payload) && FrameBytes(kind, payload) <= s
      ensures Decodes(s, kind, payload)
    {
      FramesAreDecoded(s, kind, payload);
    }
  }

  /** Frames are uniquely decodable: at most one valid frame starts a given input. */
  lemma FramesAreUnique(s: seq<byte>, kind: byte, payload: seq<byte>, kind': byte, payload': seq<byte>)
    requires ValidFrame(kind, payload) && FrameBytes(kind, payload) <= s
    requires ValidFrame(kind', payload') && FrameBytes(kind', payload') <= s
    ensures kind == kind' && payload == payload'
  {
    hide Feed, FrameBytes;
    FramesAreDecoded(s, kind, payload);
    FramesAreDecoded(s, kind', payload');
  }
}
