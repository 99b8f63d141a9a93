/** The DV/1 wire frame: its layout, and the encoder that fills a fixed output buffer. */
module Frame {
  import opened Basics
  import opened Octets
  import opened Crc16

  const MAX_REQUEST_PAYLOAD := 2048
  const MAX_RESPONSE_PAYLOAD := 1024
  const MAX_PAYLOAD := 2048
  const MAX_FRAME_SIZE := 2056

  const MAGIC_FIRST: byte := 0x44
  const MAGIC_SECOND: byte := 0x56
  const VERSION: byte := 1
  const REQUEST: byte := 1
  const RESPONSE: byte := 2

  datatype Result =
    | Ok
    | NeedMore
    | InvalidPayload
    | PortUnavailable
    | WriteTimeout
    | ReadTimeout
    | PartialFrame
    | MalformedFrame
    | OversizedFrame
    | UnexpectedFrame

  predicate ValidKind(kind: byte) { kind == REQUEST || kind == RESPONSE }

  function MaxPayload(kind: byte): nat
  {
    if kind == RESPONSE then MAX_RESPONSE_PAYLOAD else MAX_REQUEST_PAYLOAD
  }

  predicate ValidFrame(kind: byte, payload: seq<byte>)
  {
    ValidKind(kind) && |payload| <= MaxPayload(kind)
  }

  /** Version, kind and big-endian length: the part of the header the checksum covers. */
  function Covered(kind: byte, length: nat): seq<byte>
  {
    [VERSION, kind, ByteOf(length / 256), ByteOf(length % 256)]
  }

  function Header(kind: byte, length: nat): seq<byte>
  {
    [MAGIC_FIRST, MAGIC_SECOND] + Covered(kind, length)
  }

  function Checksum(kind: byte, payload: seq<byte>): bv16
  {
    Crc(INITIAL, Covered(kind, |payload|) + payload)
  }

  /** Two bytes as one word, high byte first. */
  function Word(high: byte, low: byte): bv16 { (high as bv16 << 8) | (low as bv16) }

  function Trailer(c: bv16): seq<byte> { [HighByte(c), LowByte(c)] }

  /** A whole frame on the wire. */
  function FrameBytes(kind: byte, payload: seq<byte>): (f: seq<byte>)
    ensures |f| == 8 + |payload|
  {
    Header(kind, |payload|) + payload + Trailer(Checksum(kind, payload))
  }

  predicate FitsBuffer(a: array?<byte>, size: nat)
  {
    a != null ==> a.Length == size
  }

  function Contents(a: array?<byte>, n: int): seq<byte>
    requires 0 <= n && (a == null ==> n == 0) && (a != null ==> n <= a.Length)
    reads if a == null then {} else {a}
  {
    if a == null then [] else a[..n]
  }

  /** What `Encode` answers, before it writes anything. */
  function Admission(kind: byte, hasPayload: bool, payloadLen: int, hasOutput: bool): (r: Result)
    ensures r == Ok <==> hasOutput && 0 <= payloadLen <= (if kind == RESPONSE then 1024 else 2048) && ValidKind(kind)
                         && (hasPayload || payloadLen == 0)
    ensures r == OversizedFrame ==> ValidKind(kind) && payloadLen > MaxPayload(kind)
    ensures r == MalformedFrame ==> !ValidKind(kind) && payloadLen >= 0
    ensures hasOutput && hasPayload && payloadLen >= 0 && !ValidKind(kind) ==> r == MalformedFrame
    ensures hasOutput && hasPayload && ValidKind(kind) && payloadLen > MaxPayload(kind) ==> r == OversizedFrame
    ensures r == Ok || r == InvalidPayload || r == MalformedFrame || r == OversizedFrame
  {
    if !hasOutput || payloadLen < 0 || (!hasPayload && payloadLen != 0) then InvalidPayload
    else if !ValidKind(kind) then MalformedFrame
    else if payloadLen > MAX_PAYLOAD || payloadLen > MaxPayload(kind) then OversizedFrame
    else Ok
  }

  method Encode(kind: byte, payload: array?<byte>, payloadLen: int, output: array?<byte>) returns (n: int, result: Result)
    requires FitsBuffer(payload, MAX_PAYLOAD) && FitsBuffer(output, MAX_FRAME_SIZE)
    modifies if output == null then {} else {output}
    ensures result == Admission(kind, payload != null, payloadLen, output != null)
    ensures result == Ok ==> n == 8 + payloadLen
    ensures result == Ok ==> output[..n] == FrameBytes(kind, old(Contents(payload, payloadLen)))
    ensures result == Ok ==> forall k :: n <= k < MAX_FRAME_SIZE ==> output[k] == old(output[k])
    ensures result != Ok ==> n == 0 && (output != null ==> output[..] == old(output[..]))
  {
    hide Crc, HighByte, LowByte, ByteOf;
    result := Admission(kind, payload != null, payloadLen, output != null);
    if result != Ok {
      return 0, result;
    }
    ghost var data, covered := Contents(payload, payloadLen), Covered(kind, payloadLen);
    FillHeader(kind, payloadLen, output);
    var checksum := ChecksumHeader(kind, payloadLen, output);
    ghost var header := output[..6];
    checksum := CopyPayload(payload, payloadLen, output, checksum);
    assert output[..6] == header;
    CrcConcat(INITIAL, covered, data);
    var offset := 6 + payloadLen;
    ghost var filled := output[..offset];
    assert filled == filled[..6] + filled[6..] == Header(kind, payloadLen) + data;
    output[offset] := HighByte(checksum);
    output[offset + 1] := LowByte(checksum);
    n := offset + 2;
    assert output[..n] == filled + Trailer(checksum);
  }

  method FillHeader(kind: byte, payloadLen: nat, output: array<byte>)
    requires output.Length == MAX_FRAME_SIZE
    modifies output
    ensures output[..6] == Header(kind, payloadLen)
    ensures forall k :: 6 <= k < MAX_FRAME_SIZE ==> output[k] == old(output[k])
  {
    hide ByteOf;
    output[0] := MAGIC_FIRST;
    output[1] := MAGIC_SECOND;
    output[2] := VERSION;
    output[3] := kind;
    output[4] := ByteOf(payloadLen / 256);
    output[5] := ByteOf(payloadLen % 256);
  }

  method ChecksumHeader(kind: byte, payloadLen: nat, output: array<byte>) returns (checksum: bv16)
    requires output.Length == MAX_FRAME_SIZE && output[..6] == Header(kind, payloadLen)
    ensures checksum == Crc(INITIAL, Covered(kind, payloadLen))
  {
    hide Crc, ByteOf;
    checksum := INITIAL;
    ghost var covered := Covered(kind, payloadLen);
    CrcNothing(INITIAL);
    for i := 2 to 6
      invariant checksum == Crc(INITIAL, covered[..i - 2])
    {
      checksum := UpdateChecksum(checksum, output[i]);
      assert output[i] == output[..6][i] == covered[i - 2];
      CrcStep(INITIAL, covered[..i - 2], covered[i - 2]);
      assert covered[..i - 2] + [covered[i - 2]] == covered[..i - 1];
    }
    assert covered[..4] == covered;
  }

  method CopyPayload(payload: array?<byte>, n: nat, output: array<byte>, start: bv16) returns (checksum: bv16)
    requires FitsBuffer(payload, MAX_PAYLOAD) && (payload == null ==> n == 0) && n <= MAX_PAYLOAD
    requires output.Length == MAX_FRAME_SIZE
    modifies output
    ensures forall k :: 0 <= k < MAX_FRAME_SIZE && !(6 <= k < 6 + n) ==> output[k] == old(output[k])
    ensures output[6..6 + n] == old(Contents(payload, n))
    ensures checksum == Crc(start, old(Contents(payload, n)))
  {
    hide Crc;
    ghost var data := Contents(payload, n);
    checksum := start;
    CrcNothing(start);
    for i := 0 to n
      invariant forall k :: 0 <= k < MAX_FRAME_SIZE && !(6 <= k < 6 + i) ==> output[k] == old(output[k])
      invariant output[6..6 + i] == data[..i]
      invariant checksum == Crc(start, data[..i])
      invariant payload != null ==> forall k :: 0 <= k < n ==> payload[k] == data[k]
    {
      var value := payload[i];
      output[6 + i] := value;
      checksum := UpdateChecksum(checksum, value);
      CrcStep(start, data[..i], data[i]);
      assert data[..i] + [data[i]] == data[..i + 1];
    }
    assert data[..n] == data;
  }

  /** The format byte for byte: the magic "DV", version 1, the kind, the payload's length with its high byte first,
      the payload, and the checksum of all but the magic, high byte first. */
  lemma WireFormat(kind: byte, payload: seq<byte>)
    requires |payload| < 0x1_0000
    ensures var f, n := FrameBytes(kind, payload), |payload|;
            && f[0] == 0x44 && f[1] == 0x56 && f[2] == 1 && f[3] == kind
            && IntOf(f[4]) * 256 + IntOf(f[5]) == n && f[6..6 + n] == payload
            && Word(f[6 + n], f[7 + n]) == Crc(0xFFFF, f[2..6 + n])
  {
    hide Crc, ByteOf, IntOf, HighByte, LowByte, Word;
    var f, n := FrameBytes(kind, payload), |payload|;
    IntOfByteOf(n / 256);
    IntOfByteOf(n % 256);
    assert f[2..6 + n] == Covered(kind, n) + payload;
    WordOf(Checksum(kind, payload));
  }

  lemma WordOf(c: bv16)
    ensures Word(HighByte(c), LowByte(c)) == c
  {}
}
