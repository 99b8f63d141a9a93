/** UTF-8: text to bytes, as Python encodes it, and a reader that takes it back. */
module Unicode {
  import opened Basics
  import opened Octets

  function Utf8Size(c: char): nat
  {
    if c as int < 0x80 then 1 else if c as int < 0x800 then 2 else if c as int < 0x1_0000 then 3 else 4
  }

  function Utf8(c: char): (bytes: seq<byte>)
    ensures |bytes| == Utf8Size(c)
  {
    var v := c as int;
    if v < 0x80 then [ByteOf(v)]
    else if v < 0x800 then [ByteOf(0xC0 + v / 64), ByteOf(0x80 + v % 64)]
    else if v < 0x1_0000 then [ByteOf(0xE0 + v / 4096), ByteOf(0x80 + v / 64 % 64), ByteOf(0x80 + v % 64)]
    else [ByteOf(0xF0 + v / 0x4_0000), ByteOf(0x80 + v / 4096 % 64), ByteOf(0x80 + v / 64 % 64), ByteOf(0x80 + v % 64)]
  }

  function Encoded(s: string): seq<byte>
  {
    if s == [] then [] else Utf8(s[0]) + Encoded(s[1..])
  }

  function EncodedSize(s: string): nat
  {
    if s == [] then 0 else Utf8Size(s[0]) + EncodedSize(s[1..])
  }

  lemma {:induction false} SizeOfEncoded(s: string)
    ensures |Encoded(s)| == EncodedSize(s) >= |s|
  {
    if s != [] { SizeOfEncoded(s[1..]); }
  }

  // ----- reading it back

  /** The values of bytes. */
  function Codes(s: seq<byte>): (r: seq<nat>)
    ensures |r| == |s|
  {
    seq(|s|, i requires 0 <= i < |s| => IntOf(s[i]))
  }

  /** A code point and what follows it. */
  datatype Read = Malformed | Point(value: nat, rest: seq<nat>)

  predicate Continues(v: nat) { 0x80 <= v < 0xC0 }

  /** How many bytes a first byte announces, 0 if it is none. */
  function Announced(v: nat): nat
  {
    if v < 0x80 then 1 else if v < 0xC0 then 0 else if v < 0xE0 then 2 else if v < 0xF0 then 3 else if v < 0xF8 then 4 else 0
  }

  function ReadPoint(s: seq<nat>): (r: Read)
    ensures r.Point? ==> |r.rest| < |s|
  {
    if s == [] then Malformed else
    var n := Announced(s[0]);
    if n == 0 || |s| < n || exists i :: 1 <= i < n && !Continues(s[i]) then Malformed
    else if n == 1 then Point(s[0], s[1..])
    else if n == 2 then Point((s[0] - 0xC0) * 64 + (s[1] - 0x80), s[2..])
    else if n == 3 then Point((s[0] - 0xE0) * 4096 + (s[1] - 0x80) * 64 + (s[2] - 0x80), s[3..])
    else Point((s[0] - 0xF0) * 0x4_0000 + (s[1] - 0x80) * 4096 + (s[2] - 0x80) * 64 + (s[3] - 0x80), s[4..])
  }

  /** The code points of a whole text. */
  function ReadAll(s: seq<nat>): Option<seq<nat>>
    decreases |s|
  {
    if s == [] then Some([]) else
    match ReadPoint(s)
    case Malformed => None
    case Point(value, rest) =>
      var more := ReadAll(rest);
      if more.None? then None else Some([value] + more.value)
  }

  function Points(s: string): (r: seq<nat>)
    ensures |r| == |s|
  {
    seq(|s|, i requires 0 <= i < |s| => s[i] as int)
  }

  /** The values of an encoded character's bytes. */
  function Utf8Codes(c: char): seq<nat>
  {
    var v := c as int;
    if v < 0x80 then [v]
    else if v < 0x800 then [0xC0 + v / 64, 0x80 + v % 64]
    else if v < 0x1_0000 then [0xE0 + v / 4096, 0x80 + v / 64 % 64, 0x80 + v % 64]
    else [0xF0 + v / 0x4_0000, 0x80 + v / 4096 % 64, 0x80 + v / 64 % 64, 0x80 + v % 64]
  }

  lemma CodesOfUtf8(c: char)
    ensures Codes(Utf8(c)) == Utf8Codes(c)
  {
    hide IntOf, ByteOf;
    var v := c as int;
    if v < 0x80 {
      IntOfByteOf(v);
    } else {
      IntOfByteOf(0x80 + v % 64);
      IntOfByteOf(0x80 + v / 64 % 64);
      IntOfByteOf(0x80 + v / 4096 % 64);
      if v < 0x800 { IntOfByteOf(0xC0 + v / 64); }
      else if v < 0x1_0000 { IntOfByteOf(0xE0 + v / 4096); }
      else { IntOfByteOf(0xF0 + v / 0x4_0000); }
    }
  }

  lemma Digits64(v: nat)
    ensures v == v / 64 * 64 + v % 64 && v / 64 == v / 4096 * 64 + v / 64 % 64 && v / 4096 == v / 0x4_0000 * 64 + v / 4096 % 64
  {
    var a := v / 64;
    var b := a / 64;
    assert b == v / 4096 && b / 64 == v / 0x4_0000;
  }

  lemma Utf8Reads(c: char, rest: seq<nat>)
    ensures ReadPoint(Utf8Codes(c) + rest) == Point(c as int, rest)
  {
    var v, s := c as int, Utf8Codes(c) + rest;
    Digits64(v);
    assert s[|Utf8Codes(c)|..] == rest;
  }

  lemma CodesConcat(a: seq<byte>, b: seq<byte>)
    ensures Codes(a + b) == Codes(a) + Codes(b)
  {
    hide IntOf;
  }

  /** Encoding loses nothing. */
  lemma {:induction false} EncodedReads(s: string)
    ensures ReadAll(Codes(Encoded(s))) == Some(Points(s))
  {
    hide ReadPoint, Utf8, Utf8Codes, IntOf;
    if s != [] {
      CodesConcat(Utf8(s[0]), Encoded(s[1..]));
      CodesOfUtf8(s[0]);
      Utf8Reads(s[0], Codes(Encoded(s[1..])));
      EncodedReads(s[1..]);
      assert Points(s) == [s[0] as int] + Points(s[1..]);
    }
  }
}
