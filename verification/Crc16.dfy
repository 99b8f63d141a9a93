/** CRC-16/CCITT-FALSE as the serial frame code computes it: one shift-register step per bit,
    eight per byte. The lemmas are the algebra that makes it detect errors. */
module Crc16 {
  import opened Basics
  import opened Octets

  const INITIAL: bv16 := 0xFFFF

  function Xor(a: bv16, b: bv16): bv16 { a ^ b }
  function XorByte(a: byte, b: byte): byte { a ^ b }

  /** A byte in the top half of the register. */
  function Raise(value: byte): bv16 { value as bv16 << 8 }

  predicate Top(c: bv16) { c & 0x8000 != 0 }

  function Left(c: bv16): bv16 { c << 1 }

  /** Fold the polynomial x^16 + x^12 + x^5 + 1 into the register. */
  function Fold(c: bv16): bv16 { c ^ 0x1021 }

  /** One register step: shift left, folding the polynomial in when a one falls off the top. */
  function ShiftBit(c: bv16): bv16
  {
    if Top(c) then Fold(Left(c)) else Left(c)
  }

  function Shift(c: bv16, n: nat): bv16
  {
    if n == 0 then c else ShiftBit(Shift(c, n - 1))
  }

  /** The register after one message byte. */
  function Update(c: bv16, value: byte): bv16
  {
    Shift(Xor(c, Raise(value)), 8)
  }

  /** The register after a whole message. */
  function Crc(c: bv16, message: seq<byte>): bv16
    decreases |message|
  {
    if message == [] then c else Crc(Update(c, message[0]), message[1..])
  }

  method UpdateChecksum(checksum: bv16, value: byte) returns (r: bv16)
    ensures r == Update(checksum, value)
  {
    hide Xor, Raise, Top, Left, Fold;
    r := Xor(checksum, Raise(value));
    for i := 0 to 8
      invariant r == Shift(Xor(checksum, Raise(value)), i)
    {
      if Top(r) {
        r := Fold(Left(r));
      } else {
        r := Left(r);
      }
    }
  }

  // ----- the bit step is linear and invertible

  lemma FoldXor(a: bv16, b: bv16, p: bv16)
    ensures ((a ^ b) << 1) ^ p == ((a << 1) ^ p) ^ (b << 1)
    ensures ((a ^ b) << 1) ^ p == (a << 1) ^ ((b << 1) ^ p)
    ensures (a ^ b) << 1 == ((a << 1) ^ p) ^ ((b << 1) ^ p)
    ensures (a ^ b) << 1 == (a << 1) ^ (b << 1)
  {}

  lemma ShiftBitLinear11(a: bv16, b: bv16)
    requires Top(a) && Top(b)
    ensures ShiftBit(Xor(a, b)) == Xor(ShiftBit(a), ShiftBit(b))
  {
    FoldXor(a, b, 0x1021);
  }

  lemma ShiftBitLinear10(a: bv16, b: bv16)
    requires Top(a) && !Top(b)
    ensures ShiftBit(Xor(a, b)) == Xor(ShiftBit(a), ShiftBit(b))
  {
    FoldXor(a, b, 0x1021);
  }

  lemma ShiftBitLinear01(a: bv16, b: bv16)
    requires !Top(a) && Top(b)
    ensures ShiftBit(Xor(a, b)) == Xor(ShiftBit(a), ShiftBit(b))
  {
    FoldXor(a, b, 0x1021);
  }

  lemma ShiftBitLinear00(a: bv16, b: bv16)
    requires !Top(a) && !Top(b)
    ensures ShiftBit(Xor(a, b)) == Xor(ShiftBit(a), ShiftBit(b))
  {
    FoldXor(a, b, 0x1021);
  }

  lemma ShiftBitLinear(a: bv16, b: bv16)
    ensures ShiftBit(Xor(a, b)) == Xor(ShiftBit(a), ShiftBit(b))
  {
    hide *;
    if Top(a) {
      if Top(b) { ShiftBitLinear11(a, b); } else { ShiftBitLinear10(a, b); }
    } else {
      if Top(b) { ShiftBitLinear01(a, b); } else { ShiftBitLinear00(a, b); }
    }
  }

  lemma {:induction false} ShiftLinear(a: bv16, b: bv16, n: nat)
    ensures Shift(Xor(a, b), n) == Xor(Shift(a, n), Shift(b, n))
  {
    hide Xor, ShiftBit;
    if n > 0 {
      ShiftLinear(a, b, n - 1);
      ShiftBitLinear(Shift(a, n - 1), Shift(b, n - 1));
    }
  }

  lemma ShiftBitZero(c: bv16)
    ensures ShiftBit(c) == 0 <==> c == 0
  {}

  lemma {:induction false} ShiftZero(c: bv16, n: nat)
    ensures Shift(c, n) == 0 <==> c == 0
  {
    hide ShiftBit;
    if n > 0 {
      ShiftZero(c, n - 1);
      ShiftBitZero(Shift(c, n - 1));
    }
  }

  // ----- bytes and messages

  lemma XorSwap(a: bv16, b: bv16, x: byte, y: byte)
    ensures Xor(Xor(a, b), Raise(XorByte(x, y))) == Xor(Xor(a, Raise(x)), Xor(b, Raise(y)))
  {}

  lemma UpdateLinear(a: bv16, b: bv16, x: byte, y: byte)
    ensures Update(Xor(a, b), XorByte(x, y)) == Xor(Update(a, x), Update(b, y))
  {
    hide Xor, XorByte, Raise, Shift;
    XorSwap(a, b, x, y);
    ShiftLinear(Xor(a, Raise(x)), Xor(b, Raise(y)), 8);
  }

  /** Pointwise exclusive or of two messages of one length. */
  function Flip(message: seq<byte>, error: seq<byte>): (r: seq<byte>)
    requires |message| == |error|
    ensures |r| == |message|
    ensures forall i :: 0 <= i < |r| ==> r[i] == XorByte(message[i], error[i])
  {
    seq(|message|, i requires 0 <= i < |message| => XorByte(message[i], error[i]))
  }

  /** The checksum is linear: flipping bits of a message flips its checksum by an amount that
      depends on the flipped bits alone. */
  lemma {:induction false} CrcLinear(a: bv16, b: bv16, message: seq<byte>, error: seq<byte>)
    requires |message| == |error|
    ensures Crc(Xor(a, b), Flip(message, error)) == Xor(Crc(a, message), Crc(b, error))
    decreases |message|
  {
    hide Xor, XorByte, Update;
    if message != [] {
      UpdateLinear(a, b, message[0], error[0]);
      CrcLinear(Update(a, message[0]), Update(b, error[0]), message[1..], error[1..]);
      assert Flip(message, error)[1..] == Flip(message[1..], error[1..]);
    }
  }

  lemma {:induction false} CrcConcat(c: bv16, s: seq<byte>, t: seq<byte>)
    ensures Crc(c, s + t) == Crc(Crc(c, s), t)
    decreases |s|
  {
    hide Update;
    if s == [] {
      assert s + t == t;
    } else {
      assert (s + t)[1..] == s[1..] + t;
      CrcConcat(Update(c, s[0]), s[1..], t);
    }
  }

  lemma CrcStep(c: bv16, s: seq<byte>, v: byte)
    ensures Crc(c, s + [v]) == Update(Crc(c, s), v)
  {
    hide Update;
    CrcConcat(c, s, [v]);
    assert [v][1..] == [];
  }

  function HighByte(c: bv16): byte { (c >> 8) as byte }
  function LowByte(c: bv16): byte { (c & 0xFF) as byte }

  lemma BytesOfWord(c: bv16, d: bv16)
    requires HighByte(c) == HighByte(d) && LowByte(c) == LowByte(d)
    ensures c == d
  {}

  /** The register over its eight steps, written out. */
  function Shift8(c: bv16): bv16
  {
    ShiftBit(ShiftBit(ShiftBit(ShiftBit(ShiftBit(ShiftBit(ShiftBit(ShiftBit(c))))))))
  }

  lemma ShiftEight(c: bv16)
    ensures Shift(c, 8) == Shift8(c)
  {
    hide ShiftBit;
    assert Shift(c, 1) == ShiftBit(c);
    var c2 := Shift(c, 2);
    assert c2 == ShiftBit(ShiftBit(c));
    var c4 := Shift(c, 4);
    assert c4 == ShiftBit(Shift(c, 3)) && Shift(c, 3) == ShiftBit(c2);
    var c6 := Shift(c, 6);
    assert c6 == ShiftBit(Shift(c, 5)) && Shift(c, 5) == ShiftBit(c4);
    assert Shift(c, 8) == ShiftBit(Shift(c, 7)) && Shift(c, 7) == ShiftBit(c6);
  }

  lemma ByteShift(y: byte)
    ensures Shift8(y as bv16) == Raise(y)
  {}

  lemma WordBytes(c: bv16, high: byte, low: byte)
    ensures Xor(Xor(c, Raise(high)), low as bv16) == 0 <==> high == HighByte(c) && low == LowByte(c)
  {}

  /** Two bytes at once act as one 16-bit word. */
  lemma UpdatePair(c: bv16, high: byte, low: byte)
    ensures Update(Update(c, high), low) == Shift(Shift(Xor(Xor(c, Raise(high)), low as bv16), 8), 8)
  {
    hide Xor, Raise, Shift, Shift8;
    ByteShift(low);
    ShiftEight(low as bv16);
    ShiftLinear(Xor(c, Raise(high)), low as bv16, 8);
  }

  /** Appending a checksum brings the register to zero, and nothing else does. */
  lemma CrcResidue(c: bv16, high: byte, low: byte)
    ensures Update(Update(c, high), low) == 0 <==> high == HighByte(c) && low == LowByte(c)
  {
    hide *;
    UpdatePair(c, high, low);
    var w := Xor(Xor(c, Raise(high)), low as bv16);
    ShiftZero(Shift(w, 8), 8);
    ShiftZero(w, 8);
    WordBytes(c, high, low);
  }

  // ----- error patterns

  predicate Zeros(s: seq<byte>) { forall i :: 0 <= i < |s| ==> s[i] == 0 }

  lemma UpdateZero(c: bv16)
    ensures Update(c, 0) == 0 <==> c == 0
  {
    hide Shift;
    ShiftZero(Xor(c, Raise(0)), 8);
  }

  lemma {:induction false} CrcZeros(c: bv16, s: seq<byte>)
    requires Zeros(s)
    ensures Crc(c, s) == 0 <==> c == 0
    decreases |s|
  {
    hide Update;
    if s != [] {
      UpdateZero(c);
      CrcZeros(Update(c, s[0]), s[1..]);
    }
  }

  function Word24(x: byte, y: byte, z: byte): bv24
  {
    (x as bv24 << 16) | (y as bv24 << 8) | z as bv24
  }

  /** The flipped bits among 24 lie within 16 consecutive positions, and there are some. */
  ghost predicate IsBurst(w: bv24)
  {
    exists p: bv24, k: bv24 :: BurstAt(w, p, k)
  }

  predicate BurstAt(w: bv24, p: bv24, k: bv24)
  {
    p != 0 && p <= 0xFFFF && k <= 8 && w == p << k
  }

  lemma XorZero(c: bv16)
    ensures Xor(0, c) == c && Xor(c, c) == 0
  {}

  lemma ShiftedBurst(x: byte, y: byte, z: byte, p: bv24, k: bv24)
    requires BurstAt(Word24(x, y, z), p, k)
    ensures Xor(Shift8(Xor(Raise(x), y as bv16)), z as bv16) != 0
  {}

  /** The first byte of the three is shifted all the way through, so they clear the register
      only if the last one equals what the first two leave after eight steps. */
  lemma UpdateThrice(x: byte, y: byte, z: byte)
    ensures Update(Update(Update(0, x), y), z) == 0
            <==> Xor(Shift8(Xor(Raise(x), y as bv16)), z as bv16) == 0
  {
    hide Xor, Raise, Shift, Shift8;
    XorZero(Raise(x));
    UpdatePair(0, x, y);
    var w := Xor(Raise(x), y as bv16);
    ByteShift(z);
    ShiftEight(z as bv16);
    ShiftEight(w);
    ShiftLinear(Shift(w, 8), z as bv16, 8);
    var v := Xor(Shift(w, 8), z as bv16);
    ShiftZero(Shift(v, 8), 8);
    ShiftZero(v, 8);
  }

  /** No burst of at most 16 bits passes through the register unseen. */
  lemma BurstDetected(x: byte, y: byte, z: byte)
    requires IsBurst(Word24(x, y, z))
    ensures Update(Update(Update(0, x), y), z) != 0
  {
    hide *;
    BurstWitness(Word24(x, y, z));
    var p, k :| BurstAt(Word24(x, y, z), p, k);
    ShiftedBurst(x, y, z, p, k);
    UpdateThrice(x, y, z);
  }

  lemma BurstWitness(w: bv24)
    requires IsBurst(w)
    ensures exists p, k :: BurstAt(w, p, k)
  {
    hide BurstAt;
  }

  /** Two adjacent bytes, at either end of three, are a burst. */
  lemma PairIsBurst(x: byte, y: byte)
    requires x != 0 || y != 0
    ensures IsBurst(Word24(0, x, y)) && IsBurst(Word24(x, y, 0))
  {
    hide Word24, BurstAt, Pair24;
    LowPairBurst(x, y);
    HighPairBurst(x, y);
  }

  function Pair24(x: byte, y: byte): bv24 { (x as bv24 << 8) | y as bv24 }

  lemma LowPairBurst(x: byte, y: byte)
    requires x != 0 || y != 0
    ensures BurstAt(Word24(0, x, y), Pair24(x, y), 0)
  {}

  lemma HighPairBurst(x: byte, y: byte)
    requires x != 0 || y != 0
    ensures BurstAt(Word24(x, y, 0), Pair24(x, y), 8)
  {}

  // ----- the published check value

  lemma UpdateIs(c: bv16, v: byte)
    ensures Update(c, v) == Shift8(Xor(c, Raise(v)))
  {
    hide Shift8, Xor, Raise, Shift;
    ShiftEight(Xor(c, Raise(v)));
  }

  lemma DigitSteps()
    ensures Update(0xFFFF, 0x31) == 0xC782
    ensures Update(0xC782, 0x32) == 0x3DBA
    ensures Update(0x3DBA, 0x33) == 0x5BCE
    ensures Update(0x5BCE, 0x34) == 0x5349
    ensures Update(0x5349, 0x35) == 0x4560
    ensures Update(0x4560, 0x36) == 0x2EF4
    ensures Update(0x2EF4, 0x37) == 0x7718
    ensures Update(0x7718, 0x38) == 0xA12B
    ensures Update(0xA12B, 0x39) == 0x29B1
  {
    hide Update, Shift;
    UpdateIs(0xFFFF, 0x31);
    UpdateIs(0xC782, 0x32);
    UpdateIs(0x3DBA, 0x33);
    UpdateIs(0x5BCE, 0x34);
    UpdateIs(0x5349, 0x35);
    UpdateIs(0x4560, 0x36);
    UpdateIs(0x2EF4, 0x37);
    UpdateIs(0x7718, 0x38);
    UpdateIs(0xA12B, 0x39);
  }

  lemma NextByte(s: seq<byte>, v: byte, c: bv16)
    requires Crc(INITIAL, s) == c
    ensures Crc(INITIAL, s + [v]) == Update(c, v)
  {
    hide Update, Crc;
    CrcStep(INITIAL, s, v);
  }

  lemma CrcNothing(c: bv16)
    ensures Crc(c, []) == c
  {}

  /** The checksum of the digits "123456789". */
  lemma CheckValue()
    ensures Crc(INITIAL, [0x31, 0x32, 0x33, 0x34, 0x35, 0x36, 0x37, 0x38, 0x39]) == 0x29B1
  {
    hide Update, Crc;
    DigitSteps();
    CrcNothing(INITIAL);
    var s: seq<byte> := [];
    NextByte(s, 0x31, 0xFFFF); s := s + [0x31];
    NextByte(s, 0x32, 0xC782); s := s + [0x32];
    NextByte(s, 0x33, 0x3DBA); s := s + [0x33];
    NextByte(s, 0x34, 0x5BCE); s := s + [0x34];
    NextByte(s, 0x35, 0x5349); s := s + [0x35];
    NextByte(s, 0x36, 0x4560); s := s + [0x36];
    NextByte(s, 0x37, 0x2EF4); s := s + [0x37];
    NextByte(s, 0x38, 0x7718); s := s + [0x38];
    NextByte(s, 0x39, 0xA12B); s := s + [0x39];
    assert s == [0x31, 0x32, 0x33, 0x34, 0x35, 0x36, 0x37, 0x38, 0x39];
  }
}
