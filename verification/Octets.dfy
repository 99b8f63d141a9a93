/** Bytes as 8-bit vectors, and their exact correspondence with the integers below 256. */
module Octets {
  import opened Basics

  datatype Bits = Bits(b0: bool, b1: bool, b2: bool, b3: bool, b4: bool, b5: bool, b6: bool, b7: bool)

  function Split(b: byte): Bits
  {
    Bits(b & 1 != 0, b & 2 != 0, b & 4 != 0, b & 8 != 0,
         b & 16 != 0, b & 32 != 0, b & 64 != 0, b & 128 != 0)
  }

  function Pick(c: bool, v: byte): byte { if c then v else 0 }

  function Join(x: Bits): byte
  {
    Pick(x.b0, 1) | Pick(x.b1, 2) | Pick(x.b2, 4) | Pick(x.b3, 8)
    | Pick(x.b4, 16) | Pick(x.b5, 32) | Pick(x.b6, 64) | Pick(x.b7, 128)
  }

  predicate Odd(n: nat) { n % 2 == 1 }

  function Twice(b: bool, n: nat): (r: nat)
    ensures Half(r) == n && Odd(r) == b
  {
    2 * n + if b then 1 else 0
  }

  function Half(n: nat): nat { n / 2 }

  function Value(x: Bits): nat
  {
    Twice(x.b0, Twice(x.b1, Twice(x.b2, Twice(x.b3, Twice(x.b4, Twice(x.b5, Twice(x.b6, Twice(x.b7, 0))))))))
  }

  function Digits(n: nat): Bits
  {
    var n1 := Half(n); var n2 := Half(n1); var n3 := Half(n2); var n4 := Half(n3);
    var n5 := Half(n4); var n6 := Half(n5); var n7 := Half(n6);
    Bits(Odd(n), Odd(n1), Odd(n2), Odd(n3), Odd(n4), Odd(n5), Odd(n6), Odd(n7))
  }

  /** The low eight bits of an integer, as a byte conversion keeps them. */
  function ByteOf(n: nat): byte { Join(Digits(n)) }

  /** The integer a byte stands for. */
  function IntOf(b: byte): nat { Value(Split(b)) }

  /** It is the byte's unsigned value. */
  lemma IntOfIs(b: byte)
    ensures IntOf(b) == b as int
  {
    hide Value, Split, Weighed;
    ValueWeighed(Split(b));
    SplitWeighed(b);
  }

  function Weight(bit: bool, w: nat): nat { if bit then w else 0 }

  function Weighed(x: Bits): nat
  {
    Weight(x.b0, 1) + Weight(x.b1, 2) + Weight(x.b2, 4) + Weight(x.b3, 8)
    + Weight(x.b4, 16) + Weight(x.b5, 32) + Weight(x.b6, 64) + Weight(x.b7, 128)
  }

  lemma ValueWeighed(x: Bits)
    ensures Value(x) == Weighed(x)
  {}

  lemma SplitWeighed(b: byte)
    ensures Weighed(Split(b)) == b as int
  {}

  lemma SplitJoin(x: Bits)
    ensures Split(Join(x)) == x
  {}

  lemma JoinSplit(b: byte)
    ensures Join(Split(b)) == b
  {}

  lemma DigitsValue(x: Bits)
    ensures Value(x) < 256 && Digits(Value(x)) == x
  {}

  lemma HalfTwice(n: nat, m: nat)
    requires n < 2 * m
    ensures Half(n) < m && n == Twice(Odd(n), Half(n))
  {}

  lemma ValueDigits(n: nat)
    requires n < 256
    ensures Value(Digits(n)) == n
  {
    hide Half, Twice, Odd;
    var n1 := Half(n); var n2 := Half(n1); var n3 := Half(n2); var n4 := Half(n3);
    var n5 := Half(n4); var n6 := Half(n5); var n7 := Half(n6);
    HalfTwice(n, 128); HalfTwice(n1, 64); HalfTwice(n2, 32); HalfTwice(n3, 16);
    HalfTwice(n4, 8); HalfTwice(n5, 4); HalfTwice(n6, 2); HalfTwice(n7, 1);
  }

  lemma ByteOfIntOf(b: byte)
    ensures IntOf(b) < 256 && ByteOf(IntOf(b)) == b
  {
    DigitsValue(Split(b));
    JoinSplit(b);
  }

  lemma IntOfByteOf(n: nat)
    requires n < 256
    ensures IntOf(ByteOf(n)) == n
  {
    SplitJoin(Digits(n));
    ValueDigits(n);
  }
}
