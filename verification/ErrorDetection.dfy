/** Which damaged frames the decoder can never accept. */
module ErrorDetection {
  import opened Basics
  import opened Octets
  import opened Crc16
  import opened Frame
  import opened Decoding

  /** Dividing a whole valid frame, checksum included, leaves nothing. */
  lemma FrameResidue(kind: byte, payload: seq<byte>)
    ensures Crc(INITIAL, FrameBytes(kind, payload)[2..]) == 0
  {
    hide Crc, Update, HighByte, LowByte, ByteOf;
    var m := Covered(kind, |payload|) + payload;
    var c := Crc(INITIAL, m);
    assert FrameBytes(kind, payload)[2..] == m + [HighByte(c)] + [LowByte(c)];
    CrcStep(INITIAL, m, HighByte(c));
    CrcStep(INITIAL, m + [HighByte(c)], LowByte(c));
    CrcResidue(c, HighByte(c), LowByte(c));
  }

  lemma XorTwice(a: byte, b: byte)
    ensures XorByte(a, XorByte(a, b)) == b && (XorByte(a, b) == 0 <==> a == b)
  {}

  lemma FlipTwice(f: seq<byte>, g: seq<byte>)
    requires |f| == |g|
    ensures Flip(f, Flip(f, g)) == g
  {
    hide XorByte;
    forall i | 0 <= i < |f| ensures Flip(f, Flip(f, g))[i] == g[i] { XorTwice(f[i], g[i]); }
  }

  /** Two messages that both divide exactly differ by a pattern that divides exactly. */
  lemma ErrorResidue(f: seq<byte>, g: seq<byte>)
    requires |f| == |g| && Crc(INITIAL, f) == 0 && Crc(INITIAL, g) == 0
    ensures Crc(0, Flip(f, g)) == 0
  {
    hide Crc, XorByte, Xor;
    FlipTwice(f, g);
    CrcLinear(INITIAL, 0, f, Flip(f, g));
    XorZero(Crc(0, Flip(f, g)));
    assert Xor(INITIAL, 0) == INITIAL by { XorRightZero(INITIAL); }
  }

  lemma XorRightZero(c: bv16)
    ensures Xor(c, 0) == c
  {}

  predicate AgreeOutside(f: seq<byte>, g: seq<byte>, at: nat, width: nat)
    requires |f| == |g|
  {
    forall i :: 0 <= i < |f| && !(at <= i < at + width) ==> f[i] == g[i]
  }

  /** The flipped bits of three adjacent bytes, as one 24-bit word. */
  function Error24(f: seq<byte>, g: seq<byte>, at: nat): bv24
    requires |f| == |g| && at + 3 <= |f|
  {
    Word24(XorByte(f[at], g[at]), XorByte(f[at + 1], g[at + 1]), XorByte(f[at + 2], g[at + 2]))
  }

  lemma WindowResidue(f: seq<byte>, g: seq<byte>, at: nat)
    requires |f| == |g| && at + 3 <= |f| && AgreeOutside(f, g, at, 3) && IsBurst(Error24(f, g, at))
    ensures Crc(0, Flip(f, g)) != 0
  {
    hide Crc, Update, XorByte, Word24, IsBurst;
    var e := Flip(f, g);
    var x, y, z := e[at], e[at + 1], e[at + 2];
    forall i | 0 <= i < |f| && !(at <= i < at + 3) ensures e[i] == 0 { XorTwice(f[i], g[i]); }
    var lead, tail := e[..at], e[at + 3..];
    assert e == lead + [x] + [y] + [z] + tail;
    CrcConcat(0, lead + [x] + [y] + [z], tail);
    CrcStep(0, lead + [x] + [y], z);
    CrcStep(0, lead + [x], y);
    CrcStep(0, lead, x);
    CrcZeros(0, lead);
    BurstDetected(x, y, z);
    CrcZeros(Crc(0, lead + [x] + [y] + [z]), tail);
  }

  lemma WindowDetected(kind: byte, payload: seq<byte>, kind': byte, payload': seq<byte>, at: nat)
    requires |payload'| == |payload| && 2 <= at && at + 3 <= 8 + |payload|
    requires AgreeOutside(FrameBytes(kind, payload), FrameBytes(kind', payload'), at, 3)
    ensures !IsBurst(Error24(FrameBytes(kind, payload), FrameBytes(kind', payload'), at))
  {
    hide Crc, XorByte, Word24, IsBurst, FrameBytes;
    var f, g := FrameBytes(kind, payload), FrameBytes(kind', payload');
    FrameResidue(kind, payload);
    FrameResidue(kind', payload');
    ErrorResidue(f[2..], g[2..]);
    if IsBurst(Error24(f, g, at)) {
      forall i | 0 <= i < |f[2..]| && !(at - 2 <= i < at + 1) ensures f[2..][i] == g[2..][i] {
        assert f[i + 2] == g[i + 2];
      }
      assert Error24(f[2..], g[2..], at - 2) == Error24(f, g, at);
      WindowResidue(f[2..], g[2..], at - 2);
    }
  }

  /** An input whose length bytes are those of a frame can only be accepted as a frame of that length. */
  lemma AcceptedLength(kind: byte, payload: seq<byte>, g: seq<byte>, rest: seq<byte>)
      returns (kind': byte, payload': seq<byte>)
    requires ValidFrame(kind, payload) && |g| == 8 + |payload|
    requires g[4..6] == FrameBytes(kind, payload)[4..6]
    requires Accepts(g + rest)
    ensures |payload'| == |payload| && g == FrameBytes(kind', payload')
  {
    hide FrameBytes, Accepts, Length;
    var f := FrameBytes(kind, payload);
    kind', payload' := AcceptedIsFrame(g + rest);
    FrameLayout(f, kind, payload);
    FrameLayout(g + rest, kind', payload');
    assert f[4] == f[4..6][0] == g[4..6][0] == g[4] && f[5] == f[4..6][1] == g[4..6][1] == g[5];
    assert (g + rest)[4] == f[4] && (g + rest)[5] == f[5];
    assert g == (g + rest)[..8 + |payload|] == FrameBytes(kind', payload');
  }

  lemma SameStart(kind: byte, payload: seq<byte>, kind': byte, payload': seq<byte>)
    ensures var f, g := FrameBytes(kind, payload), FrameBytes(kind', payload');
            f[0] == g[0] && f[1] == g[1] && f[2] == g[2]
  {
    hide HighByte, LowByte, Crc, ByteOf;
  }

  /** A frame damaged by one burst of at most 16 bits outside its length bytes is never accepted,
      whatever bytes follow it. */
  lemma BurstsAreRejected(kind: byte, payload: seq<byte>, g: seq<byte>, rest: seq<byte>, at: nat)
    requires ValidFrame(kind, payload)
    requires |g| == 8 + |payload| && at + 3 <= |g|
    requires g[4..6] == FrameBytes(kind, payload)[4..6]
    requires AgreeOutside(FrameBytes(kind, payload), g, at, 3) && IsBurst(Error24(FrameBytes(kind, payload), g, at))
    ensures !Accepts(g + rest)
  {
    hide FrameBytes, Accepts, XorByte, Word24, IsBurst, ValidFrame;
    if Accepts(g + rest) {
      var f := FrameBytes(kind, payload);
      var kind', payload' := AcceptedLength(kind, payload, g, rest);
      if 2 <= at {
        WindowDetected(kind, payload, kind', payload', at);
      } else {
        SameStart(kind, payload, kind', payload');
        assert f != g by {
          if f == g { ZeroIsNoBurst(f[at], f[at + 1], f[at + 2]); }
        }
        assert AgreeOutside(f, g, 3, 2);
        ShortError(kind, payload, kind', payload', 3);
      }
    }
  }

  lemma ZeroIsNoBurst(x: byte, y: byte, z: byte)
    ensures !IsBurst(Word24(XorByte(x, x), XorByte(y, y), XorByte(z, z)))
  {
    forall p: bv24, k: bv24 ensures !BurstAt(Word24(XorByte(x, x), XorByte(y, y), XorByte(z, z)), p, k) {
      NoBurstAt(x, y, z, p, k);
    }
  }

  lemma NoBurstAt(x: byte, y: byte, z: byte, p: bv24, k: bv24)
    ensures !BurstAt(Word24(XorByte(x, x), XorByte(y, y), XorByte(z, z)), p, k)
  {}

  /** Two distinct frames of one length differ in more than a pair of adjacent bytes. */
  lemma ShortError(kind: byte, payload: seq<byte>, kind': byte, payload': seq<byte>, at: nat)
    requires |payload'| == |payload| && 2 <= at < 8 + |payload|
    requires AgreeOutside(FrameBytes(kind, payload), FrameBytes(kind', payload'), at, 2)
    ensures FrameBytes(kind, payload) == FrameBytes(kind', payload')
  {
    hide FrameBytes, XorByte, Word24, IsBurst;
    var f, g := FrameBytes(kind, payload), FrameBytes(kind', payload');
    if f != g {
      var w := if at + 3 <= |f| then at else |f| - 3;
      assert AgreeOutside(f, g, w, 3);
      WindowDetected(kind, payload, kind', payload', w);
      XorTwice(f[w], g[w]);
      XorTwice(f[w + 1], g[w + 1]);
      XorTwice(f[w + 2], g[w + 2]);
      if w == at {
        assert f[w + 2] == g[w + 2];
        PairIsBurst(XorByte(f[w], g[w]), XorByte(f[w + 1], g[w + 1]));
      } else {
        assert f[w] == g[w];
        PairIsBurst(XorByte(f[w + 1], g[w + 1]), XorByte(f[w + 2], g[w + 2]));
      }
    }
  }

  /** Damaging at most two adjacent bytes of a frame, length bytes excepted, never makes the
      decoder's first final result a success. */
  lemma AdjacentDamageIsRejected(kind: byte, payload: seq<byte>, g: seq<byte>, rest: seq<byte>, at: nat)
    requires ValidFrame(kind, payload)
    requires |g| == 8 + |payload| && g != FrameBytes(kind, payload)
    requires g[4..6] == FrameBytes(kind, payload)[4..6]
    requires AgreeOutside(FrameBytes(kind, payload), g, at, 2)
    ensures !Accepts(g + rest)
  {
    hide FrameBytes, Accepts;
    if Accepts(g + rest) {
      var f := FrameBytes(kind, payload);
      var kind', payload' := AcceptedLength(kind, payload, g, rest);
      SameStart(kind, payload, kind', payload');
      var p := if at < 2 then 2 else if at < |g| then at else 2;
      assert AgreeOutside(f, g, p, 2);
      ShortError(kind, payload, kind', payload', p);
    }
  }

  // ----- damage to the length bytes

  /** A frame whose length bytes have been changed to announce `m` bytes, and whatever follows it. */
  function WithLength(kind: byte, payload: seq<byte>, m: nat, rest: seq<byte>): (s: seq<byte>)
    ensures |s| == 8 + |payload| + |rest|
  {
    var f := FrameBytes(kind, payload);
    f[..4] + Header(kind, m)[4..] + f[6..] + rest
  }

  lemma WithLengthLayout(kind: byte, payload: seq<byte>, m: nat, rest: seq<byte>)
    requires ValidFrame(kind, payload) && m < 0x1_0000
    ensures var s := WithLength(kind, payload, m, rest);
            && s[0] == MAGIC_FIRST && s[1] == MAGIC_SECOND && s[2] == VERSION && s[3] == kind
            && Length(s[4], s[5]) == m && s[6..6 + |payload|] == payload
  {
    hide ByteOf, IntOf, Length, HighByte, LowByte, Crc;
    var f, h, s := FrameBytes(kind, payload), Header(kind, m), WithLength(kind, payload, m, rest);
    BytesLength(m);
    assert f[..6] == Header(kind, |payload|);
    assert s[4] == h[4] && s[5] == h[5];
    assert s[6..6 + |payload|] == f[6..6 + |payload|] == payload;
  }

  /** Exactly when a frame with other length bytes is accepted: the announced length is allowed, that many
      bytes are there, and the two after them happen to be their checksum. */
  lemma LengthDamageAccepted(kind: byte, payload: seq<byte>, m: nat, rest: seq<byte>)
    requires ValidFrame(kind, payload) && m < 0x1_0000
    ensures var s := WithLength(kind, payload, m, rest);
            Accepts(s) <==> m <= MaxPayload(kind) && 8 + m <= |s| && s[6 + m..8 + m] == Trailer(Checksum(kind, s[6..6 + m]))
  {
    hide WithLength, Accepts, Length, Trailer, Checksum;
    WithLengthLayout(kind, payload, m, rest);
    AcceptsByParts(WithLength(kind, payload, m, rest));
  }

  /** For a length at least two shorter, the payload alone decides: it must hold the checksum of its own
      start right after that start. What follows the frame does not matter. */
  lemma ShortenedIsAccepted(kind: byte, payload: seq<byte>, m: nat, rest: seq<byte>)
    requires ValidFrame(kind, payload) && m + 2 <= |payload|
    ensures Accepts(WithLength(kind, payload, m, rest)) <==> payload[m..m + 2] == Trailer(Checksum(kind, payload[..m]))
  {
    hide WithLength, Accepts, Length, Trailer, Checksum;
    var s := WithLength(kind, payload, m, rest);
    WithLengthLayout(kind, payload, m, rest);
    LengthDamageAccepted(kind, payload, m, rest);
    SliceOfSlice(s, 6, |payload|, 0, m);
    SliceOfSlice(s, 6, |payload|, m, m + 2);
    assert s[6..6 + |payload|][0..m] == s[6..6 + |payload|][..m];
  }

  lemma SliceOfSlice(s: seq<byte>, a: nat, n: nat, i: nat, j: nat)
    requires a + n <= |s| && i <= j <= n
    ensures s[a..a + n][i..j] == s[a + i..a + j]
  {
    var t := s[a..a + n];
    forall k | 0 <= k < j - i ensures t[i..j][k] == s[a + i..a + j][k] {}
  }

  /** So there are frames that are accepted, shorter, once their length bytes say so: any payload that
      ends in the checksum of its own start. */
  lemma LengthDamageCanBeAccepted(kind: byte, start: seq<byte>, rest: seq<byte>)
    requires ValidKind(kind) && |start| + 2 <= MaxPayload(kind)
    ensures var payload := start + Trailer(Checksum(kind, start));
            var f, s := FrameBytes(kind, payload), WithLength(kind, payload, |start|, rest);
            && ValidFrame(kind, payload) && payload != start && AgreeOutside(f, s[..|f|], 4, 2)
            && Accepts(s) && Decodes(s, kind, start)
  {
    hide WithLength, Accepts, Checksum, Decodes;
    var payload := start + Trailer(Checksum(kind, start));
    assert payload[..|start|] == start && payload[|start|..|start| + 2] == Trailer(Checksum(kind, start));
    ShortenedIsAccepted(kind, payload, |start|, rest);
    AgreesOutsideLength(kind, payload, |start|, rest);
    AcceptedAs(kind, payload, |start|, rest);
  }

  lemma AgreesOutsideLength(kind: byte, payload: seq<byte>, m: nat, rest: seq<byte>)
    ensures AgreeOutside(FrameBytes(kind, payload), WithLength(kind, payload, m, rest)[..8 + |payload|], 4, 2)
  {
    hide FrameBytes;
  }

  /** A shortened frame that is accepted delivers the start of the payload. */
  lemma AcceptedAs(kind: byte, payload: seq<byte>, m: nat, rest: seq<byte>)
    requires ValidFrame(kind, payload) && m <= |payload| && Accepts(WithLength(kind, payload, m, rest))
    ensures Decodes(WithLength(kind, payload, m, rest), kind, payload[..m])
  {
    hide WithLength, Accepts, Decodes, Length, FrameBytes;
    var s := WithLength(kind, payload, m, rest);
    var kind', payload' := AcceptedIsFrame(s);
    WithLengthLayout(kind, payload, m, rest);
    FrameLayout(s, kind', payload');
    assert s[6..6 + |payload|][..m] == s[6..6 + m];
  }
}
