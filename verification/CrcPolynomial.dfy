/** What the checksum is: the remainder of the message, as a polynomial over the two-element field, on
    division by x^16 + x^12 + x^5 + 1. */
module CrcPolynomial {
  import opened Basics
  import opened Crc16

  // ----- polynomials, as coefficients from the highest degree down

  type Poly = seq<bool>

  function Zeros(n: nat): (z: Poly)
    ensures |z| == n
  {
    seq(n, _ => false)
  }

  function Add(a: Poly, b: Poly): (r: Poly)
    requires |a| == |b|
    ensures |r| == |a|
  {
    seq(|a|, i requires 0 <= i < |a| => a[i] != b[i])
  }

  lemma AddAt(a: Poly, b: Poly, i: nat)
    requires |a| == |b| && i < |a|
    ensures Add(a, b)[i] == (a[i] != b[i])
  {}

  /** x^16 + x^12 + x^5 + 1. */
  function Generator(): (g: Poly)
    ensures |g| == 17
  {
    seq(17, i requires 0 <= i < 17 => 16 - i == 16 || 16 - i == 12 || 16 - i == 5 || 16 - i == 0)
  }

  function Scaled(b: bool): (r: Poly)
    ensures |r| == 17
  {
    if b then Generator() else Zeros(17)
  }

  /** A polynomial of degree below `|q|`, times the generator. */
  function Times(q: Poly): (r: Poly)
    ensures |r| == |q| + 16
  {
    if q == [] then Zeros(16) else
    var n := |q| - 1;
    Add(Times(q[..n]) + [false], Zeros(n) + Scaled(q[n]))
  }

  /** `p` is a multiple `q` of the generator, plus `r` of degree below 16. */
  predicate Divides(p: Poly, q: Poly, r: Poly)
  {
    |r| == 16 && |p| == |q| + 16 && p == Add(Times(q), Zeros(|q|) + r)
  }

  /** The last coefficient of a factor shows for the first time in the term of its own degree, above which the product
      is that of the others. */
  lemma TimesAt(q: Poly, i: nat)
    requires i < |q|
    ensures var n := |q| - 1;
            Times(q)[i] == if i < n then Times(q[..n])[i] else Times(q[..n])[n] != q[n]
  {
    hide Generator, Scaled, Add, Zeros;
    var n := |q| - 1;
    AddAt(Times(q[..n]) + [false], Zeros(n) + Scaled(q[n]), i);
    ZeroAt(n, i);
    LeadingTerm(q[n]);
  }

  lemma {:induction false} TimesIsInjective(q: Poly, q': Poly)
    requires |q| == |q'| && forall i :: 0 <= i < |q| ==> Times(q)[i] == Times(q')[i]
    ensures q == q'
    decreases |q|
  {
    hide Times;
    if q != [] {
      var n := |q| - 1;
      forall i | 0 <= i < n ensures Times(q[..n])[i] == Times(q'[..n])[i] {
        TimesAt(q, i);
        TimesAt(q', i);
      }
      TimesIsInjective(q[..n], q'[..n]);
      TimesAt(q, n);
      TimesAt(q', n);
      assert q == q[..n] + [q[n]] && q' == q'[..n] + [q'[n]];
    }
  }

  /** Quotient and remainder are determined. */
  lemma DivisionIsUnique(p: Poly, q: Poly, r: Poly, q': Poly, r': Poly)
    requires Divides(p, q, r) && Divides(p, q', r')
    ensures q == q' && r == r'
  {
    hide Times;
    var n := |q|;
    forall i | 0 <= i < n ensures Times(q)[i] == Times(q')[i] {
      assert p[i] == (Times(q)[i] != (Zeros(n) + r)[i]) && p[i] == (Times(q')[i] != (Zeros(n) + r')[i]);
    }
    TimesIsInjective(q, q');
    forall i | 0 <= i < 16 ensures r[i] == r'[i] {
      assert p[n + i] == (Times(q)[n + i] != (Zeros(n) + r)[n + i]) && p[n + i] == (Times(q')[n + i] != (Zeros(n) + r')[n + i]);
    }
  }

  // ----- the register, bit by bit

  /** The register shifted left `n` times, without feedback. */
  function LeftN(c: bv16, n: nat): bv16
  {
    if n == 0 then c else Left(LeftN(c, n - 1))
  }

  /** Bit `i` of the register, from the top. */
  predicate BitAt(c: bv16, i: nat) { Top(LeftN(c, i)) }

  /** The register as a polynomial of degree below 16. */
  function Bits16(c: bv16): (r: Poly)
    ensures |r| == 16 && forall i :: 0 <= i < 16 ==> r[i] == BitAt(c, i)
  {
    seq(16, i requires 0 <= i < 16 => BitAt(c, i))
  }

  /** A byte as a polynomial of degree below 8. */
  function Bits8(v: byte): (r: Poly)
    ensures |r| == 8 && forall i :: 0 <= i < 8 ==> r[i] == BitAt(Raise(v), i)
  {
    seq(8, i requires 0 <= i < 8 => BitAt(Raise(v), i))
  }

  lemma LeftXor(a: bv16, b: bv16)
    ensures Left(Xor(a, b)) == Xor(Left(a), Left(b))
  {
    FoldXor(a, b, 0);
  }

  lemma TopXor(a: bv16, b: bv16)
    ensures Top(Xor(a, b)) <==> (Top(a) != Top(b))
  {}

  lemma {:induction false} LeftNXor(a: bv16, b: bv16, n: nat)
    ensures LeftN(Xor(a, b), n) == Xor(LeftN(a, n), LeftN(b, n))
  {
    hide Left, Xor;
    if n > 0 {
      LeftNXor(a, b, n - 1);
      LeftXor(LeftN(a, n - 1), LeftN(b, n - 1));
    }
  }

  lemma BitXor(a: bv16, b: bv16, i: nat)
    ensures BitAt(Xor(a, b), i) == (BitAt(a, i) != BitAt(b, i))
  {
    hide Left, Xor, Top, LeftN;
    LeftNXor(a, b, i);
    TopXor(LeftN(a, i), LeftN(b, i));
  }

  lemma {:induction false} LeftNLeft(c: bv16, n: nat)
    ensures LeftN(Left(c), n) == LeftN(c, n + 1)
  {
    hide Left;
    if n > 0 { LeftNLeft(c, n - 1); }
  }

  lemma BitLeft(c: bv16, i: nat)
    ensures BitAt(Left(c), i) == BitAt(c, i + 1)
  {
    hide Left, Top, LeftN;
    LeftNLeft(c, i);
  }

  lemma {:induction false} LeftNSum(c: bv16, m: nat, n: nat)
    ensures LeftN(LeftN(c, m), n) == LeftN(c, m + n)
  {
    hide Left;
    if n > 0 { LeftNSum(c, m, n - 1); }
  }

  lemma FourLeft(c: bv16)
    ensures LeftN(c, 4) == c << 4
  {
    hide Left;
    assert LeftN(c, 1) == Left(c);
    assert LeftN(c, 2) == Left(Left(c));
    assert LeftN(c, 3) == Left(Left(Left(c)));
    LeftFour(c);
  }

  lemma LeftFour(c: bv16)
    ensures Left(Left(Left(Left(c)))) == c << 4
  {}

  /** Nothing is left after as many shifts as there are bits. */
  lemma ShiftedOut(c: bv16, v: byte)
    ensures LeftN(c, 16) == 0 && LeftN(Raise(v), 8) == 0
  {
    hide LeftN;
    FourLeft(c);
    FourLeft(c << 4);
    FourLeft(c << 4 << 4);
    FourLeft(c << 4 << 4 << 4);
    LeftNSum(c, 4, 4);
    LeftNSum(c, 8, 4);
    LeftNSum(c, 12, 4);
    FourLeft(Raise(v));
    FourLeft(Raise(v) << 4);
    LeftNSum(Raise(v), 4, 4);
  }

  lemma NoBit16(c: bv16)
    ensures !BitAt(c, 16)
  {
    ShiftedOut(c, 0);
  }

  /** The feedback word is the generator without its highest term. */
  lemma {:induction false} FeedbackIs(i: nat)
    requires i < 16
    ensures BitAt(Feedback(), i) == Generator()[i + 1]
  {
    hide Left;
    FeedbackShifts();
    assert Top(0x1021) == false && Top(0x2042) == false && Top(0x4084) == false && Top(0x8108) == true;
    assert Top(0x0210) == false && Top(0x0420) == false && Top(0x0840) == false && Top(0x1080) == false;
    assert Top(0x2100) == false && Top(0x4200) == false && Top(0x8400) == true && Top(0x0800) == false;
    assert Top(0x1000) == false && Top(0x2000) == false && Top(0x4000) == false && Top(0x8000) == true;
  }

  /** What the register folds in when a one falls off its top. */
  function Feedback(): bv16 { Fold(0) }

  lemma FeedbackShifts()
    ensures var f := Feedback();
            && LeftN(f, 0) == 0x1021 && LeftN(f, 1) == 0x2042 && LeftN(f, 2) == 0x4084 && LeftN(f, 3) == 0x8108
            && LeftN(f, 4) == 0x0210 && LeftN(f, 5) == 0x0420 && LeftN(f, 6) == 0x0840 && LeftN(f, 7) == 0x1080
            && LeftN(f, 8) == 0x2100 && LeftN(f, 9) == 0x4200 && LeftN(f, 10) == 0x8400 && LeftN(f, 11) == 0x0800
            && LeftN(f, 12) == 0x1000 && LeftN(f, 13) == 0x2000 && LeftN(f, 14) == 0x4000 && LeftN(f, 15) == 0x8000
  {
    assert LeftN(Feedback(), 0) == 0x1021;
    assert Left(0x1021) == 0x2042;
    assert Left(0x2042) == 0x4084;
    assert Left(0x4084) == 0x8108;
    assert Left(0x8108) == 0x0210;
    assert Left(0x0210) == 0x0420;
    assert Left(0x0420) == 0x0840;
    assert Left(0x0840) == 0x1080;
    assert Left(0x1080) == 0x2100;
    assert Left(0x2100) == 0x4200;
    assert Left(0x4200) == 0x8400;
    assert Left(0x8400) == 0x0800;
    assert Left(0x0800) == 0x1000;
    assert Left(0x1000) == 0x2000;
    assert Left(0x2000) == 0x4000;
    assert Left(0x4000) == 0x8000;
  }

  /** A bit at the top of the register. */
  function TopBit(b: bool): bv16 { if b then 0x8000 else 0 }

  /** One message bit enters the register. */
  function Enter(c: bv16, b: bool): bv16 { ShiftBit(Xor(c, TopBit(b))) }

  function EnterAll(c: bv16, w: Poly): bv16
  {
    if w == [] then c else Enter(EnterAll(c, w[..|w| - 1]), w[|w| - 1])
  }

  lemma EnterIs(c: bv16, b: bool)
    ensures Enter(c, b) == if Top(c) != b then Xor(Left(c), Feedback()) else Left(c)
  {
    hide Top, Left, Fold, Xor;
    TopFlips(c);
    XorNothing(c);
    FoldIsXor(Left(c));
  }

  lemma TopFlips(c: bv16)
    ensures Top(Xor(c, 0x8000)) == !Top(c) && Left(Xor(c, 0x8000)) == Left(c)
  {}

  lemma FoldIsXor(c: bv16)
    ensures Fold(c) == Xor(c, Fold(0))
  {}

  /** The remainder after one more bit: multiply by x, and take the generator away if x^16 is there. */
  lemma EnterBits(c: bv16, b: bool)
    ensures var u := Bits16(c)[0] != b;
            Bits16(Enter(c, b)) == Add(Bits16(c)[1..] + [false], Scaled(u)[1..])
  {
    hide Enter, Left, Xor, Top, BitAt, Feedback, Generator;
    var u := Bits16(c)[0] != b;
    EnterIs(c, b);
    assert BitAt(c, 0) == Top(c) by { FirstBit(c); }
    NoBit16(c);
    forall i | 0 <= i < 16 ensures BitAt(Enter(c, b), i) == ((Bits16(c)[1..] + [false])[i] != Scaled(u)[1..][i]) {
      BitLeft(c, i);
      if u {
        BitXor(Left(c), Feedback(), i);
        FeedbackIs(i);
      }
    }
  }

  lemma FirstBit(c: bv16)
    ensures BitAt(c, 0) == Top(c)
  {}

  // ----- long division

  /** What is divided: the start value at the head of the message, which is shifted up by 16 bits. */
  function Dividend(c: bv16, w: Poly): (p: Poly)
    ensures |p| == |w| + 16
  {
    Add(Bits16(c) + Zeros(|w|), w + Zeros(16))
  }

  lemma TimesStep(q: Poly, u: bool)
    ensures Times(q + [u]) == Add(Times(q) + [false], Zeros(|q|) + Scaled(u))
  {
    hide Add, Scaled, Zeros;
    assert (q + [u])[..|q|] == q;
  }

  /** One step of long division. */
  lemma DivisionStep(c0: bv16, w: Poly, b: bool, q: Poly, c: bv16)
    requires Divides(Dividend(c0, w), q, Bits16(c))
    ensures Divides(Dividend(c0, w + [b]), q + [Bits16(c)[0] != b], Bits16(Enter(c, b)))
  {
    hide Bits16, Enter, Times, Generator, Dividend, Add, BitAt;
    var n, u := |w|, Bits16(c)[0] != b;
    var r, r' := Bits16(c), Bits16(Enter(c, b));
    EnterBits(c, b);
    TimesStep(q, u);
    var p', all := Dividend(c0, w + [b]), Add(Times(q + [u]), Zeros(n + 1) + r');
    forall i | 0 <= i < n + 17 ensures p'[i] == all[i] {
      DividendBit(c0, w, b, i);
      ProductBit(n, Times(q), Times(q + [u]), r, b, r', i);
      if i < n + 16 { assert Dividend(c0, w)[i] == Add(Times(q), Zeros(n) + r)[i]; }
    }
    assert p' == all;
  }

  lemma DividendBit(c0: bv16, w: Poly, b: bool, i: nat)
    requires i < |w| + 17
    ensures Dividend(c0, w + [b])[i] == ((i < |w| + 16 && Dividend(c0, w)[i]) != (i == |w| && b))
  {
    hide BitAt;
  }

  lemma ProductBit(n: nat, t: Poly, t': Poly, r: Poly, b: bool, r': Poly, i: nat)
    requires |t| == n + 16 && |t'| == n + 17 && |r| == 16 && |r'| == 16 && i < n + 17
    requires r' == Add(r[1..] + [false], Scaled(r[0] != b)[1..])
    requires t' == Add(t + [false], Zeros(n) + Scaled(r[0] != b))
    ensures Add(t', Zeros(n + 1) + r')[i] == ((i < n + 16 && Add(t, Zeros(n) + r)[i]) != (i == n && b))
  {
    hide Generator, Scaled, Add, Zeros;
    var u := r[0] != b;
    var g := Scaled(u);
    AddAt(t + [false], Zeros(n) + g, i);
    AddAt(t', Zeros(n + 1) + r', i);
    if i < n + 16 { AddAt(t, Zeros(n) + r, i); }
    ZeroAt(n, i);
    ZeroAt(n + 1, i);
    if i < n {
    } else if i == n {
      LeadingTerm(u);
    } else {
      TailBit(r, b, r', i - n - 1);
    }
  }

  lemma ZeroAt(n: nat, i: nat)
    ensures i < n ==> !Zeros(n)[i]
  {}

  lemma LeadingTerm(u: bool)
    ensures Scaled(u)[0] == u
  {}

  lemma TailBit(r: Poly, b: bool, r': Poly, j: nat)
    requires |r| == 16 && r' == Add(r[1..] + [false], Scaled(r[0] != b)[1..]) && j < 16
    ensures |r'| == 16 && r'[j] == ((j < 15 && r[j + 1]) != Scaled(r[0] != b)[j + 1])
  {
    hide Generator, Scaled;
  }

  /** The bits of a message go through the register, and what is left in it is the remainder. */
  lemma {:induction false} BitsAreDivided(c: bv16, w: Poly) returns (q: Poly)
    ensures Divides(Dividend(c, w), q, Bits16(EnterAll(c, w)))
    decreases |w|
  {
    hide Bits16, Enter, Divides, Dividend;
    if w == [] {
      q := [];
      NothingDivided(c);
    } else {
      var n := |w| - 1;
      q := BitsAreDivided(c, w[..n]);
      DivisionStep(c, w[..n], w[n], q, EnterAll(c, w[..n]));
      q := q + [Bits16(EnterAll(c, w[..n]))[0] != w[n]];
      assert w[..n] + [w[n]] == w;
    }
  }

  lemma NothingDivided(c: bv16)
    ensures Divides(Dividend(c, []), [], Bits16(c))
  {
    hide Bits16, BitAt;
    assert Dividend(c, []) == Bits16(c);
    assert Add(Times([]), Zeros(0) + Bits16(c)) == Bits16(c);
  }

  // ----- from bits to bytes

  /** A register that holds message bits of its own, next to be shifted: one step. */
  lemma ShiftTogether(c: bv16, x: bv16)
    ensures ShiftBit(Xor(c, x)) == Xor(Enter(c, Top(x)), Left(x))
  {
    hide *;
    TopAndRest(x);
    XorRegroup(c, TopBit(Top(x)), Rest(x));
    ShiftBitLinear(Xor(c, TopBit(Top(x))), Rest(x));
    EnterUnfolds(c, Top(x));
  }

  function Rest(x: bv16): bv16 { x & 0x7FFF }

  lemma TopAndRest(x: bv16)
    ensures x == Xor(TopBit(Top(x)), Rest(x)) && ShiftBit(Rest(x)) == Left(x)
  {}

  lemma XorRegroup(a: bv16, b: bv16, c: bv16)
    ensures Xor(a, Xor(b, c)) == Xor(Xor(a, b), c)
  {}

  lemma EnterUnfolds(c: bv16, b: bool)
    ensures Enter(c, b) == ShiftBit(Xor(c, TopBit(b)))
  {}

  lemma {:induction false} ShiftEnters(c: bv16, v: byte, k: nat)
    requires k <= 8
    ensures Shift(Xor(c, Raise(v)), k) == Xor(EnterAll(c, Bits8(v)[..k]), LeftN(Raise(v), k))
    decreases k
  {
    hide Xor, Raise, Left, Top, ShiftBit, Enter, Bits8;
    if k > 0 {
      ShiftEnters(c, v, k - 1);
      var bits := Bits8(v)[..k];
      assert bits[..k - 1] == Bits8(v)[..k - 1] && bits[k - 1] == BitAt(Raise(v), k - 1);
      ShiftTogether(EnterAll(c, bits[..k - 1]), LeftN(Raise(v), k - 1));
    }
  }

  lemma XorNothing(c: bv16)
    ensures Xor(c, 0) == c
  {}

  /** One byte into the register is its eight bits, from the highest down. */
  lemma UpdateEnters(c: bv16, v: byte)
    ensures Update(c, v) == EnterAll(c, Bits8(v))
  {
    hide Xor, Raise, Left, Top, ShiftBit, Enter, Bits8, LeftN, Shift;
    ShiftEnters(c, v, 8);
    ShiftedOut(c, v);
    assert Bits8(v)[..8] == Bits8(v);
    XorNothing(EnterAll(c, Bits8(v)));
  }

  /** One byte into the register divides once more: the new register is the remainder of the old one at the
      head of the byte. */
  lemma UpdateIsRemainder(c: bv16, v: byte) returns (q: Poly)
    ensures Divides(Dividend(c, Bits8(v)), q, Bits16(Update(c, v)))
    ensures forall q', r :: Divides(Dividend(c, Bits8(v)), q', r) ==> r == Bits16(Update(c, v))
  {
    hide Divides, Dividend, Bits16, Bits8, Update, EnterAll;
    UpdateEnters(c, v);
    q := BitsAreDivided(c, Bits8(v));
    var p := Dividend(c, Bits8(v));
    forall q', r | Divides(p, q', r) ensures r == Bits16(Update(c, v)) {
      DivisionIsUnique(p, q, Bits16(Update(c, v)), q', r);
    }
  }

  /** The bits of a message, each byte from its highest bit down. */
  function MessageBits(message: seq<byte>): (w: Poly)
    ensures |w| == 8 * |message|
    decreases |message|
  {
    if message == [] then [] else Bits8(message[0]) + MessageBits(message[1..])
  }

  lemma {:induction false} EnterConcat(c: bv16, a: Poly, b: Poly)
    ensures EnterAll(c, a + b) == EnterAll(EnterAll(c, a), b)
    decreases |b|
  {
    hide Enter;
    if b == [] {
      assert a + b == a;
    } else {
      assert (a + b)[..|a + b| - 1] == a + b[..|b| - 1];
      EnterConcat(c, a, b[..|b| - 1]);
    }
  }

  lemma {:induction false} CrcEnters(c: bv16, message: seq<byte>)
    ensures Crc(c, message) == EnterAll(c, MessageBits(message))
    decreases |message|
  {
    hide Enter, Update, Bits8, EnterAll;
    if message == [] {
      NothingEnters(c);
    } else {
      UpdateEnters(c, message[0]);
      EnterConcat(c, Bits8(message[0]), MessageBits(message[1..]));
      CrcEnters(Update(c, message[0]), message[1..]);
    }
  }

  lemma NothingEnters(c: bv16)
    ensures EnterAll(c, []) == c
  {}

  /** The checksum is the remainder, on division by x^16 + x^12 + x^5 + 1, of the message shifted up by 16
      bits with the start value added at its head. */
  lemma CrcIsRemainder(c: bv16, message: seq<byte>) returns (q: Poly)
    ensures Divides(Dividend(c, MessageBits(message)), q, Bits16(Crc(c, message)))
    ensures forall q', r :: Divides(Dividend(c, MessageBits(message)), q', r) ==> r == Bits16(Crc(c, message))
  {
    hide Divides, Dividend, Bits16, MessageBits, Crc, EnterAll;
    CrcEnters(c, message);
    q := BitsAreDivided(c, MessageBits(message));
    var p := Dividend(c, MessageBits(message));
    forall q', r | Divides(p, q', r) ensures r == Bits16(Crc(c, message)) {
      DivisionIsUnique(p, q, Bits16(Crc(c, message)), q', r);
    }
  }
}
