/** The error objects the host answers with: one JSON text in ASCII that always fits a response frame. */
module ErrorObject {
  import opened Basics
  import opened Octets
  import opened Frame

  // ----- writing them

  function Ascii(s: string): (b: seq<byte>)
    ensures |b| == |s|
  {
    seq(|s|, i requires 0 <= i < |s| => ByteOf(s[i] as int))
  }

  function Hex(n: nat): byte { if n % 16 < 10 then ByteOf(48 + n % 16) else ByteOf(87 + n % 16) }

  function Unit(n: nat): (b: seq<byte>)
    ensures |b| == 6
  {
    [0x5C, 0x75, Hex(n / 4096), Hex(n / 256), Hex(n / 16), Hex(n)]
  }

  /** Text as the host sees it: code points, unpaired surrogates among them. */
  type Point = x: int | 0 <= x < 0x11_0000
  type Text = seq<Point>

  function Plain(s: string): (t: Text)
    ensures |t| == |s|
  {
    seq(|s|, i requires 0 <= i < |s| => s[i] as int)
  }

  /** One character of a JSON string, ASCII only: at most 12 bytes. */
  function Escape(v: Point): (b: seq<byte>)
    ensures 1 <= |b| <= 12
  {
    if v == 34 then [0x5C, 0x22] else if v == 92 then [0x5C, 0x5C]
    else if v == 10 then [0x5C, 0x6E] else if v == 13 then [0x5C, 0x72] else if v == 9 then [0x5C, 0x74]
    else if v == 8 then [0x5C, 0x62] else if v == 12 then [0x5C, 0x66]
    else if 32 <= v <= 126 then [ByteOf(v)]
    else if v < 0x1_0000 then Unit(v)
    else Unit(0xD800 + (v - 0x1_0000) / 1024) + Unit(0xDC00 + (v - 0x1_0000) % 1024)
  }

  function Escaped(s: Text): seq<byte>
  {
    if s == [] then [] else Escape(s[0]) + Escaped(s[1..])
  }

  lemma {:induction false} EscapedSize(s: Text)
    ensures |s| <= |Escaped(s)| <= 12 * |s|
  {
    if s != [] { EscapedSize(s[1..]); }
  }

  function Dump(code: Text, message: Text): seq<byte>
  {
    Ascii("{\"error\":{\"code\":\"") + Escaped(code) + Ascii("\",\"message\":\"") + Escaped(message) + Ascii("\"}}")
  }

  function Clip(s: Text, n: nat): Text { if |s| > n then s[..n] else s }

  /** The longest clipping of the message that fits, as the shrink loop finds it. */
  function Shrunk(code: Text, message: Text): Text
  {
    if |Dump(code, message)| <= MAX_RESPONSE_PAYLOAD || message == [] then message
    else Shrunk(code, message[..|message| - 1])
  }

  function ErrorPayload(code: Text, message: Text): seq<byte>
  {
    Dump(Clip(code, 32), Shrunk(Clip(code, 32), Clip(message, 96)))
  }

  lemma EmptyMessageFits(code: Text)
    requires |code| <= 32
    ensures |Dump(code, [])| <= 34 + 12 * 32
  {
    EscapedSize(code);
  }

  lemma {:induction false} ShrunkFits(code: Text, message: Text)
    requires |code| <= 32
    ensures |Dump(code, Shrunk(code, message))| <= MAX_RESPONSE_PAYLOAD
    ensures Shrunk(code, message) <= message
    decreases |message|
  {
    hide Dump;
    EmptyMessageFits(code);
    if |Dump(code, message)| > MAX_RESPONSE_PAYLOAD && message != [] {
      ShrunkFits(code, message[..|message| - 1]);
    }
  }

  /** Error objects always fit, whatever the code and message. */
  lemma ErrorsFit(code: Text, message: Text)
    ensures |ErrorPayload(code, message)| <= MAX_RESPONSE_PAYLOAD
  {
    ShrunkFits(Clip(code, 32), Clip(message, 96));
  }

  // ----- reading them

  /** What a reader takes from the front of a text, or that it is not there. */
  datatype Taken<T> = Refused | Took(value: T, rest: seq<byte>)

  function DigitValue(b: byte): Option<nat> { DigitOf(IntOf(b)) }

  function DigitOf(v: nat): Option<nat>
  {
    if 48 <= v <= 57 then Some(v - 48)
    else if 97 <= v <= 102 then Some(v - 87)
    else if 65 <= v <= 70 then Some(v - 55)
    else None
  }

  /** Four hexadecimal digits. */
  function ReadHex(s: seq<byte>): (r: Taken<nat>)
    ensures r.Took? ==> |r.rest| < |s|
  {
    if |s| < 4 then Refused else
    var a, b, c, d := DigitValue(s[0]), DigitValue(s[1]), DigitValue(s[2]), DigitValue(s[3]);
    if a.None? || b.None? || c.None? || d.None? then Refused
    else Took(((a.value * 16 + b.value) * 16 + c.value) * 16 + d.value, s[4..])
  }

  /** One 16-bit unit of a JSON string in ASCII. */
  function ReadUnit(s: seq<byte>): (r: Taken<nat>)
    ensures r.Took? ==> |r.rest| < |s|
  {
    if s == [] then Refused
    else if IntOf(s[0]) != 92 then
      if 32 <= IntOf(s[0]) <= 126 && IntOf(s[0]) != 34 then Took(IntOf(s[0]), s[1..]) else Refused
    else if |s| == 1 then Refused
    else
      var e := IntOf(s[1]);
      if e == 34 || e == 47 || e == 92 then Took(e, s[2..])
      else if e == 98 then Took(8, s[2..])
      else if e == 102 then Took(12, s[2..])
      else if e == 110 then Took(10, s[2..])
      else if e == 114 then Took(13, s[2..])
      else if e == 116 then Took(9, s[2..])
      else if e == 117 then ReadHex(s[2..])
      else Refused
  }

  /** The units of a string, up to its closing quote. */
  function ReadText(s: seq<byte>): Taken<seq<nat>>
    decreases |s|
  {
    if s != [] && IntOf(s[0]) == 34 then Took([], s[1..]) else
    match ReadUnit(s)
    case Refused => Refused
    case Took(unit, rest) =>
      match ReadText(rest)
      case Refused => Refused
      case Took(units, rest') => Took([unit] + units, rest')
  }

  /** The text begins with these ASCII characters. */
  predicate Spells(s: seq<byte>, word: string)
  {
    |word| <= |s| && forall i :: 0 <= i < |word| ==> IntOf(s[i]) == word[i] as int
  }

  /** The two fields of an error object. */
  datatype Fields = Fields(code: seq<nat>, message: seq<nat>)

  /** Read an error object; `None` if the text is not one. */
  function ReadError(s: seq<byte>): Option<Fields>
  {
    if !Spells(s, "{\"error\":{\"code\":\"") then None else
    var code := ReadText(s[18..]);
    if code.Refused? || !Spells(code.rest, ",\"message\":\"") then None else
    var message := ReadText(code.rest[12..]);
    if message.Refused? || !Spells(message.rest, "}}") || |message.rest| != 2 then None
    else Some(Fields(code.value, message.value))
  }

  /** A code point as UTF-16 units. */
  function PointUnits(v: Point): seq<nat>
  {
    if v < 0x1_0000 then [v] else [0xD800 + (v - 0x1_0000) / 1024, 0xDC00 + (v - 0x1_0000) % 1024]
  }

  function Units(text: Text): seq<nat>
  {
    if text == [] then [] else PointUnits(text[0]) + Units(text[1..])
  }

  // ----- what is written is what is read

  lemma Letters()
    ensures IntOf(0x5C) == 92 && IntOf(0x22) == 34 && IntOf(0x75) == 117 && IntOf(0x6E) == 110
    ensures IntOf(0x72) == 114 && IntOf(0x74) == 116 && IntOf(0x62) == 98 && IntOf(0x66) == 102
  {}

  lemma HexReads(n: nat)
    ensures DigitValue(Hex(n)) == Some(n % 16)
  {
    hide IntOf, ByteOf;
    IntOfByteOf(48 + n % 16);
    IntOfByteOf(87 + n % 16);
  }

  lemma FourDigits(n: nat)
    requires n < 0x1_0000
    ensures ((n / 4096 % 16 * 16 + n / 256 % 16) * 16 + n / 16 % 16) * 16 + n % 16 == n
  {
    var a := n / 16;
    var b := a / 16;
    var c := b / 16;
    assert b == n / 256 && c == n / 4096;
  }

  lemma UnitReads(n: nat, rest: seq<byte>)
    requires n < 0x1_0000
    ensures ReadUnit(Unit(n) + rest) == Took(n, rest)
  {
    hide IntOf, DigitValue, Hex;
    Letters();
    var s := Unit(n) + rest;
    HexReads(n / 4096); HexReads(n / 256); HexReads(n / 16); HexReads(n);
    FourDigits(n);
    assert s[2..][4..] == rest;
  }

  lemma PlainReads(v: nat, rest: seq<byte>)
    requires 32 <= v <= 126 && v != 34 && v != 92
    ensures ReadUnit([ByteOf(v)] + rest) == Took(v, rest)
  {
    hide IntOf, ByteOf;
    IntOfByteOf(v);
    assert ([ByteOf(v)] + rest)[1..] == rest;
  }

  lemma ShortReads(e: byte, v: nat, rest: seq<byte>)
    requires (e, v) in {(0x22, 34), (0x5C, 92), (0x6E, 10), (0x72, 13), (0x74, 9), (0x62, 8), (0x66, 12)}
    ensures ReadUnit([0x5C, e] + rest) == Took(v, rest)
  {
    hide IntOf;
    Letters();
    assert ([0x5C, e] + rest)[2..] == rest;
  }

  /** One unit more in front. */
  lemma TextStep(s: seq<byte>, unit: nat, rest: seq<byte>)
    requires ReadUnit(s) == Took(unit, rest)
    ensures ReadText(s) == match ReadText(rest) case Refused => Refused case Took(units, rest') => Took([unit] + units, rest')
  {
    hide IntOf, ReadHex;
  }

  lemma PointReads(v: Point, rest: seq<byte>, units: seq<nat>, rest': seq<byte>)
    requires ReadText(rest) == Took(units, rest')
    ensures ReadText(Escape(v) + rest) == Took(PointUnits(v) + units, rest')
  {
    hide IntOf, ReadUnit, ReadText, Unit, ByteOf;
    if v >= 0x1_0000 {
      var h, l := 0xD800 + (v - 0x1_0000) / 1024, 0xDC00 + (v - 0x1_0000) % 1024;
      UnitReads(l, rest);
      UnitReads(h, Unit(l) + rest);
      assert Escape(v) + rest == Unit(h) + (Unit(l) + rest);
      TextStep(Unit(l) + rest, l, rest);
      TextStep(Unit(h) + (Unit(l) + rest), h, Unit(l) + rest);
      assert PointUnits(v) + units == [h] + ([l] + units);
    } else {
      SmallReads(v, rest);
      TextStep(Escape(v) + rest, v, rest);
    }
  }

  lemma SmallReads(v: Point, rest: seq<byte>)
    requires v < 0x1_0000
    ensures ReadUnit(Escape(v) + rest) == Took(v, rest)
  {
    hide IntOf, ReadUnit, Unit, ByteOf;
    if v == 34 { ShortReads(0x22, 34, rest); }
    else if v == 92 { ShortReads(0x5C, 92, rest); }
    else if v == 10 { ShortReads(0x6E, 10, rest); }
    else if v == 13 { ShortReads(0x72, 13, rest); }
    else if v == 9 { ShortReads(0x74, 9, rest); }
    else if v == 8 { ShortReads(0x62, 8, rest); }
    else if v == 12 { ShortReads(0x66, 12, rest); }
    else if 32 <= v <= 126 { PlainReads(v, rest); }
    else { UnitReads(v, rest); }
  }

  lemma QuoteReads(s: seq<byte>, rest: seq<byte>)
    requires |s| >= 1 && IntOf(s[0]) == 34 && rest == s[1..]
    ensures ReadText(s) == Took([], rest)
  {
    hide IntOf;
  }

  /** Escaping loses nothing: up to the closing quote the units of the text are read back. */
  lemma {:induction false} EscapedReads(text: Text, tail: seq<byte>)
    requires |tail| >= 1 && IntOf(tail[0]) == 34
    ensures ReadText(Escaped(text) + tail) == Took(Units(text), tail[1..])
  {
    hide IntOf, ReadText, Escape, PointUnits;
    if text == [] {
      assert Escaped(text) + tail == tail;
      QuoteReads(tail, tail[1..]);
    } else {
      EscapedReads(text[1..], tail);
      PointReads(text[0], Escaped(text[1..]) + tail, Units(text[1..]), tail[1..]);
      assert Escaped(text) + tail == Escape(text[0]) + (Escaped(text[1..]) + tail);
    }
  }

  lemma AsciiSpells(word: string, rest: seq<byte>)
    requires forall i :: 0 <= i < |word| ==> word[i] as int < 256
    ensures Spells(Ascii(word) + rest, word) && (Ascii(word) + rest)[|word|..] == rest
  {
    hide IntOf, ByteOf;
    forall i | 0 <= i < |word| ensures IntOf((Ascii(word) + rest)[i]) == word[i] as int { IntOfByteOf(word[i] as int); }
  }

  /** A quote, and then the word. */
  lemma QuotedSpells(word: string, rest: seq<byte>)
    requires forall i :: 0 <= i < |word| ==> word[i] as int < 256
    ensures var s := Ascii("\"" + word) + rest;
            IntOf(s[0]) == 34 && Spells(s[1..], word) && s[1..][|word|..] == rest
  {
    hide IntOf, ByteOf;
    var s, quoted := Ascii("\"" + word) + rest, "\"" + word;
    AsciiSpells(quoted, rest);
    forall i | 0 <= i < |word| ensures IntOf(s[1..][i]) == word[i] as int { assert quoted[i + 1] == word[i]; }
  }

  lemma DumpReads(code: Text, message: Text)
    ensures ReadError(Dump(code, message)) == Some(Fields(Units(code), Units(message)))
  {
    hide IntOf, ReadText, Escaped, Units, Ascii, Spells;
    var end := Ascii("\"" + "}}");
    var middle := Ascii("\"" + ",\"message\":\"") + (Escaped(message) + end);
    assert "\"" + "}}" == "\"}}" && "\"" + ",\"message\":\"" == "\",\"message\":\"";
    assert Dump(code, message) == Ascii("{\"error\":{\"code\":\"") + (Escaped(code) + middle);
    AsciiSpells("{\"error\":{\"code\":\"", Escaped(code) + middle);
    QuotedSpells(",\"message\":\"", Escaped(message) + end);
    EscapedReads(code, middle);
    QuotedSpells("}}", []);
    assert end + [] == end;
    EscapedReads(message, end);
  }

  /** An error object whose code is the first 32 characters of `code`, and whose message is the first `k` of
      `message`: 96 of them, or as many as fit. */
  predicate SaysFirst(s: seq<byte>, code: Text, message: Text, k: nat)
  {
    var c, most := code[..Min(|code|, 32)], Min(|message|, 96);
    && |s| <= MAX_RESPONSE_PAYLOAD && k <= most
    && ReadError(s) == Some(Fields(Units(c), Units(message[..k])))
    && (k < most ==> |Dump(c, message[..k + 1])| > MAX_RESPONSE_PAYLOAD)
  }

  ghost predicate Says(s: seq<byte>, code: Text, message: Text)
  {
    exists k :: SaysFirst(s, code, message, k)
  }

  lemma {:induction false} ShrunkIsLongest(code: Text, message: Text)
    ensures var m := Shrunk(code, message);
            m <= message && (|m| < |message| ==> |Dump(code, message[..|m| + 1])| > MAX_RESPONSE_PAYLOAD)
    decreases |message|
  {
    hide Dump;
    if |Dump(code, message)| > MAX_RESPONSE_PAYLOAD && message != [] {
      var less := message[..|message| - 1];
      ShrunkIsLongest(code, less);
      var m := Shrunk(code, message);
      if |m| == |less| { assert message[..|m| + 1] == message; } else { assert message[..|m| + 1] == less[..|m| + 1]; }
    }
  }

  /** Every error object says what it was made to say. */
  lemma ErrorSays(code: Text, message: Text)
    ensures Says(ErrorPayload(code, message), code, message)
  {
    hide Dump, ReadError, Units, Shrunk;
    var c, most := Clip(code, 32), Clip(message, 96);
    assert c == code[..Min(|code|, 32)] && most == message[..Min(|message|, 96)];
    var m := Shrunk(c, most);
    ErrorsFit(code, message);
    ShrunkIsLongest(c, most);
    DumpReads(c, m);
    assert m == message[..|m|];
    if |m| < |most| { assert message[..|m| + 1] == most[..|m| + 1]; }
    assert SaysFirst(ErrorPayload(code, message), code, message, |m|);
  }

  lemma SaidFirst(s: seq<byte>, code: Text, message: Text, k: nat)
    requires SaysFirst(s, code, message, k) && |code| <= 32 && |code| + |message| <= 82
    ensures ReadError(s) == Some(Fields(Units(code), Units(message)))
  {
    hide ReadError, Units, Dump;
    assert code[..Min(|code|, 32)] == code && message[..|message|] == message;
    if k < |message| { ShortFits(code, message[..k + 1]); }
  }

  lemma ShortFits(code: Text, message: Text)
    requires |code| + |message| <= 82
    ensures |Dump(code, message)| <= MAX_RESPONSE_PAYLOAD
  {
    EscapedSize(code);
    EscapedSize(message);
  }

  /** Short codes and messages are said in full. */
  lemma SaidInFull(s: seq<byte>, code: Text, message: Text)
    requires Says(s, code, message) && |code| <= 32 && |code| + |message| <= 82
    ensures ReadError(s) == Some(Fields(Units(code), Units(message)))
  {
    hide ReadError, Units, SaysFirst;
    var k :| SaysFirst(s, code, message, k);
    SaidFirst(s, code, message, k);
  }

  method ErrorResponse(code: Text, message: Text) returns (payload: seq<byte>)
    ensures payload == ErrorPayload(code, message) && |payload| <= MAX_RESPONSE_PAYLOAD
    ensures Says(payload, code, message)
  {
    hide Dump, Says;
    var c, m := Clip(code, 32), Clip(message, 96);
    ErrorsFit(code, message);
    ErrorSays(code, message);
    while |Dump(c, m)| > MAX_RESPONSE_PAYLOAD
      invariant Shrunk(c, m) == Shrunk(c, Clip(message, 96))
      decreases |m|
    {
      EmptyMessageFits(c);
      m := m[..|m| - 1];
    }
    payload := Dump(c, m);
  }
}
