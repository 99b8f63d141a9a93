/** The shell's command history: a ring of 32 lines that skips consecutive duplicates. */
module History {
  import opened Basics

  const MAX_HISTORY := 32
  const MAX_LINE := 128

  type Line = seq<byte>

  /** The unbounded history: a line is added unless it repeats the one before. */
  function Add(h: seq<Line>, line: Line): seq<Line>
  {
    if h != [] && h[|h| - 1] == line then h else h + [line]
  }

  function Recorded(lines: seq<Line>): seq<Line>
  {
    if lines == [] then [] else Add(Recorded(lines[..|lines| - 1]), lines[|lines| - 1])
  }

  /** The sequence with runs of equal lines collapsed to one. */
  function Collapsed(lines: seq<Line>): seq<Line>
  {
    if lines == [] then []
    else if |lines| > 1 && lines[|lines| - 2] == lines[|lines| - 1] then Collapsed(lines[..|lines| - 1])
    else Collapsed(lines[..|lines| - 1]) + [lines[|lines| - 1]]
  }

  /** Comparing with the last recorded line is comparing with the last line typed. */
  lemma {:induction false} RecordedIsCollapsed(lines: seq<Line>)
    ensures Recorded(lines) == Collapsed(lines)
    ensures lines != [] ==> Recorded(lines) != [] && Recorded(lines)[|Recorded(lines)| - 1] == lines[|lines| - 1]
  {
    if lines != [] {
      RecordedIsCollapsed(lines[..|lines| - 1]);
    }
  }

  function LastOf(h: seq<Line>, n: nat): seq<Line>
  {
    if |h| <= n then h else h[|h| - n..]
  }

  /** Row of the `i`-th oldest line kept. */
  function RowOf(head: nat, count: nat, i: nat): (k: nat)
    requires head < MAX_HISTORY && count <= MAX_HISTORY
    ensures k < MAX_HISTORY
  {
    ((head - count + MAX_HISTORY) % MAX_HISTORY + i) % MAX_HISTORY
  }

  class Ring {
    const buf: array<seq<byte>>  // 32 rows of 128 bytes
    const lens: array<nat>
    var head: nat
    var count: nat
    ghost var full: seq<Line>  // every line recorded so far

    ghost predicate Shape()
      reads this, buf, lens
    {
      && buf.Length == MAX_HISTORY && lens.Length == MAX_HISTORY && head < MAX_HISTORY && count <= MAX_HISTORY
      && forall i :: 0 <= i < MAX_HISTORY ==> |buf[i]| == MAX_LINE && lens[i] <= MAX_LINE
    }

    function LineAt(k: nat): Line
      reads this, buf, lens
      requires Shape() && k < MAX_HISTORY
    {
      buf[k][..lens[k]]
    }

    /** The ring holds the last lines recorded, oldest first. */
    ghost predicate Valid()
      reads this, buf, lens
    {
      && Shape() && count == |LastOf(full, MAX_HISTORY)|
      && forall i :: 0 <= i < count ==> LineAt(RowOf(head, count, i)) == LastOf(full, MAX_HISTORY)[i]
    }

    constructor ()
      ensures Valid() && full == [] && fresh(buf) && fresh(lens)
    {
      buf := new seq<byte>[MAX_HISTORY](_ => seq(MAX_LINE, _ => 0));
      lens := new nat[MAX_HISTORY](_ => 0);
      head, count, full := 0, 0, [];
    }

    method IsDuplicate(line: Line) returns (dup: bool)
      requires Valid() && |line| <= MAX_LINE
      ensures dup <==> full != [] && full[|full| - 1] == line
    {
      if count == 0 { return false; }
      var lastIdx := (head - 1 + MAX_HISTORY) % MAX_HISTORY;
      NewestRow(head, count);
      assert LineAt(lastIdx) == full[|full| - 1];
      if lens[lastIdx] != |line| { return false; }
      for i := 0 to |line|
        invariant buf[lastIdx][..i] == line[..i]
      {
        if buf[lastIdx][i] != line[i] {
          assert LineAt(lastIdx)[i] != line[i];
          return false;
        }
      }
      return true;
    }

    /** Overwrite the start of a row. */
    method StoreRow(idx: nat, line: Line)
      requires Shape() && idx < MAX_HISTORY && |line| <= MAX_LINE
      modifies buf, lens
      ensures Shape() && LineAt(idx) == line
      ensures forall k :: 0 <= k < MAX_HISTORY && k != idx ==> LineAt(k) == old(LineAt(k))
    {
      for i := 0 to |line|
        invariant forall k :: 0 <= k < MAX_HISTORY ==> |buf[k]| == MAX_LINE && (k != idx ==> buf[k] == old(buf[k]))
        invariant buf[idx][..i] == line[..i]
        modifies buf
      {
        buf[idx] := buf[idx][i := line[i]];
        assert buf[idx][..i + 1] == line[..i + 1];
      }
      lens[idx] := |line|;
    }

    method Record(line: Line)
      requires Valid() && |line| <= MAX_LINE
      modifies this, buf, lens
      ensures Valid() && full == if line == [] then old(full) else Add(old(full), line)
    {
      hide RowOf;
      if |line| == 0 { return; }
      var dup := IsDuplicate(line);
      if dup { return; }
      StoreRow(head, line);
      forall k | 0 <= k < MAX_HISTORY && k != head ensures LineAt(k) == old(LineAt(k)) {}
      ghost var kept := LastOf(full, MAX_HISTORY);
      Advance();
      full := full + [line];
      forall i | 0 <= i < count ensures LineAt(RowOf(head, count, i)) == LastOf(full, MAX_HISTORY)[i] {
        RingStep(old(head), old(count), i);
      }
    }

    method Advance()
      requires head < MAX_HISTORY && count <= MAX_HISTORY
      modifies this`head, this`count
      ensures head == (old(head) + 1) % MAX_HISTORY
      ensures count == if old(count) < MAX_HISTORY then old(count) + 1 else old(count)
    {
      head := (head + 1) % MAX_HISTORY;
      if count < MAX_HISTORY {
        count := count + 1;
      }
    }

    /** The lines `printHistory` writes, in order. */
    method List() returns (lines: seq<Line>)
      requires Valid()
      ensures lines == LastOf(full, MAX_HISTORY)
    {
      var startIdx := (head - count + MAX_HISTORY) % MAX_HISTORY;
      lines := [];
      for i := 0 to count
        invariant lines == LastOf(full, MAX_HISTORY)[..i]
      {
        var idx := (startIdx + i) % MAX_HISTORY;
        assert idx == RowOf(head, count, i);
        lines := lines + [buf[idx][..lens[idx]]];
      }
    }
  }

  lemma NewestRow(head: nat, count: nat)
    requires head < MAX_HISTORY && 0 < count <= MAX_HISTORY
    ensures RowOf(head, count, count - 1) == (head - 1 + MAX_HISTORY) % MAX_HISTORY
  {}

  /** Where line `i` of the new ring was in the old one; the newest is in the row just written. */
  lemma RingStep(head: nat, count: nat, i: nat)
    requires head < MAX_HISTORY && count <= MAX_HISTORY
    requires i < if count < MAX_HISTORY then count + 1 else count
    ensures var count' := if count < MAX_HISTORY then count + 1 else count;
            var k := RowOf((head + 1) % MAX_HISTORY, count', i);
            if i == count' - 1 then k == head
            else k != head && k == RowOf(head, count, if count < MAX_HISTORY then i else i + 1)
  {
    hide RowOf;
    var count' := if count < MAX_HISTORY then count + 1 else count;
    RowCases((head + 1) % MAX_HISTORY, count', i);
    RowCases(head, count, if count < MAX_HISTORY then Min(i, count) else Min(i + 1, count));
  }

  lemma RowCases(head: nat, count: nat, i: nat)
    requires head < MAX_HISTORY && count <= MAX_HISTORY && i <= count
    ensures var v := head - count + i;
            RowOf(head, count, i) == if v < 0 then v + MAX_HISTORY else v
  {}

  function NonEmpty(lines: seq<Line>): seq<Line>
  {
    if lines == [] then []
    else NonEmpty(lines[..|lines| - 1]) + if lines[|lines| - 1] == [] then [] else [lines[|lines| - 1]]
  }

  /** After any lines, `history` lists the last 32 non-empty ones with repeats collapsed, oldest first. */
  method Session(commands: seq<Line>) returns (listing: seq<Line>)
    requires forall i :: 0 <= i < |commands| ==> |commands[i]| <= MAX_LINE
    ensures listing == LastOf(Collapsed(NonEmpty(commands)), MAX_HISTORY)
  {
    var ring := new Ring();
    for i := 0 to |commands|
      invariant ring.Valid() && fresh(ring) && fresh(ring.buf) && fresh(ring.lens)
      invariant ring.full == Recorded(NonEmpty(commands[..i]))
    {
      ring.Record(commands[i]);
      RecordedStep(commands, i);
    }
    assert commands[..|commands|] == commands;
    RecordedIsCollapsed(NonEmpty(commands));
    listing := ring.List();
  }

  lemma RecordedStep(lines: seq<Line>, i: nat)
    requires i < |lines|
    ensures var h := Recorded(NonEmpty(lines[..i]));
            Recorded(NonEmpty(lines[..i + 1])) == if lines[i] == [] then h else Add(h, lines[i])
  {
    var before, line := NonEmpty(lines[..i]), lines[i];
    assert lines[..i + 1][..i] == lines[..i];
    if line == [] {
      assert before + [] == before;
    } else {
      assert (before + [line])[..|before|] == before;
    }
  }
}
