/** The text screen: 25 rows of 80 cells that scroll. */
module Terminal {
  const WIDTH := 80
  const HEIGHT := 25
  const BACKSPACE := 8
  const NEWLINE := 10
  const SPACE := 32

  datatype Cell = Cell(ch: nat, color: nat)
  type Row = seq<Cell>

  // ----- the unbounded transcript

  /** Rows of characters wrapped at 80 columns; the last row is the one being written. */
  type Transcript = seq<seq<nat>>

  /** Everything written, and how many of its rows have scrolled off for good. */
  datatype Document = Document(rows: Transcript, top: nat)

  const EMPTY := Document([[]], 0)

  function Put(t: Transcript, ch: nat): (r: Transcript)
    requires t != []
    ensures r != []
  {
    var n := |t| - 1;
    if ch == NEWLINE then t + [[]]
    else
      var line := t[n] + [ch % 256];
      if |line| >= WIDTH then t[n := line] + [[]] else t[n := line]
  }

  /** The row above, once the cursor has gone back to its last column and erased it. */
  function Reopened(line: seq<nat>): (r: seq<nat>)
    ensures |r| == WIDTH - 1
  {
    seq(WIDTH - 1, c requires 0 <= c < WIDTH - 1 => if c < |line| then line[c] else SPACE)
  }

  /** Erasing takes back a character, or else reopens the row above if that is still on the screen. */
  function Erase(d: Document): (r: Document)
    requires d.rows != []
    ensures r.rows != []
  {
    var n := |d.rows| - 1;
    if d.rows[n] != [] then d.(rows := d.rows[n := d.rows[n][..|d.rows[n]| - 1]])
    else if n > d.top then d.(rows := d.rows[..n - 1] + [Reopened(d.rows[n - 1])])
    else d
  }

  /** At most 25 rows are on the screen. */
  function Scrolled(rows: Transcript, top: nat): nat
  {
    if |rows| > top + HEIGHT then top + 1 else top
  }

  function Type(d: Document, ch: nat): (r: Document)
    requires d.rows != []
    ensures r.rows != []
  {
    if ch == BACKSPACE then Erase(d) else
    var rows := Put(d.rows, ch);
    Document(rows, Scrolled(rows, d.top))
  }

  /** Rows are full-width at most, the one being written is not yet full, and it is on the screen. */
  predicate Wrapped(d: Document)
  {
    && d.rows != [] && (forall i :: 0 <= i < |d.rows| ==> |d.rows[i]| <= WIDTH) && |d.rows[|d.rows| - 1]| < WIDTH
    && d.top < |d.rows| <= d.top + HEIGHT
  }

  lemma TypeWraps(d: Document, ch: nat)
    requires Wrapped(d)
    ensures Wrapped(Type(d, ch))
  {
    var n := |d.rows| - 1;
    if ch == BACKSPACE && d.rows[n] == [] && n > d.top {
      var rows := d.rows[..n - 1] + [Reopened(d.rows[n - 1])];
      assert rows[|rows| - 1] == Reopened(d.rows[n - 1]);
    }
  }

  /** A transcript row on the screen: its characters, then blanks. */
  function Padded(line: seq<nat>, color: nat): (r: Row)
    ensures |r| == WIDTH
  {
    seq(WIDTH, c requires 0 <= c < WIDTH => Cell(if c < |line| then line[c] else SPACE, color))
  }

  function Blank(color: nat): Row { Padded([], color) }

  /** What screen row `r` must show. */
  function Shown(d: Document, r: nat, color: nat): Row
  {
    if d.top + r < |d.rows| then Padded(d.rows[d.top + r], color) else Blank(color)
  }

  class Screen {
    const vidMem: array<Row>
    var row: nat
    var column: nat
    const color: nat
    ghost var written: Document

    ghost predicate Shape()
      reads this, vidMem
    {
      && vidMem.Length == HEIGHT && row < HEIGHT && column < WIDTH
      && forall r :: 0 <= r < HEIGHT ==> |vidMem[r]| == WIDTH
    }

    /** The screen shows the rows of `d` that have not scrolled off, the cursor on the last one. */
    ghost predicate Displays(d: Document)
      reads this`row, vidMem
      requires vidMem.Length == HEIGHT
    {
      d.top + row + 1 == |d.rows| && forall r :: 0 <= r < HEIGHT ==> vidMem[r] == Shown(d, r, color)
    }

    /** The screen shows the end of everything written, the cursor after it. */
    ghost predicate Valid()
      reads this, vidMem
    {
      Shape() && Wrapped(written) && Displays(written) && column == |written.rows[|written.rows| - 1]|
    }

    constructor (color: nat)
      ensures Valid() && fresh(vidMem) && written == EMPTY && this.color == color
    {
      this.color := color;
      vidMem := new Row[HEIGHT](_ => seq(WIDTH, _ => Cell(0, 0)));
      row, column := 0, 0;
      new;
      Clear();
    }

    method Clear()
      requires vidMem.Length == HEIGHT && forall r :: 0 <= r < HEIGHT ==> |vidMem[r]| == WIDTH
      modifies this`row, this`column, this`written, vidMem
      ensures Valid() && written == EMPTY
    {
      for r := 0 to HEIGHT
        invariant forall k :: 0 <= k < HEIGHT ==> |vidMem[k]| == WIDTH
        invariant forall k :: 0 <= k < r ==> vidMem[k] == Blank(color)
      {
        BlankRow(r);
      }
      column, row := 0, 0;
      written := EMPTY;
    }

    method BlankRow(r: nat)
      requires r < vidMem.Length && |vidMem[r]| == WIDTH
      modifies vidMem
      ensures vidMem[r] == Blank(color)
      ensures forall k :: 0 <= k < vidMem.Length && k != r ==> vidMem[k] == old(vidMem[k])
    {
      for c := 0 to WIDTH
        invariant |vidMem[r]| == WIDTH && vidMem[r][..c] == Blank(color)[..c]
        invariant forall k :: 0 <= k < vidMem.Length && k != r ==> vidMem[k] == old(vidMem[k])
      {
        vidMem[r] := vidMem[r][c := Cell(SPACE, color)];
        assert vidMem[r][..c + 1] == Blank(color)[..c + 1];
      }
      assert vidMem[r] == vidMem[r][..WIDTH];
    }

    method CopyRow(from: nat, to: nat)
      requires from < vidMem.Length && to < vidMem.Length && from != to && |vidMem[from]| == WIDTH && |vidMem[to]| == WIDTH
      modifies vidMem
      ensures vidMem[to] == vidMem[from]
      ensures forall k :: 0 <= k < vidMem.Length && k != to ==> vidMem[k] == old(vidMem[k])
    {
      for c := 0 to WIDTH
        invariant forall k :: 0 <= k < vidMem.Length && k != to ==> vidMem[k] == old(vidMem[k])
        invariant |vidMem[to]| == WIDTH && vidMem[to][..c] == vidMem[from][..c]
      {
        vidMem[to] := vidMem[to][c := vidMem[from][c]];
        assert vidMem[to][..c + 1] == vidMem[from][..c + 1];
      }
      assert vidMem[to] == vidMem[to][..WIDTH] && vidMem[from] == vidMem[from][..WIDTH];
    }

    method Scroll()
      requires Shape()
      modifies vidMem
      ensures Shape()
      ensures forall r :: 0 <= r < HEIGHT - 1 ==> vidMem[r] == old(vidMem[r + 1])
      ensures vidMem[HEIGHT - 1] == Blank(color)
    {
      for r := 1 to HEIGHT
        invariant forall k :: 0 <= k < HEIGHT ==> |vidMem[k]| == WIDTH
        invariant forall k :: 0 <= k < r - 1 ==> vidMem[k] == old(vidMem[k + 1])
        invariant forall k :: r - 1 <= k < HEIGHT ==> vidMem[k] == old(vidMem[k])
      {
        CopyRow(r, r - 1);
      }
      BlankRow(HEIGHT - 1);
    }

    /** Go to the start of the next row, scrolling at the bottom. */
    method NextRow(ghost d: Document)
      requires Shape()
      modifies this`row, this`column, vidMem
      ensures Shape() && column == 0
      ensures old(Displays(d)) ==> Displays(WithRow(d))
    {
      hide Shown;
      if Displays(d) { NewRowShown(d, color); }
      column := 0;
      if row + 1 >= HEIGHT {
        Scroll();
        row := HEIGHT - 1;
      } else {
        row := row + 1;
      }
    }

    /** Write one character and advance, wrapping at the right edge. */
    method PutChar(ch: nat, ghost d: Document)
      requires Shape() && d.rows != [] && ch != NEWLINE && ch != BACKSPACE
      modifies this`row, this`column, vidMem
      ensures Shape()
      ensures old(Displays(d)) && old(column) == |d.rows[|d.rows| - 1]| ==>
                Displays(Type(d, ch)) && column == |Type(d, ch).rows[|Type(d, ch).rows| - 1]|
    {
      hide Padded;
      ghost var n := |d.rows| - 1;
      ghost var d' := d.(rows := d.rows[n := d.rows[n] + [ch % 256]]);
      ghost var before := vidMem[..];
      vidMem[row] := vidMem[row][column := Cell(ch % 256, color)];
      if old(Displays(d)) && column == |d.rows[n]| {
        CellShown(d.rows[n], ch % 256, color);
        RowChanged(before, d, d');
      }
      column := column + 1;
      if column >= WIDTH {
        column := 0;
        NextRow(d');
      }
    }

    /** Replacing what row `row` shows replaces the document's last row. */
    lemma RowChanged(before: seq<Row>, d: Document, d': Document)
      requires Shape() && |before| == HEIGHT && d.top + row + 1 == |d.rows| == |d'.rows| && d'.top == d.top
      requires forall r :: 0 <= r < HEIGHT ==> before[r] == Shown(d, r, color)
      requires vidMem[row] == Padded(d'.rows[|d.rows| - 1], color)
      requires forall r :: 0 <= r < HEIGHT && r != row ==> vidMem[r] == before[r]
      requires forall i :: 0 <= i < |d.rows| - 1 ==> d'.rows[i] == d.rows[i]
      ensures Displays(d')
    {
      hide Padded;
      forall r | 0 <= r < HEIGHT ensures vidMem[r] == Shown(d', r, color) {
        assert r != row ==> before[r] == Shown(d, r, color);
      }
    }

    /** The cursor went back one place and blanked it. */
    lemma CharErased(before: seq<Row>, d: Document)
      requires Shape() && |before| == HEIGHT && |before[row]| == WIDTH && d.top + row + 1 == |d.rows|
      requires forall r :: 0 <= r < HEIGHT ==> before[r] == Shown(d, r, color)
      requires |d.rows[|d.rows| - 1]| == column + 1 && vidMem[row] == before[row][column := Cell(SPACE, color)]
      requires forall r :: 0 <= r < HEIGHT && r != row ==> vidMem[r] == before[r]
      ensures Displays(Erase(d)) && |Erase(d).rows[|Erase(d).rows| - 1]| == column
    {
      hide Padded;
      assert before[row] == Shown(d, row, color);
      ErasedShown(d.rows[|d.rows| - 1], color);
      RowChanged(before, d, Erase(d));
    }

    /** The cursor went up to the end of a row and blanked it. */
    lemma RowReopened(before: seq<Row>, d: Document)
      requires Shape() && |before| == HEIGHT && |before[row]| == WIDTH && d.top + row + 2 == |d.rows| && d.rows[|d.rows| - 1] == []
      requires forall r :: 0 <= r < HEIGHT ==> before[r] == Shown(d, r, color)
      requires vidMem[row] == before[row][WIDTH - 1 := Cell(SPACE, color)]
      requires forall r :: 0 <= r < HEIGHT && r != row ==> vidMem[r] == before[r]
      ensures Displays(Erase(d)) && |Erase(d).rows[|Erase(d).rows| - 1]| == WIDTH - 1
    {
      hide Padded;
      ReopenedShown(d.rows[|d.rows| - 2], color);
      forall r | 0 <= r < HEIGHT ensures vidMem[r] == Shown(Erase(d), r, color) {
        assert before[r] == Shown(d, r, color);
      }
    }

    method PutRune(ch: nat)
      requires Shape()
      modifies this`row, this`column, this`written, vidMem
      ensures Shape()
      ensures old(Valid()) ==> Valid() && written == Type(old(written), ch)
    {
      hide Shown, Type;
      if ch == BACKSPACE {
        if written.rows != [] { TypeBackspace(written); }
        Backspace();
        return;
      }
      ghost var d := if written.rows == [] then EMPTY else written;
      if Valid() { TypeWraps(d, ch); }
      TypeNewline(d);
      written := Type(d, ch);
      if ch == NEWLINE {
        NextRow(d);
      } else {
        PutChar(ch, d);
      }
    }

    /** Step back one cell and blank it; at the top left corner nothing happens. */
    method Backspace()
      requires Shape()
      modifies this`row, this`column, this`written, vidMem
      ensures Shape() && Position() == if old(Position()) == 0 then 0 else old(Position()) - 1
      ensures forall r, c :: 0 <= r < HEIGHT && 0 <= c < WIDTH ==>
                vidMem[r][c] == if old(Position()) > 0 && r == row && c == column then Cell(SPACE, color) else old(vidMem[r][c])
      ensures old(Valid()) ==> Valid() && written == Erase(old(written))
    {
      hide Shown, Erase;
      ghost var d, before, valid := if written.rows == [] then EMPTY else written, vidMem[..], Valid();
      if valid { EraseWraps(d); }
      written := Erase(d);
      if column > 0 {
        column := column - 1;
        vidMem[row] := vidMem[row][column := Cell(SPACE, color)];
        if valid { CharErased(before, d); }
      } else if row > 0 {
        row := row - 1;
        column := WIDTH - 1;
        vidMem[row] := vidMem[row][column := Cell(SPACE, color)];
        if valid { RowReopened(before, d); }
      }
    }

    ghost function Position(): nat
      reads this`row, this`column
    {
      row * WIDTH + column
    }
  }

  /** Writing one cell extends the shown row. */
  lemma CellShown(line: seq<nat>, ch: nat, color: nat)
    requires |line| < WIDTH
    ensures Padded(line, color)[|line| := Cell(ch, color)] == Padded(line + [ch], color)
  {}

  /** Blanking the last cell of a row takes its last character back. */
  lemma ErasedShown(line: seq<nat>, color: nat)
    requires 0 < |line| <= WIDTH
    ensures Padded(line, color)[|line| - 1 := Cell(SPACE, color)] == Padded(line[..|line| - 1], color)
  {}

  lemma ReopenedShown(line: seq<nat>, color: nat)
    ensures Padded(line, color)[WIDTH - 1 := Cell(SPACE, color)] == Padded(Reopened(line), color)
  {}

  /** The document after going to a new row. */
  function WithRow(d: Document): Document
  {
    Document(d.rows + [[]], Scrolled(d.rows + [[]], d.top))
  }

  /** Adding an empty row shifts the shown rows up once the screen is full, and never otherwise. */
  lemma NewRowShown(d: Document, color: nat)
    ensures |d.rows| < d.top + HEIGHT ==> forall r :: 0 <= r < HEIGHT ==> Shown(WithRow(d), r, color) == Shown(d, r, color)
    ensures |d.rows| == d.top + HEIGHT ==> Shown(WithRow(d), HEIGHT - 1, color) == Blank(color)
    ensures |d.rows| == d.top + HEIGHT ==>
              forall r :: 0 <= r < HEIGHT - 1 ==> Shown(WithRow(d), r, color) == Shown(d, r + 1, color)
  {}

  lemma TypeNewline(d: Document)
    requires d.rows != []
    ensures Type(d, NEWLINE) == WithRow(d)
  {}

  lemma EraseWraps(d: Document)
    requires Wrapped(d)
    ensures Wrapped(Erase(d)) && (|d.rows| == d.top + 1 && d.rows[d.top] == [] ==> Erase(d) == d)
  {
    TypeWraps(d, BACKSPACE);
  }

  lemma TypeBackspace(d: Document)
    requires d.rows != []
    ensures Type(d, BACKSPACE) == Erase(d)
  {}

  /** A backspace takes back exactly the character typed before it, across the right edge too. */
  lemma EraseUndoes(d: Document, ch: nat)
    requires Wrapped(d) && ch != NEWLINE && ch != BACKSPACE
    ensures Type(Type(d, ch), BACKSPACE).rows == d.rows
    ensures Type(Type(d, ch), BACKSPACE).top == Type(d, ch).top
  {
    var n := |d.rows| - 1;
    var line := d.rows[n] + [ch % 256];
    assert line[..|line| - 1] == d.rows[n];
    assert d.rows[n := line][n := d.rows[n]] == d.rows;
    if |line| == WIDTH {
      var rows := d.rows[n := line] + [[]];
      assert Type(d, ch).rows == rows && |rows| == n + 2 && rows[n + 1] == [] && rows[n] == line;
      assert Reopened(line) == d.rows[n];
      assert rows[..n] + [d.rows[n]] == d.rows;
    }
  }

  // ----- whole sessions

  /** The document after typing a text into an empty one. */
  function Typed(text: seq<nat>): (d: Document)
    ensures d.rows != []
  {
    if text == [] then EMPTY else Type(Typed(text[..|text| - 1]), text[|text| - 1])
  }

  function Transcribed(text: seq<nat>): (t: Transcript)
    ensures t != []
  {
    if text == [] then [[]] else Put(Transcribed(text[..|text| - 1]), text[|text| - 1])
  }

  /** Without backspaces, the last 25 rows of the transcript are the ones on the screen. */
  lemma {:induction false} TypedIsTranscribed(text: seq<nat>)
    requires forall i :: 0 <= i < |text| ==> text[i] != BACKSPACE
    ensures var t := Transcribed(text); Typed(text) == Document(t, if |t| <= HEIGHT then 0 else |t| - HEIGHT)
  {
    if text != [] { TypedIsTranscribed(text[..|text| - 1]); }
  }

  /** One line of text cut every 80 characters; a full last piece is followed by an empty row. */
  function Chunks(line: seq<nat>): (t: Transcript)
    ensures t != []
  {
    if |line| < WIDTH then [line] else [line[..WIDTH]] + Chunks(line[WIDTH..])
  }

  function Bytes(line: seq<nat>): (b: seq<nat>)
    ensures |b| == |line|
  {
    seq(|line|, i requires 0 <= i < |line| => line[i] % 256)
  }

  lemma PutOnLast(front: Transcript, t: Transcript, ch: nat)
    requires t != []
    ensures Put(front + t, ch) == front + Put(t, ch)
  {
    var n := |t| - 1;
    assert (front + t)[|front| + n] == t[n];
    if ch == NEWLINE {
      assert front + t + [[]] == front + (t + [[]]);
    } else {
      var line := t[n] + [ch % 256];
      assert (front + t)[|front| + n := line] == front + t[n := line];
      assert front + t[n := line] + [[]] == front + (t[n := line] + [[]]);
    }
  }

  lemma {:induction false} ChunksStep(line: seq<nat>, ch: nat)
    requires ch != NEWLINE
    ensures Chunks(line + [ch % 256]) == Put(Chunks(line), ch)
    decreases |line|
  {
    var next := line + [ch % 256];
    if |line| < WIDTH - 1 {
    } else if |line| == WIDTH - 1 {
      assert next[..WIDTH] == next && next[WIDTH..] == [];
      assert Chunks(next) == [next] + [[]];
    } else {
      assert next[..WIDTH] == line[..WIDTH] && next[WIDTH..] == line[WIDTH..] + [ch % 256];
      ChunksStep(line[WIDTH..], ch);
      PutOnLast([line[..WIDTH]], Chunks(line[WIDTH..]), ch);
    }
  }

  /** The transcript is the text split at newlines, each line cut every 80 characters. */
  lemma {:induction false} TranscribedIsWrapped(before: seq<nat>, line: seq<nat>)
    requires forall i :: 0 <= i < |line| ==> line[i] != NEWLINE
    ensures Transcribed(line) == Chunks(Bytes(line))
    ensures Transcribed(before + [NEWLINE] + line) == Transcribed(before) + Chunks(Bytes(line))
    decreases |line|
  {
    if line == [] {
      assert before + [NEWLINE] + line == before + [NEWLINE];
      assert (before + [NEWLINE])[..|before|] == before;
    } else {
      var n := |line| - 1;
      var init, ch := line[..n], line[n];
      TranscribedIsWrapped(before, init);
      assert Bytes(line) == Bytes(init) + [ch % 256];
      ChunksStep(Bytes(init), ch);
      var text := before + [NEWLINE] + line;
      assert text[..|text| - 1] == before + [NEWLINE] + init && text[|text| - 1] == ch;
      PutOnLast(Transcribed(before), Chunks(Bytes(init)), ch);
    }
  }

  /** The character in column `c` of screen row `r`: that of the document row there, or a blank past its end. */
  function CharAt(d: Document, r: nat, c: nat): nat
  {
    if d.top + r < |d.rows| && c < |d.rows[d.top + r]| then d.rows[d.top + r][c] else 32
  }

  lemma CellsAreShown(s: Screen)
    requires s.Valid()
    ensures forall r, c :: 0 <= r < 25 && 0 <= c < 80 ==> s.vidMem[r][c] == Cell(CharAt(s.written, r, c), s.color)
  {
    forall r, c | 0 <= r < 25 && 0 <= c < 80 ensures s.vidMem[r][c] == Cell(CharAt(s.written, r, c), s.color) {
      assert s.vidMem[r] == Shown(s.written, r, s.color);
    }
  }

  /** After a clear and any text at all, the screen shows the end of the typed document, cell by cell, with the cursor
      after its last character. */
  method Session(text: seq<nat>, color: nat) returns (s: Screen)
    ensures s.Valid() && s.written == Typed(text) && fresh(s)
    ensures forall r, c :: 0 <= r < 25 && 0 <= c < 80 ==> s.vidMem[r][c] == Cell(CharAt(Typed(text), r, c), color)
    ensures var d := Typed(text);
            d.top + s.row == |d.rows| - 1 && s.column == |d.rows[|d.rows| - 1]|
  {
    s := new Screen(color);
    for i := 0 to |text|
      invariant s.Valid() && fresh(s) && fresh(s.vidMem) && s.written == Typed(text[..i]) && s.color == color
    {
      s.PutRune(text[i]);
      assert text[..i + 1][..i] == text[..i];
    }
    assert text[..|text|] == text;
    CellsAreShown(s);
  }
}
