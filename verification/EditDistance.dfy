/** The shell's two-row edit distance, proved against shortest edit scripts. */
module EditDistance {
  import opened Basics

  const MAX_LINE := 128

  datatype Edit = Keep | Change(to: char) | Insert(new': char) | Delete

  /** Edits in order, the last one outermost. */
  datatype Script = Start | Then(before: Script, edit: Edit)

  /** What an edit appends, given the character it uses up. */
  function Output(e: Edit, x: char): string
  {
    match e
    case Keep => [x]
    case Change(c) => [c]
    case Insert(c) => [c]
    case Delete => []
  }

  /** What a script makes of a word; it must use up the whole word. */
  function Apply(s: Script, a: string): Option<string>
    decreases s
  {
    if s.Start? then (if a == [] then Some([]) else None)
    else if s.edit.Insert? then Append(Apply(s.before, a), [s.edit.new'])
    else if a == [] then None
    else Append(Apply(s.before, Front(a)), Output(s.edit, Last(a)))
  }

  function Append(r: Option<string>, t: string): Option<string>
  {
    if r.None? then None else Some(r.value + t)
  }

  function Front(a: string): string
    requires a != []
  {
    a[..|a| - 1]
  }

  function Last(a: string): char
    requires a != []
  {
    a[|a| - 1]
  }

  /** The number of edits that are not Keep. */
  function Cost(s: Script): nat
  {
    if s.Start? then 0 else Cost(s.before) + if s.edit == Keep then 0 else 1
  }

  /** The recurrence the rows of the table follow. */
  function Lev(a: string, b: string): nat
    decreases |a| + |b|
  {
    if a == [] then |b| else if b == [] then |a|
    else Min(Min(Lev(Front(a), b) + 1, Lev(a, Front(b)) + 1), Lev(Front(a), Front(b)) + Mismatch(Last(a), Last(b)))
  }

  function Mismatch(x: char, y: char): nat { if x == y then 0 else 1 }

  // ----- the recurrence is the length of a shortest script

  /** A script that achieves the recurrence. */
  function Best(a: string, b: string): Script
    decreases |a| + |b|
  {
    if a == [] && b == [] then Start
    else if a == [] then Then(Best(a, Front(b)), Insert(Last(b)))
    else if b == [] then Then(Best(Front(a), b), Delete)
    else if Lev(a, b) == Lev(Front(a), b) + 1 then Then(Best(Front(a), b), Delete)
    else if Lev(a, b) == Lev(a, Front(b)) + 1 then Then(Best(a, Front(b)), Insert(Last(b)))
    else Then(Best(Front(a), Front(b)), if Last(a) == Last(b) then Keep else Change(Last(b)))
  }

  lemma {:induction false} LevEquation(a: string, b: string)
    requires a != [] && b != []
    ensures Lev(a, b) == Min(Min(Lev(Front(a), b) + 1, Lev(a, Front(b)) + 1), Lev(Front(a), Front(b)) + Mismatch(Last(a), Last(b)))
  {
    hide Min, Mismatch;
  }

  lemma {:induction false} LevUnfolds(a: string, b: string)
    requires a != [] && b != []
    ensures var x, y, z := Lev(Front(a), b) + 1, Lev(a, Front(b)) + 1, Lev(Front(a), Front(b)) + Mismatch(Last(a), Last(b));
            Lev(a, b) == Min(Min(x, y), z) && (Lev(a, b) == x || Lev(a, b) == y || Lev(a, b) == z)
            && Lev(a, b) <= x && Lev(a, b) <= y && Lev(a, b) <= z
  {
    hide Lev, Min;
    LevEquation(a, b);
    MinIsOne(Lev(Front(a), b) + 1, Lev(a, Front(b)) + 1, Lev(Front(a), Front(b)) + Mismatch(Last(a), Last(b)));
  }

  lemma {:induction false} LevBorders(a: string, b: string)
    ensures Lev([], b) == |b| && Lev(a, []) == |a|
  {}

  lemma {:induction false} BestWorks(a: string, b: string)
    ensures Apply(Best(a, b), a) == Some(b) && Cost(Best(a, b)) == Lev(a, b)
    decreases |a| + |b|
  {
    hide Lev;
    if b != [] { assert b == Front(b) + [Last(b)]; }
    assert b + [] == b;
    LevBorders(a, b);
    if a == [] && b == [] {
    } else if a == [] {
      LevBorders(a, Front(b));
      BestWorks(a, Front(b));
    } else if b == [] {
      LevBorders(Front(a), b);
      BestWorks(Front(a), b);
    } else {
      LevUnfolds(a, b);
      if Lev(a, b) == Lev(Front(a), b) + 1 {
        BestWorks(Front(a), b);
      } else if Lev(a, b) == Lev(a, Front(b)) + 1 {
        BestWorks(a, Front(b));
      } else {
        BestWorks(Front(a), Front(b));
      }
    }
  }

  lemma MinIsOne(x: nat, y: nat, z: nat)
    ensures var m := Min(Min(x, y), z); (m == x || m == y || m == z) && m <= x && m <= y && m <= z
  {}

  lemma {:induction false} LevSteps(a: string, b: string, x: char, y: char)
    ensures Lev(a + [x], b) <= Lev(a, b) + 1
    ensures Lev(a, b + [y]) <= Lev(a, b) + 1
    ensures Lev(a + [x], b + [y]) <= Lev(a, b) + Mismatch(x, y)
  {
    hide Lev;
    assert Front(a + [x]) == a && Front(b + [y]) == b && Last(a + [x]) == x && Last(b + [y]) == y;
    LevUnfolds(a + [x], b + [y]);
    LevBorders(a, b);
    LevBorders(a + [x], b + [y]);
    if b != [] { LevUnfolds(a + [x], b); }
    if a != [] { LevUnfolds(a, b + [y]); }
  }

  /** No script does better. */
  lemma {:induction false} NoneBetter(s: Script, a: string, b: string)
    requires Apply(s, a) == Some(b)
    ensures Lev(a, b) <= Cost(s)
    decreases s
  {
    hide Lev;
    if s.Start? {
      NothingToDo();
    } else if s.edit.Insert? {
      var r := Apply(s.before, a).value;
      NoneBetter(s.before, a, r);
      LevSteps(a, r, s.edit.new', s.edit.new');
    } else {
      assert a == Front(a) + [Last(a)];
      var r := Apply(s.before, Front(a)).value;
      NoneBetter(s.before, Front(a), r);
      var y := if s.edit.Change? then s.edit.to else Last(a);
      LevSteps(Front(a), r, Last(a), y);
      if s.edit == Delete { assert r + [] == r; }
    }
  }

  lemma NothingToDo()
    ensures Lev([], []) == 0
  {}

  // ----- a metric

  /** Undo a script: insertions become deletions and changes go back. */
  function Undo(s: Script, a: string): Script
    requires Apply(s, a).Some?
    decreases s
  {
    if s.Start? then Start
    else if s.edit.Insert? then Then(Undo(s.before, a), Delete)
    else Then(Undo(s.before, Front(a)),
              match s.edit case Keep => Keep case Change(_) => Change(Last(a)) case Delete => Insert(Last(a)))
  }

  lemma {:induction false} UndoWorks(s: Script, a: string)
    requires Apply(s, a).Some?
    ensures Apply(Undo(s, a), Apply(s, a).value) == Some(a) && Cost(Undo(s, a)) == Cost(s)
    decreases s
  {
    if !s.Start? {
      var b := Apply(s, a).value;
      if s.edit.Insert? {
        UndoWorks(s.before, a);
        assert Front(b) == Apply(s.before, a).value;
        assert a + [] == a;
      } else {
        UndoWorks(s.before, Front(a));
        assert a == Front(a) + [Last(a)];
        if s.edit != Delete { assert Front(b) == Apply(s.before, Front(a)).value; }
        else { assert b == Apply(s.before, Front(a)).value; }
      }
    }
  }

  /** Do one script and then another, with no more edits than both together. */
  function Compose(s: Script, t: Script): Script
    decreases s, t
  {
    if s.Then? && s.edit == Delete then Then(Compose(s.before, t), Delete)
    else if t.Then? && t.edit.Insert? then Then(Compose(s, t.before), t.edit)
    else if s.Start? || t.Start? then Start
    else if t.edit == Delete then
      if s.edit.Insert? then Compose(s.before, t.before) else Then(Compose(s.before, t.before), Delete)
    else if t.edit == Keep then Then(Compose(s.before, t.before), s.edit)
    else if s.edit.Insert? then Then(Compose(s.before, t.before), Insert(t.edit.to))
    else Then(Compose(s.before, t.before), t.edit)
  }

  lemma {:induction false} ComposeWorks(s: Script, t: Script, a: string)
    requires Apply(s, a).Some? && Apply(t, Apply(s, a).value).Some?
    ensures Apply(Compose(s, t), a) == Apply(t, Apply(s, a).value)
    ensures Cost(Compose(s, t)) <= Cost(s) + Cost(t)
    decreases s, t
  {
    var b := Apply(s, a).value;
    if s.Then? && s.edit == Delete {
      assert b == Apply(s.before, Front(a)).value;
      ComposeWorks(s.before, t, Front(a));
      var c := Apply(t, b).value;
      assert c + [] == c;
    } else if t.Then? && t.edit.Insert? {
      ComposeWorks(s, t.before, a);
    } else if s.Then? && t.Then? {
      var a' := if s.edit.Insert? then a else Front(a);
      assert Front(b) == Apply(s.before, a').value;
      ComposeWorks(s.before, t.before, a');
      if t.edit == Delete {
        var c := Apply(t.before, Front(b)).value;
        assert c + [] == c;
      }
    }
  }

  lemma Identity(a: string, b: string)
    ensures Lev(a, b) == 0 <==> a == b
  {
    BestWorks(a, b);
    if Lev(a, b) == 0 { FreeScriptsChangeNothing(Best(a, b), a); }
    if a == b {
      KeepingWorks(a);
      NoneBetter(Keeping(a), a, a);
    }
  }

  lemma {:induction false} FreeScriptsChangeNothing(s: Script, a: string)
    requires Apply(s, a).Some? && Cost(s) == 0
    ensures Apply(s, a) == Some(a)
    decreases s
  {
    if s.Then? {
      FreeScriptsChangeNothing(s.before, Front(a));
      assert a == Front(a) + [Last(a)];
    }
  }

  function Keeping(a: string): Script
  {
    if a == [] then Start else Then(Keeping(Front(a)), Keep)
  }

  lemma {:induction false} KeepingWorks(a: string)
    ensures Apply(Keeping(a), a) == Some(a) && Cost(Keeping(a)) == 0
  {
    if a != [] {
      KeepingWorks(Front(a));
      assert a == Front(a) + [Last(a)];
    }
  }

  lemma Symmetry(a: string, b: string)
    ensures Lev(a, b) == Lev(b, a)
  {
    BestWorks(a, b);
    UndoWorks(Best(a, b), a);
    NoneBetter(Undo(Best(a, b), a), b, a);
    BestWorks(b, a);
    UndoWorks(Best(b, a), b);
    NoneBetter(Undo(Best(b, a), b), a, b);
  }

  lemma Triangle(a: string, b: string, c: string)
    ensures Lev(a, c) <= Lev(a, b) + Lev(b, c)
  {
    BestWorks(a, b);
    BestWorks(b, c);
    ComposeWorks(Best(a, b), Best(b, c), a);
    NoneBetter(Compose(Best(a, b), Best(b, c)), a, c);
  }

  // ----- the two rows

  /** The row holds the distances from `a` to every prefix of `b` shorter than `n`. */
  ghost predicate Row(row: seq<nat>, a: string, b: string, n: nat)
  {
    n <= |row| && n <= |b| + 1 && forall k :: 0 <= k < n ==> row[k] == Lev(a, b[..k])
  }

  lemma {:induction false} LevCell(a: string, b: string, i: nat, j: nat)
    requires 1 <= i <= |a| && 1 <= j <= |b|
    ensures Lev(a[..i], b[..j]) == Min(Min(Lev(a[..i - 1], b[..j]) + 1, Lev(a[..i], b[..j - 1]) + 1),
                                      Lev(a[..i - 1], b[..j - 1]) + Mismatch(a[i - 1], b[j - 1]))
  {
    hide Lev, Min;
    assert Front(a[..i]) == a[..i - 1] && Front(b[..j]) == b[..j - 1];
    LevUnfolds(a[..i], b[..j]);
  }

  /** Compute row `i` of the table from the row above. */
  method FillRow(line: array<char>, start: nat, i: nat, cmd: string, prev: array<nat>, curr: array<nat>, ghost a: string)
    requires start + |a| <= line.Length && a == line[start..start + |a|] && 1 <= i <= |a|
    requires prev.Length == curr.Length == MAX_LINE + 1 && |cmd| <= MAX_LINE && prev != curr
    requires Row(prev[..], a[..i - 1], cmd, |cmd| + 1)
    modifies curr
    ensures Row(curr[..], a[..i], cmd, |cmd| + 1)
  {
    hide Lev, Min;
    LevBorders(a[..i], cmd);
    assert cmd[..0] == [];
    curr[0] := i;
    for j := 1 to |cmd| + 1
      invariant Row(curr[..], a[..i], cmd, j)
    {
      assert line[start + i - 1] == a[i - 1];
      var cost := if line[start + i - 1] == cmd[j - 1] then 0 else 1;
      LevCell(a, cmd, i, j);
      assert prev[j] == prev[..][j] && prev[j - 1] == prev[..][j - 1] && curr[j - 1] == curr[..][j - 1];
      ghost var was := curr[..];
      curr[j] := Min(Min(prev[j] + 1, curr[j - 1] + 1), prev[j - 1] + cost);
      assert curr[..] == was[j := curr[j]];
    }
  }

  method CopyRow(curr: array<nat>, prev: array<nat>, lenB: nat)
    requires prev.Length == curr.Length == MAX_LINE + 1 && lenB <= MAX_LINE && prev != curr
    modifies prev
    ensures prev[..lenB + 1] == curr[..lenB + 1]
  {
    for j := 0 to lenB + 1
      invariant prev[..j] == curr[..j]
    {
      prev[j] := curr[j];
      assert prev[..j + 1] == prev[..j] + [prev[j]] && curr[..j + 1] == curr[..j] + [curr[j]];
    }
  }

  method CalculateDistance(line: array<char>, start: nat, end: nat, cmd: string) returns (d: nat)
    requires start <= end <= line.Length == MAX_LINE && |cmd| <= MAX_LINE
    ensures d == Lev(line[start..end], cmd)
  {
    hide Lev;
    var lenA, lenB := end - start, |cmd|;
    ghost var a := line[start..end];
    var prev := new nat[MAX_LINE + 1](_ => 0);
    var curr := new nat[MAX_LINE + 1](_ => 0);
    for j := 0 to lenB + 1
      invariant Row(prev[..], [], cmd, j)
    {
      LevBorders([], cmd[..j]);
      ghost var was := prev[..];
      prev[j] := j;
      assert prev[..] == was[j := j];
    }
    assert a[..0] == [];
    for i := 1 to lenA + 1
      invariant Row(prev[..], a[..i - 1], cmd, lenB + 1)
      invariant fresh(prev) && fresh(curr) && line[start..end] == a
    {
      FillRow(line, start, i, cmd, prev, curr, a);
      CopyRow(curr, prev, lenB);
      forall k | 0 <= k < lenB + 1 ensures prev[..][k] == curr[..][k] {
        assert prev[..lenB + 1][k] == curr[..lenB + 1][k];
      }
    }
    assert a[..lenA] == a && cmd[..lenB] == cmd;
    assert prev[lenB] == prev[..][lenB];
    return prev[lenB];
  }
}
