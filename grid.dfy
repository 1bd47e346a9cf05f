/** The per-pane text grid: an append-only list of lines of characters. */
module Grids {
  import opened Events

  type Lines = seq<seq<char>>

  /** The lines after `update(c)`: `c` goes at the end of the last line, and an
      empty grid first gets a line to hold it. */
  function Appended(lines: Lines, c: char): (r: Lines)
    ensures |r| == if lines == [] then 1 else |lines|
    ensures r[|r| - 1] == (if lines == [] then [] else lines[|lines| - 1]) + [c]
    ensures forall i :: 0 <= i < |r| - 1 ==> r[i] == lines[i]
  {
    if lines == [] then [[c]] else lines[..|lines| - 1] + [lines[|lines| - 1] + [c]]
  }

  /** The lines after one update, as the window applies it. */
  function Apply(lines: Lines, u: GridUpdate): (r: Lines)
    ensures |r| == |lines| + (if u.NewLine? || lines == [] then 1 else 0)
  {
    match u
    case AppendChar(c) => Appended(lines, c)
    case NewLine => lines + [[]]
  }

  /** The lines after a sequence of updates, applied first to last. */
  function ApplyAll(lines: Lines, us: seq<GridUpdate>): Lines
    decreases |us|
  {
    if us == [] then lines else ApplyAll(Apply(lines, us[0]), us[1..])
  }

  /** Number of characters stored in all lines. */
  function TotalChars(lines: Lines): nat
  {
    if lines == [] then 0 else TotalChars(lines[..|lines| - 1]) + |lines[|lines| - 1]|
  }

  function CountAppends(us: seq<GridUpdate>): nat
  {
    if us == [] then 0 else (if us[0].AppendChar? then 1 else 0) + CountAppends(us[1..])
  }

  function CountNewLines(us: seq<GridUpdate>): nat
  {
    if us == [] then 0 else (if us[0].NewLine? then 1 else 0) + CountNewLines(us[1..])
  }

  class Grid {
    var data: Lines

    /** `Grid::new`: a new grid holds no line at all. */
    constructor ()
      ensures data == []
    {
      data := [];
    }

    /** `update(c)`: append `c` to the last line, creating it on an empty grid. */
    method Update(c: char)
      modifies this
      ensures data == Appended(old(data), c)
    {
      if data == [] {
        data := data + [[]];
      }
      data := data[..|data| - 1] + [data[|data| - 1] + [c]];
    }

    /** `new_line`: push one empty line. */
    method NewLine()
      modifies this
      ensures data == old(data) + [[]]
    {
      data := data + [[]];
    }

    /** `get_data`: the lines, unchanged. */
    function GetData(): (r: Lines)
      reads this
      ensures r == data
    {
      data
    }
  }

  /** Appending leaves the line count and all lines but the last as they were
      on a non-empty grid, and the last line gains exactly `c`. */
  lemma AppendedOnNonEmpty(lines: Lines, c: char)
    requires lines != []
    ensures |Appended(lines, c)| == |lines|
    ensures Appended(lines, c)[..|lines| - 1] == lines[..|lines| - 1]
    ensures Appended(lines, c)[|lines| - 1] == lines[|lines| - 1] + [c]
  {
  }

  /** Every update stores exactly one more character for an append and none
      for a new line: nothing is ever removed. */
  lemma {:induction false} TotalCharsOfApplyAll(lines: Lines, us: seq<GridUpdate>)
    ensures TotalChars(ApplyAll(lines, us)) == TotalChars(lines) + CountAppends(us)
    decreases |us|
  {
    if us != [] {
      TotalCharsOfApply(lines, us[0]);
      TotalCharsOfApplyAll(Apply(lines, us[0]), us[1..]);
    }
  }

  lemma TotalCharsOfApply(lines: Lines, u: GridUpdate)
    ensures TotalChars(Apply(lines, u)) == TotalChars(lines) + (if u.AppendChar? then 1 else 0)
  {
    match u
    case NewLine =>
      assert (lines + [[]])[..|lines|] == lines;
    case AppendChar(c) =>
      if lines != [] {
        var r := Appended(lines, c);
        assert r[..|r| - 1] == lines[..|lines| - 1];
      }
  }

  /** On a non-empty grid every new line adds exactly one line and appends add
      none. */
  lemma {:induction false} LineCountOfApplyAllNonEmpty(lines: Lines, us: seq<GridUpdate>)
    requires lines != []
    ensures |ApplyAll(lines, us)| == |lines| + CountNewLines(us)
    decreases |us|
  {
    if us != [] {
      LineCountOfApplyAllNonEmpty(Apply(lines, us[0]), us[1..]);
    }
  }

  /** From a new grid, the line count is the number of `new_line` calls, plus
      one when the first call was an `update`. */
  lemma LineCountFromEmpty(us: seq<GridUpdate>)
    ensures |ApplyAll([], us)| == CountNewLines(us) + (if us != [] && us[0].AppendChar? then 1 else 0)
  {
    if us != [] {
      LineCountOfApplyAllNonEmpty(Apply([], us[0]), us[1..]);
    }
  }

  /** The grid only grows: every line but the last is kept as it was, and the
      old last line is a prefix of the line at its position. */
  lemma {:induction false} ApplyAllOnlyGrows(lines: Lines, us: seq<GridUpdate>)
    ensures |lines| <= |ApplyAll(lines, us)|
    ensures forall i :: 0 <= i < |lines| - 1 ==> ApplyAll(lines, us)[i] == lines[i]
    ensures lines != [] ==> lines[|lines| - 1] <= ApplyAll(lines, us)[|lines| - 1]
    decreases |us|
  {
    if us != [] {
      var next := Apply(lines, us[0]);
      ApplyAllOnlyGrows(next, us[1..]);
      if lines != [] {
        assert lines[|lines| - 1] <= next[|lines| - 1];
      }
    }
  }

  /** Applying two runs of updates one after the other is applying the whole
      run: updates act in order and nothing depends on how they are batched. */
  lemma {:induction false} ApplyAllAppend(lines: Lines, us: seq<GridUpdate>, vs: seq<GridUpdate>)
    ensures ApplyAll(lines, us + vs) == ApplyAll(ApplyAll(lines, us), vs)
    decreases |us|
  {
    if us == [] {
      assert us + vs == vs;
    } else {
      assert (us + vs)[0] == us[0];
      assert (us + vs)[1..] == us[1..] + vs;
      ApplyAllAppend(Apply(lines, us[0]), us[1..], vs);
    }
  }

  /** One more update at the end of a run is applied last. */
  lemma ApplyAllSnoc(lines: Lines, us: seq<GridUpdate>, u: GridUpdate)
    ensures ApplyAll(lines, us + [u]) == Apply(ApplyAll(lines, us), u)
  {
    ApplyAllAppend(lines, us, [u]);
    assert [u][1..] == [];
  }

  /** The two examples of the grid's own unit tests. */
  lemma UnitTestExamples()
    ensures ApplyAll([], [AppendChar('a'), AppendChar('b')]) == [['a', 'b']]
    ensures ApplyAll([], [AppendChar('a'), NewLine, AppendChar('b')]) == [['a'], ['b']]
  {
    var ab := [AppendChar('a'), AppendChar('b')];
    calc {
      ApplyAll([], ab);
      ApplyAll(Apply([], AppendChar('a')), ab[1..]);
      { assert Apply([], AppendChar('a')) == [['a']]; }
      ApplyAll([['a']], [AppendChar('b')]);
      ApplyAll(Apply([['a']], AppendChar('b')), []);
      { assert ['a'] + ['b'] == ['a', 'b']; assert Apply([['a']], AppendChar('b')) == [['a'] + ['b']]; }
      [['a', 'b']];
    }
    var anb := [AppendChar('a'), NewLine, AppendChar('b')];
    calc {
      ApplyAll([], anb);
      ApplyAll([['a']], anb[1..]);
      { assert anb[1..][1..] == [AppendChar('b')]; }
      ApplyAll([['a'], []], [AppendChar('b')]);
      ApplyAll(Apply([['a'], []], AppendChar('b')), []);
      { assert [['a'], []][..1] == [['a']]; assert [] + ['b'] == ['b']; }
      [['a'], ['b']];
    }
  }
}
