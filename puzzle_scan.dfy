/**
 * The character scan of `PuzzleConfiguration::new_from_string`
 * (src/puzzle_configuration.rs:28-69), stated as a left fold over the text.
 */
module PuzzleScan {
  import opened CellPositions
  import opened PuzzleConfigurations

  /** The variables the scan loop updates. */
  datatype ScanState = ScanState(rows: Grid, xCurrent: int, width: int, height: int, goal: CellPosition)

  /** `height` counts the rows started so far, and the last row is the current one. */
  predicate Shaped(st: ScanState)
  {
    st.height == |st.rows| >= 1
  }

  /** One open row, height 1, width 0, goal (-1, -1). */
  const ScanStart: ScanState := ScanState([[]], 0, 0, 1, CellPosition(-1, -1))

  predicate IsLetter(c: char)
  {
    'A' <= c <= 'Z'
  }

  /** The colour code the parser stores for a letter. */
  function LetterCode(c: char): (code: int)
    requires IsLetter(c)
    ensures 0 <= code <= 25
  {
    (c as int) - ('A' as int)
  }

  function AppendToLastRow(rows: Grid, v: int): (r: Grid)
    requires |rows| >= 1
    ensures |r| == |rows| && r[..|rows| - 1] == rows[..|rows| - 1]
    ensures r[|rows| - 1] == rows[|rows| - 1] + [v]
  {
    rows[|rows| - 1 := rows[|rows| - 1] + [v]]
  }

  /** The effect of one character on the scan state. */
  function Step(st: ScanState, c: char): (r: ScanState)
    requires Shaped(st)
    ensures Shaped(r)
  {
    if IsLetter(c) then
      st.(rows := AppendToLastRow(st.rows, LetterCode(c)), xCurrent := st.xCurrent + 1)
    else if c == '.' then
      st.(rows := AppendToLastRow(st.rows, Hole), xCurrent := st.xCurrent + 1)
    else if c == '*' then
      st.(goal := CellPosition(st.xCurrent - 1, st.height - 2))
    else if c == '\n' then
      st.(width := if st.xCurrent > st.width then st.xCurrent else st.width,
          xCurrent := 0,
          rows := st.rows + [[]],
          height := st.height + 1)
    else
      st
  }

  /** The state after scanning all of `s`. */
  function Scan(s: string): (st: ScanState)
    ensures Shaped(st)
  {
    if s == [] then ScanStart else Step(Scan(s[..|s| - 1]), s[|s| - 1])
  }

  function CountNewlines(s: string): nat
  {
    if s == [] then 0 else CountNewlines(s[..|s| - 1]) + (if s[|s| - 1] == '\n' then 1 else 0)
  }

  /** The characters the scan reacts to. */
  predicate Significant(c: char)
  {
    IsLetter(c) || c == '.' || c == '*' || c == '\n'
  }

  function SignificantOnly(s: string): (r: string)
    ensures forall i :: 0 <= i < |r| ==> Significant(r[i])
  {
    if s == [] then []
    else SignificantOnly(s[..|s| - 1]) + (if Significant(s[|s| - 1]) then [s[|s| - 1]] else [])
  }

  /** `height` is one more than the number of line breaks. */
  lemma {:induction false} HeightCountsNewlines(s: string)
    ensures Scan(s).height == 1 + CountNewlines(s)
  {
    if s != [] {
      HeightCountsNewlines(s[..|s| - 1]);
    }
  }

  /**
   * `width` is the length of the longest row ended by a line break (0 when there is
   * none); the last row, never ended, does not count, and `xCurrent` is its length.
   */
  lemma {:induction false} WidthIsLongestTerminatedRow(s: string)
    ensures var st := Scan(s);
      && st.xCurrent == |st.rows[st.height - 1]|
      && (forall y :: 0 <= y < st.height - 1 ==> |st.rows[y]| <= st.width)
      && (st.width == 0 || exists y :: 0 <= y < st.height - 1 && |st.rows[y]| == st.width)
      && st.width >= 0
  {
    if s != [] {
      var p := s[..|s| - 1];
      WidthIsLongestTerminatedRow(p);
      var st0 := Scan(p);
      var st := Scan(s);
      assert st == Step(st0, s[|s| - 1]);
      if s[|s| - 1] == '\n' {
        if st0.xCurrent > st0.width {
          assert |st.rows[st.height - 2]| == st.width;
        } else if st0.width != 0 {
          var y :| 0 <= y < st0.height - 1 && |st0.rows[y]| == st0.width;
          assert |st.rows[y]| == st.width;
        }
      } else if IsLetter(s[|s| - 1]) || s[|s| - 1] == '.' {
        assert forall y :: 0 <= y < st.height - 1 ==> st.rows[y] == st0.rows[y];
      }
    }
  }

  /** Every entry of `g` is a letter code or -1. */
  predicate CodesOk(g: Grid)
  {
    forall y, x :: 0 <= y < |g| && 0 <= x < |g[y]| ==> Hole <= g[y][x] <= 25
  }

  /** Every stored code is a letter code or -1. */
  lemma {:induction false} CodesInRange(s: string)
    ensures CodesOk(Scan(s).rows)
  {
    if s != [] {
      var p := s[..|s| - 1];
      CodesInRange(p);
      var st0, c := Scan(p), s[|s| - 1];
      var st := Scan(s);
      assert st == Step(st0, c);
      if IsLetter(c) || c == '.' {
        var v := if IsLetter(c) then LetterCode(c) else Hole;
        var n := |st0.rows|;
        assert st.rows == st0.rows[n - 1 := st0.rows[n - 1] + [v]];
        forall y, x | 0 <= y < |st.rows| && 0 <= x < |st.rows[y]|
          ensures Hole <= st.rows[y][x] <= 25
        {
          if y < n - 1 {
            assert st.rows[y] == st0.rows[y];
          } else if x < |st0.rows[y]| {
            assert st.rows[y][x] == st0.rows[y][x];
          } else {
            assert st.rows[y][x] == v;
          }
        }
      } else if c == '\n' {
        assert st.rows == st0.rows + [[]];
      }
    }
  }

  /** Characters other than letters, '.', '*' and line breaks are ignored. */
  lemma {:induction false} InsignificantCharactersIgnored(s: string)
    ensures Scan(SignificantOnly(s)) == Scan(s)
  {
    if s != [] {
      var p := s[..|s| - 1];
      InsignificantCharactersIgnored(p);
      var c := s[|s| - 1];
      if Significant(c) {
        var t := SignificantOnly(p) + [c];
        assert SignificantOnly(s) == t;
        assert t[..|t| - 1] == SignificantOnly(p) && t[|t| - 1] == c;
        assert Scan(t) == Step(Scan(SignificantOnly(p)), c);
      } else {
        assert SignificantOnly(s) == SignificantOnly(p);
        assert Scan(s) == Step(Scan(p), c) == Scan(p);
      }
    }
  }

  /** Without a '*' the goal stays at (-1, -1). */
  lemma {:induction false} NoMarkerNoGoal(s: string)
    requires '*' !in s
    ensures Scan(s).goal == CellPosition(-1, -1)
  {
    if s != [] {
      assert s == s[..|s| - 1] + [s[|s| - 1]];
      NoMarkerNoGoal(s[..|s| - 1]);
    }
  }

  /**
   * The last '*' decides the goal: one column left of the cells scanned so far in its
   * row, one row above that row.
   */
  lemma {:induction false} LastMarkerSetsGoal(p: string, q: string)
    requires '*' !in q
    ensures Scan(p + ['*'] + q).goal == CellPosition(Scan(p).xCurrent - 1, Scan(p).height - 2)
  {
    if q == [] {
      assert (p + ['*'] + q)[..|p|] == p;
    } else {
      var q' := q[..|q| - 1];
      assert q == q' + [q[|q| - 1]];
      LastMarkerSetsGoal(p, q');
      assert (p + ['*'] + q)[..|p + ['*'] + q| - 1] == p + ['*'] + q';
    }
  }

  /** The scan of "AA*\nBB": width 2, height 2, goal (1, -1). */
  lemma ExampleScan()
    ensures Scan("AA*\nBB") == ScanState([[0, 0], [1, 1]], 2, 2, 2, CellPosition(1, -1))
  {
    assert "A"[..0] == "";
    assert Scan("A") == Step(ScanStart, 'A');
    assert LetterCode('A') == 0 && LetterCode('B') == 1;
    var g0: Grid := [[]];
    assert g0[0] == [];
    assert AppendToLastRow(g0, 0)[0] == [0];
    assert AppendToLastRow(g0, 0) == [[0]];
    assert Scan("A") == ScanState([[0]], 1, 0, 1, CellPosition(-1, -1));
    assert "AA"[..1] == "A";
    var g1: Grid := [[0]];
    assert g1[0] + [0] == [0, 0];
    assert AppendToLastRow(g1, 0) == [[0, 0]];
    assert Scan("AA") == ScanState([[0, 0]], 2, 0, 1, CellPosition(-1, -1));
    assert "AA*"[..2] == "AA";
    assert Scan("AA*") == ScanState([[0, 0]], 2, 0, 1, CellPosition(1, -1));
    assert "AA*\n"[..3] == "AA*";
    assert Scan("AA*\n") == ScanState([[0, 0], []], 0, 2, 2, CellPosition(1, -1));
    assert "AA*\nB"[..4] == "AA*\n";
    var g2: Grid := [[0, 0], []];
    assert g2[1] + [1] == [1];
    assert AppendToLastRow(g2, 1) == [[0, 0], [1]];
    var g3: Grid := [[0, 0], [1]];
    assert g3[1] + [1] == [1, 1];
    assert AppendToLastRow(g3, 1) == [[0, 0], [1, 1]];
    assert Scan("AA*\nB") == ScanState([[0, 0], [1]], 1, 2, 2, CellPosition(1, -1));
    assert "AA*\nBB"[..5] == "AA*\nB";
  }
}
