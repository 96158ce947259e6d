/** The Sudoku board: a flat list of 81 cells, row by row. A cell holds
    0 (emptied), a digit 1..9, or a marker above 9 that stands for a
    clue label. */
module SudokuBoard {
  import opened Common
  import opened SudokuReplacement

  // ---------------------------------------------------------------------
  // Geometry

  function Row(i: int): int { i / 9 }
  /** The cell in row line and column col. */
  function At(line: int, col: int): int { line * 9 + col }
  function Col(i: int): int { i % 9 }
  /** The 3x3 box of cell i, numbered 0..8 row by row. */
  function Box(i: int): int { 3 * (Row(i) / 3) + Col(i) / 3 }

  /** Cells i and j share a row, a column or a box. */
  predicate SameUnit(i: int, j: int)
  {
    Row(i) == Row(j) || Col(i) == Col(j) || Box(i) == Box(j)
  }

  /** The first n cells are digits and no two of them sharing a unit are
      equal. */
  ghost predicate ValidPrefix(b: seq<int>, n: nat)
  {
    && n <= |b|
    && (forall i :: 0 <= i < n ==> 1 <= b[i] <= 9)
    && (forall i, j :: 0 <= i < j < n && SameUnit(i, j) ==> b[i] != b[j])
  }

  /** A solved Sudoku: 81 digits, no row, column or box holding a
      repeated digit. */
  ghost predicate Solved(b: seq<int>)
  {
    |b| == 81 && ValidPrefix(b, 81)
  }

  /** No solved board starts with p. */
  ghost predicate NoCompletion(p: seq<int>)
  {
    forall b :: |b| == 81 && p <= b ==> !Solved(b)
  }

  // The three prefix checks, stated in terms of the geometry.

  ghost predicate InRowBefore(b: seq<int>, index: int, x: int)
    requires index <= |b|
  {
    exists j :: 0 <= j < index && Row(j) == Row(index) && b[j] == x
  }

  ghost predicate InColumnAbove(b: seq<int>, index: int, x: int)
    requires index <= |b|
  {
    exists j :: 0 <= j < index && Row(j) < Row(index) && Col(j) == Col(index) && b[j] == x
  }

  ghost predicate InBoxAbove(b: seq<int>, index: int, x: int)
    requires index <= |b|
  {
    exists j :: 0 <= j < index && Row(j) < Row(index) && Box(j) == Box(index) && b[j] == x
  }

  /** The cell in row line and column col of the box of cell index, in
      a row above it, comes before it and lies in its box. */
  lemma BoxCellAbove(index: int, line: int, col: int)
    requires 0 <= index
    requires 3 * ((index / 9) / 3) <= line < index / 9
    requires ((index % 9) / 3) * 3 <= col < ((index % 9) / 3) * 3 + 3
    ensures 0 <= At(line, col) < index
    ensures Row(At(line, col)) == line && Col(At(line, col)) == col
    ensures Box(At(line, col)) == Box(index)
  {
    var r, c := index / 9, index % 9;
    var k := At(line, col);
    assert 0 <= c / 3 < 3;
    assert 0 <= col < 9;
    Div9(k, line);
    Div3(line, r / 3);
    Div3(col, c / 3);
  }

  /** Conversely every earlier cell in a row above and in the box of cell
      index has those coordinates. */
  lemma BoxAboveCell(index: int, j: int)
    requires 0 <= j < index && Row(j) < Row(index) && Box(j) == Box(index)
    ensures 3 * ((index / 9) / 3) <= Row(j) < index / 9
    ensures ((index % 9) / 3) * 3 <= Col(j) < ((index % 9) / 3) * 3 + 3
    ensures j == At(Row(j), Col(j))
  {
    var rj, cj, ri, ci := j / 9, j % 9, index / 9, index % 9;
    assert 0 <= cj / 3 < 3 && 0 <= ci / 3 < 3;
    assert 3 * (rj / 3 - ri / 3) == ci / 3 - cj / 3;
    assert rj / 3 == ri / 3;
    assert cj / 3 == ci / 3;
  }

  lemma BoxTop(index: int)
    requires 0 <= index
    ensures 0 <= 3 * ((index / 9) / 3) <= index / 9
  {
  }

  lemma Div3(x: int, q: int)
    requires 3 * q <= x < 3 * q + 3
    ensures x / 3 == q
  {
  }

  lemma Div9(x: int, q: int)
    requires 9 * q <= x < 9 * q + 9
    ensures x / 9 == q && x % 9 == x - 9 * q
  {
  }

  /** x equals an earlier cell sharing a unit with cell index. */
  ghost predicate Conflict(b: seq<int>, index: int, x: int)
    requires index <= |b|
  {
    exists j :: 0 <= j < index && SameUnit(j, index) && b[j] == x
  }

  /** The three checks together cover exactly the earlier cells that share
      a unit with cell index. */
  lemma Coverage(b: seq<int>, index: nat, x: int)
    requires index <= |b|
    ensures Conflict(b, index, x) <==> InRowBefore(b, index, x) || InColumnAbove(b, index, x) || InBoxAbove(b, index, x)
  {
    if Conflict(b, index, x) {
      var j :| 0 <= j < index && SameUnit(j, index) && b[j] == x;
      assert Row(j) <= Row(index);
    }
  }

  /** A digit conflicting with the prefix can be the next cell of no
      solved board. */
  lemma ConflictExcludes(p: seq<int>, x: int)
    requires Conflict(p, |p|, x)
    ensures NoCompletion(p + [x])
  {
    var j :| 0 <= j < |p| && SameUnit(j, |p|) && p[j] == x;
    forall b | |b| == 81 && p + [x] <= b ensures !Solved(b) {
      assert b[j] == p[j] && b[|p|] == x;
    }
  }

  /** The digits 1..9 in a random order: a permutation of the digits,
      each exactly once. */
  method ShuffledDigits() returns (candidates: seq<int>)
    ensures multiset(candidates) == multiset(seq(9, i => i + 1))
    ensures forall k :: 0 <= k < |candidates| ==> 1 <= candidates[k] <= 9
    ensures forall v :: 1 <= v <= 9 ==> v in candidates
  {
    var digits := seq(9, i => i + 1);
    candidates := Shuffle(digits);
    forall k | 0 <= k < |candidates| ensures 1 <= candidates[k] <= 9 {
      assert candidates[k] in digits;
    }
    forall v | 1 <= v <= 9 ensures v in candidates {
      assert digits[v - 1] == v;
    }
  }

  /** If no digit 1..9 can follow the prefix, nothing can. */
  lemma AllExcluded(p: seq<int>, candidates: seq<int>)
    requires |p| < 81
    requires forall v :: 1 <= v <= 9 ==> v in candidates
    requires Excluded(p, candidates, |candidates|)
    ensures NoCompletion(p)
  {
    forall b | |b| == 81 && p <= b ensures !Solved(b) {
      var x := b[|p|];
      if 1 <= x <= 9 {
        assert x in candidates;
        var m :| 0 <= m < |candidates| && candidates[m] == x;
        assert p + [candidates[m]] <= b;
        assert NoCompletion(p + [candidates[m]]);
      } else {
        assert !(1 <= b[|p|] <= 9);
      }
    }
  }

  /** A digit found by one of the three checks can follow the prefix in
      no solved board. */
  lemma Rejected(b: seq<int>, p: seq<int>, x: int)
    requires |p| <= |b| && b[..|p|] == p
    requires InRowBefore(b, |p|, x) || InColumnAbove(b, |p|, x) || InBoxAbove(b, |p|, x)
    ensures NoCompletion(p + [x])
  {
    Coverage(b, |p|, x);
    var j :| 0 <= j < |p| && SameUnit(j, |p|) && b[j] == x;
    assert p[j] == x;
    ConflictExcludes(p, x);
  }

  /** A digit passing the three checks, written at cell index, extends
      the valid prefix. */
  lemma Admitted(b: seq<int>, p: seq<int>, x: int, written: seq<int>)
    requires |p| <= |b| && b[..|p|] == p && ValidPrefix(p, |p|) && 1 <= x <= 9
    requires !InRowBefore(b, |p|, x) && !InColumnAbove(b, |p|, x) && !InBoxAbove(b, |p|, x)
    requires |p| < |written| && written[..|p|] == p && written[|p|] == x
    ensures ValidPrefix(written, |p| + 1) && written[..|p| + 1] == p + [x]
  {
    Coverage(b, |p|, x);
    assert !Conflict(p, |p|, x) by {
      forall j | 0 <= j < |p| && SameUnit(j, |p|) ensures p[j] != x {
        assert b[j] == p[j];
      }
    }
    ExtendValid(written, |p|, x);
  }

  /** The first k candidates can follow the prefix in no solved board. */
  ghost predicate Excluded(p: seq<int>, candidates: seq<int>, k: nat)
    requires k <= |candidates|
  {
    forall m :: 0 <= m < k ==> NoCompletion(p + [candidates[m]])
  }

  lemma ExcludedStep(p: seq<int>, candidates: seq<int>, k: nat)
    requires k < |candidates| && Excluded(p, candidates, k) && NoCompletion(p + [candidates[k]])
    ensures Excluded(p, candidates, k + 1)
  {
  }

  /** A valid prefix followed by a digit without conflict is a valid
      prefix one cell longer. */
  lemma ExtendValid(b: seq<int>, index: nat, x: int)
    requires index < |b| && ValidPrefix(b[..index], index) && b[index] == x
    requires 1 <= x <= 9 && !Conflict(b[..index], index, x)
    ensures ValidPrefix(b, index + 1)
  {
    forall i, j | 0 <= i < j < index + 1 && SameUnit(i, j) ensures b[i] != b[j] {
      if j < index {
        assert b[..index][i] != b[..index][j];
      } else {
        assert b[..index][i] == b[i];
      }
    }
    forall i | 0 <= i < index + 1 ensures 1 <= b[i] <= 9 {
      if i < index {
        assert b[..index][i] == b[i];
      }
    }
  }

  // ---------------------------------------------------------------------
  // A solved board exists: value (3 * (r % 3) + r / 3 + c) % 9 + 1

  function PatternValue(i: int): int
  {
    (3 * (Row(i) % 3) + Row(i) / 3 + Col(i)) % 9 + 1
  }

  lemma ShiftDistinct(x: int, y: int, k: int)
    requires 0 <= x < 9 && 0 <= y < 9 && x != y
    ensures (x + k) % 9 != (y + k) % 9
  {
  }

  lemma PatternDistinct(i: int, j: int)
    requires 0 <= i < j < 81 && SameUnit(i, j)
    ensures PatternValue(i) != PatternValue(j)
  {
    if Row(i) == Row(j) {
      PatternRowDistinct(i, j);
    } else if Col(i) == Col(j) {
      PatternColumnDistinct(i, j);
    } else {
      PatternBoxDistinct(i, j);
    }
  }

  lemma PatternRowDistinct(i: int, j: int)
    requires 0 <= i < j < 81 && Row(i) == Row(j)
    ensures PatternValue(i) != PatternValue(j)
  {
    var r := Row(i);
    ShiftDistinct(Col(i), Col(j), 3 * (r % 3) + r / 3);
  }

  lemma PatternColumnDistinct(i: int, j: int)
    requires 0 <= i < j < 81 && Col(i) == Col(j) && Row(i) != Row(j)
    ensures PatternValue(i) != PatternValue(j)
  {
    var r, r' := Row(i), Row(j);
    assert r == 3 * (r / 3) + r % 3 && r' == 3 * (r' / 3) + r' % 3;
    ShiftDistinct(3 * (r % 3) + r / 3, 3 * (r' % 3) + r' / 3, Col(i));
  }

  lemma PatternBoxDistinct(i: int, j: int)
    requires 0 <= i < j < 81 && Box(i) == Box(j) && Row(i) != Row(j) && Col(i) != Col(j)
    ensures PatternValue(i) != PatternValue(j)
  {
    var r, c, r', c' := Row(i), Col(i), Row(j), Col(j);
    assert 0 <= c / 3 < 3 && 0 <= c' / 3 < 3;
    assert 3 * (r / 3 - r' / 3) == c' / 3 - c / 3;
    assert r / 3 == r' / 3 && c / 3 == c' / 3;
    assert r == 3 * (r / 3) + r % 3 && r' == 3 * (r' / 3) + r' % 3;
    assert c == 3 * (c / 3) + c % 3 && c' == 3 * (c' / 3) + c' % 3;
    ShiftDistinct(3 * (r % 3) + c % 3, 3 * (r' % 3) + c' % 3, r / 3 + 3 * (c / 3));
  }

  /** Some solved board exists, so filling from the empty board cannot
      fail. */
  lemma SolvableFromEmpty()
    ensures !NoCompletion([])
  {
    var b := seq(81, PatternValue);
    forall i, j | 0 <= i < j < 81 && SameUnit(i, j) ensures b[i] != b[j] {
      PatternDistinct(i, j);
    }
    assert Solved(b) && [] <= b;
  }

  // ---------------------------------------------------------------------
  // Cell contents

  /** The cells holding a digit 1..9. */
  ghost function PlainCells(b: seq<int>): set<int>
  {
    set i | 0 <= i < |b| && 1 <= b[i] <= 9
  }

  /** Overwriting a digit by a non-digit removes exactly that cell from
      the digit cells. */
  lemma PlainCellsStep(b: seq<int>, p: int, x: int)
    requires 0 <= p < |b| && 1 <= b[p] <= 9 && !(1 <= x <= 9)
    ensures PlainCells(b[p := x]) == PlainCells(b) - {p}
    ensures |PlainCells(b[p := x])| == |PlainCells(b)| - 1
  {
    assert PlainCells(b[p := x]) == PlainCells(b) - {p};
  }

  lemma SolvedAllPlain(b: seq<int>)
    requires Solved(b)
    ensures PlainCells(b) == Range(0, 80)
    ensures |PlainCells(b)| == 81
  {
    assert PlainCells(b) == Range(0, 80);
    RangeSize(0, 80);
  }

  lemma PlainCellExists(b: seq<int>)
    requires |PlainCells(b)| > 0
    ensures exists p :: 0 <= p < |b| && 1 <= b[p] <= 9
  {
    NonEmptyHasElement(PlainCells(b));
  }

  /** Python's str() of an integer. */
  function Decimal(n: int): (r: string)
    ensures |r| >= 1
    ensures forall k :: 0 <= k < |r| ==> r[k] == '-' || '0' <= r[k] <= '9'
    decreases if n < 0 then -n + 1 else n
  {
    if n < 0 then "-" + Decimal(-n)
    else if n < 10 then [DigitChar(n)]
    else Decimal(n / 10) + [DigitChar(n % 10)]
  }

  function DigitChar(d: int): char
    requires 0 <= d < 10
  {
    (48 + d) as char
  }

  /** The value of a string of decimal digits. */
  function ParseNat(s: string): int
  {
    if s == [] then 0 else ParseNat(s[..|s| - 1]) * 10 + (s[|s| - 1] as int - 48)
  }

  /** str() of a natural number reads back as that number. */
  lemma {:induction false} DecimalRoundTrip(n: nat)
    ensures ParseNat(Decimal(n)) == n
  {
    if n >= 10 {
      DecimalRoundTrip(n / 10);
      var s := Decimal(n);
      assert s[..|s| - 1] == Decimal(n / 10);
    } else {
      var s := Decimal(n);
      assert s[..|s| - 1] == [];
    }
  }

  // ---------------------------------------------------------------------
  // Sheet

  class Sheet {
    var board: seq<int>
    var fullyFilledBoard: seq<int>

    /** _found_in_row: the candidate is earlier in the same row. */
    method FoundInRow(candidate: int, index: nat) returns (found: bool)
      requires index <= |board|
      ensures found <==> InRowBefore(board, index, candidate)
    {
      for i := 9 * (index / 9) to index
        invariant forall j :: 9 * (index / 9) <= j < i ==> board[j] != candidate
      {
        if candidate == board[i] {
          return true;
        }
      }
      return false;
    }

    /** _found_in_column: the candidate is in an earlier row of the same
        column. */
    method FoundInColumn(candidate: int, index: nat) returns (found: bool)
      requires index <= |board|
      ensures found <==> InColumnAbove(board, index, candidate)
    {
      var column := index % 9;
      for line := 0 to index / 9
        invariant forall l :: 0 <= l < line ==> board[l * 9 + column] != candidate
      {
        if candidate == board[line * 9 + column] {
          assert Row(line * 9 + column) == line;
          return true;
        }
      }
      forall j | 0 <= j < index && Row(j) < Row(index) && Col(j) == Col(index)
        ensures board[j] != candidate
      {
        assert j == Row(j) * 9 + column;
      }
      return false;
    }

    /** _found_in_box: the candidate is in an earlier row of the same 3x3
        box. */
    method FoundInBox(candidate: int, index: nat) returns (found: bool)
      requires index <= |board|
      ensures found <==> InBoxAbove(board, index, candidate)
    {
      var boxColumn := (index % 9) / 3;
      BoxTop(index);
      for line := 3 * ((index / 9) / 3) to index / 9
        invariant forall l, c ::
          3 * ((index / 9) / 3) <= l < line && boxColumn * 3 <= c < boxColumn * 3 + 3 ==>
          board[At(l, c)] != candidate
      {
        for col := boxColumn * 3 to boxColumn * 3 + 3
          invariant forall c :: boxColumn * 3 <= c < col ==> board[At(line, c)] != candidate
        {
          BoxCellAbove(index, line, col);
          if candidate == board[At(line, col)] {
            ghost var j := At(line, col);
            assert 0 <= j < index && Row(j) < Row(index) && Box(j) == Box(index) && board[j] == candidate;
            return true;
          }
        }
      }
      forall j | 0 <= j < index && Row(j) < Row(index) && Box(j) == Box(index)
        ensures board[j] != candidate
      {
        BoxAboveCell(index, j);
        assert board[At(Row(j), Col(j))] != candidate;
      }
      return false;
    }

    /** _fill_board(index): tries the digits in a random order at cell
        index and recurses on the next cell, backtracking on failure. On
        success the board is solved; on failure no solved board starts
        with the cells before index. Those cells are never written. */
    method FillBoard(index: nat) returns (ok: bool)
      modifies this
      requires index <= |board| <= 81 && ValidPrefix(board, index)
      ensures index <= |board| <= 81
      ensures board[..index] == old(board[..index])
      ensures fullyFilledBoard == old(fullyFilledBoard)
      ensures ok ==> Solved(board)
      ensures !ok ==> NoCompletion(old(board[..index]))
      decreases 81 - index, 1
    {
      if index >= 9 * 9 {
        return true;
      }
      var candidates := ShuffledDigits();
      ghost var prefix := board[..index];
      for k := 0 to |candidates|
        invariant index <= |board| <= 81 && board[..index] == prefix
        invariant fullyFilledBoard == old(fullyFilledBoard)
        invariant Excluded(prefix, candidates, k)
      {
        ok := TryDigit(index, candidates[k], prefix);
        if ok {
          return true;
        }
        ExcludedStep(prefix, candidates, k);
      }
      AllExcluded(prefix, candidates);
      return false;
    }

    /** One pass of the loop of _fill_board: a digit found by one of the
        three checks is skipped (the `continue`s); otherwise it is written
        at cell index, appending when the board is that short, and the
        fill goes on at the next cell. */
    method TryDigit(index: nat, n: int, ghost prefix: seq<int>) returns (ok: bool)
      modifies this
      requires index < 81 && index <= |board| <= 81 && board[..index] == prefix
      requires ValidPrefix(prefix, index) && 1 <= n <= 9
      ensures index <= |board| <= 81 && board[..index] == prefix
      ensures fullyFilledBoard == old(fullyFilledBoard)
      ensures ok ==> Solved(board)
      ensures !ok ==> NoCompletion(prefix + [n])
      decreases 81 - index, 0
    {
      var inRow := FoundInRow(n, index);
      if inRow {
        Rejected(board, prefix, n);
        return false;
      }
      var inColumn := FoundInColumn(n, index);
      if inColumn {
        Rejected(board, prefix, n);
        return false;
      }
      var inBox := FoundInBox(n, index);
      if inBox {
        Rejected(board, prefix, n);
        return false;
      }
      ghost var before := board;
      if |board| <= index {
        board := board + [n];
      } else {
        board := board[index := n];
      }
      Admitted(before, prefix, n, board);
      ok := FillBoard(index + 1);
      assert board[..index] == board[..index + 1][..index];
    }

    /** Sheet(): a fully filled, valid board, also kept as
        fully_filled_board. */
    constructor ()
      ensures Solved(board) && fullyFilledBoard == board
    {
      board := [];
      fullyFilledBoard := [];
      new;
      var ok := FillBoard(0);
      SolvableFromEmpty();
      fullyFilledBoard := board;
    }

    /** __eq__: two sheets are equal when their fully filled boards are. */
    predicate SameSheet(other: Sheet)
      reads this, other
    {
      fullyFilledBoard == other.fullyFilledBoard
    }

    /** empty_random_cell: sets one cell that was not 0 to 0. The source
        retries a random position by recursion until it finds such a cell
        (on a board of zeros the recursion ends in RecursionError); the
        retry is modelled as a choice
        among the non-zero cells. The second write of 0 at the first
        position, a zero already, changes nothing. */
    method EmptyRandomCell() returns (ghost p: int)
      modifies this
      requires |board| >= 81
      requires exists q :: 0 <= q < 81 && board[q] != 0
      ensures 0 <= p < 81 && old(board)[p] != 0 && board == old(board)[p := 0]
      ensures fullyFilledBoard == old(fullyFilledBoard)
    {
      var pos := RandInt(0, 9 * 9 - 1);
      p := pos;
      if board[pos] == 0 {
        var retry :| 0 <= retry < 81 && board[retry] != 0;
        board := board[retry := 0];
        p := retry;
      }
      board := board[pos := 0];
    }

    /** replace_by(clue): overwrites one cell holding a digit 1..9 with
        the marker and returns the digit. The retry over random positions
        is a choice among the digit cells. */
    method ReplaceBy(clue: int) returns (value: int, ghost p: int)
      modifies this
      requires |board| >= 81
      requires exists q :: 0 <= q < 81 && 1 <= board[q] <= 9
      ensures 0 <= p < 81 && 1 <= value <= 9
      ensures old(board)[p] == value && board == old(board)[p := clue]
      ensures fullyFilledBoard == old(fullyFilledBoard)
    {
      var pos := RandInt(0, 9 * 9 - 1);
      if !(1 <= board[pos] <= 9) {
        pos :| 0 <= pos < 81 && 1 <= board[pos] <= 9;
      }
      value := board[pos];
      board := board[pos := clue];
      p := pos;
    }

    /** get_board_value: the digit of the cell, or "" (None here) for 0
        and for a marker. */
    function BoardValue(line: int, column: int): (r: Option<int>)
      reads this
      requires 0 <= line < 9 && 0 <= column < 9 && |board| >= 81
      ensures r.Some? <==> board[line * 9 + column] != 0 && board[line * 9 + column] <= 9
      ensures r.Some? ==> r.value == board[line * 9 + column]
    {
      var entry := board[line * 9 + column];
      if entry == 0 then None
      else if entry > 9 then None
      else Some(entry)
    }

    /** get_board_clue: "" for 0 and for digits; for a marker, the label
        prefixed by the stop and a space when the stop is truthy, else the
        label itself (None when the marker has no label). */
    function BoardClue(line: int, column: int, replacement: Replacement): (r: Option<string>)
      reads this
      requires 0 <= line < 9 && 0 <= column < 9 && |board| >= 81
      ensures board[line * 9 + column] <= 9 ==> r == Some("")
      ensures board[line * 9 + column] > 9 ==>
        var entry := board[line * 9 + column];
        var stop := replacement.GetStop(entry);
        if stop.Some? && stop.value != 0 then
          r == Some(Decimal(stop.value) + " " + replacement.replacements[entry])
        else
          r == replacement.GetClue(entry)
    {
      var entry := board[line * 9 + column];
      if entry == 0 then Some("")
      else if entry <= 9 then Some("")
      else
        var clue := replacement.GetClue(entry);
        var stop := replacement.GetStop(entry);
        if stop.Some? && stop.value != 0 then Some(Decimal(stop.value) + " " + clue.value)
        else clue
    }
  }

  /** A cell shows text in at most one of its two rows: a digit has no
      clue text, a clue text means no digit, and an emptied cell shows
      neither. */
  lemma ValueOrClue(s: Sheet, line: int, column: int, replacement: Replacement)
    requires 0 <= line < 9 && 0 <= column < 9 && |s.board| >= 81
    ensures s.BoardValue(line, column).Some? ==> s.BoardClue(line, column, replacement) == Some("")
    ensures s.BoardClue(line, column, replacement) != Some("") ==> s.BoardValue(line, column) == None
    ensures s.board[line * 9 + column] == 0 ==>
      s.BoardValue(line, column) == None && s.BoardClue(line, column, replacement) == Some("")
  {
  }
}
