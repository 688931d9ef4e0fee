/**
  The solver behind the Sudoku window, with the Qt widgets stripped: the 9x9
  grid `sudoku` the search works on in place, the `moves` the search records,
  and the cursor `currentMove` the navigation buttons step through them.
  The text of the grid widgets is a parameter of `Resolve` (0 for an empty
  cell), and what the widgets show is the ghost `Displayed()`.
*/
module Sudoku {
  import opened SudokuSpec

  /** What pressing "resolve" ends with. */
  datatype Outcome = Rejected | NoSolution | Resolved

  class MainWindow {
    /** The grid; 0 marks an empty cell. */
    const sudoku: array2<int>
    /** The solver's moves, the last one filled first. */
    var moves: seq<Move>
    /** How many moves, from the front of `moves`, are currently undone. */
    var currentMove: nat

    predicate Shaped() {
      sudoku.Length0 == 9 && sudoku.Length1 == 9
    }

    /** The grid as a value. */
    ghost function Board(): (b: Grid)
      reads sudoku
      requires Shaped()
      ensures IsGrid(b)
      ensures forall i, j :: 0 <= i < 9 && 0 <= j < 9 ==> b[i][j] == sudoku[i, j]
    {
      seq(9, i requires 0 <= i < 9 reads sudoku =>
        seq(9, j requires 0 <= j < 9 reads sudoku => sudoku[i, j]))
    }

    ghost predicate Valid()
      reads this, sudoku
    {
      Shaped() && currentMove <= |moves| && MovesAgree(moves, Board())
    }

    /** The grid as the window shows it: the first `currentMove` moves undone. */
    ghost function Displayed(): Grid
      reads this, sudoku
      requires Valid()
    {
      assert MovesInBounds(moves[..currentMove]);
      Hide(Board(), moves[..currentMove])
    }

    constructor ()
      ensures Valid() && fresh(sudoku) && moves == [] && currentMove == 0
      ensures forall i, j :: InBounds(i, j) ==> Board()[i][j] == 0
    {
      sudoku := new int[9, 9]((i, j) => 0);
      moves := [];
      currentMove := 0;
    }

    /** `valid_cell`: no other cell in the row, the column or the box of
        `(row, column)` holds its value. */
    method ValidCell(row: int, column: int) returns (valid: bool)
      requires Shaped() && InBounds(row, column)
      ensures valid == NoPeerConflict(Board(), row, column)
    {
      var number := sudoku[row, column];

      for i := 0 to 9
        invariant forall b :: 0 <= b < i && b != column ==> sudoku[row, b] != number
      {
        if i != column && sudoku[row, i] == number {
          assert Peer(row, column, row, i) && Board()[row][i] == Board()[row][column];
          return false;
        }
      }

      for i := 0 to 9
        invariant forall a :: 0 <= a < i && a != row ==> sudoku[a, column] != number
      {
        if i != row && sudoku[i, column] == number {
          assert Peer(row, column, i, column) && Board()[i][column] == Board()[row][column];
          return false;
        }
      }

      var boxRow := row - row % 3;
      var boxColumn := column - column % 3;
      for i := boxRow to boxRow + 3
        invariant forall a, b :: boxRow <= a < i && boxColumn <= b < boxColumn + 3 && (a != row || b != column) ==>
          sudoku[a, b] != number
      {
        for j := boxColumn to boxColumn + 3
          invariant forall a, b :: boxRow <= a < i && boxColumn <= b < boxColumn + 3 && (a != row || b != column) ==>
            sudoku[a, b] != number
          invariant forall b :: boxColumn <= b < j && (i != row || b != column) ==> sudoku[i, b] != number
        {
          if (i != row || j != column) && sudoku[i, j] == number {
            assert Peer(row, column, i, j) && Board()[i][j] == Board()[row][column];
            return false;
          }
        }
      }

      return true;
    }

    /** `find_empty_cell`: the first cell holding 0 in row-major order, which is
        the first of the cells the search fills. */
    method FindEmptyCell() returns (found: bool, row: int, column: int)
      requires Shaped()
      ensures found ==> InBounds(row, column) && Board()[row][column] == 0
      ensures found ==> forall i, j :: InBounds(i, j) && Before(i, j, row, column) ==> Board()[i][j] != 0
      ensures found ==> EmptyCells(Board()) != [] && EmptyCells(Board())[0] == (row, column)
      ensures !found <==> forall i, j :: InBounds(i, j) ==> Board()[i][j] != 0
      ensures !found <==> EmptyCells(Board()) == []
    {
      row, column := 0, 0;
      while row < 9
        invariant 0 <= row <= 9
        invariant forall i, j :: 0 <= i < row && 0 <= j < 9 ==> sudoku[i, j] != 0
      {
        column := 0;
        while column < 9
          invariant 0 <= column <= 9
          invariant forall i, j :: 0 <= i < row && 0 <= j < 9 ==> sudoku[i, j] != 0
          invariant forall j :: 0 <= j < column ==> sudoku[row, j] != 0
        {
          if sudoku[row, column] == 0 {
            FirstEmptyFilled(Board(), row, column, 1);
            return true, row, column;
          }
          column := column + 1;
        }
        row := row + 1;
      }
      NoEmptyCells(Board());
      return false, row, column;
    }

    /** `solve`: backtracking over the empty cells in row-major order. On
        success the grid is a solution of the old grid and one move per filled
        cell has been appended, the last filled first; on failure nothing has
        changed and the old grid has no solution at all. */
    method Solve() returns (ok: bool)
      requires Shaped()
      modifies sudoku, this`moves
      ensures ok ==> Solution(old(Board()), Board())
      ensures ok ==> moves == old(moves) + FillMoves(EmptyCells(old(Board())), Board())
      ensures !ok ==> Board() == old(Board()) && moves == old(moves)
      ensures !ok ==> SudokuSpec.Unsolvable(old(Board()))
      decreases |EmptyCells(Board())|, 2
    {
      var found, row, column := FindEmptyCell();
      if !found {
        NoEmptyCells(Board());
        return true;
      }
      ok := TryValues(row, column, Board());
    }

    /** The rest of `solve` once the first empty cell `(row, column)` of `g` is
        found: the values 1 to 9 are tried in turn, and the cell is emptied
        again when none of them leads to a solution. */
    method TryValues(row: int, column: int, ghost g: Grid) returns (ok: bool)
      requires Shaped() && Board() == g && InBounds(row, column) && g[row][column] == 0
      requires forall i, j :: InBounds(i, j) && Before(i, j, row, column) ==> g[i][j] != 0
      modifies sudoku, this`moves
      ensures ok ==> Solution(g, Board())
      ensures ok ==> moves == old(moves) + FillMoves(EmptyCells(g), Board())
      ensures !ok ==> Board() == g && moves == old(moves)
      ensures !ok ==> SudokuSpec.Unsolvable(g)
      decreases |EmptyCells(Board())|, 1
    {
      sudoku[row, column] := 1;
      GridsEqual(Board(), Set(g, row, column, 1));
      while sudoku[row, column] <= 9
        invariant 1 <= sudoku[row, column] <= 10
        invariant Board() == Set(g, row, column, sudoku[row, column])
        invariant moves == old(moves)
        invariant NoSolutionBelow(g, row, column, sudoku[row, column])
        decreases 10 - sudoku[row, column]
      {
        ghost var v := sudoku[row, column];
        ok := TryValue(row, column, g);
        if ok {
          return true;
        }
        NoSolutionAbove(g, row, column, v);
        sudoku[row, column] := sudoku[row, column] + 1;
        GridsEqual(Board(), Set(g, row, column, v + 1));
      }

      NoSolutionAtAll(g, row, column);
      sudoku[row, column] := 0;
      GridsEqual(Board(), g);
      return false;
    }

    /** One turn of the loop in `solve`, with the value `v` already written into
        the first empty cell `(row, column)` of `g`: when the cell is valid and the
        rest can be solved, the move is recorded. */
    method TryValue(row: int, column: int, ghost g: Grid) returns (ok: bool)
      requires Shaped() && IsGrid(g) && InBounds(row, column) && g[row][column] == 0
      requires forall i, j :: InBounds(i, j) && Before(i, j, row, column) ==> g[i][j] != 0
      requires 1 <= sudoku[row, column] <= 9 && Board() == Set(g, row, column, sudoku[row, column])
      modifies sudoku, this`moves
      ensures ok ==> Solution(g, Board())
      ensures ok ==> moves == old(moves) + FillMoves(EmptyCells(g), Board())
      ensures !ok ==> Board() == old(Board()) && moves == old(moves)
      ensures !ok ==> NoSolutionWith(g, row, column, old(sudoku[row, column]))
      decreases |EmptyCells(g)|, 0
    {
      ghost var v := sudoku[row, column];
      ghost var gv := Set(g, row, column, v);
      FirstEmptyFilled(g, row, column, v);
      var valid := ValidCell(row, column);
      if !valid {
        ConflictBlocks(g, row, column, v);
        return false;
      }
      assert NoPeerConflict(gv, row, column);
      ok := Solve();
      if !ok {
        FailedPlacement(g, row, column, v);
        return false;
      }
      ghost var s := Board();
      SolvedByFirst(g, row, column, v, s);
      assert sudoku[row, column] == v;
      moves := moves + [Move(row, column, sudoku[row, column])];
    }

    /** The check made before solving: every given cell is free of conflicts. */
    method CheckGivens() returns (ok: bool)
      requires Shaped()
      ensures ok == Consistent(Board())
    {
      for i := 0 to 9
        invariant forall a, b :: 0 <= a < i && 0 <= b < 9 && Board()[a][b] != 0 ==> NoPeerConflict(Board(), a, b)
      {
        for j := 0 to 9
          invariant forall a, b :: 0 <= a < i && 0 <= b < 9 && Board()[a][b] != 0 ==> NoPeerConflict(Board(), a, b)
          invariant forall b :: 0 <= b < j && Board()[i][b] != 0 ==> NoPeerConflict(Board(), i, b)
        {
          if sudoku[i, j] != 0 {
            var valid := ValidCell(i, j);
            if !valid {
              return false;
            }
          }
        }
      }
      return true;
    }

    /** `save_sudoku`: copies the entered grid, 0 for an empty widget, into `sudoku`. */
    method SaveSudoku(entries: Grid)
      requires Shaped() && IsGrid(entries)
      modifies sudoku
      ensures Board() == entries
    {
      for i := 0 to 9
        invariant forall a, b :: 0 <= a < i && 0 <= b < 9 ==> sudoku[a, b] == entries[a][b]
      {
        for j := 0 to 9
          invariant forall a, b :: 0 <= a < i && 0 <= b < 9 ==> sudoku[a, b] == entries[a][b]
          invariant forall b :: 0 <= b < j ==> sudoku[i, b] == entries[i][b]
        {
          sudoku[i, j] := entries[i][j];
        }
      }
      GridsEqual(Board(), entries);
    }

    /** The "resolve" button: save the entries, reject them when a given conflicts,
        otherwise search; on success every move is shown. The button is enabled
        only while no moves are recorded. */
    method Resolve(entries: Grid) returns (outcome: Outcome)
      requires Valid() && moves == [] && IsGrid(entries)
      modifies sudoku, this`moves, this`currentMove
      ensures Valid()
      ensures outcome == Rejected <==> !Consistent(entries)
      ensures outcome != Resolved ==> Board() == entries && moves == []
      ensures outcome == NoSolution ==> SudokuSpec.Unsolvable(entries)
      ensures outcome == Resolved ==> Solution(entries, Board()) && Solved(Board())
      ensures outcome == Resolved ==> moves == FillMoves(EmptyCells(entries), Board())
      ensures outcome == Resolved ==> currentMove == 0 && Displayed() == Board()
      ensures outcome == Resolved ==> Hide(Board(), moves) == entries
    {
      SaveSudoku(entries);
      var consistent := CheckGivens();
      if !consistent {
        return Rejected;
      }
      var ok := Solve();
      if !ok {
        return NoSolution;
      }
      ConsistentSolved(entries, Board());
      FillAgrees(entries, Board());
      HideAllMoves(entries, Board());
      currentMove := 0;
      return Resolved;
    }

    /** The "clear" button: forgets the moves. */
    method Clear()
      requires Valid()
      modifies this`moves, this`currentMove
      ensures Valid() && moves == [] && currentMove == 0
    {
      currentMove := 0;
      moves := [];
    }

    /** The "previous" button: undoes the next move, emptying its cell. */
    method Previous()
      requires Valid() && currentMove < |moves|
      modifies this`currentMove
      ensures Valid() && currentMove == old(currentMove) + 1
      ensures var m := moves[old(currentMove)]; Displayed() == Set(old(Displayed()), m.row, m.column, 0)
    {
      HideOneMore(Board(), moves, currentMove);
      currentMove := currentMove + 1;
    }

    /** The "next" button: redoes the last undone move, showing its value again. */
    method Next()
      requires Valid() && 0 < currentMove
      modifies this`currentMove
      ensures Valid() && currentMove == old(currentMove) - 1
      ensures var m := moves[currentMove]; Displayed() == Set(old(Displayed()), m.row, m.column, m.value)
    {
      ShowOneMore(Board(), moves, currentMove);
      currentMove := currentMove - 1;
    }

    /** The "begin" button: undoes every move. */
    method Begin()
      requires Valid()
      modifies this`currentMove
      ensures Valid() && currentMove == |moves|
      ensures Displayed() == Hide(Board(), moves)
    {
      while currentMove != |moves|
        invariant Valid()
        decreases |moves| - currentMove
      {
        currentMove := currentMove + 1;
      }
      assert moves[..currentMove] == moves;
    }

    /** The "end" button: redoes every move. */
    method End()
      requires Valid()
      modifies this`currentMove
      ensures Valid() && currentMove == 0
      ensures Displayed() == Board()
    {
      while currentMove != 0
        invariant Valid()
      {
        currentMove := currentMove - 1;
      }
    }
  }
}
