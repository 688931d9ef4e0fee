# Digraph and Sudoku solver, modelled in Dafny

Dafny models of two components from a C++ exam repository, with proofs.

**`Digraph<T, E>` (digraph.h).** A directed graph over nodes of type `T`. Node
equality is the user's functor `E`. The graph stores its nodes in a dynamic
array `_nodes` and its arcs in a square boolean adjacency matrix, both
`_nodes_number` wide. Adding or removing a node reallocates both, copies the
old contents and (for removal) closes the gap. Adding or removing an arc flips
one matrix cell. The number of arcs is recomputed by scanning the matrix.

**The Sudoku window (Qt/Sudoku/mainwindow.cpp), without its widgets.**
- It holds a 9x9 grid `sudoku` in which 0 marks an empty cell.
- `valid_cell` checks one cell against its row, column and 3x3 box.
- `find_empty_cell` scans for the first zero in row-major order.
- `solve` backtracks recursively. It tries 1 to 9 in the first empty cell. It
  appends a move `(row, column, value)` after the recursive call has succeeded,
  so the last cell filled is recorded first.
- The cursor `current_move` walks the recorded moves. "previous" and "begin"
  hide moves; "next" and "end" show them again.

## Layout

| file | module | contents |
|---|---|---|
| `digraph_spec.dfy` | `DigraphSpec` | the graph as a value (`Graph`: node sequence plus adjacency rows) and what each operation does to it (`Inserted`, `RemovedAt`, `Toggled`, `IndexOf`, `Adjacent`, `EdgeCount`), with lemmas |
| `digraph.dfy` | `Digraphs` | class `Digraph` over an `array<T>` and an `array2<bool>`, described by a ghost `Model: Graph<T>` |
| `sudoku_spec.dfy` | `SudokuSpec` | grids as values, the rules (`Peer`, `NoPeerConflict`, `Consistent`), solutions (`Solution`, `Unsolvable`), the order the solver fills cells in (`EmptyCells`), the moves it records (`FillMoves`) and what the cursor shows (`Hide`), with lemmas |
| `sudoku.dfy` | `Sudoku` | class `MainWindow` with the grid as an `array2<int>`, `moves` and `currentMove` |

Design points:
- The functor `E` becomes a value `eq: (T, T) -> bool`.
- Lemmas that rely on symmetry or transitivity of `eq` require `Equivalence(eq)`.
  The class itself does not.
- `Digraph.Valid()` ties the arrays to the ghost `Model`:
  - `Model.nodes == nodes[..]`;
  - every matrix cell equals `Model.adj`;
  - the nodes are pairwise distinct under `eq`.
- The cursor `current_move` is an index `currentMove` into `moves`:
  - `moves[..currentMove]` are the moves currently hidden;
  - `currentMove == 0` is `moves.cbegin()`;
  - `currentMove == |moves|` is `moves.cend()`.
- After a successful `Resolve`, what the grid widgets show is the ghost
  function `MainWindow.Displayed()`: the solved board with the hidden moves'
  cells emptied.

Two behaviours of the code shape the contracts:
- `edgesNumber` keeps no counter; it rescans the matrix on every call
  (digraph.h:161-172), and `EdgesNumber` does the same.
- `hasEdge` returns `false` when either node is missing (digraph.h:364-367),
  so `HasEdge` has no precondition on presence.

## Model

| member | source | states |
|---|---|---|
| DigraphSpec.IndexOf | digraph.h:57-68 | the index is at most the node count; it is below the count exactly when the node is present; it names a matching node with no match before it (absent node: the count, as the fallback return does) |
| DigraphSpec.UniqueMatch | digraph.h:57-68 | when the nodes are distinct under an equivalence, the index is the position of any node equal to the argument |
| DigraphSpec.IndexOfAppend | digraph.h:183-239 | appending a node keeps every earlier node's index; the new node's index is the old count |
| DigraphSpec.IndexOfRemoved | digraph.h:252-321 | after removing position k, every other node's index shifts down by one when it was after k |
| DigraphSpec.IndexOfShifted | digraph.h:296-303 | the same shift holds for any sequence that lists the old nodes with position k skipped |
| DigraphSpec.IndexOfIs | digraph.h:57-68 | a position holding the first match (or the count, when nothing matches) is the index |
| DigraphSpec.InsertedValid | digraph.h:183-239 | inserting an absent node keeps the graph valid (distinct nodes, square matrix), keeps the old nodes in place and puts the new one last |
| DigraphSpec.InsertedAdjacency | digraph.h:226-234 | inserting a node keeps every old arc, gives the new node no arc in or out, and leaves every old node pair's adjacency unchanged |
| DigraphSpec.EdgeCountGrow | digraph.h:226-234 | growing the matrix by an arc-free row and column keeps the arc count |
| DigraphSpec.GrowRow | digraph.h:226-234 | an old row, extended by a false cell, keeps its arc count |
| DigraphSpec.GrowLastRow | digraph.h:231-234 | the added row is all false |
| DigraphSpec.ToggledFacts | digraph.h:70-78 | flipping the cell of (u, v) keeps the graph valid, flips the adjacency of u to v, changes the arc count by one in the matching direction, and leaves every other pair's adjacency unchanged |
| DigraphSpec.ToggledTwice | digraph.h:333-353 | flipping a cell twice restores the graph, so `addEdge` followed by `removeEdge` is the identity |
| DigraphSpec.ShrinkAt | digraph.h:305-316 | the shrunk matrix's cell (i, j) is the old cell at the indices skipping k |
| DigraphSpec.RemovedValid | digraph.h:252-321 | removing position k keeps the graph valid, with one node fewer and the others in order |
| DigraphSpec.RemovedNodesAt | digraph.h:296-303 | the node list with position k cut out lists the old nodes with k skipped |
| DigraphSpec.RemovedLast | digraph.h:255-258 | removing the only node leaves the empty graph, which is what `clear` produces |
| DigraphSpec.RemovedMembership | digraph.h:252-321 | after `removeNode(x)`, x is absent and exactly the nodes not equal to x remain |
| DigraphSpec.MembershipShifted | digraph.h:296-303 | a node is in the list with position k skipped exactly when it was in the old list and is not the removed node |
| DigraphSpec.RemovedAdjacency | digraph.h:305-316 | removing a node keeps the adjacency of every pair of remaining nodes |
| DigraphSpec.EdgeCountShrink | digraph.h:252-321 | removing node k removes exactly the arcs in its row and column (counting the loop once) |
| DigraphSpec.DropRowCounts | digraph.h:305-316 | dropping row k removes that row's arcs and the k-th column's cell of that row |
| DigraphSpec.DropRowEdges | digraph.h:305-316 | the arc count of a matrix split around one row is the sum of the parts |
| DigraphSpec.DropRowColumn | digraph.h:305-316 | the column count of a matrix split around one row is the sum of the parts |
| DigraphSpec.ShrinkIsDrops | digraph.h:305-316 | shrinking at k is dropping row k and then column k |
| DigraphSpec.RowCountConcat | digraph.h:161-172 | the true cells of a concatenated row are the sum of the parts |
| DigraphSpec.EdgeCountConcat | digraph.h:161-172 | the arcs of stacked rows are the sum of the parts |
| DigraphSpec.ColCountConcat | digraph.h:161-172 | the true cells of a column of stacked rows are the sum of the parts |
| DigraphSpec.RowCountNone | digraph.h:231-234 | an all-false row has no arcs |
| DigraphSpec.EdgeCountRowwise | digraph.h:161-172 | matrices whose rows have equal counts have equal arc counts |
| DigraphSpec.RowCountUpdate | digraph.h:77 | changing one cell changes the row count by the difference of the two cells |
| DigraphSpec.EdgeCountUpdate | digraph.h:77 | replacing one row changes the arc count by the difference of the two rows' counts |
| DigraphSpec.EdgeCountDropColumn | digraph.h:305-316 | dropping column k removes exactly that column's arcs |
| Digraphs.Digraph.constructor | digraph.h:91 | the default constructor gives a valid empty graph |
| Digraphs.Digraph.Copy | digraph.h:99-115 | the copy constructor replays `addNode` for each node, then copies the cells; the copy is valid, fresh, and has the other graph's nodes and arcs |
| Digraphs.Digraph.CopyCells | digraph.h:110-114 | every cell of the source matrix is copied into the destination |
| Digraphs.Digraph.Clear | digraph.h:30-42 | after `clear`, the graph is valid and empty |
| Digraphs.Digraph.NodeIndex | digraph.h:57-68 | returns the index of the first matching node, or the node count when none matches |
| Digraphs.Digraph.SetEdge | digraph.h:70-78 | flips exactly the cell of (u, v) |
| Digraphs.Digraph.NodesNumber | digraph.h:152-154 | returns the number of nodes |
| Digraphs.Digraph.EdgesNumber | digraph.h:161-172 | the double loop returns the number of true cells of the adjacency matrix |
| Digraphs.Digraph.AddNode | digraph.h:183-239 | adding an absent node: the graph is valid and is the old graph with the node appended and an arc-free row and column added |
| Digraphs.Digraph.GrownStorage | digraph.h:186-234 | the new arrays, one wider, hold the old nodes, then the new one; the old cells; and false in the new row and column |
| Digraphs.Digraph.RemoveNode | digraph.h:252-321 | removing a present node: the graph is valid and is the old graph with that node's position cut out of the nodes and of both matrix dimensions (one node: cleared) |
| Digraphs.Digraph.ShrunkStorage | digraph.h:260-316 | the new arrays, one narrower, hold the node list and the matrix with position k removed |
| Digraphs.Digraph.ShrunkNodes | digraph.h:296-303 | the new node array holds the old nodes with position k skipped |
| Digraphs.Digraph.ShrunkMatrix | digraph.h:305-316 | the new matrix's cell (i, j) is the old cell at the row and column skipping k |
| Digraphs.Digraph.AddEdge | digraph.h:333-337 | for two present nodes without an arc: adds the arc, flips only that cell, and raises the arc count by one |
| Digraphs.Digraph.RemoveEdge | digraph.h:349-353 | for two present nodes with an arc: removes the arc, flips only that cell, and lowers the arc count by one |
| Digraphs.Digraph.Exists | digraph.h:355-362 | returns true exactly when some node is equal to the argument |
| Digraphs.Digraph.HasEdge | digraph.h:364-373 | returns the adjacency of u to v, and false when either node is missing |
| Digraphs.Digraph.Begin | digraph.h:380-382 | the iterator starts at the first node |
| Digraphs.Digraph.End | digraph.h:387-389 | the end iterator is one past the last node |
| Digraphs.Digraph.Get | digraph.h:375 | dereferencing iterator position i gives node i |
| Digraphs.Digraph.Assign | digraph.h:137-145 | assignment copies the other graph and swaps the copy's storage in; afterwards this graph has the other's nodes and arcs, and the other is unchanged |
| Digraphs.Traverse | digraph.h:405-407 | walking from `begin()` to `end()` visits exactly the nodes, in order |
| SudokuSpec.Set | Qt/Sudoku/mainwindow.cpp:190 | writing a cell changes that cell and no other |
| SudokuSpec.EmptyFrom | Qt/Sudoku/mainwindow.cpp:203-212 | lists in-bounds empty cells, strictly increasing in row-major order |
| SudokuSpec.LinearCell | Qt/Sudoku/mainwindow.cpp:203-212 | a row-major position names exactly one cell |
| SudokuSpec.EmptyFromComplete | Qt/Sudoku/mainwindow.cpp:203-212 | every empty cell at or after a position is listed |
| SudokuSpec.EmptyCellsExact | Qt/Sudoku/mainwindow.cpp:203-212 | a cell is among the empty cells exactly when it is in bounds and holds 0 |
| SudokuSpec.EmptyFromSkip | Qt/Sudoku/mainwindow.cpp:203-212 | a stretch of filled cells does not change the list |
| SudokuSpec.EmptyFromAgree | Qt/Sudoku/mainwindow.cpp:203-212 | grids that agree from a position on list the same empty cells from it |
| SudokuSpec.FirstEmptyFilled | Qt/Sudoku/mainwindow.cpp:185-192 | filling the first empty cell takes it off the front of the list and leaves the rest, so each recursive `solve` sees one empty cell fewer |
| SudokuSpec.EmptyBefore | Qt/Sudoku/mainwindow.cpp:203-212 | when no cell before (r, c) is empty, the list starts at (r, c)'s position |
| SudokuSpec.FilledBefore | Qt/Sudoku/mainwindow.cpp:190-192 | once (r, c) is filled, the list starts after it |
| SudokuSpec.FilledAfter | Qt/Sudoku/mainwindow.cpp:190-192 | filling (r, c) leaves the empty cells after it unchanged |
| SudokuSpec.EmptyFromFront | Qt/Sudoku/mainwindow.cpp:203-212 | an empty cell heads the list from its own position |
| SudokuSpec.CellAt | Qt/Sudoku/mainwindow.cpp:204-205 | position m is the cell (m / 9, m % 9) |
| SudokuSpec.NoEmptyCells | Qt/Sudoku/mainwindow.cpp:185-188 | a grid without zeros has no empty cells and is its own solution |
| SudokuSpec.FirstEmpty | Qt/Sudoku/mainwindow.cpp:203-212 | a non-empty list means the grid holds a zero |
| SudokuSpec.PeerSymmetric | Qt/Sudoku/mainwindow.cpp:229-258 | being peers is symmetric |
| SudokuSpec.SameBox | Qt/Sudoku/mainwindow.cpp:247-248 | rows (or columns) in the same box have the same box start |
| SudokuSpec.ConflictBlocks | Qt/Sudoku/mainwindow.cpp:192 | a value that clashes with a peer leads to no solution, so skipping it loses none |
| SudokuSpec.SolutionNarrows | Qt/Sudoku/mainwindow.cpp:190-196 | a solution of the grid that agrees with a trial value solves the grid with that value written |
| SudokuSpec.SolutionWidens | Qt/Sudoku/mainwindow.cpp:192-194 | a solution found after writing a conflict-free value solves the grid before the write |
| SudokuSpec.SolvedByFirst | Qt/Sudoku/mainwindow.cpp:192-194 | the same, plus the recorded moves: the inner call's moves, then the move for this cell |
| SudokuSpec.FailedPlacement | Qt/Sudoku/mainwindow.cpp:192 | when the grid with the trial value has no solution, no solution uses that value |
| SudokuSpec.NoSolutionAbove | Qt/Sudoku/mainwindow.cpp:196 | trying the next value keeps "no solution below the current value" |
| SudokuSpec.NoSolutionAtAll | Qt/Sudoku/mainwindow.cpp:191-200 | when no value from 1 to 9 works, the grid is unsolvable |
| SudokuSpec.ConsistentSolved | Qt/Sudoku/mainwindow.cpp:46-56 | a solution of consistent givens is a solved grid: full, with no peer conflict anywhere |
| SudokuSpec.FillMoves | Qt/Sudoku/mainwindow.cpp:193 | one move per empty cell, in reverse of the filling order, each with the solution's value |
| SudokuSpec.HideAt | Qt/Sudoku/mainwindow.cpp:99-139 | after hiding, a cell holds 0 exactly when some hidden move names it, and its value otherwise |
| SudokuSpec.FillAgrees | Qt/Sudoku/mainwindow.cpp:193 | the recorded moves name distinct cells and carry the solution's values |
| SudokuSpec.HideAllMoves | Qt/Sudoku/mainwindow.cpp:120-139 | hiding every move of a solution gives back the grid the search started from |
| SudokuSpec.TouchedIffEmpty | Qt/Sudoku/mainwindow.cpp:183-201 | the recorded moves name exactly the cells that were empty |
| SudokuSpec.MoveOfCell | Qt/Sudoku/mainwindow.cpp:193 | move m is for the cell filled m-th from the end |
| SudokuSpec.GridsEqual | Qt/Sudoku/mainwindow.h:35 | two 9x9 grids with equal cells are equal |
| SudokuSpec.HideOneMore | Qt/Sudoku/mainwindow.cpp:99-109 | moving the cursor past one more move empties that move's cell |
| SudokuSpec.ShowOneMore | Qt/Sudoku/mainwindow.cpp:141-160 | moving the cursor back over a move writes its value back |
| SudokuSpec.UntouchedBefore | Qt/Sudoku/mainwindow.cpp:193 | no move recorded before a move names its cell |
| SudokuSpec.SetBack | Qt/Sudoku/mainwindow.cpp:154-159 | emptying a cell and writing its value back restores the grid |
| Sudoku.MainWindow.Board | Qt/Sudoku/mainwindow.h:35 | the grid array read as a value, cell for cell |
| Sudoku.MainWindow.constructor | Qt/Sudoku/mainwindow.h:35-49 | a fresh 9x9 grid of zeros, no moves, cursor at the start |
| Sudoku.MainWindow.ValidCell | Qt/Sudoku/mainwindow.cpp:229-258 | true exactly when no cell in the row, the column or the box holds the same value |
| Sudoku.MainWindow.FindEmptyCell | Qt/Sudoku/mainwindow.cpp:203-212 | finds the first zero in row-major order, which heads `EmptyCells`; reports none exactly when the grid has no zero |
| Sudoku.MainWindow.Solve | Qt/Sudoku/mainwindow.cpp:183-201 | on success the grid is a solution of the input and the moves gained one move per empty cell; on failure the grid and the moves are unchanged and the input has no solution |
| Sudoku.MainWindow.TryValues | Qt/Sudoku/mainwindow.cpp:190-200 | the loop over values 1 to 9: on success as `Solve`; on failure the cell is reset to 0 and the input has no solution |
| Sudoku.MainWindow.TryValue | Qt/Sudoku/mainwindow.cpp:192-195 | one trial value: on success the grid solves the input and its move is appended last; on failure nothing changes and no solution uses that value |
| Sudoku.MainWindow.CheckGivens | Qt/Sudoku/mainwindow.cpp:46-54 | accepts exactly when no filled cell clashes with a peer |
| Sudoku.MainWindow.SaveSudoku | Qt/Sudoku/mainwindow.cpp:214-227 | the grid becomes the entered values |
| Sudoku.MainWindow.Resolve | Qt/Sudoku/mainwindow.cpp:29-71 | rejects exactly the inconsistent inputs; reports no solution only for unsolvable inputs; on success the grid is a solved completion of the input, the moves name every filled cell, all moves are shown, and hiding them all gives back the input |
| Sudoku.MainWindow.Clear | Qt/Sudoku/mainwindow.cpp:73-97 | no moves, cursor at the start |
| Sudoku.MainWindow.Previous | Qt/Sudoku/mainwindow.cpp:99-118 | the cursor moves one on and the display loses that move's value |
| Sudoku.MainWindow.Next | Qt/Sudoku/mainwindow.cpp:141-160 | the cursor moves one back and the display shows that move's value again |
| Sudoku.MainWindow.Begin | Qt/Sudoku/mainwindow.cpp:120-139 | the cursor reaches the end and every move is hidden |
| Sudoku.MainWindow.End | Qt/Sudoku/mainwindow.cpp:162-181 | the cursor reaches the start and the display is the solved board |

## Left out

- Allocation failure. The `try`/`catch` blocks that undo a failed `new` in `addNode`, `removeNode` and the copy constructor are not modelled, and neither is `clear_temps`. Dafny allocation cannot fail, so those paths are never taken.
- Memory management. `delete` is used where `delete[]` is needed (digraph.h:215, 290), and `operator=` leaks its temporary copy (digraph.h:138). The model has garbage collection and no destructor, so neither is expressible.
- `operator<<` (digraph.h:401-418) prints to a stream. Only its walk over the nodes is modelled (`Traverse`). Its cells are printed as `hasEdge(column node, row node)`, which transposes the matrix relative to the row labels.
- Integer widths. `unsigned int` counters and `short` cells are taken as unbounded integers. More than 2^32 - 1 nodes is not representable there anyway.
- The test scenarios of main.cpp are not restated as lemmas, for example the expected node and arc counts after a run of additions.
- `Assign`: the temporary copy holds the old storage after the swap. Nothing refers to it in the model, just as nothing frees it in the code.
- The Qt widgets are not modelled: the constructor's validators, enabling and disabling buttons, message boxes, `print_sudoku` and the text in the cell widgets.
  - `SaveSudoku` takes the parsed cell contents as a grid argument.
  - `Displayed()` describes the cell widgets only from a successful `Resolve` until the next `Clear`. Before `Resolve` the widgets hold whatever the user typed, which the model does not track. After `Clear` they are empty (Qt/Sudoku/mainwindow.cpp:85-93), while `Displayed()` still returns the solved board, because `Clear` leaves `sudoku` alone just as the code does.
  - The entered values may be any integers, as `toShort` may return. The 1-to-9 validator is not modelled.
- constructor: it fills `sudoku` with zeros. The C++ constructor (Qt/Sudoku/mainwindow.cpp:7-22) leaves the array uninitialized. Nothing depends on the difference, because `Resolve` overwrites every cell before reading any.
- `Resolve` requires `moves == []`. Its button is enabled only at start and after `clear`, both of which leave no moves. A second solve on a non-empty move list is not modelled.
- `Previous` and `Next` require a move to step over. Their buttons are enabled only then, and the code would otherwise dereference `cend()` or step before `cbegin()`.
- `Solve` models `solve()`, `TryValues` models its `while` loop, and `TryValue` models one turn of the loop body. The code has one function; it is split into three methods to keep each proof small.
