# Number Huarong (sliding-tile puzzle) engine in Dafny

This project models the puzzle engine of the `NumberHuarongApp` game. The game is an N×N sliding-tile puzzle, the "15-puzzle" when N = 4. The board is a flat list of the numbers 0 .. N²−1, and 0 is the blank. Tapping a tile that is orthogonally next to the blank swaps the two. The first such move starts the clock. When the tiles read 1, 2, …, N²−1 followed by the blank, the game is won and restarts. A fresh game is drawn by shuffling until a parity test accepts the board: the inversion count of the tiles, plus the blank's row when N is even, must be even.

Modules:

- `Wrappers`: `Option`, which stands for Python's `None`.
- `InversionCount`: the inversion count, as a function and as the nested loop of the solvability test. It also holds the lemmas describing how the count changes when one value moves past others.
- `Board`: boards as permutations, `list.index`, the move rule, the move itself, sequences of taps, the winning layout and the win test.
- `Solvability`: the parity test. It proves that no legal move changes the test's verdict, that the winning layout passes it, and that a board failing it can never be won.
- `Session`: the class `NumberHuarong`. It holds the session state (`tiles`, `step`, `timeStart`, `running`) and the methods `InitGame`, `Restart`, `GenerateSolvablePuzzle`, `IsSolvable` and `TapTile`, which update that state in place. The invariant `Valid()` says three things:
  - the tiles form a board that passes the test;
  - the clock runs exactly when at least one step has been made;
  - a start time is recorded exactly while the clock runs.

The board size is a constructor parameter N ≥ 2. The source fixes it at 4.

Shuffling and the clock are supplied by the caller:

- The sequence `draws` stands in for the outcomes of `random.shuffle`. The retry loop takes the first draw that passes the test.
- The parameter `now` is the clock reading at the time of a tap.

## Model

| member | source | states |
|---|---|---|
| InversionCount.CountLess | main.py:136-137 | defines how many later values are smaller than board[i], the count one run of the inner loop adds; it is at most the number of values looked at |
| InversionCount.Inversions | main.py:134-138 | defines the inversion count recursively: the pairs that involve the first value plus those of the rest |
| InversionCount.CountInversions | main.py:134-138 | the nested loops compute exactly the recursive pair count `Inversions` |
| InversionCount.AdjacentSwap | main.py:134-138 | exchanging two neighbouring distinct values changes the inversion count by exactly one |
| InversionCount.MoveAcross | main.py:134-138 | moving one value across a block of other values changes the parity of the inversion count by the block's length |
| InversionCount.AscendingNoInversions | main.py:120 | an ascending run such as 1 .. N²−1 has no inversions |
| InversionCount.InversionsCons | main.py:135-138 | the inversions of x followed by t are those involving x plus those of t |
| InversionCount.CountLessConcat | main.py:136-137 | the count of smaller values over a concatenation is the sum of the counts |
| InversionCount.CountLessNone | main.py:136-137 | no later value is smaller, so there are no inversions with x |
| Board.IndexOf | main.py:84-85 | `list.index` gives a position holding the value, and no earlier position holds it |
| Board.IndexOfBoard | main.py:84-85 | on a board, the index of the value at position k is k |
| Board.Adjacent | main.py:86-92 | defines the legality test on the row and column of the two cells; two cells that pass it are distinct |
| Board.IsLegalMove | main.py:84-92 | defines a legal tap as the test on the tapped value's first index and the blank's first index |
| Board.AdjacentFlat | main.py:86-92 | a tap is legal iff the cells are N apart (a vertical neighbour) or 1 apart within the same row (a horizontal neighbour); both directions |
| Board.AdjacentSymmetric | main.py:92 | the legality test does not depend on which cell is the tile and which the blank |
| Board.LegalNeverDiagonalOrBlank | main.py:84-92 | tapping the blank is never legal; a tile in another row and another column from the blank is never legal |
| Board.Move | main.py:92-93 | a legal tap puts the tile in the blank's cell and the blank in the tile's cell and changes no other cell; an illegal tap leaves the board unchanged; the result is again a permutation of 0 .. N²−1 |
| Board.Swap | main.py:93 | the exchange of two cells: each takes the other's value, every other cell is unchanged, and the contents are the same multiset |
| Board.SwapPreservesBoard | main.py:93 | exchanging two cells of a board gives a board |
| Board.MoveUndo | main.py:92-93 | tapping the same tile a second time restores the board |
| Board.Play | main.py:92-93 | any sequence of taps on a board leaves a board |
| Board.Target | main.py:120 | the winning layout has N² cells: 1 .. N²−1 in order and then the blank |
| Board.TargetIsBoard | main.py:120 | the winning layout is a permutation of 0 .. N²−1 |
| Board.CheckWin | main.py:119-121 | the win test holds iff the board has N² cells, ends with the blank and holds i+1 in cell i before it |
| Solvability.NonBlank | main.py:133 | defines the board without its blank, in board order |
| Solvability.BlankRow | main.py:132 | the blank's row counted from 1; on a board of N² cells it lies between 1 and N |
| Solvability.ParityRule | main.py:139-141 | defines the final test: for even N the inversions plus the blank's row are even, for odd N the inversions are even |
| Solvability.Solvable | main.py:130-141 | defines the verdict of the test as the parity rule on the inversions of the board without its blank and the blank's row |
| Solvability.NonBlankProperties | main.py:133 | removing the blank leaves no blank and changes nothing in a sequence without a blank |
| Solvability.NonBlankConcat | main.py:133 | removing the blank distributes over concatenation |
| Solvability.MovePreservesSolvable | main.py:92-93 | no tap, legal or not, changes the verdict of the solvability test |
| Solvability.MoveShape | main.py:86-93 | a legal tap is horizontal or vertical; a horizontal one keeps the board without its blank and the blank's row; a vertical one moves the blank one row and changes the inversion count by N−1 modulo 2 |
| Solvability.SwapForward | main.py:93 | exchanging the blank with the next cell in its row keeps the board without its blank and the blank's row; exchanging it with the cell N places on moves the blank one row down and changes the inversion count by N−1 modulo 2 |
| Solvability.RowParity | main.py:139-141 | when the inversion count changes by N−1 modulo 2 and the blank's row by one, the parity rule gives the same verdict |
| Solvability.PlayPreservesSolvable | main.py:92-93 | any sequence of taps keeps the verdict |
| Solvability.TargetSolvable | main.py:130-141 | the winning layout passes the test for every N |
| Solvability.TargetBlankRow | main.py:132 | the winning layout has its blank in row N |
| Solvability.ReachableFromTargetSolvable | main.py:130-141 | every board reachable from the winning layout passes the test |
| Solvability.UnsolvableNeverWins | main.py:119-121 | a board failing the test never reaches the winning layout, whatever the taps |
| Session.IsShuffleSource | main.py:125-126 | defines the draws: each is an arrangement of 0 .. N²−1 and at least one passes the test |
| Session.FirstSolvable | main.py:123-128 | the position of the first draw that passes the test: it passes, and every earlier one fails |
| Session.NumberHuarong.IsSolvable | main.py:130-141 | the method's verdict on the current tiles is the parity rule applied to the inversion count and the blank's 1-based row |
| Session.NumberHuarong.GenerateSolvablePuzzle | main.py:123-128 | the loop stops on the first draw that passes the test; the tiles are then a board that passes it |
| Session.NumberHuarong.InitGame | main.py:67-71 | the tiles are the first passing draw, step is 0, the clock is unset and not running; the invariant holds |
| Session.NumberHuarong.Restart | main.py:143-145 | the same reset state as `InitGame`, whatever the state before; so two restarts on the same draws leave the same state |
| Session.NumberHuarong.TapTile | main.py:83-112 | an illegal tap changes nothing; a legal, non-winning tap applies `Move`, adds one step, and either starts the clock at `now` or keeps its start time; a winning tap leaves the reset state; the invariant (a passing board, clock running iff step > 0 iff a start time is set) is preserved |
| Session.NumberHuarong.constructor | main.py:34-38 | a new session of size N is in the reset state and satisfies the invariant |

## Left out

- The widget code is not modelled because it is presentation only. This covers the Kivy UI: `HuarongTile`, the layout built in `build`, `update_board`, the label texts, the congratulation Popup and `Window.size`.
- The timer scheduling (`Clock.schedule_interval`, `Clock.unschedule`) and `update_time` are left out because they are the framework's event loop. The model keeps only `running` and `timeStart`.
- `time.time()` is replaced by the caller's `now` parameter. The elapsed-seconds computation shown in the Popup is floating point and is not modelled.
- `random.shuffle` is replaced by the caller's sequence `draws`. Each draw must be a permutation, and at least one must pass the test. That requirement is what makes the `while True` loop end in the model. Uniformity and the probability of stopping are not modelled.
- A tapped value that is not on the board makes `list.index` raise `ValueError`. In the model this is a precondition of `TapTile`.
- The model does not prove the converse of the parity test, that every board passing it can be won. The source relies on this fact but does not compute it.
- Session.NumberHuarong.TapTile: the state in the winning case is stated as the reset state. The step count shown in the Popup is not kept, because the Popup is left out.
- The board applies a move by exchanging the two cells of the list in place, and the model follows that code. `Board.Move` is the value-level description of that exchange, and `TapTile`'s contract uses it.
