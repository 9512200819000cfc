/** The board as the game component holds it: an array of row arrays, which
    `move` and `addRandomTile` update in place. Each method here is proved
    against the value-level definitions of the other modules, and says which
    row arrays it writes, which it allocates and which it shares. */
module Board {
  import opened Line
  import opened Grid
  import opened Spawn
  import opened Terminal

  /** The rows of a board, each its own array. */
  type Board = seq<array<int>>

  /** SIZE rows of SIZE cells, no row array used twice. */
  predicate ValidBoard(board: Board)
  {
    |board| == SIZE &&
    (forall r :: 0 <= r < SIZE ==> board[r].Length == SIZE) &&
    (forall r, s :: 0 <= r < s < SIZE ==> board[r] != board[s])
  }

  /** The values the board's cells hold. */
  function Cells(board: Board): (g: Grid)
    requires ValidBoard(board)
    reads board
    ensures IsGrid(g)
    ensures forall r :: 0 <= r < SIZE ==> g[r] == board[r][..]
  {
    seq(SIZE, r requires 0 <= r < SIZE reads board => board[r][..])
  }

  /** `Array.prototype.reverse`: reverses the array in place. */
  method ReverseInPlace(a: array<int>)
    modifies a
    ensures a[..] == Reverse(old(a[..]))
  {
    var lo, hi := 0, a.Length - 1;
    while lo < hi
      invariant 0 <= lo <= a.Length && hi == a.Length - 1 - lo
      invariant forall k :: 0 <= k < lo ==> a[k] == old(a[a.Length - 1 - k])
      invariant forall k :: 0 <= k < lo ==> a[a.Length - 1 - k] == old(a[k])
      invariant forall k :: lo <= k <= hi ==> a[k] == old(a[k])
    {
      a[lo], a[hi] := a[hi], a[lo];
      lo, hi := lo + 1, hi - 1;
    }
  }

  /** A fresh row array holding `line`. */
  method NewRow(line: seq<int>) returns (row: array<int>)
    ensures fresh(row) && row[..] == line
  {
    row := new int[|line|](k requires 0 <= k < |line| => line[k]);
  }

  /** The left branch of `move`: a fresh array for every reduced row; the
      board passed in is not touched. */
  method MoveLeft(board: Board) returns (newBoard: Board)
    requires ValidBoard(board)
    ensures ValidBoard(newBoard)
    ensures forall r :: 0 <= r < SIZE ==> fresh(newBoard[r])
    ensures Cells(newBoard) == MovedLeft(Cells(board))
  {
    ghost var g := Cells(board);
    newBoard := [];
    var i := 0;
    while i < SIZE
      invariant 0 <= i <= SIZE && |newBoard| == i
      invariant forall k :: 0 <= k < i ==> fresh(newBoard[k]) && newBoard[k].Length == SIZE
      invariant forall j, k :: 0 <= j < k < i ==> newBoard[j] != newBoard[k]
      invariant forall k :: 0 <= k < i ==> newBoard[k][..] == MovedLeft(g)[k]
    {
      var line := SlideAndMergeRow(board[i][..]);
      var row := NewRow(line);
      newBoard := newBoard + [row];
      i := i + 1;
    }
  }

  /** The right branch of `move`: each row of the board passed in is
      reversed in place, reduced into a fresh array, and that array is
      reversed. The caller's rows are left reversed. */
  method MoveRight(board: Board) returns (newBoard: Board)
    requires ValidBoard(board)
    modifies board
    ensures ValidBoard(newBoard)
    ensures forall r :: 0 <= r < SIZE ==> fresh(newBoard[r])
    ensures Cells(newBoard) == MovedRight(old(Cells(board)))
    ensures forall r :: 0 <= r < SIZE ==> board[r][..] == Reverse(old(board[r][..]))
  {
    ghost var g := Cells(board);
    newBoard := [];
    var i := 0;
    while i < SIZE
      invariant 0 <= i <= SIZE && |newBoard| == i
      invariant forall k :: 0 <= k < i ==> fresh(newBoard[k]) && newBoard[k].Length == SIZE
      invariant forall j, k :: 0 <= j < k < i ==> newBoard[j] != newBoard[k]
      invariant forall k :: 0 <= k < i ==> newBoard[k][..] == MovedRight(g)[k]
      invariant Cells(board) == RowsReversed(g, i)
    {
      var row := ReduceBoardRowRight(board, i, g);
      newBoard := newBoard + [row];
      i := i + 1;
    }
    assert forall r :: 0 <= r < SIZE ==> Cells(newBoard)[r] == MovedRight(g)[r];
    RowsReversedAll(g);
  }

  /** Row `i` of the right branch, on a board whose rows before `i` are
      already reversed: the caller's row `i` is reversed too, and a fresh
      array holds the moved row. */
  method ReduceBoardRowRight(board: Board, i: nat, ghost g: Grid) returns (row: array<int>)
    requires ValidBoard(board) && IsGrid(g) && i < SIZE
    requires Cells(board) == RowsReversed(g, i)
    modifies board[i]
    ensures fresh(row) && row.Length == SIZE
    ensures row[..] == MovedRight(g)[i]
    ensures Cells(board) == RowsReversed(g, i + 1)
  {
    assert board[i][..] == g[i];
    row := ReduceRowRight(board[i]);
    RowsReversedStep(g, i);
    assert forall k :: 0 <= k < SIZE ==> Cells(board)[k] == RowsReversed(g, i + 1)[k];
  }

  /** The board after the right branch has reversed rows `0 .. i - 1`. */
  ghost function RowsReversed(g: Grid, i: nat): (h: Grid)
    requires IsGrid(g)
    ensures IsGrid(h)
  {
    seq(SIZE, r requires 0 <= r < SIZE => if r < i then Reverse(g[r]) else g[r])
  }

  lemma RowsReversedStep(g: Grid, i: nat)
    requires IsGrid(g) && i < SIZE
    ensures RowsReversed(g, i + 1) == RowsReversed(g, i)[i := Reverse(g[i])]
  {
  }

  lemma RowsReversedAll(g: Grid)
    requires IsGrid(g)
    ensures forall r :: 0 <= r < SIZE ==> RowsReversed(g, SIZE)[r] == Reverse(g[r])
  {
  }

  /** One row of the right branch: `slideAndMerge(row.reverse()).reverse()`. */
  method ReduceRowRight(row: array<int>) returns (newRow: array<int>)
    requires row.Length == SIZE
    modifies row
    ensures row[..] == Reverse(old(row[..]))
    ensures fresh(newRow)
    ensures newRow[..] == Reverse(SlideAndMerge(Reverse(old(row[..]))))
  {
    ReverseInPlace(row);
    var line := SlideAndMergeRow(row[..]);
    newRow := NewRow(line);
    ReverseInPlace(newRow);
  }

  /** The up and down branches of `move`: for each column, read it top to
      bottom (reversed for down), reduce it, reverse the result back for
      down, and write it into the same column of the caller's row arrays. */
  method MoveColumns(board: Board, down: bool)
    requires ValidBoard(board)
    modifies board
    ensures Cells(board) == Moved(old(Cells(board)), if down then "down" else "up")
  {
    ghost var g := Cells(board);
    ghost var m := Moved(g, if down then "down" else "up");
    MovedLines(g);
    ColumnsDoneNone(g, m);
    var col := 0;
    while col < SIZE
      invariant 0 <= col <= SIZE
      invariant Cells(board) == ColumnsDone(g, m, col)
    {
      ColumnsDoneColumn(g, m, col);
      var colArray := Column(Cells(board), col);
      if down {
        colArray := Reverse(colArray);
      }
      var newCol := SlideAndMergeRow(colArray);
      if down {
        newCol := Reverse(newCol);
      }
      WriteColumn(board, col, newCol);
      ColumnsDoneStep(g, m, col);
      col := col + 1;
    }
    ColumnsDoneAll(g, m);
  }

  /** The board after the column loop has written columns `0 .. col - 1`. */
  ghost function ColumnsDone(g: Grid, m: Grid, col: nat): (h: Grid)
    requires IsGrid(g) && IsGrid(m)
    ensures IsGrid(h)
  {
    seq(SIZE, r requires 0 <= r < SIZE =>
      seq(SIZE, c requires 0 <= c < SIZE => if c < col then m[r][c] else g[r][c]))
  }

  /** `g` with column `col` replaced by `newCol`. */
  function WithColumn(g: Grid, col: nat, newCol: seq<int>): (h: Grid)
    requires IsGrid(g) && col < SIZE && |newCol| == SIZE
    ensures IsGrid(h)
  {
    seq(SIZE, r requires 0 <= r < SIZE => g[r][col := newCol[r]])
  }

  lemma ColumnsDoneNone(g: Grid, m: Grid)
    requires IsGrid(g) && IsGrid(m)
    ensures ColumnsDone(g, m, 0) == g
  {
    var a := ColumnsDone(g, m, 0);
    forall r | 0 <= r < SIZE ensures a[r] == g[r] {
      assert forall c :: 0 <= c < SIZE ==> a[r][c] == g[r][c];
    }
  }

  lemma ColumnsDoneColumn(g: Grid, m: Grid, col: nat)
    requires IsGrid(g) && IsGrid(m) && col < SIZE
    ensures Column(ColumnsDone(g, m, col), col) == Column(g, col)
  {
  }

  lemma ColumnsDoneStep(g: Grid, m: Grid, col: nat)
    requires IsGrid(g) && IsGrid(m) && col < SIZE
    ensures WithColumn(ColumnsDone(g, m, col), col, Column(m, col)) == ColumnsDone(g, m, col + 1)
  {
    var a := WithColumn(ColumnsDone(g, m, col), col, Column(m, col));
    var b := ColumnsDone(g, m, col + 1);
    forall r | 0 <= r < SIZE ensures a[r] == b[r] {
      assert forall c :: 0 <= c < SIZE ==> a[r][c] == b[r][c];
    }
  }

  lemma ColumnsDoneAll(g: Grid, m: Grid)
    requires IsGrid(g) && IsGrid(m)
    ensures ColumnsDone(g, m, SIZE) == m
  {
    var a := ColumnsDone(g, m, SIZE);
    forall r | 0 <= r < SIZE ensures a[r] == m[r] {
      assert forall c :: 0 <= c < SIZE ==> a[r][c] == m[r][c];
    }
  }

  /** `newCol.forEach((val, rowIndex) => { newBoard[rowIndex][col] = val; })`:
      column `col` of the caller's rows receives `newCol`; no other cell
      changes. */
  method WriteColumn(board: Board, col: nat, newCol: seq<int>)
    requires ValidBoard(board) && col < SIZE && |newCol| == SIZE
    modifies board
    ensures Cells(board) == WithColumn(old(Cells(board)), col, newCol)
  {
    ghost var g := Cells(board);
    var rowIndex := 0;
    while rowIndex < SIZE
      invariant 0 <= rowIndex <= SIZE
      invariant forall r :: 0 <= r < SIZE ==>
        board[r][..] == if r < rowIndex then g[r][col := newCol[r]] else g[r]
    {
      board[rowIndex][col] := newCol[rowIndex];
      rowIndex := rowIndex + 1;
    }
  }

  /** `move`: the returned board holds the moved contents. Left and right
      return fresh rows (right also leaves the caller's rows reversed); up,
      down and any other string return the caller's own rows, which up and
      down have overwritten. So the shallow `arraysEqual` of the old and new
      boards holds exactly when the direction is neither left nor right. */
  method Move(board: Board, direction: string) returns (newBoard: Board)
    requires ValidBoard(board)
    modifies board
    ensures ValidBoard(newBoard)
    ensures Cells(newBoard) == Moved(old(Cells(board)), direction)
    ensures direction == "left" ==> forall r :: 0 <= r < SIZE ==> board[r][..] == old(board[r][..])
    ensures direction == "right" ==> forall r :: 0 <= r < SIZE ==> board[r][..] == Reverse(old(board[r][..]))
    ensures direction == "left" || direction == "right" ==> forall r :: 0 <= r < SIZE ==> fresh(newBoard[r])
    ensures direction != "left" && direction != "right" ==> newBoard == board
    ensures ArraysEqual(board, newBoard) <==> direction != "left" && direction != "right"
  {
    newBoard := board;
    if direction == "left" {
      newBoard := MoveLeft(board);
    } else if direction == "right" {
      newBoard := MoveRight(board);
    } else if direction == "up" {
      MoveColumns(board, false);
    } else if direction == "down" {
      MoveColumns(board, true);
    }
    if direction == "left" || direction == "right" {
      assert newBoard[0] != board[0];
    }
  }

  /** The nested loops of `addRandomTile` that push every empty cell onto
      `emptySpaces`, row by row and left to right. */
  method CollectEmptySpaces(board: Board) returns (emptySpaces: seq<Pos>)
    requires ValidBoard(board)
    ensures emptySpaces == EmptyCells(Cells(board))
  {
    ghost var g := Cells(board);
    emptySpaces := [];
    var row := 0;
    while row < SIZE
      invariant 0 <= row <= SIZE
      invariant emptySpaces == EmptyUpTo(g, row)
    {
      var col := 0;
      while col < SIZE
        invariant 0 <= col <= SIZE
        invariant emptySpaces == EmptyUpTo(g, row) + EmptyInRow(g[row], row, col)
      {
        if board[row][col] == 0 {
          emptySpaces := emptySpaces + [(row, col)];
        }
        col := col + 1;
      }
      row := row + 1;
    }
  }

  /** `addRandomTile`: collect the empty cells in row-major order; on a full
      board return it as it is; otherwise write the new tile into the
      `pick`-th empty cell of the caller's board, and return that same
      board. */
  method AddRandomTile(board: Board, pick: nat, twoTile: bool) returns (result: Board)
    requires ValidBoard(board)
    requires EmptyCells(Cells(board)) != [] ==> pick < |EmptyCells(Cells(board))|
    modifies board
    ensures result == board
    ensures Cells(board) == Spawned(old(Cells(board)), pick, twoTile)
  {
    ghost var g := Cells(board);
    var emptySpaces := CollectEmptySpaces(board);
    if |emptySpaces| == 0 {
      return board;
    }
    var p := emptySpaces[pick];
    board[p.0][p.1] := TileValue(twoTile);
    result := board;
    assert Cells(board) == Spawned(g, pick, twoTile) by {
      var s := Spawned(g, pick, twoTile);
      forall r | 0 <= r < SIZE ensures Cells(board)[r] == s[r] {
        if r != p.0 {
          assert board[r] != board[p.0];
        }
      }
    }
  }

  /** `initializeBoard`: SIZE fresh rows of zeros, then two spawns. */
  method InitializeBoard(pick1: nat, twoTile1: bool, pick2: nat, twoTile2: bool) returns (board: Board)
    requires pick1 < SIZE * SIZE && pick2 < SIZE * SIZE - 1
    ensures ValidBoard(board)
    ensures forall r :: 0 <= r < SIZE ==> fresh(board[r])
    ensures Cells(board) == InitialGrid(pick1, twoTile1, pick2, twoTile2)
  {
    board := [];
    var i := 0;
    while i < SIZE
      invariant 0 <= i <= SIZE && |board| == i
      invariant forall k :: 0 <= k < i ==> fresh(board[k]) && board[k][..] == Zeros(SIZE)
      invariant forall j, k :: 0 <= j < k < i ==> board[j] != board[k]
    {
      var row := NewRow(Zeros(SIZE));
      board := board + [row];
      i := i + 1;
    }
    assert Cells(board) == EmptyGrid();
    EmptyGridCells();
    SpawnedOne(EmptyGrid(), pick1, twoTile1);
    board := AddRandomTile(board, pick1, twoTile1);
    board := AddRandomTile(board, pick2, twoTile2);
  }

  /** `checkGameOver`: scan the cells in row-major order and answer false at
      the first empty cell or the first cell equal to its upper or left
      neighbour; true when there is none. */
  method CheckGameOver(board: Board) returns (over: bool)
    requires ValidBoard(board)
    ensures over == NoMovesLeft(Cells(board))
  {
    ghost var g := Cells(board);
    UpLeftSuffices(g);
    var row := 0;
    while row < SIZE
      invariant 0 <= row <= SIZE
      invariant forall r: nat, c: nat :: r < row && c < SIZE ==> CellClear(g, r, c)
    {
      var col := 0;
      while col < SIZE
        invariant 0 <= col <= SIZE
        invariant forall r: nat, c: nat :: r < row && c < SIZE ==> CellClear(g, r, c)
        invariant forall c: nat :: c < col ==> CellClear(g, row, c)
      {
        if board[row][col] == 0 {
          assert !CellClear(g, row, col);
          return false;
        }
        if row > 0 && board[row][col] == board[row - 1][col] {
          assert !CellClear(g, row, col);
          return false;
        }
        if col > 0 && board[row][col] == board[row][col - 1] {
          assert !CellClear(g, row, col);
          return false;
        }
        col := col + 1;
      }
      row := row + 1;
    }
    return true;
  }
}
