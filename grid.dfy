/** The board as a value and the effect of one move on it. */
module Grid {
  import opened Line

  /** A board as rows of cells, `g[row][col]`. */
  type Grid = seq<seq<int>>

  predicate IsGrid(g: Grid)
  {
    |g| == SIZE && forall r :: 0 <= r < |g| ==> |g[r]| == SIZE
  }

  /** Column `c` read from top to bottom. */
  function Column(g: Grid, c: nat): (col: seq<int>)
    requires IsGrid(g) && c < SIZE
    ensures |col| == SIZE
  {
    seq(SIZE, r requires 0 <= r < SIZE => g[r][c])
  }

  /** The board whose column `c` is `cols[c]`. */
  function FromColumns(cols: Grid): (g: Grid)
    requires IsGrid(cols)
    ensures IsGrid(g)
  {
    seq(SIZE, r requires 0 <= r < SIZE => seq(SIZE, c requires 0 <= c < SIZE => cols[c][r]))
  }

  /** Every row reduced towards the left edge. */
  function MovedLeft(g: Grid): (m: Grid)
    requires IsGrid(g)
    ensures IsGrid(m)
  {
    seq(SIZE, r requires 0 <= r < SIZE => SlideAndMerge(g[r]))
  }

  /** Every row reversed, reduced and reversed back: reduced towards the right
      edge. */
  function MovedRight(g: Grid): (m: Grid)
    requires IsGrid(g)
    ensures IsGrid(m)
  {
    seq(SIZE, r requires 0 <= r < SIZE => Reverse(SlideAndMerge(Reverse(g[r]))))
  }

  /** The contents of the board returned by `move`. Up and down reduce each
      column, read top to bottom (up) or bottom to top (down), and write it
      back into the same column; any other direction string leaves the
      contents as they are. */
  function Moved(g: Grid, direction: string): (m: Grid)
    requires IsGrid(g)
    ensures IsGrid(m)
  {
    if direction == "left" then MovedLeft(g)
    else if direction == "right" then MovedRight(g)
    else if direction == "up" then
      FromColumns(seq(SIZE, c requires 0 <= c < SIZE => SlideAndMerge(Column(g, c))))
    else if direction == "down" then
      FromColumns(seq(SIZE, c requires 0 <= c < SIZE => Reverse(SlideAndMerge(Reverse(Column(g, c))))))
    else g
  }

  /** The four directions the game reacts to. */
  predicate IsDirection(direction: string)
  {
    direction == "left" || direction == "right" || direction == "up" || direction == "down"
  }

  /** The total of the values on the board, written out for the four rows
      of a board whose side SIZE is 4. */
  function GridSum(g: Grid): int
    requires IsGrid(g)
  {
    Sum(g[0]) + Sum(g[1]) + Sum(g[2]) + Sum(g[3])
  }

  /** Every cell is empty or a power of two. */
  predicate GridTiles(g: Grid)
    requires IsGrid(g)
  {
    forall r :: 0 <= r < SIZE ==> AllTiles(g[r])
  }

  // ---------------------------------------------------------------------
  // What each direction does to the lines of the board

  /** Left and right act on each row; up and down on each column, with the
      line reversed before and after reduction for right and down. */
  lemma MovedLines(g: Grid)
    requires IsGrid(g)
    ensures forall r :: 0 <= r < SIZE ==> Moved(g, "left")[r] == SlideAndMerge(g[r])
    ensures forall r :: 0 <= r < SIZE ==>
      Moved(g, "right")[r] == Reverse(SlideAndMerge(Reverse(g[r])))
    ensures forall c :: 0 <= c < SIZE ==>
      Column(Moved(g, "up"), c) == SlideAndMerge(Column(g, c))
    ensures forall c :: 0 <= c < SIZE ==>
      Column(Moved(g, "down"), c) == Reverse(SlideAndMerge(Reverse(Column(g, c))))
  {
    forall c | 0 <= c < SIZE
      ensures Column(Moved(g, "up"), c) == SlideAndMerge(Column(g, c))
      ensures Column(Moved(g, "down"), c) == Reverse(SlideAndMerge(Reverse(Column(g, c))))
    {
      ColumnOfFromColumns(seq(SIZE, k requires 0 <= k < SIZE => SlideAndMerge(Column(g, k))), c);
      ColumnOfFromColumns(seq(SIZE, k requires 0 <= k < SIZE => Reverse(SlideAndMerge(Reverse(Column(g, k))))), c);
    }
  }

  lemma ColumnOfFromColumns(cols: Grid, c: nat)
    requires IsGrid(cols) && c < SIZE
    ensures Column(FromColumns(cols), c) == cols[c]
  {
  }

  /** A string other than the four directions leaves the board as it is. */
  lemma MovedOther(g: Grid, direction: string)
    requires IsGrid(g) && !IsDirection(direction)
    ensures Moved(g, direction) == g
  {
  }

  // ---------------------------------------------------------------------
  // Totals and tile values

  lemma Sum4(s: seq<int>)
    requires |s| == SIZE
    ensures Sum(s) == s[0] + s[1] + s[2] + s[3]
  {
    assert s[1..][1..] == s[2..];
    assert s[2..][1..] == s[3..];
    assert s[3..][1..] == [];
    assert Sum(s[3..]) == s[3];
    assert Sum(s[2..]) == s[2] + s[3];
    assert Sum(s[1..]) == s[1] + s[2] + s[3];
  }

  lemma SumReverse(s: seq<int>)
    requires |s| == SIZE
    ensures Sum(Reverse(s)) == Sum(s)
  {
    Sum4(s);
    Sum4(Reverse(s));
  }

  lemma ReducedRightSum(s: seq<int>)
    requires |s| == SIZE
    ensures Sum(Reverse(SlideAndMerge(Reverse(s)))) == Sum(s)
  {
    SlideAndMergeShape(Reverse(s));
    SumReverse(SlideAndMerge(Reverse(s)));
    SlideAndMergeSum(Reverse(s));
    SumReverse(s);
  }

  lemma ColumnsSum(g: Grid)
    requires IsGrid(g)
    ensures GridSum(g) == Sum(Column(g, 0)) + Sum(Column(g, 1)) + Sum(Column(g, 2)) + Sum(Column(g, 3))
  {
    Sum4(g[0]); Sum4(g[1]); Sum4(g[2]); Sum4(g[3]);
    Sum4(Column(g, 0)); Sum4(Column(g, 1)); Sum4(Column(g, 2)); Sum4(Column(g, 3));
  }

  /** A move neither creates nor destroys value: the board total is kept in
      every direction. */
  lemma MovedSum(g: Grid, direction: string)
    requires IsGrid(g)
    ensures GridSum(Moved(g, direction)) == GridSum(g)
  {
    var m := Moved(g, direction);
    MovedLines(g);
    if direction == "left" {
      forall r | 0 <= r < SIZE ensures Sum(m[r]) == Sum(g[r]) { SlideAndMergeSum(g[r]); }
    } else if direction == "right" {
      forall r | 0 <= r < SIZE ensures Sum(m[r]) == Sum(g[r]) { ReducedRightSum(g[r]); }
    } else if direction == "up" || direction == "down" {
      forall c | 0 <= c < SIZE ensures Sum(Column(m, c)) == Sum(Column(g, c)) {
        if direction == "up" {
          SlideAndMergeSum(Column(g, c));
        } else {
          ReducedRightSum(Column(g, c));
        }
      }
      ColumnsSum(g);
      ColumnsSum(m);
    }
  }

  lemma ReverseTiles(s: seq<int>)
    requires AllTiles(s)
    ensures AllTiles(Reverse(s))
  {
    forall i | 0 <= i < |s| ensures Reverse(s)[i] == 0 || IsPowerOfTwo(Reverse(s)[i]) {
      assert Reverse(s)[i] == s[|s| - 1 - i];
    }
  }

  lemma ReducedRightTiles(s: seq<int>)
    requires |s| == SIZE && AllTiles(s)
    ensures AllTiles(Reverse(SlideAndMerge(Reverse(s))))
  {
    ReverseTiles(s);
    SlideAndMergeTiles(Reverse(s));
    ReverseTiles(SlideAndMerge(Reverse(s)));
  }

  lemma ColumnTiles(g: Grid, c: nat)
    requires IsGrid(g) && GridTiles(g) && c < SIZE
    ensures AllTiles(Column(g, c))
  {
    forall r | 0 <= r < SIZE ensures Column(g, c)[r] == 0 || IsPowerOfTwo(Column(g, c)[r]) {
      assert Column(g, c)[r] == g[r][c];
    }
  }

  /** The board invariant survives a move: if every cell is empty or a power
      of two before, the same holds after. */
  lemma MovedTiles(g: Grid, direction: string)
    requires IsGrid(g) && GridTiles(g)
    ensures GridTiles(Moved(g, direction))
  {
    var m := Moved(g, direction);
    MovedLines(g);
    if direction == "left" {
      forall r | 0 <= r < SIZE ensures AllTiles(m[r]) { SlideAndMergeTiles(g[r]); }
    } else if direction == "right" {
      forall r | 0 <= r < SIZE ensures AllTiles(m[r]) { ReducedRightTiles(g[r]); }
    } else if direction == "up" || direction == "down" {
      forall c | 0 <= c < SIZE ensures AllTiles(Column(m, c)) {
        ColumnTiles(g, c);
        if direction == "up" {
          SlideAndMergeTiles(Column(g, c));
        } else {
          ReducedRightTiles(Column(g, c));
        }
      }
      forall r | 0 <= r < SIZE ensures AllTiles(m[r]) {
        forall c | 0 <= c < SIZE ensures m[r][c] == 0 || IsPowerOfTwo(m[r][c]) {
          assert m[r][c] == Column(m, c)[r];
        }
      }
    }
  }

  lemma ReduceRightTwoTwos()
    ensures Reverse(SlideAndMerge(Reverse([2, 2, 0, 0]))) == [0, 0, 0, 4]
  {
    assert Reverse([2, 2, 0, 0]) == [0, 0, 2, 2];
    assert [0, 0, 2, 2] == Zeros(2) + [2, 2];
    CompactAppend(Zeros(2), [2, 2]);
    CompactZeros(2);
    CompactNoZeros([2, 2]);
    assert [2, 2][2..] == [];
    assert MergePairs([2, 2]) == [4];
    assert SlideAndMerge([0, 0, 2, 2]) == [4, 0, 0, 0];
    assert Reverse([4, 0, 0, 0]) == [0, 0, 0, 4];
  }

  lemma ReduceRightEmpty()
    ensures Reverse(SlideAndMerge(Reverse([0, 0, 0, 0]))) == [0, 0, 0, 0]
  {
    assert Reverse([0, 0, 0, 0]) == Zeros(SIZE);
    SlideAndMergeShape(Zeros(SIZE));
    assert Reverse(Zeros(SIZE)) == [0, 0, 0, 0];
  }

  /** A worked example: two 2s in the top row moved right become one 4 in the
      top right corner. */
  lemma MovedRightExample()
    ensures var g := [[2, 2, 0, 0], [0, 0, 0, 0], [0, 0, 0, 0], [0, 0, 0, 0]];
      IsGrid(g) &&
      Moved(g, "right") == [[0, 0, 0, 4], [0, 0, 0, 0], [0, 0, 0, 0], [0, 0, 0, 0]]
  {
    var g := [[2, 2, 0, 0], [0, 0, 0, 0], [0, 0, 0, 0], [0, 0, 0, 0]];
    ReduceRightTwoTwos();
    ReduceRightEmpty();
    var m := MovedRight(g);
    assert m[0] == [0, 0, 0, 4];
    assert m[1] == [0, 0, 0, 0] && m[2] == [0, 0, 0, 0] && m[3] == [0, 0, 0, 0];
  }
}
