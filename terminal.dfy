/** The end-of-game test: a board is stuck when it has no empty cell and no
    two orthogonally adjacent cells hold the same value. */
module Terminal {
  import opened Line
  import opened Grid

  /** Cells `(r1, c1)` and `(r2, c2)` share a side. */
  predicate Adjacent(r1: int, c1: int, r2: int, c2: int)
  {
    (r1 == r2 && (c1 == c2 + 1 || c2 == c1 + 1)) || (c1 == c2 && (r1 == r2 + 1 || r2 == r1 + 1))
  }

  predicate InBoard(r: int, c: int)
  {
    0 <= r < SIZE && 0 <= c < SIZE
  }

  /** No move is left: every cell holds a tile and no two neighbours are
      equal. */
  ghost predicate NoMovesLeft(g: Grid)
    requires IsGrid(g)
  {
    (forall r, c :: InBoard(r, c) ==> g[r][c] != 0) &&
    (forall r1, c1, r2, c2 :: InBoard(r1, c1) && InBoard(r2, c2) && Adjacent(r1, c1, r2, c2) ==>
      g[r1][c1] != g[r2][c2])
  }

  /** What `checkGameOver` tests at one cell: it is not empty and differs
      from the cell above it and from the cell to its left. */
  ghost predicate CellClear(g: Grid, r: nat, c: nat)
    requires IsGrid(g) && r < SIZE && c < SIZE
  {
    g[r][c] != 0 && (r > 0 ==> g[r][c] != g[r - 1][c]) && (c > 0 ==> g[r][c] != g[r][c - 1])
  }

  /** Looking only at the upper and the left neighbour of every cell covers
      every adjacent pair, because equality is symmetric. */
  lemma UpLeftSuffices(g: Grid)
    requires IsGrid(g)
    ensures NoMovesLeft(g) <==> forall r: nat, c: nat :: r < SIZE && c < SIZE ==> CellClear(g, r, c)
  {
    if forall r: nat, c: nat :: r < SIZE && c < SIZE ==> CellClear(g, r, c) {
      forall r, c | InBoard(r, c) ensures g[r][c] != 0 {
        assert CellClear(g, r, c);
      }
      forall r1, c1, r2, c2 | InBoard(r1, c1) && InBoard(r2, c2) && Adjacent(r1, c1, r2, c2)
        ensures g[r1][c1] != g[r2][c2]
      {
        if r2 == r1 + 1 || c2 == c1 + 1 {
          assert CellClear(g, r2, c2);
        } else {
          assert CellClear(g, r1, c1);
        }
      }
    }
    if NoMovesLeft(g) {
      forall r: nat, c: nat | r < SIZE && c < SIZE ensures CellClear(g, r, c) {
        assert InBoard(r, c);
        if r > 0 { assert InBoard(r - 1, c) && Adjacent(r, c, r - 1, c); }
        if c > 0 { assert InBoard(r, c - 1) && Adjacent(r, c, r, c - 1); }
      }
    }
  }

  // ---------------------------------------------------------------------
  // A stuck board and the four moves

  lemma ReverseReverse(s: seq<int>)
    ensures Reverse(Reverse(s)) == s
  {
  }

  lemma ReverseKeepsFullLine(s: seq<int>)
    requires NoZeros(s) && NoAdjacentEqual(s)
    ensures NoZeros(Reverse(s)) && NoAdjacentEqual(Reverse(s))
  {
    var t := Reverse(s);
    forall i | 0 <= i < |t| - 1 ensures t[i] != t[i + 1] {
      assert t[i] == s[|s| - 1 - i] && t[i + 1] == s[|s| - 1 - i - 1];
    }
  }

  /** A full line without equal neighbours survives reduction from either
      end. */
  lemma FullLineStays(s: seq<int>)
    requires |s| == SIZE && NoZeros(s) && NoAdjacentEqual(s)
    ensures SlideAndMerge(s) == s
    ensures Reverse(SlideAndMerge(Reverse(s))) == s
  {
    SlideAndMergeFullLine(s);
    ReverseKeepsFullLine(s);
    SlideAndMergeFullLine(Reverse(s));
    ReverseReverse(s);
  }

  lemma StuckRow(g: Grid, r: nat)
    requires IsGrid(g) && NoMovesLeft(g) && r < SIZE
    ensures NoZeros(g[r]) && NoAdjacentEqual(g[r])
  {
    forall c | 0 <= c < SIZE - 1 ensures g[r][c] != g[r][c + 1] {
      assert InBoard(r, c) && InBoard(r, c + 1) && Adjacent(r, c, r, c + 1);
    }
    forall c | 0 <= c < SIZE ensures g[r][c] != 0 {
      assert InBoard(r, c);
    }
  }

  lemma StuckColumn(g: Grid, c: nat)
    requires IsGrid(g) && NoMovesLeft(g) && c < SIZE
    ensures NoZeros(Column(g, c)) && NoAdjacentEqual(Column(g, c))
  {
    var col := Column(g, c);
    forall r | 0 <= r < SIZE - 1 ensures col[r] != col[r + 1] {
      assert InBoard(r, c) && InBoard(r + 1, c) && Adjacent(r, c, r + 1, c);
    }
    forall r | 0 <= r < SIZE ensures col[r] != 0 {
      assert InBoard(r, c);
    }
  }

  lemma FromOwnColumns(g: Grid)
    requires IsGrid(g)
    ensures FromColumns(seq(SIZE, c requires 0 <= c < SIZE => Column(g, c))) == g
  {
    var h := FromColumns(seq(SIZE, c requires 0 <= c < SIZE => Column(g, c)));
    forall r | 0 <= r < SIZE ensures h[r] == g[r] {
      assert forall c :: 0 <= c < SIZE ==> h[r][c] == g[r][c];
    }
  }

  lemma StuckRowsStay(g: Grid)
    requires IsGrid(g) && NoMovesLeft(g)
    ensures forall r :: 0 <= r < SIZE ==> SlideAndMerge(g[r]) == g[r]
    ensures forall r :: 0 <= r < SIZE ==> Reverse(SlideAndMerge(Reverse(g[r]))) == g[r]
  {
    forall r | 0 <= r < SIZE
      ensures SlideAndMerge(g[r]) == g[r] && Reverse(SlideAndMerge(Reverse(g[r]))) == g[r]
    {
      StuckRow(g, r);
      FullLineStays(g[r]);
    }
  }

  lemma StuckColumnsStay(g: Grid)
    requires IsGrid(g) && NoMovesLeft(g)
    ensures seq(SIZE, c requires 0 <= c < SIZE => SlideAndMerge(Column(g, c)))
      == seq(SIZE, c requires 0 <= c < SIZE => Column(g, c))
    ensures seq(SIZE, c requires 0 <= c < SIZE => Reverse(SlideAndMerge(Reverse(Column(g, c)))))
      == seq(SIZE, c requires 0 <= c < SIZE => Column(g, c))
  {
    forall c | 0 <= c < SIZE
      ensures SlideAndMerge(Column(g, c)) == Column(g, c)
      ensures Reverse(SlideAndMerge(Reverse(Column(g, c)))) == Column(g, c)
    {
      StuckColumn(g, c);
      FullLineStays(Column(g, c));
    }
  }

  /** When the game is over, none of the four moves changes the contents
      `move` returns (and neither does any other direction string); the right
      branch still reverses the caller's rows in place. */
  lemma GameOverFrozen(g: Grid, direction: string)
    requires IsGrid(g) && NoMovesLeft(g)
    ensures Moved(g, direction) == g
  {
    if direction == "left" || direction == "right" {
      StuckRowsStay(g);
    } else if direction == "up" || direction == "down" {
      StuckColumnsStay(g);
      FromOwnColumns(g);
    }
  }

  /** Conversely, a full board that neither a left nor an up move changes is
      stuck: a stuck board is exactly a full board no move changes. */
  lemma FrozenFullIsGameOver(g: Grid)
    requires IsGrid(g)
    requires forall r, c :: InBoard(r, c) ==> g[r][c] != 0
    requires Moved(g, "left") == g && Moved(g, "up") == g
    ensures NoMovesLeft(g)
  {
    MovedLines(g);
    FrozenRows(g);
    FrozenColumns(g);
    forall r1, c1, r2, c2 | InBoard(r1, c1) && InBoard(r2, c2) && Adjacent(r1, c1, r2, c2)
      ensures g[r1][c1] != g[r2][c2]
    {
      if r1 == r2 {
        var k := if c1 < c2 then c1 else c2;
        assert g[r1][k] != g[r1][k + 1];
      } else {
        var k := if r1 < r2 then r1 else r2;
        assert Column(g, c1)[k] != Column(g, c1)[k + 1];
      }
    }
  }

  /** A full row that reduction leaves as it is has no equal neighbours. */
  lemma FrozenRows(g: Grid)
    requires IsGrid(g)
    requires forall r, c :: InBoard(r, c) ==> g[r][c] != 0
    requires forall r :: 0 <= r < SIZE ==> SlideAndMerge(g[r]) == g[r]
    ensures forall r :: 0 <= r < SIZE ==> NoAdjacentEqual(g[r])
  {
    forall r | 0 <= r < SIZE ensures NoAdjacentEqual(g[r]) {
      assert NoZeros(g[r]) by {
        forall c | 0 <= c < SIZE ensures g[r][c] != 0 { assert InBoard(r, c); }
      }
      SlideAndMergeFullLine(g[r]);
    }
  }

  /** A full column that reduction leaves as it is has no equal neighbours. */
  lemma FrozenColumns(g: Grid)
    requires IsGrid(g)
    requires forall r, c :: InBoard(r, c) ==> g[r][c] != 0
    requires forall c :: 0 <= c < SIZE ==> SlideAndMerge(Column(g, c)) == Column(g, c)
    ensures forall c :: 0 <= c < SIZE ==> NoAdjacentEqual(Column(g, c))
  {
    forall c | 0 <= c < SIZE ensures NoAdjacentEqual(Column(g, c)) {
      assert NoZeros(Column(g, c)) by {
        forall r | 0 <= r < SIZE ensures Column(g, c)[r] != 0 { assert InBoard(r, c); }
      }
      SlideAndMergeFullLine(Column(g, c));
    }
  }

  /** Worked examples: a full board in a checkerboard of 2s and 4s is stuck;
      the same board with one 4 turned into a 2 is not. */
  lemma NoMovesLeftExamples()
    ensures var g := [[2, 4, 2, 4], [4, 2, 4, 2], [2, 4, 2, 4], [4, 2, 4, 2]];
      IsGrid(g) && NoMovesLeft(g)
    ensures var g := [[2, 2, 2, 4], [4, 2, 4, 2], [2, 4, 2, 4], [4, 2, 4, 2]];
      IsGrid(g) && !NoMovesLeft(g)
  {
    var g := [[2, 4, 2, 4], [4, 2, 4, 2], [2, 4, 2, 4], [4, 2, 4, 2]];
    forall r: nat, c: nat | r < SIZE && c < SIZE ensures CellClear(g, r, c) {
      assert g[r][c] == if (r + c) % 2 == 0 then 2 else 4;
      if r > 0 { assert g[r - 1][c] == if (r - 1 + c) % 2 == 0 then 2 else 4; }
      if c > 0 { assert g[r][c - 1] == if (r + c - 1) % 2 == 0 then 2 else 4; }
    }
    UpLeftSuffices(g);
    var h := [[2, 2, 2, 4], [4, 2, 4, 2], [2, 4, 2, 4], [4, 2, 4, 2]];
    assert InBoard(0, 0) && InBoard(0, 1) && Adjacent(0, 0, 0, 1) && h[0][0] == h[0][1];
  }
}
