/** Tile spawning: the list of empty cells, the cell a spawn fills, and the
    starting board. The two random choices of the game are parameters: `pick`
    is the index drawn into the list of empty cells, and `twoTile` says
    whether the drawn value is 2 (otherwise it is 4). */
module Spawn {
  import opened Line
  import opened Grid

  /** A cell position, `(row, col)`. */
  type Pos = (nat, nat)

  /** The position of a cell in row-major order. */
  function Index(p: Pos): nat
  {
    p.0 * SIZE + p.1
  }

  /** The empty cells among the first `n` cells of `row`, which is row `r` of
      the board, from left to right. */
  function EmptyInRow(row: seq<int>, r: nat, n: nat): (e: seq<Pos>)
    requires n <= |row|
    ensures |e| <= n
    ensures forall k :: 0 <= k < |e| ==> e[k].0 == r && e[k].1 < n && row[e[k].1] == 0
  {
    if n == 0 then []
    else EmptyInRow(row, r, n - 1) + (if row[n - 1] == 0 then [(r, n - 1)] else [])
  }

  /** The empty cells of the first `n` rows, in row-major order. */
  function EmptyUpTo(g: Grid, n: nat): (e: seq<Pos>)
    requires IsGrid(g) && n <= SIZE
    ensures forall k :: 0 <= k < |e| ==> e[k].0 < n && e[k].1 < SIZE && g[e[k].0][e[k].1] == 0
  {
    if n == 0 then []
    else EmptyUpTo(g, n - 1) + EmptyInRow(g[n - 1], n - 1, SIZE)
  }

  /** The list `emptySpaces` the spawner builds: every empty cell, in
      row-major order. Each entry is an empty cell of the board. */
  function EmptyCells(g: Grid): (e: seq<Pos>)
    requires IsGrid(g)
    ensures forall k :: 0 <= k < |e| ==> e[k].0 < SIZE && e[k].1 < SIZE && g[e[k].0][e[k].1] == 0
  {
    EmptyUpTo(g, SIZE)
  }

  /** The value of a spawned tile. */
  function TileValue(twoTile: bool): int
  {
    if twoTile then 2 else 4
  }

  /** The board after one spawn: a full board is returned as it is; otherwise
      the `pick`-th empty cell receives the new tile. */
  function Spawned(g: Grid, pick: nat, twoTile: bool): (s: Grid)
    requires IsGrid(g)
    requires EmptyCells(g) != [] ==> pick < |EmptyCells(g)|
    ensures IsGrid(s)
  {
    var empty := EmptyCells(g);
    if empty == [] then g
    else
      var p := empty[pick];
      g[p.0 := g[p.0][p.1 := TileValue(twoTile)]]
  }

  /** The all-empty board. */
  function EmptyGrid(): (g: Grid)
    ensures IsGrid(g)
    ensures forall r, c :: 0 <= r < SIZE && 0 <= c < SIZE ==> g[r][c] == 0
  {
    var z := Zeros(SIZE);
    [z, z, z, z]
  }

  /** The starting board: the empty board with two spawns applied, the first
      drawn among all 16 cells and the second among the 15 still empty. */
  function InitialGrid(pick1: nat, twoTile1: bool, pick2: nat, twoTile2: bool): (g: Grid)
    requires pick1 < SIZE * SIZE && pick2 < SIZE * SIZE - 1
    ensures IsGrid(g)
  {
    EmptyGridCells();
    SpawnedOne(EmptyGrid(), pick1, twoTile1);
    Spawned(Spawned(EmptyGrid(), pick1, twoTile1), pick2, twoTile2)
  }

  // ---------------------------------------------------------------------
  // The list of empty cells

  lemma {:induction false} EmptyInRowComplete(row: seq<int>, r: nat, n: nat, c: nat)
    requires n <= |row| && c < n && row[c] == 0
    ensures (r, c) in EmptyInRow(row, r, n)
  {
    if c < n - 1 {
      EmptyInRowComplete(row, r, n - 1, c);
    }
  }

  lemma {:induction false} EmptyUpToComplete(g: Grid, n: nat, r: nat, c: nat)
    requires IsGrid(g) && n <= SIZE && r < n && c < SIZE && g[r][c] == 0
    ensures (r, c) in EmptyUpTo(g, n)
  {
    if r < n - 1 {
      EmptyUpToComplete(g, n - 1, r, c);
    } else {
      EmptyInRowComplete(g[r], r, SIZE, c);
    }
  }

  lemma {:induction false} EmptyInRowOrdered(row: seq<int>, r: nat, n: nat)
    requires n <= |row|
    ensures forall i, j :: 0 <= i < j < |EmptyInRow(row, r, n)| ==>
      EmptyInRow(row, r, n)[i].1 < EmptyInRow(row, r, n)[j].1
  {
    if n > 0 {
      EmptyInRowOrdered(row, r, n - 1);
    }
  }

  lemma {:induction false} EmptyUpToOrdered(g: Grid, n: nat)
    requires IsGrid(g) && n <= SIZE
    ensures forall i, j :: 0 <= i < j < |EmptyUpTo(g, n)| ==>
      Index(EmptyUpTo(g, n)[i]) < Index(EmptyUpTo(g, n)[j])
  {
    if n > 0 {
      EmptyUpToOrdered(g, n - 1);
      EmptyInRowOrdered(g[n - 1], n - 1, SIZE);
      var a := EmptyUpTo(g, n - 1);
      var b := EmptyInRow(g[n - 1], n - 1, SIZE);
      var e := a + b;
      forall i, j | 0 <= i < j < |e| ensures Index(e[i]) < Index(e[j]) {
        if j >= |a| && i < |a| {
          assert e[i].0 < n - 1 && e[j].0 == n - 1;
        } else if i >= |a| {
          assert e[i] == b[i - |a|] && e[j] == b[j - |a|];
        }
      }
    }
  }

  /** `EmptyCells` lists exactly the empty cells, each once, in row-major
      order. */
  lemma EmptyCellsExact(g: Grid)
    requires IsGrid(g)
    ensures forall r: nat, c: nat :: r < SIZE && c < SIZE ==> (g[r][c] == 0 <==> (r, c) in EmptyCells(g))
    ensures forall i, j :: 0 <= i < j < |EmptyCells(g)| ==> Index(EmptyCells(g)[i]) < Index(EmptyCells(g)[j])
  {
    forall r: nat, c: nat | r < SIZE && c < SIZE && g[r][c] == 0 ensures (r, c) in EmptyCells(g) {
      EmptyUpToComplete(g, SIZE, r, c);
    }
    EmptyUpToOrdered(g, SIZE);
  }

  // ---------------------------------------------------------------------
  // Counting empty cells across a spawn

  lemma {:induction false} EmptyInRowFill(row: seq<int>, r: nat, n: nat, c: nat, v: int)
    requires n <= |row| && c < |row| && row[c] == 0 && v != 0
    ensures |EmptyInRow(row[c := v], r, n)| == |EmptyInRow(row, r, n)| - (if c < n then 1 else 0)
  {
    if n > 0 {
      EmptyInRowFill(row, r, n - 1, c, v);
    }
  }

  lemma {:induction false} EmptyInRowSame(a: seq<int>, b: seq<int>, r: nat, n: nat)
    requires n <= |a| == |b| && forall k :: 0 <= k < |a| ==> a[k] == b[k]
    ensures EmptyInRow(a, r, n) == EmptyInRow(b, r, n)
  {
    if n > 0 {
      EmptyInRowSame(a, b, r, n - 1);
    }
  }

  lemma {:induction false} EmptyUpToFill(g: Grid, n: nat, r: nat, c: nat, v: int)
    requires IsGrid(g) && n <= SIZE && r < SIZE && c < SIZE && g[r][c] == 0 && v != 0
    ensures IsGrid(g[r := g[r][c := v]])
    ensures |EmptyUpTo(g[r := g[r][c := v]], n)| == |EmptyUpTo(g, n)| - (if r < n then 1 else 0)
  {
    var h := g[r := g[r][c := v]];
    if n > 0 {
      EmptyUpToFill(g, n - 1, r, c, v);
      if n - 1 == r {
        EmptyInRowFill(g[r], r, SIZE, c, v);
      } else {
        EmptyInRowSame(h[n - 1], g[n - 1], n - 1, SIZE);
      }
    }
  }

  // ---------------------------------------------------------------------
  // Properties of the spawn

  /** On a board with no empty cell the spawn returns the board as it is. */
  lemma SpawnedFull(g: Grid, pick: nat, twoTile: bool)
    requires IsGrid(g)
    requires forall r, c :: 0 <= r < SIZE && 0 <= c < SIZE ==> g[r][c] != 0
    ensures EmptyCells(g) == []
    ensures Spawned(g, pick, twoTile) == g
  {
    FullUpTo(g, SIZE);
  }

  lemma {:induction false} FullInRow(row: seq<int>, r: nat, n: nat)
    requires n <= |row| && forall c :: 0 <= c < n ==> row[c] != 0
    ensures EmptyInRow(row, r, n) == []
  {
    if n > 0 {
      FullInRow(row, r, n - 1);
    }
  }

  lemma {:induction false} FullUpTo(g: Grid, n: nat)
    requires IsGrid(g) && n <= SIZE
    requires forall r, c :: 0 <= r < SIZE && 0 <= c < SIZE ==> g[r][c] != 0
    ensures EmptyUpTo(g, n) == []
  {
    if n > 0 {
      FullUpTo(g, n - 1);
      FullInRow(g[n - 1], n - 1, SIZE);
    }
  }

  /** Otherwise exactly one cell changes: the `pick`-th empty cell, which
      was empty and now holds a 2 or a 4; every other cell keeps its value,
      and there is one empty cell fewer. */
  lemma SpawnedOne(g: Grid, pick: nat, twoTile: bool)
    requires IsGrid(g) && pick < |EmptyCells(g)|
    ensures var p := EmptyCells(g)[pick];
      var s := Spawned(g, pick, twoTile);
      g[p.0][p.1] == 0 && (s[p.0][p.1] == 2 || s[p.0][p.1] == 4) &&
      (forall r, c :: 0 <= r < SIZE && 0 <= c < SIZE && (r, c) != p ==> s[r][c] == g[r][c]) &&
      |EmptyCells(s)| == |EmptyCells(g)| - 1
  {
    var p := EmptyCells(g)[pick];
    EmptyUpToFill(g, SIZE, p.0, p.1, TileValue(twoTile));
  }

  lemma {:induction false} ZeroRowCells(n: nat, r: nat)
    requires n <= SIZE
    ensures |EmptyInRow(Zeros(SIZE), r, n)| == n
  {
    if n > 0 {
      ZeroRowCells(n - 1, r);
    }
  }

  /** Every cell of the empty board is listed. */
  lemma EmptyGridCells()
    ensures |EmptyCells(EmptyGrid())| == SIZE * SIZE
  {
    var g := EmptyGrid();
    ZeroRowCells(SIZE, 0);
    ZeroRowCells(SIZE, 1);
    ZeroRowCells(SIZE, 2);
    ZeroRowCells(SIZE, 3);
    assert EmptyUpTo(g, 1) == EmptyUpTo(g, 0) + EmptyInRow(Zeros(SIZE), 0, SIZE);
    assert EmptyUpTo(g, 2) == EmptyUpTo(g, 1) + EmptyInRow(Zeros(SIZE), 1, SIZE);
    assert EmptyUpTo(g, 3) == EmptyUpTo(g, 2) + EmptyInRow(Zeros(SIZE), 2, SIZE);
    assert EmptyUpTo(g, 4) == EmptyUpTo(g, 3) + EmptyInRow(Zeros(SIZE), 3, SIZE);
  }

  /** The starting board holds exactly two tiles, each a 2 or a 4, and
      fourteen empty cells. */
  lemma InitialGridTwoTiles(pick1: nat, twoTile1: bool, pick2: nat, twoTile2: bool)
    requires pick1 < SIZE * SIZE && pick2 < SIZE * SIZE - 1
    ensures var g := InitialGrid(pick1, twoTile1, pick2, twoTile2);
      |EmptyCells(g)| == SIZE * SIZE - 2 &&
      forall r, c :: 0 <= r < SIZE && 0 <= c < SIZE ==> g[r][c] == 0 || g[r][c] == 2 || g[r][c] == 4
  {
    var e := EmptyGrid();
    EmptyGridCells();
    SpawnedOne(e, pick1, twoTile1);
    var g1 := Spawned(e, pick1, twoTile1);
    SpawnedOne(g1, pick2, twoTile2);
    var g := Spawned(g1, pick2, twoTile2);
    forall r, c | 0 <= r < SIZE && 0 <= c < SIZE ensures g[r][c] == 0 || g[r][c] == 2 || g[r][c] == 4 {
      assert e[r][c] == 0;
    }
  }
}
