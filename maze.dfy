/**
 * The maze of createMaze: a constant 0/1 grid turned, by two nested loops,
 * into one wall per `1` cell, placed at (x*2-5, 1, z*2-5).
 */
module MazeLayout {
  import opened Geometry

  /** The layout createMaze builds: rows are z, columns are x, 1 is a wall. */
  const MazeMap: seq<seq<int>> := [
    [1, 1, 1, 1, 1, 1],
    [1, 0, 0, 0, 0, 1],
    [1, 0, 1, 1, 0, 1],
    [1, 0, 0, 1, 0, 1],
    [1, 1, 0, 0, 0, 1],
    [1, 1, 1, 1, 1, 1]
  ]

  /** The inner loop runs to the length of the FIRST row, for every row. */
  function Width(grid: seq<seq<int>>): nat
  {
    if |grid| == 0 then 0 else |grid[0]|
  }

  /** `mazeMap[z][x] === 1`; reading past the end of a shorter row gives undefined, which is not 1. */
  predicate IsWallCell(grid: seq<seq<int>>, x: int, z: int): (b: bool)
    ensures b ==> 0 <= z < |grid| && 0 <= x < |grid[z]|
  {
    0 <= z < |grid| && 0 <= x < |grid[z]| && grid[z][x] == 1
  }

  /** Where the wall of cell (x, z) stands: two units per cell, shifted by 5. */
  function WallPosition(x: int, z: int): (p: Vec3)
    ensures p.y == 1.0
  {
    Vec3((x * 2 - 5) as real, 1.0, (z * 2 - 5) as real)
  }

  /** The walls the inner loop emits for row z, columns 0 .. n-1, in loop order. */
  function RowWalls(grid: seq<seq<int>>, z: nat, n: nat): (ws: seq<Vec3>)
    ensures |ws| <= n
    ensures forall k :: 0 <= k < |ws| ==> ws[k].y == 1.0
  {
    if n == 0 then []
    else RowWalls(grid, z, n - 1) + (if IsWallCell(grid, n - 1, z) then [WallPosition(n - 1, z)] else [])
  }

  /** The walls the outer loop emits for rows 0 .. m-1, in loop order. */
  function Walls(grid: seq<seq<int>>, m: nat): (ws: seq<Vec3>)
    ensures forall k :: 0 <= k < |ws| ==> ws[k].y == 1.0
  {
    if m == 0 then [] else Walls(grid, m - 1) + RowWalls(grid, m - 1, Width(grid))
  }

  /** The column a wall position stands on: the inverse of `x * 2 - 5`. */
  function CellX(p: Vec3): int
  {
    ((p.x + 5.0) / 2.0).Floor
  }

  /** The row a wall position stands on: the inverse of `z * 2 - 5`. */
  function CellZ(p: Vec3): int
  {
    ((p.z + 5.0) / 2.0).Floor
  }

  /** p is the wall of a wall cell of the first m rows, within the loop's width n. */
  predicate IsWallOf(grid: seq<seq<int>>, p: Vec3, n: int, m: int)
  {
    && 0 <= CellX(p) < n && 0 <= CellZ(p) < m
    && IsWallCell(grid, CellX(p), CellZ(p))
    && p == WallPosition(CellX(p), CellZ(p))
  }

  /** Row-major order of wall positions: by z, then by x. */
  predicate Before(p: Vec3, q: Vec3)
  {
    p.z < q.z || (p.z == q.z && p.x < q.x)
  }

  /** A wall position decodes back to its cell, so distinct cells get distinct positions. */
  lemma CellOfWallPosition(x: int, z: int)
    ensures CellX(WallPosition(x, z)) == x && CellZ(WallPosition(x, z)) == z
  {
  }

  /**
   * Row z emits a wall for exactly the wall cells among its first n columns,
   * in increasing x.
   */
  lemma {:induction false} RowWallsSpec(grid: seq<seq<int>>, z: nat, n: nat)
    ensures forall p :: p in RowWalls(grid, z, n) ==> IsWallOf(grid, p, n, z + 1) && CellZ(p) == z
    ensures forall x :: 0 <= x < n && IsWallCell(grid, x, z) ==> WallPosition(x, z) in RowWalls(grid, z, n)
    ensures forall i, j :: 0 <= i < j < |RowWalls(grid, z, n)| ==>
      RowWalls(grid, z, n)[i].x < RowWalls(grid, z, n)[j].x
  {
    if n > 0 {
      RowWallsSpec(grid, z, n - 1);
      CellOfWallPosition(n - 1, z);
      var prev := RowWalls(grid, z, n - 1);
      var r := RowWalls(grid, z, n);
      forall i, j | 0 <= i < j < |r|
        ensures r[i].x < r[j].x
      {
        assert r[i] == prev[i] && r[i] in prev;
        if j == |prev| {
          assert r[j] == WallPosition(n - 1, z);
          assert r[i] == WallPosition(CellX(r[i]), CellZ(r[i]));
        } else {
          assert r[j] == prev[j];
        }
      }
    }
  }

  /**
   * The walls of rows 0 .. m-1 are exactly the wall cells of those rows
   * (columns below Width), strictly in row-major order, hence pairwise distinct.
   */
  lemma {:induction false} WallsSpec(grid: seq<seq<int>>, m: nat)
    ensures forall p :: p in Walls(grid, m) ==> IsWallOf(grid, p, Width(grid), m)
    ensures forall x, z :: 0 <= z < m && 0 <= x < Width(grid) && IsWallCell(grid, x, z) ==>
      WallPosition(x, z) in Walls(grid, m)
    ensures forall i, j :: 0 <= i < j < |Walls(grid, m)| ==> Before(Walls(grid, m)[i], Walls(grid, m)[j])
  {
    if m > 0 {
      WallsSpec(grid, m - 1);
      RowWallsSpec(grid, m - 1, Width(grid));
      var prev := Walls(grid, m - 1);
      var row := RowWalls(grid, m - 1, Width(grid));
      var w := Walls(grid, m);
      assert w == prev + row;
      forall x, z | 0 <= z < m && 0 <= x < Width(grid) && IsWallCell(grid, x, z)
        ensures WallPosition(x, z) in w
      {
        if z < m - 1 {
          assert WallPosition(x, z) in prev;
        } else {
          assert WallPosition(x, z) in row;
        }
      }
      forall i, j | 0 <= i < j < |w|
        ensures Before(w[i], w[j])
      {
        if j < |prev| {
          assert w[i] == prev[i] && w[j] == prev[j];
        } else if i < |prev| {
          assert w[i] == prev[i] && w[j] == row[j - |prev|];
          assert w[i] in prev && w[j] in row;
        } else {
          assert w[i] == row[i - |prev|] && w[j] == row[j - |prev|];
          assert w[i] in row && w[j] in row;
        }
      }
    }
  }

  /**
   * createMaze's nested loops: a wall for exactly the `1` cells, nothing
   * else, in row-major order, no position twice.
   */
  method CreateMaze(grid: seq<seq<int>>) returns (walls: seq<Vec3>)
    ensures walls == Walls(grid, |grid|)
    ensures forall x, z :: 0 <= z < |grid| && 0 <= x < Width(grid) ==>
      (WallPosition(x, z) in walls <==> IsWallCell(grid, x, z))
    ensures forall p :: p in walls ==> IsWallOf(grid, p, Width(grid), |grid|)
    ensures forall i, j :: 0 <= i < j < |walls| ==> walls[i] != walls[j]
  {
    walls := [];
    for z := 0 to |grid|
      invariant walls == Walls(grid, z)
    {
      for x := 0 to |grid[0]|
        invariant walls == Walls(grid, z) + RowWalls(grid, z, x)
      {
        if x < |grid[z]| && grid[z][x] == 1 {
          walls := walls + [WallPosition(x, z)];
        }
      }
    }
    WallsSpec(grid, |grid|);
    forall x, z | 0 <= z < |grid| && 0 <= x < Width(grid) && WallPosition(x, z) in walls
      ensures IsWallCell(grid, x, z)
    {
      CellOfWallPosition(x, z);
    }
  }

  /** The coordinates a wall of a 6-wide, 6-deep maze can take on the x and z axes. */
  const CellCoordinates: set<real> := {-5.0, -3.0, -1.0, 1.0, 3.0, 5.0}

  /**
   * The constant layout yields 24 walls, each at height 1 with x and z in
   * {-5, -3, -1, 1, 3, 5}: the maze is centred on the origin.
   */
  lemma MazeMapWalls()
    ensures |Walls(MazeMap, |MazeMap|)| == 24
    ensures forall p :: p in Walls(MazeMap, |MazeMap|) ==>
      p.y == 1.0 && p.x in CellCoordinates && p.z in CellCoordinates
  {
    assert |MazeMap| == 6 && Width(MazeMap) == 6;
    assert |RowWalls(MazeMap, 0, 6)| == 6;
    assert |RowWalls(MazeMap, 1, 6)| == 2;
    assert |RowWalls(MazeMap, 2, 6)| == 4;
    assert |RowWalls(MazeMap, 3, 6)| == 3;
    assert |RowWalls(MazeMap, 4, 6)| == 3;
    assert |RowWalls(MazeMap, 5, 6)| == 6;
    WallsSpec(MazeMap, 6);
    forall p | p in Walls(MazeMap, 6)
      ensures p.y == 1.0 && p.x in CellCoordinates && p.z in CellCoordinates
    {
      var x, z := CellX(p), CellZ(p);
      assert x == 0 || x == 1 || x == 2 || x == 3 || x == 4 || x == 5;
      assert z == 0 || z == 1 || z == 2 || z == 3 || z == 4 || z == 5;
    }
  }
}
