/** Board geometry: which cells of the N x N grid are playable, the corner/edge pattern of
    each cell, and the hex neighbours of a cell. A cell is a linear index `row * N + col`. */
module Geometry {
  import opened Bits

  /** Board sizes the environment accepts: odd and at most 19. */
  predicate ValidSize(n: int) {
    1 <= n <= 19 && n % 2 == 1
  }

  /** Side length of the hexagon cut out of the N x N grid. */
  function Inner(n: int): int {
    (n + 1) / 2
  }

  function Row(n: int, c: int): int
    requires n > 0
  {
    c / n
  }

  function Col(n: int, c: int): int
    requires n > 0
  {
    c % n
  }

  function Abs(x: int): nat {
    if x < 0 then -x else x
  }

  /** How far (i, j) lies from the centre cell (N / 2, N / 2), in the metric whose balls
      are the hexagons bounded by rows, columns and anti-diagonals: the largest of the
      row, column and row-plus-column displacements. */
  function CentreDistance(n: int, i: int, j: int): nat {
    var di, dj := i - n / 2, j - n / 2;
    var m := if Abs(di) < Abs(dj) then Abs(dj) else Abs(di);
    if m < Abs(di + dj) then Abs(di + dj) else m
  }

  /** The coordinate trimming of the grid: both coordinates in range and the
      anti-diagonal sum within the band [inner - 1, 2N - inner - 1]. */
  predicate IsOnBoard(n: int, i: int, j: int): (r: bool)
    ensures r ==> 0 <= i < n && 0 <= j < n
  {
    if i < 0 || i >= n then false
    else if j < 0 || j >= n then false
    else Inner(n) - 1 <= i + j <= n * 2 - Inner(n) - 1
  }

  /** On an odd board the trimming keeps exactly the cells at most N / 2 from the centre:
      a hexagon of side (N + 1) / 2 around the centre cell. */
  lemma OnBoardHexagon(n: int, i: int, j: int)
    requires n % 2 == 1
    ensures IsOnBoard(n, i, j) <==> CentreDistance(n, i, j) <= n / 2
  {
  }

  /** The single-index form, `isOnBoard(i / N, i % N)`; it holds only inside the grid. */
  predicate IsOnBoardCell(n: int, c: int): (r: bool)
    requires n > 0
    ensures r ==> 0 <= c < n * n
  {
    RowInRange(n, c);
    IsOnBoard(n, Row(n, c), Col(n, c))
  }

  /** A row inside the grid means an index inside the grid. */
  lemma RowInRange(n: int, c: int)
    requires n > 0
    ensures 0 <= Row(n, c) < n ==> 0 <= c < n * n
  {
    if 0 <= Row(n, c) < n {
      RowColSplit(n, c);
      CellIndexBound(n, Row(n, c), Col(n, c));
    }
  }

  /** The cell lies on one of the six border lines of the trimmed board. */
  predicate OnBorder(n: int, i: int, j: int) {
    i == 0 || j == 0 || i == n - 1 || j == n - 1
    || i + j == Inner(n) - 1 || i + j == n * 2 - Inner(n) - 1
  }

  /** The six corner cells, in the order of their pattern bits 0 .. 5. */
  function Corner(n: int, k: int): (int, int)
    requires 0 <= k < 6
  {
    [(0, Inner(n) - 1), (0, n - 1), (n - Inner(n), n - 1),
     (n - 1, n - Inner(n)), (n - 1, 0), (Inner(n) - 1, 0)][k]
  }

  /** The corner/edge pattern of a cell: one of bits 0 .. 5 for a corner, one of
      bits 6 .. 11 for an edge line, 0 otherwise. Corners are checked first and the
      first match wins, so a cell never carries two bits. */
  function GetPattern(n: int, i: int, j: int): (r: nat)
    ensures r == 0 || exists k :: 0 <= k < 12 && r == Pow2(k)
    ensures r < Pow2(12)
    ensures BitCount(r) <= 1
  {
    PatternValues();
    // Corner
    if i == 0 && j == Inner(n) - 1 then 0x001
    else if i == 0 && j == n - 1 then 0x002
    else if i == n - Inner(n) && j == n - 1 then 0x004
    else if i == n - 1 && j == n - Inner(n) then 0x008
    else if i == n - 1 && j == 0 then 0x010
    else if i == Inner(n) - 1 && j == 0 then 0x020
    // Edge
    else if i + j == Inner(n) - 1 then 0x040
    else if i == 0 then 0x080
    else if j == n - 1 then 0x100
    else if i + j == n * 2 - Inner(n) - 1 then 0x200
    else if i == n - 1 then 0x400
    else if j == 0 then 0x800
    else 0
  }

  /** The twelve pattern constants are the powers of two 2^0 .. 2^11, one bit each. */
  lemma PatternValues()
    ensures forall k :: 0 <= k < 12 ==> Pow2(k) == [0x001, 0x002, 0x004, 0x008, 0x010, 0x020,
                                                    0x040, 0x080, 0x100, 0x200, 0x400, 0x800][k]
    ensures Pow2(12) == 0x1000
    ensures forall k :: 0 <= k < 12 ==> BitCount(Pow2(k)) == 1
    ensures BitCount(0) == 0
  {
    assert Pow2(0) == 1;
    assert Pow2(1) == 2;
    assert Pow2(2) == 4;
    assert Pow2(3) == 8;
    assert Pow2(4) == 16;
    assert Pow2(5) == 32;
    assert Pow2(6) == 64;
    assert Pow2(7) == 128;
    assert Pow2(8) == 256;
    assert Pow2(9) == 512;
    assert Pow2(10) == 1024;
    assert Pow2(11) == 2048;
    assert Pow2(12) == 4096;
    PowBitCount(12);
  }

  lemma {:induction false} PowBitCount(w: nat)
    ensures forall k :: 0 <= k < w ==> BitCount(Pow2(k)) == 1
  {
    if w > 0 {
      PowBitCount(w - 1);
      if w - 1 > 0 {
        assert Pow2(w - 1) / 2 == Pow2(w - 2);
      }
    }
  }

  /** On a playable cell the pattern is 0 exactly for the cells off the six border lines,
      and corner bit k is given exactly to corner cell k. */
  lemma PatternClassifies(n: int, i: int, j: int)
    requires ValidSize(n) && n >= 3 && IsOnBoard(n, i, j)
    ensures GetPattern(n, i, j) == 0 <==> !OnBorder(n, i, j)
    ensures forall k :: 0 <= k < 6 ==> (GetPattern(n, i, j) == Pow2(k) <==> (i, j) == Corner(n, k))
  {
    PatternValues();
  }

  /** The six corner cells are distinct playable cells. */
  lemma CornersDistinct(n: int)
    requires ValidSize(n) && n >= 3
    ensures forall k :: 0 <= k < 6 ==> IsOnBoard(n, Corner(n, k).0, Corner(n, k).1)
    ensures forall k, l :: 0 <= k < l < 6 ==> Corner(n, k) != Corner(n, l)
  {
  }

  // ---------------------------------------------------------------- the number of playable cells

  /** Number of playable cells among cells 0 .. k - 1. */
  function PlayableUpTo(n: int, k: nat): nat
    requires n > 0
  {
    if k == 0 then 0 else PlayableUpTo(n, k - 1) + (if IsOnBoardCell(n, k - 1) then 1 else 0)
  }

  /** Number of playable cells of row `i` among columns 0 .. j - 1. */
  function RowPlayable(n: int, i: int, j: nat): nat
  {
    if j == 0 then 0 else RowPlayable(n, i, j - 1) + (if IsOnBoard(n, i, j - 1) then 1 else 0)
  }

  /** The playable cells of row `i` are the columns from `Inner - 1 - i` up to
      `2N - Inner - 1 - i`, clipped to the grid; this is how many lie below column `j`. */
  function BandBelow(n: int, i: int, j: int): int
  {
    var lo := if Inner(n) - 1 - i > 0 then Inner(n) - 1 - i else 0;
    var hi := n * 2 - Inner(n) - i;
    var top := if j < hi then j else hi;
    if top > lo then top - lo else 0
  }

  lemma {:induction false} RowPlayableBand(n: int, i: int, j: nat)
    requires n > 0 && 0 <= i < n && j <= n
    ensures RowPlayable(n, i, j) == BandBelow(n, i, j)
  {
    if j > 0 {
      RowPlayableBand(n, i, j - 1);
    }
  }

  /** Cells of rows 0 .. i - 1, then the first j cells of row i. */
  lemma {:induction false} RowPrefix(n: int, i: int, j: nat)
    requires n > 0 && 0 <= i < n && j <= n
    ensures 0 <= i * n + j <= n * n
    ensures PlayableUpTo(n, i * n + j) == PlayableUpTo(n, i * n) + RowPlayable(n, i, j)
  {
    if j == 0 {
      CellIndexBound(n, i, 0);
    } else {
      RowPrefix(n, i, j - 1);
      CellIndexBound(n, i, j - 1);
    }
  }

  /** Number of playable cells in rows 0 .. i - 1, row by row. */
  function RowsPlayable(n: int, i: nat): int
  {
    if i == 0 then 0 else RowsPlayable(n, i - 1) + BandBelow(n, i - 1, n)
  }

  lemma {:induction false} PlayableRows(n: int, i: nat)
    requires n > 0 && i <= n
    ensures PlayableUpTo(n, i * n) == RowsPlayable(n, i)
  {
    if i > 0 {
      PlayableRows(n, i - 1);
      RowPrefix(n, i - 1, n);
      RowPlayableBand(n, i - 1, n);
      MulSucc(i - 1, n);
    }
  }

  /** Twice the number of playable cells in rows 0 .. i - 1 of the upper half. */
  function UpperTwice(k: int, i: int): int
  {
    2 * i * k + i * (i - 1)
  }

  /** The rows of the upper half grow by one cell each: row r has k + r cells. */
  lemma {:induction false} UpperRows(n: int, i: nat)
    requires ValidSize(n) && i <= Inner(n)
    ensures 2 * RowsPlayable(n, i) == UpperTwice(Inner(n), i)
  {
    if i > 0 {
      UpperRows(n, i - 1);
      UpperBand(n, i);
      assert RowsPlayable(n, i) == RowsPlayable(n, i - 1) + BandBelow(n, i - 1, n);
      UpperStep(Inner(n), i);
    }
  }

  lemma UpperBand(n: int, i: int)
    requires ValidSize(n) && 0 < i <= Inner(n)
    ensures BandBelow(n, i - 1, n) == Inner(n) + i - 1
  {
    assert n == 2 * Inner(n) - 1;
  }

  lemma UpperStep(k: int, i: int)
    ensures UpperTwice(k, i) == UpperTwice(k, i - 1) + 2 * (k + i - 1)
  {
    assert i * k == (i - 1) * k + k;
    assert i * (i - 1) == (i - 1) * (i - 2) + 2 * (i - 1);
  }

  /** Twice the number of playable cells in the rows above row k + d of the lower half. */
  function LowerTwice(k: int, d: int): int
  {
    3 * k * k - k + 4 * k * d - 3 * d - d * d
  }

  /** The rows of the lower half shrink by one cell each: row k - 1 + d has 2k - 1 - d
      cells. */
  lemma {:induction false} LowerRows(n: int, d: nat)
    requires ValidSize(n) && d < Inner(n)
    ensures 2 * RowsPlayable(n, Inner(n) + d) == LowerTwice(Inner(n), d)
  {
    var k := Inner(n);
    if d == 0 {
      UpperRows(n, k);
      UpperLower(k);
    } else {
      LowerRows(n, d - 1);
      LowerBand(n, d);
      assert RowsPlayable(n, k + d) == RowsPlayable(n, k + d - 1) + BandBelow(n, k + d - 1, n);
      LowerStep(k, d);
    }
  }

  lemma UpperLower(k: int)
    ensures UpperTwice(k, k) == LowerTwice(k, 0)
  {
    assert k * (k - 1) == k * k - k;
  }

  lemma LowerStep(k: int, d: int)
    ensures LowerTwice(k, d) == LowerTwice(k, d - 1) + 2 * (2 * k - 1 - d)
  {
    assert (d - 1) * (d - 1) == d * d - 2 * d + 1;
    assert k * (d - 1) == k * d - k;
  }

  lemma LowerBand(n: int, d: int)
    requires ValidSize(n) && 0 < d < Inner(n)
    ensures BandBelow(n, Inner(n) + d - 1, n) == 2 * Inner(n) - 1 - d
  {
    assert n == 2 * Inner(n) - 1;
  }

  lemma HexagonArith(k: int)
    ensures LowerTwice(k, k - 1) == 2 * (3 * k * k - 3 * k + 1)
  {
    assert (k - 1) * (k - 1) == k * k - 2 * k + 1;
    assert k * (k - 1) == k * k - k;
  }

  /** The trimmed board is a hexagon of side k = (N + 1) / 2: it has 3k^2 - 3k + 1 playable
      cells. */
  lemma PlayableCount(n: int)
    requires ValidSize(n)
    ensures var k := Inner(n); PlayableUpTo(n, n * n) == 3 * k * k - 3 * k + 1
  {
    var k := Inner(n);
    assert n == k + (k - 1);
    PlayableRows(n, n);
    LowerRows(n, k - 1);
    HexagonArith(k);
  }

  // ---------------------------------------------------------------- neighbours

  /** The six index offsets of `getNeighbors`, in its order. */
  function Offset(n: int, k: int): int
    requires 0 <= k < 6
  {
    [-1 - n, 0 - n, -1 - 0 * n, 1 + 0 * n, 0 + n, 1 + n][k]
  }

  /** Offset k is kept for cell `a`: no row wrap-around (column 0 drops offsets 0 and 2,
      column N - 1 drops offsets 3 and 5), inside the grid, and playable. */
  predicate Keeps(n: int, a: int, k: int)
    requires n > 0 && 0 <= k < 6
  {
    var col := a % n;
    if col == 0 && (k == 0 || k == 2) then false
    else if col == n - 1 && (k == 3 || k == 5) then false
    else if a + Offset(n, k) < 0 || a + Offset(n, k) >= n * n then false
    else IsOnBoardCell(n, a + Offset(n, k))
  }

  /** The neighbours contributed by offsets 0 .. k - 1. */
  function NeighborsUpTo(n: int, a: int, k: int): seq<int>
    requires n > 0 && 0 <= k <= 6
  {
    if k == 0 then []
    else NeighborsUpTo(n, a, k - 1) + (if Keeps(n, a, k - 1) then [a + Offset(n, k - 1)] else [])
  }

  /** The playable hex neighbours of cell `a`, in offset order. */
  function NeighborsOf(n: int, a: int): (r: seq<int>)
    requires n > 0 && 0 <= a < n * n
    ensures |r| <= 6
    ensures forall t :: 0 <= t < |r| ==> 0 <= r[t] < n * n && IsOnBoardCell(n, r[t])
    ensures forall s, t :: 0 <= s < t < |r| ==> r[s] < r[t]
  {
    NeighborsUpToProps(n, a, 6);
    NeighborsUpTo(n, a, 6)
  }

  /** On the 3 x 3 board the centre cell 4 has four neighbours only. The playable cells 2
      and 6 are one step away along the anti-diagonal that the trimming follows, but the
      offsets step along the other diagonal, to cells 0 and 8, which are trimmed off. */
  lemma CentreOfThree()
    ensures IsOnBoardCell(3, 2) && IsOnBoardCell(3, 6)
    ensures !IsOnBoardCell(3, 0) && !IsOnBoardCell(3, 8)
    ensures NeighborsOf(3, 4) == [1, 3, 5, 7]
  {
    assert NeighborsUpTo(3, 4, 6) == [1, 3, 5, 7] by {
      assert Row(3, 0) == 0 && Col(3, 0) == 0 && Row(3, 8) == 2 && Col(3, 8) == 2;
      assert Row(3, 1) == 0 && Col(3, 1) == 1 && Row(3, 3) == 1 && Col(3, 3) == 0;
      assert Row(3, 5) == 1 && Col(3, 5) == 2 && Row(3, 7) == 2 && Col(3, 7) == 1;
    }
  }

  lemma NeighborsUpToProps(n: int, a: int, k: int)
    requires n > 0 && 0 <= a < n * n && 0 <= k <= 6
    ensures |NeighborsUpTo(n, a, k)| <= k
    ensures forall t :: 0 <= t < |NeighborsUpTo(n, a, k)| ==>
      0 <= NeighborsUpTo(n, a, k)[t] < n * n && IsOnBoardCell(n, NeighborsUpTo(n, a, k)[t])
    ensures forall s, t :: 0 <= s < t < |NeighborsUpTo(n, a, k)| ==>
      NeighborsUpTo(n, a, k)[s] < NeighborsUpTo(n, a, k)[t]
  {
    NeighborsUpToCells(n, a, k);
    NeighborsUpToSorted(n, a, k);
  }

  /** The partial list has at most one cell per offset, each a playable cell of the grid. */
  lemma {:induction false} NeighborsUpToCells(n: int, a: int, k: int)
    requires n > 0 && 0 <= k <= 6
    ensures |NeighborsUpTo(n, a, k)| <= k
    ensures forall t :: 0 <= t < |NeighborsUpTo(n, a, k)| ==>
      0 <= NeighborsUpTo(n, a, k)[t] < n * n && IsOnBoardCell(n, NeighborsUpTo(n, a, k)[t])
  {
    if k > 0 {
      NeighborsUpToCells(n, a, k - 1);
    }
  }

  /** On a 1 x 1 grid the only cell has no neighbour. */
  lemma {:induction false} NeighborsUpToSingle(a: int, k: int)
    requires a == 0 && 0 <= k <= 6
    ensures NeighborsUpTo(1, a, k) == []
  {
    if k > 0 {
      NeighborsUpToSingle(a, k - 1);
    }
  }

  /** For N > 1 the six offsets increase, so the cells found so far lie below the next one. */
  lemma {:induction false} NeighborsUpToBelow(n: int, a: int, k: int)
    requires n > 1 && 0 <= k < 6
    ensures forall t :: 0 <= t < |NeighborsUpTo(n, a, k)| ==> NeighborsUpTo(n, a, k)[t] < a + Offset(n, k)
  {
    if k > 0 {
      NeighborsUpToBelow(n, a, k - 1);
      assert Offset(n, k - 1) < Offset(n, k);
    }
  }

  lemma {:induction false} NeighborsUpToSorted(n: int, a: int, k: int)
    requires n > 0 && 0 <= a < n * n && 0 <= k <= 6
    ensures forall s, t :: 0 <= s < t < |NeighborsUpTo(n, a, k)| ==>
      NeighborsUpTo(n, a, k)[s] < NeighborsUpTo(n, a, k)[t]
  {
    if n == 1 {
      assert a == 0;
      NeighborsUpToSingle(a, k);
    } else if k > 0 {
      NeighborsUpToSorted(n, a, k - 1);
      NeighborsUpToBelow(n, a, k - 1);
    }
  }

  /** Membership in the partial list: some kept offset below k leads there. */
  lemma {:induction false} InUpToIff(n: int, a: int, k: int, b: int)
    requires n > 0 && 0 <= k <= 6
    ensures b in NeighborsUpTo(n, a, k) <==> exists m :: 0 <= m < k && Keeps(n, a, m) && b == a + Offset(n, m)
  {
    if k > 0 {
      InUpToIff(n, a, k - 1, b);
    }
  }

  /** `getNeighbors`: collects the kept offsets in order. */
  method GetNeighbors(n: int, a: int) returns (neighbors: seq<int>)
    requires n > 0 && 0 <= a < n * n
    ensures neighbors == NeighborsOf(n, a)
  {
    neighbors := [];
    var offsets := [-1 - n, 0 - n, -1 - 0 * n, 1 + 0 * n, 0 + n, 1 + n];
    for i := 0 to 6
      invariant neighbors == NeighborsUpTo(n, a, i)
    {
      var col := a % n;
      if col == 0 && (i == 0 || i == 2) { continue; }
      if col == n - 1 && (i == 3 || i == 5) { continue; }
      var neighbor := a + offsets[i];
      if neighbor < 0 || neighbor >= n * n { continue; }
      if !IsOnBoard(n, neighbor / n, neighbor % n) { continue; }
      neighbors := neighbors + [neighbor];
    }
  }

  // ------------------------------------------------- what a neighbour is, in rows and columns

  /** `b` is one step from `a` along one of the six hex directions of the grid:
      (-1,-1), (-1,0), (0,-1), (0,1), (1,0), (1,1) in (row, column). */
  predicate HexAdjacent(n: int, a: int, b: int)
    requires n > 0
  {
    var dr := Row(n, b) - Row(n, a);
    var dc := Col(n, b) - Col(n, a);
    (dr == -1 && dc == -1) || (dr == -1 && dc == 0) || (dr == 0 && dc == -1)
    || (dr == 0 && dc == 1) || (dr == 1 && dc == 0) || (dr == 1 && dc == 1)
  }

  lemma MulSucc(i: int, n: int)
    ensures (i + 1) * n == i * n + n
  {
  }

  lemma MulGe(d: int, n: int)
    requires n > 0 && d >= 1
    ensures d * n >= n
  {
    if d > 1 {
      MulGe(d - 1, n);
      assert d * n == (d - 1) * n + n;
    }
  }

  /** Quotient and remainder of `q * n + m` for a remainder in range. */
  lemma DivModOf(n: int, q: int, m: int)
    requires n > 0 && 0 <= m < n
    ensures (q * n + m) / n == q && (q * n + m) % n == m
  {
    var a := q * n + m;
    var d := a / n - q;
    assert a == (a / n) * n + a % n;
    assert d * n == m - a % n by {
      assert (a / n) * n == (d + q) * n == d * n + q * n;
    }
    if d >= 1 {
      MulGe(d, n);
    } else if d <= -1 {
      MulGe(-d, n);
    }
  }

  /** Row-major index of an in-range coordinate pair is an in-range cell. */
  lemma CellIndexBound(n: int, i: int, j: int)
    requires n > 0 && 0 <= i < n && 0 <= j < n
    ensures 0 <= i * n + j < n * n
    ensures Row(n, i * n + j) == i && Col(n, i * n + j) == j
  {
    DivModOf(n, i, j);
    if i > 0 {
      MulGe(i, n);
    }
    assert i * n + j < (i + 1) * n;
    if i + 1 < n {
      assert (i + 1) * n <= n * n by {
        MulGe(n - (i + 1), n);
        assert n * n == (i + 1) * n + (n - (i + 1)) * n;
      }
    }
  }

  lemma RowColSplit(n: int, c: int)
    requires n > 0
    ensures c == Row(n, c) * n + Col(n, c) && 0 <= Col(n, c) < n
  {
  }

  /** Offset k of cell `a` (when its column guard passes) is the step (dr, dc) of direction k. */
  lemma OffsetStep(n: int, a: int, k: int, dr: int, dc: int)
    requires n > 0 && 0 <= k < 6
    requires (dr, dc) == [(-1, -1), (-1, 0), (0, -1), (0, 1), (1, 0), (1, 1)][k]
    requires 0 <= Col(n, a) + dc < n
    ensures a + Offset(n, k) == (Row(n, a) + dr) * n + (Col(n, a) + dc)
    ensures Row(n, a + Offset(n, k)) == Row(n, a) + dr && Col(n, a + Offset(n, k)) == Col(n, a) + dc
  {
    RowColSplit(n, a);
    assert a + Offset(n, k) == (Row(n, a) + dr) * n + (Col(n, a) + dc);
    DivModOf(n, Row(n, a) + dr, Col(n, a) + dc);
  }

  /** Offset k kept for `a` means `a + Offset(k)` is a playable, hex-adjacent cell. */
  lemma KeepsAdjacent(n: int, a: int, k: int)
    requires n > 0 && 0 <= a < n * n && 0 <= k < 6 && Keeps(n, a, k)
    ensures HexAdjacent(n, a, a + Offset(n, k))
  {
    var steps := [(-1, -1), (-1, 0), (0, -1), (0, 1), (1, 0), (1, 1)];
    RowColSplit(n, a);
    OffsetStep(n, a, k, steps[k].0, steps[k].1);
  }

  /** A playable cell hex-adjacent to `a` is reached by a kept offset. */
  lemma AdjacentKept(n: int, a: int, b: int) returns (k: int)
    requires n > 0 && 0 <= a < n * n && 0 <= b < n * n && IsOnBoardCell(n, b) && HexAdjacent(n, a, b)
    ensures 0 <= k < 6 && Keeps(n, a, k) && b == a + Offset(n, k)
  {
    var steps := [(-1, -1), (-1, 0), (0, -1), (0, 1), (1, 0), (1, 1)];
    var dr := Row(n, b) - Row(n, a);
    var dc := Col(n, b) - Col(n, a);
    k := if dr == -1 && dc == -1 then 0 else if dr == -1 && dc == 0 then 1
      else if dr == 0 && dc == -1 then 2 else if dr == 0 && dc == 1 then 3
      else if dr == 1 && dc == 0 then 4 else 5;
    RowColSplit(n, a);
    RowColSplit(n, b);
    OffsetStep(n, a, k, steps[k].0, steps[k].1);
  }

  /** `getNeighbors(a)` is exactly the set of playable cells one hex step from `a`, so no
      neighbour ever wraps from one row end to the next row. */
  lemma NeighborsMeaning(n: int, a: int, b: int)
    requires n > 0 && 0 <= a < n * n
    ensures b in NeighborsOf(n, a) <==> 0 <= b < n * n && IsOnBoardCell(n, b) && HexAdjacent(n, a, b)
  {
    InUpToIff(n, a, 6, b);
    if b in NeighborsOf(n, a) {
      var m :| 0 <= m < 6 && Keeps(n, a, m) && b == a + Offset(n, m);
      KeepsAdjacent(n, a, m);
    }
    if 0 <= b < n * n && IsOnBoardCell(n, b) && HexAdjacent(n, a, b) {
      var k := AdjacentKept(n, a, b);
    }
  }

  /** Adjacency is symmetric between playable cells. */
  lemma NeighborsSymmetric(n: int, a: int, b: int)
    requires n > 0 && 0 <= a < n * n && IsOnBoardCell(n, a)
    requires b in NeighborsOf(n, a)
    ensures a in NeighborsOf(n, b)
  {
    NeighborsMeaning(n, a, b);
    NeighborsMeaning(n, b, a);
  }
}
