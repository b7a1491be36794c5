/** The universe of wasm-3d-game-of-life (rust/wasm-3d-game-of-life/src/lib.rs):
    a `width` x `height` torus of cells stored row by row in one of two
    fixed 8192-cell buffers; `tick` computes the next generation into the
    other buffer and then flips `index`. */
module GameOfLife {
  /** `MAX_UNIVERSE_SIZE`, the length of each buffer. */
  const MaxUniverseSize: nat := 8192

  type U32 = x: int | 0 <= x < 0x1_0000_0000

  datatype Cell = Dead | Alive

  /** `cell as u8`. */
  function Weight(c: Cell): nat
  {
    if c == Alive then 1 else 0
  }

  // ---------------------------------------------------------------------------
  // The grid
  // ---------------------------------------------------------------------------

  /** `get_index`: cells are stored row by row. */
  function GetIndex(width: nat, row: nat, column: nat): nat
  {
    row * width + column
  }

  /** Every position of the grid has an index below `width * height`. */
  lemma GetIndexInRange(width: nat, height: nat, row: nat, column: nat)
    requires row < height && column < width
    ensures GetIndex(width, row, column) < width * height
  {
    calc {
      row * width + column;
    <
      row * width + width;
    ==
      (row + 1) * width;
    <=
      { MulLeq(row + 1, height, width); }
      height * width;
    }
  }

  lemma MulLeq(a: nat, b: nat, c: nat)
    requires a <= b
    ensures a * c <= b * c
  {
  }

  /** An index below `width * height` is the index of exactly one position:
      its row is `i / width` and its column `i % width`. */
  lemma GetIndexInverse(width: nat, row: nat, column: nat)
    requires column < width
    ensures GetIndex(width, row, column) / width == row
    ensures GetIndex(width, row, column) % width == column
  {
    var i := row * width + column;
    var q, r := i / width, i % width;
    assert q * width + r == row * width + column;
    if q < row {
      MulLeq(q + 1, row, width);
    } else if q > row {
      MulLeq(row + 1, q, width);
    }
  }

  /** The position of an index below `width * height`. */
  lemma PositionOf(width: nat, height: nat, i: nat)
    requires i < width * height
    ensures 0 < width && 0 < height
    ensures i / width < height && i % width < width
    ensures GetIndex(width, i / width, i % width) == i
  {
    if i / width >= height {
      MulLeq(height, i / width, width);
    }
  }

  // ---------------------------------------------------------------------------
  // Neighbours
  // ---------------------------------------------------------------------------

  /** The offsets `[n - 1, 0, 1]` in one axis: adding `n - 1` modulo `n`
      steps back by one. */
  function Deltas(n: nat): seq<nat>
    requires 0 < n
  {
    [n - 1, 0, 1]
  }

  /** The grid description `live_neighbor_count` needs: non-empty, and
      within the buffer. */
  predicate Grid(cells: seq<Cell>, width: nat, height: nat)
  {
    0 < width && 0 < height && width * height <= |cells|
  }

  /** The index of the cell at an offset, wrapping at the edges:
      `(row + delta_row) % height` and `(column + delta_col) % width`. */
  function NeighborIndex(width: nat, height: nat, row: nat, column: nat, deltaRow: nat, deltaColumn: nat): (r: nat)
    requires 0 < width && 0 < height
    ensures r < width * height
  {
    var neighborRow := (row + deltaRow) % height;
    var neighborColumn := (column + deltaColumn) % width;
    GetIndexInRange(width, height, neighborRow, neighborColumn);
    GetIndex(width, neighborRow, neighborColumn)
  }

  /** What one offset adds to the count: nothing for (0, 0), otherwise the
      cell at that offset on the torus. */
  function NeighborWeight(cells: seq<Cell>, width: nat, height: nat, row: nat, column: nat, deltaRow: nat, deltaColumn: nat): (r: nat)
    requires Grid(cells, width, height)
    ensures r <= 1
  {
    if deltaRow == 0 && deltaColumn == 0 then 0
    else Weight(cells[NeighborIndex(width, height, row, column, deltaRow, deltaColumn)])
  }

  /** The inner loop over the first `k` column offsets. */
  function RowSum(cells: seq<Cell>, width: nat, height: nat, row: nat, column: nat, deltaRow: nat, k: nat): (r: nat)
    requires Grid(cells, width, height) && row < height && column < width && k <= 3
    ensures r <= k
    ensures deltaRow == 0 && k >= 2 ==> r <= k - 1
  {
    if k == 0 then 0
    else RowSum(cells, width, height, row, column, deltaRow, k - 1)
         + NeighborWeight(cells, width, height, row, column, deltaRow, Deltas(width)[k - 1])
  }

  /** The outer loop over the first `j` row offsets. */
  function NeighborSum(cells: seq<Cell>, width: nat, height: nat, row: nat, column: nat, j: nat): (r: nat)
    requires Grid(cells, width, height) && row < height && column < width && j <= 3
    ensures r <= 3 * j - (if j >= 2 then 1 else 0)
  {
    if j == 0 then 0
    else NeighborSum(cells, width, height, row, column, j - 1)
         + RowSum(cells, width, height, row, column, Deltas(height)[j - 1], 3)
  }

  /** `live_neighbor_count`: the live cells among the eight offsets around
      a position, wrapping at the edges. It never exceeds 8, so the `u8`
      count cannot overflow. */
  function LiveNeighbors(cells: seq<Cell>, width: nat, height: nat, row: nat, column: nat): (r: nat)
    requires Grid(cells, width, height) && row < height && column < width
    ensures r <= 8
  {
    NeighborSum(cells, width, height, row, column, 3)
  }

  /** The torus neighbour at offset `n - 1` is the one at offset -1 (with
      Dafny's Euclidean `%`, which never yields a negative remainder). */
  lemma StepBack(x: nat, n: nat)
    requires x < n
    ensures (x + (n - 1)) % n == (x - 1) % n
  {
    if x == 0 {
      ModBelow(n - 1, n);
      assert (x - 1) % n == n - 1;
    } else {
      ModOnce(x + (n - 1), n);
      ModBelow(x - 1, n);
    }
  }

  /** On a grid at least 3 wide and 3 high the eight offsets name eight
      different cells, none of them the cell itself: no cell is counted
      twice. */
  lemma NeighborsDistinct(width: nat, height: nat, row: nat, column: nat, dr1: nat, dc1: nat, dr2: nat, dc2: nat)
    requires 3 <= width && 3 <= height && row < height && column < width
    requires dr1 in Deltas(height) && dc1 in Deltas(width) && dr2 in Deltas(height) && dc2 in Deltas(width)
    requires (dr1, dc1) != (dr2, dc2)
    ensures NeighborIndex(width, height, row, column, dr1, dc1) != NeighborIndex(width, height, row, column, dr2, dc2)
  {
    var r1, c1 := (row + dr1) % height, (column + dc1) % width;
    var r2, c2 := (row + dr2) % height, (column + dc2) % width;
    if NeighborIndex(width, height, row, column, dr1, dc1) == NeighborIndex(width, height, row, column, dr2, dc2) {
      assert GetIndex(width, r1, c1) == GetIndex(width, r2, c2);
      GetIndexInverse(width, r1, c1);
      GetIndexInverse(width, r2, c2);
      assert r1 == r2 && c1 == c2;
      OffsetsDistinct(row, height, dr1, dr2);
      OffsetsDistinct(column, width, dc1, dc2);
      assert false;
    }
  }

  /** Where offset `d` of `Deltas(n)` leads from `x`: one back (wrapping to
      `n - 1`), nowhere, or one forward (wrapping to 0). */
  lemma OffsetTarget(x: nat, n: nat, d: nat)
    requires 0 < n && x < n && d in Deltas(n)
    ensures d == n - 1 ==> (x + d) % n == if x == 0 then n - 1 else x - 1
    ensures d == 0 ==> (x + d) % n == x
    ensures d == 1 && 1 < n ==> (x + d) % n == if x == n - 1 then 0 else x + 1
  {
    if d == n - 1 {
      if x == 0 {
        ModBelow(n - 1, n);
      } else {
        ModOnce(x + n - 1, n);
      }
    }
    if d == 0 {
      ModBelow(x, n);
    }
    if d == 1 && 1 < n {
      if x == n - 1 {
        ModOnce(n, n);
      } else {
        ModBelow(x + 1, n);
      }
    }
  }

  lemma ModBelow(a: nat, n: nat)
    requires a < n
    ensures a % n == a
  {
  }

  lemma ModOnce(a: nat, n: nat)
    requires n <= a < 2 * n
    ensures a % n == a - n
  {
  }

  /** Two different offsets of one axis reach different coordinates when
      the axis has at least 3 positions. */
  lemma OffsetsDistinct(x: nat, n: nat, d1: nat, d2: nat)
    requires 3 <= n && x < n && d1 in Deltas(n) && d2 in Deltas(n)
    ensures (x + d1) % n == (x + d2) % n ==> d1 == d2
  {
    OffsetTarget(x, n, d1);
    OffsetTarget(x, n, d2);
  }

  /** On a grid where every cell is alive each cell counts 8 live
      neighbours, even on a grid less than 3 wide or high, which has fewer
      than 8 other cells: there the offsets `n - 1` and `1` name the same
      row or column and it is counted twice. */
  lemma FullGridCountsEight(cells: seq<Cell>, width: nat, height: nat, row: nat, column: nat)
    requires Grid(cells, width, height) && 2 <= width && 2 <= height && row < height && column < width
    requires forall i :: 0 <= i < |cells| ==> cells[i] == Alive
    ensures LiveNeighbors(cells, width, height, row, column) == 8
  {
    forall deltaRow: nat, deltaColumn: nat
      ensures NeighborWeight(cells, width, height, row, column, deltaRow, deltaColumn)
              == if deltaRow == 0 && deltaColumn == 0 then 0 else 1
    {
    }
    forall deltaRow: nat
      ensures RowSum(cells, width, height, row, column, deltaRow, 3) == if deltaRow == 0 then 2 else 3
    {
      assert RowSum(cells, width, height, row, column, deltaRow, 1) == 1;
      assert RowSum(cells, width, height, row, column, deltaRow, 2) == if deltaRow == 0 then 1 else 2;
    }
    assert NeighborSum(cells, width, height, row, column, 1) == 3;
    assert NeighborSum(cells, width, height, row, column, 2) == 5;
  }

  /** On a 2 x 2 grid whose cells are all alive, a cell counts 8 live
      neighbours among its 3 other cells. */
  lemma SmallGridCountsTwice(cells: seq<Cell>)
    requires cells == [Alive, Alive, Alive, Alive]
    ensures LiveNeighbors(cells, 2, 2, 0, 0) == 8
  {
    FullGridCountsEight(cells, 2, 2, 0, 0);
  }

  // ---------------------------------------------------------------------------
  // Generations
  // ---------------------------------------------------------------------------

  /** The `match (cell, live_neighbors)` of `tick`. */
  function NextCell(cell: Cell, liveNeighbors: nat): Cell
  {
    if cell == Alive && liveNeighbors < 2 then Dead
    else if cell == Alive && (liveNeighbors == 2 || liveNeighbors == 3) then Alive
    else if cell == Alive && liveNeighbors > 3 then Dead
    else if cell == Dead && liveNeighbors == 3 then Alive
    else cell
  }

  /** The rule is B3/S23: a cell is alive next exactly when it has three
      live neighbours, or two and is alive now. */
  lemma NextCellRule(cell: Cell, liveNeighbors: nat)
    ensures NextCell(cell, liveNeighbors) == Alive <==>
            liveNeighbors == 3 || (cell == Alive && liveNeighbors == 2)
  {
  }

  /** The next state of the cell at index `i`. */
  function NextAt(cells: seq<Cell>, width: nat, height: nat, i: nat): Cell
    requires i < width * height <= |cells|
  {
    PositionOf(width, height, i);
    NextCell(cells[i], LiveNeighbors(cells, width, height, i / width, i % width))
  }

  /** The buffer `tick` computes from `cells`: every cell of the grid
      follows the rule; the cells past `width * height` are dead. */
  function NextGeneration(cells: seq<Cell>, width: nat, height: nat): (r: seq<Cell>)
    requires width * height <= |cells|
    ensures |r| == |cells|
    ensures forall i :: width * height <= i < |r| ==> r[i] == Dead
  {
    seq(|cells|, i requires 0 <= i < |cells| => if i < width * height then NextAt(cells, width, height, i) else Dead)
  }

  /** A grid with no live cell stays empty. */
  lemma EmptyStaysEmpty(cells: seq<Cell>, width: nat, height: nat)
    requires width * height <= |cells|
    requires forall i :: 0 <= i < |cells| ==> cells[i] == Dead
    ensures forall i :: 0 <= i < |cells| ==> NextGeneration(cells, width, height)[i] == Dead
  {
    forall i | 0 <= i < width * height
      ensures NextGeneration(cells, width, height)[i] == Dead
    {
      PositionOf(width, height, i);
      NoNeighbors(cells, width, height, i / width, i % width);
    }
  }

  lemma NoNeighbors(cells: seq<Cell>, width: nat, height: nat, row: nat, column: nat)
    requires Grid(cells, width, height) && row < height && column < width
    requires forall i :: 0 <= i < |cells| ==> cells[i] == Dead
    ensures LiveNeighbors(cells, width, height, row, column) == 0
  {
    forall deltaRow: nat, deltaColumn: nat
      ensures NeighborWeight(cells, width, height, row, column, deltaRow, deltaColumn) == 0
    {
    }
    forall deltaRow: nat
      ensures RowSum(cells, width, height, row, column, deltaRow, 3) == 0
    {
      assert RowSum(cells, width, height, row, column, deltaRow, 1) == 0;
      assert RowSum(cells, width, height, row, column, deltaRow, 2) == 0;
    }
    assert NeighborSum(cells, width, height, row, column, 1) == 0;
    assert NeighborSum(cells, width, height, row, column, 2) == 0;
  }

  /** On a grid at least 2 wide and 2 high the count is the sum over the
      eight offsets other than (0, 0), in the order the loops visit them. */
  lemma LiveNeighborsExpanded(cells: seq<Cell>, width: nat, height: nat, row: nat, column: nat)
    requires Grid(cells, width, height) && 2 <= width && 2 <= height && row < height && column < width
    ensures LiveNeighbors(cells, width, height, row, column)
            == OffsetWeight(cells, width, height, row, column, height - 1, width - 1)
             + OffsetWeight(cells, width, height, row, column, height - 1, 0)
             + OffsetWeight(cells, width, height, row, column, height - 1, 1)
             + OffsetWeight(cells, width, height, row, column, 0, width - 1)
             + OffsetWeight(cells, width, height, row, column, 0, 1)
             + OffsetWeight(cells, width, height, row, column, 1, width - 1)
             + OffsetWeight(cells, width, height, row, column, 1, 0)
             + OffsetWeight(cells, width, height, row, column, 1, 1)
  {
    RowExpanded(cells, width, height, row, column, height - 1);
    RowExpanded(cells, width, height, row, column, 0);
    RowExpanded(cells, width, height, row, column, 1);
    var deltas := Deltas(height);
    assert deltas[0] == height - 1 && deltas[1] == 0 && deltas[2] == 1;
    assert NeighborSum(cells, width, height, row, column, 1)
           == RowSum(cells, width, height, row, column, height - 1, 3);
    assert NeighborSum(cells, width, height, row, column, 2)
           == NeighborSum(cells, width, height, row, column, 1) + RowSum(cells, width, height, row, column, 0, 3);
    assert NeighborSum(cells, width, height, row, column, 3)
           == NeighborSum(cells, width, height, row, column, 2) + RowSum(cells, width, height, row, column, 1, 3);
  }

  /** The weight of the cell at an offset. */
  function OffsetWeight(cells: seq<Cell>, width: nat, height: nat, row: nat, column: nat, deltaRow: nat, deltaColumn: nat): nat
    requires Grid(cells, width, height)
  {
    Weight(cells[NeighborIndex(width, height, row, column, deltaRow, deltaColumn)])
  }

  lemma RowExpanded(cells: seq<Cell>, width: nat, height: nat, row: nat, column: nat, deltaRow: nat)
    requires Grid(cells, width, height) && 2 <= width && row < height && column < width
    ensures RowSum(cells, width, height, row, column, deltaRow, 3)
            == OffsetWeight(cells, width, height, row, column, deltaRow, width - 1)
             + (if deltaRow == 0 then 0 else OffsetWeight(cells, width, height, row, column, deltaRow, 0))
             + OffsetWeight(cells, width, height, row, column, deltaRow, 1)
  {
    assert RowSum(cells, width, height, row, column, deltaRow, 1)
           == OffsetWeight(cells, width, height, row, column, deltaRow, width - 1);
  }

  /** The cells `new` starts from: index `i` is alive exactly when it is on
      the grid and divisible by 2 or by 7. */
  function InitialCells(width: nat, height: nat): (r: seq<Cell>)
    ensures |r| == MaxUniverseSize
  {
    seq(MaxUniverseSize, i => if i < width * height && (i % 2 == 0 || i % 7 == 0) then Alive else Dead)
  }

  // ---------------------------------------------------------------------------
  // The universe
  // ---------------------------------------------------------------------------

  /** `Universe`; `buffers: [[Cell; MAX_UNIVERSE_SIZE]; 2]` is the pair of
      arrays `buffer0` and `buffer1`, and `index` selects the current one. */
  class Universe {
    const width: U32
    const height: U32
    const buffer0: array<Cell>
    const buffer1: array<Cell>
    var index: nat

    /** `buffers[index]`. */
    function Current(): array<Cell>
      reads this
    {
      if index == 0 then buffer0 else buffer1
    }

    /** `buffers[(index + 1) % 2]`. */
    function Other(): array<Cell>
      reads this
    {
      if index == 0 then buffer1 else buffer0
    }

    /** The two buffers are distinct and full-sized, and the grid fits in
        one. */
    predicate Shape()
      reads this
    {
      && buffer0 != buffer1
      && buffer0.Length == MaxUniverseSize && buffer1.Length == MaxUniverseSize
      && index < 2
      && width * height <= MaxUniverseSize
    }

    /** The shape holds and the cells past the grid are dead in both
        buffers. */
    ghost predicate Valid()
      reads this, buffer0, buffer1
    {
      && Shape()
      && (forall i :: width * height <= i < MaxUniverseSize ==> buffer0[i] == Dead)
      && (forall i :: width * height <= i < MaxUniverseSize ==> buffer1[i] == Dead)
    }

    /** `cells()`: the contents of the current buffer. */
    function Cells(): (r: seq<Cell>)
      reads this, buffer0, buffer1
      requires Valid()
      ensures |r| == MaxUniverseSize
      ensures forall i :: width * height <= i < |r| ==> r[i] == Dead
    {
      Current()[..]
    }

    /** `new`: both buffers start dead, then the cells of the grid whose
        index is divisible by 2 or 7 come alive in buffer 0. */
    constructor(width: U32, height: U32)
      requires width * height <= MaxUniverseSize
      ensures Valid() && fresh(buffer0) && fresh(buffer1)
      ensures this.width == width && this.height == height && index == 0
      ensures Cells() == InitialCells(width, height)
      ensures forall i :: 0 <= i < MaxUniverseSize ==> buffer1[i] == Dead
    {
      this.width, this.height, index := width, height, 0;
      var b0 := new Cell[MaxUniverseSize](_ => Dead);
      var b1 := new Cell[MaxUniverseSize](_ => Dead);
      for i := 0 to width * height
        modifies b0
        invariant forall k :: 0 <= k < MaxUniverseSize ==>
                    b0[k] == if k < i && (k % 2 == 0 || k % 7 == 0) then Alive else Dead
      {
        b0[i] := if i % 2 == 0 || i % 7 == 0 then Alive else Dead;
      }
      assert forall k :: width * height <= k < MaxUniverseSize ==> b0[k] == Dead;
      buffer0, buffer1 := b0, b1;
    }

    /** `live_neighbor_count`, with its two loops over the offsets. */
    method LiveNeighborCount(row: nat, column: nat) returns (count: nat)
      requires Shape() && row < height && column < width
      ensures count == LiveNeighbors(Current()[..], width, height, row, column)
      ensures count <= 8
    {
      var buffer := Current();
      ghost var cells := buffer[..];
      count := 0;
      var deltaRows := [height - 1, 0, 1];
      var deltaColumns := [width - 1, 0, 1];
      for j := 0 to 3
        invariant count == NeighborSum(cells, width, height, row, column, j)
      {
        var deltaRow := deltaRows[j];
        var rowCount: nat := 0;
        for k := 0 to 3
          invariant rowCount == RowSum(cells, width, height, row, column, deltaRow, k)
        {
          var deltaColumn := deltaColumns[k];
          if !(deltaRow == 0 && deltaColumn == 0) {
            var idx := NeighborIndex(width, height, row, column, deltaRow, deltaColumn);
            rowCount := rowCount + Weight(buffer[idx]);
          }
        }
        count := count + rowCount;
      }
    }

    /** One pass of the inner loop of `tick`: the cells of row `row` get
        their next state in `target`, and nothing else changes. */
    method TickRow(row: nat, target: array<Cell>, ghost cells: seq<Cell>)
      requires Shape() && row < height && target == Other() && Current()[..] == cells
      modifies target
      ensures forall i :: 0 <= i < MaxUniverseSize ==>
                target[i] == if row * width <= i < row * width + width then NextGeneration(cells, width, height)[i]
                             else old(target[i])
    {
      var source := Current();
      for column := 0 to width
        invariant source[..] == cells
        invariant forall i :: 0 <= i < MaxUniverseSize ==>
                    target[i] == if row * width <= i < row * width + column then NextGeneration(cells, width, height)[i]
                                 else old(target[i])
      {
        GetIndexInRange(width, height, row, column);
        var idx := GetIndex(width, row, column);
        var cell := source[idx];
        var liveNeighbors := LiveNeighborCount(row, column);
        GetIndexInverse(width, row, column);
        target[idx] := NextCell(cell, liveNeighbors);
      }
    }

    /** `tick`: every cell of the grid gets its next state in the other
        buffer, read only from the current one; then `index` flips. The
        previous generation stays in the buffer that is now the other one. */
    method Tick()
      requires Valid()
      modifies this, buffer0, buffer1
      ensures Valid()
      ensures index == 1 - old(index)
      ensures Cells() == NextGeneration(old(Cells()), width, height)
      ensures Other()[..] == old(Cells())
    {
      ghost var cells := Cells();
      var next := (index + 1) % 2;
      var target := Other();
      for row := 0 to height
        invariant Shape() && index == old(index) && Current()[..] == cells
        invariant forall i :: 0 <= i < MaxUniverseSize ==>
                    target[i] == if i < row * width then NextGeneration(cells, width, height)[i] else old(target[i])
      {
        TickRow(row, target, cells);
        assert row * width + width == (row + 1) * width;
      }
      MulLeq(height, height, width);
      ghost var generation := NextGeneration(cells, width, height);
      assert forall i :: 0 <= i < MaxUniverseSize ==> target[i] == generation[i];
      assert target[..] == generation;
      index := next;
    }
  }
}
