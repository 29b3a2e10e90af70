/** Block, halo and boundary-plane geometry on the segmentation grid.

    The volume of extent `img` is tiled by blocks of extent `cell`; the block
    whose minimum corner is `pos` covers `[pos, ClampedMax]` along every axis,
    clamped (not padded) at the volume's upper end. Each block is segmented
    over a halo-extended interval, and for every axis `d` two planes of its
    labels are stored at its grid cell: the "upper" plane one past its clamped
    maximum (read from the halo, zero-filled when the halo does not reach it)
    and the "lower" plane at its own first slice. */
module BlockGeometry {

  function Min(a: int, b: int): int { if a <= b then a else b }

  function Max(a: int, b: int): int { if a >= b then a else b }

  /** `Math.min(min + cell, img) - 1`: the last voxel of a block along one axis. */
  function ClampedMax(min: int, cell: int, img: int): (r: int)
    ensures r <= img - 1 && r <= min + cell - 1
    ensures r == img - 1 || r == min + cell - 1
    ensures 0 <= min < img && cell > 0 ==> min <= r
  {
    Min(min + cell, img) - 1
  }

  /** Java's `long` division for a positive divisor: truncates toward zero. */
  function CellIndex(x: int, cell: int): (r: int)
    requires cell > 0
    ensures x >= 0 ==> 0 <= r && r * cell <= x < (r + 1) * cell
    ensures x < 0 ==> (r - 1) * cell < x <= r * cell
  {
    if x >= 0 then DivBracket(x, cell); x / cell
    else DivBracket(-x, cell); -((-x) / cell)
  }

  /** Euclidean division of a non-negative number by a positive one brackets it. */
  lemma DivBracket(x: int, cell: int)
    requires x >= 0 && cell > 0
    ensures 0 <= x / cell
    ensures (x / cell) * cell <= x < (x / cell + 1) * cell
    ensures (x / cell + 1) * cell == (x / cell) * cell + cell
    ensures (x / cell - 1) * cell == (x / cell) * cell - cell
  {
    var q := x / cell;
    assert q * cell + x % cell == x;
  }

  /** Number of cells along one axis: enough to cover the extent, the last one
      possibly partial. */
  function GridDimension(img: int, cell: int): (r: int)
    requires img > 0 && cell > 0
    ensures (r - 1) * cell < img <= r * cell
  {
    (img - 1) / cell + 1
  }

  datatype Interval = Interval(lo: int, hi: int)

  /** The interval a block is segmented over along one axis (`ToInterval`):
      `context` voxels on each side, clamped to the volume. It holds the whole
      block, stays inside the volume and adds at most `context` on each side. */
  function Halo(loc: int, cell: int, context: int, img: int): (r: Interval)
    ensures context >= 0 && 0 <= loc < img && cell > 0 ==>
              && 0 <= r.lo <= loc
              && ClampedMax(loc, cell, img) <= r.hi <= img - 1
              && loc - r.lo <= context
              && r.hi - ClampedMax(loc, cell, img) <= context
  {
    Interval(Max(loc - context, 0), Min(loc + cell + context, img) - 1)
  }

  lemma MulMonotone(a: int, b: int, c: int)
    requires a <= b && c >= 0
    ensures a * c <= b * c
  {
  }

  lemma MulCancel(a: int, b: int, c: int)
    requires c > 0 && a * c < b * c
    ensures a < b
  {
    if a >= b { MulMonotone(b, a, c); }
  }

  lemma DivUnique(x: int, cell: int, k: int)
    requires cell > 0 && 0 <= x && k * cell <= x < k * cell + cell
    ensures x / cell == k
  {
    var q := x / cell;
    assert q * cell + x % cell == x;
    assert q * cell < (k + 1) * cell;
    assert k * cell < (q + 1) * cell;
    MulCancel(q, k + 1, cell);
    MulCancel(k, q + 1, cell);
  }

  /** Every voxel along an axis lies in exactly one grid-aligned block: the one
      at `CellIndex(x, cell) * cell`. */
  lemma BlocksTileAxis(x: int, cell: int, img: int, k: int)
    requires cell > 0 && 0 <= x < img
    requires k * cell <= x <= ClampedMax(k * cell, cell, img)
    ensures k == CellIndex(x, cell)
  {
    DivUnique(x, cell, k);
  }

  lemma BlockOfVoxel(x: int, cell: int, img: int)
    requires cell > 0 && 0 <= x < img
    ensures var k := CellIndex(x, cell); 0 <= k * cell <= x <= ClampedMax(k * cell, cell, img)
  {
    var k := CellIndex(x, cell);
    var m := k * cell;
    assert (k + 1) * cell == m + cell;
    MulMonotone(0, k, cell);
    assert 0 <= m <= x < m + cell;
    assert x <= Min(m + cell, img) - 1;
  }

  /** A block has an upper neighbour along an axis exactly when it does not
      reach the end of the volume. */
  lemma UpperNeighbourIff(k: int, cell: int, img: int)
    requires cell > 0 && img > 0 && 0 <= k * cell < img
    ensures k + 1 < GridDimension(img, cell) <==> k * cell + cell < img
  {
    var g := GridDimension(img, cell);
    assert (k + 1) * cell == k * cell + cell;
    if k + 1 < g {
      MulMonotone(k + 1, g - 1, cell);
    } else {
      MulMonotone(g, k + 1, cell);
    }
  }

  /** The segmentation grid: volume extent and block extent per axis. */
  datatype Grid = Grid(img: seq<int>, cell: seq<int>) {
    predicate Valid() {
      |img| == |cell| && forall k :: 0 <= k < |img| ==> img[k] > 0 && cell[k] > 0
    }
    function Dims(): nat { |img| }
  }

  /** A grid-aligned block corner inside the volume. */
  predicate OnGrid(g: Grid, pos: seq<int>) {
    && g.Valid() && |pos| == g.Dims()
    && forall k :: 0 <= k < |pos| ==> 0 <= pos[k] < g.img[k] && pos[k] % g.cell[k] == 0
  }

  datatype Box = Box(min: seq<int>, max: seq<int>)

  predicate Inside(inner: Box, outer: Box) {
    && |inner.min| == |inner.max| == |outer.min| == |outer.max|
    && forall k :: 0 <= k < |inner.min| ==> outer.min[k] <= inner.min[k] && inner.max[k] <= outer.max[k]
  }

  /** The block itself: from its corner to its clamped maximum. */
  function BlockBox(g: Grid, pos: seq<int>): (r: Box)
    requires g.Valid() && |pos| == g.Dims()
    ensures |r.min| == |r.max| == |pos|
    ensures OnGrid(g, pos) ==> forall k :: 0 <= k < |pos| ==>
              && 0 <= r.min[k] <= r.max[k] < g.img[k]
              && r.max[k] - r.min[k] < g.cell[k]
              && (r.max[k] == g.img[k] - 1 || r.max[k] == r.min[k] + g.cell[k] - 1)
  {
    Box(pos, seq(|pos|, k requires 0 <= k < |pos| => ClampedMax(pos[k], g.cell[k], g.img[k])))
  }

  /** The halo-extended interval the block is segmented over. */
  function HaloBox(g: Grid, context: seq<int>, pos: seq<int>): (r: Box)
    requires g.Valid() && |pos| == g.Dims() && |context| >= |pos|
    ensures |r.min| == |r.max| == |pos|
    ensures (forall k :: 0 <= k < |pos| ==> context[k] >= 0) && OnGrid(g, pos) ==> Inside(BlockBox(g, pos), r)
  {
    Box(seq(|pos|, k requires 0 <= k < |pos| => Halo(pos[k], g.cell[k], context[k], g.img[k]).lo),
        seq(|pos|, k requires 0 <= k < |pos| => Halo(pos[k], g.cell[k], context[k], g.img[k]).hi))
  }

  /** The plane one past the block's clamped maximum along `d`, spanning the
      block in every other axis. */
  function UpperPlane(g: Grid, pos: seq<int>, d: nat): (r: Box)
    requires g.Valid() && |pos| == g.Dims() && d < |pos|
    ensures |r.min| == |r.max| == |pos|
    ensures r.min[d] == r.max[d] == Min(pos[d] + g.cell[d], g.img[d])
    ensures forall k :: 0 <= k < |pos| && k != d ==>
              r.min[k] == BlockBox(g, pos).min[k] && r.max[k] == BlockBox(g, pos).max[k]
  {
    var b := BlockBox(g, pos);
    var top := b.max[d] + 1;
    Box(pos[d := top], b.max[d := top])
  }

  /** The block's own first plane along `d`. */
  function LowerPlane(g: Grid, pos: seq<int>, d: nat): (r: Box)
    requires g.Valid() && |pos| == g.Dims() && d < |pos|
    ensures |r.min| == |r.max| == |pos|
    ensures r.min[d] == r.max[d] == pos[d]
    ensures forall k :: 0 <= k < |pos| && k != d ==>
              r.min[k] == BlockBox(g, pos).min[k] && r.max[k] == BlockBox(g, pos).max[k]
  {
    var b := BlockBox(g, pos);
    Box(pos, b.max[d := pos[d]])
  }

  /** The upper plane is a constant zero plane when it lies beyond the
      segmented (halo) interval. */
  predicate UpperZeroFilled(g: Grid, context: seq<int>, pos: seq<int>, d: nat)
    requires g.Valid() && |pos| == g.Dims() && d < |pos| && |context| >= |pos|
  {
    UpperPlane(g, pos, d).max[d] > HaloBox(g, context, pos).max[d]
  }

  /** The upper plane is zero-filled exactly when the block reaches the end of
      the volume or the halo along `d` is empty. */
  lemma UpperZeroFilledIff(g: Grid, context: seq<int>, pos: seq<int>, d: nat)
    requires OnGrid(g, pos) && d < |pos| && |context| >= |pos| && context[d] >= 0
    ensures UpperZeroFilled(g, context, pos, d) <==> pos[d] + g.cell[d] >= g.img[d] || context[d] == 0
  {
  }

  /** Both planes are read inside the segmented interval: the lower one
      always, the upper one whenever it is not zero-filled. */
  lemma PlanesInsideHalo(g: Grid, context: seq<int>, pos: seq<int>, d: nat)
    requires OnGrid(g, pos) && d < |pos| && |context| >= |pos|
    requires forall k :: 0 <= k < |pos| ==> context[k] >= 0
    ensures Inside(LowerPlane(g, pos, d), HaloBox(g, context, pos))
    ensures !UpperZeroFilled(g, context, pos, d) ==> Inside(UpperPlane(g, pos, d), HaloBox(g, context, pos))
  {
    var h := HaloBox(g, context, pos);
    assert Inside(BlockBox(g, pos), h);
  }

  /** The grid cell a block's planes are stored at (`getCellPosition`). */
  function CellPosition(g: Grid, pos: seq<int>): (r: seq<int>)
    requires g.Valid() && |pos| == g.Dims()
    ensures |r| == |pos|
    ensures forall k :: 0 <= k < |pos| && pos[k] >= 0 ==> r[k] * g.cell[k] <= pos[k] < (r[k] + 1) * g.cell[k]
  {
    seq(|pos|, k requires 0 <= k < |pos| => CellIndex(pos[k], g.cell[k]))
  }

  /** The merger's neighbour test (`upperCellPos[d] < gridDimension(d)`). */
  predicate HasUpperNeighbour(g: Grid, cellPos: seq<int>, d: nat)
    requires g.Valid() && |cellPos| == g.Dims() && d < |cellPos|
  {
    cellPos[d] + 1 < GridDimension(g.img[d], g.cell[d])
  }

  lemma CellIndexOfMultiple(m: int, cell: int)
    requires cell > 0 && m >= 0
    ensures CellIndex(m * cell, cell) == m
  {
    BlocksTileAxis(m * cell, cell, m * cell + 1, m);
  }

  /** The upper plane of a block and the lower plane of its neighbour along
      `d` are the same voxels, and the neighbour is stored one grid cell up:
      so the merger compares matching planes position by position. */
  lemma NeighbourPlanesCoincide(g: Grid, pos: seq<int>, d: nat)
    requires OnGrid(g, pos) && d < |pos|
    requires HasUpperNeighbour(g, CellPosition(g, pos), d)
    ensures var next := pos[d := pos[d] + g.cell[d]];
            && OnGrid(g, next)
            && UpperPlane(g, pos, d) == LowerPlane(g, next, d)
            && CellPosition(g, next) == CellPosition(g, pos)[d := CellPosition(g, pos)[d] + 1]
  {
    var c := g.cell[d];
    var m := pos[d] / c;
    assert pos[d] == m * c;
    CellIndexOfMultiple(m, c);
    UpperNeighbourIff(m, c, g.img[d]);
    NextOnGrid(g, pos, d);
    NextPlanes(g, pos, d);
    NextCellPosition(g, pos, d);
  }

  /** The block one cell further along `d`, when it starts inside the volume,
      is a grid-aligned block. */
  lemma NextOnGrid(g: Grid, pos: seq<int>, d: nat)
    requires OnGrid(g, pos) && d < |pos| && pos[d] + g.cell[d] < g.img[d]
    ensures OnGrid(g, pos[d := pos[d] + g.cell[d]])
  {
    AlignedShift(pos[d], g.cell[d]);
  }

  /** One cell further than a multiple of the cell size is again a multiple. */
  lemma AlignedShift(p: int, cell: int)
    requires cell > 0 && p >= 0 && p % cell == 0
    ensures (p + cell) % cell == 0
  {
    var m := p / cell;
    assert p == m * cell + p % cell;
    assert (m + 1) * cell == m * cell + cell;
    DivUnique(p + cell, cell, m + 1);
    assert p + cell == ((p + cell) / cell) * cell + (p + cell) % cell;
  }

  /** The plane past a block's end along `d` is the first plane of the block
      one cell further, when the block does not reach the volume's end. */
  lemma NextPlanes(g: Grid, pos: seq<int>, d: nat)
    requires g.Valid() && |pos| == g.Dims() && d < |pos| && pos[d] + g.cell[d] < g.img[d]
    ensures UpperPlane(g, pos, d) == LowerPlane(g, pos[d := pos[d] + g.cell[d]], d)
  {
    var next := pos[d := pos[d] + g.cell[d]];
    assert UpperPlane(g, pos, d).min == LowerPlane(g, next, d).min;
    assert UpperPlane(g, pos, d).max == LowerPlane(g, next, d).max;
  }

  /** The block one cell further along `d` is stored one grid cell up. */
  lemma NextCellPosition(g: Grid, pos: seq<int>, d: nat)
    requires OnGrid(g, pos) && d < |pos|
    ensures CellPosition(g, pos[d := pos[d] + g.cell[d]])
            == CellPosition(g, pos)[d := CellPosition(g, pos)[d] + 1]
  {
    var c := g.cell[d];
    var m := pos[d] / c;
    var next := pos[d := pos[d] + c];
    var before, after := CellPosition(g, pos), CellPosition(g, next);
    assert after[d] == before[d] + 1 by {
      assert pos[d] == m * c;
      assert pos[d] + c == (m + 1) * c;
      CellIndexOfMultiple(m, c);
      CellIndexOfMultiple(m + 1, c);
    }
    forall k | 0 <= k < |pos| && k != d ensures after[k] == before[k] {
      assert next[k] == pos[k];
    }
  }

  /** `WriteN5`: the output block position of an interval, from its minimum
      corner, over the first three axes. */
  function WriteOffset(mins: seq<int>, cellSize: seq<int>): (r: seq<int>)
    requires |mins| >= 3 && |cellSize| >= 3
    requires forall k :: 0 <= k < 3 ==> cellSize[k] > 0
    ensures |r| == 3
  {
    seq(3, k requires 0 <= k < 3 => CellIndex(mins[k], cellSize[k]))
  }

  /** A block written with the grid's own cell size lands at its own grid cell. */
  lemma WriteOffsetIsCellPosition(g: Grid, pos: seq<int>)
    requires OnGrid(g, pos) && |pos| == 3
    ensures WriteOffset(BlockBox(g, pos).min, g.cell) == CellPosition(g, pos)
    ensures forall k :: 0 <= k < 3 ==> WriteOffset(BlockBox(g, pos).min, g.cell)[k] * g.cell[k] == pos[k]
  {
    forall k | 0 <= k < 3
      ensures CellIndex(pos[k], g.cell[k]) * g.cell[k] == pos[k]
    {
      AlignedCellIndex(pos[k], g.cell[k]);
    }
  }

  /** A grid-aligned coordinate is its cell index times the cell size. */
  lemma AlignedCellIndex(p: int, cell: int)
    requires cell > 0 && p >= 0 && p % cell == 0
    ensures CellIndex(p, cell) * cell == p
  {
    var m := p / cell;
    assert p == m * cell;
    CellIndexOfMultiple(m, cell);
  }
}
