/** Integer geometry of one building: the drawn shape and which grid cells of an
    intermediate layer receive a block. */
module Layout {

  /** Layers with an index below this have the door gap carved into their walls. */
  const DoorLayers: int := 5

  /** `v | 1` for a non-negative `v`: sets the least significant bit, so an even value
      moves up to the next odd value and an odd value is left as it is. */
  function OrOne(v: int): (r: int)
    requires v >= 0
    ensures r % 2 == 1
    ensures r == v || r == v + 1
  {
    if v % 2 == 0 then v + 1 else v
  }

  /** `OrOne` agrees with the bitwise or on every value a byte can hold, which covers
      every draw the generator makes. */
  lemma OrOneIsBitwiseOr(b: bv8)
    ensures OrOne(b as int) == (b | 1) as int
  {
  }

  /** A raw draw from `NextInt(5, 21)` becomes an odd size between 5 and 21. */
  lemma OrOneInRange(v: int)
    requires 5 <= v < 21
    ensures OrOne(v) % 2 == 1 && 5 <= OrOne(v) <= 21
  {
  }

  /** Number of layers, width and depth of a building. */
  datatype Shape = Shape(numLayers: int, width: int, depth: int)

  predicate ValidShape(s: Shape) {
    && 5 <= s.numLayers <= 10
    && 5 <= s.width <= 21 && s.width % 2 == 1
    && 5 <= s.depth <= 21 && s.depth % 2 == 1
  }

  /** The shape made from the draws `NextInt(5, 11)`, `NextInt(5, 21)` and
      `NextInt(5, 21)` (all half-open ranges). */
  function ShapeOf(rawLayers: int, rawWidth: int, rawDepth: int): (s: Shape)
    requires 5 <= rawLayers < 11
    requires 5 <= rawWidth < 21 && 5 <= rawDepth < 21
    ensures ValidShape(s)
    ensures s.numLayers == rawLayers
    ensures s.width - rawWidth in {0, 1} && s.depth - rawDepth in {0, 1}
  {
    Shape(rawLayers, OrOne(rawWidth), OrOne(rawDepth))
  }

  /** The floor and the ceiling are two different layers. */
  lemma FloorAndCeilingDistinct(s: Shape)
    requires ValidShape(s)
    ensures 0 != s.numLayers - 1
  {
  }

  /** Centre column (and row) of a grid of the given size. */
  function Origin(size: int): int {
    (size - 1) / 2
  }

  /** Integer absolute value, for cell offsets; `Vectors.Abs` is its real counterpart
      (`Generator.AbsOfInt` relates the two). */
  function IntAbs(i: int): int {
    if i < 0 then -i else i
  }

  /** A cell of a layer's `width × depth` grid. */
  datatype Cell = Cell(x: int, z: int)

  predicate InGrid(w: int, d: int, c: Cell) {
    0 <= c.x < w && 0 <= c.z < d
  }

  /** A cell strictly inside the ring: neither on the first/last column nor on the
      first/last row. */
  predicate Interior(w: int, d: int, c: Cell) {
    (c.x != 0 && c.x != w - 1) && (c.z != 0 && c.z != d - 1)
  }

  /** A cell in one of the three door columns of a low layer. */
  predicate InDoorGap(w: int, layer: int, c: Cell) {
    IntAbs(c.x - Origin(w)) <= 1 && layer < DoorLayers
  }

  /** A visited cell survives both skip tests of the wall loop. */
  predicate Kept(w: int, d: int, layer: int, c: Cell) {
    !Interior(w, d, c) && !InDoorGap(w, layer, c)
  }

  /** The kept cells of column `x` with `z < zEnd`, in increasing `z`. */
  function ColumnCells(w: int, d: int, layer: int, x: int, zEnd: nat): seq<Cell>
    decreases zEnd
  {
    if zEnd == 0 then []
    else
      var c := Cell(x, zEnd - 1);
      ColumnCells(w, d, layer, x, zEnd - 1) + (if Kept(w, d, layer, c) then [c] else [])
  }

  /** The kept cells of columns `x < xEnd`, column by column, in the order the nested
      `x`/`z` loops visit them. */
  function GridCells(w: int, d: nat, layer: int, xEnd: nat): seq<Cell>
    decreases xEnd
  {
    if xEnd == 0 then []
    else GridCells(w, d, layer, xEnd - 1) + ColumnCells(w, d, layer, xEnd - 1, d)
  }

  /** The cells of an intermediate layer that receive a block, in emission order. */
  function LayerCells(w: nat, d: nat, layer: int): seq<Cell> {
    GridCells(w, d, layer, w)
  }

  /** Perimeter of the grid, stated positively. */
  predicate OnPerimeter(w: int, d: int, c: Cell) {
    c.x == 0 || c.x == w - 1 || c.z == 0 || c.z == d - 1
  }

  lemma {:induction false} ColumnCellsMembership(w: int, d: int, layer: int, x: int, zEnd: nat, c: Cell)
    ensures c in ColumnCells(w, d, layer, x, zEnd) <==> c.x == x && 0 <= c.z < zEnd && Kept(w, d, layer, c)
    decreases zEnd
  {
    if zEnd > 0 {
      var last := Cell(x, zEnd - 1);
      var tail := if Kept(w, d, layer, last) then [last] else [];
      ColumnCellsMembership(w, d, layer, x, zEnd - 1, c);
      assert ColumnCells(w, d, layer, x, zEnd) == ColumnCells(w, d, layer, x, zEnd - 1) + tail;
      assert c in ColumnCells(w, d, layer, x, zEnd) <==> c in ColumnCells(w, d, layer, x, zEnd - 1) || c in tail;
    }
  }

  lemma {:induction false} GridCellsMembership(w: int, d: nat, layer: int, xEnd: nat, c: Cell)
    ensures c in GridCells(w, d, layer, xEnd) <==> 0 <= c.x < xEnd && 0 <= c.z < d && Kept(w, d, layer, c)
    decreases xEnd
  {
    if xEnd > 0 {
      var k: nat := xEnd - 1;
      var before := GridCells(w, d, layer, k);
      var column := ColumnCells(w, d, layer, k, d);
      GridCellsMembership(w, d, layer, k, c);
      ColumnCellsMembership(w, d, layer, k, d, c);
      LastColumnMembership(w, d, layer, k, c);
      JoinColumns(c in GridCells(w, d, layer, xEnd), c in before, c in column, c.x, xEnd, 0 <= c.z < d && Kept(w, d, layer, c));
    }
  }

  lemma LastColumnMembership(w: int, d: nat, layer: int, k: nat, c: Cell)
    ensures c in GridCells(w, d, layer, k + 1)
            <==> c in GridCells(w, d, layer, k) || c in ColumnCells(w, d, layer, k, d)
  {
    assert GridCells(w, d, layer, k + 1) == GridCells(w, d, layer, k) + ColumnCells(w, d, layer, k, d);
  }

  /** Membership in the first `xEnd` columns, from membership in the first `xEnd - 1`
      columns and in column `xEnd - 1`. Stated over plain booleans so that the
      propositional step is proved apart from the sequence terms it abstracts. */
  lemma JoinColumns(inAll: bool, inBefore: bool, inColumn: bool, x: int, xEnd: int, rest: bool)
    requires xEnd >= 1
    requires inAll <==> inBefore || inColumn
    requires inBefore <==> 0 <= x < xEnd - 1 && rest
    requires inColumn <==> x == xEnd - 1 && rest
    ensures inAll <==> 0 <= x < xEnd && rest
  {
  }

  /** Exactly the perimeter cells of the grid are emitted, except the three door
      columns around the centre on layers below index 5; no interior cell is emitted. */
  lemma LayerCellsExactly(w: nat, d: nat, layer: int, c: Cell)
    ensures c in LayerCells(w, d, layer) <==>
              InGrid(w, d, c) && OnPerimeter(w, d, c) && !(layer < DoorLayers && IntAbs(c.x - Origin(w)) <= 1)
  {
    GridCellsMembership(w, d, layer, w, c);
  }

  /** From layer 5 upward the whole perimeter is emitted. */
  lemma FullPerimeterAboveDoor(w: nat, d: nat, layer: int, c: Cell)
    requires layer >= DoorLayers
    ensures c in LayerCells(w, d, layer) <==> InGrid(w, d, c) && OnPerimeter(w, d, c)
  {
    LayerCellsExactly(w, d, layer, c);
  }

  /** Emission order: column-major, rows increasing within a column. */
  predicate Before(a: Cell, b: Cell) {
    a.x < b.x || (a.x == b.x && a.z < b.z)
  }

  predicate StrictlyOrdered(cs: seq<Cell>) {
    forall i, j :: 0 <= i < j < |cs| ==> Before(cs[i], cs[j])
  }

  lemma {:induction false} ColumnCellsOrdered(w: int, d: int, layer: int, x: int, zEnd: nat)
    ensures StrictlyOrdered(ColumnCells(w, d, layer, x, zEnd))
    decreases zEnd
  {
    if zEnd > 0 {
      var prefix := ColumnCells(w, d, layer, x, zEnd - 1);
      ColumnCellsOrdered(w, d, layer, x, zEnd - 1);
      forall i | 0 <= i < |prefix|
        ensures Before(prefix[i], Cell(x, zEnd - 1))
      {
        ColumnCellsMembership(w, d, layer, x, zEnd - 1, prefix[i]);
      }
    }
  }

  lemma {:induction false} GridCellsOrdered(w: int, d: nat, layer: int, xEnd: nat)
    ensures StrictlyOrdered(GridCells(w, d, layer, xEnd))
    decreases xEnd
  {
    if xEnd > 0 {
      var prefix := GridCells(w, d, layer, xEnd - 1);
      var column := ColumnCells(w, d, layer, xEnd - 1, d);
      GridCellsOrdered(w, d, layer, xEnd - 1);
      ColumnCellsOrdered(w, d, layer, xEnd - 1, d);
      forall i, j | 0 <= i < |prefix| && 0 <= j < |column|
        ensures Before(prefix[i], column[j])
      {
        GridCellsMembership(w, d, layer, xEnd - 1, prefix[i]);
        ColumnCellsMembership(w, d, layer, xEnd - 1, d, column[j]);
      }
    }
  }

  /** Every cell is emitted at most once: the emission order is strict. */
  lemma LayerCellsDistinct(w: nat, d: nat, layer: int)
    ensures StrictlyOrdered(LayerCells(w, d, layer))
    ensures forall i, j :: 0 <= i < j < |LayerCells(w, d, layer)| ==> LayerCells(w, d, layer)[i] != LayerCells(w, d, layer)[j]
  {
    GridCellsOrdered(w, d, layer, w);
  }

  function Min(a: int, b: int): int {
    if a < b then a else b
  }

  function Clamp(v: int, lo: int, hi: int): int {
    if v < lo then lo else if v > hi then hi else v
  }

  /** Number of blocks a layer emits: the `2*width + 2*depth - 4` cells of the ring,
      minus the door gap's three cells on each of the first and last rows below
      layer 5. */
  function RingCount(w: int, d: int, layer: int): int {
    2 * w + 2 * d - 4 - (if layer < DoorLayers then 6 else 0)
  }

  /** Door columns among the interior columns `1 .. m-1`. */
  function DoorColumnsBefore(w: int, layer: int, m: int): int {
    if layer >= DoorLayers then 0 else Clamp(m - (Origin(w) - 1), 0, 3)
  }

  /** Kept cells in the columns before `xEnd`: a full first column, two cells per
      interior column outside the door, and a full last column. */
  function KeptBefore(w: int, d: int, layer: int, xEnd: int): int {
    if xEnd <= 0 then 0
    else
      var m := Min(xEnd, w - 1);
      d + 2 * (m - 1) - 2 * DoorColumnsBefore(w, layer, m) + (if xEnd == w then d else 0)
  }

  lemma {:induction false} ColumnCount(w: int, d: int, layer: int, x: int, zEnd: nat)
    requires w >= 5 && d >= 2
    requires 0 <= x < w && zEnd <= d
    ensures |ColumnCells(w, d, layer, x, zEnd)| ==
              if InDoorGap(w, layer, Cell(x, 0)) then 0
              else if x == 0 || x == w - 1 then zEnd
              else (if zEnd >= 1 then 1 else 0) + (if zEnd == d then 1 else 0)
    decreases zEnd
  {
    if zEnd > 0 {
      ColumnCount(w, d, layer, x, zEnd - 1);
    }
  }

  lemma {:induction false} GridCount(w: int, d: nat, layer: int, xEnd: nat)
    requires w >= 5 && d >= 2
    requires xEnd <= w
    ensures |GridCells(w, d, layer, xEnd)| == KeptBefore(w, d, layer, xEnd)
    decreases xEnd
  {
    if xEnd > 0 {
      GridCount(w, d, layer, xEnd - 1);
      ColumnCount(w, d, layer, xEnd - 1, d);
    }
  }

  /** An intermediate layer emits `2*width + 2*depth - 4` blocks, six fewer on the
      layers with a door gap. */
  lemma LayerCellCount(w: nat, d: nat, layer: int)
    requires w >= 5 && d >= 2
    ensures |LayerCells(w, d, layer)| == RingCount(w, d, layer)
  {
    GridCount(w, d, layer, w);
  }

  /** One more step of the `z` loop appends the visited cell exactly when it is kept. */
  lemma ColumnCellsSucc(w: int, d: int, layer: int, x: int, z: nat)
    ensures ColumnCells(w, d, layer, x, z + 1)
            == ColumnCells(w, d, layer, x, z) + (if Kept(w, d, layer, Cell(x, z)) then [Cell(x, z)] else [])
  {
  }

  /** One more step of the `x` loop appends the kept cells of column `x`. */
  lemma GridCellsSucc(w: int, d: nat, layer: int, x: nat)
    ensures GridCells(w, d, layer, x + 1) == GridCells(w, d, layer, x) + ColumnCells(w, d, layer, x, d)
  {
  }

  lemma {:induction false} ColumnCellsGrow(w: int, d: int, layer: int, x: int, z1: nat, z2: nat)
    requires z1 <= z2
    ensures |ColumnCells(w, d, layer, x, z1)| <= |ColumnCells(w, d, layer, x, z2)|
    decreases z2
  {
    if z1 < z2 {
      ColumnCellsGrow(w, d, layer, x, z1, z2 - 1);
    }
  }

  lemma {:induction false} GridCellsGrow(w: int, d: nat, layer: int, x1: nat, x2: nat)
    requires x1 <= x2
    ensures |GridCells(w, d, layer, x1)| <= |GridCells(w, d, layer, x2)|
    decreases x2
  {
    if x1 < x2 {
      GridCellsGrow(w, d, layer, x1, x2 - 1);
    }
  }
}
