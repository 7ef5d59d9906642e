/** The one-shot layout generator: every block of every building, with its target,
    spawn position, scale and parent. Random draws are parameters. */
module Generator {
  import opened Vectors
  import opened Blocks
  import opened Layout

  const NumBuildings: int := 300

  /** Building positions are drawn with `NextInt(0, 800)` on X and on Z. */
  const AreaSize: int := 800

  const LayerHeight: real := 1.0

  /** The random draws one building consumes, in the order the generator makes them:
      the two position coordinates, the layer count, the raw width and depth, and one
      jitter value per emitted wall block. */
  datatype BuildingDraws = BuildingDraws(
    posX: int, posZ: int,
    rawLayers: int, rawWidth: int, rawDepth: int,
    jitter: seq<real>)

  /** `NextFloat(-0.5f, 0.5f)` is half-open. */
  predicate JitterInRange(j: real) {
    -0.5 <= j < 0.5
  }

  predicate ShapeDrawsInRange(dr: BuildingDraws) {
    && 0 <= dr.posX < AreaSize && 0 <= dr.posZ < AreaSize
    && 5 <= dr.rawLayers < 11
    && 5 <= dr.rawWidth < 21 && 5 <= dr.rawDepth < 21
  }

  /** Draws the random source can produce; it never runs out of jitter values. */
  predicate ValidDraws(dr: BuildingDraws) {
    && ShapeDrawsInRange(dr)
    && (forall k :: 0 <= k < |dr.jitter| ==> JitterInRange(dr.jitter[k]))
    && |dr.jitter| >= JitterNeeded(ShapeOf(dr.rawLayers, dr.rawWidth, dr.rawDepth))
  }

  /** Height above the target a block of the given layer starts from, before jitter. */
  function SpawnHeight(layer: int): real {
    LayerHeight * (10 + layer * 2) as real
  }

  /** The floor (layer 0) and the ceiling (last layer) are single scaled blocks. */
  predicate IsMegaLayer(s: Shape, layer: int) {
    layer == 0 || layer == s.numLayers - 1
  }

  /** The floor or ceiling block: centred, parented to the building, scaled to cover
      the whole footprint, without jitter. */
  function MegaBlock(s: Shape, layer: int): Block {
    var target := Vec3(0.0, layer as real * LayerHeight, 0.0);
    Block(BlockData(target, Zero, DefaultAcceleration),
          Add(target, Up(SpawnHeight(layer))),
          Vec3(s.width as real, 1.0, s.depth as real),
          BuildingParent)
  }

  /** Layer-local target of the wall block on a grid cell, centred on the origin. */
  function WallTarget(s: Shape, c: Cell): Vec3 {
    Vec3((c.x - Origin(s.width)) as real, 0.0, (c.z - Origin(s.depth)) as real)
  }

  function WallBlock(s: Shape, layer: int, c: Cell, j: real): Block {
    var target := WallTarget(s, c);
    Block(BlockData(target, Zero, DefaultAcceleration),
          Add(target, Up(SpawnHeight(layer) + j)),
          UnitScale,
          LayerParent(layer))
  }

  /** Wall blocks for the given cells, the i-th cell using the i-th jitter value. */
  function WallBlocksOf(s: Shape, layer: int, cells: seq<Cell>, js: seq<real>): seq<Block>
    requires |cells| == |js|
  {
    seq(|js|, i requires 0 <= i < |js| => WallBlock(s, layer, cells[i], js[i]))
  }

  /** Jitter values an entire layer consumes. */
  function LayerJitter(s: Shape, layer: int): nat
    requires ValidShape(s)
  {
    if IsMegaLayer(s, layer) then 0 else RingCount(s.width, s.depth, layer)
  }

  /** Jitter values consumed by the layers before `layer`. */
  function JitterOffset(s: Shape, layer: nat): nat
    requires ValidShape(s)
    decreases layer
  {
    if layer == 0 then 0 else JitterOffset(s, layer - 1) + LayerJitter(s, layer - 1)
  }

  function JitterNeeded(s: Shape): nat
    requires ValidShape(s)
  {
    JitterOffset(s, s.numLayers)
  }

  /** Blocks of one layer, given that layer's jitter values. */
  function LayerBlocks(s: Shape, layer: int, js: seq<real>): seq<Block>
    requires ValidShape(s)
    requires |js| == LayerJitter(s, layer)
  {
    if IsMegaLayer(s, layer) then [MegaBlock(s, layer)]
    else
      LayerCellCount(s.width, s.depth, layer);
      WallBlocksOf(s, layer, LayerCells(s.width, s.depth, layer), js)
  }

  /** Blocks of the layers before `layer`, in generation order. */
  function BlocksUpTo(s: Shape, layer: nat, jitter: seq<real>): seq<Block>
    requires ValidShape(s)
    requires |jitter| >= JitterOffset(s, layer)
    decreases layer
  {
    if layer == 0 then []
    else
      BlocksUpTo(s, layer - 1, jitter)
      + LayerBlocks(s, layer - 1, jitter[JitterOffset(s, layer - 1)..JitterOffset(s, layer)])
  }

  function BuildingBlocks(s: Shape, jitter: seq<real>): seq<Block>
    requires ValidShape(s)
    requires |jitter| >= JitterNeeded(s)
  {
    BlocksUpTo(s, s.numLayers, jitter)
  }

  datatype Building = Building(position: Vec3, shape: Shape, blocks: seq<Block>)

  /** One building from its draws. */
  function BuildingOf(dr: BuildingDraws): (b: Building)
    requires ValidDraws(dr)
    ensures ValidShape(b.shape)
    ensures 0.0 <= b.position.x < AreaSize as real && b.position.y == 0.0
    ensures 0.0 <= b.position.z < AreaSize as real
    ensures b.position.x == b.position.x.Floor as real && b.position.z == b.position.z.Floor as real
  {
    var s := ShapeOf(dr.rawLayers, dr.rawWidth, dr.rawDepth);
    Building(Vec3(dr.posX as real, 0.0, dr.posZ as real), s, BuildingBlocks(s, dr.jitter))
  }

  /** Every generated block starts at rest, under the default gravity, strictly above
      its target, so it falls down into place. */
  predicate FallsIntoPlace(b: Block) {
    && b.data.velocity == Zero
    && b.data.acceleration == DefaultAcceleration
    && b.position.y > b.data.target.y
  }

  /** The grid cell a layer-local wall target stands for. */
  function CellAt(s: Shape, t: Vec3): Cell {
    Cell(t.x.Floor + Origin(s.width), t.z.Floor + Origin(s.depth))
  }

  /** A wall block of an intermediate layer, on a cell the layer keeps, spawned
      straight above its target at the layer's spawn height plus a jitter value. */
  predicate WallPlaced(s: Shape, b: Block)
    requires ValidShape(s)
  {
    && b.parent.LayerParent?
    && 1 <= b.parent.layerIndex <= s.numLayers - 2
    && b.scale == UnitScale
    && CellAt(s, b.data.target) in LayerCells(s.width, s.depth, b.parent.layerIndex)
    && b.data.target == WallTarget(s, CellAt(s, b.data.target))
    && b.position.x == b.data.target.x && b.position.z == b.data.target.z
    && JitterInRange(b.position.y - b.data.target.y - SpawnHeight(b.parent.layerIndex))
  }

  predicate AllJitterInRange(jitter: seq<real>) {
    forall k :: 0 <= k < |jitter| ==> JitterInRange(jitter[k])
  }

  lemma {:induction false} JitterOffsetMonotone(s: Shape, a: nat, b: nat)
    requires ValidShape(s)
    requires a <= b
    ensures JitterOffset(s, a) <= JitterOffset(s, b)
    decreases b
  {
    if a < b {
      JitterOffsetMonotone(s, a, b - 1);
    }
  }

  lemma WallBlocksPlaced(s: Shape, layer: int, js: seq<real>)
    requires ValidShape(s)
    requires 1 <= layer <= s.numLayers - 2
    requires |js| == |LayerCells(s.width, s.depth, layer)|
    requires AllJitterInRange(js)
    ensures forall k :: 0 <= k < |js| ==>
              var b := WallBlocksOf(s, layer, LayerCells(s.width, s.depth, layer), js)[k];
              && FallsIntoPlace(b) && WallPlaced(s, b)
              && b.parent == LayerParent(layer)
              && CellAt(s, b.data.target) == LayerCells(s.width, s.depth, layer)[k]
              && b.position.y == b.data.target.y + SpawnHeight(layer) + js[k]
  {
    var cells := LayerCells(s.width, s.depth, layer);
    forall k | 0 <= k < |js|
      ensures FallsIntoPlace(WallBlocksOf(s, layer, cells, js)[k])
      ensures WallPlaced(s, WallBlocksOf(s, layer, cells, js)[k])
      ensures WallBlocksOf(s, layer, cells, js)[k].parent == LayerParent(layer)
      ensures CellAt(s, WallBlocksOf(s, layer, cells, js)[k].data.target) == cells[k]
      ensures WallBlocksOf(s, layer, cells, js)[k].position.y
              == WallBlocksOf(s, layer, cells, js)[k].data.target.y + SpawnHeight(layer) + js[k]
    {
      var b := WallBlocksOf(s, layer, cells, js)[k];
      assert CellAt(s, b.data.target) == cells[k];
    }
  }

  lemma {:induction false} BlocksUpToLength(s: Shape, layer: nat, jitter: seq<real>)
    requires ValidShape(s)
    requires layer <= s.numLayers
    requires |jitter| >= JitterOffset(s, layer)
    ensures |BlocksUpTo(s, layer, jitter)| ==
              JitterOffset(s, layer) + (if layer >= 1 then 1 else 0) + (if layer == s.numLayers then 1 else 0)
    decreases layer
  {
    if layer > 0 {
      BlocksUpToLength(s, layer - 1, jitter);
    }
  }

  lemma {:induction false} BlocksUpToFloor(s: Shape, layer: nat, jitter: seq<real>)
    requires ValidShape(s)
    requires 1 <= layer <= s.numLayers
    requires |jitter| >= JitterOffset(s, layer)
    ensures |BlocksUpTo(s, layer, jitter)| >= 1 && BlocksUpTo(s, layer, jitter)[0] == MegaBlock(s, 0)
    decreases layer
  {
    if layer > 1 {
      BlocksUpToFloor(s, layer - 1, jitter);
    }
  }

  lemma {:induction false} BlocksUpToFall(s: Shape, layer: nat, jitter: seq<real>)
    requires ValidShape(s)
    requires layer <= s.numLayers
    requires |jitter| >= JitterOffset(s, layer)
    requires AllJitterInRange(jitter)
    ensures AllFall(BlocksUpTo(s, layer, jitter))
    decreases layer
  {
    if layer > 0 {
      var L: nat := layer - 1;
      BlocksUpToFall(s, L, jitter);
      LayerFalls(s, L, jitter);
      BlocksUpToSucc(s, L, jitter);
      AllFallAppend(BlocksUpTo(s, L, jitter), LayerBlocks(s, L, jitter[JitterOffset(s, L)..JitterOffset(s, L + 1)]));
    }
  }

  /** The blocks up to layer `layer + 1` extend those up to `layer` by that layer's blocks. */
  lemma BlocksUpToSucc(s: Shape, layer: nat, jitter: seq<real>)
    requires ValidShape(s)
    requires |jitter| >= JitterOffset(s, layer + 1)
    ensures BlocksUpTo(s, layer + 1, jitter)
            == BlocksUpTo(s, layer, jitter)
               + LayerBlocks(s, layer, jitter[JitterOffset(s, layer)..JitterOffset(s, layer + 1)])
  {
  }

  /** Every block of `bs` starts motionless above its target. */
  predicate AllFall(bs: seq<Block>) {
    forall k :: 0 <= k < |bs| ==> FallsIntoPlace(bs[k])
  }

  lemma AllFallAppend(a: seq<Block>, b: seq<Block>)
    requires AllFall(a) && AllFall(b)
    ensures AllFall(a + b)
  {
    forall k | 0 <= k < |a + b|
      ensures FallsIntoPlace((a + b)[k])
    {
      if k < |a| {
        assert (a + b)[k] == a[k];
      } else {
        assert (a + b)[k] == b[k - |a|];
      }
    }
  }

  /** Every block of one layer, floor, ceiling or wall, falls into place. */
  lemma LayerFalls(s: Shape, layer: nat, jitter: seq<real>)
    requires ValidShape(s)
    requires layer < s.numLayers
    requires |jitter| >= JitterOffset(s, layer + 1)
    requires AllJitterInRange(jitter)
    ensures AllFall(LayerBlocks(s, layer, jitter[JitterOffset(s, layer)..JitterOffset(s, layer + 1)]))
  {
    if !IsMegaLayer(s, layer) {
      var js := jitter[JitterOffset(s, layer)..JitterOffset(s, layer + 1)];
      LayerCellCount(s.width, s.depth, layer);
      assert AllJitterInRange(js);
      WallBlocksPlaced(s, layer, js);
    }
  }

  /** An intermediate layer appends the wall blocks of its cells, one jitter value each. */
  lemma WallLayerStep(s: Shape, layer: nat, jitter: seq<real>)
    requires ValidShape(s)
    requires 1 <= layer <= s.numLayers - 2
    requires |jitter| >= JitterOffset(s, layer + 1)
    ensures JitterOffset(s, layer + 1) - JitterOffset(s, layer) == |LayerCells(s.width, s.depth, layer)|
    ensures BlocksUpTo(s, layer + 1, jitter)
            == BlocksUpTo(s, layer, jitter)
               + WallBlocksOf(s, layer, LayerCells(s.width, s.depth, layer),
                              jitter[JitterOffset(s, layer)..JitterOffset(s, layer + 1)])
  {
    LayerCellCount(s.width, s.depth, layer);
    assert !IsMegaLayer(s, layer);
  }

  /** Before the ceiling is appended, every block after the floor is a wall block. */
  lemma {:induction false} BlocksUpToWalls(s: Shape, layer: nat, jitter: seq<real>)
    requires ValidShape(s)
    requires layer < s.numLayers
    requires |jitter| >= JitterOffset(s, layer)
    requires AllJitterInRange(jitter)
    ensures forall k :: 1 <= k < |BlocksUpTo(s, layer, jitter)| ==> WallPlaced(s, BlocksUpTo(s, layer, jitter)[k])
    decreases layer
  {
    if layer > 1 {
      var L := layer - 1;
      BlocksUpToWalls(s, L, jitter);
      var prev := BlocksUpTo(s, L, jitter);
      var js := jitter[JitterOffset(s, L)..JitterOffset(s, layer)];
      WallLayerStep(s, L, jitter);
      WallSectionPlaced(s, L, prev, js);
    }
  }

  /** Appending an intermediate layer's wall blocks to placed blocks keeps every block
      from index 1 on placed. */
  lemma WallSectionPlaced(s: Shape, layer: int, prev: seq<Block>, js: seq<real>)
    requires ValidShape(s)
    requires 1 <= layer <= s.numLayers - 2
    requires |js| == |LayerCells(s.width, s.depth, layer)|
    requires AllJitterInRange(js)
    requires forall k :: 1 <= k < |prev| ==> WallPlaced(s, prev[k])
    ensures forall k :: 1 <= k < |prev| + |js| ==>
              WallPlaced(s, (prev + WallBlocksOf(s, layer, LayerCells(s.width, s.depth, layer), js))[k])
  {
    var wall := WallBlocksOf(s, layer, LayerCells(s.width, s.depth, layer), js);
    WallBlocksPlaced(s, layer, js);
    forall k | 1 <= k < |prev| + |js|
      ensures WallPlaced(s, (prev + wall)[k])
    {
      if k >= |prev| {
        assert (prev + wall)[k] == wall[k - |prev|];
      } else {
        assert (prev + wall)[k] == prev[k];
      }
    }
  }

  /** The floor and ceiling block of a layer: centred on the building at the layer's
      height, starting `10 + 2*layer` above it, covering the whole footprint and
      parented directly to the building. */
  predicate MegaPlaced(s: Shape, layer: int, b: Block) {
    && b.data.target == Vec3(0.0, layer as real, 0.0)
    && b.position == Vec3(0.0, layer as real + (10 + 2 * layer) as real, 0.0)
    && b.scale == Vec3(s.width as real, 1.0, s.depth as real)
    && b.parent == BuildingParent
  }

  lemma MegaBlockPlaced(s: Shape, layer: int)
    ensures MegaPlaced(s, layer, MegaBlock(s, layer))
    ensures layer >= 0 ==> FallsIntoPlace(MegaBlock(s, layer))
  {
  }

  /** The ceiling consumes no jitter. */
  lemma JitterAtCeiling(s: Shape)
    requires ValidShape(s)
    ensures JitterOffset(s, s.numLayers - 1) == JitterNeeded(s)
  {
    var top: nat := s.numLayers - 1;
    assert LayerJitter(s, top) == 0;
  }

  lemma BlocksUpToCeiling(s: Shape, jitter: seq<real>)
    requires ValidShape(s)
    requires |jitter| >= JitterNeeded(s)
    ensures JitterOffset(s, s.numLayers - 1) == JitterNeeded(s)
    ensures BuildingBlocks(s, jitter) == BlocksUpTo(s, s.numLayers - 1, jitter) + [MegaBlock(s, s.numLayers - 1)]
  {
    JitterAtCeiling(s);
    var top: nat := s.numLayers - 1;
    BlocksUpToSucc(s, top, jitter);
    var off := JitterOffset(s, top);
    assert jitter[off..off] == [];
    assert LayerBlocks(s, top, []) == [MegaBlock(s, top)];
  }

  /** A building is its floor, then the wall blocks of the intermediate layers, then
      its ceiling; every block starts motionless above its target. */
  lemma BuildingBlocksStructure(s: Shape, jitter: seq<real>)
    requires ValidShape(s)
    requires |jitter| >= JitterNeeded(s)
    requires AllJitterInRange(jitter)
    ensures |BuildingBlocks(s, jitter)| >= 2
    ensures forall k :: 0 <= k < |BuildingBlocks(s, jitter)| ==> FallsIntoPlace(BuildingBlocks(s, jitter)[k])
    ensures MegaPlaced(s, 0, BuildingBlocks(s, jitter)[0])
    ensures MegaPlaced(s, s.numLayers - 1, BuildingBlocks(s, jitter)[|BuildingBlocks(s, jitter)| - 1])
    ensures forall k :: 0 < k < |BuildingBlocks(s, jitter)| - 1 ==> WallPlaced(s, BuildingBlocks(s, jitter)[k])
  {
    BuildingBlocksEnds(s, jitter);
    BlocksUpToFall(s, s.numLayers, jitter);
    BuildingBlocksWalls(s, jitter);
  }

  lemma BuildingBlocksEnds(s: Shape, jitter: seq<real>)
    requires ValidShape(s)
    requires |jitter| >= JitterNeeded(s)
    ensures |BuildingBlocks(s, jitter)| >= 2
    ensures MegaPlaced(s, 0, BuildingBlocks(s, jitter)[0])
    ensures MegaPlaced(s, s.numLayers - 1, BuildingBlocks(s, jitter)[|BuildingBlocks(s, jitter)| - 1])
  {
    var n := s.numLayers;
    BlocksUpToLength(s, n, jitter);
    BlocksUpToFloor(s, n, jitter);
    BlocksUpToCeiling(s, jitter);
    MegaBlockPlaced(s, 0);
    MegaBlockPlaced(s, n - 1);
  }

  lemma BuildingBlocksWalls(s: Shape, jitter: seq<real>)
    requires ValidShape(s)
    requires |jitter| >= JitterNeeded(s)
    requires AllJitterInRange(jitter)
    ensures InnerWallsPlaced(s, BuildingBlocks(s, jitter))
  {
    var top: nat := s.numLayers - 1;
    BlocksUpToCeiling(s, jitter);
    var walls := BlocksUpTo(s, top, jitter);
    BlocksUpToWalls(s, top, jitter);
    PlacedBeforeLast(s, BuildingBlocks(s, jitter), walls, MegaBlock(s, top));
  }

  /** Every block strictly between the first and the last is a placed wall block. */
  predicate InnerWallsPlaced(s: Shape, bs: seq<Block>)
    requires ValidShape(s)
  {
    forall k :: 0 < k < |bs| - 1 ==> WallPlaced(s, bs[k])
  }

  lemma PlacedBeforeLast(s: Shape, bs: seq<Block>, walls: seq<Block>, last: Block)
    requires ValidShape(s)
    requires bs == walls + [last]
    requires forall k :: 1 <= k < |walls| ==> WallPlaced(s, walls[k])
    ensures InnerWallsPlaced(s, bs)
  {
    forall k | 0 < k < |bs| - 1
      ensures WallPlaced(s, bs[k])
    {
      assert bs[k] == walls[k];
    }
  }

  /** Blocks of one building: floor, ceiling and every intermediate layer's ring,
      where the first `min(numLayers - 2, 4)` intermediate layers have the door gap. */
  function EmittedCount(s: Shape): int {
    2 + (s.numLayers - 2) * (2 * s.width + 2 * s.depth - 4) - 6 * Min(s.numLayers - 2, 4)
  }

  lemma {:induction false} JitterOffsetClosedForm(s: Shape, layer: nat)
    requires ValidShape(s)
    requires 1 <= layer <= s.numLayers - 1
    ensures JitterOffset(s, layer) == (layer - 1) * (2 * s.width + 2 * s.depth - 4) - 6 * Min(layer - 1, 4)
    decreases layer
  {
    if layer > 1 {
      var k: nat := layer - 1;
      var p := 2 * s.width + 2 * s.depth - 4;
      JitterOffsetClosedForm(s, k);
      assert LayerJitter(s, k) == p - (if k < DoorLayers then 6 else 0);
      MulSucc(k - 1, p);
      MinSucc(k - 1);
    }
  }

  lemma MulSucc(m: int, p: int)
    ensures (m + 1) * p == m * p + p
  {
  }

  /** Each intermediate layer below the door height adds one door gap. */
  lemma MinSucc(m: nat)
    ensures Min(m + 1, 4) == Min(m, 4) + (if m + 1 < DoorLayers then 1 else 0)
  {
  }

  /** Number of blocks a building emits. */
  lemma BuildingBlockCount(s: Shape, jitter: seq<real>)
    requires ValidShape(s)
    requires |jitter| >= JitterNeeded(s)
    ensures |BuildingBlocks(s, jitter)| == EmittedCount(s)
    ensures JitterNeeded(s) == EmittedCount(s) - 2
  {
    JitterNeededCount(s);
    BlocksUpToLength(s, s.numLayers, jitter);
  }

  lemma JitterNeededCount(s: Shape)
    requires ValidShape(s)
    ensures JitterNeeded(s) == EmittedCount(s) - 2
  {
    var top: nat := s.numLayers - 1;
    JitterAtCeiling(s);
    JitterOffsetClosedForm(s, top);
  }

  /** Wall targets are centred on the layer: they lie within `originX` and `originZ`
      of the origin, on the outer ring (one coordinate at its extreme), and below
      layer 5 at least two columns away from the centre (the door). */
  lemma WallTargetGeometry(s: Shape, layer: int, c: Cell)
    requires ValidShape(s)
    requires c in LayerCells(s.width, s.depth, layer)
    ensures var t := WallTarget(s, c);
      && t.y == 0.0
      && Abs(t.x) <= Origin(s.width) as real && Abs(t.z) <= Origin(s.depth) as real
      && (Abs(t.x) == Origin(s.width) as real || Abs(t.z) == Origin(s.depth) as real)
      && (layer < DoorLayers ==> Abs(t.x) >= 2.0)
  {
    LayerCellsExactly(s.width, s.depth, layer, c);
    OriginOfOdd(s.width);
    OriginOfOdd(s.depth);
    RingOffsets(s.width, s.depth, layer, c);
    AbsOfInt(c.x - Origin(s.width));
    AbsOfInt(c.z - Origin(s.depth));
  }

  lemma OriginOfOdd(size: int)
    requires size % 2 == 1
    ensures size == 2 * Origin(size) + 1
  {
  }

  /** The integer offsets from the centre of a kept cell of an odd grid. */
  lemma RingOffsets(w: int, d: int, layer: int, c: Cell)
    requires w == 2 * Origin(w) + 1 && d == 2 * Origin(d) + 1
    requires InGrid(w, d, c) && OnPerimeter(w, d, c)
    requires !(layer < DoorLayers && IntAbs(c.x - Origin(w)) <= 1)
    ensures IntAbs(c.x - Origin(w)) <= Origin(w) && IntAbs(c.z - Origin(d)) <= Origin(d)
    ensures IntAbs(c.x - Origin(w)) == Origin(w) || IntAbs(c.z - Origin(d)) == Origin(d)
    ensures layer < DoorLayers ==> IntAbs(c.x - Origin(w)) >= 2
  {
  }

  lemma AbsOfInt(i: int)
    ensures Abs(i as real) == IntAbs(i) as real
  {
  }

  /** Distinct grid cells get distinct targets. */
  lemma WallTargetInjective(s: Shape, c1: Cell, c2: Cell)
    ensures WallTarget(s, c1) == WallTarget(s, c2) <==> c1 == c2
  {
  }

  /** No two wall blocks of one layer share a target. */
  lemma WallTargetsDistinct(s: Shape, layer: int, js: seq<real>)
    requires ValidShape(s)
    requires |js| == |LayerCells(s.width, s.depth, layer)|
    ensures forall i, j :: 0 <= i < j < |js| ==>
              WallBlocksOf(s, layer, LayerCells(s.width, s.depth, layer), js)[i].data.target
              != WallBlocksOf(s, layer, LayerCells(s.width, s.depth, layer), js)[j].data.target
  {
    var cells := LayerCells(s.width, s.depth, layer);
    LayerCellsDistinct(s.width, s.depth, layer);
    forall i, j | 0 <= i < j < |js|
      ensures WallTarget(s, cells[i]) != WallTarget(s, cells[j])
    {
      WallTargetInjective(s, cells[i], cells[j]);
    }
  }

  /** The total the generator logs: one per floor or ceiling and one per VISITED cell
      of an intermediate layer, whether or not the cell received a block. */
  function LoggedCount(s: Shape): int {
    2 + (s.numLayers - 2) * s.width * s.depth
  }

  /** The logged total over-reports the blocks by exactly the interior cells and the
      door cells, which are visited but skipped. */
  lemma LoggedCountExceedsEmitted(s: Shape)
    requires ValidShape(s)
    ensures LoggedCount(s) - EmittedCount(s) ==
              (s.numLayers - 2) * (s.width - 2) * (s.depth - 2) + 6 * Min(s.numLayers - 2, 4)
    ensures LoggedCount(s) > EmittedCount(s)
  {
    var m, w, d := s.numLayers - 2, s.width, s.depth;
    var interior := (w - 2) * (d - 2);
    Expand(w, d);
    Distribute(m, w * d, 2 * w + 2 * d - 4);
    Associate(m, w, d);
    Associate(m, w - 2, d - 2);
    Positive(w - 2, d - 2);
    Positive(m, interior);
  }

  lemma Expand(w: int, d: int)
    ensures (w - 2) * (d - 2) == w * d - (2 * w + 2 * d - 4)
  {
  }

  lemma Distribute(m: int, a: int, b: int)
    ensures m * a - m * b == m * (a - b)
  {
  }

  lemma Associate(m: int, a: int, b: int)
    ensures m * a * b == m * (a * b)
  {
  }

  lemma Positive(a: int, b: int)
    requires a > 0 && b > 0
    ensures a * b > 0
  {
  }

  /** The smallest building (five layers, width and depth five) logs 77 blocks but
      creates 32: the log counts the 25 visited cells of each of its three
      intermediate layers. */
  lemma LoggedCountSmallestBuilding()
    ensures LoggedCount(Shape(5, 5, 5)) == 77
    ensures EmittedCount(Shape(5, 5, 5)) == 32
  {
  }
}
