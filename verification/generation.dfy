/** The generator's loops as the system runs them: over buildings, over layers, and
    over the `x`/`z` cells of each intermediate layer, consuming jitter values from the
    random stream and counting the total it logs. */
module Generation {
  import opened Vectors
  import opened Blocks
  import opened Layout
  import opened Generator

  /** Blocks appended one wall block at a time equal the blocks of the extended cells. */
  lemma WallBlocksOfSnoc(s: Shape, layer: int, cells: seq<Cell>, js: seq<real>, c: Cell, j: real)
    requires |cells| == |js|
    ensures WallBlocksOf(s, layer, cells, js) + [WallBlock(s, layer, c, j)]
            == WallBlocksOf(s, layer, cells + [c], js + [j])
  {
  }

  lemma WallBlocksOfAppend(s: Shape, layer: int, c1: seq<Cell>, j1: seq<real>, c2: seq<Cell>, j2: seq<real>)
    requires |c1| == |j1| && |c2| == |j2|
    ensures WallBlocksOf(s, layer, c1, j1) + WallBlocksOf(s, layer, c2, j2)
            == WallBlocksOf(s, layer, c1 + c2, j1 + j2)
  {
  }

  /** Adjacent slices of a stream join into one. */
  lemma SliceJoin<T>(s: seq<T>, a: nat, b: nat, c: nat)
    requires a <= b <= c <= |s|
    ensures s[a..b] + s[b..c] == s[a..c]
  {
  }

  /** The inner `z` loop over column `x`: it visits every cell of the column, skips
      the interior and the door gap, and gives every other cell a block whose jitter
      is the next value of the stream starting at `cursor`. */
  method GenerateColumn(s: Shape, layer: int, x: int, jitter: seq<real>, cursor: nat)
    returns (blocks: seq<Block>, next: nat, visited: nat)
    requires ValidShape(s)
    requires cursor + |ColumnCells(s.width, s.depth, layer, x, s.depth)| <= |jitter|
    ensures next == cursor + |ColumnCells(s.width, s.depth, layer, x, s.depth)|
    ensures blocks == WallBlocksOf(s, layer, ColumnCells(s.width, s.depth, layer, x, s.depth), jitter[cursor..next])
    ensures visited == s.depth
  {
    var w, d := s.width, s.depth;
    blocks, next, visited := [], cursor, 0;
    var z := 0;
    while z < d
      invariant 0 <= z <= d
      invariant visited == z
      invariant next == cursor + |ColumnCells(w, d, layer, x, z)| <= |jitter|
      invariant blocks == WallBlocksOf(s, layer, ColumnCells(w, d, layer, x, z), jitter[cursor..next])
    {
      visited := visited + 1;
      var c := Cell(x, z);
      ColumnCellsSucc(w, d, layer, x, z);
      if Interior(w, d, c) {
        // inside the ring: no block
      } else if InDoorGap(w, layer, c) {
        // door column of a low layer: no block
      } else {
        ColumnCellsGrow(w, d, layer, x, z + 1, d);
        WallBlocksOfSnoc(s, layer, ColumnCells(w, d, layer, x, z), jitter[cursor..next], c, jitter[next]);
        SliceJoin(jitter, cursor, next, next + 1);
        blocks := blocks + [WallBlock(s, layer, c, jitter[next])];
        next := next + 1;
      }
      z := z + 1;
    }
  }

  /** The outer `x` loop of one intermediate layer: columns in increasing `x`, each
      continuing the jitter stream where the previous one stopped. Every cell of the
      `width × depth` grid is counted as visited. */
  method GenerateWallLayer(s: Shape, layer: int, jitter: seq<real>, cursor: nat)
    returns (blocks: seq<Block>, next: nat, visited: nat)
    requires ValidShape(s)
    requires cursor + |LayerCells(s.width, s.depth, layer)| <= |jitter|
    ensures next == cursor + |LayerCells(s.width, s.depth, layer)|
    ensures blocks == WallBlocksOf(s, layer, LayerCells(s.width, s.depth, layer), jitter[cursor..next])
    ensures visited == s.width * s.depth
  {
    var w, d := s.width, s.depth;
    blocks, next, visited := [], cursor, 0;
    var x := 0;
    while x < w
      invariant 0 <= x <= w
      invariant visited == x * d
      invariant next == cursor + |GridCells(w, d, layer, x)| <= |jitter|
      invariant blocks == WallBlocksOf(s, layer, GridCells(w, d, layer, x), jitter[cursor..next])
    {
      GridCellsGrow(w, d, layer, x + 1, w);
      var column, next', seen := GenerateColumn(s, layer, x, jitter, next);
      WallBlocksOfAppend(s, layer, GridCells(w, d, layer, x), jitter[cursor..next],
                         ColumnCells(w, d, layer, x, d), jitter[next..next']);
      SliceJoin(jitter, cursor, next, next');
      GridCellsSucc(w, d, layer, x);
      MulSucc(x, d);
      blocks, next, visited := blocks + column, next', visited + seen;
      x := x + 1;
    }
  }

  /** Total logged for the layers before `layer`: one per floor or ceiling and
      `width * depth` per intermediate layer. */
  function LoggedBefore(s: Shape, layer: nat): int
    decreases layer
  {
    if layer == 0 then 0
    else LoggedBefore(s, layer - 1) + (if IsMegaLayer(s, layer - 1) then 1 else s.width * s.depth)
  }

  lemma {:induction false} LoggedBeforeClosedForm(s: Shape, layer: nat)
    requires ValidShape(s)
    requires 1 <= layer < s.numLayers
    ensures LoggedBefore(s, layer) == 1 + (layer - 1) * (s.width * s.depth)
    decreases layer
  {
    if layer > 1 {
      LoggedBeforeClosedForm(s, layer - 1);
      assert (layer - 1) * (s.width * s.depth) == (layer - 2) * (s.width * s.depth) + s.width * s.depth;
    }
  }

  lemma LoggedBeforeAll(s: Shape)
    requires ValidShape(s)
    ensures LoggedBefore(s, s.numLayers) == LoggedCount(s)
  {
    LoggedBeforeClosedForm(s, s.numLayers - 1);
    Associate(s.numLayers - 2, s.width, s.depth);
  }

  /** One iteration of the layer loop: a floor or ceiling block, or a wall layer
      that continues the jitter stream at `cursor`. */
  method GenerateLayer(s: Shape, layer: nat, jitter: seq<real>, cursor: nat)
    returns (blocks: seq<Block>, next: nat, visited: nat)
    requires ValidShape(s)
    requires cursor == JitterOffset(s, layer)
    requires JitterOffset(s, layer + 1) <= |jitter|
    ensures next == JitterOffset(s, layer + 1)
    ensures blocks == LayerBlocks(s, layer, jitter[cursor..next])
    ensures visited == LoggedBefore(s, layer + 1) - LoggedBefore(s, layer)
  {
    if layer == 0 || layer == s.numLayers - 1 {
      blocks, next, visited := [MegaBlock(s, layer)], cursor, 1;
    } else {
      LayerCellCount(s.width, s.depth, layer);
      assert JitterOffset(s, layer + 1) == cursor + |LayerCells(s.width, s.depth, layer)|;
      blocks, next, visited := GenerateWallLayer(s, layer, jitter, cursor);
    }
  }

  /** The layer loop of one building, from the floor up, each intermediate layer
      continuing the jitter stream. Returns the blocks, what the layers add to the
      logged total (as written, one per visited cell) and a corrected total that counts
      a block when it is created. */
  method GenerateLayers(s: Shape, jitter: seq<real>) returns (blocks: seq<Block>, logged: int, emitted: nat)
    requires ValidShape(s)
    requires |jitter| >= JitterNeeded(s)
    ensures blocks == BuildingBlocks(s, jitter)
    ensures logged == LoggedBefore(s, s.numLayers)
    ensures emitted == |blocks|
  {
    blocks := [];
    var cursor: nat := 0;
    logged, emitted := 0, 0;
    var layer: nat := 0;
    while layer < s.numLayers
      invariant layer <= s.numLayers
      invariant cursor == JitterOffset(s, layer) <= |jitter|
      invariant blocks == BlocksUpTo(s, layer, jitter)
      invariant logged == LoggedBefore(s, layer)
      invariant emitted == |blocks|
    {
      JitterOffsetMonotone(s, layer + 1, s.numLayers);
      var layerBlocks, next, visited := GenerateLayer(s, layer, jitter, cursor);
      BlocksUpToSucc(s, layer, jitter);
      assert |blocks + layerBlocks| == emitted + |layerBlocks|;
      blocks, cursor := blocks + layerBlocks, next;
      logged, emitted := logged + visited, emitted + |layerBlocks|;
      layer := layer + 1;
    }
  }

  /** One building, that is one iteration of the building loop of the source's
      `GenerateBuilding` method: position and shape draws, then its layers. */
  method GenerateBuilding(dr: BuildingDraws) returns (b: Building, logged: int, emitted: nat)
    requires ValidDraws(dr)
    ensures b == BuildingOf(dr)
    ensures logged == LoggedCount(b.shape)
    ensures emitted == |b.blocks| == EmittedCount(b.shape)
  {
    var s := ShapeOf(dr.rawLayers, dr.rawWidth, dr.rawDepth);
    var blocks;
    blocks, logged, emitted := GenerateLayers(s, dr.jitter);
    LoggedBeforeAll(s);
    BuildingBlockCount(s, dr.jitter);
    b := Building(Vec3(dr.posX as real, 0.0, dr.posZ as real), s, blocks);
  }

  /** Sum of the logged totals of the given buildings. */
  function TotalLogged(world: seq<Building>): int
    decreases |world|
  {
    if |world| == 0 then 0 else TotalLogged(world[..|world| - 1]) + LoggedCount(world[|world| - 1].shape)
  }

  lemma TotalLoggedSnoc(world: seq<Building>, b: Building)
    ensures TotalLogged(world + [b]) == TotalLogged(world) + LoggedCount(b.shape)
  {
    assert (world + [b])[..|world|] == world;
  }

  /** Number of blocks in the given buildings. */
  function TotalBlocks(world: seq<Building>): nat
    decreases |world|
  {
    if |world| == 0 then 0 else TotalBlocks(world[..|world| - 1]) + |world[|world| - 1].blocks|
  }

  lemma TotalBlocksSnoc(world: seq<Building>, b: Building)
    ensures TotalBlocks(world + [b]) == TotalBlocks(world) + |b.blocks|
  {
    assert (world + [b])[..|world|] == world;
  }

  /** Appending the next building keeps `world` the buildings of the first draws. */
  lemma BuiltPrefixSnoc(draws: seq<BuildingDraws>, world: seq<Building>, b: Building)
    requires |world| < |draws|
    requires forall i :: 0 <= i < |draws| ==> ValidDraws(draws[i])
    requires forall k :: 0 <= k < |world| ==> world[k] == BuildingOf(draws[k])
    requires b == BuildingOf(draws[|world|])
    ensures forall k :: 0 <= k < |world| + 1 ==> (world + [b])[k] == BuildingOf(draws[k])
  {
  }

  /** The source's `GenerateBuilding` method, the whole generation pass: 300
      buildings, each from its own draws. `blockCount`
      is the total the pass logs at the end, as written; `generatedCount` is the
      corrected total, the number of blocks actually created. */
  method GenerateWorld(draws: seq<BuildingDraws>) returns (world: seq<Building>, blockCount: int, generatedCount: nat)
    requires |draws| == NumBuildings
    requires forall i :: 0 <= i < |draws| ==> ValidDraws(draws[i])
    ensures |world| == NumBuildings
    ensures forall i :: 0 <= i < |world| ==> world[i] == BuildingOf(draws[i])
    ensures blockCount == TotalLogged(world)
    ensures generatedCount == TotalBlocks(world)
  {
    world, blockCount, generatedCount := [], 0, 0;
    var i := 0;
    while i < NumBuildings
      invariant 0 <= i <= NumBuildings
      invariant |world| == i
      invariant forall k :: 0 <= k < i ==> world[k] == BuildingOf(draws[k])
      invariant blockCount == TotalLogged(world)
      invariant generatedCount == TotalBlocks(world)
    {
      var b, logged, emitted := GenerateBuilding(draws[i]);
      TotalBlocksSnoc(world, b);
      TotalLoggedSnoc(world, b);
      BuiltPrefixSnoc(draws, world, b);
      world, blockCount, generatedCount := world + [b], blockCount + logged, generatedCount + emitted;
      i := i + 1;
    }
  }
}
