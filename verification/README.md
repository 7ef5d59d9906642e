# Falling-blocks city generator, modelled in Dafny

This project models the two pieces of sequential logic at the heart of a Unity ECS
demo. The demo builds a city of 300 hollow block buildings. Every block then falls
from a spawn height onto its target position.

* **The one-shot generator** (`BuildingGeneratorSystem`). On the first update
  that finds the entity references, it places 300 buildings. Each building gets
  a random integer position, a layer count and an odd width and depth. A building
  has a scaled floor and ceiling "mega-block". Each intermediate layer is a
  hollow rectangular ring of unit blocks, with a three-column door gap on the
  layers below index 5. A process-wide `initialized` flag makes the generation
  run once. The loop also logs a running `blockCount` at the end.
* **The per-block fall step** (`BuildingBlockSystem.BlockUpdateJob.Execute`).
  It applies semi-implicit Euler integration under the block's acceleration.
  When the block reaches its target height, it snaps to rest if its vertical
  speed is below 5 and otherwise bounces back with a tenth of its velocity.

The modules follow the program's structure:

| file | module | contents |
|---|---|---|
| `vectors.dfy` | `Vectors` | `float3` as a triple of exact reals |
| `blocks.dfy` | `Blocks` | one block entity: its `BuildingBlockData` (target, velocity, acceleration), its position, its scale and what it is parented to |
| `fall.dfy` | `Fall` | the fall step as a pure function, its three phases, rest as a fixed point, the job over all blocks |
| `layout.dfy` | `Layout` | the drawn shape (`OrOne` for `v \| 1`), the cells of an intermediate layer in loop order, and their membership, order and count |
| `generator.dfy` | `Generator` | the block records of one building as a pure function of its random draws; the structure, geometry and counts of that building |
| `generation.dfy` | `Generation` | the source's nested loops (buildings, layers, `x`, `z`) as methods, proved equal to the functional definitions, with the logged counter |
| `guard.dfy` | `Guard` | the `initialized` flag as explicit state, and the update that runs generation |

Randomness is lifted to parameters. A building's draws are its position, its
layer count, its raw width and depth, and a stream of jitter values in
`[-0.5, 0.5)`. The wall blocks take jitter values in emission order.
`NextInt(min, max)` and `NextFloat(min, max)` are half-open, so the draws are
constrained to half-open ranges.

Three details of the code matter to the model:

* `v | 1` leaves an odd `v` unchanged and raises an even `v` by one
  (`Layout.OrOne`, `Layout.OrOneIsBitwiseOr`).
* `NextFloat(-0.5f, 0.5f)` is half-open, so every jitter lies in `[-0.5, 0.5)`.
* Missing entity references are reported with `LogError` and `initialized`
  stays unset, so a later update that finds them still generates
  (`Guard.GeneratesAtFirstReferences`).

## Model

| member | source | states |
|---|---|---|
| Fall.Step | BuildingBlockSystem.cs:27-51 | a step writes only the velocity and the position: target, acceleration, scale and parent are unchanged; `x` and `z` always take the integrated values; `y` is the integrated value or the target height |
| Fall.StepFalling | BuildingBlockSystem.cs:30-36 | above the target the step is exactly semi-implicit Euler: `v' = v + a*dt` first, then `p' = p + v'*dt` with the new velocity, and neither snap nor bounce happens |
| Fall.FallingDescends | BuildingBlockSystem.cs:29-33 | under the default gravity, with `dt > 0`, a block that is not rising gains `20*dt` of downward speed and strictly loses height while it falls |
| Fall.StepSnaps | BuildingBlockSystem.cs:36-45 | reaching the target with vertical speed below 5 sets the height to the target and the velocity to zero, keeping the integrated `x` and `z` |
| Fall.StepBounces | BuildingBlockSystem.cs:36-49 | reaching the target with vertical speed of at least 5 keeps the integrated position, multiplies the velocity by `-0.1`, flips the vertical sign and divides the speed by ten |
| Fall.RestExactlyWhenSnapped | BuildingBlockSystem.cs:36-49 | a step leaves the block at rest if and only if it takes the snap branch |
| Fall.RestIsFixedPoint | BuildingBlockSystem.cs:30-45 | a resting block under the default gravity is returned unchanged for every `0 <= dt < 1/4` |
| Fall.RestBreaksAtLongFrames | BuildingBlockSystem.cs:30-49 | the quarter bound is tight: for `dt >= 1/4` a resting block under the default gravity reaches speed `20*dt >= 5`, so it bounces, ends below its target and moves up at `2*dt` |
| Fall.RestForever | BuildingBlockSystem.cs:30-45 | under the default gravity, for `0 <= dt < 1/4`, a resting block stays identical over any number of steps |
| Fall.StepAll | BuildingBlockSystem.cs:20-27 | one tick of the job maps every block through the step and keeps the number of blocks |
| Fall.Independence | BuildingBlockSystem.cs:20-27 | replacing one block changes only that block's result: every other block's result is untouched |
| Fall.AllRestingIsFixedPoint | BuildingBlockSystem.cs:27-51 | under the default gravity, for `0 <= dt < 1/4`, a world of resting blocks is unchanged by a tick |
| Layout.OrOne | BuildingGeneratorSystem.cs:83-84 | setting the low bit gives an odd number equal to the input or one more |
| Layout.OrOneIsBitwiseOr | BuildingGeneratorSystem.cs:83 | the arithmetic definition agrees with the bitwise `\| 1` on every byte value |
| Layout.OrOneInRange | BuildingGeneratorSystem.cs:82-84 | a draw in `[5, 21)` becomes an odd size in `[5, 21]`, as the comment promises |
| Layout.ShapeOf | BuildingGeneratorSystem.cs:79-84 | the drawn shape has 5 to 10 layers and odd width and depth in 5..21, each at most one above its raw draw |
| Layout.FloorAndCeilingDistinct | BuildingGeneratorSystem.cs:79-92 | the floor (layer 0) and the ceiling (layer `numLayers - 1`) are different layers |
| Layout.LayerCellsExactly | BuildingGeneratorSystem.cs:151-161 | a cell is emitted if and only if it is in the grid, on its perimeter, and not in the door columns `\|x - originX\| <= 1` on a layer below 5 |
| Layout.FullPerimeterAboveDoor | BuildingGeneratorSystem.cs:161 | from layer 5 upward, a cell is emitted if and only if it lies on the perimeter |
| Layout.LayerCellsDistinct | BuildingGeneratorSystem.cs:151-153 | the cells are emitted column by column with increasing `z`, so no cell is emitted twice |
| Layout.LayerCellCount | BuildingGeneratorSystem.cs:151-161 | an intermediate layer emits `2*width + 2*depth - 4` blocks, six fewer below layer 5 |
| Generator.BuildingOf | BuildingGeneratorSystem.cs:60-84 | a building stands at integer `x` and `z` in `[0, 800)` at height 0, with a valid shape |
| Generator.MegaBlockPlaced | BuildingGeneratorSystem.cs:92-128 | a floor or ceiling block targets `(0, layer, 0)`, spawns `10 + 2*layer` above it at rest under gravity `(0, -20, 0)`, has scale `(width, 1, depth)` and is parented to the building |
| Generator.WallBlocksPlaced | BuildingGeneratorSystem.cs:163-189 | every wall block of a layer targets its own kept cell, centred on the origin; it spawns straight above the target at exactly `10 + 2*layer` plus the k-th jitter value of the layer, starts at rest under the default gravity and is parented to its layer |
| Generator.BuildingBlocksStructure | BuildingGeneratorSystem.cs:89-190 | a building is its floor, then only wall blocks of intermediate layers, then its ceiling, and every block starts strictly above its target, at rest and under the default gravity |
| Generator.BuildingBlockCount | BuildingGeneratorSystem.cs:89-191 | a building has `2 + (n-2)*(2w + 2d - 4) - 6*min(n-2, 4)` blocks, and all but the floor and ceiling consume one jitter value |
| Generator.JitterNeededCount | BuildingGeneratorSystem.cs:151-186 | the number of jitter values a building draws is its number of wall blocks |
| Generator.WallTargetGeometry | BuildingGeneratorSystem.cs:147-174 | a wall target lies within `originX` and `originZ` of the centre with one coordinate at its extreme; below layer 5 it is at least two columns from the centre |
| Generator.WallTargetInjective | BuildingGeneratorSystem.cs:170-174 | two cells get the same target if and only if they are the same cell |
| Generator.WallTargetsDistinct | BuildingGeneratorSystem.cs:151-174 | no two wall blocks of one layer share a target |
| Generator.LoggedCountExceedsEmitted | BuildingGeneratorSystem.cs:94-161 | the logged count exceeds the blocks created by exactly the visited interior cells plus the door cells |
| Generator.LoggedCountSmallestBuilding | BuildingGeneratorSystem.cs:94-155 | the smallest building logs 77 but creates 32 blocks |
| Generation.GenerateColumn | BuildingGeneratorSystem.cs:153-190 | the `z` loop visits `depth` cells and emits the wall blocks of exactly the column's kept cells, taking consecutive jitter values |
| Generation.GenerateWallLayer | BuildingGeneratorSystem.cs:146-191 | the `x` loop visits `width*depth` cells and emits exactly the layer's wall blocks, one consecutive jitter value each |
| Generation.GenerateLayer | BuildingGeneratorSystem.cs:92-192 | one layer iteration emits that layer's blocks and advances the jitter stream by exactly the layer's wall count |
| Generation.GenerateLayers | BuildingGeneratorSystem.cs:89-193 | the layer loop produces the building's blocks in order; its block counter equals the number of blocks |
| Generation.LoggedBeforeAll | BuildingGeneratorSystem.cs:89-155 | over all layers, the per-layer logged increments add up to `2 + (n-2)*width*depth` |
| Generation.GenerateBuilding | BuildingGeneratorSystem.cs:62-193 | the loops build the same building as the functional definition; they log `2 + (n-2)*width*depth`, while the block counter equals the blocks created |
| Generation.GenerateWorld | BuildingGeneratorSystem.cs:57-196 | exactly 300 buildings, the i-th built from the i-th draws; the logged total is the sum of the visited-cell counts; the corrected total is the number of blocks created |
| Guard.Update | BuildingGeneratorSystem.cs:26-47 | an update generates if and only if the guard is unset and the references exist; the guard becomes set if and only if it was set or the references exist; otherwise the skip or the missing references are reported and the state is kept |
| Guard.InitializedOnlySkips | BuildingGeneratorSystem.cs:26-31 | once initialized, every later update only reports the skip and generates nothing |
| Guard.GeneratesAtMostOnce | BuildingGeneratorSystem.cs:26-46 | over any series of updates, generation runs once if the guard starts unset and the references exist at some update, and never otherwise |
| Guard.GeneratesAtFirstReferences | BuildingGeneratorSystem.cs:33-44 | from a fresh guard, generation happens at exactly the first update that finds the references; earlier updates report them missing |
| Guard.OnUpdate | BuildingGeneratorSystem.cs:23-47 | an update runs the full generation pass exactly when the guard lets it; otherwise no building is produced |

## Left out

- Unity ECS plumbing is left out: `Instantiate`, `AddComponentData`, `SetComponentData`, `Parent`, `LocalTransform`, `PostTransformMatrix`, `state.Enabled` and `RequireForUpdate`. Only the data they carry is kept: target, spawn position, scale and parent kind.
- Rotation and the uniform `LocalTransform.Scale` are always the identity and `1`, so they are not modelled.
- The transforms of the building parent and of the layer entities are not modelled. Wall targets are layer-local and mega-block targets are building-local, so world-space composition is out.
- `Unity.Mathematics.Random` and the `DateTime.Now.Ticks` seed are replaced by parameters. The draws are constrained to their half-open ranges. A building's jitter stream must hold at least as many values as it has wall blocks.
- IEEE-754 `float` rounding is not modelled. Exact reals stand in for it.
- `ScheduleParallel` and job dependencies are not modelled. The job is a sequential map, and `Fall.Independence` states why that is faithful.
- `Debug.Log` and `Debug.LogError` output is not modelled. It appears only as the `Outcome` of an update and as the logged total.
- `EntityReferencesAuthoring.cs` is not part of this model. It is an editor-time baker, and its effect appears only as the `hasRefs` flag.
- The `Velocity` field is never written by the generator, so it keeps its default value, zero.
- Fall.RestForever: this proves stability once a block rests. It does not prove that a block dropped from `(0, 50, 0)` with `dt = 0.016` reaches rest within a bounded number of steps. That needs a concrete run of a few hundred real-valued steps.
- Fall.RestIsFixedPoint: holds only for `dt < 1/4`. A single frame of 250 ms or longer knocks every resting block off its target (`Fall.RestBreaksAtLongFrames`). The job reads `SystemAPI.Time.DeltaTime` unclamped, so a long stall would make the settled city bounce.
- Layout.OrOneIsBitwiseOr: proved for byte values only (0 to 255). Every draw it applies to is below 21.
- Guard.OnUpdate: the draws are parameters of every update, including updates that do not generate, because the random source is not modelled.

## Findings

| source | as written | input that shows it | evidently intended | confidence | as-written member | corrected member |
|---|---|---|---|---|---|---|
| BuildingGeneratorSystem.cs:155 | `blockCount++` runs for every visited grid cell before the interior and door skips. The final log still calls the total "Total generated blocks". | A building with 5 layers and width and depth 5 logs 77 but creates 32 blocks. | Count a block only when it is created, after the skips. | medium, not executed | Generator.LoggedCountSmallestBuilding | Generation.GenerateBuilding |
