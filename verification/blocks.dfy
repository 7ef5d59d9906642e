/** The per-block data the generator creates and the fall simulator updates. */
module Blocks {
  import opened Vectors

  /** The `BuildingBlockData` component: where the block comes to rest, how fast it
      moves, and the constant acceleration pulling it. */
  datatype BlockData = BlockData(target: Vec3, velocity: Vec3, acceleration: Vec3)

  /** The entity a block's transform is relative to: the building itself (floor and
      ceiling mega-blocks) or the layer entity with the given index (wall blocks). */
  datatype ParentKind = BuildingParent | LayerParent(layerIndex: int)

  /** One block entity: its `BuildingBlockData`, the position of its `LocalTransform`,
      the scale it is rendered with and its parent. */
  datatype Block = Block(data: BlockData, position: Vec3, scale: Vec3, parent: ParentKind)

  /** Gravity every generated block falls under. */
  const DefaultAcceleration: Vec3 := Vec3(0.0, -20.0, 0.0)

  /** Scale of a standard (non mega) block. */
  const UnitScale: Vec3 := Vec3(1.0, 1.0, 1.0)
}
