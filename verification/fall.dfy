/** The per-block fall step (`BlockUpdateJob.Execute`) and its application to every
    block of the world. */
module Fall {
  import opened Vectors
  import opened Blocks

  /** Speed below which a block reaching its target snaps to rest instead of bouncing. */
  const SnapSpeed: real := 5.0

  /** Factor applied to the velocity on a bounce. */
  const BounceFactor: real := -0.1

  /** Velocity after integrating the acceleration over `dt` (computed first). */
  function NewVelocity(b: Block, dt: real): Vec3 {
    Add(b.data.velocity, Scale(b.data.acceleration, dt))
  }

  /** Position after moving with the NEW velocity over `dt` (semi-implicit Euler). */
  function Moved(b: Block, dt: real): Vec3 {
    Add(b.position, Scale(NewVelocity(b, dt), dt))
  }

  /** A block is at rest when it sits exactly at its target height and does not move. */
  predicate AtRest(b: Block) {
    b.data.velocity == Zero && b.position.y == b.data.target.y
  }

  /** Which of the three outcomes a step takes. */
  datatype Phase = Falling | Snapped | Bounced

  function PhaseOf(b: Block, dt: real): Phase {
    if Moved(b, dt).y > b.data.target.y then Falling
    else if Abs(NewVelocity(b, dt).y) < SnapSpeed then Snapped
    else Bounced
  }

  /** One step of the block update job. Only the velocity and the position are
      written; the lateral position always follows the integration, and the vertical
      position either follows it or is snapped onto the target. */
  function Step(b: Block, dt: real): (r: Block)
    ensures r.data.target == b.data.target
    ensures r.data.acceleration == b.data.acceleration
    ensures r.scale == b.scale && r.parent == b.parent
    ensures r.position.x == Moved(b, dt).x && r.position.z == Moved(b, dt).z
    ensures r.position.y == Moved(b, dt).y || r.position.y == b.data.target.y
  {
    var v := NewVelocity(b, dt);
    var p := Moved(b, dt);
    if p.y <= b.data.target.y then
      if Abs(v.y) < SnapSpeed then
        b.(data := b.data.(velocity := Zero), position := p.(y := b.data.target.y))
      else
        b.(data := b.data.(velocity := Scale(v, BounceFactor)), position := p)
    else
      b.(data := b.data.(velocity := v), position := p)
  }

  /** While the integrated position stays above the target, the step is exactly the
      semi-implicit Euler update: velocity first, then position with the new velocity. */
  lemma StepFalling(b: Block, dt: real)
    requires Moved(b, dt).y > b.data.target.y
    ensures PhaseOf(b, dt) == Falling
    ensures Step(b, dt).data.velocity == Add(b.data.velocity, Scale(b.data.acceleration, dt))
    ensures Step(b, dt).position == Add(b.position, Scale(Step(b, dt).data.velocity, dt))
  {
  }

  /** Under the default gravity a block that is not rising keeps speeding up and
      strictly descends while it is falling. */
  lemma FallingDescends(b: Block, dt: real)
    requires b.data.acceleration == DefaultAcceleration
    requires b.data.velocity.y <= 0.0
    requires dt > 0.0
    requires PhaseOf(b, dt) == Falling
    ensures Step(b, dt).data.velocity.y == b.data.velocity.y - 20.0 * dt < 0.0
    ensures Step(b, dt).position.y < b.position.y
  {
    var v := NewVelocity(b, dt);
    assert v.y == b.data.velocity.y - 20.0 * dt;
    assert v.y * dt < 0.0;
  }

  /** Reaching the target slowly snaps the height onto the target and stops the block;
      the lateral coordinates keep their integrated values. */
  lemma StepSnaps(b: Block, dt: real)
    requires Moved(b, dt).y <= b.data.target.y
    requires Abs(NewVelocity(b, dt).y) < SnapSpeed
    ensures PhaseOf(b, dt) == Snapped
    ensures Step(b, dt).position == Vec3(Moved(b, dt).x, b.data.target.y, Moved(b, dt).z)
    ensures Step(b, dt).data.velocity == Zero
  {
  }

  /** Reaching the target fast reverses the velocity and damps it to a tenth; the
      position is not snapped. */
  lemma StepBounces(b: Block, dt: real)
    requires Moved(b, dt).y <= b.data.target.y
    requires Abs(NewVelocity(b, dt).y) >= SnapSpeed
    ensures PhaseOf(b, dt) == Bounced
    ensures Step(b, dt).position == Moved(b, dt)
    ensures Step(b, dt).data.velocity == Scale(NewVelocity(b, dt), -0.1)
    ensures Abs(Step(b, dt).data.velocity.y) * 10.0 == Abs(NewVelocity(b, dt).y)
    ensures Step(b, dt).data.velocity.y * NewVelocity(b, dt).y < 0.0
  {
  }

  /** A step leaves the block at rest exactly when it takes the snap branch: a falling
      block is still above its target, and a bounce leaves it moving. */
  lemma RestExactlyWhenSnapped(b: Block, dt: real)
    ensures AtRest(Step(b, dt)) <==> PhaseOf(b, dt) == Snapped
  {
    var v := NewVelocity(b, dt);
    if PhaseOf(b, dt) == Bounced {
      assert Step(b, dt).data.velocity.y == v.y * BounceFactor;
      assert v.y != 0.0;
    }
  }

  /** A block resting on its target under the default gravity stays put for any time
      step below a quarter: the velocity gained, `20 * dt`, is below the snap speed. */
  lemma RestIsFixedPoint(b: Block, dt: real)
    requires AtRest(b)
    requires b.data.acceleration == DefaultAcceleration
    requires 0.0 <= dt < 0.25
    ensures PhaseOf(b, dt) == Snapped
    ensures Step(b, dt) == b
  {
    assert NewVelocity(b, dt) == Vec3(0.0, -20.0 * dt, 0.0);
    assert Moved(b, dt).y == b.position.y - 20.0 * dt * dt;
  }

  /** The bound on the time step is tight: from a quarter upward the gravity gained
      in one step reaches the snap speed, so a resting block bounces and ends below
      its target. */
  lemma RestBreaksAtLongFrames(b: Block, dt: real)
    requires AtRest(b)
    requires b.data.acceleration == DefaultAcceleration
    requires dt >= 0.25
    ensures PhaseOf(b, dt) == Bounced
    ensures Step(b, dt).position.y < b.data.target.y
    ensures Step(b, dt).data.velocity.y == 2.0 * dt
  {
    assert NewVelocity(b, dt) == Vec3(0.0, -20.0 * dt, 0.0);
    assert 20.0 * dt * dt > 0.0;
    assert Moved(b, dt).y == b.data.target.y - 20.0 * dt * dt;
  }

  /** `n` steps with the same time step. */
  function Iterate(b: Block, dt: real, n: nat): Block
    decreases n
  {
    if n == 0 then b else Iterate(Step(b, dt), dt, n - 1)
  }

  /** Once at rest, a block stays at rest for every later step. */
  lemma {:induction false} RestForever(b: Block, dt: real, n: nat)
    requires AtRest(b)
    requires b.data.acceleration == DefaultAcceleration
    requires 0.0 <= dt < 0.25
    ensures Iterate(b, dt, n) == b
    decreases n
  {
    if n > 0 {
      RestIsFixedPoint(b, dt);
      RestForever(Step(b, dt), dt, n - 1);
    }
  }

  /** One tick of the job over all blocks: each block is stepped on its own. */
  function StepAll(bs: seq<Block>, dt: real): (r: seq<Block>)
    ensures |r| == |bs|
    ensures forall i :: 0 <= i < |bs| ==> r[i] == Step(bs[i], dt)
    decreases |bs|
  {
    if |bs| == 0 then []
    else StepAll(bs[..|bs| - 1], dt) + [Step(bs[|bs| - 1], dt)]
  }

  /** Replacing one block changes no other block's result: the job reads and writes
      only its own record. */
  lemma Independence(bs: seq<Block>, j: nat, b: Block, dt: real)
    requires j < |bs|
    ensures forall i :: 0 <= i < |bs| && i != j ==> StepAll(bs[j := b], dt)[i] == StepAll(bs, dt)[i]
    ensures StepAll(bs[j := b], dt)[j] == Step(b, dt)
  {
  }

  /** A world in which every block rests is unchanged by a tick. */
  lemma AllRestingIsFixedPoint(bs: seq<Block>, dt: real)
    requires forall i :: 0 <= i < |bs| ==> AtRest(bs[i]) && bs[i].data.acceleration == DefaultAcceleration
    requires 0.0 <= dt < 0.25
    ensures StepAll(bs, dt) == bs
  {
    forall i | 0 <= i < |bs|
      ensures StepAll(bs, dt)[i] == bs[i]
    {
      RestIsFixedPoint(bs[i], dt);
    }
  }
}
