/** The one-shot guard around generation (`OnUpdate`): the process-wide
    `initialized` flag made an explicit state. */
module Guard {
  import opened Generator
  import opened Generation

  datatype GuardState = GuardState(initialized: bool)

  /** State before the first update of a session. */
  const Fresh: GuardState := GuardState(false)

  /** What one update does: reports that it already ran, reports that the entity
      references are missing, or runs the generator. */
  datatype Outcome = SkippedAlreadyInitialized | MissingReferences | Generated

  datatype UpdateResult = UpdateResult(state: GuardState, outcome: Outcome)

  /** One update; `hasRefs` says whether the entity references singleton exists. */
  function Update(g: GuardState, hasRefs: bool): (r: UpdateResult)
    ensures r.outcome == Generated <==> !g.initialized && hasRefs
    ensures r.state.initialized <==> g.initialized || hasRefs
    ensures g.initialized ==> r.state == g && r.outcome == SkippedAlreadyInitialized
    ensures !g.initialized && !hasRefs ==> r.state == g && r.outcome == MissingReferences
  {
    if g.initialized then UpdateResult(g, SkippedAlreadyInitialized)
    else if !hasRefs then UpdateResult(g, MissingReferences)
    else UpdateResult(GuardState(true), Generated)
  }

  /** Outcomes of a series of updates; `refs[i]` says whether the references exist at
      the i-th update. */
  function Run(g: GuardState, refs: seq<bool>): (os: seq<Outcome>)
    ensures |os| == |refs|
    decreases |refs|
  {
    if |refs| == 0 then []
    else
      var r := Update(g, refs[0]);
      [r.outcome] + Run(r.state, refs[1..])
  }

  function CountGenerated(os: seq<Outcome>): nat
    decreases |os|
  {
    if |os| == 0 then 0
    else (if os[0] == Generated then 1 else 0) + CountGenerated(os[1..])
  }

  /** Once initialized, every later update only reports the skip. */
  lemma {:induction false} InitializedOnlySkips(g: GuardState, refs: seq<bool>)
    requires g.initialized
    ensures forall i :: 0 <= i < |refs| ==> Run(g, refs)[i] == SkippedAlreadyInitialized
    ensures CountGenerated(Run(g, refs)) == 0
    decreases |refs|
  {
    if |refs| > 0 {
      InitializedOnlySkips(g, refs[1..]);
    }
  }

  /** Generation runs at most once in any series of updates, and exactly once when the
      guard starts fresh and the references are present at some update. */
  lemma {:induction false} GeneratesAtMostOnce(g: GuardState, refs: seq<bool>)
    ensures CountGenerated(Run(g, refs)) == if !g.initialized && true in refs then 1 else 0
    decreases |refs|
  {
    if |refs| > 0 {
      var r := Update(g, refs[0]);
      if r.state.initialized {
        InitializedOnlySkips(r.state, refs[1..]);
      } else {
        GeneratesAtMostOnce(r.state, refs[1..]);
        assert true in refs <==> true in refs[1..] by {
          assert refs == [refs[0]] + refs[1..];
        }
      }
    }
  }

  /** Starting fresh, generation happens at exactly the first update that finds the
      references; updates before it report them missing and leave the guard unset. */
  lemma {:induction false} GeneratesAtFirstReferences(g: GuardState, refs: seq<bool>, i: nat)
    requires g == Fresh
    requires i < |refs|
    ensures Run(g, refs)[i] == Generated <==> refs[i] && forall j :: 0 <= j < i ==> !refs[j]
    ensures (forall j :: 0 <= j < i ==> !refs[j]) && !refs[i] ==> Run(g, refs)[i] == MissingReferences
    decreases i
  {
    var r := Update(g, refs[0]);
    if i > 0 {
      if refs[0] {
        InitializedOnlySkips(r.state, refs[1..]);
        assert Run(g, refs)[i] == Run(r.state, refs[1..])[i - 1];
      } else {
        GeneratesAtFirstReferences(r.state, refs[1..], i - 1);
        assert Run(g, refs)[i] == Run(r.state, refs[1..])[i - 1];
        assert forall j :: 1 <= j <= i ==> refs[j] == refs[1..][j - 1];
      }
    }
  }

  /** One update of the generator system: the guard decides, and only a `Generated`
      outcome runs the generation pass. */
  method OnUpdate(g: GuardState, hasRefs: bool, draws: seq<BuildingDraws>)
    returns (g': GuardState, outcome: Outcome, world: seq<Building>, blockCount: int, generatedCount: nat)
    requires |draws| == NumBuildings
    requires forall i :: 0 <= i < |draws| ==> ValidDraws(draws[i])
    ensures g'.initialized <==> g.initialized || hasRefs
    ensures outcome == Generated <==> !g.initialized && hasRefs
    ensures outcome == Generated ==>
              && |world| == NumBuildings
              && (forall i :: 0 <= i < |world| ==> world[i] == BuildingOf(draws[i]))
              && blockCount == TotalLogged(world)
              && generatedCount == TotalBlocks(world)
    ensures outcome != Generated ==> world == [] && blockCount == 0 && generatedCount == 0
  {
    var r := Update(g, hasRefs);
    g', outcome := r.state, r.outcome;
    world, blockCount, generatedCount := [], 0, 0;
    if outcome == Generated {
      world, blockCount, generatedCount := GenerateWorld(draws);
    }
  }
}
