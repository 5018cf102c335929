/**
 * The primary-variable switch: the per-node state machine over the phase-state
 * tags, and the store of current and last accepted tags with its commit and
 * roll-back operations, as specification functions.
 */
module PhaseSwitch {
  import opened TwoPTwoCTraits
  import opened BoxProblem

  /** Relative tolerance for a phase to appear; also the distance from the boundary
      at which the switch variable is reset when a phase appears. */
  const AppearanceTolerance: real := 2e-5

  /** A saturation below this value makes its phase disappear. */
  const DisappearanceThreshold: real := -1e-5

  /** The tag and the switch variable of a node after the switch. */
  datatype SwitchResult = SwitchResult(phaseState: int, switchVar: real)

  /** The edges of the state machine: a phase appears or disappears, never both at once. */
  predicate Transition(from: int, to: int)
  {
    || (from == NPhaseOnly && to == BothPhases)
    || (from == WPhaseOnly && to == BothPhases)
    || (from == BothPhases && to == WPhaseOnly)
    || (from == BothPhases && to == NPhaseOnly)
  }

  /** The non-wetting pressure the switch evaluates the solubility limits at. */
  function SwitchPressure(phaseState: int, u: UnknownsVector, globalIdx: nat, problem: Problem): real
  {
    var satW := if phaseState == BothPhases then 1.0 - u[SwitchIndex]
                else if phaseState == WPhaseOnly then 1.0
                else 0.0;
    u[PwIndex] + problem.problemPC(satW, globalIdx)
  }

  /**
   * primaryVarSwitch_ for one node with tag `phaseState` and primary variables `u`.
   */
  function SwitchNode(phaseState: int, u: UnknownsVector, globalIdx: nat, problem: Problem,
                      temperature: real): (r: SwitchResult)
    ensures r.phaseState == phaseState ==> r.switchVar == u[SwitchIndex]
    ensures r.phaseState != phaseState ==> Transition(phaseState, r.phaseState)
    ensures IsPhaseState(phaseState) ==> IsPhaseState(r.phaseState)
  {
    var pN := SwitchPressure(phaseState, u, globalIdx, problem);
    var kept := SwitchResult(phaseState, u[SwitchIndex]);
    if phaseState == NPhaseOnly then
      // the wetting phase appears
      if u[SwitchIndex] > problem.xWN(pN, temperature) * (1.0 + AppearanceTolerance)
      then SwitchResult(BothPhases, 1.0 - AppearanceTolerance)
      else kept
    else if phaseState == WPhaseOnly then
      // the non-wetting phase appears
      if u[SwitchIndex] > problem.xAW(pN, temperature) * (1.0 + AppearanceTolerance)
      then SwitchResult(BothPhases, AppearanceTolerance)
      else kept
    else if phaseState == BothPhases then
      var satW := 1.0 - u[SwitchIndex];
      var satN := 1.0 - satW;
      if satN < DisappearanceThreshold then SwitchResult(WPhaseOnly, problem.xAW(pN, temperature))
      else if satW < DisappearanceThreshold then SwitchResult(NPhaseOnly, problem.xWN(pN, temperature))
      else kept
    else
      kept
  }

  /** Without the wetting phase, the wetting phase appears exactly when the dissolved
      water exceeds its solubility limit by the relative tolerance. */
  lemma WettingPhaseAppears(u: UnknownsVector, globalIdx: nat, problem: Problem, temperature: real)
    ensures var xWNmax := problem.xWN(SwitchPressure(NPhaseOnly, u, globalIdx, problem), temperature);
            SwitchNode(NPhaseOnly, u, globalIdx, problem, temperature)
            == if u[SwitchIndex] > xWNmax * (1.0 + AppearanceTolerance)
               then SwitchResult(BothPhases, 1.0 - AppearanceTolerance)
               else SwitchResult(NPhaseOnly, u[SwitchIndex])
  {
  }

  /** Without the non-wetting phase, it appears exactly when the dissolved air exceeds
      its solubility limit by the relative tolerance. */
  lemma NonwettingPhaseAppears(u: UnknownsVector, globalIdx: nat, problem: Problem, temperature: real)
    ensures var xAWmax := problem.xAW(SwitchPressure(WPhaseOnly, u, globalIdx, problem), temperature);
            SwitchNode(WPhaseOnly, u, globalIdx, problem, temperature)
            == if u[SwitchIndex] > xAWmax * (1.0 + AppearanceTolerance)
               then SwitchResult(BothPhases, AppearanceTolerance)
               else SwitchResult(WPhaseOnly, u[SwitchIndex])
  {
  }

  /** With both phases present, a negative non-wetting saturation beyond the threshold makes
      the non-wetting phase disappear; otherwise a negative wetting saturation makes the
      wetting phase disappear; the new switch variable is the solubility of the survivor. */
  lemma PhaseDisappears(u: UnknownsVector, globalIdx: nat, problem: Problem, temperature: real)
    ensures var pN := SwitchPressure(BothPhases, u, globalIdx, problem);
            var satN := u[SwitchIndex];
            var satW := 1.0 - u[SwitchIndex];
            SwitchNode(BothPhases, u, globalIdx, problem, temperature)
            == if satN < DisappearanceThreshold then SwitchResult(WPhaseOnly, problem.xAW(pN, temperature))
               else if satW < DisappearanceThreshold then SwitchResult(NPhaseOnly, problem.xWN(pN, temperature))
               else SwitchResult(BothPhases, u[SwitchIndex])
  {
  }

  /**
   * With both phases present, testing the wetting saturation before the non-wetting one
   * gives the same result: the two disappearance guards never hold together, since the
   * saturations sum to one.
   */
  lemma DisappearanceOrderIrrelevant(u: UnknownsVector, globalIdx: nat, problem: Problem, temperature: real)
    ensures var pN := SwitchPressure(BothPhases, u, globalIdx, problem);
            var satW := 1.0 - u[SwitchIndex];
            var satN := 1.0 - satW;
            SwitchNode(BothPhases, u, globalIdx, problem, temperature)
            == if satW < DisappearanceThreshold then SwitchResult(NPhaseOnly, problem.xWN(pN, temperature))
               else if satN < DisappearanceThreshold then SwitchResult(WPhaseOnly, problem.xAW(pN, temperature))
               else SwitchResult(BothPhases, u[SwitchIndex])
  {
    var satW := 1.0 - u[SwitchIndex];
    assert !(1.0 - satW < DisappearanceThreshold && satW < DisappearanceThreshold);
  }

  /** A tag the switch does not recognise is left as it is, with its variable. */
  lemma UnknownTagIsKept(phaseState: int, u: UnknownsVector, globalIdx: nat, problem: Problem,
                         temperature: real)
    requires !IsPhaseState(phaseState)
    ensures SwitchNode(phaseState, u, globalIdx, problem, temperature) == SwitchResult(phaseState, u[SwitchIndex])
  {
  }

  /**
   * A node that leaves the switch in BothPhases, with its new switch variable, is left
   * alone by the next switch: the reset values after an appearance lie inside the band
   * where neither saturation is below the disappearance threshold.
   */
  lemma {:induction false} SwitchSettlesInBothPhases(phaseState: int, u: UnknownsVector, globalIdx: nat,
                                                     problem: Problem, temperature: real)
    requires SwitchNode(phaseState, u, globalIdx, problem, temperature).phaseState == BothPhases
    ensures var r := SwitchNode(phaseState, u, globalIdx, problem, temperature);
            SwitchNode(BothPhases, [u[PwIndex], r.switchVar], globalIdx, problem, temperature) == r
  {
    var r := SwitchNode(phaseState, u, globalIdx, problem, temperature);
    assert r.switchVar == u[SwitchIndex] || r.switchVar == 1.0 - AppearanceTolerance
        || r.switchVar == AppearanceTolerance;
    assert DisappearanceThreshold <= r.switchVar && DisappearanceThreshold <= 1.0 - r.switchVar;
  }

  /** A dissolved-water fraction 3e-5 above a positive solubility limit makes the wetting
      phase appear, with the switch variable reset to exactly 1 - 2e-5. */
  lemma AppearanceExample(u: UnknownsVector, globalIdx: nat, problem: Problem, temperature: real)
    requires var xWNmax := problem.xWN(SwitchPressure(NPhaseOnly, u, globalIdx, problem), temperature);
             0.0 < xWNmax && u[SwitchIndex] == xWNmax * (1.0 + 3e-5)
    ensures SwitchNode(NPhaseOnly, u, globalIdx, problem, temperature) == SwitchResult(BothPhases, 1.0 - 2e-5)
  {
  }

  // ---------------------------------------------------------------------------
  // The phase-state store

  /** `NodeSwitches` holds when the switch changes the tag of node `n`. */
  predicate NodeSwitches(states: seq<StaticNodeData>, sol: seq<UnknownsVector>, n: nat,
                         problem: Problem, temperature: real)
    requires n < |states| && n < |sol|
  {
    SwitchNode(states[n].phaseState, sol[n], n, problem, temperature).phaseState != states[n].phaseState
  }

  /** The tags after a switch pass over every node (node `n` has global index `n`). */
  function SwitchedStates(states: seq<StaticNodeData>, sol: seq<UnknownsVector>, problem: Problem,
                          temperature: real): (r: seq<StaticNodeData>)
    requires |sol| == |states|
    ensures |r| == |states|
  {
    seq(|states|, n requires 0 <= n < |states| =>
      states[n].(phaseState := SwitchNode(states[n].phaseState, sol[n], n, problem, temperature).phaseState))
  }

  /** The global solution after a switch pass over every node. */
  function SwitchedSolution(states: seq<StaticNodeData>, sol: seq<UnknownsVector>, problem: Problem,
                            temperature: real): (r: seq<UnknownsVector>)
    requires |sol| == |states|
    ensures |r| == |sol|
  {
    seq(|sol|, n requires 0 <= n < |sol| =>
      sol[n][SwitchIndex := SwitchNode(states[n].phaseState, sol[n], n, problem, temperature).switchVar])
  }

  /** The "switched" flag a pass sets: some node changed its tag. */
  predicate AnySwitched(states: seq<StaticNodeData>, sol: seq<UnknownsVector>, problem: Problem,
                        temperature: real)
    requires |sol| == |states|
  {
    exists n :: 0 <= n < |states| && NodeSwitches(states, sol, n, problem, temperature)
  }

  /** A pass sets the flag exactly when it changes the store. */
  lemma AnySwitchedIffStoreChanges(states: seq<StaticNodeData>, sol: seq<UnknownsVector>,
                                   problem: Problem, temperature: real)
    requires |sol| == |states|
    ensures AnySwitched(states, sol, problem, temperature)
            <==> SwitchedStates(states, sol, problem, temperature) != states
  {
    var r := SwitchedStates(states, sol, problem, temperature);
    if AnySwitched(states, sol, problem, temperature) {
      var n :| 0 <= n < |states| && NodeSwitches(states, sol, n, problem, temperature);
      assert r[n].phaseState != states[n].phaseState;
    } else {
      forall n | 0 <= n < |states|
        ensures r[n] == states[n]
      {
        assert !NodeSwitches(states, sol, n, problem, temperature);
      }
    }
  }

  /** updateOldPhaseState: every node's accepted tag becomes its current tag. */
  function Committed(states: seq<StaticNodeData>): (r: seq<StaticNodeData>)
    ensures |r| == |states|
    ensures forall n :: 0 <= n < |r| ==> r[n].phaseState == states[n].phaseState
    ensures forall n :: 0 <= n < |r| ==> r[n].oldPhaseState == states[n].phaseState
  {
    seq(|states|, n requires 0 <= n < |states| => states[n].(oldPhaseState := states[n].phaseState))
  }

  /** resetPhaseState: every node's current tag returns to its accepted tag. */
  function RolledBack(states: seq<StaticNodeData>): (r: seq<StaticNodeData>)
    ensures |r| == |states|
    ensures forall n :: 0 <= n < |r| ==> r[n].oldPhaseState == states[n].oldPhaseState
    ensures forall n :: 0 <= n < |r| ==> r[n].phaseState == states[n].oldPhaseState
  {
    seq(|states|, n requires 0 <= n < |states| => states[n].(phaseState := states[n].oldPhaseState))
  }

  /** Committing twice is committing once; rolling back twice is rolling back once. */
  lemma CommitAndRollbackIdempotent(states: seq<StaticNodeData>)
    ensures Committed(Committed(states)) == Committed(states)
    ensures RolledBack(RolledBack(states)) == RolledBack(states)
  {
  }

  /** Rolling back right after a commit keeps exactly the committed tags. */
  lemma RollbackAfterCommit(states: seq<StaticNodeData>)
    ensures RolledBack(Committed(states)) == Committed(states)
  {
  }

  /**
   * When one switch pass follows a commit, a roll-back returns every node to the
   * committed tags: the pass changes only the current tags.
   */
  lemma {:induction false} RollbackUndoesSwitchPass(states: seq<StaticNodeData>, sol: seq<UnknownsVector>,
                                                    problem: Problem, temperature: real)
    requires |sol| == |states|
    ensures RolledBack(SwitchedStates(Committed(states), sol, problem, temperature)) == Committed(states)
  {
    var c := Committed(states);
    var s := SwitchedStates(c, sol, problem, temperature);
    assert forall n :: 0 <= n < |s| ==> s[n].oldPhaseState == c[n].oldPhaseState;
  }

  /** A pass that switches no node changes neither the tags nor the solution. */
  lemma {:induction false} QuietPassIsIdentity(states: seq<StaticNodeData>, sol: seq<UnknownsVector>,
                                               problem: Problem, temperature: real)
    requires |sol| == |states|
    requires !AnySwitched(states, sol, problem, temperature)
    ensures SwitchedStates(states, sol, problem, temperature) == states
    ensures SwitchedSolution(states, sol, problem, temperature) == sol
  {
    forall n | 0 <= n < |states|
      ensures SwitchedSolution(states, sol, problem, temperature)[n] == sol[n]
      ensures SwitchedStates(states, sol, problem, temperature)[n] == states[n]
    {
      assert !NodeSwitches(states, sol, n, problem, temperature);
    }
  }

  /** A pass keeps every node's tag among the recognised ones. */
  lemma SwitchPassKeepsTagsRecognised(states: seq<StaticNodeData>, sol: seq<UnknownsVector>,
                                      problem: Problem, temperature: real)
    requires |sol| == |states|
    requires forall n :: 0 <= n < |states| ==> IsPhaseState(states[n].phaseState)
    ensures forall n :: 0 <= n < |states| ==>
              IsPhaseState(SwitchedStates(states, sol, problem, temperature)[n].phaseState)
  {
  }
}
