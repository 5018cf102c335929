/**
 * The 2P-2C box model: what the end of a Newton update does to the phase-state
 * store of the local Jacobian. An accepted step commits the current tags; a
 * rejected step returns to the accepted tags and runs the switch pass again over
 * the current solution.
 */
module BoxModel {
  import opened TwoPTwoCTraits
  import opened BoxProblem
  import opened PhaseSwitch
  import opened BoxJacobian

  /**
   * The outcome of a rejected step depends on the accepted tags only: two stores that
   * agree on them give the same tags, the same solution and the same flag, whatever
   * the current tags of the rejected step were.
   */
  lemma FailedTryForgetsRejectedTags(s1: seq<StaticNodeData>, s2: seq<StaticNodeData>,
                                     sol: seq<UnknownsVector>, problem: Problem)
    requires |s1| == |s2| == |sol|
    requires forall n :: 0 <= n < |s1| ==> s1[n].oldPhaseState == s2[n].oldPhaseState
    ensures var t := IsothermalTemperature;
            && SwitchedStates(RolledBack(s1), sol, problem, t) == SwitchedStates(RolledBack(s2), sol, problem, t)
            && SwitchedSolution(RolledBack(s1), sol, problem, t) == SwitchedSolution(RolledBack(s2), sol, problem, t)
            && AnySwitched(RolledBack(s1), sol, problem, t) == AnySwitched(RolledBack(s2), sol, problem, t)
  {
    var r1, r2 := RolledBack(s1), RolledBack(s2);
    forall n | 0 <= n < |s1|
      ensures r1[n].phaseState == r2[n].phaseState
    {
    }
    assert r1 == r2;
  }

  /** A rejected step leaves every accepted tag as it was. */
  lemma FailedTryKeepsAcceptedTags(states: seq<StaticNodeData>, sol: seq<UnknownsVector>, problem: Problem)
    requires |states| == |sol|
    ensures var r := SwitchedStates(RolledBack(states), sol, problem, IsothermalTemperature);
            forall n :: 0 <= n < |r| ==> r[n].oldPhaseState == states[n].oldPhaseState
  {
  }

  class TwoPTwoCBoxModel {
    /** The local Jacobian, which owns the phase-state store. */
    const jacobian: TwoPTwoCBoxJacobian
    /** The global solution being iterated on and the one of the last accepted step. */
    const currentSolution: array<UnknownsVector>
    const previousSolution: array<UnknownsVector>

    ghost predicate Valid()
      reads this, jacobian, jacobian.curSolCache, jacobian.prevSolCache
    {
      && jacobian.Valid()
      && currentSolution != previousSolution
      && currentSolution.Length == |jacobian.staticNodeDat|
      && previousSolution.Length == |jacobian.staticNodeDat|
    }

    /**
     * A model for `problem` whose cells have at most `maxNodes` nodes, with both global
     * solutions set to `initial` and every vertex tagged zero.
     */
    constructor(problem: Problem, maxNodes: nat, initial: seq<UnknownsVector>)
      requires problem.WellFormed() && |initial| == problem.numNodes
      ensures Valid()
      ensures jacobian.problem == problem && fresh(jacobian)
      ensures currentSolution[..] == initial && previousSolution[..] == initial
      ensures !jacobian.switchFlag
    {
      jacobian := new TwoPTwoCBoxJacobian(problem, maxNodes);
      currentSolution := new UnknownsVector[|initial|](i requires 0 <= i < |initial| => initial[i]);
      previousSolution := new UnknownsVector[|initial|](i requires 0 <= i < |initial| => initial[i]);
    }

    /**
     * updateFailedTry: clears the flag, returns every vertex to its accepted tag and runs
     * the switch pass over the current solution from there. The accepted tags and the
     * previous solution are not changed.
     */
    method UpdateFailedTry()
      requires Valid()
      modifies jacobian`staticNodeDat, jacobian`switchFlag, currentSolution
      ensures Valid()
      ensures var states := RolledBack(old(jacobian.staticNodeDat));
              var sol := old(currentSolution[..]);
              && jacobian.staticNodeDat == SwitchedStates(states, sol, jacobian.problem, IsothermalTemperature)
              && currentSolution[..] == SwitchedSolution(states, sol, jacobian.problem, IsothermalTemperature)
              && jacobian.switchFlag == AnySwitched(states, sol, jacobian.problem, IsothermalTemperature)
    {
      jacobian.SetSwitched(false);
      jacobian.ResetPhaseState();
      jacobian.UpdateStaticData(currentSolution, previousSolution);
    }

    /** updateSuccessful: commits the current tag of every vertex and clears the flag. */
    method UpdateSuccessful()
      requires Valid()
      modifies jacobian`staticNodeDat, jacobian`switchFlag
      ensures Valid()
      ensures jacobian.staticNodeDat == Committed(old(jacobian.staticNodeDat))
      ensures !jacobian.switchFlag
    {
      jacobian.UpdateOldPhaseState();
      jacobian.SetSwitched(false);
    }

    /** switched: whether the last switch pass of the local Jacobian changed some tag. */
    method Switched() returns (yes: bool)
      ensures yes == jacobian.switchFlag
    {
      yes := jacobian.Switched();
    }
  }
}
