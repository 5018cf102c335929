/**
 * The variable-update function: from a node's primary variables and its
 * phase-state tag to the cached node data (saturations, pressures, mass
 * fractions, densities and mobilities).
 */
module NodeData {
  import opened TwoPTwoCTraits
  import opened BoxProblem

  /** Saturations sum to one and each phase's two mass fractions sum to one. */
  predicate Consistent(d: VariableNodeData)
  {
    && d.satW + d.satN == 1.0
    && d.massfrac.wInW + d.massfrac.nInW == 1.0
    && d.massfrac.wInN + d.massfrac.nInN == 1.0
  }

  /** The second primary variable's meaning under each phase state, read back from node data. */
  function PrimaryVarsOf(d: VariableNodeData): UnknownsVector
  {
    [d.pW,
     if d.phaseState == BothPhases then d.satN
     else if d.phaseState == WPhaseOnly then d.massfrac.nInW
     else d.massfrac.wInN]
  }

  /**
   * updateVarNodeData_: the node data for primary variables `nodeSol` under the
   * tag `phaseState`, or the InvalidStateException raised for any other tag.
   */
  function UpdateVarNodeData(nodeSol: UnknownsVector, phaseState: int, site: Site,
                             problem: Problem, temperature: real): (r: Result<VariableNodeData>)
    ensures r.Success? <==> IsPhaseState(phaseState)
    ensures r.Failure? ==> r.error == InvalidStateException(phaseState)
    ensures r.Success? ==>
              && Consistent(r.value)
              && r.value.phaseState == phaseState
              && PrimaryVarsOf(r.value) == nodeSol
              && r.value.satN == (if phaseState == BothPhases then nodeSol[SwitchIndex]
                                  else if phaseState == WPhaseOnly then 0.0 else 1.0)
              && r.value.pC == problem.materialPC(r.value.satW, site)
              && r.value.pN == r.value.pW + r.value.pC
    ensures r.Success? ==>
              var d := r.value;
              && d.density == PhasesVector(problem.densityW(temperature, d.pW, d.massfrac.nInW),
                                           problem.densityN(temperature, d.pN, d.massfrac.wInN))
              && d.mobility == PhasesVector(problem.mobW(d.satW, site, temperature, d.pW),
                                            problem.mobN(d.satN, site, temperature, d.pN))
    ensures r.Success? && phaseState == BothPhases ==>
              && r.value.massfrac.nInW == problem.xAW(r.value.pN, temperature)
              && r.value.massfrac.wInN == problem.xWN(r.value.pN, temperature)
    ensures r.Success? && phaseState == WPhaseOnly ==>
              r.value.massfrac.wInN == 0.0 && r.value.massfrac.nInW == nodeSol[SwitchIndex]
    ensures r.Success? && phaseState == NPhaseOnly ==>
              r.value.massfrac.wInN == nodeSol[SwitchIndex] && r.value.massfrac.nInW == 0.0
  {
    if !IsPhaseState(phaseState) then
      Failure(InvalidStateException(phaseState))
    else
      var pW := nodeSol[PwIndex];
      var satN := if phaseState == BothPhases then nodeSol[SwitchIndex]
                  else if phaseState == WPhaseOnly then 0.0
                  else 1.0;
      var satW := 1.0 - satN;
      var pC := problem.materialPC(satW, site);
      var pN := pW + pC;
      // solubilities of the components in the phases
      var nInW := if phaseState == BothPhases then problem.xAW(pN, temperature)
                  else if phaseState == WPhaseOnly then nodeSol[SwitchIndex]
                  else 0.0;
      var wInN := if phaseState == BothPhases then problem.xWN(pN, temperature)
                  else if phaseState == WPhaseOnly then 0.0
                  else nodeSol[SwitchIndex];
      var massfrac := MassFractions(1.0 - nInW, nInW, wInN, 1.0 - wInN);
      var density := PhasesVector(problem.densityW(temperature, pW, nInW),
                                  problem.densityN(temperature, pN, wInN));
      var mobility := PhasesVector(problem.mobW(satW, site, temperature, pW),
                                   problem.mobN(satN, site, temperature, pN));
      Success(VariableNodeData(satN, satW, pW, pC, pN, mobility, density, massfrac, phaseState))
  }

  /**
   * What the cache entry `d` holds after updateVarNodeData_ has written into it:
   * the new node data, or, when the tag is rejected, the old entry whose `pW`
   * was already overwritten before the exception was raised.
   */
  function Written(d: VariableNodeData, nodeSol: UnknownsVector, phaseState: int, site: Site,
                   problem: Problem, temperature: real): (r: VariableNodeData)
    ensures Consistent(d) ==> Consistent(r)
    ensures r.pW == nodeSol[PwIndex]
    ensures IsPhaseState(phaseState) ==> PrimaryVarsOf(r) == nodeSol && r.phaseState == phaseState
    ensures !IsPhaseState(phaseState) ==> r == d.(pW := nodeSol[PwIndex])
  {
    match UpdateVarNodeData(nodeSol, phaseState, site, problem, temperature)
    case Success(v) => v
    case Failure(_) => d.(pW := nodeSol[PwIndex])
  }

  /** The index of the first unrecognised tag of `tags`, or `|tags|` when all are recognised. */
  function FirstInvalid(tags: seq<int>): (r: nat)
    ensures r <= |tags|
    ensures forall k :: 0 <= k < r ==> IsPhaseState(tags[k])
    ensures r < |tags| ==> !IsPhaseState(tags[r])
  {
    if tags == [] then 0
    else if !IsPhaseState(tags[0]) then 0
    else 1 + FirstInvalid(tags[1..])
  }

  /**
   * The cached state under BothPhases with a linear capillary-pressure law
   * pC(Sw) = 1000 (1 - Sw): pW = 1e5 and Sn = 0.3 give Sw = 0.7, pC = 300 and
   * pN = 1e5 + 300 (the law is evaluated at the wetting saturation).
   */
  lemma LinearCapillaryPressureExample(problem: Problem, site: Site, temperature: real)
    requires forall s :: problem.materialPC(s, site) == 1000.0 * (1.0 - s)
    ensures var r := UpdateVarNodeData([1e5, 0.3], BothPhases, site, problem, temperature);
            r.Success? && r.value.pC == 300.0 && r.value.pN == 1e5 + 300.0
  {
    var r := UpdateVarNodeData([1e5, 0.3], BothPhases, site, problem, temperature);
    assert r.value.satW == 0.7;
    assert problem.materialPC(0.7, site) == 1000.0 * (1.0 - 0.7);
  }
}
