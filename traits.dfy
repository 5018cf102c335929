/** Names, indices and records shared by the two-phase two-component (2P-2C) box model. */
module TwoPTwoCTraits {

  // Number of primary variables, fluid phases and components per phase.
  const PrimaryVars := 2
  const NumPhases := 2
  const NumComponents := 2

  // Primary variable indices: the wetting-phase pressure and the switch variable
  // whose meaning depends on the phase state.
  const PwIndex := 0
  const SwitchIndex := 1

  // Phase indices and component indices.
  const WPhaseIndex := 0
  const NPhaseIndex := 1
  const WCompIndex := 0
  const NCompIndex := 1

  // Phase-state tags. The source stores them as plain integers, so any other
  // integer can reach the code and is rejected there.
  const NPhaseOnly := 0
  const WPhaseOnly := 1
  const BothPhases := 2

  /** True iff `tag` is one of the three recognised phase states. */
  predicate IsPhaseState(tag: int)
  {
    tag == NPhaseOnly || tag == WPhaseOnly || tag == BothPhases
  }

  /** The primary variables of one node: `[pW, switchVar]`. */
  type UnknownsVector = v: seq<real> | |v| == 2 witness [0.0, 0.0]

  /** A value per fluid phase (wetting `w`, non-wetting `n`). */
  datatype PhasesVector = PhasesVector(w: real, n: real)

  /**
   * The 2x2 mass-fraction matrix `massfrac[component][phase]`:
   * `wInW` is massfrac[WComp][WPhase], `nInW` is massfrac[NComp][WPhase],
   * `wInN` is massfrac[WComp][NPhase], `nInN` is massfrac[NComp][NPhase].
   */
  datatype MassFractions = MassFractions(wInW: real, nInW: real, wInN: real, nInN: real)

  /** The derived quantities cached for one node of a cell. */
  datatype VariableNodeData = VariableNodeData(
    satN: real,
    satW: real,
    pW: real,
    pC: real,
    pN: real,
    mobility: PhasesVector,
    density: PhasesVector,
    massfrac: MassFractions,
    phaseState: int)

  /** The per-vertex phase state of the current and of the last accepted time step. */
  datatype StaticNodeData = StaticNodeData(phaseState: int, oldPhaseState: int)

  /** The exception raised for a phase-state tag that is not recognised. */
  datatype Error = InvalidStateException(phaseState: int)

  datatype Result<T> = Success(value: T) | Failure(error: Error)

  datatype Outcome = Pass | Fail(error: Error)
}
