# 2P-2C box model: local Jacobian and phase-state switch

A Dafny model of the isothermal two-phase, two-component (2P-2C) box model of
DuMuX (`TwoPTwoCBoxJacobianBase`, its isothermal implementation
`TwoPTwoCBoxJacobian` and the `TwoPTwoCBoxModel` update hooks). The model
covers four parts:

- **Node data.** `updateVarNodeData_` turns the primary variables
  `[pW, switchVar]` of a node and its phase-state tag (`NPhaseOnly`,
  `WPhaseOnly`, `BothPhases`) into cached node data: saturations, pressures,
  mass fractions, densities and mobilities.
- **Cell caches and perturbation.** `updateCellCache_` and `setParams` fill
  the caches of a cell. `deflectCurSolution` / `restoreCurSolution` perturb one
  primary variable for the finite-difference Jacobian and restore it.
- **Local residual terms.** `localRate` gives the storage term. `fluxRate`
  gives the advective flux: finite-element gradients, gravity correction, the
  harmonic-mean permeability of `harmonicMeanK_`, and upwinding by the sign of
  the Darcy velocity.
- **Phase-state store.** `staticNodeDat_` holds the current and the accepted
  tag of every vertex. The primary-variable switch (`primaryVarSwitch_`,
  `updateStaticData`), the commit and roll-back (`updateOldPhaseState`,
  `resetPhaseState`) and the model's `updateSuccessful` / `updateFailedTry`
  act on it.

Layout, one module per file:

| file | module | contents |
|---|---|---|
| `traits.dfy` | `TwoPTwoCTraits` | indices, tags, node records, the exception |
| `problem.dfy` | `BoxProblem` | constitutive laws as function-valued fields of `Problem`; cell and face geometry |
| `node_data.dfy` | `NodeData` | `updateVarNodeData_` as a function returning `Result` |
| `phase_switch.dfy` | `PhaseSwitch` | the switch state machine; store, commit and roll-back as functions on sequences |
| `permeability.dfy` | `Permeability` | `harmonicMeanK_` on `array2<real>` and its entry-wise specification |
| `local_residual.dfy` | `LocalResidual` | storage and flux algebra as functions of the cached node data |
| `box_jacobian.dfy` | `BoxJacobian` | class `TwoPTwoCBoxJacobian` with the fields the source updates in place |
| `box_model.dfy` | `BoxModel` | class `TwoPTwoCBoxModel` |

Modelling choices:
- `Scalar` is `real`.
- The constitutive laws are uninterpreted parameters of the model. These are
  `materialLaw().pC/mobW/mobN`, `multicomp().xAW/xWN`, the phase densities,
  `problem.pC`, porosity, `soil().K`, gravity and the initial phase state.
- The cell geometry (node indices and, per face, `i`, `j`, `normal` and
  `grad[k]`) is supplied as values.
- A vertex's global index is its position in the store.
- The exception `Dune::InvalidStateException` is modelled as the `Failure` /
  `Fail` value of a `Result` / `Outcome`. Because `updateVarNodeData_` writes
  `pW` before it throws (lines 190-194), the cache entry of a rejected node keeps
  that write (`NodeData.Written`).
- The code evaluates the capillary-pressure law at the wetting saturation
  (line 197). `NodeData.LinearCapillaryPressureExample` pins this down: with
  `pC(Sw) = 1000 (1 - Sw)` and `Sn = 0.3`, `pC` is 300.
- A positive projected Darcy velocity makes node `j` upstream (lines 466-471),
  and the model follows this.
- The `updateCellCache_` loop is `BoxJacobian.FillCache`. It runs over the
  tags the cell's nodes have when the fill starts, which are the ones the
  source reads, since the loop does not write the store.


## Model

| member | source | states |
|---|---|---|
| NodeData.UpdateVarNodeData | dumux/new_models/2p2c/2p2cboxmodel.hh:178-220 | Succeeds iff the tag is one of the three phase states; otherwise it fails with `InvalidStateException` of that tag. On success: the saturations sum to one and each phase's fractions sum to one. `satN` is `switchVar`, 0 or 1 by tag, and the primary variables read back from the data equal `nodeSol`. `pC` is the law at `satW`, `pN = pW + pC`, and the cached tag is the argument. Each phase's density is its law at that phase's pressure and dissolved fraction (`densityW(T, pW, nInW)`, `densityN(T, pN, wInN)`). Each mobility is its law at that phase's saturation and pressure. The cross fractions are `xAW(pN,T)`/`xWN(pN,T)` under BothPhases, `(switchVar, 0)` under WPhaseOnly and `(0, switchVar)` under NPhaseOnly |
| NodeData.Written | dumux/new_models/2p2c/2p2cboxmodel.hh:186-194 | After the in-place update the entry's `pW` is the node's pressure. For a recognised tag the entry reads back as `nodeSol` with that tag. For an unrecognised tag only `pW` has changed. Consistency of the entry is kept |
| NodeData.FirstInvalid | dumux/new_models/2p2c/2p2cboxmodel.hh:934-945 | The index where the fill of a cell stops: every earlier tag is recognised and the tag at the index is not (or it is the number of nodes) |
| NodeData.LinearCapillaryPressureExample | dumux/new_models/2p2c/2p2cboxmodel.hh:190-200 | With a linear law, `pW = 1e5` and `Sn = 0.3` give `pC = 300` and `pN = 1e5 + 300` |
| PhaseSwitch.SwitchPressure | dumux/new_models/2p2c/2p2cboxmodel.hh:959-968 | The non-wetting pressure the switch evaluates the solubility limits at: `pW` plus `problem.pC` of the wetting saturation the tag implies (`1 - switchVar`, 1 or 0) |
| PhaseSwitch.SwitchNode | dumux/new_models/2p2c/2p2cboxmodel.hh:951-1022 | A kept tag keeps its switch variable. A changed tag moves along one edge of the state machine (a phase appears or disappears). A recognised tag stays recognised |
| PhaseSwitch.WettingPhaseAppears | dumux/new_models/2p2c/2p2cboxmodel.hh:970-982 | Under NPhaseOnly the tag becomes BothPhases with `switchVar = 1 - 2e-5` exactly when `xWN > xWNmax (1 + 2e-5)`; otherwise tag and variable are unchanged |
| PhaseSwitch.NonwettingPhaseAppears | dumux/new_models/2p2c/2p2cboxmodel.hh:984-996 | Under WPhaseOnly the tag becomes BothPhases with `switchVar = 2e-5` exactly when `xAW > xAWmax (1 + 2e-5)`; otherwise unchanged |
| PhaseSwitch.PhaseDisappears | dumux/new_models/2p2c/2p2cboxmodel.hh:998-1017 | Under BothPhases: `satN < -1e-5` gives WPhaseOnly with `xAW(pN,T)`. Otherwise `satW < -1e-5` gives NPhaseOnly with `xWN(pN,T)`. Otherwise nothing changes |
| PhaseSwitch.DisappearanceOrderIrrelevant | dumux/new_models/2p2c/2p2cboxmodel.hh:998-1017 | Under BothPhases, testing `satW` before `satN` gives the same switch result, since the two disappearance guards never hold together |
| PhaseSwitch.UnknownTagIsKept | dumux/new_models/2p2c/2p2cboxmodel.hh:955-1021 | An unrecognised tag is left as it is, with its switch variable |
| PhaseSwitch.SwitchSettlesInBothPhases | dumux/new_models/2p2c/2p2cboxmodel.hh:970-1017 | A node that ends in BothPhases, with its new switch variable, is left unchanged by a second switch |
| PhaseSwitch.AppearanceExample | dumux/new_models/2p2c/2p2cboxmodel.hh:970-982 | A dissolved-water fraction `xWNmax (1 + 3e-5)` makes the wetting phase appear with `switchVar = 1 - 2e-5` |
| PhaseSwitch.SwitchedStates | dumux/new_models/2p2c/2p2cboxmodel.hh:795-812 | The store after a switch pass: each vertex's current tag is the one `SwitchNode` gives for its own tag and unknowns; the length is kept |
| PhaseSwitch.SwitchedSolution | dumux/new_models/2p2c/2p2cboxmodel.hh:795-812 | The global solution after a switch pass: each vertex's switch variable is the one `SwitchNode` gives; the length is kept |
| PhaseSwitch.AnySwitched | dumux/new_models/2p2c/2p2cboxmodel.hh:795-812 | The flag a pass sets: some vertex's tag changes |
| PhaseSwitch.AnySwitchedIffStoreChanges | dumux/new_models/2p2c/2p2cboxmodel.hh:795-812 | A pass sets the switch flag exactly when it changes the store |
| PhaseSwitch.Committed | dumux/new_models/2p2c/2p2cboxmodel.hh:817-822 | Every vertex keeps its current tag, and its accepted tag becomes that current tag |
| PhaseSwitch.RolledBack | dumux/new_models/2p2c/2p2cboxmodel.hh:827-832 | Every vertex keeps its accepted tag, and its current tag becomes that accepted tag |
| PhaseSwitch.CommitAndRollbackIdempotent | dumux/new_models/2p2c/2p2cboxmodel.hh:817-832 | Committing twice equals committing once; rolling back twice equals rolling back once |
| PhaseSwitch.RollbackAfterCommit | dumux/new_models/2p2c/2p2cboxmodel.hh:817-832 | A roll-back right after a commit changes nothing |
| PhaseSwitch.RollbackUndoesSwitchPass | dumux/new_models/2p2c/2p2cboxmodel.hh:795-832 | Commit, then a switch pass, then roll-back gives the committed store back |
| PhaseSwitch.QuietPassIsIdentity | dumux/new_models/2p2c/2p2cboxmodel.hh:795-812 | A pass in which no vertex switches changes neither the tags nor the solution |
| PhaseSwitch.SwitchPassKeepsTagsRecognised | dumux/new_models/2p2c/2p2cboxmodel.hh:795-812 | A pass over recognised tags leaves only recognised tags |
| Permeability.HarmonicBetween | dumux/new_models/2p2c/2p2cboxmodel.hh:1033 | For positive arguments the harmonic mean lies between their minimum and maximum |
| Permeability.RegularisedHarmonicMean | dumux/new_models/2p2c/2p2cboxmodel.hh:1028-1033 | For non-negative entries `2/(1/(a+eps)+1/(b+eps))` lies between `min(a,b)` and `max(a,b) + eps`, with `eps = 1e-20` |
| Permeability.HarmonicEntry | dumux/new_models/2p2c/2p2cboxmodel.hh:1032-1036 | An entry on which both tensors agree is kept; the face value of non-negative entries lies between them (up to `eps`) |
| Permeability.HarmonicEntrySymmetric | dumux/new_models/2p2c/2p2cboxmodel.hh:1032-1036 | The face value of an entry does not depend on which node is `i` |
| Permeability.HarmonicEntryExample | dumux/new_models/2p2c/2p2cboxmodel.hh:1033 | `Ki = 4`, `Kj = 1` give a face value within `2 eps` above 1.6 |
| Permeability.HarmonicMeanK | dumux/new_models/2p2c/2p2cboxmodel.hh:1026-1037 | Every entry of `Ki` becomes the face value of its old value and `Kj`'s; equal entries are unchanged |
| LocalResidual.Storage | dumux/new_models/2p2c/2p2cboxmodel.hh:350-366 | For consistent node data the stored water plus the stored air is `porosity (rhoW Sw + rhoN Sn)` |
| LocalResidual.StorageWettingOnly | dumux/new_models/2p2c/2p2cboxmodel.hh:350-366 | Under WPhaseOnly the stored air is `porosity rhoW switchVar` and the stored water `porosity rhoW (1 - switchVar)` |
| LocalResidual.StorageNonwettingOnly | dumux/new_models/2p2c/2p2cboxmodel.hh:350-366 | Under NPhaseOnly the stored water is `porosity rhoN switchVar` and the stored air `porosity rhoN (1 - switchVar)` |
| LocalResidual.FeGradientOfUniformField | dumux/new_models/2p2c/2p2cboxmodel.hh:408-429 | A quantity equal to `c` at every node has gradient `c` times the sum of the shape-function gradients |
| LocalResidual.FeGradient | dumux/new_models/2p2c/2p2cboxmodel.hh:404-433 | The finite-element gradient of a nodal quantity over the first `n` nodes: the sum of the shape-function gradients weighted by the nodes' values; it has the world dimension |
| LocalResidual.PotentialGradient | dumux/new_models/2p2c/2p2cboxmodel.hh:435-442 | The pressure gradient of a phase minus gravity times node `i`'s density of that phase; it has the world dimension |
| LocalResidual.EffectivePermeability | dumux/new_models/2p2c/2p2cboxmodel.hh:444-448 | The face permeability, the entry-wise `HarmonicEntry` of the tensors at the two nodes; a square tensor of the world dimension |
| LocalResidual.DarcyOut | dumux/new_models/2p2c/2p2cboxmodel.hh:450-459 | The Darcy velocity `K grad` projected on the face normal |
| LocalResidual.FaceVelocity | dumux/new_models/2p2c/2p2cboxmodel.hh:435-459 | The projected Darcy velocity of a phase through a face: `DarcyOut` of the face permeability and that phase's potential gradient |
| LocalResidual.Upstream | dumux/new_models/2p2c/2p2cboxmodel.hh:462-471 | The node a phase carries values from, one of the face's two nodes (`j` when its projected velocity is positive, `i` otherwise) |
| LocalResidual.Downstream | dumux/new_models/2p2c/2p2cboxmodel.hh:462-471 | The other node of the face: `i` when the upstream node is `j`, and `j` when it is `i` |
| LocalResidual.AdvectiveFlux | dumux/new_models/2p2c/2p2cboxmodel.hh:474-530 | The two component fluxes: each phase's velocity times the `alpha`-blend of `rho lambda X` at its up- and downstream node |
| LocalResidual.UpwindedFlux | dumux/new_models/2p2c/2p2cboxmodel.hh:462-530 | `AdvectiveFlux` with each phase's up- and downstream node chosen by the sign of its own velocity |
| LocalResidual.AdvectiveFluxCarriesPhases | dumux/new_models/2p2c/2p2cboxmodel.hh:481-530 | For consistent node data the two component fluxes add up to `vW` times the blended `rhoW lambdaW` plus `vN` times the blended `rhoN lambdaN` |
| LocalResidual.BlendSplits | dumux/new_models/2p2c/2p2cboxmodel.hh:481-530 | Blending the parts of a phase split by fractions that sum to one gives the blend of the whole |
| LocalResidual.FullUpwindIgnoresDownstream | dumux/new_models/2p2c/2p2cboxmodel.hh:474-530 | With `alpha = 1` both component fluxes are `vDarcyOut` times the upstream nodes' `rho lambda X` and do not depend on the downstream nodes |
| LocalResidual.HarmonicTensorIsFacePermeability | dumux/new_models/2p2c/2p2cboxmodel.hh:444-448 | A tensor holding the face value in every entry is the face permeability |
| LocalResidual.UpwindedFluxCarriesUpstream | dumux/new_models/2p2c/2p2cboxmodel.hh:462-530 | With full upwinding the total flux is, per phase, the Darcy velocity times `rho lambda` of the node that velocity makes upstream |
| LocalResidual.UpwindFollowsSign | dumux/new_models/2p2c/2p2cboxmodel.hh:462-471 | A positive velocity takes node `j` upstream and `i` downstream; a negative or zero one takes node `i` |
| BoxJacobian.WrittenUpTo | dumux/new_models/2p2c/2p2cboxmodel.hh:931-946 | The cell cache after the fill has written the first `n` nodes; its length is kept |
| BoxJacobian.FilledCache | dumux/new_models/2p2c/2p2cboxmodel.hh:931-946 | The cell cache after the whole fill: written up to and including the first unrecognised tag; its length is kept |
| BoxJacobian.WrittenUpToLeavesRest | dumux/new_models/2p2c/2p2cboxmodel.hh:931-946 | After `n` steps of the fill, the entries from `n` on are untouched |
| BoxJacobian.WrittenUpToWrites | dumux/new_models/2p2c/2p2cboxmodel.hh:931-946 | After `n` steps of the fill, each entry before `n` holds the data written for its node |
| BoxJacobian.FillOutcome | dumux/new_models/2p2c/2p2cboxmodel.hh:931-946 | The fill ends normally iff every tag is recognised; otherwise with the exception of an unrecognised tag |
| BoxJacobian.FilledCacheReflectsSolution | dumux/new_models/2p2c/2p2cboxmodel.hh:931-946 | After a normal fill each entry is the node data of that node's primary variables and tag, and reads back as them |
| BoxJacobian.FillStopsAtFirstInvalidTag | dumux/new_models/2p2c/2p2cboxmodel.hh:186-194 | A fill stopped at the first unrecognised tag: the earlier nodes are updated, only `pW` of the offending node is written, and the later nodes are untouched |
| BoxJacobian.FilledCacheConsistent | dumux/new_models/2p2c/2p2cboxmodel.hh:931-946 | Filling keeps every entry consistent, even when it stops early |
| BoxJacobian.WriteNodeData | dumux/new_models/2p2c/2p2cboxmodel.hh:178-220 | The in-place update writes exactly one entry, as `Written` says, and reports whether the tag was recognised |
| BoxJacobian.FillCache | dumux/new_models/2p2c/2p2cboxmodel.hh:931-946 | The loop ends with the cache `FilledCache` and the outcome `FillOutcome` of the tags |
| BoxJacobian.FacePermeability | dumux/new_models/2p2c/2p2cboxmodel.hh:444-448 | The permeability tensor computed in place is the face permeability of the two nodes |
| BoxJacobian.TwoPTwoCBoxJacobian.Temperature | dumux/new_models/2p2c/2p2cboxmodel.hh:1155-1156 | The temperature is 283.15 K whatever the solution |
| BoxJacobian.TwoPTwoCBoxJacobian.HeatStorage | dumux/new_models/2p2c/2p2cboxmodel.hh:1108-1115 | The isothermal model leaves the storage terms unchanged |
| BoxJacobian.TwoPTwoCBoxJacobian.UpdateTempGrad | dumux/new_models/2p2c/2p2cboxmodel.hh:1120-1127 | No temperature gradient is accumulated |
| BoxJacobian.TwoPTwoCBoxJacobian.AdvectiveHeatFlux | dumux/new_models/2p2c/2p2cboxmodel.hh:1132-1142 | The flux is left unchanged |
| BoxJacobian.TwoPTwoCBoxJacobian.DiffusiveHeatFlux | dumux/new_models/2p2c/2p2cboxmodel.hh:1147-1152 | The flux is left unchanged |
| BoxJacobian.TwoPTwoCBoxJacobian.constructor | dumux/new_models/2p2c/2p2cboxmodel.hh:249-254 | One store entry per vertex, all tags zero, switch flag cleared, no deflection recorded |
| BoxJacobian.TwoPTwoCBoxJacobian.CellTags | dumux/new_models/2p2c/2p2cboxmodel.hh:935-937 | The tag of each node of the cell: the accepted one for the previous solution, the current one otherwise |
| BoxJacobian.TwoPTwoCBoxJacobian.UpdateCellCache | dumux/new_models/2p2c/2p2cboxmodel.hh:931-946 | The cache becomes `FilledCache` of the cell's tags and the outcome is `FillOutcome`; the class invariant, with consistent cache entries, is kept |
| BoxJacobian.TwoPTwoCBoxJacobian.SetParams | dumux/new_models/2p2c/2p2cboxmodel.hh:268-280 | The cell and the current solution are set and the current cache is filled. If that fill throws, the deflection flag and the previous solution and cache are unchanged. Otherwise the deflection is cleared and the previous cache is filled with the accepted tags |
| BoxJacobian.TwoPTwoCBoxJacobian.DeflectCurSolution | dumux/new_models/2p2c/2p2cboxmodel.hh:291-312 | One component of one node takes the new value and only that node's entry is recomputed. The first deflection records the original value and entry; later ones keep the record, so the restored state is that before the first deflection |
| BoxJacobian.TwoPTwoCBoxJacobian.RestoreCurSolution | dumux/new_models/2p2c/2p2cboxmodel.hh:321-326 | The recorded value and entry are put back and the deflection cleared. After deflections of the same node and component, the local solution and the cache are exactly as before the first one, with the other entries untouched |
| BoxJacobian.TwoPTwoCBoxJacobian.DeflectTwiceAndRestore | dumux/new_models/2p2c/2p2cboxmodel.hh:284-326 | Deflecting one unknown twice and then restoring it leaves the local solution and the cache exactly as before, with no deflection recorded, whatever the deflections reported |
| BoxJacobian.TwoPTwoCBoxJacobian.LocalRate | dumux/new_models/2p2c/2p2cboxmodel.hh:336-370 | The storage of both components from the chosen cache; together they hold `porosity (rhoW Sw + rhoN Sn)` |
| BoxJacobian.TwoPTwoCBoxJacobian.FluxRate | dumux/new_models/2p2c/2p2cboxmodel.hh:376-539 | The gradient loop, gravity correction, harmonic-mean permeability and sign-based swap compute the upwinded flux of the two phases' face velocities |
| BoxJacobian.TwoPTwoCBoxJacobian.InitStaticData | dumux/new_models/2p2c/2p2cboxmodel.hh:772-789 | Every vertex gets the initial tag as both current and accepted tag; the flag is cleared |
| BoxJacobian.TwoPTwoCBoxJacobian.PrimaryVarSwitch | dumux/new_models/2p2c/2p2cboxmodel.hh:951-1022 | Writes the tag and switch variable `SwitchNode` gives at `globalIdx`, and nothing else. It answers true iff the tag changed |
| BoxJacobian.TwoPTwoCBoxJacobian.UpdateStaticData | dumux/new_models/2p2c/2p2cboxmodel.hh:795-812 | The store and the solution become the switched ones. The flag is set iff some vertex switched. The previous solution is not read |
| BoxJacobian.TwoPTwoCBoxJacobian.SwitchPass | dumux/new_models/2p2c/2p2cboxmodel.hh:801-809 | The loop over the vertices, each switched in turn: it leaves the switched tags and solution and answers whether some vertex changed its tag |
| BoxJacobian.TwoPTwoCBoxJacobian.UpdateOldPhaseState | dumux/new_models/2p2c/2p2cboxmodel.hh:817-822 | The store becomes `Committed` of the old store |
| BoxJacobian.TwoPTwoCBoxJacobian.ResetPhaseState | dumux/new_models/2p2c/2p2cboxmodel.hh:827-832 | The store becomes `RolledBack` of the old store |
| BoxJacobian.TwoPTwoCBoxJacobian.Switched | dumux/new_models/2p2c/2p2cboxmodel.hh:838-841 | Answers the switch flag |
| BoxJacobian.TwoPTwoCBoxJacobian.SetSwitched | dumux/new_models/2p2c/2p2cboxmodel.hh:847-850 | Sets the switch flag |
| BoxModel.FailedTryForgetsRejectedTags | dumux/new_models/2p2c/2p2cboxmodel.hh:1229-1237 | The result of a rejected step depends only on the accepted tags, not on the current tags of the rejected step |
| BoxModel.FailedTryKeepsAcceptedTags | dumux/new_models/2p2c/2p2cboxmodel.hh:1229-1237 | A rejected step leaves every accepted tag as it was |
| BoxModel.TwoPTwoCBoxModel.constructor | dumux/new_models/2p2c/2p2cboxmodel.hh:1217-1222 | A fresh local Jacobian for the problem, with both global solutions set to the initial one |
| BoxModel.TwoPTwoCBoxModel.UpdateFailedTry | dumux/new_models/2p2c/2p2cboxmodel.hh:1229-1237 | The store becomes the switch pass applied to the rolled-back store over the current solution. The solution becomes the switched one and the flag says whether some vertex switched |
| BoxModel.TwoPTwoCBoxModel.UpdateSuccessful | dumux/new_models/2p2c/2p2cboxmodel.hh:1242-1248 | The store becomes `Committed` of the old store and the flag is cleared |
| BoxModel.TwoPTwoCBoxModel.Switched | dumux/new_models/2p2c/2p2cboxmodel.hh:1265-1266 | Answers the local Jacobian's switch flag |

## Left out

- VTK output (`addVtkFields`, lines 856-921) and the `std::cout` messages of the switch (lines 978, 992, 1003, 1011): output only.
- The diffusive flux after the `return` of `fluxRate` (lines 541-588) and the commented-out block (lines 590-763): never executed.
- The `#else` branch for CO2 mobilities (lines 234-245): not compiled.
- Grid iteration (`NodeIterator`, `nodeIndex`, `referenceElement`, cell geometry): the nodes are an index range, a vertex's global index is its position and the cell's local-to-global map and face geometry are inputs.
- The parents `BoxJacobian` and `BoxScheme`, including `ParentType::updateFailedTry` / `ParentType::updateSuccessful`, and `NewNewtonMethod`: their code is not part of this model. `UpdateFailedTry` starts from the current solution as that parent call leaves it.
- The constitutive-law implementations (`dumux/material/constrel.hh`), the non-isothermal model (`dumux/boxmodels/immiscibleni/immisciblenimodel.hh`) and the property declarations of the decoupled models: the laws are uninterpreted parameters, and the other files hold no logic of this core.
- IEEE floating point: reals are exact. `Permeability.HarmonicMeanK` and `Permeability.HarmonicEntry` require the harmonic-mean formula to be defined (no reciprocal of zero) where the two entries differ. The source would produce infinities or NaN there.
- Permeability.HarmonicMeanK: requires `Ki` and `Kj` to be different arrays. In the source `Ki` is a local copy.
- BoxJacobian.TwoPTwoCBoxJacobian.DeflectCurSolution: requires that a second deflection before a restore concern the same node and component. The source's doc comment asks this of its callers (lines 318-319) without checking it.
- BoxJacobian.TwoPTwoCBoxJacobian.FluxRate: requires the face geometry to fit the cell and the permeabilities to admit the harmonic mean. Its contract ties the result to the specification functions, and the flux properties are stated by `LocalResidual.UpwindedFluxCarriesUpstream` and `LocalResidual.FullUpwindIgnoresDownstream`.
- BoxJacobian.TwoPTwoCBoxJacobian.DeflectTwiceAndRestore: the numerical differentiation of the parent `BoxJacobian`, which calls the pair, is not part of this model. The method states the round trip that caller relies on. It continues past a rejected tag, where the source would throw and leave the deflection recorded.
- The source leaves `curSolDeflected_` uninitialised until the first `setParams`; the model's constructor clears it.
- The grid dimension and the world dimension are taken to be equal.
