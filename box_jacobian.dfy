/**
 * The 2P-2C local Jacobian of the box scheme: the phase-state store of every
 * vertex, the cached node data of the current cell for the current and the
 * previous solution, the perturbation of one primary variable used to build
 * the Jacobian by finite differences, the storage and flux terms, and the
 * primary-variable switch over the global solution.
 *
 * The class is the base class resolved to its isothermal implementation: the
 * energy hooks are the no-ops of the isothermal model and the temperature is
 * a constant.
 */
module BoxJacobian {
  import opened TwoPTwoCTraits
  import opened BoxProblem
  import opened NodeData
  import opened PhaseSwitch
  import opened Permeability
  import opened LocalResidual

  /** The constant temperature of the isothermal model, in kelvin. */
  const IsothermalTemperature: real := 283.15

  // ---------------------------------------------------------------------------
  // Filling a cell cache

  /** The cell cache after updateCellCache_ has written the node data of the first `n` nodes. */
  function WrittenUpTo(cache: seq<VariableNodeData>, sol: seq<UnknownsVector>, tags: seq<int>,
                       cellId: nat, problem: Problem, n: nat): (r: seq<VariableNodeData>)
    requires n <= |tags| <= |cache| && |tags| <= |sol|
    ensures |r| == |cache|
  {
    if n == 0 then cache
    else
      WrittenUpTo(cache, sol, tags, cellId, problem, n - 1)[n - 1 :=
        Written(cache[n - 1], sol[n - 1], tags[n - 1], Site(cellId, n - 1), problem, IsothermalTemperature)]
  }

  /** The nodes from `n` on still hold their old entries. */
  lemma {:induction false} WrittenUpToLeavesRest(cache: seq<VariableNodeData>, sol: seq<UnknownsVector>,
                                                 tags: seq<int>, cellId: nat, problem: Problem, n: nat, k: nat)
    requires n <= |tags| <= |cache| && |tags| <= |sol|
    requires n <= k < |cache|
    ensures WrittenUpTo(cache, sol, tags, cellId, problem, n)[k] == cache[k]
  {
    if n > 0 {
      WrittenUpToLeavesRest(cache, sol, tags, cellId, problem, n - 1, k);
    }
  }

  /** The nodes before `n` hold the node data written for them. */
  lemma {:induction false} WrittenUpToWrites(cache: seq<VariableNodeData>, sol: seq<UnknownsVector>,
                                             tags: seq<int>, cellId: nat, problem: Problem, n: nat, k: nat)
    requires n <= |tags| <= |cache| && |tags| <= |sol|
    requires k < n
    ensures WrittenUpTo(cache, sol, tags, cellId, problem, n)[k]
            == Written(cache[k], sol[k], tags[k], Site(cellId, k), problem, IsothermalTemperature)
  {
    if k < n - 1 {
      WrittenUpToWrites(cache, sol, tags, cellId, problem, n - 1, k);
    }
  }

  /**
   * The cell cache after updateCellCache_ has visited the nodes with tags `tags`:
   * every node up to and including the first unrecognised tag has been written,
   * the nodes after it keep their old entries.
   */
  function FilledCache(cache: seq<VariableNodeData>, sol: seq<UnknownsVector>, tags: seq<int>,
                       cellId: nat, problem: Problem): (r: seq<VariableNodeData>)
    requires |tags| <= |cache| && |tags| <= |sol|
    ensures |r| == |cache|
  {
    var stop := FirstInvalid(tags);
    WrittenUpTo(cache, sol, tags, cellId, problem, if stop < |tags| then stop + 1 else |tags|)
  }

  /** How updateCellCache_ ends: normally, or with the exception for the first unrecognised tag. */
  function FillOutcome(tags: seq<int>): (r: Outcome)
    ensures r.Pass? <==> forall i :: 0 <= i < |tags| ==> IsPhaseState(tags[i])
    ensures r.Fail? ==> exists i :: 0 <= i < |tags| && r.error == InvalidStateException(tags[i])
                                   && !IsPhaseState(tags[i])
  {
    var stop := FirstInvalid(tags);
    if stop == |tags| then Pass else Fail(InvalidStateException(tags[stop]))
  }

  /**
   * After a fill that ends normally, each node's cache entry is the node data of its
   * primary variables under its tag, and reading the primary variables back gives them.
   */
  lemma FilledCacheReflectsSolution(cache: seq<VariableNodeData>, sol: seq<UnknownsVector>,
                                    tags: seq<int>, cellId: nat, problem: Problem, i: nat)
    requires |tags| <= |cache| && |tags| <= |sol|
    requires FillOutcome(tags) == Pass
    requires i < |tags|
    ensures var d := FilledCache(cache, sol, tags, cellId, problem)[i];
            && UpdateVarNodeData(sol[i], tags[i], Site(cellId, i), problem, IsothermalTemperature) == Success(d)
            && PrimaryVarsOf(d) == sol[i]
            && d.phaseState == tags[i]
  {
    assert FirstInvalid(tags) == |tags|;
    WrittenUpToWrites(cache, sol, tags, cellId, problem, |tags|, i);
  }

  /**
   * A fill that raises the exception has updated every node before the offending one,
   * has overwritten only the wetting pressure of the offending node, and has not touched
   * the nodes after it.
   */
  lemma FillStopsAtFirstInvalidTag(cache: seq<VariableNodeData>, sol: seq<UnknownsVector>,
                                   tags: seq<int>, cellId: nat, problem: Problem, k: nat)
    requires |tags| <= |cache| && |tags| <= |sol|
    requires k < |tags| && !IsPhaseState(tags[k])
    requires forall i :: 0 <= i < k ==> IsPhaseState(tags[i])
    ensures FillOutcome(tags) == Fail(InvalidStateException(tags[k]))
    ensures var r := FilledCache(cache, sol, tags, cellId, problem);
            && r[k] == cache[k].(pW := sol[k][PwIndex])
            && (forall i :: k < i < |cache| ==> r[i] == cache[i])
            && (forall i :: 0 <= i < k ==> PrimaryVarsOf(r[i]) == sol[i] && r[i].phaseState == tags[i])
  {
    assert FirstInvalid(tags) == k;
    WrittenUpToWrites(cache, sol, tags, cellId, problem, k + 1, k);
    forall i | k < i < |cache|
      ensures FilledCache(cache, sol, tags, cellId, problem)[i] == cache[i]
    {
      WrittenUpToLeavesRest(cache, sol, tags, cellId, problem, k + 1, i);
    }
    forall i | 0 <= i < k
      ensures var d := FilledCache(cache, sol, tags, cellId, problem)[i];
              PrimaryVarsOf(d) == sol[i] && d.phaseState == tags[i]
    {
      WrittenUpToWrites(cache, sol, tags, cellId, problem, k + 1, i);
    }
  }

  /** Filling keeps every entry consistent. */
  lemma FilledCacheConsistent(cache: seq<VariableNodeData>, sol: seq<UnknownsVector>, tags: seq<int>,
                              cellId: nat, problem: Problem)
    requires |tags| <= |cache| && |tags| <= |sol|
    requires forall k :: 0 <= k < |cache| ==> Consistent(cache[k])
    ensures forall k :: 0 <= k < |cache| ==> Consistent(FilledCache(cache, sol, tags, cellId, problem)[k])
  {
    var n := FirstInvalid(tags);
    var m := if n < |tags| then n + 1 else |tags|;
    forall k | 0 <= k < |cache|
      ensures Consistent(WrittenUpTo(cache, sol, tags, cellId, problem, m)[k])
    {
      if k < m {
        WrittenUpToWrites(cache, sol, tags, cellId, problem, m, k);
      } else {
        WrittenUpToLeavesRest(cache, sol, tags, cellId, problem, m, k);
      }
    }
  }

  /**
   * updateVarNodeData_ writing into entry `n` of a cell cache: the entry becomes the node
   * data of `nodeSol` under `tag`; for an unrecognised tag only its wetting pressure has
   * been overwritten when the exception is raised.
   */
  method WriteNodeData(dest: array<VariableNodeData>, n: nat, nodeSol: UnknownsVector, tag: int,
                       site: Site, problem: Problem) returns (outcome: Outcome)
    requires n < dest.Length
    modifies dest
    ensures dest[..] == old(dest[..])[n := Written(old(dest[n]), nodeSol, tag, site, problem, IsothermalTemperature)]
    ensures outcome == if IsPhaseState(tag) then Pass else Fail(InvalidStateException(tag))
  {
    var data := UpdateVarNodeData(nodeSol, tag, site, problem, IsothermalTemperature);
    match data {
      case Failure(e) =>
        dest[n] := dest[n].(pW := nodeSol[PwIndex]);
        outcome := Fail(e);
      case Success(d) =>
        dest[n] := d;
        outcome := Pass;
    }
  }

  /** The loop of updateCellCache_ over the nodes of a cell, given their tags. */
  method FillCache(dest: array<VariableNodeData>, sol: seq<UnknownsVector>, tags: seq<int>,
                   cellId: nat, problem: Problem) returns (outcome: Outcome)
    requires |tags| <= dest.Length && |tags| <= |sol|
    modifies dest
    ensures outcome == FillOutcome(tags)
    ensures dest[..] == FilledCache(old(dest[..]), sol, tags, cellId, problem)
  {
    ghost var before := dest[..];
    var i := 0;
    while i < |tags|
      invariant 0 <= i <= |tags|
      invariant forall k :: 0 <= k < i ==> IsPhaseState(tags[k])
      invariant dest[..] == WrittenUpTo(before, sol, tags, cellId, problem, i)
    {
      WrittenUpToLeavesRest(before, sol, tags, cellId, problem, i, i);
      outcome := WriteNodeData(dest, i, sol[i], tags[i], Site(cellId, i), problem);
      if outcome.Fail? {
        assert FirstInvalid(tags) == i;
        return;
      }
      i := i + 1;
    }
    assert FirstInvalid(tags) == |tags|;
    outcome := Pass;
  }

  /** The entries of a square tensor held in a two-dimensional array, row by row. */
  function TensorOf(K: array2<real>): (T: seq<Vector>)
    reads K
    ensures |T| == K.Length0 && forall x :: 0 <= x < |T| ==> |T[x]| == K.Length1
    ensures forall x, y :: 0 <= x < K.Length0 && 0 <= y < K.Length1 ==> T[x][y] == K[x, y]
  {
    seq(K.Length0, x requires 0 <= x < K.Length0 reads K =>
      seq(K.Length1, y requires 0 <= y < K.Length1 reads K => K[x, y]))
  }

  /**
   * The face permeability step of fluxRate: the tensors of both nodes are copied into
   * matrices and the first is overwritten with their entry-wise harmonic mean.
   */
  method FacePermeability(problem: Problem, si: Site, sj: Site) returns (Kface: seq<Vector>)
    requires PermeabilityAdmissible(problem, si, sj)
    ensures Kface == EffectivePermeability(problem, si, sj)
  {
    var dim, soilK := problem.dim, problem.soilK;
    var K := new real[dim, dim]((x, y) requires 0 <= x && 0 <= y => soilK(si, x, y));
    var Kj := new real[dim, dim]((x, y) requires 0 <= x && 0 <= y => soilK(sj, x, y));
    HarmonicMeanK(K, Kj);
    Kface := TensorOf(K);
    HarmonicTensorIsFacePermeability(Kface, problem, si, sj);
  }

  // ---------------------------------------------------------------------------
  // The local Jacobian

  class TwoPTwoCBoxJacobian {
    /** The problem: constitutive laws, grid size and dimension. */
    const problem: Problem

    /** Per vertex: the current and the last accepted phase state. */
    var staticNodeDat: seq<StaticNodeData>
    /** Whether the last switch pass changed the phase state of some vertex. */
    var switchFlag: bool

    /** The current cell. */
    var cell: CellGeometry

    /** The local solution of the current cell and the node data derived from it. */
    var curSol: seq<UnknownsVector>
    const curSolCache: array<VariableNodeData>

    /** What restoreCurSolution puts back. */
    var curSolDeflected: bool
    var curSolOrigValue: real
    var curSolOrigVarData: VariableNodeData
    /** The node and component deflected since the last restore. */
    ghost var deflectedNode: nat
    ghost var deflectedComponent: nat

    /** The local solution of the previous time step and its node data. */
    var prevSol: seq<UnknownsVector>
    const prevSolCache: array<VariableNodeData>

    /** The current cell fits the problem and the caches, and every vertex has its tags. */
    ghost predicate CellFits()
      reads this`staticNodeDat, this`cell
    {
      && problem.WellFormed()
      && |staticNodeDat| == problem.numNodes
      && cell.WellFormed(problem.numNodes, curSolCache.Length)
    }

    /** The two caches are distinct and as long as each other, and the local solution covers
        the cell. */
    ghost predicate CachesFit()
      reads this`cell, this`curSol, this`curSolOrigVarData
    {
      && curSolCache != prevSolCache
      && curSolCache.Length == prevSolCache.Length
      && cell.nNodes <= |curSol|
      && Consistent(curSolOrigVarData)
    }

    /** Every cached entry is consistent: saturations and each phase's fractions sum to one. */
    ghost predicate CachesConsistent()
      reads curSolCache, prevSolCache
    {
      && (forall k :: 0 <= k < curSolCache.Length ==> Consistent(curSolCache[k]))
      && (forall k :: 0 <= k < prevSolCache.Length ==> Consistent(prevSolCache[k]))
    }

    ghost predicate Valid()
      reads this, curSolCache, prevSolCache
    {
      CellFits() && CachesFit() && CachesConsistent()
    }

    /** A deflection is recorded, for a node and component of the current cell. */
    ghost predicate DeflectionRecorded()
      reads this`curSolDeflected, this`deflectedNode, this`deflectedComponent, this`cell
    {
      curSolDeflected && deflectedNode < cell.nNodes && deflectedComponent < PrimaryVars
    }

    /** The local solution that restoreCurSolution gives back. */
    ghost function RestoredSol(): seq<UnknownsVector>
      requires Valid() && DeflectionRecorded()
      reads this, curSolCache, prevSolCache
    {
      curSol[deflectedNode := curSol[deflectedNode][deflectedComponent := curSolOrigValue]]
    }

    /** The cache that restoreCurSolution gives back. */
    ghost function RestoredCache(): seq<VariableNodeData>
      requires Valid() && DeflectionRecorded()
      reads this, curSolCache, prevSolCache
    {
      curSolCache[..][deflectedNode := curSolOrigVarData]
    }

    // -------------------------------------------------------------------------
    // The isothermal implementation

    /** temperature_: the isothermal model runs at a fixed temperature. */
    static function Temperature(u: UnknownsVector): (t: real)
      ensures t == 283.15
    {
      IsothermalTemperature
    }

    /** heatStorage: no energy equation, so the storage terms are left as they are. */
    static function HeatStorage(result: UnknownsVector, scvId: nat): (r: UnknownsVector)
      ensures r == result
    {
      result
    }

    /** updateTempGrad: no temperature gradient is accumulated. */
    static function UpdateTempGrad(tempGrad: Vector, feGrad: Vector, nodeIdx: nat): (r: Vector)
      ensures r == tempGrad
    {
      tempGrad
    }

    /** advectiveHeatFlux: no advected energy, so the flux is left as it is. */
    static function AdvectiveHeatFlux(flux: UnknownsVector, vW: real, vN: real, alpha: real): (r: UnknownsVector)
      ensures r == flux
    {
      flux
    }

    /** diffusiveHeatFlux: no conducted energy, so the flux is left as it is. */
    static function DiffusiveHeatFlux(flux: UnknownsVector, faceId: nat, tempGrad: Vector): (r: UnknownsVector)
      ensures r == flux
    {
      flux
    }

    // -------------------------------------------------------------------------
    // Construction and the current cell

    /**
     * A Jacobian for `problem` whose cell caches hold `maxNodes` entries: every vertex
     * starts with both tags zero and the switch flag is cleared.
     */
    constructor(problem: Problem, maxNodes: nat)
      requires problem.WellFormed()
      ensures Valid()
      ensures this.problem == problem
      ensures staticNodeDat == seq(problem.numNodes, _ => StaticNodeData(0, 0))
      ensures !switchFlag && !curSolDeflected
      ensures curSolCache.Length == maxNodes && fresh(curSolCache) && fresh(prevSolCache)
    {
      var blank := VariableNodeData(0.0, 1.0, 0.0, 0.0, 0.0, PhasesVector(0.0, 0.0), PhasesVector(0.0, 0.0),
                                    MassFractions(1.0, 0.0, 0.0, 1.0), WPhaseOnly);
      this.problem := problem;
      staticNodeDat := seq(problem.numNodes, _ => StaticNodeData(0, 0));
      switchFlag := false;
      cell := CellGeometry(0, 0, [], []);
      curSol := [];
      curSolCache := new VariableNodeData[maxNodes](_ => blank);
      curSolDeflected := false;
      curSolOrigValue := 0.0;
      curSolOrigVarData := blank;
      prevSol := [];
      prevSolCache := new VariableNodeData[maxNodes](_ => blank);
    }

    /** The tags updateCellCache_ uses for the nodes of the current cell. */
    function CellTags(isOldSol: bool): (tags: seq<int>)
      requires CellFits()
      reads this`staticNodeDat, this`cell
      ensures |tags| == cell.nNodes
      ensures forall i :: 0 <= i < cell.nNodes ==>
                tags[i] == if isOldSol then staticNodeDat[cell.nodeIndex[i]].oldPhaseState
                           else staticNodeDat[cell.nodeIndex[i]].phaseState
    {
      var states, index := staticNodeDat, cell.nodeIndex;
      seq(|index|, i requires 0 <= i < |index| && index[i] < |states| =>
        if isOldSol then states[index[i]].oldPhaseState else states[index[i]].phaseState)
    }

    /**
     * updateCellCache_: recomputes the node data of every node of the current cell from
     * `sol`, with the current tags or (for the previous solution) the accepted tags.
     * An unrecognised tag raises the exception and ends the fill at that node.
     */
    method UpdateCellCache(dest: array<VariableNodeData>, sol: seq<UnknownsVector>, isOldSol: bool)
      returns (outcome: Outcome)
      requires Valid()
      requires dest == curSolCache || dest == prevSolCache
      requires cell.nNodes <= |sol|
      modifies dest
      ensures Valid()
      ensures outcome == FillOutcome(old(CellTags(isOldSol)))
      ensures dest[..] == FilledCache(old(dest[..]), sol, old(CellTags(isOldSol)), cell.id, problem)
    {
      var tags := CellTags(isOldSol);
      ghost var before := dest[..];
      outcome := FillCache(dest, sol, tags, cell.id, problem);
      FilledCacheConsistent(before, sol, tags, cell.id, problem);
    }

    /**
     * setParams: makes `newCell` the current cell and fills both caches, the current one
     * with the current tags, the previous one with the accepted tags. An exception while
     * filling the current cache ends the call before the previous solution is touched.
     */
    method SetParams(newCell: CellGeometry, cs: seq<UnknownsVector>, ps: seq<UnknownsVector>)
      returns (outcome: Outcome)
      requires Valid()
      requires newCell.WellFormed(problem.numNodes, curSolCache.Length)
      requires newCell.nNodes <= |cs| && newCell.nNodes <= |ps|
      modifies this`cell, this`curSol, this`curSolDeflected, this`prevSol, curSolCache, prevSolCache
      ensures Valid()
      ensures cell == newCell && curSol == cs
      ensures var curTags := CellTags(false);
              var prevTags := CellTags(true);
              && curSolCache[..] == FilledCache(old(curSolCache[..]), cs, curTags, newCell.id, problem)
              && (FillOutcome(curTags).Fail? ==>
                    && outcome == FillOutcome(curTags)
                    && curSolDeflected == old(curSolDeflected) && prevSol == old(prevSol)
                    && prevSolCache[..] == old(prevSolCache[..]))
              && (FillOutcome(curTags).Pass? ==>
                    && outcome == FillOutcome(prevTags)
                    && !curSolDeflected && prevSol == ps
                    && prevSolCache[..] == FilledCache(old(prevSolCache[..]), ps, prevTags, newCell.id, problem))
    {
      cell := newCell;
      curSol := cs;
      outcome := UpdateCellCache(curSolCache, curSol, false);
      if outcome.Fail? {
        return;
      }
      curSolDeflected := false;
      prevSol := ps;
      outcome := UpdateCellCache(prevSolCache, prevSol, true);
    }

    // -------------------------------------------------------------------------
    // Perturbing one primary variable

    /**
     * deflectCurSolution: sets component `component` of node `node` of the local solution to
     * `value` and recomputes that node's cache entry. The first deflection since the last
     * restore records the original value and cache entry; later ones must concern the same
     * node and component and keep the record.
     */
    method DeflectCurSolution(node: nat, component: nat, value: real) returns (outcome: Outcome)
      requires Valid()
      requires node < cell.nNodes && component < PrimaryVars
      requires curSolDeflected ==> deflectedNode == node && deflectedComponent == component
      modifies this`curSol, this`curSolDeflected, this`curSolOrigValue, this`curSolOrigVarData,
               this`deflectedNode, this`deflectedComponent, curSolCache
      ensures Valid()
      ensures DeflectionRecorded() && deflectedNode == node && deflectedComponent == component
      ensures curSol == old(curSol)[node := old(curSol[node])[component := value]]
      ensures var tag := staticNodeDat[cell.nodeIndex[node]].phaseState;
              && curSolCache[node] == Written(old(curSolCache[node]), curSol[node], tag, Site(cell.id, node),
                                              problem, IsothermalTemperature)
              && outcome == (if IsPhaseState(tag) then Pass else Fail(InvalidStateException(tag)))
      ensures forall k :: 0 <= k < curSolCache.Length && k != node ==> curSolCache[k] == old(curSolCache[k])
      ensures old(curSolDeflected) ==> curSolOrigValue == old(curSolOrigValue) && curSolOrigVarData == old(curSolOrigVarData)
      ensures !old(curSolDeflected) ==> curSolOrigValue == old(curSol[node][component]) && curSolOrigVarData == old(curSolCache[node])
      ensures RestoredSol() == if old(curSolDeflected) then old(RestoredSol()) else old(curSol)
      ensures RestoredCache() == if old(curSolDeflected) then old(RestoredCache()) else old(curSolCache[..])
    {
      ghost var sol0, wasDeflected := curSol, curSolDeflected;
      if !curSolDeflected {
        curSolDeflected := true;
        deflectedNode, deflectedComponent := node, component;
        curSolOrigValue := curSol[node][component];
        curSolOrigVarData := curSolCache[node];
      }
      var g := cell.nodeIndex[node];
      curSol := curSol[node := curSol[node][component := value]];
      var tag := staticNodeDat[g].phaseState;
      outcome := WriteNodeData(curSolCache, node, curSol[node], tag, Site(cell.id, node), problem);
      assert curSol[node][component := curSolOrigValue] == sol0[node][component := curSolOrigValue];
      assert !wasDeflected ==> sol0[node][component := curSolOrigValue] == sol0[node];
    }

    /**
     * restoreCurSolution: puts the recorded value and cache entry back at `node` and
     * `component` and clears the deflection. After deflections of that same node and
     * component, the local solution and the cache are exactly as before the first one.
     */
    method RestoreCurSolution(node: nat, component: nat)
      requires Valid()
      requires node < cell.nNodes && component < PrimaryVars
      modifies this`curSol, this`curSolDeflected, curSolCache
      ensures Valid()
      ensures !curSolDeflected
      ensures curSol == old(curSol)[node := old(curSol[node])[component := old(curSolOrigValue)]]
      ensures curSolCache[..] == old(curSolCache[..])[node := old(curSolOrigVarData)]
      ensures old(DeflectionRecorded()) && node == old(deflectedNode) && component == old(deflectedComponent) ==>
                curSol == old(RestoredSol()) && curSolCache[..] == old(RestoredCache())
    {
      curSolDeflected := false;
      curSol := curSol[node := curSol[node][component := curSolOrigValue]];
      curSolCache[node] := curSolOrigVarData;
    }

    /**
     * The use a finite-difference Jacobian makes of the pair: deflect one primary variable
     * to `plus`, then to `minus`, then restore it. Whatever the deflections report, the local
     * solution and the cache end exactly as they were, and no deflection stays recorded.
     */
    method DeflectTwiceAndRestore(node: nat, component: nat, plus: real, minus: real)
      requires Valid() && !curSolDeflected
      requires node < cell.nNodes && component < PrimaryVars
      modifies this`curSol, this`curSolDeflected, this`curSolOrigValue, this`curSolOrigVarData,
               this`deflectedNode, this`deflectedComponent, curSolCache
      ensures Valid() && !curSolDeflected
      ensures curSol == old(curSol) && curSolCache[..] == old(curSolCache[..])
    {
      var first := DeflectCurSolution(node, component, plus);
      var second := DeflectCurSolution(node, component, minus);
      RestoreCurSolution(node, component);
    }

    // -------------------------------------------------------------------------
    // Storage and flux

    /**
     * localRate: the stored mass of each component in sub-control volume `scvId`, from
     * the current or the previous cache. The two components together hold the mass of
     * both phases in the pore volume.
     */
    function LocalRate(scvId: nat, usePrevSol: bool): (r: UnknownsVector)
      requires Valid()
      requires scvId < cell.nNodes
      reads this, curSolCache, prevSolCache
      ensures var d := if usePrevSol then prevSolCache[scvId] else curSolCache[scvId];
              var porosity := problem.porosity(Site(cell.id, scvId));
              && r[PwIndex] + r[SwitchIndex] == porosity * PhaseMass(d)
              && r == Storage(d, porosity)
    {
      var d := if usePrevSol then prevSolCache[scvId] else curSolCache[scvId];
      HeatStorage(Storage(d, problem.porosity(Site(cell.id, scvId))), scvId)
    }

    /**
     * fluxRate: the advective flux of both components through face `faceId` of the
     * current cell, computed from the current cache.
     */
    method FluxRate(faceId: nat) returns (flux: UnknownsVector)
      requires CellFits()
      requires faceId < |cell.faces| && cell.FaceFits(cell.faces[faceId], problem.dim)
      requires PermeabilityAdmissible(problem, Site(cell.id, cell.faces[faceId].i), Site(cell.id, cell.faces[faceId].j))
      ensures var face := cell.faces[faceId];
              flux == UpwindedFlux(curSolCache[..], face.i, face.j,
                                   FaceVelocity(curSolCache[..], face, cell.id, cell.nNodes, problem, WPhaseIndex),
                                   FaceVelocity(curSolCache[..], face, cell.id, cell.nNodes, problem, NPhaseIndex), 1.0)
    {
      var face := cell.faces[faceId];
      var i, j := face.i, face.j;
      var dim := problem.dim;
      ghost var cache := curSolCache[..];

      // finite-element gradients of the phase pressures and of the dissolved fractions
      var pGradW, pGradN := Zero(dim), Zero(dim);
      var xGradW, xGradN := Zero(dim), Zero(dim);
      var tempGrad := Zero(dim);
      var k := 0;
      while k < cell.nNodes
        invariant 0 <= k <= cell.nNodes
        invariant pGradW == FeGradient(face.grad, cache, WettingPressure, k, dim)
        invariant pGradN == FeGradient(face.grad, cache, NonwettingPressure, k, dim)
        invariant xGradW == FeGradient(face.grad, cache, AirInWetting, k, dim)
        invariant xGradN == FeGradient(face.grad, cache, WaterInNonwetting, k, dim)
        invariant |tempGrad| == dim
      {
        var feGrad := face.grad[k];
        pGradW := Axpy(pGradW, feGrad, curSolCache[k].pW);
        pGradN := Axpy(pGradN, feGrad, curSolCache[k].pN);
        xGradW := Axpy(xGradW, feGrad, curSolCache[k].massfrac.nInW);
        xGradN := Axpy(xGradN, feGrad, curSolCache[k].massfrac.wInN);
        tempGrad := UpdateTempGrad(tempGrad, feGrad, k);
        k := k + 1;
      }

      // hydrostatic correction with the densities of node i
      pGradW := SubScaled(pGradW, problem.gravity, curSolCache[i].density.w);
      pGradN := SubScaled(pGradN, problem.gravity, curSolCache[i].density.n);
      assert pGradW == PotentialGradient(cache, face, WettingPressure, cache[i].density.w, cell.nNodes, problem);
      assert pGradN == PotentialGradient(cache, face, NonwettingPressure, cache[i].density.n, cell.nNodes, problem);

      // the face permeability
      var si, sj := Site(cell.id, i), Site(cell.id, j);
      var Kface := FacePermeability(problem, si, sj);

      // Darcy velocities projected on the face normal
      var vW := DarcyOut(Kface, pGradW, face.normal);
      var vN := DarcyOut(Kface, pGradN, face.normal);

      // a positive velocity takes its values from node j
      var upW, dnW := curSolCache[i], curSolCache[j];
      var upN, dnN := curSolCache[i], curSolCache[j];
      if vW > 0.0 {
        upW, dnW := dnW, upW;
      }
      if vN > 0.0 {
        upN, dnN := dnN, upN;
      }
      assert upW == cache[Upstream(vW, i, j)] && dnW == cache[Downstream(vW, i, j)];
      assert upN == cache[Upstream(vN, i, j)] && dnN == cache[Downstream(vN, i, j)];

      var alpha := 1.0;
      flux := AdvectiveFlux(vW, vN, upW, dnW, upN, dnN, alpha);
      flux := AdvectiveHeatFlux(flux, vW, vN, alpha);
      flux := DiffusiveHeatFlux(flux, faceId, tempGrad);
    }

    // -------------------------------------------------------------------------
    // The phase-state store

    /** initStaticData: every vertex gets the problem's initial tag as its current and
        its accepted tag, and the switch flag is cleared. */
    method InitStaticData()
      requires Valid()
      modifies this`staticNodeDat, this`switchFlag
      ensures Valid()
      ensures !switchFlag
      ensures |staticNodeDat| == problem.numNodes
      ensures forall n :: 0 <= n < problem.numNodes ==>
                staticNodeDat[n].phaseState == problem.initialPhaseState(n)
                && staticNodeDat[n].oldPhaseState == staticNodeDat[n].phaseState
    {
      SetSwitched(false);
      var n := 0;
      while n < problem.numNodes
        invariant 0 <= n <= problem.numNodes
        invariant Valid() && !switchFlag
        invariant forall m :: 0 <= m < n ==>
                    staticNodeDat[m] == StaticNodeData(problem.initialPhaseState(m), problem.initialPhaseState(m))
      {
        var phaseState := problem.initialPhaseState(n);
        staticNodeDat := staticNodeDat[n := StaticNodeData(phaseState, phaseState)];
        n := n + 1;
      }
    }

    /**
     * primaryVarSwitch_: evaluates the switch at vertex `globalIdx` of the global solution
     * `sol`, writes the new tag and, on a change, the new switch variable; answers whether
     * the tag changed. Nothing else is written.
     */
    method PrimaryVarSwitch(sol: array<UnknownsVector>, globalIdx: nat) returns (switched: bool)
      requires sol.Length == |staticNodeDat| && globalIdx < sol.Length
      modifies this`staticNodeDat, sol
      ensures var r := SwitchNode(old(staticNodeDat[globalIdx].phaseState), old(sol[globalIdx]), globalIdx,
                                  problem, IsothermalTemperature);
              && staticNodeDat == old(staticNodeDat)[globalIdx := old(staticNodeDat[globalIdx]).(phaseState := r.phaseState)]
              && sol[..] == old(sol[..])[globalIdx := old(sol[globalIdx])[SwitchIndex := r.switchVar]]
              && (switched <==> r.phaseState != old(staticNodeDat[globalIdx].phaseState))
    {
      var phaseState := staticNodeDat[globalIdx].phaseState;
      var newPhaseState := phaseState;

      var u := sol[globalIdx];
      assert u[SwitchIndex := u[SwitchIndex]] == u;
      var pW := u[PwIndex];
      var satW := 0.0;
      var temperature := Temperature(u);
      if phaseState == BothPhases {
        satW := 1.0 - u[SwitchIndex];
      } else if phaseState == WPhaseOnly {
        satW := 1.0;
      } else if phaseState == NPhaseOnly {
        satW := 0.0;
      }
      var pC := problem.problemPC(satW, globalIdx);
      var pN := pW + pC;

      if phaseState == NPhaseOnly {
        var xWN := u[SwitchIndex];
        var xWNmax := problem.xWN(pN, temperature);
        if xWN > xWNmax * (1.0 + AppearanceTolerance) {
          // the wetting phase appears
          newPhaseState := BothPhases;
          sol[globalIdx] := u[SwitchIndex := 1.0 - AppearanceTolerance];
        }
      } else if phaseState == WPhaseOnly {
        var xAW := u[SwitchIndex];
        var xAWmax := problem.xAW(pN, temperature);
        if xAW > xAWmax * (1.0 + AppearanceTolerance) {
          // the non-wetting phase appears
          sol[globalIdx] := u[SwitchIndex := AppearanceTolerance];
          newPhaseState := BothPhases;
        }
      } else if phaseState == BothPhases {
        var satN := 1.0 - satW;
        if satN < DisappearanceThreshold {
          // the non-wetting phase disappears
          sol[globalIdx] := u[SwitchIndex := problem.xAW(pN, temperature)];
          newPhaseState := WPhaseOnly;
        } else if satW < DisappearanceThreshold {
          // the wetting phase disappears
          sol[globalIdx] := u[SwitchIndex := problem.xWN(pN, temperature)];
          newPhaseState := NPhaseOnly;
        }
      }

      staticNodeDat := staticNodeDat[globalIdx := staticNodeDat[globalIdx].(phaseState := newPhaseState)];
      switched := phaseState != newPhaseState;
      assert sol[..] == old(sol[..])[globalIdx := sol[globalIdx]];
    }

    /**
     * updateStaticData: runs the switch at every vertex of the global solution `globalSol`,
     * vertex by vertex, and sets the switch flag iff some vertex changed its tag. The
     * previous solution `oldSol` is not read.
     */
    method UpdateStaticData(globalSol: array<UnknownsVector>, oldSol: array<UnknownsVector>)
      requires Valid()
      requires globalSol.Length == |staticNodeDat|
      modifies this`staticNodeDat, this`switchFlag, globalSol
      ensures Valid()
      ensures staticNodeDat == SwitchedStates(old(staticNodeDat), old(globalSol[..]), problem, IsothermalTemperature)
      ensures globalSol[..] == SwitchedSolution(old(staticNodeDat), old(globalSol[..]), problem, IsothermalTemperature)
      ensures switchFlag == AnySwitched(old(staticNodeDat), old(globalSol[..]), problem, IsothermalTemperature)
    {
      var wasSwitched := SwitchPass(globalSol);
      SetSwitched(wasSwitched);
    }

    /** The loop of updateStaticData: the switch at every vertex in turn. */
    method SwitchPass(globalSol: array<UnknownsVector>) returns (wasSwitched: bool)
      requires globalSol.Length == |staticNodeDat|
      modifies this`staticNodeDat, globalSol
      ensures staticNodeDat == SwitchedStates(old(staticNodeDat), old(globalSol[..]), problem, IsothermalTemperature)
      ensures globalSol[..] == SwitchedSolution(old(staticNodeDat), old(globalSol[..]), problem, IsothermalTemperature)
      ensures wasSwitched == AnySwitched(old(staticNodeDat), old(globalSol[..]), problem, IsothermalTemperature)
    {
      ghost var states0 := staticNodeDat;
      ghost var sol0 := globalSol[..];
      wasSwitched := false;
      var n := 0;
      while n < globalSol.Length
        invariant 0 <= n <= globalSol.Length
        invariant |staticNodeDat| == |states0|
        invariant forall m :: 0 <= m < n ==>
                    staticNodeDat[m] == SwitchedStates(states0, sol0, problem, IsothermalTemperature)[m]
        invariant forall m :: n <= m < |staticNodeDat| ==> staticNodeDat[m] == states0[m]
        invariant forall m :: 0 <= m < n ==>
                    globalSol[m] == SwitchedSolution(states0, sol0, problem, IsothermalTemperature)[m]
        invariant forall m :: n <= m < globalSol.Length ==> globalSol[m] == sol0[m]
        invariant wasSwitched <==>
                    exists m :: 0 <= m < n && NodeSwitches(states0, sol0, m, problem, IsothermalTemperature)
      {
        var s := PrimaryVarSwitch(globalSol, n);
        assert s <==> NodeSwitches(states0, sol0, n, problem, IsothermalTemperature);
        wasSwitched := s || wasSwitched;
        n := n + 1;
      }
      assert staticNodeDat == SwitchedStates(states0, sol0, problem, IsothermalTemperature);
      assert globalSol[..] == SwitchedSolution(states0, sol0, problem, IsothermalTemperature);
    }

    /** updateOldPhaseState: commits the current tag of every vertex. */
    method UpdateOldPhaseState()
      requires Valid()
      modifies this`staticNodeDat
      ensures Valid()
      ensures staticNodeDat == Committed(old(staticNodeDat))
    {
      ghost var states0 := staticNodeDat;
      var i := 0;
      while i < problem.numNodes
        invariant 0 <= i <= problem.numNodes
        invariant Valid()
        invariant forall m :: 0 <= m < i ==> staticNodeDat[m] == Committed(states0)[m]
        invariant forall m :: i <= m < |staticNodeDat| ==> staticNodeDat[m] == states0[m]
      {
        staticNodeDat := staticNodeDat[i := staticNodeDat[i].(oldPhaseState := staticNodeDat[i].phaseState)];
        i := i + 1;
      }
      assert staticNodeDat == Committed(states0);
    }

    /** resetPhaseState: returns every vertex to its accepted tag. */
    method ResetPhaseState()
      requires Valid()
      modifies this`staticNodeDat
      ensures Valid()
      ensures staticNodeDat == RolledBack(old(staticNodeDat))
    {
      ghost var states0 := staticNodeDat;
      var i := 0;
      while i < problem.numNodes
        invariant 0 <= i <= problem.numNodes
        invariant Valid()
        invariant forall m :: 0 <= m < i ==> staticNodeDat[m] == RolledBack(states0)[m]
        invariant forall m :: i <= m < |staticNodeDat| ==> staticNodeDat[m] == states0[m]
      {
        staticNodeDat := staticNodeDat[i := staticNodeDat[i].(phaseState := staticNodeDat[i].oldPhaseState)];
        i := i + 1;
      }
      assert staticNodeDat == RolledBack(states0);
    }

    /** switched: whether the last switch pass changed some tag. */
    method Switched() returns (yes: bool)
      ensures yes == switchFlag
    {
      yes := switchFlag;
    }

    /** setSwitched: records whether a switch pass changed some tag. */
    method SetSwitched(yesno: bool)
      modifies this`switchFlag
      ensures switchFlag == yesno
    {
      switchFlag := yesno;
    }
  }
}
