/**
 * The storage and flux algebra of the local residual, as functions of the cached
 * node data: storage of both components in a sub-control volume, finite-element
 * gradients, gravity correction, Darcy velocity through a face and upwinding.
 */
module LocalResidual {
  import opened TwoPTwoCTraits
  import opened BoxProblem
  import opened NodeData
  import opened Permeability

  // ---------------------------------------------------------------------------
  // Vector algebra in world coordinates

  function Zero(dim: nat): (v: Vector)
    ensures |v| == dim && forall d :: 0 <= d < dim ==> v[d] == 0.0
  {
    seq(dim, _ => 0.0)
  }

  /** `acc + s * g`, entry by entry. */
  function Axpy(acc: Vector, g: Vector, s: real): (r: Vector)
    requires |g| == |acc|
    ensures |r| == |acc|
  {
    seq(|acc|, d requires 0 <= d < |acc| => acc[d] + g[d] * s)
  }

  /** `a - s * g`, entry by entry. */
  function SubScaled(a: Vector, g: Vector, s: real): (r: Vector)
    requires |g| == |a|
    ensures |r| == |a|
  {
    seq(|a|, d requires 0 <= d < |a| => a[d] - g[d] * s)
  }

  function Dot(a: Vector, b: Vector): real
    requires |a| == |b|
  {
    if a == [] then 0.0 else a[0] * b[0] + Dot(a[1..], b[1..])
  }

  /** Matrix-vector product `K v` of a tensor given by its rows. */
  function MatVec(K: seq<Vector>, v: Vector): (r: Vector)
    requires forall x :: 0 <= x < |K| ==> |K[x]| == |v|
    ensures |r| == |K|
  {
    seq(|K|, x requires 0 <= x < |K| => Dot(K[x], v))
  }

  // ---------------------------------------------------------------------------
  // Storage term

  /** Mass of both phases per pore volume, `rhoW Sw + rhoN Sn`. */
  function PhaseMass(d: VariableNodeData): real
  {
    d.density.w * d.satW + d.density.n * d.satN
  }

  /**
   * localRate without the (isothermal, empty) heat term: the stored mass of the
   * wetting component and of the non-wetting component in a sub-control volume.
   * Since each phase's mass fractions sum to one, the two components together
   * hold the mass of both phases.
   */
  function Storage(d: VariableNodeData, porosity: real): (r: UnknownsVector)
    ensures Consistent(d) ==> r[PwIndex] + r[SwitchIndex] == porosity * PhaseMass(d)
  {
    var water := d.density.w * d.satW * d.massfrac.wInW + d.density.n * d.satN * d.massfrac.wInN;
    var air := d.density.n * d.satN * d.massfrac.nInN + d.density.w * d.satW * d.massfrac.nInW;
    assert Consistent(d) ==> water + air == PhaseMass(d) by {
      if Consistent(d) {
        var rw, rn := d.density.w * d.satW, d.density.n * d.satN;
        assert rw * d.massfrac.wInW + rw * d.massfrac.nInW == rw * (d.massfrac.wInW + d.massfrac.nInW);
        assert rn * d.massfrac.wInN + rn * d.massfrac.nInN == rn * (d.massfrac.wInN + d.massfrac.nInN);
      }
    }
    [porosity * water, porosity * air]
  }

  /**
   * With only the wetting phase present, the stored air is the dissolved air
   * `porosity rhoW X` and the stored water the rest of the wetting phase.
   */
  lemma StorageWettingOnly(u: UnknownsVector, site: Site, problem: Problem, temperature: real, porosity: real)
    ensures var r := UpdateVarNodeData(u, WPhaseOnly, site, problem, temperature);
            var d := r.value;
            r.Success? &&
            Storage(d, porosity)[PwIndex] == porosity * d.density.w * (1.0 - u[SwitchIndex]) &&
            Storage(d, porosity)[SwitchIndex] == porosity * d.density.w * u[SwitchIndex]
  {
    var d := UpdateVarNodeData(u, WPhaseOnly, site, problem, temperature).value;
    var x := u[SwitchIndex];
    assert d.satN == 0.0 && d.satW == 1.0;
    assert d.massfrac.nInW == x && d.massfrac.wInW == 1.0 - x;
    var r := Storage(d, porosity);
    assert r[PwIndex] == porosity * (d.density.w * 1.0 * (1.0 - x) + d.density.n * 0.0 * d.massfrac.wInN);
    assert r[SwitchIndex] == porosity * (d.density.n * 0.0 * d.massfrac.nInN + d.density.w * 1.0 * x);
    assert r[PwIndex] == porosity * d.density.w * (1.0 - x);
    assert r[SwitchIndex] == porosity * d.density.w * x;
  }

  /** With only the non-wetting phase present, the stored water is the dissolved water. */
  lemma StorageNonwettingOnly(u: UnknownsVector, site: Site, problem: Problem, temperature: real, porosity: real)
    ensures var r := UpdateVarNodeData(u, NPhaseOnly, site, problem, temperature);
            var d := r.value;
            r.Success? &&
            Storage(d, porosity)[PwIndex] == porosity * d.density.n * u[SwitchIndex] &&
            Storage(d, porosity)[SwitchIndex] == porosity * d.density.n * (1.0 - u[SwitchIndex])
  {
    var d := UpdateVarNodeData(u, NPhaseOnly, site, problem, temperature).value;
    var x := u[SwitchIndex];
    assert d.satN == 1.0 && d.satW == 0.0;
    assert d.massfrac.wInN == x && d.massfrac.nInN == 1.0 - x;
    var r := Storage(d, porosity);
    assert r[PwIndex] == porosity * (d.density.w * 0.0 * d.massfrac.wInW + d.density.n * 1.0 * x);
    assert r[SwitchIndex] == porosity * (d.density.n * 1.0 * (1.0 - x) + d.density.w * 0.0 * d.massfrac.nInW);
    assert r[PwIndex] == porosity * d.density.n * x;
    assert r[SwitchIndex] == porosity * d.density.n * (1.0 - x);
  }

  // ---------------------------------------------------------------------------
  // Gradients at a face

  /** The nodal quantities whose finite-element gradients the flux accumulates. */
  datatype NodeQuantity = WettingPressure | NonwettingPressure | AirInWetting | WaterInNonwetting

  function QuantityOf(d: VariableNodeData, q: NodeQuantity): real
  {
    match q
    case WettingPressure => d.pW
    case NonwettingPressure => d.pN
    case AirInWetting => d.massfrac.nInW
    case WaterInNonwetting => d.massfrac.wInN
  }

  /** The finite-element gradient at a face of quantity `q`, summed over the first `n` nodes. */
  function FeGradient(grads: seq<Vector>, cache: seq<VariableNodeData>, q: NodeQuantity,
                      n: nat, dim: nat): (r: Vector)
    requires n <= |grads| && n <= |cache|
    requires forall k :: 0 <= k < |grads| ==> |grads[k]| == dim
    ensures |r| == dim
  {
    if n == 0 then Zero(dim)
    else Axpy(FeGradient(grads, cache, q, n - 1, dim), grads[n - 1], QuantityOf(cache[n - 1], q))
  }

  /** The sum of the first `n` shape-function gradients. */
  function GradientSum(grads: seq<Vector>, n: nat, dim: nat): (r: Vector)
    requires n <= |grads|
    requires forall k :: 0 <= k < |grads| ==> |grads[k]| == dim
    ensures |r| == dim
  {
    if n == 0 then Zero(dim) else Axpy(GradientSum(grads, n - 1, dim), grads[n - 1], 1.0)
  }

  /** A quantity with the same value `c` at the first `n` nodes has gradient `c` times
      the sum of the shape-function gradients. */
  lemma {:induction false} FeGradientOfUniformField(grads: seq<Vector>, cache: seq<VariableNodeData>,
                                                    q: NodeQuantity, n: nat, dim: nat, c: real)
    requires n <= |grads| && n <= |cache|
    requires forall k :: 0 <= k < |grads| ==> |grads[k]| == dim
    requires forall k :: 0 <= k < n ==> QuantityOf(cache[k], q) == c
    ensures forall d :: 0 <= d < dim ==>
              FeGradient(grads, cache, q, n, dim)[d] == c * GradientSum(grads, n, dim)[d]
  {
    if n > 0 {
      FeGradientOfUniformField(grads, cache, q, n - 1, dim, c);
      forall d | 0 <= d < dim
        ensures FeGradient(grads, cache, q, n, dim)[d] == c * GradientSum(grads, n, dim)[d]
      {
        var prev := FeGradient(grads, cache, q, n - 1, dim)[d];
        var sum := GradientSum(grads, n - 1, dim)[d];
        assert FeGradient(grads, cache, q, n, dim)[d] == prev + grads[n - 1][d] * c;
        assert GradientSum(grads, n, dim)[d] == sum + grads[n - 1][d] * 1.0;
        assert c * (sum + grads[n - 1][d]) == c * sum + grads[n - 1][d] * c;
      }
    }
  }

  // ---------------------------------------------------------------------------
  // Upwinding and the advective flux

  /** The node whose values a phase carries through the face: node j when the projected
      Darcy velocity is positive, node i otherwise. */
  function Upstream(vDarcyOut: real, i: nat, j: nat): (r: nat)
    ensures r == i || r == j
  {
    if vDarcyOut > 0.0 then j else i
  }

  /** The other node of the face. */
  function Downstream(vDarcyOut: real, i: nat, j: nat): (r: nat)
    ensures (r == i && Upstream(vDarcyOut, i, j) == j) || (r == j && Upstream(vDarcyOut, i, j) == i)
  {
    if vDarcyOut > 0.0 then i else j
  }

  /** `rho lambda` of the wetting and the non-wetting phase. */
  function CarrierW(d: VariableNodeData): real { d.density.w * d.mobility.w }
  function CarrierN(d: VariableNodeData): real { d.density.n * d.mobility.n }

  /** `alpha * up + (1 - alpha) * dn`. */
  function Blend(alpha: real, up: real, dn: real): real { alpha * up + (1.0 - alpha) * dn }

  /**
   * The advective flux of the wetting component (index PwIndex) and of the
   * non-wetting component (index SwitchIndex) through a face, given the projected
   * Darcy velocities of both phases and the up- and downstream node data of each
   * phase. Each phase carries `rho lambda X` of each component, blended with `alpha`.
   */
  function AdvectiveFlux(vW: real, vN: real, upW: VariableNodeData, dnW: VariableNodeData,
                         upN: VariableNodeData, dnN: VariableNodeData, alpha: real): UnknownsVector
  {
    var waterW := Blend(alpha, CarrierW(upW) * upW.massfrac.wInW, CarrierW(dnW) * dnW.massfrac.wInW);
    var waterN := Blend(alpha, CarrierN(upN) * upN.massfrac.wInN, CarrierN(dnN) * dnN.massfrac.wInN);
    var airN := Blend(alpha, CarrierN(upN) * upN.massfrac.nInN, CarrierN(dnN) * dnN.massfrac.nInN);
    var airW := Blend(alpha, CarrierW(upW) * upW.massfrac.nInW, CarrierW(dnW) * dnW.massfrac.nInW);
    [vW * waterW + vN * waterN, vN * airN + vW * airW]
  }

  /** Because each phase's fractions sum to one, the two components together carry
      `rho lambda` of each phase. */
  lemma AdvectiveFluxCarriesPhases(vW: real, vN: real, upW: VariableNodeData, dnW: VariableNodeData,
                                   upN: VariableNodeData, dnN: VariableNodeData, alpha: real)
    requires Consistent(upW) && Consistent(dnW) && Consistent(upN) && Consistent(dnN)
    ensures var r := AdvectiveFlux(vW, vN, upW, dnW, upN, dnN, alpha);
            r[PwIndex] + r[SwitchIndex]
            == vW * Blend(alpha, CarrierW(upW), CarrierW(dnW)) + vN * Blend(alpha, CarrierN(upN), CarrierN(dnN))
  {
    PhasesSplit(vW, vN, alpha,
                CarrierW(upW), upW.massfrac.wInW, upW.massfrac.nInW, CarrierW(dnW), dnW.massfrac.wInW, dnW.massfrac.nInW,
                CarrierN(upN), upN.massfrac.wInN, upN.massfrac.nInN, CarrierN(dnN), dnN.massfrac.wInN, dnN.massfrac.nInN);
  }

  /** The phase totals of `AdvectiveFluxCarriesPhases`, over the carriers and fractions alone. */
  lemma PhasesSplit(vW: real, vN: real, alpha: real,
                    cuW: real, auW: real, buW: real, cdW: real, adW: real, bdW: real,
                    cuN: real, auN: real, buN: real, cdN: real, adN: real, bdN: real)
    requires auW + buW == 1.0 && adW + bdW == 1.0 && auN + buN == 1.0 && adN + bdN == 1.0
    ensures (vW * Blend(alpha, cuW * auW, cdW * adW) + vN * Blend(alpha, cuN * auN, cdN * adN))
            + (vN * Blend(alpha, cuN * buN, cdN * bdN) + vW * Blend(alpha, cuW * buW, cdW * bdW))
            == vW * Blend(alpha, cuW, cdW) + vN * Blend(alpha, cuN, cdN)
  {
    var waterW, airW := Blend(alpha, cuW * auW, cdW * adW), Blend(alpha, cuW * buW, cdW * bdW);
    var waterN, airN := Blend(alpha, cuN * auN, cdN * adN), Blend(alpha, cuN * buN, cdN * bdN);
    BlendSplits(alpha, cuW, auW, buW, cdW, adW, bdW);
    BlendSplits(alpha, cuN, auN, buN, cdN, adN, bdN);
    TwoPhaseTotal(vW, vN, waterW, airW, waterN, airN);
  }

  /** Regrouping the component fluxes by phase. */
  lemma TwoPhaseTotal(vW: real, vN: real, waterW: real, airW: real, waterN: real, airN: real)
    ensures (vW * waterW + vN * waterN) + (vN * airN + vW * airW) == vW * (waterW + airW) + vN * (waterN + airN)
  {
    assert vW * waterW + vW * airW == vW * (waterW + airW);
    assert vN * waterN + vN * airN == vN * (waterN + airN);
  }

  /** Splitting the carried mass of a phase by fractions that sum to one and blending the
      parts gives the blend of the whole. */
  lemma BlendSplits(alpha: real, cu: real, au: real, bu: real, cd: real, ad: real, bd: real)
    requires au + bu == 1.0 && ad + bd == 1.0
    ensures Blend(alpha, cu * au, cd * ad) + Blend(alpha, cu * bu, cd * bd) == Blend(alpha, cu, cd)
  {
    assert cu * au + cu * bu == cu * (au + bu);
    assert cd * ad + cd * bd == cd * (ad + bd);
    assert alpha * (cu * au) + alpha * (cu * bu) == alpha * (cu * au + cu * bu);
    assert (1.0 - alpha) * (cd * ad) + (1.0 - alpha) * (cd * bd) == (1.0 - alpha) * (cd * ad + cd * bd);
  }

  /** With full upwinding (alpha = 1) the downstream nodes do not contribute. */
  lemma FullUpwindIgnoresDownstream(vW: real, vN: real, upW: VariableNodeData, dnW: VariableNodeData,
                                    upN: VariableNodeData, dnN: VariableNodeData,
                                    dnW': VariableNodeData, dnN': VariableNodeData)
    ensures AdvectiveFlux(vW, vN, upW, dnW, upN, dnN, 1.0)[PwIndex]
            == AdvectiveFlux(vW, vN, upW, dnW', upN, dnN', 1.0)[PwIndex]
            == vW * (CarrierW(upW) * upW.massfrac.wInW) + vN * (CarrierN(upN) * upN.massfrac.wInN)
    ensures AdvectiveFlux(vW, vN, upW, dnW, upN, dnN, 1.0)[SwitchIndex]
            == AdvectiveFlux(vW, vN, upW, dnW', upN, dnN', 1.0)[SwitchIndex]
            == vN * (CarrierN(upN) * upN.massfrac.nInN) + vW * (CarrierW(upW) * upW.massfrac.nInW)
  {
    forall a, b ensures Blend(1.0, a, b) == a {
      FullUpwindBlend(a, b);
    }
  }

  /** Blending with alpha = 1 keeps the upstream value. */
  lemma FullUpwindBlend(up: real, dn: real)
    ensures Blend(1.0, up, dn) == up
  {
    assert (1.0 - 1.0) * dn == 0.0;
  }

  // ---------------------------------------------------------------------------
  // The flux through one face

  /** Every entry of the two nodes' tensors that differs admits the harmonic mean. */
  predicate PermeabilityAdmissible(problem: Problem, si: Site, sj: Site)
  {
    forall x: nat, y: nat :: x < problem.dim && y < problem.dim && problem.soilK(si, x, y) != problem.soilK(sj, x, y) ==>
      HarmonicDefined(problem.soilK(si, x, y), problem.soilK(sj, x, y))
  }

  /** The face permeability: entry-wise harmonic mean of the tensors at `si` and `sj`. */
  function EffectivePermeability(problem: Problem, si: Site, sj: Site): (K: seq<Vector>)
    requires PermeabilityAdmissible(problem, si, sj)
    ensures |K| == problem.dim && forall x :: 0 <= x < |K| ==> |K[x]| == problem.dim
  {
    seq(problem.dim, x requires 0 <= x < problem.dim =>
      seq(problem.dim, y requires 0 <= y < problem.dim =>
        HarmonicEntry(problem.soilK(si, x, y), problem.soilK(sj, x, y))))
  }

  /** A tensor holding the harmonic mean of the two nodes' tensors in every entry is the
      face permeability. */
  lemma HarmonicTensorIsFacePermeability(T: seq<Vector>, problem: Problem, si: Site, sj: Site)
    requires PermeabilityAdmissible(problem, si, sj)
    requires |T| == problem.dim && forall x :: 0 <= x < |T| ==> |T[x]| == problem.dim
    requires forall x, y :: 0 <= x < problem.dim && 0 <= y < problem.dim ==>
               T[x][y] == HarmonicEntry(problem.soilK(si, x, y), problem.soilK(sj, x, y))
    ensures T == EffectivePermeability(problem, si, sj)
  {
    var E := EffectivePermeability(problem, si, sj);
    forall x | 0 <= x < problem.dim
      ensures T[x] == E[x]
    {
      assert forall y :: 0 <= y < problem.dim ==> T[x][y] == E[x][y];
    }
  }

  /** The Darcy velocity of a phase projected on the face normal: `(K grad) . normal`. */
  function DarcyOut(K: seq<Vector>, grad: Vector, normal: Vector): real
    requires |normal| == |K|
    requires forall x :: 0 <= x < |K| ==> |K[x]| == |grad|
  {
    Dot(MatVec(K, grad), normal)
  }

  /** The pressure gradient of a phase at a face, corrected by the hydrostatic gradient. */
  function PotentialGradient(cache: seq<VariableNodeData>, face: Face, q: NodeQuantity, rho: real,
                             nNodes: nat, problem: Problem): (g: Vector)
    requires problem.WellFormed()
    requires nNodes <= |face.grad| && nNodes <= |cache|
    requires forall k :: 0 <= k < |face.grad| ==> |face.grad[k]| == problem.dim
    ensures |g| == problem.dim
  {
    SubScaled(FeGradient(face.grad, cache, q, nNodes, problem.dim), problem.gravity, rho)
  }

  /** The geometry of `face` fits a cell of `nNodes` nodes and the problem, and the
      permeabilities of its two nodes admit the harmonic mean. */
  predicate FaceAdmissible(cache: seq<VariableNodeData>, face: Face, cellId: nat, nNodes: nat, problem: Problem)
  {
    && problem.WellFormed()
    && face.i < nNodes && face.j < nNodes && nNodes <= |face.grad| && nNodes <= |cache|
    && |face.normal| == problem.dim
    && (forall k :: 0 <= k < |face.grad| ==> |face.grad[k]| == problem.dim)
    && PermeabilityAdmissible(problem, Site(cellId, face.i), Site(cellId, face.j))
  }

  /**
   * The Darcy velocity of phase `phase` projected on the normal of `face`: the gradient of
   * the phase pressure, corrected with node i's density, through the face permeability.
   */
  function FaceVelocity(cache: seq<VariableNodeData>, face: Face, cellId: nat, nNodes: nat,
                        problem: Problem, phase: nat): real
    requires FaceAdmissible(cache, face, cellId, nNodes, problem)
  {
    var K := EffectivePermeability(problem, Site(cellId, face.i), Site(cellId, face.j));
    if phase == WPhaseIndex then
      DarcyOut(K, PotentialGradient(cache, face, WettingPressure, cache[face.i].density.w, nNodes, problem), face.normal)
    else
      DarcyOut(K, PotentialGradient(cache, face, NonwettingPressure, cache[face.i].density.n, nNodes, problem), face.normal)
  }

  /**
   * The advective part of fluxRate through a face between nodes `i` and `j`, given the
   * projected Darcy velocities of both phases: each phase takes the values of the node
   * its velocity makes upstream, blended with `alpha` with the downstream node.
   */
  function UpwindedFlux(cache: seq<VariableNodeData>, i: nat, j: nat, vW: real, vN: real,
                        alpha: real): UnknownsVector
    requires i < |cache| && j < |cache|
  {
    AdvectiveFlux(vW, vN, cache[Upstream(vW, i, j)], cache[Downstream(vW, i, j)],
                  cache[Upstream(vN, i, j)], cache[Downstream(vN, i, j)], alpha)
  }

  /**
   * With full upwinding, the two components together carry `rho lambda` of each phase
   * from the node its Darcy velocity makes upstream, scaled by that velocity.
   */
  lemma UpwindedFluxCarriesUpstream(cache: seq<VariableNodeData>, i: nat, j: nat, vW: real, vN: real)
    requires i < |cache| && j < |cache|
    requires Consistent(cache[i]) && Consistent(cache[j])
    ensures var r := UpwindedFlux(cache, i, j, vW, vN, 1.0);
            r[PwIndex] + r[SwitchIndex]
            == vW * CarrierW(cache[Upstream(vW, i, j)]) + vN * CarrierN(cache[Upstream(vN, i, j)])
  {
    var upW, dnW := cache[Upstream(vW, i, j)], cache[Downstream(vW, i, j)];
    var upN, dnN := cache[Upstream(vN, i, j)], cache[Downstream(vN, i, j)];
    AdvectiveFluxCarriesPhases(vW, vN, upW, dnW, upN, dnN, 1.0);
    FullUpwindBlend(CarrierW(upW), CarrierW(dnW));
    FullUpwindBlend(CarrierN(upN), CarrierN(dnN));
  }

  /**
   * Reversing the sign of a phase's Darcy velocity swaps the node it is upwinded from:
   * with full upwinding, the wetting component's flux in the wetting phase is taken from
   * node j for a positive velocity and from node i for a negative one.
   */
  lemma UpwindFollowsSign(v: real, i: nat, j: nat)
    requires v > 0.0
    ensures Upstream(v, i, j) == j && Downstream(v, i, j) == i
    ensures Upstream(-v, i, j) == i && Downstream(-v, i, j) == j
    ensures Upstream(0.0, i, j) == i
  {
  }
}
