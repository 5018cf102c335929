/**
 * The collaborators of the local residual, supplied as values: the constitutive
 * laws of the problem (treated as uninterpreted functions) and the per-cell
 * geometry of the box scheme.
 */
module BoxProblem {
  import opened TwoPTwoCTraits

  /** A vector in world coordinates. */
  type Vector = seq<real>

  /** A corner of a grid cell: the cell's identity and the corner's local index. */
  datatype Site = Site(cell: nat, local: nat)

  /**
   * The problem: number of vertices, world dimension and every law the model
   * calls. Temperatures are passed explicitly.
   *  - materialPC(satW, site):           materialLaw().pC
   *  - mobW(satW, site, T, pW):          materialLaw().mobW
   *  - mobN(satN, site, T, pN):          materialLaw().mobN
   *  - xAW(pN, T), xWN(pN, T):           multicomp() solubility limits
   *  - densityW(T, pW, x), densityN(T, pN, x): phase densities
   *  - problemPC(satW, globalIdx):       problem.pC used by the switch
   *  - porosity(site), soilK(site, x, y): porosity and permeability tensor entries
   *  - gravity:                          the gravity vector
   *  - initialPhaseState(globalIdx):     the problem's initial phase state
   */
  datatype Problem = Problem(
    numNodes: nat,
    dim: nat,
    materialPC: (real, Site) -> real,
    mobW: (real, Site, real, real) -> real,
    mobN: (real, Site, real, real) -> real,
    xAW: (real, real) -> real,
    xWN: (real, real) -> real,
    densityW: (real, real, real) -> real,
    densityN: (real, real, real) -> real,
    problemPC: (real, nat) -> real,
    porosity: Site -> real,
    soilK: (Site, nat, nat) -> real,
    gravity: Vector,
    initialPhaseState: nat -> int)
  {
    predicate WellFormed()
    {
      |gravity| == dim
    }
  }

  /**
   * A face of a sub-control volume: the two nodes it separates, its normal
   * (scaled by its area) and the finite-element gradient of each node's shape
   * function at the face.
   */
  datatype Face = Face(i: nat, j: nat, normal: Vector, grad: seq<Vector>)

  /** The current cell: its identity, its nodes' global indices and its faces. */
  datatype CellGeometry = CellGeometry(id: nat, nNodes: nat, nodeIndex: seq<nat>, faces: seq<Face>)
  {
    predicate FaceFits(f: Face, dim: nat)
    {
      && f.i < nNodes && f.j < nNodes
      && |f.normal| == dim
      && nNodes <= |f.grad|
      && (forall k :: 0 <= k < |f.grad| ==> |f.grad[k]| == dim)
    }

    /** The cell's nodes fit a problem of `numNodes` vertices and a cell cache of `maxNodes` entries. */
    predicate WellFormed(numNodes: nat, maxNodes: nat)
    {
      && nNodes <= maxNodes
      && |nodeIndex| == nNodes
      && (forall k :: 0 <= k < nNodes ==> nodeIndex[k] < numNodes)
    }
  }
}
