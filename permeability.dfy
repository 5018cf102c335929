/**
 * Face permeability of the box scheme: the entry-wise harmonic mean of the
 * permeability tensors of the two nodes a face separates.
 */
module Permeability {

  /** The regulariser added to each entry before taking reciprocals. */
  const Eps: real := 1e-20

  /** The real-number formula 2 / (1/(a+Eps) + 1/(b+Eps)) is defined: no reciprocal of zero. */
  predicate HarmonicDefined(a: real, b: real)
  {
    a + Eps != 0.0 && b + Eps != 0.0 && (a + Eps) + (b + Eps) != 0.0
  }

  function Min(a: real, b: real): real { if a <= b then a else b }
  function Max(a: real, b: real): real { if a <= b then b else a }

  /** For positive x and y, 2 / (1/x + 1/y) lies between the smaller and the larger one. */
  lemma HarmonicBetween(x: real, y: real)
    requires 0.0 < x && 0.0 < y
    ensures Min(x, y) <= 2.0 / (1.0 / x + 1.0 / y) <= Max(x, y)
  {
    var h := 2.0 / (1.0 / x + 1.0 / y);
    assert 1.0 / x + 1.0 / y == (x + y) / (x * y);
    assert h == 2.0 * x * y / (x + y);
    if x <= y {
      assert 2.0 * x * x <= 2.0 * x * y <= 2.0 * x * y + (y - x) * y;
      assert x * (x + y) <= 2.0 * x * y <= y * (x + y);
    } else {
      assert y * (x + y) <= 2.0 * x * y <= x * (x + y);
    }
  }

  /** The regularised harmonic mean 2 / (1/(a+Eps) + 1/(b+Eps)) of two entries. */
  function RegularisedHarmonicMean(a: real, b: real): (r: real)
    requires HarmonicDefined(a, b)
    ensures 0.0 <= a && 0.0 <= b ==> Min(a, b) <= r <= Max(a, b) + Eps
  {
    var x, y := a + Eps, b + Eps;
    assert 0.0 <= a && 0.0 <= b ==> Min(x, y) <= 2.0 / (1.0 / x + 1.0 / y) <= Max(x, y) by {
      if 0.0 <= a && 0.0 <= b { HarmonicBetween(x, y); }
    }
    2.0 / (1.0 / x + 1.0 / y)
  }

  /**
   * One entry of the face permeability: an entry on which both tensors agree is kept,
   * any other entry is replaced by the regularised harmonic mean.
   */
  function HarmonicEntry(a: real, b: real): (r: real)
    requires a != b ==> HarmonicDefined(a, b)
    ensures a == b ==> r == a
    ensures 0.0 <= a && 0.0 <= b ==> Min(a, b) <= r <= Max(a, b) + Eps
  {
    if a == b then a else RegularisedHarmonicMean(a, b)
  }

  /** The face permeability does not depend on which node is called i and which j. */
  lemma HarmonicEntrySymmetric(a: real, b: real)
    requires a != b ==> HarmonicDefined(a, b)
    ensures HarmonicEntry(a, b) == HarmonicEntry(b, a)
  {
  }

  /** With Ki = 4 and Kj = 1 the face value is 1.6 up to the regulariser. */
  lemma HarmonicEntryExample()
    ensures 1.6 < HarmonicEntry(4.0, 1.0) < 1.6 + 2.0 * Eps
  {
    var x, y := 4.0 + Eps, 1.0 + Eps;
    assert 1.0 / x + 1.0 / y == (x + y) / (x * y);
    assert RegularisedHarmonicMean(4.0, 1.0) == 2.0 * x * y / (x + y);
  }

  /**
   * harmonicMeanK_: overwrites `Ki` entry by entry with the face permeability of
   * `Ki` and `Kj`.
   */
  method HarmonicMeanK(Ki: array2<real>, Kj: array2<real>)
    requires Ki != Kj
    requires Ki.Length0 == Kj.Length0 && Ki.Length1 == Kj.Length1
    requires forall x, y :: 0 <= x < Ki.Length0 && 0 <= y < Ki.Length1 && Ki[x, y] != Kj[x, y] ==>
               HarmonicDefined(Ki[x, y], Kj[x, y])
    modifies Ki
    ensures forall x, y :: 0 <= x < Ki.Length0 && 0 <= y < Ki.Length1 ==>
              Ki[x, y] == HarmonicEntry(old(Ki[x, y]), Kj[x, y])
  {
    var kx := 0;
    while kx < Ki.Length0
      invariant 0 <= kx <= Ki.Length0
      invariant forall x, y :: 0 <= x < kx && 0 <= y < Ki.Length1 ==>
                  Ki[x, y] == HarmonicEntry(old(Ki[x, y]), Kj[x, y])
      invariant forall x, y :: kx <= x < Ki.Length0 && 0 <= y < Ki.Length1 ==> Ki[x, y] == old(Ki[x, y])
    {
      var ky := 0;
      while ky < Ki.Length1
        invariant 0 <= ky <= Ki.Length1
        invariant forall x, y :: 0 <= x < kx && 0 <= y < Ki.Length1 ==>
                    Ki[x, y] == HarmonicEntry(old(Ki[x, y]), Kj[x, y])
        invariant forall y :: 0 <= y < ky ==> Ki[kx, y] == HarmonicEntry(old(Ki[kx, y]), Kj[kx, y])
        invariant forall y :: ky <= y < Ki.Length1 ==> Ki[kx, y] == old(Ki[kx, y])
        invariant forall x, y :: kx < x < Ki.Length0 && 0 <= y < Ki.Length1 ==> Ki[x, y] == old(Ki[x, y])
      {
        if Ki[kx, ky] != Kj[kx, ky] {
          Ki[kx, ky] := RegularisedHarmonicMean(Ki[kx, ky], Kj[kx, ky]);
        }
        ky := ky + 1;
      }
      kx := kx + 1;
    }
  }
}
