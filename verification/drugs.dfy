/**
 The `Drug` record and the one thing the list needs from it: an ordering by name.

 The list code only ever asks whether a comparison answered exactly `1` or
 exactly `-1`, so the string comparison behind `Drug.CompareTo` is kept
 abstract: any `Comparator` — a function on names whose answers lie in
 {-1, 0, 1}, flip sign when the arguments are swapped, and chain transitively —
 may stand for it. `Ordinal` is one such comparator (character-code
 lexicographic order), given to show the assumption can be met.
 */
module Drugs {

  /** One reimbursement record. Only `name` takes part in ordering; the other
      fields are payload that the list carries but never inspects. The
      floating-point fields of the source (size, quantity, prices, costs) are
      not represented. */
  datatype Drug = Drug(
    name: string,
    id: string,
    unit: string,
    numTar: int,
    daysSupply: int,
    claimLines: int)

  type Comparator = (string, string) -> int

  /** A total preorder on names, reported as -1, 0 or 1. */
  ghost predicate IsComparator(cmp: Comparator) {
    ThreeValued(cmp) && Antisymmetric(cmp) && Transitive(cmp)
  }

  ghost predicate ThreeValued(cmp: Comparator) {
    forall x, y :: -1 <= cmp(x, y) <= 1
  }

  /** Swapping the arguments flips the answer; so `cmp(x, x) == 0`. */
  ghost predicate Antisymmetric(cmp: Comparator) {
    forall x, y :: cmp(x, y) == -cmp(y, x)
  }

  /** Stated over `Between`, so that the verifier uses transitivity only
      where a proof asks for it through `Trans` (left to itself it would
      chain every pair of names in sight). */
  ghost predicate Transitive(cmp: Comparator) {
    forall x, y, z {:trigger Between(x, y, z)} ::
      cmp(x, y) <= 0 && cmp(y, z) <= 0 ==> cmp(x, z) <= 0
  }

  /** Names `x`, `y`, `z` considered in that order (a trigger only). */
  ghost predicate Between(x: string, y: string, z: string) {
    true
  }

  lemma Trans(cmp: Comparator, x: string, y: string, z: string)
    requires IsComparator(cmp)
    requires cmp(x, y) <= 0 && cmp(y, z) <= 0
    ensures cmp(x, z) <= 0
  {
    assert Between(x, y, z);
  }

  /** `Drug.CompareTo` (and `Node.CompareTo`, which delegates to it): the
      order of two records is the order of their names. */
  function Compare(cmp: Comparator, a: Drug, b: Drug): (r: int)
    requires IsComparator(cmp)
    ensures r == -1 || r == 0 || r == 1
    ensures r == -cmp(b.name, a.name)
    ensures a.name == b.name ==> r == 0
  {
    cmp(a.name, b.name)
  }

  /** Strictly-less chains through less-or-equal on either side. */
  lemma LessLeq(cmp: Comparator, x: string, y: string, z: string)
    requires IsComparator(cmp)
    requires cmp(x, y) < 0 && cmp(y, z) <= 0
    ensures cmp(x, z) < 0
  {
    Trans(cmp, x, y, z);
    if cmp(x, z) == 0 {
      Trans(cmp, y, z, x);
    }
  }

  lemma LeqLess(cmp: Comparator, x: string, y: string, z: string)
    requires IsComparator(cmp)
    requires cmp(x, y) <= 0 && cmp(y, z) < 0
    ensures cmp(x, z) < 0
  {
    Trans(cmp, x, y, z);
    if cmp(x, z) == 0 {
      Trans(cmp, z, x, y);
    }
  }

  /** Ordinal comparison: character codes, left to right, a proper prefix
      first. */
  function Ordinal(x: string, y: string): int
  {
    if x == [] && y == [] then 0
    else if x == [] then -1
    else if y == [] then 1
    else if x[0] < y[0] then -1
    else if x[0] > y[0] then 1
    else Ordinal(x[1..], y[1..])
  }

  lemma {:induction false} OrdinalRange(x: string, y: string)
    ensures -1 <= Ordinal(x, y) <= 1
    ensures Ordinal(x, y) == -Ordinal(y, x)
  {
    if x != [] && y != [] && x[0] == y[0] {
      OrdinalRange(x[1..], y[1..]);
    }
  }

  lemma {:induction false} OrdinalTransitive(x: string, y: string, z: string)
    ensures Ordinal(x, y) <= 0 && Ordinal(y, z) <= 0 ==> Ordinal(x, z) <= 0
  {
    if x != [] && y != [] && z != [] && x[0] == y[0] && y[0] == z[0] {
      OrdinalTransitive(x[1..], y[1..], z[1..]);
    }
  }

  /** Ordinal comparison meets the assumptions the list makes of `CompareTo`. */
  lemma OrdinalIsComparator()
    ensures IsComparator(Ordinal)
  {
    OrdinalThreeValued();
    OrdinalAntisymmetric();
    OrdinalTransitiveAll();
  }

  lemma OrdinalThreeValued()
    ensures ThreeValued(Ordinal)
  {
    forall x, y ensures -1 <= Ordinal(x, y) <= 1 {
      OrdinalRange(x, y);
    }
  }

  lemma OrdinalAntisymmetric()
    ensures Antisymmetric(Ordinal)
  {
    forall x, y ensures Ordinal(x, y) == -Ordinal(y, x) {
      OrdinalRange(x, y);
    }
  }

  lemma OrdinalTransitiveAll()
    ensures Transitive(Ordinal)
  {
    forall x, y, z
      ensures Ordinal(x, y) <= 0 && Ordinal(y, z) <= 0 ==> Ordinal(x, z) <= 0
    {
      OrdinalTransitive(x, y, z);
    }
  }
}
