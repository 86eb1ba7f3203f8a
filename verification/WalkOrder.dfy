/**
 The order in which both kinds of database walk over their sectors.
 */
module WalkOrder {
  /** The walk starts at the oldest sector and wraps around at the end of the partition. */
  function SectorAt(oldest: nat, j: nat, n: nat): (s: nat)
    requires oldest < n && j < n
    ensures s < n
  {
    if oldest + j < n then oldest + j else oldest + j - n
  }

  function StepOf(oldest: nat, s: nat, n: nat): (j: nat)
    requires oldest < n && s < n
    ensures j < n && SectorAt(oldest, j, n) == s
  {
    if oldest <= s then s - oldest else s + n - oldest
  }
}
