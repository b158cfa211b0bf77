/**
 Per-node neighbour storage of the proximity graph (layer.rs). A node takes
 part in one to four tiers; each tier it takes part in holds a fixed-length
 array of node positions. The tier-0 array is present in every variant and is
 reached through the same accessor whatever the variant.
 */
module Layers {

  /** The const generics `L0`, `L1`, `L2`, `L3`: the fixed length of each tier's array. */
  datatype Capacities = Capacities(l0: nat, l1: nat, l2: nat, l3: nat)

  /** `Layer<L0, L1, L2, L3>`. Array entries are node positions (`usize`). */
  datatype Layer =
    | Layer0(l0Neighbors: seq<nat>)
    | Layer1(l0Neighbors: seq<nat>, l1Neighbors: seq<nat>)
    | Layer2(l0Neighbors: seq<nat>, l1Neighbors: seq<nat>, l2Neighbors: seq<nat>)
    | Layer3(l0Neighbors: seq<nat>, l1Neighbors: seq<nat>, l2Neighbors: seq<nat>, l3Neighbors: seq<nat>)

  /** Every array the variant carries has its tier's fixed length, as the
      array types `[usize; Lk]` force. */
  predicate WellFormed(layer: Layer, caps: Capacities) {
    && |layer.l0Neighbors| == caps.l0
    && (!layer.Layer0? ==> |layer.l1Neighbors| == caps.l1)
    && ((layer.Layer2? || layer.Layer3?) ==> |layer.l2Neighbors| == caps.l2)
    && (layer.Layer3? ==> |layer.l3Neighbors| == caps.l3)
  }

  /** How many tiers the variant takes part in (its tag). */
  function Tiers(layer: Layer): (n: nat)
    ensures 1 <= n <= 4
  {
    match layer
    case Layer0(_) => 1
    case Layer1(_, _) => 2
    case Layer2(_, _, _) => 3
    case Layer3(_, _, _, _) => 4
  }

  /** The arrays of tiers 1 and up, lowest first. */
  function HigherTiers(layer: Layer): (tiers: seq<seq<nat>>)
    ensures |tiers| == Tiers(layer) - 1
  {
    match layer
    case Layer0(_) => []
    case Layer1(_, a1) => [a1]
    case Layer2(_, a1, a2) => [a1, a2]
    case Layer3(_, a1, a2, a3) => [a1, a2, a3]
  }

  /** `Layer::l0`: defined for all four variants, it yields the variant's own
      tier-0 array, which has length `L0` in a well-formed layer. */
  function L0(layer: Layer): (a: seq<nat>)
    ensures a == layer.l0Neighbors
    ensures forall caps :: WellFormed(layer, caps) ==> |a| == caps.l0
  {
    match layer
    case Layer0(a0) => a0
    case Layer1(a0, _) => a0
    case Layer2(a0, _, _) => a0
    case Layer3(a0, _, _, _) => a0
  }

  /** Writing `a` through `Layer::l0_mut`. The borrowed array has type
      `[usize; L0]`, so only an array of the current length can be stored.
      Reading tier 0 afterwards gives `a`; the variant and every higher tier
      are untouched; well-formedness is kept; and writing back what was read
      changes nothing. */
  function WithL0(layer: Layer, a: seq<nat>): (r: Layer)
    requires |a| == |L0(layer)|
    ensures L0(r) == a
    ensures Tiers(r) == Tiers(layer)
    ensures HigherTiers(r) == HigherTiers(layer)
    ensures forall caps :: WellFormed(layer, caps) ==> WellFormed(r, caps)
    ensures a == L0(layer) ==> r == layer
  {
    match layer
    case Layer0(_) => Layer0(a)
    case Layer1(_, a1) => Layer1(a, a1)
    case Layer2(_, a1, a2) => Layer2(a, a1, a2)
    case Layer3(_, a1, a2, a3) => Layer3(a, a1, a2, a3)
  }

  /** A second write through `l0_mut` replaces the first entirely. */
  lemma WithL0Twice(layer: Layer, a: seq<nat>, b: seq<nat>)
    requires |a| == |L0(layer)| && |b| == |a|
    ensures WithL0(WithL0(layer, a), b) == WithL0(layer, b)
  {
  }
}
