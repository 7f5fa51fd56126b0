/**
 * The cost of one step of the road search (src/dijkstra.rs:108-111, 130-162).
 *
 * The source computes in f32. Here every cost is an integer in thousandths of the
 * source's unit: the distance factor of an offset is 1000 for a straight step and
 * 1414 (sqrt 2, rounded down) for a diagonal one, and heights are integers in the source's
 * unit.
 */
module Cost {
  import opened Grid

  const CostOfStepOnRoad: nat := 1
  const CostOfBuildRoad: nat := 100
  const CostOfBuildBridge: nat := 1000
  const CostOfClimbMultiplier: nat := 3000

  /** One source unit of cost, in model units. */
  const Scale: nat := 1000

  /** `sqrt(dr * dr + dc * dc)` in thousandths, for an offset of one of the eight neighbours. */
  function Factor(dr: int, dc: int): (f: nat)
    ensures f == Scale || f == 1414
  {
    if dr * dr + dc * dc == 1 then Scale else 1414
  }

  /** For each of the eight offsets the factor is `sqrt(dr * dr + dc * dc)` in thousandths, rounded down. */
  lemma FactorIsRoundedRoot(dr: int, dc: int)
    requires Adjacent((0, 0), (dr, dc))
    ensures var f := Factor(dr, dc); f * f <= Scale * Scale * (dr * dr + dc * dc) < (f + 1) * (f + 1)
  {
  }

  function Abs(x: int): nat { if x < 0 then -x else x }

  /** The squared climb term `(|height[v] - height[u]| * climb * factor)^2`, kept in thousandths. */
  function Steepness(t: Terrain, u: Cell, v: Cell): nat {
    var s := Abs(t.Elevation(v) - t.Elevation(u)) * CostOfClimbMultiplier * Factor(v.0 - u.0, v.1 - u.1);
    s * s / Scale
  }

  /**
   * The climb term vanishes exactly on a flat step, and climbing up costs the same as
   * climbing down.
   */
  lemma SteepnessVanishes(t: Terrain, u: Cell, v: Cell)
    ensures Steepness(t, u, v) == 0 <==> t.Elevation(u) == t.Elevation(v)
    ensures Steepness(t, u, v) == Steepness(t, v, u)
  {
    assert Factor(u.0 - v.0, u.1 - v.1) == Factor(v.0 - u.0, v.1 - u.1);
    assert Abs(t.Elevation(u) - t.Elevation(v)) == Abs(t.Elevation(v) - t.Elevation(u));
    ClimbVanishes(Abs(t.Elevation(v) - t.Elevation(u)), Factor(v.0 - u.0, v.1 - u.1));
  }

  /** The climb term of a height difference `d` is zero exactly when `d` is. */
  lemma ClimbVanishes(d: nat, f: nat)
    requires f >= Scale
    ensures (d * CostOfClimbMultiplier * f) * (d * CostOfClimbMultiplier * f) / Scale == 0 <==> d == 0
  {
    var c := d * CostOfClimbMultiplier;
    if d != 0 {
      AtLeast(c, f);
      AtLeast(c * f, c * f);
    }
  }

  /** A factor of at least one does not shrink a product. */
  lemma AtLeast(x: nat, y: nat)
    requires x >= 1
    ensures x * y >= y
  {
  }

  /**
   * The per-unit price of entering `v`: an existing road, else a bridge over water, else new
   * road. Reusing a road is the one cheapest price, and a bridge the dearest.
   */
  function BaseCost(t: Terrain, v: Cell): (p: nat)
    ensures CostOfStepOnRoad <= p <= CostOfBuildBridge
    ensures t.Road(v) == 0 ==> CostOfStepOnRoad < p
  {
    if t.Road(v) != 0 then CostOfStepOnRoad
    else if t.Water(v) then CostOfBuildBridge
    else CostOfBuildRoad
  }

  /**
   * The cost of the step from `u` into its neighbour `v`: at least the base price of `v`
   * per unit of distance, and exactly the base price times the distance factor on a flat
   * step.
   */
  function EdgeCost(t: Terrain, u: Cell, v: Cell): (c: nat)
    ensures c >= BaseCost(t, v) * Scale
    ensures t.Elevation(u) == t.Elevation(v) ==> c == BaseCost(t, v) * Factor(v.0 - u.0, v.1 - u.1)
  {
    SteepnessVanishes(t, u, v);
    BaseCost(t, v) * Factor(v.0 - u.0, v.1 - u.1) + Steepness(t, u, v)
  }

  /** Every step costs at least one unit of road reuse times its distance factor; in particular it is positive. */
  lemma EdgeCostPositive(t: Terrain, u: Cell, v: Cell)
    ensures EdgeCost(t, u, v) >= CostOfStepOnRoad * Scale > 0
  {
    var f := Factor(v.0 - u.0, v.1 - u.1);
    assert BaseCost(t, v) >= 1;
    assert BaseCost(t, v) * f >= f;
  }

  /**
   * Reuse discount: marking the entered cell as road never makes the step dearer, and makes
   * it strictly cheaper when it was not a road before.
   */
  lemma RoadReuseIsCheaper(t: Terrain, u: Cell, v: Cell, roads: seq<seq<int>>)
    requires Get(roads, v, 0) != 0
    ensures EdgeCost(t.(roadLevel := roads), u, v) <= EdgeCost(t, u, v)
    ensures t.Road(v) == 0 ==> EdgeCost(t.(roadLevel := roads), u, v) < EdgeCost(t, u, v)
  {
    var t' := t.(roadLevel := roads);
    var f := Factor(v.0 - u.0, v.1 - u.1);
    assert Steepness(t', u, v) == Steepness(t, u, v);
    assert BaseCost(t', v) == CostOfStepOnRoad;
    if t.Road(v) == 0 {
      assert BaseCost(t, v) >= CostOfBuildRoad;
      assert BaseCost(t', v) * f < BaseCost(t, v) * f;
    }
  }

  /** The edge costs of a terrain, as one function of the step. */
  function Weights(t: Terrain): (w: (Cell, Cell) -> nat)
    ensures forall u, v :: w(u, v) == EdgeCost(t, u, v)
  {
    (u: Cell, v: Cell) => EdgeCost(t, u, v)
  }

  /** Every step of every terrain costs something. */
  lemma WeightsPositive(t: Terrain)
    ensures forall u, v :: Weights(t)(u, v) > 0
  {
    forall u, v ensures Weights(t)(u, v) > 0 {
      EdgeCostPositive(t, u, v);
    }
  }
}
