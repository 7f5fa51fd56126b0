/**
 * The graph the road search explores (src/dijkstra.rs:129-164): from a cell one may step
 * to any in-bounds 8-neighbour that is not a house, except that the search's target `b`
 * may always be entered. Walks and their total cost are what the search minimises.
 */
module Walks {
  import opened Grid

  /** A cost for every step; the search uses the terrain's edge cost. */
  type Weight = (Cell, Cell) -> nat

  /** Every step costs something. */
  ghost predicate Positive(w: Weight) {
    forall u, v :: w(u, v) > 0
  }

  /** `v` is a candidate neighbour of `u` in a search towards `b`. */
  predicate Step(t: Terrain, b: Cell, u: Cell, v: Cell) {
    Adjacent(u, v) && t.InBounds(v) && (t.House(v) == 0 || v == b)
  }

  /** `p` is a walk from `a` to `v` made of candidate steps of a search towards `b`. */
  ghost predicate Walk(t: Terrain, b: Cell, a: Cell, v: Cell, p: seq<Cell>) {
    |p| >= 1 && p[0] == a && p[|p| - 1] == v &&
    forall i :: 0 <= i < |p| - 1 ==> Step(t, b, p[i], p[i + 1])
  }

  /** The sum of the edge costs along `p`. */
  function WalkCost(w: Weight, p: seq<Cell>): nat {
    if |p| < 2 then 0 else WalkCost(w, p[..|p| - 1]) + w(p[|p| - 2], p[|p| - 1])
  }

  /** Some walk leads from `a` to `b`. */
  ghost predicate Reachable(t: Terrain, a: Cell, b: Cell) {
    exists p :: Walk(t, b, a, b, p)
  }

  /** `d` is the least total cost of a walk from `a` to `b`. */
  ghost predicate MinCost(t: Terrain, w: Weight, a: Cell, b: Cell, d: int) {
    (exists p :: Walk(t, b, a, b, p) && WalkCost(w, p) == d) &&
    forall p :: Walk(t, b, a, b, p) ==> WalkCost(w, p) >= d
  }

  /** `p` is a walk from `a` to `b` of least total cost. */
  ghost predicate Shortest(t: Terrain, w: Weight, a: Cell, b: Cell, p: seq<Cell>) {
    Walk(t, b, a, b, p) && forall q :: Walk(t, b, a, b, q) ==> WalkCost(w, p) <= WalkCost(w, q)
  }

  /** Extending a walk by one candidate step adds exactly that step's cost. */
  lemma WalkExtend(t: Terrain, w: Weight, b: Cell, a: Cell, u: Cell, v: Cell, p: seq<Cell>)
    requires Walk(t, b, a, u, p) && Step(t, b, u, v)
    ensures Walk(t, b, a, v, p + [v])
    ensures WalkCost(w, p + [v]) == WalkCost(w, p) + w(u, v)
  {
    var q := p + [v];
    assert q[..|q| - 1] == p;
    forall i | 0 <= i < |q| - 1 ensures Step(t, b, q[i], q[i + 1]) {
      if i < |p| - 1 {
        assert q[i] == p[i] && q[i + 1] == p[i + 1];
      }
    }
  }

  /** Dropping the last cell of a walk of two or more cells leaves a walk to the one before. */
  lemma WalkInit(t: Terrain, w: Weight, b: Cell, a: Cell, v: Cell, p: seq<Cell>)
    requires Walk(t, b, a, v, p) && |p| >= 2
    ensures Walk(t, b, a, p[|p| - 2], p[..|p| - 1])
    ensures Step(t, b, p[|p| - 2], v)
    ensures WalkCost(w, p) == WalkCost(w, p[..|p| - 1]) + w(p[|p| - 2], v)
  {
    var q := p[..|p| - 1];
    forall i | 0 <= i < |q| - 1 ensures Step(t, b, q[i], q[i + 1]) {
      assert q[i] == p[i] && q[i + 1] == p[i + 1];
    }
  }

  /** `s` back to front. */
  function Reverse(s: seq<Cell>): (r: seq<Cell>)
    ensures |r| == |s| && forall i :: 0 <= i < |s| ==> r[i] == s[|s| - 1 - i]
  {
    if s == [] then [] else Reverse(s[1..]) + [s[0]]
  }

  /** A least cost attained by a walk makes that walk a shortest one. */
  lemma MinCostShortest(t: Terrain, w: Weight, a: Cell, b: Cell, d: int, p: seq<Cell>)
    requires MinCost(t, w, a, b, d) && Walk(t, b, a, b, p) && WalkCost(w, p) == d
    ensures Shortest(t, w, a, b, p)
  {
  }
}
