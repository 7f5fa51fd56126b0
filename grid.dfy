/** Grid cells and the four per-cell layers the planner works on. */
module Grid {

  datatype Option<T> = None | Some(value: T)

  /** A grid coordinate (row, column). */
  type Cell = (int, int)

  /** The eight non-zero offsets (dr, dc) with dr, dc in -1..1. */
  predicate Adjacent(u: Cell, v: Cell) {
    u != v && -1 <= v.0 - u.0 <= 1 && -1 <= v.1 - u.1 <= 1
  }

  /** A rectangular grid of `rows` rows of `cols` entries each. */
  ghost predicate Shaped<T>(g: seq<seq<T>>, rows: nat, cols: nat) {
    |g| == rows && forall r :: 0 <= r < rows ==> |g[r]| == cols
  }

  /** Reads an entry; outside the grid it yields `default`, which the planner never relies on. */
  function Get<T>(g: seq<seq<T>>, c: Cell, default: T): T {
    if 0 <= c.0 < |g| && 0 <= c.1 < |g[c.0]| then g[c.0][c.1] else default
  }

  /** Writes entry `c`, the effect of `g[c.0][c.1] = x` on a `Vec<Vec<_>>`. */
  function Put(g: seq<seq<int>>, c: Cell, x: int): (g': seq<seq<int>>)
    requires 0 <= c.0 < |g| && 0 <= c.1 < |g[c.0]|
    ensures |g'| == |g| && forall r :: 0 <= r < |g| ==> |g'[r]| == |g[r]|
    ensures Get(g', c, 0) == x
    ensures forall d: Cell :: d != c ==> Get(g', d, 0) == Get(g, d, 0)
  {
    g[c.0 := g[c.0][c.1 := x]]
  }

  /**
   * The read-only picture of the planner's state that the search uses: the terrain
   * (`heightMap`, `isWater`) and the two overlays (`roadLevel`, `houseLevel`).
   */
  datatype Terrain = Terrain(
    width: nat,
    height: nat,
    heightMap: seq<seq<int>>,
    isWater: seq<seq<bool>>,
    roadLevel: seq<seq<int>>,
    houseLevel: seq<seq<int>>)
  {
    ghost predicate Valid() {
      Shaped(heightMap, height, width) && Shaped(isWater, height, width) &&
      Shaped(roadLevel, height, width) && Shaped(houseLevel, height, width)
    }

    predicate InBounds(c: Cell) {
      0 <= c.0 < height && 0 <= c.1 < width
    }

    function Elevation(c: Cell): int { Get(heightMap, c, 0) }
    function Water(c: Cell): bool { Get(isWater, c, false) }
    function Road(c: Cell): int { Get(roadLevel, c, 0) }
    function House(c: Cell): int { Get(houseLevel, c, 0) }

    /** Every cell of the grid. */
    function AllCells(): (cells: set<Cell>)
      ensures forall c :: c in cells <==> InBounds(c)
    {
      set r, c | 0 <= r < height && 0 <= c < width :: (r, c)
    }
  }
}
