/**
 * The road planner `Dijkstra` of src/dijkstra.rs: its grids, `connect_once`, and one
 * round of the growth loop `connect`.
 *
 * `height_map` and `is_water` never change and are constants here; `road_level` and
 * `house_level` are updated in place by the planner and are fields that its methods
 * reassign. Each `DijkstraUpdate` sent on the channel is appended to the ghost log
 * `updates`.
 */
module Planner {
  import opened Grid
  import opened Cost
  import opened Walks
  import opened Search

  /** The message `connect_once` sends after a connection: the road cells and the two endpoints. */
  datatype Update = Update(path: seq<Cell>, houses: seq<Cell>)

  /** What one round of `connect` did. */
  datatype Round =
    | Retry(a: Cell, b: Cell)
    | Grew(a: Cell, b: Cell, path: seq<Cell>, sprout: Option<Cell>, evicted: Cell, moved: Cell)

  class Dijkstra {
    const width: nat
    const height: nat
    const heightMap: seq<seq<int>>
    const isWater: seq<seq<bool>>
    var roadLevel: seq<seq<int>>
    var houseLevel: seq<seq<int>>
    /** The updates sent on the channel so far. */
    ghost var updates: seq<Update>

    /** The current grids as one value. */
    function Snapshot(): Terrain
      reads this
    {
      Terrain(width, height, heightMap, isWater, roadLevel, houseLevel)
    }

    /** All four grids are `height` rows of `width` cells. */
    ghost predicate Valid()
      reads this
    {
      Snapshot().Valid()
    }

    constructor(width: nat, height: nat, heightMap: seq<seq<int>>, isWater: seq<seq<bool>>,
                roadLevel: seq<seq<int>>, houseLevel: seq<seq<int>>)
      requires Terrain(width, height, heightMap, isWater, roadLevel, houseLevel).Valid()
      ensures Valid()
      ensures Snapshot() == Terrain(width, height, heightMap, isWater, roadLevel, houseLevel)
      ensures updates == []
    {
      this.width := width;
      this.height := height;
      this.heightMap := heightMap;
      this.isWater := isWater;
      this.roadLevel := roadLevel;
      this.houseLevel := houseLevel;
      updates := [];
    }

    /**
     * `connect_once(a, b)`: search for a cheapest walk from `a` to `b`, mark the cells
     * strictly between them as road, mark both endpoints as houses (and not road), and
     * send one update. Nothing happens when either endpoint is water or `a == b`.
     *
     * The returned path lists the walk's inner cells from `b`'s side; `[a]`, the path
     * reversed, and `[b]` together form a cheapest walk of the grid as it was before.
     * When no walk exists the path is empty, but the endpoints are still marked.
     */
    method ConnectOnce(a: Cell, b: Cell) returns (path: seq<Cell>)
      requires Valid() && Snapshot().InBounds(a) && Snapshot().InBounds(b)
      modifies this
      ensures Valid()
      ensures Water(old(Snapshot()), a, b) || a == b ==>
        path == [] && roadLevel == old(roadLevel) && houseLevel == old(houseLevel) && updates == old(updates)
      ensures !Water(old(Snapshot()), a, b) && a != b ==>
        updates == old(updates) + [Update(path, [a, b])] &&
        Marked(old(Snapshot()), Snapshot(), a, b, path) &&
        (Reachable(old(Snapshot()), a, b) ==>
           Shortest(old(Snapshot()), Weights(old(Snapshot())), a, b, [a] + Reverse(path) + [b])) &&
        (!Reachable(old(Snapshot()), a, b) ==> path == [])
    {
      if isWater[a.0][a.1] || isWater[b.0][b.1] {
        return [];
      }
      if a == b {
        return [];
      }
      path := Join(a, b);
    }

    /** `connect_once` past its early returns: the search, the reconstruction, the marking and the update. */
    method Join(a: Cell, b: Cell) returns (path: seq<Cell>)
      requires Valid() && Snapshot().InBounds(a) && Snapshot().InBounds(b) && a != b
      modifies this
      ensures Valid()
      ensures updates == old(updates) + [Update(path, [a, b])]
      ensures Marked(old(Snapshot()), Snapshot(), a, b, path)
      ensures Reachable(old(Snapshot()), a, b) ==>
                Shortest(old(Snapshot()), Weights(old(Snapshot())), a, b, [a] + Reverse(path) + [b])
      ensures !Reachable(old(Snapshot()), a, b) ==> path == []
    {
      ghost var roads := roadLevel;
      path := Route(a, b);
      roads := roadLevel;
      houseLevel := Put(Put(houseLevel, a, 1), b, 1);
      roadLevel := Put(Put(roadLevel, a, 0), b, 0);
      updates := updates + [Update(path, [a, b])];
      MarkedByPuts(old(Snapshot()), Snapshot(), a, b, path, roads);
    }

    /**
     * The search and the reconstruction loop of `connect_once`: the path found is marked
     * as road, and with the endpoints it forms a cheapest walk, or it is empty when there
     * is none.
     */
    method Route(a: Cell, b: Cell) returns (path: seq<Cell>)
      requires Valid() && Snapshot().InBounds(a) && Snapshot().InBounds(b) && a != b
      modifies this
      ensures Valid() && houseLevel == old(houseLevel) && updates == old(updates)
      ensures forall c :: Get(roadLevel, c, 0) == if c in path then 1 else old(Snapshot()).Road(c)
      ensures Reachable(old(Snapshot()), a, b) ==>
                Shortest(old(Snapshot()), Weights(old(Snapshot())), a, b, [a] + Reverse(path) + [b])
      ensures !Reachable(old(Snapshot()), a, b) ==> path == []
    {
      ghost var t := Snapshot();
      ghost var w := Weights(t);
      WeightsPositive(t);
      var dist, comeFrom, found := Run(Snapshot(), w, a, b);
      path := Backtrack(t, w, a, b, dist, comeFrom);
      if b in dist {
        ChainWalk(t, w, a, b, dist, comeFrom, b);
        MinCostShortest(t, w, a, b, -dist[b], [a] + Reverse(path) + [b]);
      }
    }

    /**
     * The reconstruction loop of `connect_once`: follow predecessors back from `b`,
     * stopping before `a`, collecting the cells met and marking each as road.
     */
    method Backtrack(ghost t: Terrain, ghost w: Weight, a: Cell, b: Cell, dist: map<Cell, int>, comeFrom: map<Cell, Cell>)
      returns (path: seq<Cell>)
      requires Valid() && Snapshot() == t && Positive(w) && Tree(t, w, a, b, dist, comeFrom) && a != b
      modifies this
      ensures Valid() && houseLevel == old(houseLevel) && updates == old(updates)
      ensures b in dist ==> path == Chain(t, w, a, b, dist, comeFrom, b)
      ensures b !in dist ==> path == []
      ensures forall c :: c in path ==> t.InBounds(c)
      ensures forall c :: Get(roadLevel, c, 0) == if c in path then 1 else t.Road(c)
    {
      var curr := b;
      path := [];
      while curr in comeFrom
        invariant Valid() && houseLevel == old(houseLevel) && updates == old(updates)
        invariant Tracing(t, w, a, b, dist, comeFrom, roadLevel, path, curr)
        decreases if curr in dist then -dist[curr] + 1 else 0
      {
        var prev := comeFrom[curr];
        if prev == a {
          break;
        }
        assert Link(t, w, b, dist, prev, curr);
        TracingStep(t, w, a, b, dist, comeFrom, roadLevel, path, curr);
        path := path + [prev];
        curr := prev;
        roadLevel := Put(roadLevel, prev, 1);
      }
      TracingDone(t, w, a, b, dist, comeFrom, roadLevel, path, curr);
    }

    /**
     * The candidate cells for a new house next to `mid`: in-bounds 8-neighbours that are
     * not water, not a house and not a road, in the order of the two offset loops.
     */
    method SproutCandidates(mid: Cell) returns (cands: seq<Cell>)
      requires Valid()
      ensures forall c :: c in cands <==> Sprout(Snapshot(), mid, c)
    {
      cands := [];
      for dr := -1 to 2
        invariant forall c :: c in cands ==> Sprout(Snapshot(), mid, c)
        invariant forall c :: Sprout(Snapshot(), mid, c) && c.0 - mid.0 < dr ==> c in cands
      {
        for dc := -1 to 2
          invariant forall c :: c in cands ==> Sprout(Snapshot(), mid, c)
          invariant forall c :: Sprout(Snapshot(), mid, c) && (c.0 - mid.0 < dr || (c.0 - mid.0 == dr && c.1 - mid.1 < dc)) ==>
                      c in cands
        {
          if dr == 0 && dc == 0 {
            continue;
          }
          var nr, nc := mid.0 + dr, mid.1 + dc;
          if nr < 0 || nc < 0 || nr >= height || nc >= width {
            continue;
          }
          var n := (nr, nc);
          if !isWater[nr][nc] && houseLevel[nr][nc] == 0 && roadLevel[nr][nc] == 0 {
            cands := cands + [n];
          }
        }
      }
    }

    /**
     * One draw loop of `connect`: draws of row and column are taken from `draws` starting
     * at `start` until one is not water. `None` means the draws ran out, which in the
     * source is a loop that never ends.
     */
    method SampleLand(draws: seq<Cell>, start: nat) returns (cell: Option<Cell>, next: nat)
      requires Valid() && forall i :: 0 <= i < |draws| ==> Snapshot().InBounds(draws[i])
      ensures cell.Some? ==>
        start < next <= |draws| && cell.value == draws[next - 1] && !Snapshot().Water(cell.value) &&
        forall i :: start <= i < next - 1 ==> Snapshot().Water(draws[i])
      ensures cell.None? <==> forall i :: start <= i < |draws| ==> Snapshot().Water(draws[i])
    {
      next := start;
      while next < |draws|
        invariant start <= next
        invariant forall i :: start <= i < next && i < |draws| ==> Snapshot().Water(draws[i])
      {
        var (r, c) := draws[next];
        next := next + 1;
        if isWater[r][c] {
          continue;
        }
        return Some((r, c)), next;
      }
      return None, next;
    }

    /**
     * The start of `connect`: five draw loops, each inserting a land cell into the set of
     * houses. The houses are not marked in `house_level`. The ghost `picks` are the indices
     * of the five land draws taken.
     */
    method Seed(draws: seq<Cell>) returns (houses: Option<set<Cell>>, next: nat, ghost picks: seq<nat>)
      requires Valid() && forall i :: 0 <= i < |draws| ==> Snapshot().InBounds(draws[i])
      ensures houses.Some? ==>
        houses.value != {} && |houses.value| <= 5 && Homes(Snapshot(), houses.value) && next <= |draws|
      ensures houses.Some? ==> forall c :: c in houses.value ==> exists i :: 0 <= i < next && draws[i] == c
      ensures houses.Some? ==> forall i :: 0 <= i < next && !Snapshot().Water(draws[i]) ==> draws[i] in houses.value
      ensures houses.Some? ==> Picked(Snapshot(), draws, picks, next) && |picks| == 5 && next == picks[4] + 1
      ensures houses.Some? ==> houses.value == DrawsAt(draws, picks)
      ensures houses.None? ==> forall i :: next <= i < |draws| ==> Snapshot().Water(draws[i])
    {
      var hs: set<Cell> := {};
      next := 0;
      picks := [];
      ghost var t := Snapshot();
      for k := 0 to 5
        invariant Snapshot() == t && |picks| == k && Seeding(t, draws, picks, next, hs)
      {
        var cell, n := SampleLand(draws, next);
        if cell.None? {
          return None, next, picks;
        }
        SeedingGrows(t, draws, picks, next, hs, n);
        hs := hs + {cell.value};
        picks := picks + [n - 1];
        next := n;
      }
      PickedHouses(t, draws, picks, next, hs);
      return Some(hs), next, picks;
    }

    /**
     * One round of the loop of `connect`: connect two houses; on an empty path retry;
     * otherwise sprout at most one house next to a cell of the path, then evict one house
     * and drop a house on a fresh land cell drawn from `draws`, the first at `start` or
     * after it; `drawn` is where the next draw loop starts.
     *
     * The round keeps the houses non-empty and on land, and keeps every cell whose
     * `house_level` is set among the houses.
     */
    method ConnectRound(houses: set<Cell>, draws: seq<Cell>, start: nat) returns (next: set<Cell>, round: Round, drawn: nat)
      requires Valid() && houses != {} && Homes(Snapshot(), houses) && Indexed(Snapshot(), houses)
      requires forall i :: 0 <= i < |draws| ==> Snapshot().InBounds(draws[i])
      requires exists i :: start <= i < |draws| && !Snapshot().Water(draws[i])
      modifies this
      ensures Valid() && next != {} && Homes(Snapshot(), next) && Indexed(Snapshot(), next)
      ensures round.a in houses && round.b in houses
      ensures Water(old(Snapshot()), round.a, round.b) || round.a == round.b ==>
        round.Retry? && roadLevel == old(roadLevel) && houseLevel == old(houseLevel) && updates == old(updates)
      ensures !Water(old(Snapshot()), round.a, round.b) && round.a != round.b ==>
        updates == old(updates) + [Update(if round.Grew? then round.path else [], [round.a, round.b])]
      ensures round.Retry? ==> next == houses && drawn == start
      ensures round.Retry? && !Water(old(Snapshot()), round.a, round.b) && round.a != round.b ==>
        Marked(old(Snapshot()), Snapshot(), round.a, round.b, []) &&
        (!Reachable(old(Snapshot()), round.a, round.b) ||
         Shortest(old(Snapshot()), Weights(old(Snapshot())), round.a, round.b, [round.a, round.b]))
      ensures round.Grew? ==>
        !Water(old(Snapshot()), round.a, round.b) && round.a != round.b &&
        Shortest(old(Snapshot()), Weights(old(Snapshot())), round.a, round.b, [round.a] + Reverse(round.path) + [round.b]) &&
        Paved(old(Snapshot()), Snapshot(), round.a, round.b, round.path)
      ensures round.Grew? && round.sprout.Some? ==>
        var s := round.sprout.value;
        Snapshot().InBounds(s) && !Snapshot().Water(s) && (exists m :: m in round.path && Adjacent(m, s)) &&
        s != round.a && s != round.b && s !in round.path &&
        old(Snapshot()).House(s) == 0 && old(Snapshot()).Road(s) == 0
      ensures round.Grew? && round.sprout.None? ==>
        exists m :: m in round.path && forall c :: Sprout(old(Snapshot()), m, c) ==> c in [round.a, round.b] + round.path
      ensures round.Grew? && round.evicted != round.moved ==> Snapshot().House(round.evicted) == 0
      ensures round.Grew? ==>
        round.path != [] &&
        round.evicted in houses + ToSet(round.sprout) &&
        next == houses + ToSet(round.sprout) - {round.evicted} + {round.moved} &&
        !Snapshot().Water(round.moved) && Snapshot().House(round.moved) == 1
      ensures round.Grew? ==> forall c ::
        Snapshot().House(c) ==
          if c == round.moved then 1
          else if c == round.evicted then 0
          else if c == round.a || c == round.b || round.sprout == Some(c) then 1
          else old(Snapshot()).House(c)
      ensures round.Grew? ==>
        start < drawn <= |draws| && round.moved == draws[drawn - 1] &&
        forall i :: start <= i < drawn - 1 ==> Snapshot().Water(draws[i])
    {
      var a :| a in houses;
      var b :| b in houses;
      ghost var t := Snapshot();
      var path := ConnectOnce(a, b);
      IndexedAfterConnect(t, Snapshot(), a, b, path, houses);
      if path == [] {
        if !Water(t, a, b) && a != b {
          assert [a] + Reverse(path) + [b] == [a, b];
        }
        return houses, Retry(a, b), start;
      }
      var sprout, evicted, moved;
      next, sprout, evicted, moved, drawn := Grow(t, a, b, path, houses, draws, start);
      round := Grew(a, b, path, sprout, evicted, moved);
    }

    /**
     * The rest of a round of `connect` once `a` and `b` were connected along a non-empty
     * path, from the grids `t` before the connection: sprout, evict, and relocate.
     */
    method Grow(ghost t: Terrain, a: Cell, b: Cell, path: seq<Cell>, houses: set<Cell>, draws: seq<Cell>, start: nat)
      returns (next: set<Cell>, sprout: Option<Cell>, evicted: Cell, moved: Cell, drawn: nat)
      requires Valid() && path != [] && Homes(Snapshot(), houses) && Indexed(Snapshot(), houses)
      requires Marked(t, Snapshot(), a, b, path) && Snapshot() == t.(houseLevel := houseLevel, roadLevel := roadLevel)
      requires forall i :: 0 <= i < |draws| ==> Snapshot().InBounds(draws[i])
      requires exists i :: start <= i < |draws| && !Snapshot().Water(draws[i])
      modifies this
      ensures Valid() && roadLevel == old(roadLevel) && updates == old(updates)
      ensures next != {} && Homes(Snapshot(), next) && Indexed(Snapshot(), next)
      ensures sprout.Some? ==>
        var s := sprout.value;
        Snapshot().InBounds(s) && !Snapshot().Water(s) && (exists m :: m in path && Adjacent(m, s)) &&
        s != a && s != b && s !in path && t.House(s) == 0 && t.Road(s) == 0
      ensures sprout.None? ==> exists m :: m in path && forall c :: Sprout(t, m, c) ==> c in [a, b] + path
      ensures evicted in houses + ToSet(sprout) && next == houses + ToSet(sprout) - {evicted} + {moved}
      ensures evicted != moved ==> Snapshot().House(evicted) == 0
      ensures !Snapshot().Water(moved) && Snapshot().House(moved) == 1
      ensures start < drawn <= |draws| && moved == draws[drawn - 1]
      ensures forall i :: start <= i < drawn - 1 ==> Snapshot().Water(draws[i])
      ensures houseLevel ==
        Put(Put(if sprout.Some? then Put(old(houseLevel), sprout.value, 1) else old(houseLevel), evicted, 0), moved, 1)
    {
      SproutAfterConnect(t, Snapshot(), a, b, path);
      var grown;
      grown, sprout := SproutHouse(path, houses);
      next, evicted, moved, drawn := Relocate(grown, draws, start);
    }

    /**
     * The `for _ in 0..1` block of `connect`: pick a cell of the path and, when some
     * neighbour of it may take a house, add one such neighbour to the houses and mark it.
     */
    method SproutHouse(path: seq<Cell>, houses: set<Cell>) returns (next: set<Cell>, sprout: Option<Cell>)
      requires Valid() && path != [] && Homes(Snapshot(), houses) && Indexed(Snapshot(), houses)
      modifies this
      ensures Valid() && roadLevel == old(roadLevel) && updates == old(updates)
      ensures next == houses + ToSet(sprout)
      ensures Homes(Snapshot(), next) && Indexed(Snapshot(), next)
      ensures sprout.Some? ==>
        (exists m :: m in path && Sprout(old(Snapshot()), m, sprout.value)) &&
        houseLevel == Put(old(houseLevel), sprout.value, 1)
      ensures sprout.None? ==>
        houseLevel == old(houseLevel) && exists m :: m in path && forall c :: !Sprout(old(Snapshot()), m, c)
    {
      next, sprout := houses, None;
      assert path[0] in path;
      var mid :| mid in path;
      var cands := SproutCandidates(mid);
      if cands != [] {
        assert cands[0] in cands;
        var h :| h in cands;
        ghost var t := Snapshot();
        houseLevel := Put(houseLevel, h, 1);
        next := next + {h};
        sprout := Some(h);
        IndexedAfterPut(t, houses, h, 1, next);
      } else {
        assert forall c :: !Sprout(Snapshot(), mid, c);
      }
    }

    /**
     * The end of a round of `connect`: clear the mark of one of the houses and drop it,
     * then draw cells from `draws` at `start` and add the first land cell, `draws[drawn - 1]`,
     * as a marked house.
     */
    method Relocate(houses: set<Cell>, draws: seq<Cell>, start: nat) returns (next: set<Cell>, evicted: Cell, moved: Cell, drawn: nat)
      requires Valid() && houses != {} && Homes(Snapshot(), houses) && Indexed(Snapshot(), houses)
      requires forall i :: 0 <= i < |draws| ==> Snapshot().InBounds(draws[i])
      requires exists i :: start <= i < |draws| && !Snapshot().Water(draws[i])
      modifies this
      ensures Valid() && roadLevel == old(roadLevel) && updates == old(updates)
      ensures evicted in houses && next == houses - {evicted} + {moved}
      ensures Homes(Snapshot(), next) && Indexed(Snapshot(), next)
      ensures houseLevel == Put(Put(old(houseLevel), evicted, 0), moved, 1)
      ensures !Snapshot().Water(moved) && Snapshot().House(moved) == 1
      ensures start < drawn <= |draws| && moved == draws[drawn - 1]
      ensures forall i :: start <= i < drawn - 1 ==> Snapshot().Water(draws[i])
    {
      evicted :| evicted in houses;
      ghost var t := Snapshot();
      houseLevel := Put(houseLevel, evicted, 0);
      next := houses - {evicted};
      IndexedAfterPut(t, houses, evicted, 0, next);
      var cell;
      cell, drawn := SampleLand(draws, start);
      moved := cell.value;
      t := Snapshot();
      ghost var rest := next;
      houseLevel := Put(houseLevel, moved, 1);
      next := next + {moved};
      IndexedAfterPut(t, rest, moved, 1, next);
    }
  }

  /** `a` or `b` is water. */
  predicate Water(t: Terrain, a: Cell, b: Cell) {
    t.Water(a) || t.Water(b)
  }

  /** `c` may take a new house next to `mid`. */
  predicate Sprout(t: Terrain, mid: Cell, c: Cell) {
    Adjacent(mid, c) && t.InBounds(c) && !t.Water(c) && t.House(c) == 0 && t.Road(c) == 0
  }

  /**
   * After a connection along `path`, a cell may take a new house next to `mid` exactly when
   * it was free before and is neither an endpoint nor on the path.
   */
  lemma SproutAfterConnect(t: Terrain, t': Terrain, a: Cell, b: Cell, path: seq<Cell>)
    requires Marked(t, t', a, b, path)
    requires t' == t.(houseLevel := t'.houseLevel, roadLevel := t'.roadLevel)
    ensures forall mid, c :: Sprout(t', mid, c) <==> Sprout(t, mid, c) && c !in [a, b] + path
  {
  }

  /** The grid changes of a connection of `a` to `b` along `path`, from `t` to `t'`. */
  ghost predicate Marked(t: Terrain, t': Terrain, a: Cell, b: Cell, path: seq<Cell>) {
    t'.House(a) == 1 && t'.House(b) == 1 &&
    (forall c :: c != a && c != b ==> t'.House(c) == t.House(c)) &&
    Paved(t, t', a, b, path)
  }

  /** The road changes of a connection: the path becomes road, the two endpoints stop being road. */
  ghost predicate Paved(t: Terrain, t': Terrain, a: Cell, b: Cell, path: seq<Cell>) {
    t'.Road(a) == 0 && t'.Road(b) == 0 &&
    forall c :: c != a && c != b ==> t'.Road(c) == if c in path then 1 else t.Road(c)
  }

  /** Marking the endpoints after the reconstruction loop gives the changes `Marked` describes. */
  lemma MarkedByPuts(t: Terrain, t': Terrain, a: Cell, b: Cell, path: seq<Cell>, roads: seq<seq<int>>)
    requires t.Valid() && t.InBounds(a) && t.InBounds(b) && a != b
    requires forall c :: Get(roads, c, 0) == if c in path then 1 else t.Road(c)
    requires Shaped(roads, t.height, t.width)
    requires t' == t.(houseLevel := Put(Put(t.houseLevel, a, 1), b, 1), roadLevel := Put(Put(roads, a, 0), b, 0))
    ensures t'.Valid() && Marked(t, t', a, b, path)
  {
  }

  /**
   * The invariant of the reconstruction loop at `curr`: `path` followed by the chain of
   * `curr` is the chain of `b`, and `roads` is the road grid of `t` with `path` marked.
   */
  ghost predicate Tracing(t: Terrain, w: Weight, a: Cell, b: Cell, dist: map<Cell, int>, comeFrom: map<Cell, Cell>,
                          roads: seq<seq<int>>, path: seq<Cell>, curr: Cell) {
    Positive(w) && Tree(t, w, a, b, dist, comeFrom) && a != b && Shaped(roads, t.height, t.width) &&
    curr != a && (curr in dist || curr == b) &&
    (b in dist ==> curr in dist && Chain(t, w, a, b, dist, comeFrom, b) == path + Chain(t, w, a, b, dist, comeFrom, curr)) &&
    (b !in dist ==> path == [] && curr == b) &&
    (forall c :: c in path ==> t.InBounds(c)) &&
    (forall c :: Get(roads, c, 0) == if c in path then 1 else t.Road(c))
  }

  /** Stepping back from `curr` to its predecessor, which is not `a`, keeps the invariant and lowers the cost. */
  lemma TracingStep(t: Terrain, w: Weight, a: Cell, b: Cell, dist: map<Cell, int>, comeFrom: map<Cell, Cell>,
                    roads: seq<seq<int>>, path: seq<Cell>, curr: Cell)
    requires Tracing(t, w, a, b, dist, comeFrom, roads, path, curr)
    requires b in dist && curr in comeFrom && comeFrom[curr] != a
    ensures t.InBounds(comeFrom[curr]) && curr in dist && comeFrom[curr] in dist && dist[comeFrom[curr]] > dist[curr]
    ensures Tracing(t, w, a, b, dist, comeFrom, Put(roads, comeFrom[curr], 1), path + [comeFrom[curr]], comeFrom[curr])
  {
    var prev := comeFrom[curr];
    assert Link(t, w, b, dist, prev, curr) && w(prev, curr) > 0;
    var path', roads' := path + [prev], Put(roads, prev, 1);
    RoadsExtend(t, roads, path, prev);
    assert forall c :: c in path' ==> t.InBounds(c);
    assert Shaped(roads', t.height, t.width);
    ChainStep(t, w, a, b, dist, comeFrom, curr);
    AppendShift(path, prev, Chain(t, w, a, b, dist, comeFrom, prev));
  }

  /** Moving one cell across the seam of a concatenation. */
  lemma AppendShift(p: seq<Cell>, x: Cell, q: seq<Cell>)
    ensures p + ([x] + q) == (p + [x]) + q
  {
  }

  /** When the loop stops, `path` is the whole chain of `b`. */
  lemma TracingDone(t: Terrain, w: Weight, a: Cell, b: Cell, dist: map<Cell, int>, comeFrom: map<Cell, Cell>,
                    roads: seq<seq<int>>, path: seq<Cell>, curr: Cell)
    requires Tracing(t, w, a, b, dist, comeFrom, roads, path, curr)
    requires curr !in comeFrom || comeFrom[curr] == a
    ensures b in dist ==> path == Chain(t, w, a, b, dist, comeFrom, b)
    ensures b !in dist ==> path == []
    ensures forall c :: c in path ==> t.InBounds(c)
    ensures forall c :: Get(roads, c, 0) == if c in path then 1 else t.Road(c)
  {
    if b in dist && curr in comeFrom {
      assert Link(t, w, b, dist, comeFrom[curr], curr);
    }
  }

  /** One more cell of the predecessor chain: the chain of `v` starts with its predecessor. */
  lemma ChainStep(t: Terrain, w: Weight, a: Cell, b: Cell, dist: map<Cell, int>, comeFrom: map<Cell, Cell>, v: Cell)
    requires Positive(w) && Tree(t, w, a, b, dist, comeFrom) && v in dist && v in comeFrom && comeFrom[v] != a
    ensures comeFrom[v] in dist && -dist[comeFrom[v]] < -dist[v]
    ensures Chain(t, w, a, b, dist, comeFrom, v) == [comeFrom[v]] + Chain(t, w, a, b, dist, comeFrom, comeFrom[v])
  {
    assert Link(t, w, b, dist, comeFrom[v], v) && w(comeFrom[v], v) > 0;
  }

  /** Marking one more path cell as road. */
  lemma RoadsExtend(t: Terrain, roads: seq<seq<int>>, path: seq<Cell>, c: Cell)
    requires 0 <= c.0 < |roads| && 0 <= c.1 < |roads[c.0]|
    requires forall d :: Get(roads, d, 0) == if d in path then 1 else t.Road(d)
    ensures forall d :: Get(Put(roads, c, 1), d, 0) == if d in path + [c] then 1 else t.Road(d)
  {
  }

  /**
   * `picks` are increasing indices of land draws before `next`, and every other draw before
   * `next` is water.
   */
  ghost predicate Picked(t: Terrain, draws: seq<Cell>, picks: seq<nat>, next: nat) {
    next <= |draws| &&
    (forall i, j :: 0 <= i < j < |picks| ==> picks[i] < picks[j]) &&
    (forall j :: 0 <= j < |picks| ==> picks[j] < next && !t.Water(draws[picks[j]])) &&
    (forall i :: 0 <= i < next && i !in picks ==> t.Water(draws[i]))
  }

  /** A draw loop from `next` that stops after the land draw `n - 1` adds `n - 1` to the picks. */
  lemma PickedGrows(t: Terrain, draws: seq<Cell>, picks: seq<nat>, next: nat, n: nat)
    requires Picked(t, draws, picks, next)
    requires next < n <= |draws| && !t.Water(draws[n - 1])
    requires forall i :: next <= i < n - 1 ==> t.Water(draws[i])
    ensures Picked(t, draws, picks + [n - 1], n)
  {
    var p := picks + [n - 1];
    forall i | 0 <= i < n && i !in p ensures t.Water(draws[i]) {
      if i < next {
        assert i !in picks;
      }
    }
  }

  /**
   * The invariant of the seeding loops: `picks` are the land draws taken so far, the last
   * of them just before `next`, and the houses are the cells at those draws.
   */
  ghost predicate Seeding(t: Terrain, draws: seq<Cell>, picks: seq<nat>, next: nat, hs: set<Cell>) {
    Picked(t, draws, picks, next) && (picks != [] ==> next == picks[|picks| - 1] + 1) &&
    hs == DrawsAt(draws, picks) && |hs| <= |picks| && Homes(t, hs) && (picks != [] ==> hs != {})
  }

  /** One more draw loop that ends at the land draw `n - 1` keeps `Seeding`. */
  lemma SeedingGrows(t: Terrain, draws: seq<Cell>, picks: seq<nat>, next: nat, hs: set<Cell>, n: nat)
    requires Seeding(t, draws, picks, next, hs) && forall i :: 0 <= i < |draws| ==> t.InBounds(draws[i])
    requires next < n <= |draws| && !t.Water(draws[n - 1])
    requires forall i :: next <= i < n - 1 ==> t.Water(draws[i])
    ensures Seeding(t, draws, picks + [n - 1], n, hs + {draws[n - 1]})
  {
    PickedGrows(t, draws, picks, next, n);
    var p := picks + [n - 1];
    assert p[..|picks|] == picks && p[|picks|] == n - 1;
    assert DrawsAt(draws, p) == hs + {draws[n - 1]};
  }

  /** The cells drawn at the indices `picks`. */
  ghost function DrawsAt(draws: seq<Cell>, picks: seq<nat>): set<Cell>
    requires forall j :: 0 <= j < |picks| ==> picks[j] < |draws|
  {
    if picks == [] then {} else DrawsAt(draws, picks[..|picks| - 1]) + {draws[picks[|picks| - 1]]}
  }

  /** A cell is drawn at `picks` exactly when some pick indexes it. */
  lemma {:induction false} DrawsAtMembers(draws: seq<Cell>, picks: seq<nat>)
    requires forall j :: 0 <= j < |picks| ==> picks[j] < |draws|
    ensures forall c :: c in DrawsAt(draws, picks) <==> exists j :: 0 <= j < |picks| && draws[picks[j]] == c
  {
    if picks != [] {
      var init := picks[..|picks| - 1];
      assert forall j :: 0 <= j < |init| ==> init[j] == picks[j];
      DrawsAtMembers(draws, init);
    }
  }

  /** The houses drawn at `picks` are drawn before `next`, and they are all the land draws before it. */
  lemma PickedHouses(t: Terrain, draws: seq<Cell>, picks: seq<nat>, next: nat, hs: set<Cell>)
    requires Picked(t, draws, picks, next)
    requires hs == DrawsAt(draws, picks)
    ensures forall c :: c in hs ==> exists i :: 0 <= i < next && draws[i] == c
    ensures forall i :: 0 <= i < next && !t.Water(draws[i]) ==> draws[i] in hs
  {
    DrawsAtMembers(draws, picks);
    forall i | 0 <= i < next && !t.Water(draws[i]) ensures draws[i] in hs {
      var j :| 0 <= j < |picks| && picks[j] == i;
    }
  }

  /** Every house is an in-bounds land cell. */
  ghost predicate Homes(t: Terrain, houses: set<Cell>) {
    forall c :: c in houses ==> t.InBounds(c) && !t.Water(c)
  }

  /** Every cell marked in `house_level` is one of the houses. */
  ghost predicate Indexed(t: Terrain, houses: set<Cell>) {
    forall c :: t.House(c) != 0 ==> c in houses
  }

  /** Connecting two of the houses marks only those two, so every marked cell stays a house. */
  lemma IndexedAfterConnect(t: Terrain, t': Terrain, a: Cell, b: Cell, path: seq<Cell>, houses: set<Cell>)
    requires Indexed(t, houses) && a in houses && b in houses
    requires ((Water(t, a, b) || a == b) && t'.houseLevel == t.houseLevel) || Marked(t, t', a, b, path)
    ensures Indexed(t', houses)
  {
  }

  /** Setting one house mark keeps `Indexed` once the set of houses follows the mark. */
  lemma IndexedAfterPut(t: Terrain, houses: set<Cell>, c: Cell, x: int, houses': set<Cell>)
    requires t.Valid() && t.InBounds(c) && Indexed(t, houses)
    requires houses' == if x == 0 then houses - {c} else houses + {c}
    ensures Indexed(t.(houseLevel := Put(t.houseLevel, c, x)), houses')
  {
  }

  function ToSet(o: Option<Cell>): set<Cell> {
    if o.Some? then {o.value} else {}
  }
}
