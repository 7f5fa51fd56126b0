/**
 * The single-source, single-target search at the heart of `Dijkstra::connect_once`
 * (src/dijkstra.rs:113-173).
 *
 * Distances are kept negated, as in the source: a cell's label is minus the cost of the
 * best walk found to it, labels only ever grow, and the queue hands out a cell of
 * greatest label. The queue maps each cell to its priority, since pushing a cell that is
 * already queued replaces its priority.
 *
 * The proofs are carried out for a step cost `w`, which the search is given together with
 * the fact that it is the terrain's edge cost (`Priced`).
 */
module Search {
  import opened Grid
  import opened Cost
  import opened Walks

  /** `w` is the edge cost of `t`. */
  ghost predicate Priced(t: Terrain, w: Weight) {
    forall u, v {:trigger EdgeCost(t, u, v)} :: w(u, v) == EdgeCost(t, u, v)
  }

  /** `u` is recorded as the predecessor of `v`. */
  ghost predicate Link(t: Terrain, w: Weight, b: Cell, dist: map<Cell, int>, u: Cell, v: Cell) {
    v in dist && u in dist && Step(t, b, u, v) && dist[v] == dist[u] - w(u, v)
  }

  /**
   * The bookkeeping of the search: every labelled cell other than `a` has a predecessor,
   * the predecessor step is a candidate step, and the label is exactly the predecessor's
   * label minus the step cost.
   */
  ghost predicate Tree(t: Terrain, w: Weight, a: Cell, b: Cell, dist: map<Cell, int>, comeFrom: map<Cell, Cell>) {
    a in dist && dist[a] == 0 && a !in comeFrom &&
    (forall v {:trigger v in dist} :: v in dist ==> dist[v] <= 0 && t.InBounds(v)) &&
    (forall v {:trigger v in dist} :: v in dist && v != a ==> v in comeFrom) &&
    (forall v {:trigger comeFrom[v]} :: v in comeFrom ==> Link(t, w, b, dist, comeFrom[v], v))
  }

  /** The ghost map `wit` records a walk to `v` that attains its label. */
  ghost predicate Attained(t: Terrain, w: Weight, a: Cell, b: Cell, dist: map<Cell, int>, wit: map<Cell, seq<Cell>>, v: Cell) {
    v in dist && v in wit && Walk(t, b, a, v, wit[v]) && WalkCost(w, wit[v]) == -dist[v]
  }

  /** Each label is attained by a walk. */
  ghost predicate Witnessed(t: Terrain, w: Weight, a: Cell, b: Cell, dist: map<Cell, int>, wit: map<Cell, seq<Cell>>) {
    forall v {:trigger Attained(t, w, a, b, dist, wit, v)} :: v in dist ==> Attained(t, w, a, b, dist, wit, v)
  }

  /**
   * The queue holds every labelled cell not yet visited (and perhaps visited ones again),
   * each at its current label.
   */
  ghost predicate Queued(dist: map<Cell, int>, queue: map<Cell, int>, visited: set<Cell>) {
    (forall v {:trigger v in queue} :: v in queue ==> v in dist && queue[v] == dist[v]) &&
    (forall v {:trigger v in dist} :: v in dist && v !in visited ==> v in queue) &&
    visited <= dist.Keys
  }

  /** The invariant of the search loop, apart from optimality. */
  ghost predicate Labels(t: Terrain, w: Weight, a: Cell, b: Cell, dist: map<Cell, int>, comeFrom: map<Cell, Cell>,
                         queue: map<Cell, int>, visited: set<Cell>, wit: map<Cell, seq<Cell>>) {
    Tree(t, w, a, b, dist, comeFrom) &&
    (forall v {:trigger comeFrom[v]} :: v in comeFrom ==> comeFrom[v] in visited) &&
    Queued(dist, queue, visited) &&
    Witnessed(t, w, a, b, dist, wit)
  }

  /** Every visited cell carries the best label any walk can give it. */
  ghost predicate Settled(t: Terrain, w: Weight, a: Cell, b: Cell, dist: map<Cell, int>, visited: set<Cell>) {
    forall v, p {:trigger Walk(t, b, a, v, p)} :: v in visited && v in dist && Walk(t, b, a, v, p) ==> WalkCost(w, p) >= -dist[v]
  }

  /** All candidate steps out of `x` have been relaxed. */
  ghost predicate Expanded(t: Terrain, w: Weight, b: Cell, dist: map<Cell, int>, x: Cell) {
    x in dist &&
    forall y {:trigger Step(t, b, x, y)} :: Step(t, b, x, y) ==> y in dist && dist[y] >= dist[x] - w(x, y)
  }

  /** The candidate step `e`, of cost `e.0` into `e.1`, cannot improve a label any more. */
  ghost predicate Covered(dist: map<Cell, int>, d: int, e: (nat, Cell)) {
    e.1 in dist && dist[e.1] >= d - e.0
  }

  /** Every entry of `ns` is covered. */
  ghost predicate AllCovered(dist: map<Cell, int>, d: int, ns: seq<(nat, Cell)>) {
    forall j :: 0 <= j < |ns| ==> Covered(dist, d, ns[j])
  }

  /** Raising the label of `ns[k]`'s cell to what the entry offers covers one more entry and uncovers none. */
  lemma CoveredKept(dist: map<Cell, int>, d: int, ns: seq<(nat, Cell)>, k: nat, n: Cell, newDist: int)
    requires k < |ns| && ns[k].1 == n && newDist == d - ns[k].0
    requires AllCovered(dist, d, ns[..k])
    requires n !in dist || newDist > dist[n]
    ensures AllCovered(dist[n := newDist], d, ns[..k + 1])
  {
    assert forall j :: 0 <= j < k ==> ns[..k][j] == ns[j] == ns[..k + 1][j];
  }

  /** An entry that offers no better label is covered already. */
  lemma CoveredUnchanged(dist: map<Cell, int>, d: int, ns: seq<(nat, Cell)>, k: nat)
    requires k < |ns| && AllCovered(dist, d, ns[..k])
    requires ns[k].1 in dist && d - ns[k].0 <= dist[ns[k].1]
    ensures AllCovered(dist, d, ns[..k + 1])
  {
    assert forall j :: 0 <= j < k ==> ns[..k][j] == ns[j] == ns[..k + 1][j];
  }

  /** `v` occurs in the candidate list `ns`. */
  ghost predicate Listed(ns: seq<(nat, Cell)>, v: Cell) {
    exists k :: 0 <= k < |ns| && ns[k].1 == v
  }

  lemma ListedGrows(ns: seq<(nat, Cell)>, x: (nat, Cell))
    ensures forall v :: Listed(ns, v) ==> Listed(ns + [x], v)
    ensures Listed(ns + [x], x.1)
  {
    assert (ns + [x])[|ns|] == x;
    forall v | Listed(ns, v) ensures Listed(ns + [x], v) {
      var k :| 0 <= k < |ns| && ns[k].1 == v;
      assert (ns + [x])[k] == ns[k];
    }
  }

  /**
   * The candidate list built for `current` by the two nested loops over the offsets: it
   * holds exactly the candidate steps, each with its edge cost.
   */
  method Neighbors(t: Terrain, ghost w: Weight, b: Cell, current: Cell) returns (ns: seq<(nat, Cell)>)
    requires Priced(t, w)
    ensures forall k :: 0 <= k < |ns| ==> Step(t, b, current, ns[k].1) && ns[k].0 == w(current, ns[k].1)
    ensures forall v :: Step(t, b, current, v) ==> Listed(ns, v)
  {
    ns := [];
    for dr := -1 to 2
      invariant forall k :: 0 <= k < |ns| ==> Step(t, b, current, ns[k].1) && ns[k].0 == w(current, ns[k].1)
      invariant forall v :: Step(t, b, current, v) && v.0 - current.0 < dr ==> Listed(ns, v)
    {
      for dc := -1 to 2
        invariant forall k :: 0 <= k < |ns| ==> Step(t, b, current, ns[k].1) && ns[k].0 == w(current, ns[k].1)
        invariant forall v :: Step(t, b, current, v) && (v.0 - current.0 < dr || (v.0 - current.0 == dr && v.1 - current.1 < dc)) ==>
                    Listed(ns, v)
      {
        var nr, nc := current.0 + dr, current.1 + dc;
        ghost var here := (nr, nc);
        assert forall v: Cell :: v.0 - current.0 == dr && v.1 - current.1 == dc ==> v == here;
        if dr == 0 && dc == 0 {
          assert !Step(t, b, current, here);
          continue;
        }
        var factor := Factor(dr, dc);
        if nr < 0 || nc < 0 || nr >= t.height || nc >= t.width {
          assert !Step(t, b, current, here);
          continue;
        }
        var n := (nr, nc);
        if t.House(n) != 0 && b != n {
          assert !Step(t, b, current, here);
          continue;
        }
        var steepnessCost := Steepness(t, current, n);
        var cost :=
          if t.Road(n) != 0 then CostOfStepOnRoad * factor + steepnessCost
          else if t.Water(n) then CostOfBuildBridge * factor + steepnessCost
          else CostOfBuildRoad * factor + steepnessCost;
        assert cost == EdgeCost(t, current, n);
        ListedGrows(ns, (cost, n));
        ns := ns + [(cost, n)];
      }
    }
  }

  /**
   * A label can improve only at a cell that is neither the source nor visited: costs are
   * positive and a visited cell's label is already optimal.
   */
  lemma ImprovedIsUnvisited(t: Terrain, w: Weight, a: Cell, b: Cell, dist: map<Cell, int>, comeFrom: map<Cell, Cell>,
                            queue: map<Cell, int>, visited: set<Cell>, wit: map<Cell, seq<Cell>>, current: Cell, n: Cell)
    requires Positive(w)
    requires Labels(t, w, a, b, dist, comeFrom, queue, visited, wit)
    requires Settled(t, w, a, b, dist, visited)
    requires current in visited && Step(t, b, current, n)
    requires n !in dist || dist[current] - w(current, n) > dist[n]
    ensures n != a && n !in visited
  {
    assert w(current, n) > 0;
    assert Attained(t, w, a, b, dist, wit, current);
    WalkExtend(t, w, b, a, current, n, wit[current]);
  }

  /** Recording the better label `newDist` for `n`, reached from the visited cell `current`, keeps the invariant. */
  lemma Improve(t: Terrain, w: Weight, a: Cell, b: Cell, dist: map<Cell, int>, comeFrom: map<Cell, Cell>,
                queue: map<Cell, int>, visited: set<Cell>, wit: map<Cell, seq<Cell>>, current: Cell, n: Cell, newDist: int)
    requires Positive(w)
    requires Labels(t, w, a, b, dist, comeFrom, queue, visited, wit)
    requires current in visited && Step(t, b, current, n) && n != a && n !in visited
    requires Attained(t, w, a, b, dist, wit, current)
    requires newDist == dist[current] - w(current, n)
    ensures Labels(t, w, a, b, dist[n := newDist], comeFrom[n := current], queue[n := newDist], visited,
                   wit[n := wit[current] + [n]])
  {
    ImproveTree(t, w, a, b, dist, comeFrom, visited, current, n, newDist);
    ImproveWitness(t, w, a, b, dist, wit, current, n, newDist);
  }

  /** The walk part of `Improve`: the walk to `current` extended by `n` attains the new label. */
  lemma ImproveWitness(t: Terrain, w: Weight, a: Cell, b: Cell, dist: map<Cell, int>, wit: map<Cell, seq<Cell>>,
                       current: Cell, n: Cell, newDist: int)
    requires Witnessed(t, w, a, b, dist, wit)
    requires Attained(t, w, a, b, dist, wit, current) && Step(t, b, current, n)
    requires newDist == dist[current] - w(current, n)
    ensures Witnessed(t, w, a, b, dist[n := newDist], wit[n := wit[current] + [n]])
  {
    WalkExtend(t, w, b, a, current, n, wit[current]);
    var dist', wit' := dist[n := newDist], wit[n := wit[current] + [n]];
    forall v | v in dist' ensures Attained(t, w, a, b, dist', wit', v) {
      if v != n {
        assert Attained(t, w, a, b, dist, wit, v);
      }
    }
  }

  /** The predecessor part of `Improve`. */
  lemma ImproveTree(t: Terrain, w: Weight, a: Cell, b: Cell, dist: map<Cell, int>, comeFrom: map<Cell, Cell>,
                    visited: set<Cell>, current: Cell, n: Cell, newDist: int)
    requires Positive(w)
    requires Tree(t, w, a, b, dist, comeFrom) && visited <= dist.Keys
    requires forall v :: v in comeFrom ==> comeFrom[v] in visited
    requires current in visited && Step(t, b, current, n) && n != a && n !in visited
    requires newDist == dist[current] - w(current, n)
    ensures Tree(t, w, a, b, dist[n := newDist], comeFrom[n := current])
  {
    assert w(current, n) > 0;
    var dist', comeFrom' := dist[n := newDist], comeFrom[n := current];
    forall v | v in comeFrom' ensures Link(t, w, b, dist', comeFrom'[v], v) {
      if v != n {
        assert Link(t, w, b, dist, comeFrom[v], v);
        assert comeFrom[v] in visited;
      }
    }
  }

  /** Relaxing does not touch the labels of visited cells, so they stay optimal. */
  lemma SettledKept(t: Terrain, w: Weight, a: Cell, b: Cell, dist: map<Cell, int>, dist': map<Cell, int>, visited: set<Cell>)
    requires Settled(t, w, a, b, dist, visited)
    requires forall x :: x in visited && x in dist ==> x in dist' && dist'[x] == dist[x]
    requires forall x :: x in visited && x in dist' ==> x in dist
    ensures Settled(t, w, a, b, dist', visited)
  {
  }

  /** The labels of `dist0` only grew in `dist`, and those of visited cells stayed put. */
  ghost predicate Raised(dist0: map<Cell, int>, dist: map<Cell, int>, visited: set<Cell>) {
    (forall x {:trigger x in visited} :: x in visited ==> x in dist && x in dist0 && dist[x] == dist0[x]) &&
    (forall v {:trigger v in dist0} :: v in dist0 ==> v in dist && dist[v] >= dist0[v])
  }

  /** The invariant of the relaxation loop after the first `k` candidates. */
  ghost predicate Relaxing(t: Terrain, w: Weight, a: Cell, b: Cell, currentDist: int, neighbors: seq<(nat, Cell)>, k: nat,
                           dist0: map<Cell, int>, visited: set<Cell>, dist: map<Cell, int>, comeFrom: map<Cell, Cell>,
                           queue: map<Cell, int>, wit: map<Cell, seq<Cell>>) {
    k <= |neighbors| &&
    Labels(t, w, a, b, dist, comeFrom, queue, visited, wit) &&
    Settled(t, w, a, b, dist, visited) &&
    Raised(dist0, dist, visited) &&
    AllCovered(dist, currentDist, neighbors[..k]) &&
    forall q {:trigger q in queue} :: q in queue ==> queue[q] <= currentDist
  }

  /**
   * Against the maps `dist0` and `comeFrom0` before relaxing `current`: a label that changed
   * was strictly raised (or is new), to the label through `current`, with `current` as
   * predecessor; a cell whose label stayed put kept its predecessor.
   */
  ghost predicate Replaced(w: Weight, current: Cell, currentDist: int, dist0: map<Cell, int>, comeFrom0: map<Cell, Cell>,
                           dist: map<Cell, int>, comeFrom: map<Cell, Cell>) {
    (forall v {:trigger v in dist} :: v in dist && (v !in dist0 || dist[v] != dist0[v]) ==>
       (v in dist0 ==> dist[v] > dist0[v]) && v in comeFrom && comeFrom[v] == current &&
       dist[v] == currentDist - w(current, v)) &&
    (forall v {:trigger v in dist0} :: v in dist0 && v in dist && dist[v] == dist0[v] ==>
       (v in comeFrom <==> v in comeFrom0) && (v in comeFrom ==> comeFrom[v] == comeFrom0[v]))
  }

  /** Raising the label of `n` through `current` keeps `Replaced`. */
  lemma ReplacedKept(w: Weight, current: Cell, currentDist: int, dist0: map<Cell, int>, comeFrom0: map<Cell, Cell>,
                     dist: map<Cell, int>, comeFrom: map<Cell, Cell>, n: Cell, newDist: int)
    requires Replaced(w, current, currentDist, dist0, comeFrom0, dist, comeFrom)
    requires n in dist0 ==> n in dist && dist[n] >= dist0[n]
    requires n !in dist || newDist > dist[n]
    requires newDist == currentDist - w(current, n)
    ensures Replaced(w, current, currentDist, dist0, comeFrom0, dist[n := newDist], comeFrom[n := current])
  {
    var dist', comeFrom' := dist[n := newDist], comeFrom[n := current];
    forall v | v in dist0 && v in dist' && dist'[v] == dist0[v]
      ensures (v in comeFrom' <==> v in comeFrom0) && (v in comeFrom' ==> comeFrom'[v] == comeFrom0[v])
    {
      assert v != n;
      assert v in dist;
    }
  }

  /** Relaxing the candidate `neighbors[k]` when it improves a label keeps the loop invariant. */
  lemma RelaxImproves(t: Terrain, w: Weight, a: Cell, b: Cell, current: Cell, currentDist: int, neighbors: seq<(nat, Cell)>,
                      k: nat, dist0: map<Cell, int>, visited: set<Cell>, dist: map<Cell, int>, comeFrom: map<Cell, Cell>,
                      queue: map<Cell, int>, wit: map<Cell, seq<Cell>>, n: Cell, newDist: int)
    requires Positive(w)
    requires Relaxing(t, w, a, b, currentDist, neighbors, k, dist0, visited, dist, comeFrom, queue, wit)
    requires current in visited && current in dist && dist[current] == currentDist
    requires k < |neighbors| && neighbors[k].1 == n && newDist == currentDist - neighbors[k].0
    requires Step(t, b, current, n) && neighbors[k].0 == w(current, n)
    requires n !in dist || newDist > dist[n]
    ensures current in wit
    ensures Relaxing(t, w, a, b, currentDist, neighbors, k + 1, dist0, visited,
                     dist[n := newDist], comeFrom[n := current], queue[n := newDist], wit[n := wit[current] + [n]])
  {
    assert Attained(t, w, a, b, dist, wit, current);
    ImprovedIsUnvisited(t, w, a, b, dist, comeFrom, queue, visited, wit, current, n);
    Improve(t, w, a, b, dist, comeFrom, queue, visited, wit, current, n, newDist);
    SettledKept(t, w, a, b, dist, dist[n := newDist], visited);
    CoveredKept(dist, currentDist, neighbors, k, n, newDist);
    RaisedKept(dist0, dist, visited, n, newDist);
  }

  /** Raising the label of an unvisited cell keeps `Raised`. */
  lemma RaisedKept(dist0: map<Cell, int>, dist: map<Cell, int>, visited: set<Cell>, n: Cell, newDist: int)
    requires Raised(dist0, dist, visited) && n !in visited
    requires n !in dist || newDist > dist[n]
    ensures Raised(dist0, dist[n := newDist], visited)
  {
  }

  /**
   * The relaxation loop over the candidate list of the cell just visited: a neighbour's
   * label and predecessor are replaced only by a strictly greater label. Afterwards
   * `current` is expanded, and the search invariant is kept.
   */
  method Relax(t: Terrain, ghost w: Weight, a: Cell, b: Cell, current: Cell, currentDist: int, neighbors: seq<(nat, Cell)>,
               dist0: map<Cell, int>, comeFrom0: map<Cell, Cell>, queue0: map<Cell, int>,
               visited: set<Cell>, ghost wit0: map<Cell, seq<Cell>>)
    returns (dist: map<Cell, int>, comeFrom: map<Cell, Cell>, queue: map<Cell, int>, ghost wit: map<Cell, seq<Cell>>)
    requires Positive(w)
    requires Labels(t, w, a, b, dist0, comeFrom0, queue0, visited, wit0)
    requires Settled(t, w, a, b, dist0, visited)
    requires current in visited && current in dist0 && dist0[current] == currentDist
    requires forall x :: x in visited && x != current ==> Expanded(t, w, b, dist0, x)
    requires forall k :: 0 <= k < |neighbors| ==>
               Step(t, b, current, neighbors[k].1) && neighbors[k].0 == w(current, neighbors[k].1)
    requires forall v :: Step(t, b, current, v) ==> Listed(neighbors, v)
    requires forall q :: q in queue0 ==> queue0[q] <= currentDist
    ensures Labels(t, w, a, b, dist, comeFrom, queue, visited, wit)
    ensures Settled(t, w, a, b, dist, visited)
    ensures forall x :: x in visited ==> Expanded(t, w, b, dist, x)
    ensures forall v :: v in dist0 ==> v in dist && dist[v] >= dist0[v]
    ensures Replaced(w, current, currentDist, dist0, comeFrom0, dist, comeFrom)
    ensures forall q :: q in queue ==> queue[q] <= currentDist
  {
    dist, comeFrom, queue, wit := dist0, comeFrom0, queue0, wit0;
    var k := 0;
    while k < |neighbors|
      invariant Relaxing(t, w, a, b, currentDist, neighbors, k, dist0, visited, dist, comeFrom, queue, wit)
      invariant Replaced(w, current, currentDist, dist0, comeFrom0, dist, comeFrom)
    {
      var cost, neighbor := neighbors[k].0, neighbors[k].1;
      var newDist := currentDist - cost;
      if neighbor !in dist || newDist > dist[neighbor] {
        RelaxImproves(t, w, a, b, current, currentDist, neighbors, k, dist0, visited, dist, comeFrom, queue, wit, neighbor, newDist);
        ReplacedKept(w, current, currentDist, dist0, comeFrom0, dist, comeFrom, neighbor, newDist);
        dist := dist[neighbor := newDist];
        comeFrom := comeFrom[neighbor := current];
        queue := queue[neighbor := newDist];
        wit := wit[neighbor := wit[current] + [neighbor]];
      } else {
        CoveredUnchanged(dist, currentDist, neighbors, k);
      }
      k := k + 1;
    }
    assert neighbors[..|neighbors|] == neighbors;
    RelaxedExpanded(t, w, b, current, neighbors, dist0, dist, visited);
  }

  /** After the relaxation loop every visited cell, `current` included, is expanded. */
  lemma RelaxedExpanded(t: Terrain, w: Weight, b: Cell, current: Cell, neighbors: seq<(nat, Cell)>,
                        dist0: map<Cell, int>, dist: map<Cell, int>, visited: set<Cell>)
    requires current in visited && visited <= dist0.Keys
    requires forall x :: x in visited && x != current ==> Expanded(t, w, b, dist0, x)
    requires forall k :: 0 <= k < |neighbors| ==> neighbors[k].0 == w(current, neighbors[k].1)
    requires forall v :: Step(t, b, current, v) ==> Listed(neighbors, v)
    requires forall x :: x in visited ==> x in dist && dist[x] == dist0[x]
    requires forall v :: v in dist0 ==> v in dist && dist[v] >= dist0[v]
    requires AllCovered(dist, dist0[current], neighbors)
    ensures forall x :: x in visited ==> Expanded(t, w, b, dist, x)
  {
    forall x | x in visited
      ensures Expanded(t, w, b, dist, x)
    {
      if x == current {
        forall y | Step(t, b, x, y)
          ensures y in dist && dist[y] >= dist[x] - w(x, y)
        {
          var j :| 0 <= j < |neighbors| && neighbors[j].1 == y;
        }
      } else {
        assert Expanded(t, w, b, dist0, x);
      }
    }
  }

  /** A finite non-empty queue has an entry of greatest priority. */
  lemma MaxPriorityExists(queue: map<Cell, int>)
    requires queue != map[]
    ensures exists c :: c in queue && forall o :: o in queue ==> queue[o] <= queue[c]
    decreases queue.Keys
  {
    var k :| k in queue;
    var rest := queue - {k};
    assert forall o :: o in queue && o != k ==> o in rest && rest[o] == queue[o];
    if rest == map[] {
      assert forall o :: o in queue ==> o == k;
    } else {
      assert rest.Keys < queue.Keys;
      MaxPriorityExists(rest);
      var m :| m in rest && forall o :: o in rest ==> rest[o] <= rest[m];
      var best := if queue[k] > queue[m] then k else m;
      assert forall o :: o in queue ==> queue[o] <= queue[best];
    }
  }

  /**
   * The label-setting argument: any walk from `a` to a cell not yet visited passes through
   * a queued cell whose label is already at least as good as the walk.
   */
  lemma {:induction false} Frontier(t: Terrain, w: Weight, a: Cell, b: Cell, dist: map<Cell, int>, queue: map<Cell, int>,
                                    visited: set<Cell>, v: Cell, p: seq<Cell>) returns (i: nat)
    requires a in dist && dist[a] == 0
    requires forall u :: u in dist && u !in visited ==> u in queue
    requires Settled(t, w, a, b, dist, visited)
    requires forall x :: x in visited ==> Expanded(t, w, b, dist, x)
    requires Walk(t, b, a, v, p) && v !in visited
    ensures i < |p| && p[i] in queue && p[i] in dist && -dist[p[i]] <= WalkCost(w, p)
    decreases |p|
  {
    if |p| == 1 {
      i := 0;
    } else {
      WalkInit(t, w, b, a, v, p);
      var u := p[|p| - 2];
      var init := p[..|p| - 1];
      if u !in visited {
        i := Frontier(t, w, a, b, dist, queue, visited, u, init);
        assert p[i] == init[i];
      } else {
        i := |p| - 1;
        assert Expanded(t, w, b, dist, u);
      }
    }
  }

  /** Popping a cell of greatest label that is not yet visited: its label is optimal. */
  lemma PopIsOptimal(t: Terrain, w: Weight, a: Cell, b: Cell, dist: map<Cell, int>, queue: map<Cell, int>,
                     visited: set<Cell>, current: Cell)
    requires a in dist && dist[a] == 0 && Queued(dist, queue, visited)
    requires Settled(t, w, a, b, dist, visited)
    requires forall x :: x in visited ==> Expanded(t, w, b, dist, x)
    requires current in queue && current !in visited
    requires forall o :: o in queue ==> queue[o] <= queue[current]
    ensures Settled(t, w, a, b, dist, visited + {current})
  {
    forall p | Walk(t, b, a, current, p)
      ensures WalkCost(w, p) >= -dist[current]
    {
      var i := Frontier(t, w, a, b, dist, queue, visited, current, p);
    }
  }

  /**
   * Taking the cell of greatest label off the queue: a cell visited before is simply
   * dropped, any other is visited, with its label settled.
   */
  lemma Pop(t: Terrain, w: Weight, a: Cell, b: Cell, dist: map<Cell, int>, comeFrom: map<Cell, Cell>,
            queue: map<Cell, int>, visited: set<Cell>, wit: map<Cell, seq<Cell>>, current: Cell)
    requires Labels(t, w, a, b, dist, comeFrom, queue, visited, wit)
    requires Settled(t, w, a, b, dist, visited)
    requires forall x :: x in visited ==> Expanded(t, w, b, dist, x)
    requires current in queue && forall o :: o in queue ==> queue[o] <= queue[current]
    ensures current in dist && dist[current] == queue[current] && t.InBounds(current)
    ensures current in visited ==> Labels(t, w, a, b, dist, comeFrom, queue - {current}, visited, wit)
    ensures current !in visited ==>
      Labels(t, w, a, b, dist, comeFrom, queue - {current}, visited + {current}, wit) &&
      Settled(t, w, a, b, dist, visited + {current})
  {
    if current !in visited {
      PopIsOptimal(t, w, a, b, dist, queue, visited, current);
    }
  }

  /** Once `b` is visited, its label is minus the least cost of a walk from `a`. */
  lemma FoundIsOptimal(t: Terrain, w: Weight, a: Cell, b: Cell, dist: map<Cell, int>, visited: set<Cell>,
                       wit: map<Cell, seq<Cell>>)
    requires Witnessed(t, w, a, b, dist, wit)
    requires Settled(t, w, a, b, dist, visited)
    requires b in visited && b in dist
    ensures MinCost(t, w, a, b, -dist[b])
  {
    assert Attained(t, w, a, b, dist, wit, b);
  }

  /** An empty queue with `b` never visited: no walk leads from `a` to `b`. */
  lemma NotFoundIsUnreachable(t: Terrain, w: Weight, a: Cell, b: Cell, dist: map<Cell, int>, visited: set<Cell>)
    requires a in dist && dist[a] == 0
    requires forall u :: u in dist ==> u in visited
    requires Settled(t, w, a, b, dist, visited)
    requires forall x :: x in visited ==> Expanded(t, w, b, dist, x)
    requires b !in visited
    ensures !Reachable(t, a, b)
  {
    forall p | Walk(t, b, a, b, p)
      ensures false
    {
      var i := Frontier(t, w, a, b, dist, map[], visited, b, p);
    }
  }

  /**
   * `expanded` lists without repetition the cells visited since `visited0`, `b` excepted.
   */
  ghost predicate Log(expanded: seq<Cell>, visited0: set<Cell>, visited: set<Cell>, b: Cell) {
    (forall i, j :: 0 <= i < j < |expanded| ==> expanded[i] != expanded[j]) &&
    (forall x :: x in expanded <==> x in visited && x !in visited0 && x != b)
  }

  /** Visiting and expanding a cell not visited before extends the log by it. */
  lemma LogGrows(expanded: seq<Cell>, visited0: set<Cell>, visited: set<Cell>, b: Cell, current: Cell)
    requires Log(expanded, visited0, visited, b)
    requires current !in visited && current != b && visited0 <= visited
    ensures Log(expanded + [current], visited0, visited + {current}, b)
  {
    var e := expanded + [current];
    forall i, j | 0 <= i < j < |e| ensures e[i] != e[j] {
      if j == |expanded| {
        assert e[i] == expanded[i] && expanded[i] in expanded;
      } else {
        assert e[i] == expanded[i] && e[j] == expanded[j];
      }
    }
  }

  /** Visiting `b` leaves the log as it is. */
  lemma LogSkips(expanded: seq<Cell>, visited0: set<Cell>, visited: set<Cell>, b: Cell)
    requires Log(expanded, visited0, visited, b)
    ensures Log(expanded, visited0, visited + {b}, b)
  {
  }

  /**
   * The order in which the queue hands out cells: every cell visited since `visited0` has
   * a label at least `floor`, and every queued priority is at most `floor`.
   */
  ghost predicate Floored(dist: map<Cell, int>, queue: map<Cell, int>, visited0: set<Cell>, visited: set<Cell>, floor: int) {
    (forall x {:trigger x in visited} :: x in visited && x !in visited0 ==> x in dist && dist[x] >= floor) &&
    (forall q {:trigger q in queue} :: q in queue ==> queue[q] <= floor)
  }

  /**
   * Visiting `current`, a cell of greatest priority: its label becomes the new floor, as
   * long as no label drops and nothing above it is queued.
   */
  lemma Lowered(dist0: map<Cell, int>, dist: map<Cell, int>, queue0: map<Cell, int>, queue: map<Cell, int>,
                visited0: set<Cell>, visited: set<Cell>, floor: int, current: Cell)
    requires Floored(dist0, queue0, visited0, visited, floor)
    requires current in queue0 && current in dist0 && dist0[current] == queue0[current]
    requires forall v :: v in dist0 ==> v in dist && dist[v] >= dist0[v]
    requires forall q :: q in queue ==> queue[q] <= queue0[current]
    ensures Floored(dist, queue, visited0, visited + {current}, queue0[current])
  {
  }

  /**
   * The main loop of the search: pop a cell of greatest label, skip it if already visited,
   * stop once `b` is visited, otherwise relax its neighbours. It ends either with `b`
   * visited or with the queue empty and `b` never visited. Cells leave the queue by
   * non-increasing label, so the loop stops as soon as `b` is popped: every cell it
   * visited has a label at least that of `b`.
   *
   * The ghost sequence `expanded` lists the cells whose neighbours were relaxed, in order:
   * each cell newly visited other than `b`, and none of them twice.
   */
  method Explore(t: Terrain, ghost w: Weight, a: Cell, b: Cell, dist0: map<Cell, int>, comeFrom0: map<Cell, Cell>,
                 queue0: map<Cell, int>, visited0: set<Cell>, ghost wit0: map<Cell, seq<Cell>>)
    returns (dist: map<Cell, int>, comeFrom: map<Cell, Cell>, visited: set<Cell>, found: bool,
             ghost wit: map<Cell, seq<Cell>>, ghost expanded: seq<Cell>)
    requires Priced(t, w) && Positive(w)
    requires Labels(t, w, a, b, dist0, comeFrom0, queue0, visited0, wit0)
    requires Settled(t, w, a, b, dist0, visited0)
    requires forall x :: x in visited0 ==> Expanded(t, w, b, dist0, x)
    requires b !in visited0
    ensures Tree(t, w, a, b, dist, comeFrom) && Witnessed(t, w, a, b, dist, wit)
    ensures Settled(t, w, a, b, dist, visited)
    ensures found ==> b in visited && b in dist
    ensures found ==> forall x :: x in visited && x !in visited0 ==> x in dist && dist[x] >= dist[b]
    ensures !found ==> b !in visited && (forall u :: u in dist ==> u in visited) &&
                       forall x :: x in visited ==> Expanded(t, w, b, dist, x)
    ensures Log(expanded, visited0, visited, b)
  {
    dist, comeFrom, visited, wit := dist0, comeFrom0, visited0, wit0;
    expanded := [];
    var queue := queue0;
    found := false;
    ghost var floor := 0;
    while queue != map[]
      invariant Log(expanded, visited0, visited, b)
      invariant Floored(dist, queue, visited0, visited, floor)
      invariant Labels(t, w, a, b, dist, comeFrom, queue, visited, wit)
      invariant Settled(t, w, a, b, dist, visited)
      invariant forall x :: x in visited ==> Expanded(t, w, b, dist, x)
      invariant b !in visited && visited0 <= visited
      invariant !found
      decreases t.AllCells() - visited, queue.Keys
    {
      dist, comeFrom, queue, visited, found, wit, expanded, floor :=
        Visit(t, w, a, b, dist, comeFrom, queue, visited, wit, visited0, expanded, floor);
      if found {
        return;
      }
    }
  }

  /**
   * One turn of the main loop of the search. A cell of greatest label leaves the queue;
   * one visited before is dropped; `b` is visited and ends the search (`found`); any
   * other cell is visited, logged, and its neighbours relaxed.
   */
  method Visit(t: Terrain, ghost w: Weight, a: Cell, b: Cell, dist0: map<Cell, int>, comeFrom0: map<Cell, Cell>,
               queue0: map<Cell, int>, visited0: set<Cell>, ghost wit0: map<Cell, seq<Cell>>,
               ghost start: set<Cell>, ghost expanded0: seq<Cell>, ghost floor0: int)
    returns (dist: map<Cell, int>, comeFrom: map<Cell, Cell>, queue: map<Cell, int>, visited: set<Cell>, found: bool,
             ghost wit: map<Cell, seq<Cell>>, ghost expanded: seq<Cell>, ghost floor: int)
    requires Priced(t, w) && Positive(w) && queue0 != map[]
    requires Log(expanded0, start, visited0, b) && start <= visited0
    requires Labels(t, w, a, b, dist0, comeFrom0, queue0, visited0, wit0)
    requires Settled(t, w, a, b, dist0, visited0)
    requires forall x :: x in visited0 ==> Expanded(t, w, b, dist0, x)
    requires b !in visited0 && Floored(dist0, queue0, start, visited0, floor0)
    ensures Log(expanded, start, visited, b) && visited0 <= visited
    ensures Floored(dist, queue, start, visited, floor)
    ensures Labels(t, w, a, b, dist, comeFrom, queue, visited, wit)
    ensures Settled(t, w, a, b, dist, visited)
    ensures found <==> b in visited
    ensures found ==> b in dist && floor == dist[b]
    ensures !found ==> forall x :: x in visited ==> Expanded(t, w, b, dist, x)
    ensures !found ==> (visited == visited0 && queue.Keys < queue0.Keys) ||
                       t.AllCells() - visited < t.AllCells() - visited0
  {
    dist, comeFrom, queue, visited, wit, expanded, floor := dist0, comeFrom0, queue0, visited0, wit0, expanded0, floor0;
    found := false;
    MaxPriorityExists(queue);
    var current :| current in queue && forall o :: o in queue ==> queue[o] <= queue[current];
    var currentDist := queue[current];
    Pop(t, w, a, b, dist, comeFrom, queue, visited, wit, current);
    queue := queue - {current};
    if current in visited {
      return;
    }
    visited := visited + {current};
    floor := currentDist;
    assert current in t.AllCells();
    if current == b {
      LogSkips(expanded, start, visited0, b);
      Lowered(dist0, dist, queue0, queue, start, visited0, floor0, current);
      found := true;
      return;
    }
    LogGrows(expanded, start, visited0, b, current);
    expanded := expanded + [current];
    var ns := Neighbors(t, w, b, current);
    dist, comeFrom, queue, wit := Relax(t, w, a, b, current, currentDist, ns, dist, comeFrom, queue, visited, wit);
    Lowered(dist0, dist, queue0, queue, start, visited0, floor0, current);
  }

  /**
   * The search from `a` towards `b`. When `b` is found its label is minus the least cost
   * of any walk to it; when it is not found, no walk reaches it.
   */
  method Run(t: Terrain, ghost w: Weight, a: Cell, b: Cell)
    returns (dist: map<Cell, int>, comeFrom: map<Cell, Cell>, found: bool)
    requires Priced(t, w) && Positive(w)
    requires t.InBounds(a)
    ensures Tree(t, w, a, b, dist, comeFrom)
    ensures found <==> b in dist
    ensures found ==> MinCost(t, w, a, b, -dist[b])
    ensures !found ==> !Reachable(t, a, b)
  {
    var visited;
    ghost var wit, expanded;
    dist, comeFrom, visited, found, wit, expanded := Explore(t, w, a, b, map[a := 0], map[], map[a := 0], {}, map[a := [a]]);
    if found {
      FoundIsOptimal(t, w, a, b, dist, visited, wit);
    } else {
      NotFoundIsUnreachable(t, w, a, b, dist, visited);
    }
  }

  /**
   * The cells met when following predecessors back from `v`, stopping before `a`: the
   * sequence `path` that the reconstruction loop of `connect_once` builds for `v == b`.
   * Every cell of it is labelled, is not `a`, and has a strictly greater label than `v`.
   */
  ghost function Chain(t: Terrain, w: Weight, a: Cell, b: Cell, dist: map<Cell, int>, comeFrom: map<Cell, Cell>, v: Cell): (r: seq<Cell>)
    requires Positive(w) && Tree(t, w, a, b, dist, comeFrom) && v in dist
    ensures forall c :: c in r ==> c in dist && c != a && dist[c] > dist[v]
    decreases -dist[v]
  {
    if v in comeFrom && comeFrom[v] != a then
      assert Link(t, w, b, dist, comeFrom[v], v) && w(comeFrom[v], v) > 0;
      [comeFrom[v]] + Chain(t, w, a, b, dist, comeFrom, comeFrom[v])
    else
      []
  }

  /**
   * Read from `a` forwards, the predecessor chain of `v` is a walk from `a` to `v` whose
   * cost is exactly minus the label of `v`; it never passes through `a` again.
   */
  lemma {:induction false} ChainWalk(t: Terrain, w: Weight, a: Cell, b: Cell, dist: map<Cell, int>, comeFrom: map<Cell, Cell>, v: Cell)
    requires Positive(w) && Tree(t, w, a, b, dist, comeFrom) && v in dist && v != a
    ensures Walk(t, b, a, v, [a] + Reverse(Chain(t, w, a, b, dist, comeFrom, v)) + [v])
    ensures WalkCost(w, [a] + Reverse(Chain(t, w, a, b, dist, comeFrom, v)) + [v]) == -dist[v]
    ensures a !in Chain(t, w, a, b, dist, comeFrom, v)
    decreases -dist[v]
  {
    var u := comeFrom[v];
    assert Link(t, w, b, dist, u, v);
    var c := Chain(t, w, a, b, dist, comeFrom, v);
    if u == a {
      assert c == [];
      assert [a] + Reverse(c) + [v] == [a] + [v];
      WalkExtend(t, w, b, a, a, v, [a]);
    } else {
      assert w(u, v) > 0;
      ChainWalk(t, w, a, b, dist, comeFrom, u);
      var cu := Chain(t, w, a, b, dist, comeFrom, u);
      var p := [a] + Reverse(cu) + [u];
      assert c == [u] + cu;
      assert ([u] + cu)[1..] == cu;
      assert Reverse(c) == Reverse(cu) + [u];
      assert [a] + Reverse(c) + [v] == p + [v];
      WalkExtend(t, w, b, a, u, v, p);
    }
  }
}
