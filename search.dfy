/** The invariants of the cheapest-route search and the facts that keep them.

    During a search `dist` maps every visited node to the price at which it
    was finalized (the origin at 0), and the heap holds candidate routes of
    which some are stale (they end at a node visited since they were pushed).
    Three facts hold at the head of the search loop:
    - every route held starts at the origin, follows edges, costs the sum of
      its edges, and all its nodes but the last are visited and distinct
      (`FrontierOk`);
    - no path from the origin to a visited node is cheaper than its
      finalized price (`Settled`);
    - for every edge from a visited node `x` to an unvisited node `y` the heap
      holds a route to `y` costing at most `dist[x] + cost(x, y)` (`Covered`). */
module Search {
  import opened Paths
  import opened Frontier

  /** The answer of a query: a cheapest route, or the report that none exists. */
  datatype Outcome<N> = Found(price: nat, path: seq<N>) | NoPath

  /** What one turn of the search loop did with the route it popped: dropped
      it as stale, expanded its end, or arrived at the destination. */
  datatype Turn = Stale | Expanded | Arrived

  ghost predicate RouteOk<N>(adj: map<N, set<N>>, cost: (N, N) -> nat, origin: N, visited: set<N>, r: Route<N>) {
    && |r.path| >= 2
    && IsPath(adj, r.path)
    && r.path[0] == origin
    && r.price == PathCost(cost, r.path)
    && Simple(r.path[..|r.path| - 1])
    && (forall i :: 0 <= i < |r.path| - 1 ==> r.path[i] in visited)
  }

  ghost predicate FrontierOk<N>(adj: map<N, set<N>>, cost: (N, N) -> nat, origin: N, visited: set<N>, h: multiset<Route<N>>) {
    forall r {:trigger RouteOk(adj, cost, origin, visited, r)} :: r in h ==> RouteOk(adj, cost, origin, visited, r)
  }

  ghost predicate Settled<N(!new)>(adj: map<N, set<N>>, cost: (N, N) -> nat, origin: N, dist: map<N, nat>) {
    forall x, q :: x in dist && PathFromTo(adj, q, origin, x) ==> dist[x] <= PathCost(cost, q)
  }

  /** The heap holds a route to `y` costing at most `dist[x] + cost(x, y)`. */
  ghost predicate CoveredEdge<N(!new)>(cost: (N, N) -> nat, dist: map<N, nat>, h: multiset<Route<N>>, x: N, y: N) {
    x in dist && exists r :: r in h && EndsAt(r.path, y) && r.price <= dist[x] + cost(x, y)
  }

  ghost predicate Covered<N(!new)>(adj: map<N, set<N>>, cost: (N, N) -> nat, dist: map<N, nat>, h: multiset<Route<N>>) {
    forall x, y {:trigger CoveredEdge(cost, dist, h, x, y)} ::
      x in dist && y in NeighborsOf(adj, x) && y !in dist ==> CoveredEdge(cost, dist, h, x, y)
  }

  /** The one-edge route from the origin that seeds the search is well formed. */
  lemma SeedOk<N>(adj: map<N, set<N>>, cost: (N, N) -> nat, origin: N, y: N)
    requires y in NeighborsOf(adj, origin)
    ensures RouteOk(adj, cost, origin, {origin}, Route(cost(origin, y), [origin, y]))
  {
    ExtendPath(adj, cost, [origin], y);
    assert [origin] + [y] == [origin, y];
    assert [origin, y][..1] == [origin];
  }

  /** Once every one-edge route from the origin is held, every edge leaving the
      visited set `{origin}` is covered. */
  lemma SeedCovered<N(!new)>(adj: map<N, set<N>>, cost: (N, N) -> nat, origin: N, h: multiset<Route<N>>)
    requires forall y :: y in NeighborsOf(adj, origin) ==> Route(cost(origin, y), [origin, y]) in h
    ensures Covered(adj, cost, map[origin := 0], h)
  {
    var dist := map[origin := 0];
    forall x, y | x in dist && y in NeighborsOf(adj, x) && y !in dist
      ensures CoveredEdge(cost, dist, h, x, y)
    {
      var r := Route(cost(origin, y), [origin, y]);
      assert r in h && EndsAt(r.path, y);
    }
  }

  /** The key step of the search: a cheapest route of the heap that ends at an
      unvisited node `u` is a cheapest path from the origin to `u`. Any path to
      `u` leaves the visited set along some edge `x -> y`; the heap covers that
      edge with a route no dearer than the path up to `y`, and costs are not
      negative. */
  lemma CheapestIsShortest<N(!new)>(adj: map<N, set<N>>, cost: (N, N) -> nat, origin: N, dist: map<N, nat>,
                                    h: multiset<Route<N>>, r: Route<N>, u: N, q: seq<N>)
    requires origin in dist && Settled(adj, cost, origin, dist) && Covered(adj, cost, dist, h)
    requires forall s :: s in h ==> r.price <= s.price
    requires u !in dist && PathFromTo(adj, q, origin, u)
    ensures r.price <= PathCost(cost, q)
  {
    var j := FirstExit(q, dist.Keys, 0);
    var x, y := q[j - 1], q[j];
    assert y in NeighborsOf(adj, x);
    PrefixIsPath(adj, q, j);
    assert PathFromTo(adj, q[..j], origin, x);
    assert dist[x] <= PathCost(cost, q[..j]);
    assert CoveredEdge(cost, dist, h, x, y);
    var s :| s in h && EndsAt(s.path, y) && s.price <= dist[x] + cost(x, y);
    assert q[..j + 1][..j] == q[..j];
    assert PathCost(cost, q[..j + 1]) == PathCost(cost, q[..j]) + cost(x, y);
    PrefixCostAtMost(cost, q, j + 1);
  }

  /** Dropping a stale route (one ending at a visited node) keeps every edge
      covered. */
  lemma DropStale<N(!new)>(adj: map<N, set<N>>, cost: (N, N) -> nat, dist: map<N, nat>, h: multiset<Route<N>>, r: Route<N>)
    requires Covered(adj, cost, dist, h)
    requires |r.path| > 0 && r.path[|r.path| - 1] in dist
    ensures Covered(adj, cost, dist, h - multiset{r})
  {
    forall x, y | x in dist && y in NeighborsOf(adj, x) && y !in dist
      ensures CoveredEdge(cost, dist, h - multiset{r}, x, y)
    {
      assert CoveredEdge(cost, dist, h, x, y);
      var s :| s in h && EndsAt(s.path, y) && s.price <= dist[x] + cost(x, y);
      assert s != r;
      assert s in h - multiset{r};
    }
  }

  /** Extending a route by a neighbour of its last, unvisited node gives a
      route that is well formed once that node is visited. */
  lemma ExtendOk<N>(adj: map<N, set<N>>, cost: (N, N) -> nat, origin: N, visited: set<N>, r: Route<N>, y: N)
    requires RouteOk(adj, cost, origin, visited, r)
    requires r.path[|r.path| - 1] !in visited
    requires y in NeighborsOf(adj, r.path[|r.path| - 1])
    ensures var u := r.path[|r.path| - 1];
      RouteOk(adj, cost, origin, visited + {u}, Route(r.price + cost(u, y), r.path + [y]))
  {
    var p := r.path;
    ExtendPath(adj, cost, p, y);
    ArrivedIsSimple(adj, cost, origin, visited, r);
    assert (p + [y])[..|p|] == p;
  }

  /** A held route that ends at an unvisited node repeats no node. */
  lemma ArrivedIsSimple<N>(adj: map<N, set<N>>, cost: (N, N) -> nat, origin: N, visited: set<N>, r: Route<N>)
    requires RouteOk(adj, cost, origin, visited, r)
    requires r.path[|r.path| - 1] !in visited
    ensures Simple(r.path)
  {
    var p := r.path;
    var front := p[..|p| - 1];
    assert p == front + [p[|p| - 1]];
    SimpleSnoc(front, p[|p| - 1]);
  }

  /** One extension of `r` for each node of `ys`: the route continued to that
      node, priced with one more flight. */
  ghost function Extensions<N>(cost: (N, N) -> nat, r: Route<N>, ys: set<N>): set<Route<N>>
    requires |r.path| > 0
  {
    set y | y in ys :: Route(r.price + cost(r.path[|r.path| - 1], y), r.path + [y])
  }

  /** Extending to one more node adds exactly its extension, which is new,
      since distinct nodes give distinct paths. */
  lemma ExtensionsAdd<N>(cost: (N, N) -> nat, r: Route<N>, ys: set<N>, y: N, e: Route<N>)
    requires |r.path| > 0 && y !in ys
    requires e == Route(r.price + cost(r.path[|r.path| - 1], y), r.path + [y])
    ensures multiset(Extensions(cost, r, ys + {y})) == multiset(Extensions(cost, r, ys)) + multiset{e}
  {
    var n := |r.path|;
    forall z | z in ys ensures Route(r.price + cost(r.path[n - 1], z), r.path + [z]) != e {
      assert (r.path + [z])[n] == z && (r.path + [y])[n] == y;
    }
    assert e !in Extensions(cost, r, ys);
    assert Extensions(cost, r, ys + {y}) == Extensions(cost, r, ys) + {e};
  }

  /** Pushing the extensions of `r` to the unvisited neighbours of its end
      `u` keeps every held route well formed once `u` is visited, and holds
      each of those extensions. */
  lemma ExtensionsOk<N>(adj: map<N, set<N>>, cost: (N, N) -> nat, origin: N, visited: set<N>,
                        h: multiset<Route<N>>, r: Route<N>, u: N)
    requires RouteOk(adj, cost, origin, visited, r)
    requires FrontierOk(adj, cost, origin, visited, h)
    requires u == r.path[|r.path| - 1] && u !in visited
    ensures var h' := h + multiset(Extensions(cost, r, NeighborsOf(adj, u) - visited));
      && FrontierOk(adj, cost, origin, visited + {u}, h')
      && forall y :: y in NeighborsOf(adj, u) && y !in visited ==> Route(r.price + cost(u, y), r.path + [y]) in h'
  {
    var ext := Extensions(cost, r, NeighborsOf(adj, u) - visited);
    var h' := h + multiset(ext);
    WidenFrontier(adj, cost, origin, visited, u, h);
    forall s | s in h' ensures RouteOk(adj, cost, origin, visited + {u}, s) {
      if s in h {
        assert RouteOk(adj, cost, origin, visited + {u}, s);
      } else {
        assert s in ext;
        var y :| y in NeighborsOf(adj, u) - visited && s == Route(r.price + cost(u, y), r.path + [y]);
        ExtendOk(adj, cost, origin, visited, r, y);
      }
    }
    forall y | y in NeighborsOf(adj, u) && y !in visited
      ensures Route(r.price + cost(u, y), r.path + [y]) in h'
    {
      assert Route(r.price + cost(u, y), r.path + [y]) in ext;
    }
  }

  /** The seeded heap, one route `[origin, y]` per neighbour `y`, is well
      formed over `{origin}` and holds every such route. */
  lemma SeedFrontier<N>(adj: map<N, set<N>>, cost: (N, N) -> nat, origin: N, h: multiset<Route<N>>)
    requires h == multiset(Extensions(cost, Route(0, [origin]), NeighborsOf(adj, origin)))
    ensures FrontierOk(adj, cost, origin, {origin}, h)
    ensures forall y :: y in NeighborsOf(adj, origin) ==> Route(cost(origin, y), [origin, y]) in h
  {
    var root := Route(0, [origin]);
    forall s | s in h ensures RouteOk(adj, cost, origin, {origin}, s) {
      var y :| y in NeighborsOf(adj, origin) && s == Route(root.price + cost(origin, y), root.path + [y]);
      assert root.path + [y] == [origin, y];
      SeedOk(adj, cost, origin, y);
    }
    forall y | y in NeighborsOf(adj, origin) ensures Route(cost(origin, y), [origin, y]) in h {
      assert root.path + [y] == [origin, y];
      assert Route(root.price + cost(origin, y), root.path + [y]) in Extensions(cost, root, NeighborsOf(adj, origin));
    }
  }

  /** Widening the visited set keeps held routes well formed. */
  lemma WidenFrontier<N>(adj: map<N, set<N>>, cost: (N, N) -> nat, origin: N, visited: set<N>, u: N, h: multiset<Route<N>>)
    requires FrontierOk(adj, cost, origin, visited, h)
    ensures FrontierOk(adj, cost, origin, visited + {u}, h)
  {
    forall r | r in h ensures RouteOk(adj, cost, origin, visited + {u}, r) {
      assert RouteOk(adj, cost, origin, visited, r);
    }
  }

  /** Finalizing `u` at the price of the cheapest route keeps the covering
      invariant once every unvisited neighbour of `u` has its extension held. */
  lemma Settle<N(!new)>(adj: map<N, set<N>>, cost: (N, N) -> nat, dist: map<N, nat>,
                        h0: multiset<Route<N>>, h: multiset<Route<N>>, r: Route<N>)
    requires Covered(adj, cost, dist, h0) && r in h0
    requires |r.path| > 0 && r.path[|r.path| - 1] !in dist
    requires h0 - multiset{r} <= h
    requires var u := r.path[|r.path| - 1];
      forall y :: y in NeighborsOf(adj, u) && y !in dist ==> Route(r.price + cost(u, y), r.path + [y]) in h
    ensures Covered(adj, cost, dist[r.path[|r.path| - 1] := r.price], h)
  {
    var u := r.path[|r.path| - 1];
    var dist' := dist[u := r.price];
    forall x, y | x in dist' && y in NeighborsOf(adj, x) && y !in dist'
      ensures CoveredEdge(cost, dist', h, x, y)
    {
      if x == u {
        var s := Route(r.price + cost(u, y), r.path + [y]);
        assert s in h && EndsAt(s.path, y);
      } else {
        assert CoveredEdge(cost, dist, h0, x, y);
        var s :| s in h0 && EndsAt(s.path, y) && s.price <= dist[x] + cost(x, y);
        assert s != r;
        assert s in h0 - multiset{r};
      }
    }
  }

  /** A node finalized at a price no path undercuts keeps `Settled`. */
  lemma SettleMinimal<N(!new)>(adj: map<N, set<N>>, cost: (N, N) -> nat, origin: N, dist: map<N, nat>, u: N, price: nat)
    requires Settled(adj, cost, origin, dist)
    requires forall q :: PathFromTo(adj, q, origin, u) ==> price <= PathCost(cost, q)
    ensures Settled(adj, cost, origin, dist[u := price])
  {
  }

  /** The last node of a held route is a neighbour of some node. */
  lemma EndIsTarget<N>(adj: map<N, set<N>>, cost: (N, N) -> nat, origin: N, visited: set<N>, r: Route<N>)
    requires RouteOk(adj, cost, origin, visited, r)
    ensures r.path[|r.path| - 1] in Targets(adj)
  {
    var p := r.path;
    assert p[|p| - 1] in NeighborsOf(adj, p[|p| - 2]);
  }

  /** An empty heap holds a route to no node. */
  lemma NothingCovers<N(!new)>(cost: (N, N) -> nat, dist: map<N, nat>, x: N, y: N)
    ensures !CoveredEdge(cost, dist, multiset{}, x, y)
  {
  }

  /** When the heap runs dry every edge leaving the visited set is gone: the
      visited set is closed, so no node outside it can be reached. */
  lemma ExhaustedUnreachable<N(!new)>(adj: map<N, set<N>>, cost: (N, N) -> nat, origin: N, dist: map<N, nat>, d: N)
    requires Covered(adj, cost, dist, multiset{}) && origin in dist && d !in dist
    ensures !Reachable(adj, origin, d)
  {
    assert Closed(adj, dist.Keys) by {
      forall x, y | x in dist.Keys && y in NeighborsOf(adj, x)
        ensures y in dist.Keys
      {
        NothingCovers(cost, dist, x, y);
      }
    }
    if p :| PathFromTo(adj, p, origin, d) {
      ClosedTraps(adj, dist.Keys, p);
    }
  }

  /** The loop invariant of the search, with the visited set `dist.Keys`. */
  ghost predicate SearchInv<N(!new)>(adj: map<N, set<N>>, cost: (N, N) -> nat, origin: N, destination: N,
                                     dist: map<N, nat>, h: multiset<Route<N>>) {
    && origin in dist
    && (destination in dist ==> destination == origin)
    && FrontierOk(adj, cost, origin, dist.Keys, h)
    && Settled(adj, cost, origin, dist)
    && Covered(adj, cost, dist, h)
  }

  /** The invariant holds once the search is seeded. */
  lemma SeedInv<N(!new)>(adj: map<N, set<N>>, cost: (N, N) -> nat, origin: N, destination: N, h: multiset<Route<N>>)
    requires FrontierOk(adj, cost, origin, {origin}, h)
    requires forall y :: y in NeighborsOf(adj, origin) ==> Route(cost(origin, y), [origin, y]) in h
    ensures SearchInv(adj, cost, origin, destination, map[origin := 0], h)
  {
    SeedCovered(adj, cost, origin, h);
    assert map[origin := 0].Keys == {origin};
  }

  /** A route popped from the heap is well formed. */
  lemma HeldRouteOk<N(!new)>(adj: map<N, set<N>>, cost: (N, N) -> nat, origin: N, destination: N,
                             dist: map<N, nat>, h: multiset<Route<N>>, r: Route<N>)
    requires SearchInv(adj, cost, origin, destination, dist, h) && r in h
    ensures RouteOk(adj, cost, origin, dist.Keys, r)
  {
  }

  /** Discarding a stale route keeps the invariant. */
  lemma StaleStep<N(!new)>(adj: map<N, set<N>>, cost: (N, N) -> nat, origin: N, destination: N,
                           dist: map<N, nat>, h: multiset<Route<N>>, r: Route<N>)
    requires SearchInv(adj, cost, origin, destination, dist, h) && r in h
    requires |r.path| > 0 && r.path[|r.path| - 1] in dist
    ensures SearchInv(adj, cost, origin, destination, dist, h - multiset{r})
  {
    DropStale(adj, cost, dist, h, r);
    forall s | s in h - multiset{r} ensures RouteOk(adj, cost, origin, dist.Keys, s) {
      assert RouteOk(adj, cost, origin, dist.Keys, s);
    }
  }

  /** A cheapest held route that reaches the unvisited destination is a
      simple path from the origin, priced at its edge sum, and no path from the
      origin to the destination is cheaper. */
  lemma ArriveStep<N(!new)>(adj: map<N, set<N>>, cost: (N, N) -> nat, origin: N, destination: N,
                            dist: map<N, nat>, h: multiset<Route<N>>, r: Route<N>)
    requires SearchInv(adj, cost, origin, destination, dist, h) && r in h
    requires forall s :: s in h ==> r.price <= s.price
    requires |r.path| > 0 && r.path[|r.path| - 1] == destination && destination !in dist
    ensures |r.path| >= 2 && PathFromTo(adj, r.path, origin, destination)
    ensures r.price == PathCost(cost, r.path) && Simple(r.path)
    ensures forall q :: PathFromTo(adj, q, origin, destination) ==> r.price <= PathCost(cost, q)
    ensures origin != destination && Reachable(adj, origin, destination)
  {
    assert RouteOk(adj, cost, origin, dist.Keys, r);
    ArrivedIsSimple(adj, cost, origin, dist.Keys, r);
    forall q | PathFromTo(adj, q, origin, destination) ensures r.price <= PathCost(cost, q) {
      CheapestIsShortest(adj, cost, origin, dist, h, r, destination, q);
    }
    assert PathFromTo(adj, r.path, origin, destination);
  }

  /** Finalizing the last node `u` of a cheapest held route at its price,
      once every unvisited neighbour of `u` has its extension held, keeps the
      invariant; `u` was not visited and is a neighbour of some node, so the
      search makes progress. */
  lemma VisitStep<N(!new)>(adj: map<N, set<N>>, cost: (N, N) -> nat, origin: N, destination: N,
                           dist: map<N, nat>, h0: multiset<Route<N>>, h: multiset<Route<N>>, r: Route<N>)
    requires SearchInv(adj, cost, origin, destination, dist, h0) && r in h0
    requires forall s :: s in h0 ==> r.price <= s.price
    requires |r.path| > 0 && r.path[|r.path| - 1] !in dist && r.path[|r.path| - 1] != destination
    requires h0 - multiset{r} <= h
    requires FrontierOk(adj, cost, origin, dist.Keys + {r.path[|r.path| - 1]}, h)
    requires var u := r.path[|r.path| - 1];
      forall y :: y in NeighborsOf(adj, u) && y !in dist ==> Route(r.price + cost(u, y), r.path + [y]) in h
    ensures var u := r.path[|r.path| - 1];
      SearchInv(adj, cost, origin, destination, dist[u := r.price], h) && u in Targets(adj)
  {
    var u := r.path[|r.path| - 1];
    assert RouteOk(adj, cost, origin, dist.Keys, r);
    forall q | PathFromTo(adj, q, origin, u) ensures r.price <= PathCost(cost, q) {
      CheapestIsShortest(adj, cost, origin, dist, h0, r, u, q);
    }
    SettleMinimal(adj, cost, origin, dist, u, r.price);
    Settle(adj, cost, dist, h0, h, r);
    EndIsTarget(adj, cost, origin, dist.Keys, r);
    assert dist[u := r.price].Keys == dist.Keys + {u};
  }

  /** Dropping a held route whose end `u` is unvisited and pushing its
      extensions keeps every held route well formed once `u` is visited. */
  lemma VisitFrontier<N>(adj: map<N, set<N>>, cost: (N, N) -> nat, origin: N, visited: set<N>,
                         h0: multiset<Route<N>>, r: Route<N>, u: N)
    requires FrontierOk(adj, cost, origin, visited, h0) && r in h0
    requires |r.path| > 0 && u == r.path[|r.path| - 1] && u !in visited
    ensures var h := (h0 - multiset{r}) + multiset(Extensions(cost, r, NeighborsOf(adj, u) - visited));
      && h0 - multiset{r} <= h
      && FrontierOk(adj, cost, origin, visited + {u}, h)
      && forall y :: y in NeighborsOf(adj, u) && y !in visited ==> Route(r.price + cost(u, y), r.path + [y]) in h
  {
    var h1 := h0 - multiset{r};
    assert RouteOk(adj, cost, origin, visited, r);
    forall s | s in h1 ensures RouteOk(adj, cost, origin, visited, s) {
      assert RouteOk(adj, cost, origin, visited, s);
    }
    ExtensionsOk(adj, cost, origin, visited, h1, r, u);
  }

  /** Visiting the end `u` of a cheapest held route: the heap that results
      from dropping the route and pushing its extensions to the unvisited
      neighbours of `u` satisfies the invariant with `u` settled at the
      route's price, and fewer neighbours of some node remain unvisited. */
  lemma VisitInv<N(!new)>(adj: map<N, set<N>>, cost: (N, N) -> nat, origin: N, destination: N,
                          dist: map<N, nat>, h0: multiset<Route<N>>, r: Route<N>)
    requires SearchInv(adj, cost, origin, destination, dist, h0) && r in h0
    requires forall s :: s in h0 ==> r.price <= s.price
    requires |r.path| > 0 && r.path[|r.path| - 1] !in dist && r.path[|r.path| - 1] != destination
    ensures var u := r.path[|r.path| - 1];
      var h := (h0 - multiset{r}) + multiset(Extensions(cost, r, NeighborsOf(adj, u) - dist.Keys));
      && SearchInv(adj, cost, origin, destination, dist[u := r.price], h)
      && |Targets(adj) - (dist.Keys + {u})| < |Targets(adj) - dist.Keys|
  {
    var u := r.path[|r.path| - 1];
    var h := (h0 - multiset{r}) + multiset(Extensions(cost, r, NeighborsOf(adj, u) - dist.Keys));
    VisitFrontier(adj, cost, origin, dist.Keys, h0, r, u);
    VisitStep(adj, cost, origin, destination, dist, h0, h, r);
    assert Targets(adj) - dist.Keys == (Targets(adj) - (dist.Keys + {u})) + {u};
  }

  /** With the heap empty, either the destination is the origin or it cannot
      be reached. */
  lemma ExhaustedStep<N(!new)>(adj: map<N, set<N>>, cost: (N, N) -> nat, origin: N, destination: N, dist: map<N, nat>)
    requires SearchInv(adj, cost, origin, destination, dist, multiset{})
    ensures origin == destination || !Reachable(adj, origin, destination)
  {
    if origin != destination {
      ExhaustedUnreachable(adj, cost, origin, dist, destination);
    }
  }
}
