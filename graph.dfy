/** The flight network and the cheapest-route query over it.

    Nodes are airports (any type with equality; the source uses airport
    records looked up by their code). `Graph` keeps an adjacency map that
    `Connect` grows in both directions; `Load` fills it from a list of
    flights and a registry of airports by code, skipping every flight that
    names an unknown code; `Dijkstra` answers a query by Dijkstra's algorithm
    with lazy deletion of stale heap entries. The price of a flight is an
    arbitrary non-negative function `cost` of its two ends. */
module Graphs {
  import opened Paths
  import opened Frontier
  import opened Search

  /** `a` gains `b` as a neighbour (creating the entry for `a` if missing). */
  function AddNeighbor<N(==)>(adj: map<N, set<N>>, a: N, b: N): map<N, set<N>> {
    adj[a := NeighborsOf(adj, a) + {b}]
  }

  /** The adjacency map after connecting `a` and `b`. */
  function WithEdge<N(==)>(adj: map<N, set<N>>, a: N, b: N): map<N, set<N>> {
    AddNeighbor(AddNeighbor(adj, a, b), b, a)
  }

  /** `b` neighbours `a` exactly when `a` neighbours `b`. */
  ghost predicate Symmetric<N(!new)>(adj: map<N, set<N>>) {
    forall x, y :: y in NeighborsOf(adj, x) <==> x in NeighborsOf(adj, y)
  }

  /** Connecting `a` and `b` adds `b` to the neighbours of `a` and `a` to
      those of `b`, and changes no other node's neighbours. */
  lemma WithEdgeNeighbors<N>(adj: map<N, set<N>>, a: N, b: N, n: N)
    ensures NeighborsOf(WithEdge(adj, a, b), n)
         == NeighborsOf(adj, n) + (if n == a then {b} else {}) + (if n == b then {a} else {})
    ensures WithEdge(adj, a, b).Keys == adj.Keys + {a, b}
  {
  }

  lemma WithEdgeSymmetric<N(!new)>(adj: map<N, set<N>>, a: N, b: N)
    requires Symmetric(adj)
    ensures Symmetric(WithEdge(adj, a, b))
  {
    forall x, y ensures y in NeighborsOf(WithEdge(adj, a, b), x) <==> x in NeighborsOf(WithEdge(adj, a, b), y) {
      WithEdgeNeighbors(adj, a, b, x);
      WithEdgeNeighbors(adj, a, b, y);
    }
  }

  /** Connecting the same pair again changes nothing. */
  lemma WithEdgeIdempotent<N>(adj: map<N, set<N>>, a: N, b: N)
    ensures WithEdge(WithEdge(adj, a, b), a, b) == WithEdge(adj, a, b)
  {
    var once := WithEdge(adj, a, b);
    var twice := WithEdge(once, a, b);
    WithEdgeNeighbors(adj, a, b, a);
    WithEdgeNeighbors(adj, a, b, b);
    WithEdgeNeighbors(once, a, b, a);
    WithEdgeNeighbors(once, a, b, b);
    forall n | n in twice ensures n in once && twice[n] == once[n] {
      WithEdgeNeighbors(adj, a, b, n);
      WithEdgeNeighbors(once, a, b, n);
    }
  }

  /** Connecting `b` with `a` is the same as connecting `a` with `b`. */
  lemma WithEdgeCommutes<N>(adj: map<N, set<N>>, a: N, b: N)
    ensures WithEdge(adj, b, a) == WithEdge(adj, a, b)
  {
    var ab := WithEdge(adj, a, b);
    var ba := WithEdge(adj, b, a);
    WithEdgeNeighbors(adj, a, b, a);
    WithEdgeNeighbors(adj, b, a, a);
    forall n | n in ab ensures n in ba && ab[n] == ba[n] {
      WithEdgeNeighbors(adj, a, b, n);
      WithEdgeNeighbors(adj, b, a, n);
    }
  }

  /** `connect(b, a)` after `connect(a, b)` leaves the graph as one call did. */
  lemma ReverseConnectIsNoOp<N>(adj: map<N, set<N>>, a: N, b: N)
    ensures WithEdge(WithEdge(adj, a, b), b, a) == WithEdge(adj, a, b)
  {
    WithEdgeCommutes(WithEdge(adj, a, b), a, b);
    WithEdgeIdempotent(adj, a, b);
  }

  /** A flight as listed: the codes of its two airports. */
  datatype Flight = Flight(origin: string, destination: string)

  /** The adjacency map built from `flights` in order: a flight whose two
      codes are both registered connects their airports, any other flight is
      skipped. */
  function LoadAdj<N(==)>(airports: map<string, N>, flights: seq<Flight>): map<N, set<N>> {
    if flights == [] then map[]
    else
      var adj := LoadAdj(airports, flights[..|flights| - 1]);
      var f := flights[|flights| - 1];
      if f.origin in airports && f.destination in airports
      then WithEdge(adj, airports[f.origin], airports[f.destination])
      else adj
  }

  /** Flight `f` is valid and joins `a` and `b`, in either direction. */
  ghost predicate Joins<N>(airports: map<string, N>, f: Flight, a: N, b: N) {
    && f.origin in airports && f.destination in airports
    && ((airports[f.origin] == a && airports[f.destination] == b)
        || (airports[f.origin] == b && airports[f.destination] == a))
  }

  /** After loading, `b` neighbours `a` exactly when some flight with both
      codes registered joins them: valid flights all become edges, and
      flights naming an unknown code add nothing. */
  lemma {:induction false} LoadedEdges<N>(airports: map<string, N>, flights: seq<Flight>, a: N, b: N)
    ensures b in NeighborsOf(LoadAdj(airports, flights), a)
        <==> exists i :: 0 <= i < |flights| && Joins(airports, flights[i], a, b)
    decreases |flights|
  {
    if flights != [] {
      var n := |flights| - 1;
      var front := flights[..n];
      LoadedEdges(airports, front, a, b);
      var f := flights[n];
      if f.origin in airports && f.destination in airports {
        WithEdgeNeighbors(LoadAdj(airports, front), airports[f.origin], airports[f.destination], a);
      }
      if exists i :: 0 <= i < |flights| && Joins(airports, flights[i], a, b) {
        var i :| 0 <= i < |flights| && Joins(airports, flights[i], a, b);
        if i < n {
          assert front[i] == flights[i];
        }
      }
      if exists i :: 0 <= i < |front| && Joins(airports, front[i], a, b) {
        var i :| 0 <= i < |front| && Joins(airports, front[i], a, b);
        assert flights[i] == front[i];
      }
    }
  }

  /** An airport that no valid flight touches has no neighbours after
      loading. */
  lemma UnflownHasNoNeighbors<N>(airports: map<string, N>, flights: seq<Flight>, a: N)
    requires forall i, b :: 0 <= i < |flights| ==> !Joins(airports, flights[i], a, b)
    ensures NeighborsOf(LoadAdj(airports, flights), a) == {}
  {
    forall b | b in NeighborsOf(LoadAdj(airports, flights), a) ensures false {
      LoadedEdges(airports, flights, a, b);
    }
  }

  /** Loading always gives a symmetric adjacency map. */
  lemma {:induction false} LoadedSymmetric<N(!new)>(airports: map<string, N>, flights: seq<Flight>)
    ensures Symmetric(LoadAdj(airports, flights))
    decreases |flights|
  {
    if flights != [] {
      var front := flights[..|flights| - 1];
      LoadedSymmetric(airports, front);
      var f := flights[|flights| - 1];
      if f.origin in airports && f.destination in airports {
        WithEdgeSymmetric(LoadAdj(airports, front), airports[f.origin], airports[f.destination]);
      }
    }
  }

  class Graph<N(==,!new)> {
    var adj: map<N, set<N>>

    /** Every edge is stored in both directions. */
    ghost predicate Valid()
      reads this
    {
      Symmetric(adj)
    }

    constructor ()
      ensures Valid() && adj == map[]
    {
      adj := map[];
    }

    /** The neighbours of `n`; none for a node that was never connected. */
    function Neighbors(n: N): (r: set<N>)
      reads this
      ensures n !in adj ==> r == {}
    {
      NeighborsOf(adj, n)
    }

    method Connect(a: N, b: N)
      requires Valid()
      modifies this
      ensures Valid()
      ensures adj == WithEdge(old(adj), a, b)
      ensures Neighbors(a) == old(Neighbors(a)) + {b}
      ensures Neighbors(b) == old(Neighbors(b)) + {a}
      ensures forall n :: n != a && n != b ==> Neighbors(n) == old(Neighbors(n))
    {
      WithEdgeSymmetric(adj, a, b);
      WithEdgeNeighbors(adj, a, b, a);
      WithEdgeNeighbors(adj, a, b, b);
      forall n | n != a && n != b ensures NeighborsOf(WithEdge(adj, a, b), n) == NeighborsOf(adj, n) {
        WithEdgeNeighbors(adj, a, b, n);
      }
      adj := AddNeighbor(adj, a, b);
      adj := AddNeighbor(adj, b, a);
    }

    /** Builds the network from a registry of airports by code and a list of
        flights, skipping flights that name an unregistered code. */
    static method Load(airports: map<string, N>, flights: seq<Flight>) returns (world: Graph<N>)
      ensures fresh(world) && world.Valid()
      ensures world.adj == LoadAdj(airports, flights)
    {
      world := new Graph<N>();
      var i := 0;
      while i < |flights|
        invariant 0 <= i <= |flights|
        invariant fresh(world) && world.Valid()
        invariant world.adj == LoadAdj(airports, flights[..i])
      {
        var flight := flights[i];
        assert flights[..i + 1][..i] == flights[..i];
        if flight.origin in airports && flight.destination in airports {
          world.Connect(airports[flight.origin], airports[flight.destination]);
        }
        i := i + 1;
      }
      assert flights[..i] == flights;
    }

    /** Starts a search: a fresh heap holding the one-edge route from
        `origin` to each of its neighbours. */
    method Seed(origin: N, cost: (N, N) -> nat) returns (routes: Heap<N>)
      ensures fresh(routes) && routes.Valid()
      ensures routes.Contents() == multiset(Extensions(cost, Route(0, [origin]), NeighborsOf(adj, origin)))
      ensures FrontierOk(adj, cost, origin, {origin}, routes.Contents())
      ensures forall y :: y in Neighbors(origin) ==> Route(cost(origin, y), [origin, y]) in routes.Contents()
    {
      routes := new Heap<N>();
      var todo := Neighbors(origin);
      ghost var pushed: set<N> := {};
      assert Extensions(cost, Route(0, [origin]), pushed) == {};
      while todo != {}
        invariant fresh(routes) && routes.Valid()
        invariant todo <= NeighborsOf(adj, origin)
        invariant pushed == NeighborsOf(adj, origin) - todo
        invariant routes.Contents() == multiset(Extensions(cost, Route(0, [origin]), pushed))
        decreases |todo|
      {
        var neighbor :| neighbor in todo;
        var seeded := Route(cost(origin, neighbor), [origin, neighbor]);
        assert [origin] + [neighbor] == [origin, neighbor];
        ExtensionsAdd(cost, Route(0, [origin]), pushed, neighbor, seeded);
        routes.Push(seeded);
        pushed := pushed + {neighbor};
        todo := todo - {neighbor};
      }
      SeedFrontier(adj, cost, origin, routes.Contents());
    }

    /** Pushes the extension of `route` to every neighbour of its last node
        that is not visited yet, one copy each, and nothing else. */
    method Expand(routes: Heap<N>, visited: set<N>, route: Route<N>, cost: (N, N) -> nat)
      requires routes.Valid() && |route.path| > 0
      modifies routes
      ensures routes.Valid()
      ensures routes.Contents() == old(routes.Contents())
                                   + multiset(Extensions(cost, route, NeighborsOf(adj, route.path[|route.path| - 1]) - visited))
    {
      var price, path := route.price, route.path;
      var airport := path[|path| - 1];
      var next := Neighbors(airport);
      ghost var base := routes.Contents();
      ghost var pushed: set<N> := {};
      assert Extensions(cost, route, pushed) == {};
      while next != {}
        invariant routes.Valid()
        invariant next <= NeighborsOf(adj, airport)
        invariant pushed == (NeighborsOf(adj, airport) - next) - visited
        invariant routes.Contents() == base + multiset(Extensions(cost, route, pushed))
        decreases |next|
      {
        var neighbor :| neighbor in next;
        if neighbor !in visited {
          PushExtension(routes, route, cost, base, pushed, neighbor);
          pushed := pushed + {neighbor};
        }
        next := next - {neighbor};
      }
      assert pushed == NeighborsOf(adj, airport) - visited;
    }

    /** Pushes the extension of `route` to `neighbor`, one more than the
        extensions to the nodes `pushed` so far. */
    static method PushExtension(routes: Heap<N>, route: Route<N>, cost: (N, N) -> nat,
                                ghost base: multiset<Route<N>>, ghost pushed: set<N>, neighbor: N)
      requires routes.Valid() && |route.path| > 0 && neighbor !in pushed
      requires routes.Contents() == base + multiset(Extensions(cost, route, pushed))
      modifies routes
      ensures routes.Valid()
      ensures routes.Contents() == base + multiset(Extensions(cost, route, pushed + {neighbor}))
    {
      var extended := Route(route.price + cost(route.path[|route.path| - 1], neighbor), route.path + [neighbor]);
      ExtensionsAdd(cost, route, pushed, neighbor, extended);
      routes.Push(extended);
    }

    /** Marks the end of `route`, a cheapest route taken from the frontier,
        visited at the price of `route`, and pushes its extensions. */
    method Visit(routes: Heap<N>, origin: N, destination: N, cost: (N, N) -> nat, visited: set<N>,
                 ghost dist: map<N, nat>, ghost held: multiset<Route<N>>, route: Route<N>)
      returns (visited': set<N>, ghost dist': map<N, nat>)
      requires routes.Valid() && visited == dist.Keys
      requires SearchInv(adj, cost, origin, destination, dist, held) && route in held
      requires forall s :: s in held ==> route.price <= s.price
      requires routes.Contents() == held - multiset{route}
      requires |route.path| > 0
      requires route.path[|route.path| - 1] !in visited && route.path[|route.path| - 1] != destination
      modifies routes
      ensures var u := route.path[|route.path| - 1];
        && visited' == visited + {u}
        && dist' == dist[u := route.price]
        && routes.Contents() == old(routes.Contents()) + multiset(Extensions(cost, route, NeighborsOf(adj, u) - visited))
      ensures routes.Valid() && visited' == dist'.Keys
      ensures SearchInv(adj, cost, origin, destination, dist', routes.Contents())
      ensures |Targets(adj) - visited'| < |Targets(adj) - visited|
    {
      var airport := route.path[|route.path| - 1];
      Expand(routes, visited, route, cost);
      VisitInv(adj, cost, origin, destination, dist, held, route);
      visited' := visited + {airport};
      dist' := dist[airport := route.price];
    }

    /** One turn of the search loop: takes a cheapest route off a non-empty
        frontier. A route to a visited node is dropped (`Stale`); a route to
        `destination` is the answer (`Arrived`); any other route has its end
        visited and its extensions pushed (`Expanded`). */
    method Step(routes: Heap<N>, origin: N, destination: N, cost: (N, N) -> nat, visited: set<N>,
                ghost dist: map<N, nat>)
      returns (route: Route<N>, turn: Turn, visited': set<N>, ghost dist': map<N, nat>)
      requires routes.Valid() && visited == dist.Keys && routes.Len() > 0
      requires SearchInv(adj, cost, origin, destination, dist, routes.Contents())
      modifies routes
      ensures routes.Valid()
      ensures route in old(routes.Contents()) && |route.path| >= 2
      ensures forall s :: s in old(routes.Contents()) ==> route.price <= s.price
      ensures var u := route.path[|route.path| - 1];
        && (turn.Stale? <==> u in visited)
        && (turn.Arrived? <==> u !in visited && u == destination)
        && (!turn.Expanded? ==>
              visited' == visited && dist' == dist && routes.Contents() == old(routes.Contents()) - multiset{route})
        && (turn.Expanded? ==>
              && visited' == visited + {u}
              && dist' == dist[u := route.price]
              && routes.Contents() == old(routes.Contents()) - multiset{route}
                                      + multiset(Extensions(cost, route, NeighborsOf(adj, u) - visited)))
      ensures turn.Arrived? ==>
        && PathFromTo(adj, route.path, origin, destination)
        && route.price == PathCost(cost, route.path)
        && Simple(route.path)
        && (forall q :: PathFromTo(adj, q, origin, destination) ==> route.price <= PathCost(cost, q))
        && origin != destination && Reachable(adj, origin, destination)
      ensures !turn.Arrived? ==>
        && visited' == dist'.Keys
        && SearchInv(adj, cost, origin, destination, dist', routes.Contents())
        && (|Targets(adj) - visited'| < |Targets(adj) - visited|
            || (visited' == visited && routes.Len() < old(routes.Len())))
    {
      ghost var held := routes.Contents();
      route := routes.Pop();
      HeldRouteOk(adj, cost, origin, destination, dist, held, route);
      var airport := route.path[|route.path| - 1];
      if airport in visited {
        StaleStep(adj, cost, origin, destination, dist, held, route);
        turn, visited', dist' := Stale, visited, dist;
      } else if airport == destination {
        ArriveStep(adj, cost, origin, destination, dist, held, route);
        turn, visited', dist' := Arrived, visited, dist;
      } else {
        visited', dist' := Visit(routes, origin, destination, cost, visited, dist, held, route);
        turn := Expanded;
      }
    }

    /** The search loop: runs `Step` until a route arrives at the destination
        or the heap runs dry. */
    method Explore(routes: Heap<N>, origin: N, destination: N, cost: (N, N) -> nat, visited0: set<N>,
                   ghost dist0: map<N, nat>)
      returns (result: Outcome<N>)
      requires routes.Valid() && visited0 == dist0.Keys
      requires SearchInv(adj, cost, origin, destination, dist0, routes.Contents())
      modifies routes
      ensures result.Found? ==>
        && |result.path| >= 2
        && PathFromTo(adj, result.path, origin, destination)
        && result.price == PathCost(cost, result.path)
        && Simple(result.path)
        && (forall q :: PathFromTo(adj, q, origin, destination) ==> result.price <= PathCost(cost, q))
        && origin != destination && Reachable(adj, origin, destination)
      ensures result.NoPath? ==> origin == destination || !Reachable(adj, origin, destination)
    {
      var visited := visited0;
      ghost var dist := dist0;
      while routes.Len() > 0
        invariant routes.Valid()
        invariant visited == dist.Keys
        invariant SearchInv(adj, cost, origin, destination, dist, routes.Contents())
        decreases |Targets(adj) - visited|, routes.Len()
      {
        var route, turn;
        route, turn, visited, dist := Step(routes, origin, destination, cost, visited, dist);
        if turn.Arrived? {
          return Found(route.price, route.path);
        }
      }
      ExhaustedStep(adj, cost, origin, destination, dist);
      return NoPath;
    }

    /** The cheapest route from `origin` to `destination`. The origin is
        marked visited before the search starts, so a query from a node to
        itself finds no route. */
    method Dijkstra(origin: N, destination: N, cost: (N, N) -> nat) returns (result: Outcome<N>)
      ensures result.Found? ==>
        && |result.path| >= 2
        && PathFromTo(adj, result.path, origin, destination)
        && result.price == PathCost(cost, result.path)
        && Simple(result.path)
      ensures result.Found? ==>
        forall q :: PathFromTo(adj, q, origin, destination) ==> result.price <= PathCost(cost, q)
      ensures result.NoPath? <==> origin == destination || !Reachable(adj, origin, destination)
    {
      var routes := Seed(origin, cost);
      SeedInv(adj, cost, origin, destination, routes.Contents());
      result := Explore(routes, origin, destination, cost, {origin}, map[origin := 0]);
    }
  }
}
