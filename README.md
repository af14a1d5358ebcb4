# Cheapest flight route: a verified model

`dijkstra.py` answers one kind of query: the cheapest chain of direct
flights between two airports. It has three parts, and this project models
each one imperatively, as the Python code is written.

- **Graph.** An undirected flight network is kept as a `defaultdict(set)`
  from each airport to its neighbours. `connect` adds an edge in both
  directions. `load` builds the network from the flight list and skips any
  flight whose airport code is not registered.
- **Heap.** A min-heap of candidate routes `(price, path)`, backed by
  `heapq` on a list.
- **Search.** `dijkstra` seeds the heap with the origin's one-flight routes
  and marks the origin visited. It then pops the cheapest route:
  - a route to a visited airport is dropped (lazy deletion);
  - a route to the destination is the answer;
  - any other route is extended to each unvisited neighbour, and its end
    is marked visited.

  When the heap runs empty, the search returns the sentinel `sys.maxsize`.

The Dafny modules follow the same structure.

- `paths.dfy` (module `Paths`) defines the vocabulary of every contract:
  - neighbours of a node, with an absent key meaning no neighbours;
  - paths and reachability;
  - simple paths;
  - the price of a path, the sum of `cost` over its flights.
- `frontier.dfy` (module `Frontier`) holds the `Route` record and the class
  `Heap`. `Heap` is a binary heap on a `seq` field. `Push` and `Pop`
  replace that field by the grown or shrunk list, sifting to restore heap
  order.
- `search.dfy` (module `Search`) holds the search invariant and its
  step lemmas. A ghost map `dist` records the price at which each visited
  airport was settled. The invariant `SearchInv` combines three parts:
  - every heap route is a path from the origin whose nodes before the last
    are visited and distinct, and whose price is its cost (the last node may
    repeat an earlier one: a flight from an airport to itself pushes such a
    route, which is later dropped as stale);
  - every settled price is minimal;
  - every flight from a visited to an unvisited airport is matched by a
    heap route no dearer than going through the visited end.
- `graph.dfy` (module `Graphs`) holds the class `Graph`:
  - its adjacency `map<N, set<N>>` field;
  - the methods `Connect` and `Load`;
  - the search itself: `Dijkstra` seeds the heap with `Seed` and runs the
    `while routes:` loop in `Explore`; one turn of that loop is `Step`, which
    reports what it did as a `Turn` (`Stale`, `Expanded` or `Arrived`);
    `Visit` handles an expanded route, and `Expand` with `PushExtension`
    is the loop that pushes its extensions.

Airports are a generic type `N` with equality. The flight price is a
parameter `cost: (N, N) -> nat`, so it is non-negative by its type. The
source computes it from the haversine distance. No proof needs the
price to be symmetric, so the model does not assume it.

The query returns `Found(price, path)` or `NoPath`, in place of the
`sys.maxsize` sentinel. Because the origin is marked visited before the
loop, a query from an airport to itself returns `NoPath`. This is what the
code at `dijkstra.py:93-103` does. A design that treats an airport as its
own cheapest route, at price 0 with a one-node path, would differ, and the
model follows the code.

## Model

| member | source | states |
|---|---|---|
| Graphs.Graph.constructor | dijkstra.py:54-55 | a new network has no adjacency entries and is symmetric |
| Graphs.Graph.Neighbors | dijkstra.py:61-62 | an airport never connected has the empty neighbour set; it is an empty result, not a failure |
| Graphs.Graph.Connect | dijkstra.py:57-59 | `b` joins the neighbours of `a` and `a` joins those of `b`; no other airport's neighbours change; the network stays symmetric |
| Graphs.WithEdgeNeighbors | dijkstra.py:57-59 | connecting `a` and `b` adds exactly `b` to `a`'s neighbours and `a` to `b`'s, and creates entries for just these two keys |
| Graphs.WithEdgeSymmetric | dijkstra.py:57-59 | connecting keeps "y neighbours x iff x neighbours y" |
| Graphs.WithEdgeIdempotent | dijkstra.py:55-59 | connecting the same pair twice gives the same adjacency map as once |
| Graphs.WithEdgeCommutes | dijkstra.py:57-59 | `connect(b, a)` and `connect(a, b)` give the same map |
| Graphs.ReverseConnectIsNoOp | dijkstra.py:55-59 | `connect(b, a)` after `connect(a, b)` changes nothing |
| Graphs.Graph.Load | dijkstra.py:64-74 | loading yields a fresh symmetric network whose map is the in-order fold of the flights, skipping flights with an unknown code |
| Graphs.LoadedEdges | dijkstra.py:67-73 | after loading, `b` neighbours `a` iff some flight with both codes registered joins them; every valid flight is an edge, and an invalid one adds nothing |
| Graphs.LoadedSymmetric | dijkstra.py:64-74 | a loaded network is symmetric |
| Graphs.UnflownHasNoNeighbors | dijkstra.py:61-73 | an airport that no valid flight touches has no neighbours after loading |
| Frontier.Heap.constructor | dijkstra.py:14-15 | a new heap is empty and in heap order |
| Frontier.Heap.Len | dijkstra.py:23-24 | the length is the number of routes held, and it is 0 exactly when the heap is empty |
| Frontier.Heap.Push | dijkstra.py:17-18 | heap order is kept and exactly one copy of the route is added |
| Frontier.Heap.Pop | dijkstra.py:20-21 | pop returns a route the heap held, no dearer than any route held, and removes exactly that one copy; heap order is kept |
| Frontier.Heap.SiftUp | dijkstra.py:17-18 | sifting a pushed entry up restores heap order and keeps the same routes |
| Frontier.Heap.SiftDown | dijkstra.py:20-21 | sifting the new root down restores heap order and keeps the same routes |
| Frontier.RootIsCheapest | dijkstra.py:20-21 | in heap order the first entry is no dearer than any entry |
| Frontier.RootIsCheapestOfAll | dijkstra.py:20-21 | in heap order the first entry is no dearer than every route held |
| Frontier.RemoveRoot | dijkstra.py:20-21 | moving the last entry to the root removes exactly the old root and breaks order only below the root |
| Frontier.CheaperChild | dijkstra.py:20-21 | picks a child of `k` that is no dearer than any child of `k` |
| Frontier.SiftDownStep | dijkstra.py:20-21 | swapping an entry with its cheaper, cheaper-than-it child moves the disorder one level down |
| Frontier.SiftDownDone | dijkstra.py:20-21 | an entry no dearer than its children leaves the heap fully ordered |
| Frontier.LeafIsDone | dijkstra.py:20-21 | disorder below a childless position is no disorder |
| Frontier.SiftUpStep | dijkstra.py:17-18 | swapping an entry with a dearer parent moves the disorder one level up |
| Frontier.SwapKeepsContents | dijkstra.py:17-21 | a swap keeps the same routes |
| Graphs.Graph.Seed | dijkstra.py:88-91 | the fresh heap holds exactly one copy of the one-flight route `[origin, y]` at price `cost(origin, y)` for each neighbour `y` and nothing else, and each is a well-formed route |
| Search.SeedFrontier | dijkstra.py:89-91 | the seeded heap, one route `[origin, y]` per neighbour, is well formed over the visited set `{origin}` and holds every such route |
| Graphs.Graph.Expand | dijkstra.py:106-110 | the heap afterwards holds exactly what it held plus one copy of the extension of the route to each unvisited neighbour of its end, at the added flight price, and nothing else |
| Graphs.Graph.PushExtension | dijkstra.py:108-110 | pushing the extension to one more neighbour adds exactly that extension to those pushed so far |
| Graphs.Graph.Visit | dijkstra.py:105-112 | the end `u` of a cheapest popped route becomes visited (`visited + {u}`) and settled at the route's price; the heap gains exactly the extensions to the unvisited neighbours of `u`; the search invariant is kept and fewer neighbours of some airport remain unvisited |
| Graphs.Graph.Step | dijkstra.py:96-112 | pops a cheapest route held; it is `Stale` iff its end is visited, and then nothing else changes; it is `Arrived` iff its end is the unvisited destination, and then it is a minimal simple route from origin to destination and, as for a stale route, only that route has left the heap and `visited` is unchanged; otherwise it is `Expanded`: its end is added to `visited` and settled at its price, and the heap is the old one minus the route plus its extensions; when not arrived the invariant is kept and (unvisited targets, heap length) decreases |
| Graphs.Graph.Explore | dijkstra.py:96-114 | the `while routes:` loop: a found route is a minimal simple route from origin to destination with at least two airports, priced at its cost; `NoPath` only when origin equals destination or the destination is unreachable; the loop terminates |
| Graphs.Graph.Dijkstra | dijkstra.py:87-114 | a returned path has at least two airports, runs from origin to destination along flights, is simple, and its price is the sum of its flight prices; that price is no more than that of any path from origin to destination; `NoPath` is returned iff origin equals destination or the destination is unreachable; the loop terminates |
| Search.SeedOk | dijkstra.py:89-91 | a one-flight route from the origin is well formed |
| Search.SeedCovered | dijkstra.py:89-94 | with the origin settled at 0, every flight out of it is matched by a heap route |
| Search.SeedInv | dijkstra.py:88-94 | the seeded heap and the visited origin satisfy the search invariant |
| Search.HeldRouteOk | dijkstra.py:97-98 | every popped route is well formed |
| Search.CheapestIsShortest | dijkstra.py:96-103 | a cheapest heap route to an unvisited airport costs no more than any path to that airport |
| Search.DropStale | dijkstra.py:99-100 | dropping a route to a visited airport keeps every edge leaving the visited set matched |
| Search.StaleStep | dijkstra.py:99-100 | skipping a stale route keeps the search invariant |
| Search.ArrivedIsSimple | dijkstra.py:102-103 | a well-formed route whose end is unvisited is simple |
| Search.ArriveStep | dijkstra.py:102-103 | a cheapest route reaching the destination is a simple path of at least two airports, priced at its cost, minimal, and the destination differs from the origin |
| Search.ExtendOk | dijkstra.py:106-110 | extending a route to a neighbour yields a well-formed route with the flight's price added |
| Search.ExtensionsAdd | dijkstra.py:106-110 | the extensions to one more node are the old ones plus exactly one new route, since distinct nodes give distinct paths |
| Search.ExtensionsOk | dijkstra.py:106-112 | the pushed extensions are well-formed routes once the expanded end is visited, and each of them is held |
| Search.VisitFrontier | dijkstra.py:97-112 | dropping the popped route and pushing its extensions keeps every held route well formed once its end is visited |
| Search.VisitInv | dijkstra.py:97-112 | the heap after a visit, with the end settled at the route's price, satisfies the search invariant, and fewer neighbours of some node remain unvisited |
| Search.WidenFrontier | dijkstra.py:112 | marking one more airport visited keeps every heap route well formed |
| Search.Settle | dijkstra.py:105-112 | after the pushes, edges leaving the grown visited set are all matched |
| Search.SettleMinimal | dijkstra.py:112 | settling an airport at a price no more than any path to it keeps every settled price minimal |
| Search.EndIsTarget | dijkstra.py:96-112 | the end of a well-formed route is some airport's neighbour, which bounds how often the loop can visit |
| Search.VisitStep | dijkstra.py:105-112 | visiting the end of a cheapest route keeps the search invariant |
| Search.NothingCovers | dijkstra.py:96 | an empty heap holds a route to no airport |
| Search.ExhaustedUnreachable | dijkstra.py:96-114 | with an empty heap the visited set is closed under flights, so no unvisited airport is reachable |
| Search.ExhaustedStep | dijkstra.py:114 | once the heap is empty, origin equals destination or the destination is unreachable |
| Paths.ExtendPath | dijkstra.py:106-110 | a path extended by a neighbour is a path and costs one flight more |
| Paths.PrefixIsPath | dijkstra.py:96-103 | a non-empty prefix of a path is a path |
| Paths.PrefixCostAtMost | dijkstra.py:96-103 | with non-negative prices a prefix never costs more than the whole path |
| Paths.ClosedTraps | dijkstra.py:96-114 | a path that starts in a set closed under flights ends inside it |
| Paths.FirstExit | dijkstra.py:96-103 | a path leaving a set has a first airport outside it, with every airport before it inside |
| Paths.SimpleSnoc | dijkstra.py:106-110 | appending an airport not on a simple path keeps it simple |

## Left out

- Reading `airports.dat` and `flights.dat` (`dijkstra.py:27-50`) is file I/O and is left out. The module-level `AIRPORTS` table (`dijkstra.py:39`) becomes the `airports: map<string, N>` parameter of `Load`, and the flight records become a `seq<Flight>`.
- The flight price `get_price` (`dijkstra.py:79-84`) is computed with floating-point haversine distance from a foreign library, scaled by `cents_per_km`. It is replaced by a parameter `cost: (N, N) -> nat`, so prices are whole numbers.
- The `functools.lru_cache` memoisation of prices (`dijkstra.py:77`) is left out. It does not change any result, because the price function is deterministic.
- The interactive driver (`dijkstra.py:117-126`) is left out: `input`, `print`, and the unchecked `AIRPORTS[...]` lookups.
- Frontier.Heap.Pop: calling it on an empty heap is excluded by its precondition. `heappop` would raise `IndexError` there, but the search only pops while the heap is non-empty.
- Frontier.Heap.Pop: the heap orders routes by price only. When prices tie, Python's tuple comparison falls through to comparing path lists, so which cheapest route `heappop` chooses is not modelled. The contract promises some cheapest route.
- Frontier.Heap.Push, Frontier.Heap.Pop: `heapq` moves a hole instead of swapping entries, and the model sifts by swapping. After a pop, `heapq` first sinks the hole to a leaf along the cheaper child, taking the right child on a tie, and then sifts the moved entry back up. The model sifts the moved entry down directly and takes the left child on a tie. Both keep the same routes in heap order, but the exact positions after a tie may differ.
- Graphs.Graph.Neighbors: in the source, reading a missing key of the `defaultdict` inserts an empty set for it. The model leaves the map unchanged, because that insertion changes no airport's neighbour set.
- Graphs.Graph.Dijkstra: the order in which neighbours are visited is a nondeterministic choice (`:|`), where Python uses set iteration order. The test `airport is destination` (object identity) is modelled as equality of airports.
- Graphs.Graph.Dijkstra: the source returns the integer `sys.maxsize` when no route exists, and the model returns the tagged value `NoPath`.
