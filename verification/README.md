# Flight catalogue model

A Dafny model of the C++ flight management core (`cpp/fms_core.cpp`, whose
data layout is in `cpp/fms.h`), together with the earlier single-class
prototype in the root `FMS.cpp`. There are three parts.

- **FlightBST**: an unbalanced binary search tree keyed on the flight id. The
  first insertion of an id wins. Search is exact, and the in-order walk skips
  cancelled flights.
- **AirportGraph**: airport names are interned lazily to dense indices. An
  undirected adjacency list keeps parallel edges. On top of it sit depth-first
  and breadth-first traversal, Dijkstra with parent-pointer path
  reconstruction, Prim, and Kruskal. Kruskal uses a union-find with union by
  rank and path compression.
- **FlightSystem**: the catalogue itself. It holds a 100-slot flight array, a
  search tree that indexes the array, the airport graph, a FIFO queue of
  booking requests, a newest-first booking list per flight, a booking-id
  counter and a stack of recent search terms.

The modules follow that structure:

| module | file | what it holds |
|---|---|---|
| `Wrappers` | `wrappers.dfy` | `Option` |
| `StringOrder` | `string_order.dfy` | `std::string`'s `<` as a lexicographic order on `seq<char>`, with its order laws |
| `Flights` | `flights.dfy` | `Booking`, `Flight`, the booking-list scan and unlink |
| `FlightBST` | `flight_bst.dfy` | the id tree, holding array slots in place of `Flight*` |
| `AirportGraph` | `graph.dfy` | interning, `addEdge`, walks and reachability |
| `Traversal` | `traversal.dfy` | `dfsUtil`/`DFS` and `BFS`, against reference definitions of depth-first preorder (`Visit`) and breadth-first discovery (`BreadthFirst`) |
| `ShortestPath` | `shortest_path.dfy` | `dijkstra_path` |
| `PrimMst` | `prim.dfy` | `primMST` |
| `UnionFind` | `union_find.dfy` | `DSU` |
| `KruskalMst` | `kruskal.dfy` | `kruskalMST` |
| `FlightSystem` | `flight_system.dfy` | the `FlightSystem` operations and whole-run properties |
| `Prototype` | `prototype.dfy` | the root `FMS.cpp` class and its driver |

Console input becomes parameters. Console output becomes returned status
values and sequences.

- The array is the sequence of its used prefix, so its length is `flightCount`.
- A tree node's `Flight*` becomes the slot index it points at.
- A booking list is a sequence with its head first.
- The queue's front is the first element. The stack's top is the last element.
- `INT_MAX` as "no distance yet" becomes `None`.
- The lazy-deletion priority queue becomes a set of `(key, node)` pairs, and
  a pop may take any pair of minimal key. Every property proved about it
  therefore holds for every tie order.

The catalogue invariant `FlightSystem.Valid` has these parts:

- the flight count is at most `MaxFlights` (100);
- every tree node refers to the first array slot holding its id;
- every stored flight's id is in the tree;
- every queued index is below the flight count;
- the graph's three structures are parallel and every neighbour index is in range;
- both endpoints of every flight are registered airports;
- each booking list is newest-first;
- every issued id is below the counter;
- no booking id is held by two flights.

`FlightSystem.Step` and `FlightSystem.Run` replay a sequence of console
commands. They are used to state properties of whole runs.

## Model

| member | source | states |
|---|---|---|
| FlightBST.Insert | cpp/fms_core.cpp:31-39 | inserting keeps the search-tree ordering; the key set gains `id`; a fresh id adds exactly one entry (id, slot) |
| FlightBST.InsertExistingKeepsTree | cpp/fms_core.cpp:31-39 | inserting an id already in the tree leaves the tree unchanged, so the first insertion of an id wins |
| FlightBST.Search | cpp/fms_core.cpp:53-58 | a hit is an entry of the tree stored under exactly that id |
| FlightBST.SearchComplete | cpp/fms_core.cpp:53-58 | on a search tree, search hits exactly when the id is one of the tree's keys |
| FlightBST.SearchFindsEntry | cpp/fms_core.cpp:53-58 | on a search tree, search returns the slot stored under the id |
| FlightBST.InsertThenSearch | cpp/fms_core.cpp:60-66 | after inserting a fresh id, searching it returns the new slot and every other id's search answer is unchanged |
| FlightBST.ActiveInOrder | cpp/fms_core.cpp:41-51 | the walk emits exactly the tree entries whose flight is active |
| FlightBST.ActiveInOrderAscending | cpp/fms_core.cpp:41-51 | on a search tree the walk's ids are strictly ascending |
| StringOrder.LessTrichotomy | cpp/fms_core.cpp:31-39 | the id comparison the tree branches on is a strict total order: any two distinct ids compare one way, never both |
| StringOrder.LessTransitive | cpp/fms_core.cpp:31-39 | the id comparison is transitive |
| Flights.FindBooking | cpp/fms_core.cpp:435-444 | the scan returns -1 exactly when no booking has the id, otherwise the first position holding it |
| Flights.Unlink | cpp/fms_core.cpp:445-447 | unlinking removes exactly one node: the others stay, in order, and the multiset loses just that booking |
| Flights.UnlinkKeepsOrder | cpp/fms_core.cpp:445-447 | unlinking keeps a list newest-first with every id below the counter |
| Flights.PrependKeepsOrder | cpp/fms_core.cpp:416-418 | pushing a booking that carries the counter's value keeps the list newest-first, below the advanced counter |
| AirportGraph.Empty | cpp/fms.h:71-73 | the empty graph satisfies the parallel-structure invariant |
| AirportGraph.GetAirportIndex | cpp/fms_core.cpp:74-82 | a known name returns its index and changes nothing; a new name gets index old size, one empty adjacency list is added, the two maps stay inverse, and no existing name is renumbered |
| AirportGraph.GetAirportIndexIdempotent | cpp/fms_core.cpp:74-82 | interning the same name twice returns the same index and leaves the graph as the first call left it |
| AirportGraph.AddEdge | cpp/fms_core.cpp:84-89 | the endpoints are registered, no existing name is renumbered, and the invariant is kept |
| AirportGraph.AddEdgeArcs | cpp/fms_core.cpp:84-89 | `(v,w)` is appended to `adj[u]` and `(u,w)` to `adj[v]` (both to one list for a self-loop); every other list is unchanged, so duplicate edges are kept |
| AirportGraph.InternKeepsArcs | cpp/fms_core.cpp:74-82 | interning never changes an existing adjacency list and adds at most one, at the old size |
| AirportGraph.ClosedHoldsReachable | cpp/fms_core.cpp:91-134 | a node set closed under arcs that holds the start holds every node reachable from it |
| Traversal.DfsUtil | cpp/fms_core.cpp:91-98 | the recursion returns exactly the depth-first preorder `Visit` defines: `u`, then the visit of each neighbour still unmarked when its arc is reached, in adjacency order, with the marked set threaded through |
| Traversal.VisitFacts | cpp/fms_core.cpp:91-98 | a visit lists `u` first and exactly the nodes it newly marks, each once, and every arc out of a listed node ends at a marked node |
| Traversal.VisitArcsFacts | cpp/fms_core.cpp:94-97 | walking one adjacency list lists exactly the nodes it newly marks, each once, keeps listed nodes' arcs inside the marked set, and leaves every arc of the list ending at a marked node |
| Traversal.VisitReachable | cpp/fms_core.cpp:91-98 | every node a visit lists is reachable from the start when the visited node is |
| Traversal.Dfs | cpp/fms_core.cpp:100-109 | an unknown start yields nothing; otherwise the names of the depth-first preorder from the start: the start first, no airport twice, and an airport is listed exactly when it is reachable from the start |
| Traversal.BfsFrom | cpp/fms_core.cpp:111-134 | the queue loop lists the start first, each node once, exactly the nodes reachable from the start, and in breadth-first order: each later node was discovered by the first listed node with an arc to it, discoverers never move backwards, and one discoverer's finds follow the order of its arcs |
| Traversal.Expand | cpp/fms_core.cpp:122-132 | one round lists the queue head, enqueues its fresh neighbours behind the rest of the queue, keeps the loop invariant, and either marks more nodes or shortens the queue |
| Traversal.DiscoverRound | cpp/fms_core.cpp:122-132 | after one round the listing followed by the queue is still a breadth-first discovery, with the dequeued node as the newest discoverer |
| Traversal.EnqueueUnvisited | cpp/fms_core.cpp:125-131 | scanning `u`'s arcs marks every neighbour and appends to the queue exactly the nodes `Fresh` gives: the unmarked neighbours, each once, in the order of their first arcs, each reachable from the start |
| Traversal.FreshInArcOrder | cpp/fms_core.cpp:125-131 | the nodes one scan enqueues were unmarked, each is the end of an arc of `u`, and they come in the order of their first arcs |
| Traversal.Bfs | cpp/fms_core.cpp:111-134 | an unknown start yields nothing; otherwise the start comes first, no airport is listed twice, an airport is listed exactly when it is reachable from the start, and the listing names a breadth-first order of the nodes |
| Traversal.NamesOfOrder | cpp/fms.h:71-73 | the index-to-name map turns a duplicate-free node list into a duplicate-free name list of exactly the registered airports whose index is in it |
| ShortestPath.Distances | cpp/fms_core.cpp:186-208 | with non-negative weights, a node gets a distance exactly when it is reachable, the start node has distance 0, no walk to a node is lighter than its distance, and every parent link is a real arc from a node settled earlier |
| ShortestPath.Reconstruct | cpp/fms_core.cpp:214-219 | following parent pointers from the target yields a node list that starts at the start node and ends at the target, the nodes of a walk along real arcs weighing no more than the target's distance |
| ShortestPath.DijkstraPath | cpp/fms_core.cpp:182-220 | no path exactly when an endpoint is unknown or the destination is unreachable; otherwise the airports run from source to destination along real arcs whose weights sum to the distance, and no source-to-destination walk is lighter |
| ShortestPath.Finished | cpp/fms_core.cpp:197-210 | once the queue is empty, distances are defined exactly on the reachable nodes and bound every walk's weight from below |
| ShortestPath.PopOne | cpp/fms_core.cpp:197-208 | one pop, stale or settling, keeps the loop invariant and either settles a node or shrinks the queue |
| ShortestPath.MinExists | cpp/fms_core.cpp:197-198 | a non-empty queue has a pair of minimal key to pop |
| PrimMst.Tree | cpp/fms_core.cpp:227-250 | the start node keeps parent -1 and key 0; any other node gets a parent exactly when it is reachable from the start; that parent joined the tree earlier and `key[v]` is the weight of an arc between them; no arc from an earlier-joined node to a later one is lighter than the later node's key; the join ranks cover exactly the reachable nodes |
| PrimMst.Finished | cpp/fms_core.cpp:238-250 | once the queue is empty, a node has joined the tree and has a key exactly when it is reachable from the start |
| PrimMst.Prim | cpp/fms_core.cpp:222-262 | an unknown start yields nothing; otherwise every reachable node other than the start has exactly one tree edge, each a real arc, listed in node order; the edges form a tree hanging from the start (each leads from an earlier-joined node to a later one, and its near end is the start or another edge's far end); no arc into an edge's far end from an earlier-joined node is lighter than the edge; the total is the sum of the edge weights |
| PrimMst.PrimFrom | cpp/fms_core.cpp:227-261 | from a start index: the edges span the reachable nodes, hang from the start, have the cut property, and the total is their weight sum |
| PrimMst.ListEdges | cpp/fms_core.cpp:252-261 | the final loop lists each linked node's parent edge and totals the keys it lists |
| PrimMst.TreeEdgesSpan | cpp/fms_core.cpp:254-260 | the listed edges are real arcs, one per node reachable from the start other than the start, and none for unreachable nodes |
| PrimMst.TreeEdgesRooted | cpp/fms_core.cpp:243-258 | given the parent and key arrays Grow leaves, the listed edges hang from the start in join order and no earlier-joined node has a lighter arc into an edge's far end |
| PrimMst.TreeEdgesFromParents | cpp/fms_core.cpp:254-258 | every listed edge is its far end's parent edge, weighted by that end's key |
| UnionFind.Init | cpp/fms_core.cpp:264-272 | every node starts as its own root, so each node is its own set |
| UnionFind.Find | cpp/fms_core.cpp:274-277 | find returns the root of `x` and points `x` at it; no node changes set, no rank changes, and the roots stay the roots |
| UnionFind.Unite | cpp/fms_core.cpp:279-286 | unite returns false exactly when the two roots already agree; afterwards `a` and `b` share a root; two nodes share a set exactly when they did before or one was with `a` and the other with `b`; on a merge exactly one of the two roots stops being a root |
| UnionFind.AttachAll | cpp/fms_core.cpp:282-284 | hanging one root under another moves exactly that root's set and removes only that root |
| KruskalMst.Candidates | cpp/fms_core.cpp:290-296 | the candidate list holds exactly the `u < v` arcs of the graph as edges |
| KruskalMst.UpperArcsCount | cpp/fms_core.cpp:292-295 | one adjacency list yields each `u < v` edge as many times as its arc occurs there |
| KruskalMst.CandidatesCount | cpp/fms_core.cpp:290-296 | each candidate edge occurs exactly as often as its `u < v` arc in the list of `u`, so parallel edges are all kept |
| KruskalMst.SortByWeight | cpp/fms_core.cpp:297-299 | the sorted list is a permutation of the candidates in non-decreasing weight order |
| KruskalMst.AcceptAll | cpp/fms_core.cpp:301-310 | the accepted edges come from the list, form a forest, connect the ends of every examined edge, number at most n-1, and the total is their weight |
| KruskalMst.AcceptTracks | cpp/fms_core.cpp:304-309 | after accepting an edge the union-find sets are still exactly the components of the accepted edges |
| KruskalMst.Kruskal | cpp/fms_core.cpp:288-312 | the result is real `u < v` edges of the graph in non-decreasing weight, forming a forest of at most n-1 edges that connects the ends of every graph edge, with the total equal to their weight |
| FlightSystem.Init | cpp/fms_core.cpp:314-315 | the new catalogue is empty, satisfies the invariant and starts the counter at 1 |
| FlightSystem.IndexOf | cpp/fms_core.cpp:383-388 | the scan returns -1 exactly when no stored flight has the id, otherwise the first slot holding it |
| FlightSystem.SearchAgreesWithScan | cpp/fms_core.cpp:60-66 | on a valid catalogue the tree search and the array scan of `bookFlight` (cpp/fms_core.cpp:383-388) agree: both miss, or both find the first slot with the id |
| FlightSystem.Lookup | cpp/fms_core.cpp:60-66 | the flight the tree returns is the array slot the scan finds, and there is none exactly when no flight has the id |
| FlightSystem.AddFlight | cpp/fms_core.cpp:317-339 | a full array is refused with no change; otherwise slot `flightCount` gets the flight, active with no bookings; the tree answers the new slot for a fresh id and keeps its answer for a repeated one; the route is added to the graph; nothing else changes; the invariant is kept |
| FlightSystem.SetActive | cpp/fms_core.cpp:341-365 | an unknown id changes nothing; otherwise only the found flight's active flag is set |
| FlightSystem.ViewFlights | cpp/fms_core.cpp:367-370 | the listing holds only active flights, each the first one stored under its id, in strictly ascending id order, and every active first-of-its-id flight appears |
| FlightSystem.BookFlight | cpp/fms_core.cpp:372-395 | a missing or cancelled flight is refused with no change; otherwise the first slot holding the id joins the back of the queue and nothing else changes; the internal-error branch is never taken |
| FlightSystem.ProcessNextBooking | cpp/fms_core.cpp:397-421 | an empty queue changes nothing; otherwise the front always leaves; a cancelled or full flight drops it; a commit takes exactly one seat (never below zero), pushes a booking carrying the counter's value at the head of the list, advances the counter, and touches no other flight |
| FlightSystem.Commit | cpp/fms_core.cpp:415-418 | the commit keeps the catalogue invariant |
| FlightSystem.IssuedIdIsFresh | cpp/fms_core.cpp:416 | the id a commit issues is above every id any flight already holds |
| FlightSystem.CancelBooking | cpp/fms_core.cpp:423-450 | an unknown flight or booking id changes nothing; otherwise the first booking with that id is unlinked from the list, the others keeping their order, the id no longer occurs, the flight gets one seat back and nothing else changes |
| FlightSystem.CancelFound | cpp/fms_core.cpp:445-448 | unlinking the found booking and restoring the seat keeps the invariant and removes exactly that booking |
| FlightSystem.ShowBookings | cpp/fms_core.cpp:452-472 | an unknown flight yields nothing; otherwise the flight's bookings are listed newest first, with strictly decreasing ids |
| FlightSystem.SearchFlightsBySource | cpp/fms_core.cpp:474-489 | the listed flights are exactly the active flights leaving `src`, in array order; the query is pushed once per flight listed; nothing else changes |
| FlightSystem.ShowRecentSearches | cpp/fms_core.cpp:491-499 | the terms come out from the top of the stack to the bottom, and the stack is left as it was |
| FlightSystem.Step | cpp/fms_core.cpp:317-450 | every command keeps the catalogue invariant |
| FlightSystem.StepCounter | cpp/fms_core.cpp:397-421 | only a commit moves the counter, by exactly one, and it issues the counter's old value |
| FlightSystem.RunIdsIncrease | cpp/fms_core.cpp:416 | over any run, booking ids are issued in strictly increasing order, never twice, and the counter ends advanced by their number |
| FlightSystem.StepConserves | cpp/fms_core.cpp:397-450 | no command removes or renames a flight or changes its seats-plus-bookings; a non-negative seat count stays non-negative |
| FlightSystem.RunConserves | cpp/fms_core.cpp:397-450 | over any run that adds no flight with negative seats, every flight keeps its slot, id and seats-plus-bookings, and seat counts never go negative |
| Prototype.Init | FMS.cpp:16-21 | the prototype starts with no flights, no queued requests and no searches |
| Prototype.AddFlight | FMS.cpp:25-32 | a full array is refused with no change; otherwise the flight is stored at slot `flightCount` and the count grows by one |
| Prototype.From | FMS.cpp:44-57 | every listed flight leaves `src`, and every flight leaving `src` is listed |
| Prototype.MatchesExact | FMS.cpp:44-57 | the matching positions `Matches` gives are increasing and are exactly the positions whose source is `src` |
| Prototype.FromInOrder | FMS.cpp:44-57 | the listing is the array's subsequence at the matching positions, so it keeps array order |
| Prototype.SearchFlights | FMS.cpp:44-57 | the flights leaving `src` are listed and each one's destination, not the query, is pushed in order |
| Prototype.BookFlight | FMS.cpp:60-67 | an index outside `[0, flightCount)` is refused with no change; otherwise it joins the back of the queue |
| Prototype.ProcessBooking | FMS.cpp:70-84 | an empty queue changes nothing; otherwise the oldest request leaves and its flight loses a seat only if it has one, so seats never go negative |
| Prototype.DriverScenario | FMS.cpp:87-110 | the driver's search pushes Delhi then Bangalore; its two requests confirm leaving 4 and 2 seats; the third round finds the queue empty |

## Left out

- Console I/O: every prompt and read in the catalogue becomes a parameter, and every message becomes a returned status or sequence.
- The menu loop and `main`.
- The `run*` wrappers (cpp/fms_core.cpp:501-533), which only read an airport name and call the graph algorithms modelled above.
- The printing-only `AirportGraph::dijkstra` (cpp/fms_core.cpp:136-180): it runs the same relaxation as `dijkstra_path` and only prints. It is the one the menu calls (cpp/fms_core.cpp:507). `dijkstra_path` has no caller in the C++ code, and the `AirportGraph` class in cpp/fms.h:50-75 does not declare it, so its out-of-class definition in cpp/fms_core.cpp would be rejected by a C++ compiler as written. It is modelled because it is the variant that returns its result.
- `new`/`delete` of tree and booking nodes, and the tree's destructor (cpp/fms_core.cpp:19-29): nodes are values of inductive datatypes.
- The prototype's `displayFlights` (FMS.cpp:35-41), which only prints the array.
- ShortestPath.DijkstraPath: requires non-negative weights, which the program does not check. `addEdge` stores every edge in both directions (cpp/fms_core.cpp:87-88), so one negative edge reachable from the source forms a negative 2-cycle. On such a graph the relaxation loop (cpp/fms_core.cpp:197-208) never empties its queue. With a single edge A-B of weight -1 and source A, `dist[A]` and `dist[B]` fall 0, -1, -2, ... by turns and the two parent pointers point at each other, until `dist[u] + w` overflows `int` at cpp/fms_core.cpp:202, which is undefined behaviour. Were the loop to stop, the walk along parent pointers at cpp/fms_core.cpp:215 would not end either. The requirement therefore excludes exactly the graphs on which the program does not finish normally; the model's termination measure depends on it. The model also uses unbounded integers, so the overflow of `dist[u] + w` near `INT_MAX` on non-negative graphs is not modelled either.
- ShortestPath.Distances: the same two gaps as `ShortestPath.DijkstraPath`. It requires non-negative weights, which excludes the graphs on which the program's relaxation loop (cpp/fms_core.cpp:197-208) never ends. It does not model the `int` overflow of `dist[u] + w` at cpp/fms_core.cpp:202.
- PrimMst.Prim: states that the edges span the reachable nodes and form a tree hanging from the start, with the cut property and the right total. The order in which nodes joined is returned as a ghost `rank` map that the program does not keep. Global minimality of the total is not proved.
- KruskalMst.Kruskal: states a forest that connects the ends of every graph edge, in weight order, with at most n-1 edges and the right total. Global minimality of the total is not proved.
- KruskalMst.SortByWeight: an insertion sort by weight that fixes one order among equal weights. The program's `std::sort` may pick any order of equal-weight edges. The properties stated do not depend on that order.
- ShortestPath.Reconstruct: builds the path by prepending as it follows parent pointers, where the program appends and then reverses; the result is the same sequence.
- PrimMst.Prim: an airport name absent from the graph is reported as `None`. In the program the check prints a message and returns.
- FlightSystem.AddFlight: nothing is validated, as in the program. Negative seat counts and distances are stored as given, and a repeated flight id is stored in the array but left out of the tree.
- FlightSystem.BookFlight: the passenger name the program reads here is discarded, so the model takes no name. processNextBooking reads the name that is stored.
- PrimMst.Tree: a key of `None` stands for the program's `INT_MAX` but is treated as heavier than every weight. An arc of weight `INT_MAX` therefore links a node here, while the program's `w < key[v]` (cpp/fms_core.cpp:244) never takes it. A node reachable only through such arcs gets a parent in the model and none in the program, so "a parent exactly when reachable" holds for the program only when all weights are below `INT_MAX`.
- PrimMst.Prim: the total is an unbounded sum; the program's `int total += key[v]` (cpp/fms_core.cpp:258) overflows for large totals, which is not modelled.
- PrimMst.Prim: returns the tree edges as (parent index, node index, weight). The program prints them with the names from `indexToAirport` (cpp/fms_core.cpp:255-256); `Traversal.Names` gives that mapping, but the edges are not mapped through it.
- KruskalMst.Kruskal: the total is an unbounded sum; the program's `int total += e.w` (cpp/fms_core.cpp:308) overflows for large totals, which is not modelled.
- KruskalMst.Kruskal: returns the accepted edges as index pairs with weights. The program prints them with the names from `indexToAirport` (cpp/fms_core.cpp:306-307); the edges are not mapped to names.
- FlightSystem.CancelBooking: the seat count grows by one without bound; the program's `int f->seats++` (cpp/fms_core.cpp:448) overflows at `INT_MAX`, which is not modelled.
- FlightSystem.RunIdsIncrease: booking ids are unbounded integers, so wrap-around of the `int` counter after 2^31 - 1 bookings is not modelled.
- `cpp/FMS.cpp` repeats the logic of `cpp/fms_core.cpp` in one file, so the table cites only the latter.
- The Streamlit front ends (`web/app.py`, `web/app2.py`), the Python bindings and the packaging code are not part of this model. They re-implement the catalogue with other rules, such as rejecting duplicate ids and appending bookings, or they only forward calls.
