# TransitFlow backend core, modelled in Dafny

TransitFlow is a city transit planner. Its Flask backend, `app.py`, does the following:

- loads the stations of Dehradun;
- builds a weighted undirected graph over them at start-up:
  - a node per station;
  - a fixed list of preset routes;
  - links from every station to its two closest other stations;
- answers route requests:
  - a single shortest route (`/route`);
  - an all-pairs travel-time lookup (`/fw_time`);
  - a stitched multi-stop trip (`/multi-route`);
- accepts new stops, one at a time (`/add-stop`) or in bulk (`/add-multiple-stops`).

This project models the deterministic core of that backend:

- `transit.dfy` (`Transit`). Station entries, positions and the distance function. The distance is a parameter that stands in for the geodesy library.
- `stations.dfy` (`Stations`):
  - the global station list as a class;
  - the field check of `/add-stop`, and the append it guards;
  - the skip-and-append loop of `/add-multiple-stops`, specified by the function `CompleteEntries`.
- `nearest.dfy` (`Nearest`). The linear scan of `nearest_station`, specified by `ScanIndex`. It is proved to return the first station at minimal distance.
- `proximity.dfy` (`Proximity`):
  - the `(distance, name)` candidates of the neighbour pass;
  - Python's tuple order over them, proved to be a total order;
  - `sorted(...)[:2]`, as the least candidate followed by the least of the rest. This is proved to be the sorted prefix of length two.
- `graph.dfy` (`Graphs`):
  - the networkx graph as a class with a node set and a weight map over unordered edges (`{a, b}`);
  - the three start-up loops as methods, each specified by a function (`Names`, `LinkPresets`, `LinkNearest`);
  - lemmas about which edges those functions add and keep.
- `routing.dfy` (`Routing`):
  - the validation decisions of `/route` and `/fw_time`, as total functions that return an error tag or the resolved inputs;
  - the stitching loop of `/multi-route`, specified by `MultiLeg`;
  - the shape of the stitched trip: it starts at the first stop, ends at the last, and passes every stop in order; its length is the sum of the leg lengths minus one per join; its time is the sum of the leg times.

Extern libraries become parameters:

- `geodesic(...).meters` is a function `Distance = (Point, Point) -> real`.
- `nx.dijkstra_path` together with `nx.dijkstra_path_length` is a `PathFinder = (string, string) -> Option<Leg>`. `None` stands for the exception the library raises; the backend answers it with status 500.
- The Floyd–Warshall result is a `map<string, map<string, real>>`.

## Model

| member | source | states |
|---|---|---|
| Transit.NamesAppend | app.py:28-29 | the node names of a concatenated station list are the union of the two lists' names |
| Stations.ToStation | app.py:169 | the new entry carries exactly the posted name, lat and lon |
| Stations.CompleteEntries | app.py:180-184 | the bulk loop's output is no longer than its input and holds only entries with non-empty names |
| Stations.CompleteEntriesAppend | app.py:180-184 | filtering complete records distributes over concatenation of the posted list |
| Stations.CompleteEntriesSingle | app.py:166-170 | on a one-record list the bulk filter appends what `/add-stop` appends, or nothing when `/add-stop` rejects |
| Stations.CompleteEntriesKeeps | app.py:180-184 | every complete posted record is appended, at the position given by the number of complete records before it |
| Stations.CompleteEntriesFrom | app.py:180-184 | every appended entry comes from a complete posted record, in input order |
| Stations.CompleteEntriesSkips | app.py:182-183 | an incomplete record contributes nothing |
| Stations.StationList.constructor | app.py:24 | the list starts as the loaded stations |
| Stations.StationList.AddStop | app.py:166-170 | a record is accepted iff its name is truthy and lat and lon are not None (0 passes); acceptance appends exactly that entry at the end, rejection leaves the list unchanged |
| Stations.StationList.BulkAddStops | app.py:180-184 | the old list stays a prefix and exactly the complete records follow in input order |
| Nearest.ScanIndex | app.py:88-92 | the scan yields -1 exactly for an empty list and otherwise an index of the list |
| Nearest.ScanIndexIsFirstNearest | app.py:85-93 | the scan's index is of a station at minimal distance; every earlier station is strictly farther and no later one is closer |
| Nearest.NearestName | app.py:85-93 | None iff there are no stations; otherwise the name of the first station at minimal distance |
| Nearest.NearestStation | app.py:85-93 | the loop with `shortest` starting at infinity and a strict `<` returns that name |
| Proximity.CandLeTotalOrder | app.py:75 | the `(distance, name)` tuple order is total, transitive and antisymmetric |
| Proximity.Candidates | app.py:68-73 | every candidate is another station of the list, never one carrying the base's name, and every station with a different name contributes its `(distance, name)` candidate |
| Proximity.CandidatesFrom | app.py:69-73 | each entry of the list is the `(distance, name)` pair of some station of the list that does not carry the base's name |
| Proximity.CandidatesSingle | app.py:69-73 | one station contributes its `(distance, name)` pair, or nothing when it carries the base's name |
| Proximity.CandidatesAppend | app.py:69-73 | the list for two runs of stations is the first run's list followed by the second's, which with `CandidatesSingle` fixes the list entry by entry, in order and with repeats |
| Proximity.MinIndex | app.py:75-76 | the chosen index holds a candidate at most every candidate |
| Proximity.TwoClosest | app.py:76 | two candidates are kept, or all of them when there are fewer |
| Proximity.TwoClosestIsSortedPrefix | app.py:75-76 | the candidates are a permutation of the chosen ones plus the rest; the chosen ones are ascending and each is at most every left-out one, so they are `sorted(proximity)[:2]` |
| Proximity.TwoLeast | app.py:75-76 | the least candidate and the least of the rest are ascending, and bound every candidate left over |
| Graphs.FirstWithName | app.py:56-57 | the index of the first station from `k` on with the name: every earlier one has another name; -1 exactly when none has it |
| Graphs.FindStation | app.py:56-57 | None iff no station has the name; otherwise the first station of the list with that name |
| Graphs.LinkPresetsEdges | app.py:55-64 | after the preset pass an edge is present iff it was present before or it is a preset route whose two names both name a station |
| Graphs.LinkBaseFacts | app.py:77-79 | linking a base keeps every existing edge with its weight, adds at most one edge per chosen candidate, only edges from the base to a candidate, and leaves every candidate linked |
| Graphs.ClosestFacts | app.py:67-76 | at most two neighbours are chosen, each another station of the list and never the base's own name |
| Graphs.NeighbourStep | app.py:67-79 | one base adds at most two new edges, each between two different stations and joining the base to one of its two closest candidates; existing edges and weights are untouched |
| Graphs.LinkNearestFacts | app.py:67-79 | the whole neighbour pass keeps existing edges and weights; every added edge has two distinct endpoints and is a two-closest link of some base |
| Graphs.LinkNearestComplete | app.py:66-79 | after the whole neighbour pass every station is linked to each of its two closest candidates |
| Graphs.BuiltEdges | app.py:55-79 | an edge is in the start-up graph iff it is a preset route both of whose names are stations or a two-closest link; a two-closest link joins two different stations |
| Graphs.Graph.constructor | app.py:25 | the graph starts with no nodes and no edges |
| Graphs.Graph.AddNode | app.py:29 | `add_node` adds the name once and changes no edge |
| Graphs.Graph.AddEdge | app.py:64 | `add_edge` adds both endpoints as nodes and sets the weight of the unordered edge, replacing an existing one; every edge still joins nodes of the graph |
| Graphs.Graph.AddStations | app.py:28-29 | the node loop adds exactly the station names and no edge |
| Graphs.Graph.LinkPresetRoutes | app.py:55-64 | the preset loop's weights are the preset pass function of the old weights and no node is added |
| Graphs.Graph.LinkNearestNeighbours | app.py:67-79 | the neighbour loop's weights are the neighbour pass function of the old weights and no node is added |
| Graphs.Graph.CollectCandidates | app.py:68-73 | the inner loop builds exactly the candidate list |
| Graphs.Graph.LinkToClosest | app.py:77-79 | the `has_edge` / `add_edge` loop over the chosen neighbours links them, skipping existing edges |
| Graphs.BuildGraph | app.py:25-79 | the start-up graph has a node per station name and the weights of the preset pass followed by the neighbour pass; every edge joins nodes |
| Graphs.StartUpGraph | app.py:25-79 | the graph built with the backend's own preset list has a node per station name and exactly the known preset routes and two-closest links as edges |
| Routing.ResolveStart | app.py:120-121 | a given, non-"auto", known start is kept; otherwise the nearest station to `(lat, lon)` is used, an absent coordinate counting as 0 |
| Routing.SingleRouteEndpoints | app.py:114-124 | "Missing destination" iff `to` is falsy; "Unknown destination" iff it is given but not a node; "Invalid starting point" iff the resolved start is not a node; `Ok` iff all three checks pass, with the resolved start and the destination |
| Routing.SingleRoute | app.py:114-128 | validation errors pass through; after validation the answer fails iff the path finder fails, and a found path gives exactly that path and its length between the resolved endpoints |
| Routing.FwTime | app.py:145-151 | "Missing parameters" iff either name is falsy; "Invalid station pair" iff both are given but the pair is not in the table; otherwise the table entry |
| Routing.DropFirst | app.py:207 | `l[1:]` is one shorter (empty stays empty) and shifted by one |
| Routing.Plan | app.py:202-204 | the legs found for the first `n` hop pairs, one per pair |
| Routing.PlanLegs | app.py:202-204 | leg `i` of the plan is what the path finder returned for hops `i` and `i + 1` |
| Routing.PlanFails | app.py:202-204 | the plan fails exactly when some consecutive pair has no leg |
| Routing.PlanStaysFailed | app.py:202-204 | once a leg fails, every longer plan fails |
| Routing.MultiLeg | app.py:195-196 | "At least two stops required" iff the stops are missing or fewer than two, whatever the path finder does |
| Routing.MultiLegRoute | app.py:195-208 | the stitching loop answers what `MultiLeg` says: the error for too few stops, a failure at the first missing leg, or the stitched legs with the sum of their times |
| Routing.LegStep | app.py:202-208 | one turn of the loop extends the plan by the found leg, the trip by the leg (its first node dropped after the first leg) and the time by the leg time |
| Routing.MultiLegFails | app.py:202-204 | a missing leg makes the whole answer a failure |
| Routing.MultiLegSucceeds | app.py:202-208 | a complete plan makes the answer its stitched trip and the sum of its leg times |
| Routing.MultiLegPathFailed | app.py:202-204 | with at least two stops the answer is a failure iff some consecutive pair of stops has no path |
| Routing.StitchSnoc | app.py:206-208 | appending a leg appends its path, without its first node unless it is the first leg, and adds its time |
| Routing.StitchLength | app.py:206-208 | the trip's length is the sum of the leg lengths minus one per join |
| Routing.OffsetGrows | app.py:206-208 | the offset of a hop in the trip never decreases along the hops |
| Routing.StitchAt | app.py:202-208 | for chained legs hop `i` sits at its offset in the stitched trip |
| Routing.StitchAtSingle | app.py:202-208 | with one leg the trip is that leg's path, from the first hop to the second |
| Routing.StitchAtFront | app.py:206-208 | a hop before the last leg keeps its place when the last leg is appended |
| Routing.StitchAtLast | app.py:206-208 | the last hop sits at the offset past the last join |
| Routing.StitchShape | app.py:202-208 | for chained legs the trip starts at the first hop, ends at the last, has every hop at its offset, with offsets never decreasing, and has the summed length minus the joins |
| Routing.PlanChained | app.py:202-204 | when every path runs between the nodes asked for, the plan's legs are chained along the hops |
| Routing.MultiLegTrip | app.py:195-208 | with such a path finder a successful answer is the stitch of the legs the path finder returned, which are chained, with the sum of their times; the trip starts at the first stop and ends at the last |
| Routing.MultiLegOfTwo | app.py:195-208 | with two stops the answer is the single leg between them, or a failure when there is none |

## Left out

- Flask routing, JSON request parsing, `jsonify`, HTTP status codes, CORS and the `/` and `/stations` handlers: plumbing around the decisions modelled here.
- Loading and persisting `stations.json` and the `print` logging: file I/O and console output.
- `geodesic` distance: floating-point geodesy from an external library. It is the abstract `Distance` parameter.
- The `/ 100` weight scaling. The model's weights are the distances themselves, which leaves the set of edges and every comparison between candidates unchanged.
- `round(..., 2)` of the reported times: floating-point formatting.
- Routing.SingleRoute: does not model rounding. It reports the path finder's length unrounded and leaves out the echoed `from` and `to` fields.
- Routing.MultiLegRoute: does not model rounding of `total_eta`.
- `nx.dijkstra_path`, `nx.dijkstra_path_length` and `nx.floyd_warshall`: external algorithms whose source is not part of this model. They are the `PathFinder` oracle and a given table. The two Dijkstra calls of one leg are one oracle call.
- The exception handlers answering status 500: only a failing path finder is modelled, as `PathFailed`. A malformed `lat` or `lon` query value makes `float(...)` raise before any check. It is not modelled: coordinates arrive already parsed, or absent.
- The `pos` attribute stored on each node: nothing in the core reads it.
- Non-string station names, non-object stop records, and a `stops` value of the wrong type: the model takes names as optional strings and records as three optional fields.
- Coordinates are modelled as reals. `add_stop` and `bulk_add_stops` (app.py:166, app.py:182) accept any non-`None` JSON value as `lat` or `lon`, such as `"12"` or `true`, and store it unchecked for `geodesic` to meet later. The model cannot express such a value.
- A non-object entry in the middle of a `/add-multiple-stops` list makes `stop.get` raise after the complete entries before it were already appended in memory, and nothing is persisted. The model's entries are always records, so this partial update cannot arise in it.
- Edge weights: the lemmas about the preset and neighbour passes state which edges exist and that existing weights are kept. They do not state the value a new edge receives, the distance between its two stations. Only the bodies of `Graphs.PresetStep` and `Graphs.LinkBase` give it, and only the abstract path finder would read it.
- The graph is built once from the stations loaded at start-up. Stops added later change the station list but not the graph or the all-pairs table, as in the backend. The model keeps the two apart.
- Graphs.Graph.LinkNearestNeighbours: the in-place `proximity.sort()` is modelled by its observable effect, the two least candidates (`TwoClosest`). The sorted order of the remaining candidates is not built.
- The browser client (selection state, swapping, request handling, map drawing): none of its code is part of this model.
