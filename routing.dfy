/** The decisions of the three route endpoints: `/route` (one shortest path,
    falling back to the nearest station as start), `/fw_time` (a lookup in the
    all-pairs table) and `/multi-route` (legs stitched into one trip). */
module Routing {
  import opened Transit
  import Nearest

  datatype RouteError =
    | MissingDestination   // "Missing destination"
    | UnknownDestination   // "Unknown destination"
    | InvalidStart         // "Invalid starting point"
    | MissingParameters    // "Missing parameters"
    | InvalidPair          // "Invalid station pair"
    | TooFewStops          // "At least two stops required"
    | PathFailed           // the path finder raised; answered with status 500

  datatype Result<T> = Ok(value: T) | Err(error: RouteError)

  /** Python truthiness of an optional query parameter. */
  predicate Given(s: Option<string>)
  {
    s.Some? && s.value != ""
  }

  /** One shortest path from the path finder and its length. */
  datatype Leg = Leg(path: seq<string>, time: real)

  /** The path finder over the graph: `None` when it raises (an unknown node,
      or no path between the two). */
  type PathFinder = (string, string) -> Option<Leg>

  /** The body of a successful answer: the stations passed and the travel time. */
  datatype Trip = Trip(route: seq<string>, eta: real)

  // ---------------------------------------------------------------------
  // /route

  /** The start the handler settles on: the given one when it is a usable node,
      otherwise the nearest station to `(lat, lon)`, where an absent coordinate
      is 0. The nearest station may still not be a node. */
  function ResolveStart(from: Option<string>, lat: Option<real>, lon: Option<real>,
                        nodes: set<string>, ss: seq<Station>, dist: Distance): (r: Option<string>)
    ensures Given(from) && from.value != "auto" && from.value in nodes ==> r == from
    ensures !(Given(from) && from.value != "auto" && from.value in nodes) ==>
              r == Nearest.NearestName(ss, Point(if lat.Some? then lat.value else 0.0, if lon.Some? then lon.value else 0.0), dist)
  {
    if !Given(from) || from.value == "auto" || from.value !in nodes then
      var p := Point(if lat.Some? then lat.value else 0.0, if lon.Some? then lon.value else 0.0);
      Nearest.NearestName(ss, p, dist)
    else from
  }

  /** The validation of `/route`: the destination must be given and be a node;
      the start is resolved as above and must end up a node. */
  function SingleRouteEndpoints(to: Option<string>, from: Option<string>, lat: Option<real>, lon: Option<real>,
                                nodes: set<string>, ss: seq<Station>, dist: Distance): (r: Result<(string, string)>)
    ensures r == Err(MissingDestination) <==> !Given(to)
    ensures r == Err(UnknownDestination) <==> Given(to) && to.value !in nodes
    ensures r == Err(InvalidStart) <==>
              Given(to) && to.value in nodes && !(ResolveStart(from, lat, lon, nodes, ss, dist).Some?
                                                    && ResolveStart(from, lat, lon, nodes, ss, dist).value in nodes)
    ensures r.Ok? <==>
              Given(to) && to.value in nodes && ResolveStart(from, lat, lon, nodes, ss, dist).Some?
              && ResolveStart(from, lat, lon, nodes, ss, dist).value in nodes
    ensures r.Ok? ==> r.value.1 == to.value && r.value.0 in nodes && Some(r.value.0) == ResolveStart(from, lat, lon, nodes, ss, dist)
  {
    if !Given(to) then Err(MissingDestination)
    else if to.value !in nodes then Err(UnknownDestination)
    else
      var start := ResolveStart(from, lat, lon, nodes, ss, dist);
      if start.None? || start.value !in nodes then Err(InvalidStart)
      else Ok((start.value, to.value))
  }

  /** The whole `/route` answer, with the path finder as an oracle. */
  function SingleRoute(to: Option<string>, from: Option<string>, lat: Option<real>, lon: Option<real>,
                       nodes: set<string>, ss: seq<Station>, dist: Distance, find: PathFinder): (r: Result<Trip>)
    ensures SingleRouteEndpoints(to, from, lat, lon, nodes, ss, dist).Err? ==>
              r == Err(SingleRouteEndpoints(to, from, lat, lon, nodes, ss, dist).error)
    ensures r.Ok? ==>
              exists a, b :: SingleRouteEndpoints(to, from, lat, lon, nodes, ss, dist) == Ok((a, b)) && find(a, b) == Some(Leg(r.value.route, r.value.eta))
    ensures SingleRouteEndpoints(to, from, lat, lon, nodes, ss, dist).Ok? ==>
              (r == Err(PathFailed) <==> find(SingleRouteEndpoints(to, from, lat, lon, nodes, ss, dist).value.0,
                                              SingleRouteEndpoints(to, from, lat, lon, nodes, ss, dist).value.1).None?)
    ensures forall a, b :: SingleRouteEndpoints(to, from, lat, lon, nodes, ss, dist) == Ok((a, b)) && find(a, b).Some? ==>
              r == Ok(Trip(find(a, b).value.path, find(a, b).value.time))
  {
    match SingleRouteEndpoints(to, from, lat, lon, nodes, ss, dist)
    case Err(e) => Err(e)
    case Ok((a, b)) =>
      match find(a, b)
      case None => Err(PathFailed)
      case Some(leg) => Ok(Trip(leg.path, leg.time))
  }

  // ---------------------------------------------------------------------
  // /fw_time

  /** The lookup of `/fw_time` in the all-pairs table `table[a][b]`. */
  function FwTime(a: Option<string>, b: Option<string>, table: map<string, map<string, real>>): (r: Result<real>)
    ensures r == Err(MissingParameters) <==> !Given(a) || !Given(b)
    ensures r == Err(InvalidPair) <==>
              Given(a) && Given(b) && (a.value !in table || b.value !in table[a.value])
    ensures r.Ok? <==> Given(a) && Given(b) && a.value in table && b.value in table[a.value]
    ensures r.Ok? ==> r.value == table[a.value][b.value]
  {
    if !Given(a) || !Given(b) then Err(MissingParameters)
    else if a.value !in table || b.value !in table[a.value] then Err(InvalidPair)
    else Ok(table[a.value][b.value])
  }

  // ---------------------------------------------------------------------
  // /multi-route

  /** `l[1:]`: a list without its first element (empty stays empty). */
  function DropFirst(l: seq<string>): (r: seq<string>)
    ensures |r| == if l == [] then 0 else |l| - 1
    ensures forall j :: 0 <= j < |r| ==> r[j] == l[j + 1]
  {
    if l == [] then [] else l[1..]
  }

  /** The first leg whole, then every later leg without its first node. */
  function Stitch(legs: seq<Leg>): seq<string>
  {
    if legs == [] then []
    else if |legs| == 1 then legs[0].path
    else Stitch(legs[..|legs| - 1]) + DropFirst(legs[|legs| - 1].path)
  }

  /** The sum of the leg times. */
  function TotalTime(legs: seq<Leg>): real
  {
    if legs == [] then 0.0 else TotalTime(legs[..|legs| - 1]) + legs[|legs| - 1].time
  }

  /** The sum of the leg path lengths. */
  function TotalLength(legs: seq<Leg>): int
  {
    if legs == [] then 0 else TotalLength(legs[..|legs| - 1]) + |legs[|legs| - 1].path|
  }

  /** The legs for the first `n` consecutive pairs of `hops`, or `None` as soon
      as one of them fails. */
  function Plan(hops: seq<string>, find: PathFinder, n: nat): (r: Option<seq<Leg>>)
    requires n < |hops|
    ensures r.Some? ==> |r.value| == n
  {
    if n == 0 then Some([])
    else
      match Plan(hops, find, n - 1)
      case None => None
      case Some(legs) =>
        match find(hops[n - 1], hops[n])
        case None => None
        case Some(leg) => Some(legs + [leg])
  }

  /** Leg `i` of a plan is what the path finder returned for hops `i` and `i + 1`. */
  lemma {:induction false} PlanLegs(hops: seq<string>, find: PathFinder, n: nat)
    requires n < |hops| && Plan(hops, find, n).Some?
    ensures forall i {:trigger Plan(hops, find, n).value[i]} :: 0 <= i < n ==>
              find(hops[i], hops[i + 1]) == Some(Plan(hops, find, n).value[i])
  {
    if n > 0 {
      PlanLegs(hops, find, n - 1);
      var legs := Plan(hops, find, n - 1).value;
      assert Plan(hops, find, n).value == legs + [find(hops[n - 1], hops[n]).value];
    }
  }

  /** What `/multi-route` answers for the posted `stops`. */
  function MultiLeg(hops: Option<seq<string>>, find: PathFinder): (r: Result<Trip>)
    ensures r == Err(TooFewStops) <==> hops.None? || |hops.value| < 2
  {
    if hops.None? || |hops.value| < 2 then Err(TooFewStops)
    else
      match Plan(hops.value, find, |hops.value| - 1)
      case None => Err(PathFailed)
      case Some(legs) => Ok(Trip(Stitch(legs), TotalTime(legs)))
  }

  /** The stitching loop of `/multi-route`. */
  method MultiLegRoute(hops: Option<seq<string>>, find: PathFinder) returns (r: Result<Trip>)
    ensures r == MultiLeg(hops, find)
  {
    if hops.None? || |hops.value| < 2 {
      return Err(TooFewStops);
    }
    var stops := hops.value;
    var fullTrip: seq<string> := [];
    var totalEta := 0.0;
    var i := 0;
    while i < |stops| - 1
      invariant 0 <= i <= |stops| - 1
      invariant Plan(stops, find, i).Some?
      invariant fullTrip == Stitch(Plan(stops, find, i).value)
      invariant totalEta == TotalTime(Plan(stops, find, i).value)
    {
      var leg := find(stops[i], stops[i + 1]);
      if leg.None? {
        MultiLegFails(stops, find, i);
        return Err(PathFailed);
      }
      var legPath := leg.value.path;
      totalEta := totalEta + leg.value.time;
      if i > 0 {
        legPath := DropFirst(legPath);
      }
      LegStep(stops, find, i);
      fullTrip := fullTrip + legPath;
      i := i + 1;
    }
    r := Ok(Trip(fullTrip, totalEta));
  }

  /** The loop stops at the first missing leg: the answer is a failure. */
  lemma MultiLegFails(stops: seq<string>, find: PathFinder, i: nat)
    requires i + 1 < |stops| && Plan(stops, find, i).Some? && find(stops[i], stops[i + 1]).None?
    ensures MultiLeg(Some(stops), find) == Err(PathFailed)
  {
    PlanStaysFailed(stops, find, i + 1, |stops| - 1);
  }

  /** The loop runs to the end: the answer is the whole plan stitched, with the
      sum of its leg times. */
  lemma MultiLegSucceeds(hops: seq<string>, find: PathFinder, legs: seq<Leg>)
    requires |hops| >= 2 && Plan(hops, find, |hops| - 1) == Some(legs)
    ensures MultiLeg(Some(hops), find) == Ok(Trip(Stitch(legs), TotalTime(legs)))
  {
  }

  /** With at least two stops the answer is a failure exactly when some
      consecutive pair of stops has no path. */
  lemma MultiLegPathFailed(hops: seq<string>, find: PathFinder)
    requires |hops| >= 2
    ensures MultiLeg(Some(hops), find) == Err(PathFailed) <==> exists i :: 0 <= i < |hops| - 1 && LegMissing(hops, find, i)
  {
    PlanFails(hops, find, |hops| - 1);
  }

  /** One turn of the stitching loop: a found leg extends the plan, the trip
      and the time. */
  lemma LegStep(stops: seq<string>, find: PathFinder, i: nat)
    requires i + 1 < |stops| && Plan(stops, find, i).Some? && find(stops[i], stops[i + 1]).Some?
    ensures Plan(stops, find, i + 1).Some?
    ensures var leg := find(stops[i], stops[i + 1]).value;
      Stitch(Plan(stops, find, i + 1).value) == Stitch(Plan(stops, find, i).value) + (if i > 0 then DropFirst(leg.path) else leg.path)
    ensures TotalTime(Plan(stops, find, i + 1).value) == TotalTime(Plan(stops, find, i).value) + find(stops[i], stops[i + 1]).value.time
  {
    var legs, leg := Plan(stops, find, i).value, find(stops[i], stops[i + 1]).value;
    PlanSnoc(stops, find, i, legs, leg);
    StitchSnoc(legs, leg);
    if i == 0 {
      assert legs == [];
    }
  }

  /** One more found leg extends the plan by that leg. */
  lemma PlanSnoc(hops: seq<string>, find: PathFinder, n: nat, legs: seq<Leg>, leg: Leg)
    requires n + 1 < |hops| && Plan(hops, find, n) == Some(legs) && find(hops[n], hops[n + 1]) == Some(leg)
    ensures Plan(hops, find, n + 1) == Some(legs + [leg])
  {
  }

  /** One more leg: appended without its first node unless it is the first. */
  lemma StitchSnoc(legs: seq<Leg>, leg: Leg)
    ensures Stitch(legs + [leg]) == if legs == [] then leg.path else Stitch(legs) + DropFirst(leg.path)
    ensures TotalTime(legs + [leg]) == TotalTime(legs) + leg.time
  {
    assert (legs + [leg])[..|legs|] == legs;
  }

  /** Once a leg fails, the plan for any longer prefix fails too. */
  lemma {:induction false} PlanStaysFailed(hops: seq<string>, find: PathFinder, n: nat, m: nat)
    requires n <= m < |hops|
    requires Plan(hops, find, n).None?
    ensures Plan(hops, find, m).None?
    decreases m - n
  {
    if n < m {
      PlanStaysFailed(hops, find, n + 1, m);
    }
  }

  /** The path finder fails on the leg from `hops[i]` to `hops[i + 1]`. */
  predicate LegMissing(hops: seq<string>, find: PathFinder, i: nat)
    requires i + 1 < |hops|
  {
    find(hops[i], hops[i + 1]).None?
  }

  /** The plan fails exactly when some leg cannot be found. */
  lemma {:induction false} PlanFails(hops: seq<string>, find: PathFinder, n: nat)
    requires n < |hops|
    ensures Plan(hops, find, n).None? <==> exists i :: 0 <= i < n && LegMissing(hops, find, i)
  {
    if n > 0 {
      PlanFails(hops, find, n - 1);
      if Plan(hops, find, n - 1).Some? && LegMissing(hops, find, n - 1) {
        assert exists i :: 0 <= i < n && LegMissing(hops, find, i);
      }
    }
  }

  /** A leg runs from `a` to `b`. */
  predicate LegRuns(leg: Leg, a: string, b: string)
  {
    leg.path != [] && leg.path[0] == a && leg.path[|leg.path| - 1] == b
  }

  /** Leg `i` runs from `hops[i]` to `hops[i + 1]`. */
  ghost predicate Chained(hops: seq<string>, legs: seq<Leg>)
  {
    && |legs| + 1 == |hops|
    && forall i {:trigger legs[i]} :: 0 <= i < |legs| ==> LegRuns(legs[i], hops[i], hops[i + 1])
  }

  /** Every path the finder returns runs between the two nodes it was asked for. */
  ghost predicate EndToEnd(find: PathFinder)
  {
    forall a, b :: find(a, b).Some? ==> LegRuns(find(a, b).value, a, b)
  }

  /** Where hop `i` sits in the stitched trip: the last node of leg `i - 1`. */
  function HopOffset(legs: seq<Leg>, i: nat): int
    requires i <= |legs|
  {
    if i == 0 then 0 else HopOffset(legs, i - 1) + |legs[i - 1].path| - 1
  }

  lemma {:induction false} OffsetPrefix(legs: seq<Leg>, n: nat, i: nat)
    requires i <= n <= |legs|
    ensures HopOffset(legs[..n], i) == HopOffset(legs, i)
    decreases i
  {
    if i > 0 {
      OffsetPrefix(legs, n, i - 1);
      assert legs[..n][i - 1] == legs[i - 1];
    }
  }

  ghost predicate NonEmptyLegs(legs: seq<Leg>)
  {
    forall i :: 0 <= i < |legs| ==> legs[i].path != []
  }

  /** The trip has the sum of the leg lengths minus one per join, and it ends
      at the offset of the last hop. */
  lemma {:induction false} StitchLength(legs: seq<Leg>)
    requires legs != [] && NonEmptyLegs(legs)
    ensures |Stitch(legs)| == HopOffset(legs, |legs|) + 1
    ensures |Stitch(legs)| == TotalLength(legs) - (|legs| - 1)
  {
    var n := |legs| - 1;
    var front := legs[..n];
    if n == 0 {
      assert front == [];
    } else {
      assert forall i :: 0 <= i < n ==> front[i] == legs[i];
      StitchLength(front);
      OffsetPrefix(legs, n, n);
    }
  }

  /** Dropping the last leg and the last hop keeps the legs chained. */
  lemma ChainedPrefix(hops: seq<string>, legs: seq<Leg>)
    requires Chained(hops, legs) && |legs| > 1
    ensures Chained(hops[..|legs|], legs[..|legs| - 1])
  {
    var n := |legs| - 1;
    assert forall j :: 0 <= j < n ==> legs[..n][j] == legs[j];
    assert forall j :: 0 <= j <= n ==> hops[..n + 1][j] == hops[j];
  }

  /** Hop `i` is at `HopOffset(legs, i)` of the stitched trip. */
  lemma {:induction false} StitchAt(hops: seq<string>, legs: seq<Leg>, i: nat)
    requires legs != [] && Chained(hops, legs) && i < |hops|
    ensures 0 <= HopOffset(legs, i) < |Stitch(legs)| && Stitch(legs)[HopOffset(legs, i)] == hops[i]
    decreases |legs|, 2
  {
    if |legs| == 1 {
      StitchAtSingle(hops, legs, i);
    } else if i < |legs| {
      StitchAtFront(hops, legs, i);
    } else {
      StitchAtLast(hops, legs);
    }
  }

  /** A single leg is the whole trip: its start and end are the two hops. */
  lemma StitchAtSingle(hops: seq<string>, legs: seq<Leg>, i: nat)
    requires |legs| == 1 && Chained(hops, legs) && i < |hops|
    ensures 0 <= HopOffset(legs, i) < |Stitch(legs)| && Stitch(legs)[HopOffset(legs, i)] == hops[i]
  {
    assert LegRuns(legs[0], hops[0], hops[1]);
    assert Stitch(legs) == legs[0].path;
    assert HopOffset(legs, 1) == |legs[0].path| - 1;
  }

  /** A hop before the last leg sits where it sits in the trip of the earlier legs. */
  lemma {:induction false} StitchAtFront(hops: seq<string>, legs: seq<Leg>, i: nat)
    requires |legs| > 1 && Chained(hops, legs) && i < |legs|
    ensures 0 <= HopOffset(legs, i) < |Stitch(legs)| && Stitch(legs)[HopOffset(legs, i)] == hops[i]
    decreases |legs|, 1
  {
    var n := |legs| - 1;
    var front, hs := legs[..n], hops[..n + 1];
    ChainedPrefix(hops, legs);
    StitchAt(hs, front, i);
    OffsetPrefix(legs, n, i);
    assert hs[i] == hops[i];
    assert Stitch(legs) == Stitch(front) + DropFirst(legs[n].path);
  }

  /** The last hop is at the offset past the last join. */
  lemma {:induction false} StitchAtLast(hops: seq<string>, legs: seq<Leg>)
    requires |legs| > 1 && Chained(hops, legs)
    ensures 0 <= HopOffset(legs, |legs|) < |Stitch(legs)| && Stitch(legs)[HopOffset(legs, |legs|)] == hops[|legs|]
    decreases |legs|, 0
  {
    var n := |legs| - 1;
    var front, hs, last := legs[..n], hops[..n + 1], legs[n];
    assert NonEmptyLegs(legs);
    assert NonEmptyLegs(front) by { ChainedPrefix(hops, legs); }
    StitchLength(legs);
    StitchLength(front);
    OffsetPrefix(legs, n, n);
    assert Stitch(legs) == Stitch(front) + DropFirst(last.path);
    assert HopOffset(legs, n + 1) == HopOffset(legs, n) + |last.path| - 1;
    if |last.path| == 1 {
      ChainedPrefix(hops, legs);
      StitchAt(hs, front, n);
      assert hs[n] == hops[n];
    } else {
      assert DropFirst(last.path)[|last.path| - 2] == last.path[|last.path| - 1];
    }
  }

  lemma {:induction false} OffsetGrows(legs: seq<Leg>, i: nat, j: nat)
    requires NonEmptyLegs(legs) && i <= j <= |legs|
    ensures HopOffset(legs, i) <= HopOffset(legs, j)
    decreases j
  {
    if i < j {
      OffsetGrows(legs, i, j - 1);
    }
  }

  /** For chained legs the stitched trip starts at the first hop, ends at the
      last one, and passes every hop in order: hop `i` sits at an offset that
      never goes backwards as `i` grows. Its length is the sum of the leg
      lengths minus one per join. */
  lemma StitchShape(hops: seq<string>, legs: seq<Leg>)
    requires legs != [] && Chained(hops, legs)
    ensures |Stitch(legs)| == TotalLength(legs) - (|legs| - 1)
    ensures |Stitch(legs)| > 0 && Stitch(legs)[0] == hops[0] && Stitch(legs)[|Stitch(legs)| - 1] == hops[|hops| - 1]
    ensures forall i :: 0 <= i < |hops| ==>
              0 <= HopOffset(legs, i) < |Stitch(legs)| && Stitch(legs)[HopOffset(legs, i)] == hops[i]
    ensures forall i, j :: 0 <= i <= j <= |legs| ==> HopOffset(legs, i) <= HopOffset(legs, j)
  {
    assert NonEmptyLegs(legs);
    forall i, j | 0 <= i <= j <= |legs| ensures HopOffset(legs, i) <= HopOffset(legs, j) {
      OffsetGrows(legs, i, j);
    }
    StitchLength(legs);
    forall i | 0 <= i < |hops|
      ensures 0 <= HopOffset(legs, i) < |Stitch(legs)| && Stitch(legs)[HopOffset(legs, i)] == hops[i]
    {
      StitchAt(hops, legs, i);
    }
    assert HopOffset(legs, 0) == 0;
  }

  /** With such a path finder, the legs of a plan are chained. */
  lemma PlanChained(hops: seq<string>, find: PathFinder, n: nat)
    requires EndToEnd(find) && n + 1 == |hops| && Plan(hops, find, n).Some?
    ensures Chained(hops, Plan(hops, find, n).value)
  {
    var legs := Plan(hops, find, n).value;
    PlanLegs(hops, find, n);
    forall i | 0 <= i < |legs| ensures LegRuns(legs[i], hops[i], hops[i + 1]) {
      assert find(hops[i], hops[i + 1]) == Some(legs[i]);
    }
  }

  /** Given a path finder whose paths run from the requested start to the
      requested end, a successful `/multi-route` answer is the stitch of chained
      legs, so it starts at the first stop, ends at the last and passes every
      stop in order, and it reports the sum of the leg times. */
  lemma MultiLegTrip(hops: seq<string>, find: PathFinder)
    requires |hops| >= 2 && EndToEnd(find)
    requires MultiLeg(Some(hops), find).Ok?
    ensures Plan(hops, find, |hops| - 1).Some?
    ensures var legs := Plan(hops, find, |hops| - 1).value;
              Chained(hops, legs) && MultiLeg(Some(hops), find) == Ok(Trip(Stitch(legs), TotalTime(legs)))
    ensures var route := MultiLeg(Some(hops), find).value.route;
              |route| > 0 && route[0] == hops[0] && route[|route| - 1] == hops[|hops| - 1]
  {
    var legs := Plan(hops, find, |hops| - 1).value;
    PlanChained(hops, find, |hops| - 1);
    assert MultiLeg(Some(hops), find) == Ok(Trip(Stitch(legs), TotalTime(legs)));
    StitchShape(hops, legs);
  }

  /** With two stops, `/multi-route` is the single leg between them. */
  lemma MultiLegOfTwo(a: string, b: string, find: PathFinder)
    ensures find(a, b).None? ==> MultiLeg(Some([a, b]), find) == Err(PathFailed)
    ensures find(a, b).Some? ==> MultiLeg(Some([a, b]), find) == Ok(Trip(find(a, b).value.path, find(a, b).value.time))
  {
    var hops := [a, b];
    assert hops[0] == a && hops[1] == b;
    assert Plan(hops, find, 0) == Some([]);
    if find(a, b).Some? {
      var leg := find(a, b).value;
      PlanSnoc(hops, find, 0, [], leg);
      StitchSnoc([], leg);
      assert [] + [leg] == [leg];
    }
  }
}
