/** Building the transit graph at start-up: a node per station, the preset
    routes whose endpoints are known, and links from every station to its two
    closest others. */
module Graphs {
  import opened Transit
  import opened Proximity

  /** An undirected edge: the set of its endpoints. */
  type Edge = set<string>

  function Pair(a: string, b: string): (e: Edge)
    ensures a in e && b in e && (forall n :: n in e ==> n == a || n == b)
  {
    {a, b}
  }

  lemma PairOfDistinct(a: string, b: string)
    requires a != b
    ensures |Pair(a, b)| == 2
  {
    assert Pair(a, b) == {a} + {b};
  }

  /** A hard-wired route between two stations, by name. */
  type Route = (string, string)

  const PresetRoutes: seq<Route> := [
    ("Graphic Era Deemed", "Graphic Era Hill"),
    ("Graphic Era Deemed", "Max Hospital"),
    ("Max Hospital", "Pacific Mall"),
    ("Pacific Mall", "Clock Tower"),
    ("Clock Tower", "Karanpur"),
    ("Karanpur", "Garhi Cantt"),
    ("Garhi Cantt", "Khalanga"),
    ("Khalanga", "Raipur"),
    ("Graphic Era Deemed", "Jogiwala"),
    ("Jogiwala", "Raipur"),
    ("ISBT", "Majra"),
    ("Majra", "Subhash Nagar"),
    ("Subhash Nagar", "Clock Tower"),
    ("FRI Dehradun", "ISBT"),
    ("FRI Dehradun", "Prem Nagar"),
    ("Prem Nagar", "Sudhowala"),
    ("Sudhowala", "Banjarawala"),
    ("Banjarawala", "ISBT"),
    ("Clock Tower", "Mussoorie")
  ]

  /** The index of the first station from `k` on that carries `name`, or -1. */
  function FirstWithName(ss: seq<Station>, name: string, k: nat): (r: int)
    requires k <= |ss|
    ensures r == -1 || k <= r < |ss|
    ensures r == -1 <==> forall j :: k <= j < |ss| ==> ss[j].name != name
    ensures r != -1 ==> ss[r].name == name && forall j :: k <= j < r ==> ss[j].name != name
    decreases |ss| - k
  {
    if k == |ss| then -1
    else if ss[k].name == name then k
    else FirstWithName(ss, name, k + 1)
  }

  /** `next((s for s in stations if s['name'] == name), None)`: the first
      station carrying `name`, or `None`. */
  function FindStation(ss: seq<Station>, name: string): (r: Option<Station>)
    ensures r.None? <==> name !in Names(ss)
    ensures r.Some? ==> exists i :: 0 <= i < |ss| && ss[i] == r.value && ss[i].name == name
                                    && forall j :: 0 <= j < i ==> ss[j].name != name
  {
    var k := FirstWithName(ss, name, 0);
    if k == -1 then None else Some(ss[k])
  }

  // ---------------------------------------------------------------------
  // Preset routes

  /** One preset route: linked, with the distance between its first matching
      stations as weight, when both names are known; skipped otherwise. */
  function PresetStep(ss: seq<Station>, dist: Distance, w: map<Edge, real>, r: Route): map<Edge, real>
  {
    var sa, sb := FindStation(ss, r.0), FindStation(ss, r.1);
    if sa.None? || sb.None? then w else w[Pair(r.0, r.1) := dist(sa.value.Pos(), sb.value.Pos())]
  }

  /** The preset pass over `rs`, in order, starting from the weights `w`. */
  function LinkPresets(ss: seq<Station>, dist: Distance, w: map<Edge, real>, rs: seq<Route>): map<Edge, real>
    decreases |rs|
  {
    if rs == [] then w else LinkPresets(ss, dist, PresetStep(ss, dist, w, rs[0]), rs[1..])
  }

  ghost predicate KnownRoute(ss: seq<Station>, r: Route)
  {
    r.0 in Names(ss) && r.1 in Names(ss)
  }

  /** After the preset pass the edges are exactly the old ones and the preset
      routes both of whose endpoints name a station. */
  lemma {:induction false} LinkPresetsEdges(ss: seq<Station>, dist: Distance, w: map<Edge, real>, rs: seq<Route>)
    ensures forall e :: e in LinkPresets(ss, dist, w, rs) <==>
              e in w || exists i :: 0 <= i < |rs| && KnownRoute(ss, rs[i]) && e == Pair(rs[i].0, rs[i].1)
    decreases |rs|
  {
    if rs != [] {
      var w' := PresetStep(ss, dist, w, rs[0]);
      LinkPresetsEdges(ss, dist, w', rs[1..]);
      assert forall i :: 0 <= i < |rs| - 1 ==> rs[1..][i] == rs[i + 1];
      forall e | e in LinkPresets(ss, dist, w, rs)
        ensures e in w || exists i :: 0 <= i < |rs| && KnownRoute(ss, rs[i]) && e == Pair(rs[i].0, rs[i].1)
      {
        if e !in w' {
          var i :| 0 <= i < |rs| - 1 && KnownRoute(ss, rs[1..][i]) && e == Pair(rs[1..][i].0, rs[1..][i].1);
          assert rs[i + 1] == rs[1..][i];
        } else if e !in w {
          assert KnownRoute(ss, rs[0]) && e == Pair(rs[0].0, rs[0].1);
        }
      }
      forall e | e in w || exists i :: 0 <= i < |rs| && KnownRoute(ss, rs[i]) && e == Pair(rs[i].0, rs[i].1)
        ensures e in LinkPresets(ss, dist, w, rs)
      {
        if e !in w {
          var i :| 0 <= i < |rs| && KnownRoute(ss, rs[i]) && e == Pair(rs[i].0, rs[i].1);
          if i > 0 {
            assert rs[1..][i - 1] == rs[i];
          }
        }
      }
    }
  }

  // ---------------------------------------------------------------------
  // Neighbour pass

  /** Link `base` to each chosen candidate, keeping any edge already there. */
  function LinkBase(w: map<Edge, real>, base: string, cs: seq<Candidate>): map<Edge, real>
    decreases |cs|
  {
    if cs == [] then w
    else
      var e := Pair(base, cs[0].name);
      LinkBase(if e in w then w else w[e := cs[0].d], base, cs[1..])
  }

  /** The candidates chosen for `base`: the two closest other stations. */
  function Closest(base: Station, ss: seq<Station>, dist: Distance): seq<Candidate>
  {
    TwoClosest(Candidates(base, ss, dist))
  }

  /** The neighbour pass over the stations `bases`, in order; `ss` is the whole
      station list the candidates are drawn from. */
  function LinkNearest(w: map<Edge, real>, bases: seq<Station>, ss: seq<Station>, dist: Distance): map<Edge, real>
    decreases |bases|
  {
    if bases == [] then w
    else LinkNearest(LinkBase(w, bases[0].name, Closest(bases[0], ss, dist)), bases[1..], ss, dist)
  }

  /** Linking one base keeps every existing edge and its weight, adds no more
      edges than there are candidates, adds only edges from `base` to a
      candidate, and leaves every candidate linked to `base`. */
  lemma {:induction false} LinkBaseFacts(w: map<Edge, real>, base: string, cs: seq<Candidate>)
    ensures forall e :: e in w ==> e in LinkBase(w, base, cs) && LinkBase(w, base, cs)[e] == w[e]
    ensures forall e :: e in LinkBase(w, base, cs) && e !in w ==>
              exists i :: 0 <= i < |cs| && e == Pair(base, cs[i].name)
    ensures |LinkBase(w, base, cs).Keys - w.Keys| <= |cs|
    ensures forall i :: 0 <= i < |cs| ==> Pair(base, cs[i].name) in LinkBase(w, base, cs)
    decreases |cs|
  {
    if cs != [] {
      var e0 := Pair(base, cs[0].name);
      var w' := if e0 in w then w else w[e0 := cs[0].d];
      var r := LinkBase(w, base, cs);
      LinkBaseFacts(w', base, cs[1..]);
      assert r == LinkBase(w', base, cs[1..]);
      assert forall i :: 0 <= i < |cs| - 1 ==> cs[1..][i] == cs[i + 1];
      forall e | e in r && e !in w ensures exists i :: 0 <= i < |cs| && e == Pair(base, cs[i].name) {
        if e !in w' {
          var i :| 0 <= i < |cs| - 1 && e == Pair(base, cs[1..][i].name);
          assert e == Pair(base, cs[i + 1].name);
        } else {
          assert e == Pair(base, cs[0].name);
        }
      }
      assert r.Keys - w.Keys <= (r.Keys - w'.Keys) + {e0};
      assert |(r.Keys - w'.Keys) + {e0}| <= |r.Keys - w'.Keys| + 1;
      forall i | 0 <= i < |cs| ensures Pair(base, cs[i].name) in r {
        if i > 0 {
          assert cs[1..][i - 1] == cs[i];
        }
      }
    }
  }

  /** What `base` gets linked to is among its candidates: never itself, and a
      station of the list. */
  lemma ClosestFacts(base: Station, ss: seq<Station>, dist: Distance)
    ensures |Closest(base, ss, dist)| <= 2
    ensures forall i :: 0 <= i < |Closest(base, ss, dist)| ==>
              Closest(base, ss, dist)[i].name != base.name && Closest(base, ss, dist)[i].name in Names(ss)
  {
    var p := Candidates(base, ss, dist);
    var r := Closest(base, ss, dist);
    TwoClosestIsSortedPrefix(p);
    forall i | 0 <= i < |r| ensures r[i].name != base.name && r[i].name in Names(ss) {
      assert r[i] in multiset(r + LeftOut(p));
      assert r[i] in multiset(p);
      var j :| 0 <= j < |p| && p[j] == r[i];
    }
  }

  /** One step of the neighbour pass: no existing edge changes, at most two
      edges are added, and each new edge joins `base` to one of its two closest
      candidates, a different station, so it is never a self-loop. */
  lemma NeighbourStep(w: map<Edge, real>, base: Station, ss: seq<Station>, dist: Distance)
    ensures forall e :: e in w ==>
              e in LinkBase(w, base.name, Closest(base, ss, dist)) && LinkBase(w, base.name, Closest(base, ss, dist))[e] == w[e]
    ensures |LinkBase(w, base.name, Closest(base, ss, dist)).Keys - w.Keys| <= 2
    ensures forall e :: e in LinkBase(w, base.name, Closest(base, ss, dist)) && e !in w ==>
              |e| == 2 && exists i :: 0 <= i < |Closest(base, ss, dist)| && e == Pair(base.name, Closest(base, ss, dist)[i].name)
  {
    var cs := Closest(base, ss, dist);
    LinkBaseFacts(w, base.name, cs);
    ClosestFacts(base, ss, dist);
    forall e | e in LinkBase(w, base.name, cs) && e !in w ensures |e| == 2 {
      var i :| 0 <= i < |cs| && e == Pair(base.name, cs[i].name);
      PairOfDistinct(base.name, cs[i].name);
    }
  }

  ghost predicate NeighbourEdge(base: Station, ss: seq<Station>, dist: Distance, e: Edge)
  {
    exists i :: 0 <= i < |Closest(base, ss, dist)| && e == Pair(base.name, Closest(base, ss, dist)[i].name)
  }

  /** After the whole neighbour pass every base is linked to each of its two
      closest candidates. */
  lemma {:induction false} LinkNearestComplete(w: map<Edge, real>, bases: seq<Station>, ss: seq<Station>, dist: Distance,
                                               k: nat, i: nat)
    requires k < |bases| && i < |Closest(bases[k], ss, dist)|
    ensures Pair(bases[k].name, Closest(bases[k], ss, dist)[i].name) in LinkNearest(w, bases, ss, dist)
    decreases |bases|
  {
    var w' := LinkBase(w, bases[0].name, Closest(bases[0], ss, dist));
    if k == 0 {
      LinkBaseFacts(w, bases[0].name, Closest(bases[0], ss, dist));
      LinkNearestFacts(w', bases[1..], ss, dist);
    } else {
      assert bases[1..][k - 1] == bases[k];
      LinkNearestComplete(w', bases[1..], ss, dist, k - 1, i);
    }
  }

  /** The whole neighbour pass keeps every existing edge with its weight, and
      every edge it adds is a two-closest link of some base station, between two
      different stations. */
  lemma {:induction false} LinkNearestFacts(w: map<Edge, real>, bases: seq<Station>, ss: seq<Station>, dist: Distance)
    ensures forall e :: e in w ==> e in LinkNearest(w, bases, ss, dist) && LinkNearest(w, bases, ss, dist)[e] == w[e]
    ensures forall e :: e in LinkNearest(w, bases, ss, dist) && e !in w ==>
              |e| == 2 && exists k :: 0 <= k < |bases| && NeighbourEdge(bases[k], ss, dist, e)
    decreases |bases|
  {
    if bases != [] {
      var w' := LinkBase(w, bases[0].name, Closest(bases[0], ss, dist));
      NeighbourStep(w, bases[0], ss, dist);
      LinkNearestFacts(w', bases[1..], ss, dist);
      forall e | e in LinkNearest(w, bases, ss, dist) && e !in w
        ensures |e| == 2 && exists k :: 0 <= k < |bases| && NeighbourEdge(bases[k], ss, dist, e)
      {
        if e in w' {
          assert NeighbourEdge(bases[0], ss, dist, e);
        } else {
          var k :| 0 <= k < |bases| - 1 && NeighbourEdge(bases[1..][k], ss, dist, e);
          assert bases[1..][k] == bases[k + 1];
        }
      }
    }
  }

  // ---------------------------------------------------------------------
  // The graph object

  /** The networkx graph `G`: node names and the weighted undirected edges. The
      position attribute of a node is not modelled. */
  class Graph {
    var nodes: set<string>
    var weight: map<Edge, real>

    /** Every edge joins nodes of the graph. */
    ghost predicate Valid()
      reads this
    {
      forall e :: e in weight ==> e <= nodes
    }

    constructor ()
      ensures Valid() && nodes == {} && weight == map[]
    {
      nodes := {};
      weight := map[];
    }

    predicate HasEdge(a: string, b: string)
      reads this
    {
      Pair(a, b) in weight
    }

    method AddNode(n: string)
      requires Valid()
      modifies this
      ensures Valid()
      ensures nodes == old(nodes) + {n} && weight == old(weight)
    {
      nodes := nodes + {n};
    }

    /** Adds the endpoints as nodes when missing; sets the weight, replacing
        the weight of an edge already present. */
    method AddEdge(a: string, b: string, w: real)
      requires Valid()
      modifies this
      ensures Valid()
      ensures nodes == old(nodes) + {a, b} && weight == old(weight)[Pair(a, b) := w]
    {
      nodes := nodes + {a, b};
      weight := weight[Pair(a, b) := w];
    }

    /** The first loop: a node per station. */
    method AddStations(ss: seq<Station>)
      requires Valid()
      modifies this
      ensures Valid()
      ensures nodes == old(nodes) + Names(ss) && weight == old(weight)
    {
      var i := 0;
      while i < |ss|
        invariant 0 <= i <= |ss|
        invariant Valid()
        invariant nodes == old(nodes) + Names(ss[..i]) && weight == old(weight)
      {
        NamesSnoc(ss, i);
        AddNode(ss[i].name);
        i := i + 1;
      }
      assert ss[..i] == ss;
    }

    /** The preset loop. Stations are already nodes, so no node is added. */
    method LinkPresetRoutes(ss: seq<Station>, rs: seq<Route>, dist: Distance)
      requires Valid() && Names(ss) <= nodes
      modifies this
      ensures Valid()
      ensures nodes == old(nodes) && weight == LinkPresets(ss, dist, old(weight), rs)
    {
      var i := 0;
      while i < |rs|
        invariant 0 <= i <= |rs|
        invariant Valid() && nodes == old(nodes)
        invariant LinkPresets(ss, dist, weight, rs[i..]) == LinkPresets(ss, dist, old(weight), rs)
      {
        var (a, b) := rs[i];
        assert rs[i..][1..] == rs[i + 1..];
        var sa := FindStation(ss, a);
        var sb := FindStation(ss, b);
        if sa.None? || sb.None? {
          i := i + 1;
          continue;
        }
        AddEdge(a, b, dist(sa.value.Pos(), sb.value.Pos()));
        i := i + 1;
      }
    }

    /** The neighbour loop: for every station, collect the other stations as
        `(distance, name)` candidates, take the two least, and link each one
        unless the edge exists. */
    method LinkNearestNeighbours(ss: seq<Station>, dist: Distance)
      requires Valid() && Names(ss) <= nodes
      modifies this
      ensures Valid()
      ensures nodes == old(nodes) && weight == LinkNearest(old(weight), ss, ss, dist)
    {
      var bi := 0;
      while bi < |ss|
        invariant 0 <= bi <= |ss|
        invariant Valid() && nodes == old(nodes)
        invariant LinkNearest(weight, ss[bi..], ss, dist) == LinkNearest(old(weight), ss, ss, dist)
      {
        var base := ss[bi];
        var proximity := CollectCandidates(base, ss, dist);
        var closest := TwoClosest(proximity);
        ClosestFacts(base, ss, dist);
        LinkToClosest(base.name, closest);
        assert ss[bi..][1..] == ss[bi + 1..];
        bi := bi + 1;
      }
    }

    /** The inner `proximity` loop for one base station. */
    static method CollectCandidates(base: Station, ss: seq<Station>, dist: Distance) returns (proximity: seq<Candidate>)
      ensures proximity == Candidates(base, ss, dist)
    {
      proximity := [];
      var oi := 0;
      while oi < |ss|
        invariant 0 <= oi <= |ss|
        invariant proximity == Candidates(base, ss[..oi], dist)
      {
        var other := ss[oi];
        assert ss[..oi + 1][..oi] == ss[..oi];
        if other.name != base.name {
          proximity := proximity + [Candidate(dist(base.Pos(), other.Pos()), other.name)];
        }
        oi := oi + 1;
      }
      assert ss[..oi] == ss;
    }

    /** Links `base` to each chosen neighbour in turn, with the candidate's
        distance as weight, unless the two are already joined. */
    method LinkToClosest(base: string, closest: seq<Candidate>)
      requires Valid() && base in nodes
      requires forall i :: 0 <= i < |closest| ==> closest[i].name in nodes
      modifies this
      ensures Valid()
      ensures nodes == old(nodes) && weight == LinkBase(old(weight), base, closest)
    {
      var ci := 0;
      while ci < |closest|
        invariant 0 <= ci <= |closest|
        invariant Valid() && nodes == old(nodes)
        invariant LinkBase(weight, base, closest[ci..]) == LinkBase(old(weight), base, closest)
      {
        var c := closest[ci];
        assert closest[ci..][1..] == closest[ci + 1..];
        if !HasEdge(base, c.name) {
          AddEdge(base, c.name, c.d);
        }
        ci := ci + 1;
      }
    }
  }

  /** The start-up sequence: nodes, then preset routes, then neighbour links. */
  method BuildGraph(ss: seq<Station>, rs: seq<Route>, dist: Distance) returns (g: Graph)
    ensures fresh(g) && g.Valid()
    ensures g.nodes == Names(ss)
    ensures g.weight == LinkNearest(LinkPresets(ss, dist, map[], rs), ss, ss, dist)
  {
    g := new Graph();
    g.AddStations(ss);
    g.LinkPresetRoutes(ss, rs, dist);
    g.LinkNearestNeighbours(ss, dist);
  }

  /** The edge of a preset route both of whose names are stations. */
  ghost predicate PresetEdge(ss: seq<Station>, rs: seq<Route>, e: Edge)
  {
    exists i :: 0 <= i < |rs| && KnownRoute(ss, rs[i]) && e == Pair(rs[i].0, rs[i].1)
  }

  /** A link from some station to one of its two closest candidates. */
  ghost predicate NearestLink(ss: seq<Station>, dist: Distance, e: Edge)
  {
    exists k :: 0 <= k < |ss| && NeighbourEdge(ss[k], ss, dist, e)
  }

  /** The edges of the start-up graph are exactly the known preset routes and
      the two-closest links, and a two-closest link joins two different
      stations. */
  lemma {:induction false} BuiltEdges(ss: seq<Station>, rs: seq<Route>, dist: Distance, e: Edge)
    ensures e in LinkNearest(LinkPresets(ss, dist, map[], rs), ss, ss, dist) <==>
              PresetEdge(ss, rs, e) || NearestLink(ss, dist, e)
    ensures NearestLink(ss, dist, e) ==> |e| == 2
  {
    var w := LinkPresets(ss, dist, map[], rs);
    LinkPresetsEdges(ss, dist, map[], rs);
    LinkNearestFacts(w, ss, ss, dist);
    if NearestLink(ss, dist, e) {
      var k :| 0 <= k < |ss| && NeighbourEdge(ss[k], ss, dist, e);
      var i :| 0 <= i < |Closest(ss[k], ss, dist)| && e == Pair(ss[k].name, Closest(ss[k], ss, dist)[i].name);
      LinkNearestComplete(w, ss, ss, dist, k, i);
      ClosestFacts(ss[k], ss, dist);
      PairOfDistinct(ss[k].name, Closest(ss[k], ss, dist)[i].name);
    }
  }

  /** The start-up graph with the backend's own preset list. */
  method StartUpGraph(ss: seq<Station>, dist: Distance) returns (g: Graph)
    ensures fresh(g) && g.Valid()
    ensures g.nodes == Names(ss)
    ensures forall e :: e in g.weight <==> PresetEdge(ss, PresetRoutes, e) || NearestLink(ss, dist, e)
  {
    g := BuildGraph(ss, PresetRoutes, dist);
    forall e ensures e in g.weight <==> PresetEdge(ss, PresetRoutes, e) || NearestLink(ss, dist, e) {
      BuiltEdges(ss, PresetRoutes, dist, e);
    }
  }
}
