/** `nearest_station`: a linear scan for the station closest to a position. */
module Nearest {
  import opened Transit

  /** The index the scan settles on: it moves to a later station only when that
      one is strictly closer, so ties go to the earliest. -1 for no stations. */
  function ScanIndex(ss: seq<Station>, p: Point, dist: Distance): (k: int)
    ensures -1 <= k < |ss|
    ensures k == -1 <==> ss == []
  {
    if ss == [] then -1
    else
      var k := ScanIndex(ss[..|ss| - 1], p, dist);
      if k == -1 || dist(p, ss[|ss| - 1].Pos()) < dist(p, ss[k].Pos()) then |ss| - 1 else k
  }

  /** Station `k` is at minimal distance from `p`, and it is the first such:
      every earlier station is strictly farther, no later one is closer. */
  ghost predicate IsFirstNearest(ss: seq<Station>, p: Point, dist: Distance, k: int)
  {
    && 0 <= k < |ss|
    && (forall j :: 0 <= j < k ==> dist(p, ss[j].Pos()) > dist(p, ss[k].Pos()))
    && (forall j :: k < j < |ss| ==> dist(p, ss[j].Pos()) >= dist(p, ss[k].Pos()))
  }

  lemma {:induction false} ScanIndexIsFirstNearest(ss: seq<Station>, p: Point, dist: Distance)
    requires ss != []
    ensures IsFirstNearest(ss, p, dist, ScanIndex(ss, p, dist))
  {
    var n := |ss| - 1;
    var front := ss[..n];
    if front != [] {
      ScanIndexIsFirstNearest(front, p, dist);
      var k := ScanIndex(front, p, dist);
      assert forall j :: 0 <= j < n ==> ss[j] == front[j];
    }
  }

  /** The name `nearest_station` returns: `None` for an empty list, otherwise
      the name of the first station at minimal distance. */
  function NearestName(ss: seq<Station>, p: Point, dist: Distance): (r: Option<string>)
    ensures r.None? <==> ss == []
    ensures r.Some? ==> exists k :: IsFirstNearest(ss, p, dist, k) && ss[k].name == r.value
  {
    var k := ScanIndex(ss, p, dist);
    if k == -1 then None
    else
      ScanIndexIsFirstNearest(ss, p, dist);
      Some(ss[k].name)
  }

  /** The scan itself. `shortest` starts at infinity, written `None`. */
  method NearestStation(ss: seq<Station>, p: Point, dist: Distance) returns (closest: Option<string>)
    ensures closest == NearestName(ss, p, dist)
  {
    closest := None;
    var shortest: Option<real> := None;
    ghost var k := -1;
    var i := 0;
    while i < |ss|
      invariant 0 <= i <= |ss|
      invariant k == ScanIndex(ss[..i], p, dist)
      invariant i == 0 <==> shortest.None?
      invariant i == 0 ==> closest.None?
      invariant i > 0 ==> 0 <= k < i && closest == Some(ss[k].name) && shortest == Some(dist(p, ss[k].Pos()))
    {
      assert ss[..i + 1][..i] == ss[..i];
      var d := dist(p, ss[i].Pos());
      if shortest.None? || d < shortest.value {
        shortest := Some(d);
        closest := Some(ss[i].name);
        k := i;
      }
      i := i + 1;
    }
    assert ss[..i] == ss;
  }
}
