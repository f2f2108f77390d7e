/** Values shared by the whole backend model: stations, positions, and the
    abstract geodesic distance. */
module Transit {

  datatype Option<T> = None | Some(value: T)

  /** A geographic position (latitude, longitude). */
  datatype Point = Point(lat: real, lon: real)

  /** One entry of the station list: `{"name": ..., "lat": ..., "lon": ...}`. */
  datatype Station = Station(name: string, lat: real, lon: real)
  {
    function Pos(): Point { Point(lat, lon) }
  }

  /** Geodesic distance in metres between two positions. The backend takes it
      from a geodesy library; here it is any function the caller supplies. */
  type Distance = (Point, Point) -> real

  /** The names that occur in a station list. */
  function Names(ss: seq<Station>): (r: set<string>)
    ensures forall i :: 0 <= i < |ss| ==> ss[i].name in r
    ensures forall n :: n in r ==> exists i :: 0 <= i < |ss| && ss[i].name == n
  {
    set s | s in ss :: s.name
  }

  lemma NamesAppend(a: seq<Station>, b: seq<Station>)
    ensures Names(a + b) == Names(a) + Names(b)
  {
    var ab := a + b;
    forall n | n in Names(ab) ensures n in Names(a) + Names(b) {
      var i :| 0 <= i < |ab| && ab[i].name == n;
      if i < |a| { assert ab[i] == a[i]; } else { assert ab[i] == b[i - |a|]; }
    }
    forall n | n in Names(a) + Names(b) ensures n in Names(ab) {
      if n in Names(a) {
        var i :| 0 <= i < |a| && a[i].name == n;
        assert ab[i] == a[i];
      } else {
        var i :| 0 <= i < |b| && b[i].name == n;
        assert ab[|a| + i] == b[i];
      }
    }
  }

  /** One more station adds its name. */
  lemma NamesSnoc(ss: seq<Station>, i: nat)
    requires i < |ss|
    ensures Names(ss[..i + 1]) == Names(ss[..i]) + {ss[i].name}
  {
    NamesAppend(ss[..i], [ss[i]]);
    assert ss[..i + 1] == ss[..i] + [ss[i]];
  }
}
