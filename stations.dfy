/** The mutable station list and the two endpoints that append to it
    (`/add-stop` and `/add-multiple-stops`). */
module Stations {
  import opened Transit

  /** A stop as posted by a client. Every field may be absent (`data.get`
      returns `None`); a name is a string when present. */
  datatype StopRecord = StopRecord(name: Option<string>, lat: Option<real>, lon: Option<real>)

  /** The record passes the backend's field check: the name is truthy (present
      and not empty) and neither coordinate is `None`. A coordinate of 0 passes. */
  predicate Complete(r: StopRecord)
  {
    r.name.Some? && r.name.value != "" && r.lat.Some? && r.lon.Some?
  }

  function ToStation(r: StopRecord): (s: Station)
    requires Complete(r)
    ensures Some(s.name) == r.name && Some(s.lat) == r.lat && Some(s.lon) == r.lon
  {
    Station(r.name.value, r.lat.value, r.lon.value)
  }

  /** The complete records of `rs`, in input order, as station entries. */
  function CompleteEntries(rs: seq<StopRecord>): (r: seq<Station>)
    ensures |r| <= |rs|
    ensures forall i :: 0 <= i < |r| ==> r[i].name != ""
  {
    if rs == [] then []
    else
      var last := rs[|rs| - 1];
      CompleteEntries(rs[..|rs| - 1]) + (if Complete(last) then [ToStation(last)] else [])
  }

  /** Filtering distributes over concatenation of the input. */
  lemma {:induction false} CompleteEntriesAppend(a: seq<StopRecord>, b: seq<StopRecord>)
    ensures CompleteEntries(a + b) == CompleteEntries(a) + CompleteEntries(b)
    decreases |b|
  {
    if b == [] {
      assert a + b == a;
    } else {
      var b' := b[..|b| - 1];
      assert (a + b)[..|a + b| - 1] == a + b';
      assert (a + b)[|a + b| - 1] == b[|b| - 1];
      CompleteEntriesAppend(a, b');
    }
  }

  /** On one record the bulk filter does what `/add-stop` does. */
  lemma CompleteEntriesSingle(r: StopRecord)
    ensures CompleteEntries([r]) == if Complete(r) then [ToStation(r)] else []
  {
    assert [r][..0] == [];
  }

  /** Every complete record of the input shows up in the output, at the
      position given by the number of complete records before it. */
  lemma CompleteEntriesKeeps(rs: seq<StopRecord>, i: nat)
    requires i < |rs| && Complete(rs[i])
    ensures |CompleteEntries(rs[..i])| < |CompleteEntries(rs)|
    ensures CompleteEntries(rs)[|CompleteEntries(rs[..i])|] == ToStation(rs[i])
  {
    assert rs == rs[..i] + [rs[i]] + rs[i + 1..];
    CompleteEntriesAppend(rs[..i] + [rs[i]], rs[i + 1..]);
    CompleteEntriesAppend(rs[..i], [rs[i]]);
    CompleteEntriesSingle(rs[i]);
  }

  /** Every output entry comes from a complete record of the input, and the
      entries keep the input order. */
  lemma {:induction false} CompleteEntriesFrom(rs: seq<StopRecord>, k: nat)
    requires k < |CompleteEntries(rs)|
    ensures exists i :: 0 <= i < |rs| && Complete(rs[i]) && CompleteEntries(rs)[k] == ToStation(rs[i])
              && |CompleteEntries(rs[..i])| == k
  {
    var n := |rs| - 1;
    var front := CompleteEntries(rs[..n]);
    if k < |front| {
      CompleteEntriesFrom(rs[..n], k);
      var i :| 0 <= i < n && Complete(rs[..n][i]) && front[k] == ToStation(rs[..n][i])
               && |CompleteEntries(rs[..n][..i])| == k;
      assert rs[..n][..i] == rs[..i];
      assert rs[..n][i] == rs[i];
    } else {
      assert Complete(rs[n]) && k == |front|;
      assert CompleteEntries(rs)[k] == ToStation(rs[n]);
    }
  }

  /** A record that fails the field check contributes nothing. */
  lemma {:induction false} CompleteEntriesSkips(rs: seq<StopRecord>, i: nat)
    requires i < |rs| && !Complete(rs[i])
    ensures CompleteEntries(rs) == CompleteEntries(rs[..i]) + CompleteEntries(rs[i + 1..])
  {
    var front, back := rs[..i], rs[i + 1..];
    assert rs == (front + [rs[i]]) + back;
    CompleteEntriesAppend(front + [rs[i]], back);
    CompleteEntriesAppend(front, [rs[i]]);
    CompleteEntriesSingle(rs[i]);
    assert CompleteEntries(front + [rs[i]]) == CompleteEntries(front);
  }

  datatype AddOutcome = Added | MissingFields

  /** The backend's global `stations` list. */
  class StationList {
    var stations: seq<Station>

    constructor (initial: seq<Station>)
      ensures stations == initial
    {
      stations := initial;
    }

    /** `/add-stop`: append one complete record; reject an incomplete one and
        leave the list as it was. */
    method AddStop(r: StopRecord) returns (outcome: AddOutcome)
      modifies this
      ensures outcome == Added <==> Complete(r)
      ensures outcome == Added ==> stations == old(stations) + [ToStation(r)]
      ensures outcome == MissingFields ==> stations == old(stations)
    {
      if r.name.None? || r.name.value == "" || r.lat.None? || r.lon.None? {
        return MissingFields;
      }
      stations := stations + [Station(r.name.value, r.lat.value, r.lon.value)];
      outcome := Added;
    }

    /** `/add-multiple-stops`: append the complete records in input order and
        skip the others silently. An absent `stops` key is the empty list. */
    method BulkAddStops(stops: seq<StopRecord>)
      modifies this
      ensures stations == old(stations) + CompleteEntries(stops)
    {
      var i := 0;
      while i < |stops|
        invariant 0 <= i <= |stops|
        invariant stations == old(stations) + CompleteEntries(stops[..i])
      {
        var stop := stops[i];
        assert stops[..i + 1][..i] == stops[..i];
        if stop.name.None? || stop.name.value == "" || stop.lat.None? || stop.lon.None? {
          i := i + 1;
          continue;
        }
        stations := stations + [Station(stop.name.value, stop.lat.value, stop.lon.value)];
        i := i + 1;
      }
      assert stops[..i] == stops;
    }
  }
}
