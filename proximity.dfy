/** The candidate list of the neighbour pass: `(distance, name)` pairs, their
    ordering, and the two least of them (`proximity.sort(); proximity[:2]`). */
module Proximity {
  import opened Transit

  /** One `(d, other['name'])` tuple. */
  datatype Candidate = Candidate(d: real, name: string)

  /** Python's ordering of strings: lexicographic by code point, a proper
      prefix first. */
  predicate NameLe(a: string, b: string)
    decreases |a|
  {
    a == [] || (b != [] && (a[0] < b[0] || (a[0] == b[0] && NameLe(a[1..], b[1..]))))
  }

  /** Python's ordering of `(d, name)` tuples: by distance, then by name. */
  predicate CandLe(x: Candidate, y: Candidate)
  {
    x.d < y.d || (x.d == y.d && NameLe(x.name, y.name))
  }

  lemma {:induction false} NameLeTotal(a: string, b: string)
    ensures NameLe(a, b) || NameLe(b, a)
    decreases |a|
  {
    if a != [] && b != [] && a[0] == b[0] {
      NameLeTotal(a[1..], b[1..]);
    }
  }

  lemma {:induction false} NameLeTransitive(a: string, b: string, c: string)
    requires NameLe(a, b) && NameLe(b, c)
    ensures NameLe(a, c)
    decreases |a|
  {
    if a != [] && a[0] == b[0] && b[0] == c[0] {
      NameLeTransitive(a[1..], b[1..], c[1..]);
    }
  }

  lemma {:induction false} NameLeAntisymmetric(a: string, b: string)
    requires NameLe(a, b) && NameLe(b, a)
    ensures a == b
    decreases |a|
  {
    if a != [] {
      NameLeAntisymmetric(a[1..], b[1..]);
      assert a == [a[0]] + a[1..] && b == [b[0]] + b[1..];
    }
  }

  /** The tuple ordering is a total order, so sorting by it is well defined. */
  lemma CandLeTotalOrder()
    ensures forall x, y :: CandLe(x, y) || CandLe(y, x)
    ensures forall x, y, z :: CandLe(x, y) && CandLe(y, z) ==> CandLe(x, z)
    ensures forall x, y :: CandLe(x, y) && CandLe(y, x) ==> x == y
  {
    forall x: Candidate, y: Candidate ensures CandLe(x, y) || CandLe(y, x) {
      NameLeTotal(x.name, y.name);
    }
    forall x: Candidate, y: Candidate, z: Candidate | CandLe(x, y) && CandLe(y, z)
      ensures CandLe(x, z)
    {
      if x.d == y.d == z.d {
        NameLeTransitive(x.name, y.name, z.name);
      }
    }
    forall x: Candidate, y: Candidate | CandLe(x, y) && CandLe(y, x) ensures x == y {
      NameLeAntisymmetric(x.name, y.name);
    }
  }

  /** `proximity` for one base station: a candidate for every other station in
      list order, skipping every station that carries the base's own name. */
  function Candidates(base: Station, ss: seq<Station>, dist: Distance): (p: seq<Candidate>)
    ensures |p| <= |ss|
    ensures forall i :: 0 <= i < |p| ==> p[i].name != base.name && p[i].name in Names(ss)
    ensures forall j :: 0 <= j < |ss| && ss[j].name != base.name ==>
              Candidate(dist(base.Pos(), ss[j].Pos()), ss[j].name) in p
  {
    if ss == [] then []
    else
      var n := |ss| - 1;
      var other := ss[n];
      NamesAppend(ss[..n], [other]);
      assert ss[..n] + [other] == ss;
      assert forall j :: 0 <= j < n ==> ss[..n][j] == ss[j];
      Candidates(base, ss[..n], dist)
        + (if other.name == base.name then [] else [Candidate(dist(base.Pos(), other.Pos()), other.name)])
  }

  /** Every candidate is the `(distance, name)` pair of a station not carrying
      the base's name. */
  lemma {:induction false} CandidatesFrom(base: Station, ss: seq<Station>, dist: Distance, i: nat)
    requires i < |Candidates(base, ss, dist)|
    ensures exists j :: 0 <= j < |ss| && ss[j].name != base.name
              && Candidates(base, ss, dist)[i] == Candidate(dist(base.Pos(), ss[j].Pos()), ss[j].name)
  {
    var n := |ss| - 1;
    var front := Candidates(base, ss[..n], dist);
    if i < |front| {
      CandidatesFrom(base, ss[..n], dist, i);
      var j :| 0 <= j < n && ss[..n][j].name != base.name
               && front[i] == Candidate(dist(base.Pos(), ss[..n][j].Pos()), ss[..n][j].name);
      assert ss[..n][j] == ss[j];
    } else {
      assert Candidates(base, ss, dist)[i] == Candidate(dist(base.Pos(), ss[n].Pos()), ss[n].name);
    }
  }

  /** On one station: its candidate, or nothing when it carries the base's name. */
  lemma CandidatesSingle(base: Station, s: Station, dist: Distance)
    ensures Candidates(base, [s], dist) == if s.name == base.name then [] else [Candidate(dist(base.Pos(), s.Pos()), s.name)]
  {
    assert [s][..0] == [];
  }

  /** Collecting candidates distributes over concatenation of the station list,
      so with `CandidatesSingle` the list is fixed, order and repeats included. */
  lemma {:induction false} CandidatesAppend(base: Station, a: seq<Station>, b: seq<Station>, dist: Distance)
    ensures Candidates(base, a + b, dist) == Candidates(base, a, dist) + Candidates(base, b, dist)
    decreases |b|
  {
    if b == [] {
      assert a + b == a;
    } else {
      var b' := b[..|b| - 1];
      assert (a + b)[..|a + b| - 1] == a + b';
      assert (a + b)[|a + b| - 1] == b[|b| - 1];
      CandidatesAppend(base, a, b', dist);
    }
  }

  /** The index of the first least candidate. */
  function MinIndex(p: seq<Candidate>): (m: nat)
    requires p != []
    ensures m < |p|
    ensures forall j :: 0 <= j < |p| ==> CandLe(p[m], p[j])
  {
    if |p| == 1 then
      CandLeTotalOrder();
      0
    else
      var n := |p| - 1;
      var m := MinIndex(p[..n]);
      assert forall j :: 0 <= j < n ==> p[..n][j] == p[j];
      CandLeTotalOrder();
      if CandLe(p[m], p[n]) then m else n
  }

  /** `p` with the candidate at index `m` taken out. */
  function Without(p: seq<Candidate>, m: nat): (q: seq<Candidate>)
    requires m < |p|
    ensures |q| == |p| - 1
    ensures forall j :: 0 <= j < |q| ==> q[j] == p[if j < m then j else j + 1]
  {
    p[..m] + p[m + 1..]
  }

  lemma WithoutMultiset(p: seq<Candidate>, m: nat)
    requires m < |p|
    ensures multiset(p) == multiset(Without(p, m)) + multiset{p[m]}
  {
    assert p == p[..m] + [p[m]] + p[m + 1..];
  }

  /** `sorted(p)[:2]`: the least candidate, then the least of the rest. */
  function TwoClosest(p: seq<Candidate>): (r: seq<Candidate>)
    ensures |r| == if |p| < 2 then |p| else 2
  {
    if p == [] then []
    else
      var m := MinIndex(p);
      var q := Without(p, m);
      if q == [] then [p[m]] else [p[m], q[MinIndex(q)]]
  }

  /** `sorted(p)[2:]`, up to order: the candidates `TwoClosest` leaves out. */
  function LeftOut(p: seq<Candidate>): seq<Candidate>
  {
    if p == [] then []
    else
      var q := Without(p, MinIndex(p));
      if q == [] then [] else Without(q, MinIndex(q))
  }

  /** What `sorted(p)[:2]` is: `p` is a permutation of the chosen candidates
      followed by the left-out ones, the chosen ones are in ascending order, and
      each of them is at most every left-out one. With a total order this fixes
      the result. */
  lemma {:induction false} TwoClosestIsSortedPrefix(p: seq<Candidate>)
    ensures multiset(p) == multiset(TwoClosest(p) + LeftOut(p))
    ensures |TwoClosest(p)| == 2 ==> CandLe(TwoClosest(p)[0], TwoClosest(p)[1])
    ensures forall i, j :: 0 <= i < |TwoClosest(p)| && 0 <= j < |LeftOut(p)| ==> CandLe(TwoClosest(p)[i], LeftOut(p)[j])
  {
    if |p| == 1 {
      TwoClosestOfOne(p);
    } else if |p| >= 2 {
      TwoClosestOfMany(p);
    }
  }

  /** With one candidate, it is chosen and nothing is left out. */
  lemma TwoClosestOfOne(p: seq<Candidate>)
    requires |p| == 1
    ensures TwoClosest(p) == p && LeftOut(p) == []
  {
    var m := MinIndex(p);
    assert Without(p, m) == [];
  }

  /** With two or more candidates, the two chosen ones are in order, precede
      every left-out one, and together with them make up `p`. */
  lemma TwoClosestOfMany(p: seq<Candidate>)
    requires |p| >= 2
    ensures multiset(p) == multiset(TwoClosest(p) + LeftOut(p))
    ensures CandLe(TwoClosest(p)[0], TwoClosest(p)[1])
    ensures forall i, j :: 0 <= i < 2 && 0 <= j < |LeftOut(p)| ==> CandLe(TwoClosest(p)[i], LeftOut(p)[j])
  {
    var m := MinIndex(p);
    var q := Without(p, m);
    var m2 := MinIndex(q);
    assert TwoClosest(p) == [p[m], q[m2]];
    assert LeftOut(p) == Without(q, m2);
    TwoLeast(p, m, m2);
  }

  /** Picking a least candidate, then a least of the rest, leaves candidates
      that are at least both picks. */
  lemma TwoLeast(p: seq<Candidate>, m: nat, m2: nat)
    requires m < |p| && forall k :: 0 <= k < |p| ==> CandLe(p[m], p[k])
    requires m2 < |Without(p, m)| && forall k :: 0 <= k < |Without(p, m)| ==> CandLe(Without(p, m)[m2], Without(p, m)[k])
    ensures var r, rest := [p[m], Without(p, m)[m2]], Without(Without(p, m), m2);
      && multiset(p) == multiset(r + rest)
      && CandLe(r[0], r[1])
      && forall i, j :: 0 <= i < 2 && 0 <= j < |rest| ==> CandLe(r[i], rest[j])
  {
    var q := Without(p, m);
    var x, y := p[m], q[m2];
    var rest := Without(q, m2);
    RemoveTwoMultiset(p, m, m2);
    assert CandLe(x, y) by {
      assert y == p[if m2 < m then m2 else m2 + 1];
    }
    forall j | 0 <= j < |rest| ensures CandLe(x, rest[j]) && CandLe(y, rest[j]) {
      LeastOfRest(p, m, m2, j);
    }
  }

  lemma RemoveTwoMultiset(p: seq<Candidate>, m: nat, m2: nat)
    requires m < |p| && m2 < |Without(p, m)|
    ensures multiset(p) == multiset([p[m], Without(p, m)[m2]] + Without(Without(p, m), m2))
  {
    var q := Without(p, m);
    WithoutMultiset(p, m);
    WithoutMultiset(q, m2);
    assert [p[m], q[m2]] + Without(q, m2) == [p[m]] + ([q[m2]] + Without(q, m2));
  }

  /** A candidate left out by both picks is at least each picked one. */
  lemma LeastOfRest(p: seq<Candidate>, m: nat, m2: nat, j: nat)
    requires m < |p| && forall k :: 0 <= k < |p| ==> CandLe(p[m], p[k])
    requires m2 < |Without(p, m)| && forall k :: 0 <= k < |Without(p, m)| ==> CandLe(Without(p, m)[m2], Without(p, m)[k])
    requires j < |Without(Without(p, m), m2)|
    ensures CandLe(p[m], Without(Without(p, m), m2)[j]) && CandLe(Without(p, m)[m2], Without(Without(p, m), m2)[j])
  {
    var q := Without(p, m);
    var rest := Without(q, m2);
    var j1 := if j < m2 then j else j + 1;
    var j2 := if j1 < m then j1 else j1 + 1;
    assert rest[j] == q[j1];
    assert q[j1] == p[j2];
    assert CandLe(q[m2], q[j1]);
    assert CandLe(p[m], p[j2]);
  }
}
