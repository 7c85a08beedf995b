/** `compute_street_length` and the descending sort of `OSM_preprocessor`. */
module StreetRanker {
  import opened Wrappers
  import opened OsmData

  /** A street with the `distance` key that `compute_street_length` adds. */
  datatype Ranked = Ranked(street: Street, distance: real)

  /** The distance in metres along consecutive node pairs: an open path, so a
      street with at most one node has length 0. */
  function PathLength(ns: seq<Node>, dist: Dist): (r: real)
    ensures |ns| <= 1 ==> r == 0.0
    ensures |ns| == 2 ==> r == dist(ns[0].lat, ns[0].lon, ns[1].lat, ns[1].lon) * 1000.0
  {
    if |ns| <= 1 then 0.0
    else
      var a, b := ns[|ns| - 2], ns[|ns| - 1];
      PathLength(ns[..|ns| - 1], dist) + dist(a.lat, a.lon, b.lat, b.lon) * 1000.0
  }

  /** Cutting a path at one of its nodes splits its length into the lengths
      of the two pieces, which share that node. */
  lemma {:induction false} PathLengthSplit(ns: seq<Node>, k: nat, dist: Dist)
    requires k < |ns|
    ensures PathLength(ns, dist) == PathLength(ns[..k + 1], dist) + PathLength(ns[k..], dist)
  {
    if k == |ns| - 1 {
      assert ns[..k + 1] == ns;
    } else {
      var init, tail := ns[..|ns| - 1], ns[k..];
      var a, b := ns[|ns| - 2], ns[|ns| - 1];
      var last := dist(a.lat, a.lon, b.lat, b.lon) * 1000.0;
      assert PathLength(ns, dist) == PathLength(init, dist) + last;
      PathLengthSplit(init, k, dist);
      assert init[..k + 1] == ns[..k + 1];
      assert tail[..|tail| - 1] == init[k..];
      assert tail[|tail| - 2] == a && tail[|tail| - 1] == b;
      assert PathLength(tail, dist) == PathLength(init[k..], dist) + last;
    }
  }

  /** With a distance that is never negative, neither is a path length. */
  lemma {:induction false} PathLengthNonNegative(ns: seq<Node>, dist: Dist)
    requires IsDistance(dist)
    ensures PathLength(ns, dist) >= 0.0
  {
    if |ns| > 1 {
      PathLengthNonNegative(ns[..|ns| - 1], dist);
      var a, b := ns[|ns| - 2], ns[|ns| - 1];
      assert dist(a.lat, a.lon, b.lat, b.lon) >= 0.0;
    }
  }

  /** A path whose nodes all sit on one point has length 0. */
  lemma {:induction false} PathLengthOfOnePoint(ns: seq<Node>, dist: Dist, lat: real, lon: real)
    requires IsDistance(dist)
    requires forall k :: 0 <= k < |ns| ==> ns[k].lat == lat && ns[k].lon == lon
    ensures PathLength(ns, dist) == 0.0
  {
    if |ns| > 1 {
      PathLengthOfOnePoint(ns[..|ns| - 1], dist, lat, lon);
    }
  }

  /** The value of the function-wide variable `sum` after the loop has visited
      `ss`: a street without nodes leaves it as it was, and before the first
      street with nodes it is unbound. */
  function LastSum(ss: seq<Street>, dist: Dist): (r: Option<real>)
    ensures r.None? <==> forall s :: 0 <= s < |ss| ==> |ss[s].nodes| == 0
  {
    if |ss| == 0 then None
    else if |ss[|ss| - 1].nodes| > 0 then Some(PathLength(ss[|ss| - 1].nodes, dist))
    else
      var r := LastSum(ss[..|ss| - 1], dist);
      assert forall s :: 0 <= s < |ss| - 1 ==> ss[..|ss| - 1][s] == ss[s];
      r
  }

  /** Reading `sum` while it is unbound raises `UnboundLocalError`. */
  datatype LengthError = SumUnbound

  /** The streets with their `distance`, as `compute_street_length` leaves them. */
  function StreetLengths(ss: seq<Street>, dist: Dist): (r: Result<seq<Ranked>, LengthError>)
    ensures r.Ok? ==> |r.value| == |ss| && forall k :: 0 <= k < |ss| ==> r.value[k].street == ss[k]
  {
    if |ss| == 0 then Ok([])
    else
      match StreetLengths(ss[..|ss| - 1], dist)
      case Err(e) => Err(e)
      case Ok(prev) =>
        match LastSum(ss, dist)
        case None => Err(SumUnbound)
        case Some(d) => Ok(prev + [Ranked(ss[|ss| - 1], d)])
  }

  /** The loop fails exactly when the first street has no nodes; otherwise a
      street with nodes gets its own path length. */
  lemma {:induction false} StreetLengthsOutcome(ss: seq<Street>, dist: Dist)
    ensures StreetLengths(ss, dist).Err? <==> |ss| > 0 && |ss[0].nodes| == 0
    ensures StreetLengths(ss, dist).Ok? ==>
              forall k :: 0 <= k < |ss| && |ss[k].nodes| > 0 ==>
                StreetLengths(ss, dist).value[k].distance == PathLength(ss[k].nodes, dist)
  {
    if |ss| > 0 {
      var init := ss[..|ss| - 1];
      StreetLengthsOutcome(init, dist);
      assert |init| > 0 ==> init[0] == ss[0];
      if StreetLengths(ss, dist).Ok? {
        var r := StreetLengths(ss, dist).value;
        forall k | 0 <= k < |init| && |ss[k].nodes| > 0
          ensures r[k].distance == PathLength(ss[k].nodes, dist)
        {
          assert init[k] == ss[k];
          assert r[k] == StreetLengths(init, dist).value[k];
        }
      }
    }
  }

  /** A street without nodes after the first gets the distance of the street before it. */
  lemma {:induction false} EmptyStreetInheritsSum(ss: seq<Street>, dist: Dist, k: nat)
    requires 0 < k < |ss| && |ss[k].nodes| == 0 && StreetLengths(ss, dist).Ok?
    ensures StreetLengths(ss, dist).value[k].distance == StreetLengths(ss, dist).value[k - 1].distance
  {
    var init := ss[..|ss| - 1];
    if k < |ss| - 1 {
      assert init[k] == ss[k];
      EmptyStreetInheritsSum(init, dist, k);
    } else {
      assert ss[..k + 1] == ss;
      assert ss[..k][..k - 1 + 1] == ss[..k];
      PrevSumIsLast(init, dist);
    }
  }

  /** The `distance` recorded for the last street is the current `sum`. */
  lemma {:induction false} PrevSumIsLast(ss: seq<Street>, dist: Dist)
    requires |ss| > 0 && StreetLengths(ss, dist).Ok?
    ensures Some(StreetLengths(ss, dist).value[|ss| - 1].distance) == LastSum(ss, dist)
  {
  }

  /** Lines 554-576. */
  method ComputeStreetLength(ss: seq<Street>, dist: Dist) returns (r: Result<seq<Ranked>, LengthError>)
    ensures r == StreetLengths(ss, dist)
  {
    var out: seq<Ranked> := [];
    var sum: Option<real> := None;
    var obj := 0;
    while obj < |ss|
      invariant 0 <= obj <= |ss|
      invariant StreetLengths(ss[..obj], dist) == Ok(out)
      invariant sum == LastSum(ss[..obj], dist)
    {
      var nodes := ss[obj].nodes;
      assert ss[..obj + 1][..obj] == ss[..obj];
      if |nodes| > 0 {
        var total := SumPath(nodes, dist);
        sum := Some(total);
      }
      if sum.None? {
        StreetLengthsErrStays(ss, obj + 1, dist);
        assert ss[..|ss|] == ss;
        return Err(SumUnbound);
      }
      out := out + [Ranked(ss[obj], sum.value)];
      obj := obj + 1;
    }
    assert ss[..obj] == ss;
    return Ok(out);
  }

  /** The inner loop of lines 559-574, run once for node index 0. */
  method SumPath(nodes: seq<Node>, dist: Dist) returns (total: real)
    requires |nodes| > 0
    ensures total == PathLength(nodes, dist)
  {
    var i := 0;
    total := 0.0;
    var j := i + 1;
    while j < |nodes|
      invariant 1 <= j <= |nodes| && i == j - 1
      invariant total == PathLength(nodes[..j], dist)
    {
      assert nodes[..j + 1][..j] == nodes[..j];
      total := total + dist(nodes[i].lat, nodes[i].lon, nodes[j].lat, nodes[j].lon) * 1000.0;
      i := i + 1;
      j := j + 1;
    }
    assert nodes[..j] == nodes;
  }

  lemma {:induction false} StreetLengthsErrStays(ss: seq<Street>, t: nat, dist: Dist)
    requires t <= |ss| && StreetLengths(ss[..t], dist).Err?
    ensures StreetLengths(ss, dist) == StreetLengths(ss[..t], dist)
    decreases |ss| - t
  {
    if t < |ss| {
      assert ss[..t + 1][..t] == ss[..t];
      StreetLengthsErrStays(ss, t + 1, dist);
    } else {
      assert ss[..t] == ss;
    }
  }

  /** Non-increasing in `distance`. */
  predicate Descending(s: seq<Ranked>)
  {
    forall i, j :: 0 <= i < j < |s| ==> s[i].distance >= s[j].distance
  }

  /** Inserts `x` after every element at least as long: later input elements
      of equal length stay behind earlier ones. */
  function InsertDesc(x: Ranked, s: seq<Ranked>): (r: seq<Ranked>)
    ensures multiset(r) == multiset(s) + multiset{x}
  {
    if |s| == 0 then [x]
    else if s[0].distance >= x.distance then
      assert s == [s[0]] + s[1..];
      [s[0]] + InsertDesc(x, s[1..])
    else [x] + s
  }

  lemma {:induction false} InsertDescBounded(x: Ranked, s: seq<Ranked>, bound: real)
    requires forall k :: 0 <= k < |s| ==> s[k].distance <= bound
    requires x.distance <= bound
    ensures forall k :: 0 <= k < |InsertDesc(x, s)| ==> InsertDesc(x, s)[k].distance <= bound
  {
    if |s| > 0 && s[0].distance >= x.distance {
      InsertDescBounded(x, s[1..], bound);
    }
  }

  lemma DescendingCons(h: Ranked, t: seq<Ranked>)
    requires Descending(t)
    requires forall k :: 0 <= k < |t| ==> t[k].distance <= h.distance
    ensures Descending([h] + t)
  {
    var r := [h] + t;
    forall i, j | 0 <= i < j < |r| ensures r[i].distance >= r[j].distance {
      assert r[j] == t[j - 1];
      if i > 0 {
        assert r[i] == t[i - 1];
      }
    }
  }

  lemma {:induction false} InsertDescDescending(x: Ranked, s: seq<Ranked>)
    requires Descending(s)
    ensures Descending(InsertDesc(x, s))
  {
    if |s| == 0 {
    } else if s[0].distance >= x.distance {
      assert Descending(s[1..]);
      InsertDescDescending(x, s[1..]);
      InsertDescBounded(x, s[1..], s[0].distance);
      DescendingCons(s[0], InsertDesc(x, s[1..]));
    } else {
      DescendingCons(x, s);
    }
  }

  /** `sorted(..., key=distance, reverse=True)`, which is stable. */
  function SortDesc(s: seq<Ranked>): (r: seq<Ranked>)
    ensures Descending(r)
    ensures multiset(r) == multiset(s)
  {
    if |s| == 0 then []
    else
      assert s == s[..|s| - 1] + [s[|s| - 1]];
      var prev := SortDesc(s[..|s| - 1]);
      InsertDescDescending(s[|s| - 1], prev);
      InsertDesc(s[|s| - 1], prev)
  }

  /** The elements of the given length, in order. */
  function WithDistance(s: seq<Ranked>, d: real): seq<Ranked>
  {
    if |s| == 0 then []
    else WithDistance(s[..|s| - 1], d) + (if s[|s| - 1].distance == d then [s[|s| - 1]] else [])
  }

  lemma {:induction false} WithDistanceFront(x: Ranked, s: seq<Ranked>, d: real)
    ensures WithDistance([x] + s, d) == (if x.distance == d then [x] else []) + WithDistance(s, d)
    decreases |s|
  {
    if |s| > 0 {
      assert ([x] + s)[..|s|] == [x] + s[..|s| - 1];
      WithDistanceFront(x, s[..|s| - 1], d);
    } else {
      assert ([x] + s)[..0] == [];
    }
  }

  lemma {:induction false} WithDistanceNone(s: seq<Ranked>, d: real)
    requires forall k :: 0 <= k < |s| ==> s[k].distance < d
    ensures WithDistance(s, d) == []
  {
    if |s| > 0 {
      WithDistanceNone(s[..|s| - 1], d);
    }
  }

  lemma {:induction false} InsertDescWithDistance(x: Ranked, s: seq<Ranked>, d: real)
    requires Descending(s)
    ensures WithDistance(InsertDesc(x, s), d) ==
            WithDistance(s, d) + (if x.distance == d then [x] else [])
  {
    if |s| == 0 {
      assert [x][..0] == [];
    } else if s[0].distance >= x.distance {
      var t := s[1..];
      assert s == [s[0]] + t;
      assert Descending(t);
      assert InsertDesc(x, s) == [s[0]] + InsertDesc(x, t);
      InsertDescWithDistance(x, t, d);
      WithDistanceFront(s[0], InsertDesc(x, t), d);
      WithDistanceFront(s[0], t, d);
    } else {
      assert InsertDesc(x, s) == [x] + s;
      WithDistanceFront(x, s, d);
      if x.distance == d {
        assert forall k :: 0 <= k < |s| ==> s[k].distance <= s[0].distance;
        WithDistanceNone(s, d);
      }
    }
  }

  /** Stability: streets of equal length keep their input order. */
  lemma {:induction false} SortDescStable(s: seq<Ranked>, d: real)
    ensures WithDistance(SortDesc(s), d) == WithDistance(s, d)
  {
    if |s| > 0 {
      SortDescStable(s[..|s| - 1], d);
      InsertDescWithDistance(s[|s| - 1], SortDesc(s[..|s| - 1]), d);
    }
  }

  /** The loop of lines 549-550 that pops `distance`. */
  function Unranked(s: seq<Ranked>): (r: seq<Street>)
    ensures |r| == |s| && forall k :: 0 <= k < |s| ==> r[k] == s[k].street
  {
    seq(|s|, k requires 0 <= k < |s| => s[k].street)
  }

  lemma {:induction false} UnrankedMultiset(a: seq<Ranked>, b: seq<Ranked>)
    requires multiset(a) == multiset(b)
    ensures multiset(Unranked(a)) == multiset(Unranked(b))
    decreases |a|
  {
    if |a| > 0 {
      var x := a[|a| - 1];
      assert x in multiset(b);
      var k :| 0 <= k < |b| && b[k] == x;
      var b' := b[..k] + b[k + 1..];
      RemoveOne(a, b, k);
      UnrankedMultiset(a[..|a| - 1], b');
      UnrankedSplit(a, b, k);
    }
  }

  lemma RemoveOne(a: seq<Ranked>, b: seq<Ranked>, k: nat)
    requires |a| > 0 && k < |b| && b[k] == a[|a| - 1] && multiset(a) == multiset(b)
    ensures multiset(a[..|a| - 1]) == multiset(b[..k] + b[k + 1..])
  {
    var x := b[k];
    assert b == b[..k] + [x] + b[k + 1..];
    assert a == a[..|a| - 1] + [x];
    var m1, m2 := multiset(a[..|a| - 1]), multiset(b[..k] + b[k + 1..]);
    assert m1 + multiset{x} == m2 + multiset{x};
    assert m1 == (m1 + multiset{x}) - multiset{x};
    assert m2 == (m2 + multiset{x}) - multiset{x};
  }

  lemma UnrankedSplit(a: seq<Ranked>, b: seq<Ranked>, k: nat)
    requires |a| > 0 && k < |b| && b[k] == a[|a| - 1]
    requires multiset(Unranked(a[..|a| - 1])) == multiset(Unranked(b[..k] + b[k + 1..]))
    ensures multiset(Unranked(a)) == multiset(Unranked(b))
  {
    var x := b[k];
    assert Unranked(a) == Unranked(a[..|a| - 1]) + [x.street];
    assert Unranked(b) == Unranked(b[..k]) + [x.street] + Unranked(b[k + 1..]);
    assert Unranked(b[..k] + b[k + 1..]) == Unranked(b[..k]) + Unranked(b[k + 1..]);
  }

  /** The sorted streets, without their `distance`, are a permutation of the streets. */
  lemma RankedIsPermutation(ss: seq<Street>, dist: Dist)
    requires StreetLengths(ss, dist).Ok?
    ensures multiset(Unranked(SortDesc(StreetLengths(ss, dist).value))) == multiset(ss)
  {
    var r := StreetLengths(ss, dist).value;
    UnrankedMultiset(SortDesc(r), r);
    assert Unranked(r) == ss;
  }
}
