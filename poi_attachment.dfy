/** What the scans of `OSM_preprocessor` leave in the copy's `POIs_ID` lists. */
module PoiAttachment {
  import opened Wrappers
  import opened OsmData
  import opened PoiAggregator
  import opened PoiAssigner

  /** The scans' visiting order: street by street, then node by node. */
  predicate Before(q: Pos, f: Pos)
  {
    q.obj < f.obj || (q.obj == f.obj && q.idx < f.idx)
  }

  /** The positions come in visiting order, and every node has one. */
  lemma {:induction false} PositionsOrdered(ss: seq<Street>)
    ensures forall i, j :: 0 <= i < j < |Positions(ss)| ==> Before(Positions(ss)[i], Positions(ss)[j])
    ensures forall q :: ValidPos(ss, q) ==> q in Positions(ss)
  {
    if |ss| > 0 {
      var init := ss[..|ss| - 1];
      PositionsOrdered(init);
      var ps := Positions(ss);
      var pi := Positions(init);
      var row := Row(|ss| - 1, |ss[|ss| - 1].nodes|);
      assert ps == pi + row;
      assert forall k :: 0 <= k < |pi| ==> pi[k].obj < |init|;
      forall q | ValidPos(ss, q) ensures q in ps {
        if q.obj < |init| {
          assert init[q.obj] == ss[q.obj];
          assert q in pi;
        } else {
          assert row[q.idx] == q;
        }
      }
    }
  }

  /** The key `POIs_iD` of the node at `p`. */
  function MisspeltAt(ss: seq<Street>, p: Pos): Option<seq<int>>
  {
    match NodeAt(ss, p)
    case Some(n) => n.poisIdMisspelt
    case None => None
  }

  /** Every assigned id points at its earliest copy in visiting order (the first
      scan that meets the id assigns it there). */
  ghost predicate Earliest(orig: seq<Street>, st: Assign)
  {
    forall id, q :: id in st.first && HasId(orig, q, id) ==> !Before(q, st.first[id])
  }

  /** The facts about the visiting order that the scan lemmas use. */
  ghost predicate InOrder(orig: seq<Street>, P: seq<Pos>)
  {
    && Sorted(P)
    && (forall q :: ValidPos(orig, q) ==> q in P)
    && (forall k :: 0 <= k < |P| ==> ValidPos(orig, P[k]))
  }

  ghost predicate Sorted(P: seq<Pos>)
  {
    forall i, j :: 0 <= i < j < |P| ==> Before(P[i], P[j])
  }

  /** What a scan from `st` has kept after visiting `P[..m]`: ids stay at
      their earliest copies, no id is lost, and the id `ref` is assigned once
      a node with it was visited. */
  ghost predicate EarlyScanned(orig: seq<Street>, st: Assign, r: Assign, P: seq<Pos>, m: nat, ref: int)
    requires m <= |P|
  {
    && Earliest(orig, r)
    && (forall id :: id in st.first ==> id in r.first)
    && (forall k :: 0 <= k < m && HasId(orig, P[k], ref) ==> ref in r.first)
  }

  lemma VisitEarliest(orig: seq<Street>, st: Assign, mid: Assign, P: seq<Pos>, j: nat, ref: int, newId: int, misspelt: bool)
    requires InOrder(orig, P) && j < |P|
    requires Consistent(orig, mid) && EarlyScanned(orig, st, mid, P, j, ref)
    ensures EarlyScanned(orig, st, VisitNode(mid, P[j], ref, newId, misspelt), P, j + 1, ref)
  {
    var p := P[j];
    var n := NodeAt(mid.streets, p).value;
    assert SameButPois(n, NodeAt(orig, p).value);
    var r := VisitNode(mid, p, ref, newId, misspelt);
    if n.id == ref && ref !in mid.first {
      assert r.first == mid.first[ref := p];
      forall q | HasId(orig, q, ref) ensures !Before(q, p) {
        var k :| 0 <= k < |P| && P[k] == q;
        if k > j {
          assert Before(P[j], P[k]);
        }
      }
    } else {
      assert r.first == mid.first;
    }
  }

  lemma {:induction false} ScanEarliest(orig: seq<Street>, st: Assign, P: seq<Pos>, m: nat, ref: int, newId: int, misspelt: bool)
    requires Consistent(orig, st) && Earliest(orig, st) && m <= |P|
    requires InOrder(orig, P)
    ensures EarlyScanned(orig, st, Scan(st, P[..m], ref, newId, misspelt), P, m, ref)
  {
    if m == 0 {
      assert P[..0] == [];
      assert Scan(st, P[..0], ref, newId, misspelt) == st;
    } else {
      ScanEarliest(orig, st, P, m - 1, ref, newId, misspelt);
      ScanEarliestStep(orig, st, P, m, ref, newId, misspelt);
    }
  }

  lemma ScanEarliestStep(orig: seq<Street>, st: Assign, P: seq<Pos>, m: nat, ref: int, newId: int, misspelt: bool)
    requires Consistent(orig, st) && InOrder(orig, P) && 0 < m <= |P|
    requires EarlyScanned(orig, st, Scan(st, P[..m - 1], ref, newId, misspelt), P, m - 1, ref)
    ensures EarlyScanned(orig, st, Scan(st, P[..m], ref, newId, misspelt), P, m, ref)
  {
    var mid := Scan(st, P[..m - 1], ref, newId, misspelt);
    ScanConsistent(orig, st, P[..m - 1], ref, newId, misspelt);
    VisitEarliest(orig, st, mid, P, m - 1, ref, newId, misspelt);
    ScanPrefix(st, P, m, ref, newId, misspelt);
  }

  lemma PositionsInOrder(orig: seq<Street>)
    ensures InOrder(orig, Positions(orig))
  {
    PositionsOrdered(orig);
  }

  /** Scanning keeps assigned ids at their earliest copy. */
  lemma {:induction false} AssignPoisEarliest(orig: seq<Street>, pois: seq<Poi>, amenity: Option<seq<AmenityRecord>>, dist: Dist)
    requires AssignPois(orig, pois, amenity, dist).Ok?
    ensures Earliest(orig, AssignPois(orig, pois, amenity, dist).value)
  {
    if |pois| > 0 {
      var init := pois[..|pois| - 1];
      AssignPoisEarliest(orig, init, amenity, dist);
      AssignPoisConsistent(orig, init, amenity, dist);
      var st := AssignPois(orig, init, amenity, dist).value;
      var P := Positions(orig);
      assert P[..|P|] == P;
      PositionsInOrder(orig);
      forall ref, id, misspelt: bool ensures Earliest(orig, Scan(st, P, ref, id, misspelt)) {
        ScanEarliest(orig, st, P, |P|, ref, id, misspelt);
      }
    }
  }

  /** The list every copy of an already assigned node ends with: the first
      copy's list, extended by `newId` unless the id is already known or the
      merge goes to the misspelt key. */
  function Extended(st: Assign, ref: int, newId: int, misspelt: bool): seq<int>
    requires ref in st.first
  {
    var l := PoisIdAt(st.streets, st.first[ref]);
    if newId !in st.poiIds && !misspelt then l + [newId] else l
  }

  /** What a scan from `st` for an already assigned node has done after
      visiting `ps`. */
  ghost predicate ExtScanned(orig: seq<Street>, st: Assign, r: Assign, ps: seq<Pos>, ref: int, newId: int, misspelt: bool)
    requires ref in st.first
  {
    var f := st.first[ref];
    var m := Extended(st, ref, newId, misspelt);
    && r.first == st.first
    && (f !in ps ==> r == st)
    && (f in ps ==>
          && r.poiIds == st.poiIds + (if newId in st.poiIds then [] else [newId])
          && PoisAt(r.streets, f) == Some(m)
          && (misspelt && newId !in st.poiIds ==> MisspeltAt(r.streets, f) == Some(PoisIdAt(st.streets, f) + [newId]))
          && (forall k :: 0 <= k < |ps| && HasId(orig, ps[k], ref) ==> PoisAt(r.streets, ps[k]) == Some(m)))
  }

  lemma VisitExtended(orig: seq<Street>, st: Assign, mid: Assign, P: seq<Pos>, m: nat, ref: int, newId: int, misspelt: bool)
    requires InOrder(orig, P) && m < |P|
    requires Consistent(orig, st) && Earliest(orig, st) && ref in st.first
    requires Consistent(orig, mid)
    requires ExtScanned(orig, st, mid, P[..m], ref, newId, misspelt)
    ensures ExtScanned(orig, st, VisitNode(mid, P[m], ref, newId, misspelt), P[..m + 1], ref, newId, misspelt)
  {
    var f := st.first[ref];
    var mf :| 0 <= mf < |P| && P[mf] == f;
    TakeSnoc(P, m + 1);
    if mf > m {
      VisitBeforeFirst(orig, st, mid, P, m, mf, ref, newId, misspelt);
    } else if mf == m {
      VisitFirst(orig, st, mid, P, m, ref, newId, misspelt);
    } else {
      VisitAfterFirst(orig, st, mid, P, m, mf, ref, newId, misspelt);
    }
  }

  /** Before the first copy no visited node has the id: nothing changes. */
  lemma VisitBeforeFirst(orig: seq<Street>, st: Assign, mid: Assign, P: seq<Pos>, m: nat, mf: nat, ref: int, newId: int, misspelt: bool)
    requires Sorted(P) && m < mf < |P| && ValidPos(orig, P[m])
    requires Earliest(orig, st) && ref in st.first && P[mf] == st.first[ref]
    requires Consistent(orig, mid)
    requires ExtScanned(orig, st, mid, P[..m], ref, newId, misspelt)
    ensures ExtScanned(orig, st, VisitNode(mid, P[m], ref, newId, misspelt), P[..m] + [P[m]], ref, newId, misspelt)
  {
    var f := st.first[ref];
    forall k | 0 <= k <= m ensures P[k] != f {
      assert Before(P[k], P[mf]);
    }
    assert f !in P[..m] + [P[m]];
    assert mid == st;
    var n := NodeAt(mid.streets, P[m]).value;
    assert SameButPois(n, NodeAt(orig, P[m]).value);
    assert Before(P[m], f);
    assert VisitNode(mid, P[m], ref, newId, misspelt) == mid;
  }

  /** At the first copy its own list is read and extended or kept. */
  lemma VisitFirst(orig: seq<Street>, st: Assign, mid: Assign, P: seq<Pos>, m: nat, ref: int, newId: int, misspelt: bool)
    requires Sorted(P) && m < |P|
    requires Consistent(orig, st) && Earliest(orig, st) && ref in st.first && P[m] == st.first[ref]
    requires Consistent(orig, mid)
    requires ExtScanned(orig, st, mid, P[..m], ref, newId, misspelt)
    ensures ExtScanned(orig, st, VisitNode(mid, P[m], ref, newId, misspelt), P[..m] + [P[m]], ref, newId, misspelt)
  {
    var f := st.first[ref];
    forall k | 0 <= k < m ensures P[k] != f && !HasId(orig, P[k], ref) {
      assert Before(P[k], P[m]);
    }
    assert f !in P[..m];
    assert mid == st;
    var ps' := P[..m] + [P[m]];
    assert forall k :: 0 <= k < m ==> ps'[k] == P[k];
  }

  /** After the first copy each copy takes the first copy's current list. */
  lemma VisitAfterFirst(orig: seq<Street>, st: Assign, mid: Assign, P: seq<Pos>, m: nat, mf: nat, ref: int, newId: int, misspelt: bool)
    requires Sorted(P) && mf < m < |P| && ValidPos(orig, P[m])
    requires ref in st.first && P[mf] == st.first[ref]
    requires Consistent(orig, mid)
    requires ExtScanned(orig, st, mid, P[..m], ref, newId, misspelt)
    ensures ExtScanned(orig, st, VisitNode(mid, P[m], ref, newId, misspelt), P[..m] + [P[m]], ref, newId, misspelt)
  {
    var f := st.first[ref];
    var M := Extended(st, ref, newId, misspelt);
    assert P[..m][mf] == f;
    assert f in P[..m];
    assert Before(P[mf], P[m]);
    var p := P[m];
    assert p != f;
    assert newId in mid.poiIds;
    assert PoisAt(mid.streets, f) == Some(M);
    var n := NodeAt(mid.streets, p).value;
    assert SameButPois(n, NodeAt(orig, p).value);
    var r := VisitNode(mid, p, ref, newId, misspelt);
    if n.id == ref {
      assert mid.first[ref] == f;
      assert PoisIdAt(mid.streets, f) == M;
      assert r == Assign(SetNode(mid.streets, p, n.(poisId := Some(M))), mid.first, mid.poiIds);
      assert PoisAt(r.streets, p) == Some(M);
    } else {
      assert !HasId(orig, p, ref);
      assert r == mid;
    }
    assert PoisAt(r.streets, f) == Some(M) && MisspeltAt(r.streets, f) == MisspeltAt(mid.streets, f);
    var ps' := P[..m] + [p];
    forall k | 0 <= k < |ps'| && HasId(orig, ps'[k], ref) ensures PoisAt(r.streets, ps'[k]) == Some(M) {
      if k < m {
        assert ps'[k] == P[..m][k] == P[k];
        assert Before(P[k], P[m]);
      }
    }
  }

  lemma {:induction false} ScanExtended(orig: seq<Street>, st: Assign, P: seq<Pos>, m: nat, ref: int, newId: int, misspelt: bool)
    requires Consistent(orig, st) && Earliest(orig, st) && ref in st.first && m <= |P|
    requires InOrder(orig, P)
    ensures ExtScanned(orig, st, Scan(st, P[..m], ref, newId, misspelt), P[..m], ref, newId, misspelt)
  {
    if m == 0 {
      assert P[..0] == [];
    } else {
      ScanExtended(orig, st, P, m - 1, ref, newId, misspelt);
      ScanConsistent(orig, st, P[..m - 1], ref, newId, misspelt);
      VisitExtended(orig, st, Scan(st, P[..m - 1], ref, newId, misspelt), P, m - 1, ref, newId, misspelt);
      ScanPrefix(st, P, m, ref, newId, misspelt);
    }
  }

  /** A whole scan for a node that holds no point yet. */
  lemma FullScanFresh(orig: seq<Street>, st: Assign, ref: int, newId: int, misspelt: bool)
    requires Consistent(orig, st) && ref !in st.first
    ensures var r := Scan(st, Positions(orig), ref, newId, misspelt);
            && ((exists q :: HasId(orig, q, ref)) ==>
                  r.poiIds == st.poiIds + [newId] &&
                  forall q :: HasId(orig, q, ref) ==> PoisAt(r.streets, q) == Some([newId]))
            && ((forall q :: !HasId(orig, q, ref)) ==> r == st)
  {
    var P := Positions(orig);
    PositionsDistinct(orig);
    PositionsInOrder(orig);
    ScanFreshNode(orig, st, P, |P|, ref, newId, misspelt);
    assert P[..|P|] == P;
    if exists q :: HasId(orig, q, ref) {
      var q :| HasId(orig, q, ref);
      assert q in P;
    }
  }

  /** A whole scan for a node that already holds points. */
  lemma FullScanExtended(orig: seq<Street>, st: Assign, ref: int, newId: int, misspelt: bool)
    requires Consistent(orig, st) && Earliest(orig, st) && ref in st.first
    ensures var r := Scan(st, Positions(orig), ref, newId, misspelt);
            var f := st.first[ref];
            && r.poiIds == st.poiIds + (if newId in st.poiIds then [] else [newId])
            && (forall q :: HasId(orig, q, ref) ==> PoisAt(r.streets, q) == Some(Extended(st, ref, newId, misspelt)))
            && (misspelt && newId !in st.poiIds ==> MisspeltAt(r.streets, f) == Some(PoisIdAt(st.streets, f) + [newId]))
  {
    var P := Positions(orig);
    PositionsInOrder(orig);
    ScanExtended(orig, st, P, |P|, ref, newId, misspelt);
    assert P[..|P|] == P;
    assert st.first[ref] in P;
  }

  /** An amenity (a point whose `cat` is not `"intersection"`, with amenity
      data present) is attached to every copy of its nearest node. If that
      node held no point yet, each copy's `POIs_ID` becomes `[id]`; otherwise
      each copy gets the first copy's list, extended by the id unless the id
      was already in `POI_id_list`. The id is appended to `POI_id_list` at
      most once. */
  lemma AmenityPoiAttached(orig: seq<Street>, pois: seq<Poi>, p: Poi, amenity: Option<seq<AmenityRecord>>, dist: Dist)
    requires AssignPois(orig, pois, amenity, dist).Ok?
    requires PoiCat(p).Some? && PoiCat(p).value != Intersection && amenity.Some?
    requires |AllNodes(orig)| > 0 && PoiLat(p).Some? && PoiLon(p).Some? && PoiId(p).Some?
    ensures AssignPois(orig, pois + [p], amenity, dist).Ok?
    ensures var st := AssignPois(orig, pois, amenity, dist).value;
            var ns := AllNodes(orig);
            var ref := ns[Nearest(ns, PoiLat(p).value, PoiLon(p).value, dist)].id;
            var id := PoiId(p).value;
            var r := AssignPois(orig, pois + [p], amenity, dist).value;
            && (ref !in st.first ==>
                  r.poiIds == st.poiIds + [id] &&
                  forall q :: HasId(orig, q, ref) ==> PoisAt(r.streets, q) == Some([id]))
            && (ref in st.first ==>
                  r.poiIds == st.poiIds + (if id in st.poiIds then [] else [id]) &&
                  forall q :: HasId(orig, q, ref) ==> PoisAt(r.streets, q) == Some(Extended(st, ref, id, false)))
  {
    assert (pois + [p])[..|pois|] == pois;
    var st := AssignPois(orig, pois, amenity, dist).value;
    AssignPoisConsistent(orig, pois, amenity, dist);
    AssignPoisEarliest(orig, pois, amenity, dist);
    var ns := AllNodes(orig);
    var k0 := Nearest(ns, PoiLat(p).value, PoiLon(p).value, dist);
    var ref := ns[k0].id;
    var id := PoiId(p).value;
    PositionsNodes(orig);
    assert HasId(orig, Positions(orig)[k0], ref);
    assert AssignPois(orig, pois + [p], amenity, dist) == Ok(Scan(st, Positions(orig), ref, id, false));
    if ref !in st.first {
      FullScanFresh(orig, st, ref, id, false);
    } else {
      FullScanExtended(orig, st, ref, id, false);
    }
  }

  /** An intersection point (or any point when amenity data is absent) is
      attached to the nodes with its own id. A node without a point yet gets
      `[id]` under `POIs_ID` in every copy. An already assigned node keeps the
      first copy's list in every copy, and a new id lands only in the first
      copy's misspelt key `POIs_iD` (line 536). */
  lemma IntersectionPoiAttached(orig: seq<Street>, pois: seq<Poi>, p: Poi, amenity: Option<seq<AmenityRecord>>, dist: Dist)
    requires AssignPois(orig, pois, amenity, dist).Ok?
    requires PoiCat(p).Some? && (PoiCat(p).value == Intersection || amenity.None?)
    requires |AllNodes(orig)| > 0 && PoiId(p).Some?
    ensures AssignPois(orig, pois + [p], amenity, dist).Ok?
    ensures var st := AssignPois(orig, pois, amenity, dist).value;
            var id := PoiId(p).value;
            var r := AssignPois(orig, pois + [p], amenity, dist).value;
            && (id !in st.first && (exists q :: HasId(orig, q, id)) ==>
                  r.poiIds == st.poiIds + [id] &&
                  forall q :: HasId(orig, q, id) ==> PoisAt(r.streets, q) == Some([id]))
            && (id !in st.first && (forall q :: !HasId(orig, q, id)) ==> r == st)
            && (id in st.first ==>
                  (forall q :: HasId(orig, q, id) ==> PoisAt(r.streets, q) == Some(PoisIdAt(st.streets, st.first[id]))) &&
                  (id !in st.poiIds ==>
                     r.poiIds == st.poiIds + [id] &&
                     MisspeltAt(r.streets, st.first[id]) == Some(PoisIdAt(st.streets, st.first[id]) + [id])))
  {
    assert (pois + [p])[..|pois|] == pois;
    var st := AssignPois(orig, pois, amenity, dist).value;
    AssignPoisConsistent(orig, pois, amenity, dist);
    AssignPoisEarliest(orig, pois, amenity, dist);
    var id := PoiId(p).value;
    assert AssignPois(orig, pois + [p], amenity, dist) == Ok(Scan(st, Positions(orig), id, id, true));
    if id !in st.first {
      FullScanFresh(orig, st, id, id, true);
    } else {
      FullScanExtended(orig, st, id, id, true);
    }
  }
}
