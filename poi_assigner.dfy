/** `OSM_preprocessor`: every point of interest is attached, through its id,
    to street nodes of a copy of the streets; then the copy is ranked by length. */
module PoiAssigner {
  import opened Wrappers
  import opened Seqs
  import opened OsmData
  import opened PoiAggregator
  import opened StreetRanker

  /** A node position: street index, then node index within the street. */
  datatype Pos = Pos(obj: nat, idx: nat)

  predicate ValidPos(ss: seq<Street>, p: Pos)
  {
    p.obj < |ss| && p.idx < |ss[p.obj].nodes|
  }

  function NodeAt(ss: seq<Street>, p: Pos): (r: Option<Node>)
    ensures r.Some? <==> ValidPos(ss, p)
  {
    if ValidPos(ss, p) then Some(ss[p.obj].nodes[p.idx]) else None
  }

  /** `ss` with the node at `p` replaced (no change at an invalid position). */
  function SetNode(ss: seq<Street>, p: Pos, n: Node): (r: seq<Street>)
    ensures |r| == |ss|
    ensures forall s :: 0 <= s < |ss| ==> |r[s].nodes| == |ss[s].nodes| && r[s].(nodes := ss[s].nodes) == ss[s]
    ensures forall q :: NodeAt(r, q) == if q == p && ValidPos(ss, p) then Some(n) else NodeAt(ss, q)
  {
    if ValidPos(ss, p) then ss[p.obj := ss[p.obj].(nodes := ss[p.obj].nodes[p.idx := n])] else ss
  }

  /** The list under `POIs_ID` of the node at `p`; `[]` only where no such node
      exists, which `Consistent` rules out for the positions that are read. */
  function PoisIdAt(ss: seq<Street>, p: Pos): seq<int>
  {
    match NodeAt(ss, p)
    case Some(n) => n.poisId.GetOr([])
    case None => []
  }

  /** The loop state: the copy, `id_list` together with `node_list` (each
      assigned node id with the position of the copy's node that `node_list`
      aliases), and `POI_id_list`. */
  datatype Assign = Assign(streets: seq<Street>, first: map<int, Pos>, poiIds: seq<int>)

  /** One visit of the scan of lines 465-505 or 507-536 at position `p`.
      `misspelt` selects the intersection branch, which writes a merged list
      under the misspelt key `POIs_iD` (line 536). */
  function VisitNode(st: Assign, p: Pos, ref: int, newId: int, misspelt: bool): (r: Assign)
    ensures !HasId(st.streets, p, ref) ==> r == st
    ensures r.first == st.first || (ref !in st.first && r.first == st.first[ref := p])
    ensures r.poiIds == st.poiIds || r.poiIds == st.poiIds + [newId]
  {
    match NodeAt(st.streets, p)
    case None => st
    case Some(n) =>
      if n.id != ref then st
      else if n.id !in st.first then
        Assign(SetNode(st.streets, p, n.(poisId := Some([newId]))), st.first[n.id := p], st.poiIds + [newId])
      else
        var existing := PoisIdAt(st.streets, st.first[n.id]);
        if newId !in st.poiIds then
          var merged := existing + [newId];
          var n' := if misspelt then n.(poisIdMisspelt := Some(merged)) else n.(poisId := Some(merged));
          Assign(SetNode(st.streets, p, n'), st.first, st.poiIds + [newId])
        else
          Assign(SetNode(st.streets, p, n.(poisId := Some(existing))), st.first, st.poiIds)
  }

  /** The positions of `ss`, street by street. */
  function Positions(ss: seq<Street>): (r: seq<Pos>)
    ensures forall k :: 0 <= k < |r| ==> ValidPos(ss, r[k])
  {
    if |ss| == 0 then []
    else Positions(ss[..|ss| - 1]) + Row(|ss| - 1, |ss[|ss| - 1].nodes|)
  }

  function Row(obj: nat, m: nat): (r: seq<Pos>)
    ensures |r| == m && forall k :: 0 <= k < m ==> r[k] == Pos(obj, k)
  {
    seq(m, k requires 0 <= k < m => Pos(obj, k))
  }

  /** The scan visits every position once. */
  lemma {:induction false} PositionsDistinct(ss: seq<Street>)
    ensures forall i, j :: 0 <= i < j < |Positions(ss)| ==> Positions(ss)[i] != Positions(ss)[j]
    ensures forall k :: 0 <= k < |Positions(ss)| ==> Positions(ss)[k].obj < |ss|
  {
    if |ss| > 0 {
      var init := ss[..|ss| - 1];
      PositionsDistinct(init);
    }
  }

  /** The ids of the nodes at the positions are the ids of `AllNodes`. */
  lemma {:induction false} PositionsNodes(ss: seq<Street>)
    ensures |Positions(ss)| == |AllNodes(ss)|
    ensures forall k :: 0 <= k < |Positions(ss)| ==> NodeAt(ss, Positions(ss)[k]) == Some(AllNodes(ss)[k])
  {
    if |ss| > 0 {
      var init := ss[..|ss| - 1];
      PositionsNodes(init);
      var ps := Positions(ss);
      forall k | 0 <= k < |ps| ensures NodeAt(ss, ps[k]) == Some(AllNodes(ss)[k]) {
        if k < |Positions(init)| {
          assert ps[k] == Positions(init)[k];
          assert ss[ps[k].obj] == init[ps[k].obj];
        }
      }
    }
  }

  /** Visits at consecutive positions, in order. */
  function Scan(st: Assign, ps: seq<Pos>, ref: int, newId: int, misspelt: bool): Assign
  {
    if |ps| == 0 then st
    else VisitNode(Scan(st, ps[..|ps| - 1], ref, newId, misspelt), ps[|ps| - 1], ref, newId, misspelt)
  }

  /** Equal up to the two POI id keys. */
  predicate SameButPois(a: Node, b: Node)
  {
    a.(poisId := b.poisId, poisIdMisspelt := b.poisIdMisspelt) == b
  }

  /** The copy differs from the streets only in the nodes' POI id keys. */
  ghost predicate SameShape(orig: seq<Street>, ss: seq<Street>)
  {
    && |ss| == |orig|
    && (forall s :: 0 <= s < |ss| ==> ss[s].(nodes := orig[s].nodes) == orig[s] && |ss[s].nodes| == |orig[s].nodes|)
    && (forall p :: ValidPos(orig, p) ==> SameButPois(NodeAt(ss, p).value, NodeAt(orig, p).value))
  }

  /** Every assigned id points at a copy node with that id and a `POIs_ID` list. */
  ghost predicate Consistent(orig: seq<Street>, st: Assign)
  {
    && SameShape(orig, st.streets)
    && forall id :: id in st.first ==>
         ValidPos(orig, st.first[id]) && NodeAt(st.streets, st.first[id]).value.id == id &&
         NodeAt(st.streets, st.first[id]).value.poisId.Some?
  }

  /** Replacing a node by one that differs only in its POI id keys keeps the shape. */
  lemma SetNodeSameShape(orig: seq<Street>, ss: seq<Street>, p: Pos, n: Node)
    requires SameShape(orig, ss) && ValidPos(orig, p) && SameButPois(n, NodeAt(orig, p).value)
    ensures SameShape(orig, SetNode(ss, p, n))
  {
    var r := SetNode(ss, p, n);
    forall q | ValidPos(orig, q) ensures SameButPois(NodeAt(r, q).value, NodeAt(orig, q).value) {
      if q != p {
        assert NodeAt(r, q) == NodeAt(ss, q);
      }
    }
  }

  lemma {:induction false} VisitConsistent(orig: seq<Street>, st: Assign, p: Pos, ref: int, newId: int, misspelt: bool)
    requires Consistent(orig, st)
    ensures Consistent(orig, VisitNode(st, p, ref, newId, misspelt))
  {
    var r := VisitNode(st, p, ref, newId, misspelt);
    if NodeAt(st.streets, p).Some? && NodeAt(st.streets, p).value.id == ref {
      var n := NodeAt(st.streets, p).value;
      assert ValidPos(orig, p);
      var n' := NodeAt(r.streets, p).value;
      assert r.streets == SetNode(st.streets, p, n');
      SetNodeSameShape(orig, st.streets, p, n');
      forall id | id in r.first
        ensures ValidPos(orig, r.first[id]) && NodeAt(r.streets, r.first[id]).value.id == id &&
                NodeAt(r.streets, r.first[id]).value.poisId.Some?
      {
        if id != n.id {
          assert r.first[id] == st.first[id];
          if r.first[id] == p {
            assert false;
          }
        }
      }
    }
  }

  lemma {:induction false} ScanConsistent(orig: seq<Street>, st: Assign, ps: seq<Pos>, ref: int, newId: int, misspelt: bool)
    requires Consistent(orig, st)
    ensures Consistent(orig, Scan(st, ps, ref, newId, misspelt))
  {
    if |ps| > 0 {
      ScanConsistent(orig, st, ps[..|ps| - 1], ref, newId, misspelt);
      VisitConsistent(orig, Scan(st, ps[..|ps| - 1], ref, newId, misspelt), ps[|ps| - 1], ref, newId, misspelt);
    }
  }

  predicate HasId(ss: seq<Street>, p: Pos, id: int)
  {
    NodeAt(ss, p).Some? && NodeAt(ss, p).value.id == id
  }

  /** The `POIs_ID` key of the node at `p`. */
  function PoisAt(ss: seq<Street>, p: Pos): Option<seq<int>>
  {
    match NodeAt(ss, p)
    case Some(n) => n.poisId
    case None => None
  }

  /** What a scan from `st0` for a node without any point of interest yet has
      done once it has visited `ps`. */
  ghost predicate FreshScanned(orig: seq<Street>, st0: Assign, r: Assign, ps: seq<Pos>, ref: int, newId: int)
  {
    && (forall k :: 0 <= k < |ps| && HasId(orig, ps[k], ref) ==> PoisAt(r.streets, ps[k]) == Some([newId]))
    && ((exists k :: 0 <= k < |ps| && HasId(orig, ps[k], ref)) ==>
          ref in r.first && PoisAt(r.streets, r.first[ref]) == Some([newId]) && r.poiIds == st0.poiIds + [newId])
    && ((forall k :: 0 <= k < |ps| ==> !HasId(orig, ps[k], ref)) ==> r == st0)
  }

  lemma {:induction false} VisitFresh(orig: seq<Street>, st0: Assign, mid: Assign, ps: seq<Pos>, p: Pos, ref: int, newId: int, misspelt: bool)
    requires ref !in st0.first
    requires Consistent(orig, mid) && FreshScanned(orig, st0, mid, ps, ref, newId)
    requires p !in ps && ValidPos(orig, p)
    ensures FreshScanned(orig, st0, VisitNode(mid, p, ref, newId, misspelt), ps + [p], ref, newId)
  {
    var n := NodeAt(mid.streets, p).value;
    assert SameButPois(n, NodeAt(orig, p).value);
    if n.id != ref {
      FreshOther(orig, st0, mid, ps, p, ref, newId);
    } else if ref !in mid.first {
      FreshFirst(orig, st0, mid, ps, p, ref, newId, misspelt);
    } else {
      FreshLater(orig, st0, mid, ps, p, ref, newId, misspelt);
    }
  }

  /** A visit at a node with another id changes nothing. */
  lemma FreshOther(orig: seq<Street>, st0: Assign, mid: Assign, ps: seq<Pos>, p: Pos, ref: int, newId: int)
    requires FreshScanned(orig, st0, mid, ps, ref, newId) && !HasId(orig, p, ref)
    ensures FreshScanned(orig, st0, mid, ps + [p], ref, newId)
  {
    var ps' := ps + [p];
    assert forall k :: 0 <= k < |ps| ==> ps'[k] == ps[k];
    assert ps'[|ps|] == p;
  }

  /** The first visit at a node with the id assigns `[newId]`. */
  lemma FreshFirst(orig: seq<Street>, st0: Assign, mid: Assign, ps: seq<Pos>, p: Pos, ref: int, newId: int, misspelt: bool)
    requires ref !in st0.first && ref !in mid.first
    requires SameShape(orig, mid.streets) && FreshScanned(orig, st0, mid, ps, ref, newId)
    requires p !in ps && ValidPos(orig, p) && HasId(mid.streets, p, ref)
    ensures FreshScanned(orig, st0, VisitNode(mid, p, ref, newId, misspelt), ps + [p], ref, newId)
  {
    var r := VisitNode(mid, p, ref, newId, misspelt);
    var ps' := ps + [p];
    assert forall k :: 0 <= k < |ps| ==> ps'[k] == ps[k] && ps[k] != p;
    assert ps'[|ps|] == p;
    assert forall k :: 0 <= k < |ps| ==> !HasId(orig, ps[k], ref);
    assert mid == st0;
    assert r.first[ref] == p;
  }

  /** A later visit at a node with the id copies the first copy's `[newId]`. */
  lemma FreshLater(orig: seq<Street>, st0: Assign, mid: Assign, ps: seq<Pos>, p: Pos, ref: int, newId: int, misspelt: bool)
    requires ref !in st0.first && ref in mid.first
    requires FreshScanned(orig, st0, mid, ps, ref, newId)
    requires p !in ps && ValidPos(mid.streets, p) && HasId(mid.streets, p, ref)
    ensures FreshScanned(orig, st0, VisitNode(mid, p, ref, newId, misspelt), ps + [p], ref, newId)
  {
    var r := VisitNode(mid, p, ref, newId, misspelt);
    var ps' := ps + [p];
    assert forall k :: 0 <= k < |ps| ==> ps'[k] == ps[k] && ps[k] != p;
    assert ps'[|ps|] == p;
    assert exists k :: 0 <= k < |ps| && HasId(orig, ps[k], ref);
    assert newId in mid.poiIds;
    assert r.first == mid.first && r.poiIds == mid.poiIds;
  }

  /** A prefix one longer is the prefix with one position appended. */
  lemma TakeSnoc(P: seq<Pos>, t: nat)
    requires 0 < t <= |P|
    ensures P[..t] == P[..t - 1] + [P[t - 1]]
  {
  }

  /** Scanning a prefix one longer is one visit more. */
  lemma ScanPrefix(st: Assign, P: seq<Pos>, t: nat, ref: int, newId: int, misspelt: bool)
    requires 0 < t <= |P|
    ensures P[..t] == P[..t - 1] + [P[t - 1]]
    ensures Scan(st, P[..t], ref, newId, misspelt) == VisitNode(Scan(st, P[..t - 1], ref, newId, misspelt), P[t - 1], ref, newId, misspelt)
  {
    TakeSnoc(P, t);
    ScanStep(st, P[..t - 1], P[t - 1], ref, newId, misspelt);
  }

  /** A node that held no point of interest yet: after the scan every copy of
      it (every position with its id) holds exactly `[newId]` under `POIs_ID`,
      and `newId` was appended to `POI_id_list` once. */
  lemma {:induction false} ScanFreshNode(orig: seq<Street>, st: Assign, P: seq<Pos>, t: nat, ref: int, newId: int, misspelt: bool)
    requires Consistent(orig, st) && ref !in st.first && t <= |P|
    requires forall i, j :: 0 <= i < j < |P| ==> P[i] != P[j]
    requires forall k :: 0 <= k < |P| ==> ValidPos(orig, P[k])
    ensures FreshScanned(orig, st, Scan(st, P[..t], ref, newId, misspelt), P[..t], ref, newId)
  {
    if t == 0 {
      assert P[..0] == [];
    } else {
      var init := P[..t - 1];
      var p := P[t - 1];
      ScanFreshNode(orig, st, P, t - 1, ref, newId, misspelt);
      ScanConsistent(orig, st, init, ref, newId, misspelt);
      assert p !in init by {
        forall k | 0 <= k < |init| ensures init[k] != p {
          assert init[k] == P[k];
        }
      }
      var mid := Scan(st, init, ref, newId, misspelt);
      VisitFresh(orig, st, mid, init, p, ref, newId, misspelt);
      ScanPrefix(st, P, t, ref, newId, misspelt);
    }
  }

  /** An error the source lets escape: `KeyError` for a point of interest
      without the key, or the unbound `sum` of `compute_street_length`. */
  datatype PreprocessError = MissingKey(key: string) | LengthFailed(e: LengthError)

  /** The distance from a node to the point of interest. */
  function NodeDistance(n: Node, lat: real, lon: real, dist: Dist): real
  {
    dist(n.lat, n.lon, lat, lon)
  }

  /** Lines 447-464: the index of the first node at the minimum distance. */
  function Nearest(ns: seq<Node>, lat: real, lon: real, dist: Dist): (k: nat)
    requires |ns| > 0
    ensures k < |ns|
    ensures forall j :: 0 <= j < |ns| ==> NodeDistance(ns[k], lat, lon, dist) <= NodeDistance(ns[j], lat, lon, dist)
    ensures forall j :: 0 <= j < k ==> NodeDistance(ns[j], lat, lon, dist) > NodeDistance(ns[k], lat, lon, dist)
  {
    if |ns| == 1 then 0
    else
      var prev := Nearest(ns[..|ns| - 1], lat, lon, dist);
      assert forall j :: 0 <= j < |ns| - 1 ==> ns[..|ns| - 1][j] == ns[j];
      if NodeDistance(ns[|ns| - 1], lat, lon, dist) < NodeDistance(ns[prev], lat, lon, dist) then |ns| - 1 else prev
  }

  /** A point of interest placed exactly on a node is at distance 0 from the
      chosen node. */
  lemma NearestOnNode(ns: seq<Node>, k: nat, dist: Dist)
    requires IsDistance(dist) && k < |ns|
    ensures NodeDistance(ns[Nearest(ns, ns[k].lat, ns[k].lon, dist)], ns[k].lat, ns[k].lon, dist) == 0.0
  {
    var m := Nearest(ns, ns[k].lat, ns[k].lon, dist);
    assert NodeDistance(ns[k], ns[k].lat, ns[k].lon, dist) == 0.0;
    assert NodeDistance(ns[m], ns[k].lat, ns[k].lon, dist) >= 0.0;
  }

  /** One point of interest: the branch of line 446 or that of line 507. */
  function PoiStep(orig: seq<Street>, st: Assign, p: Poi, amenity: Option<seq<AmenityRecord>>, dist: Dist): Result<Assign, PreprocessError>
  {
    var ns := AllNodes(orig);
    match PoiCat(p)
    case None => Err(MissingKey("cat"))
    case Some(cat) =>
      if |ns| == 0 then Ok(st)
      else if cat != Intersection && amenity.Some? then
        match (PoiLat(p), PoiLon(p))
        case (None, _) => Err(MissingKey("lat"))
        case (_, None) => Err(MissingKey("lon"))
        case (Some(lat), Some(lon)) =>
          var ref := ns[Nearest(ns, lat, lon, dist)].id;
          match PoiId(p)
          case None => Err(MissingKey("id"))
          case Some(id) => Ok(Scan(st, Positions(orig), ref, id, false))
      else
        match PoiId(p)
        case None => Err(MissingKey("id"))
        case Some(id) => Ok(Scan(st, Positions(orig), id, id, true))
  }

  /** Which key a point of interest must carry: `cat` always, `lat` and
      `lon` in the amenity branch, and `id` once a node is reached; the first
      one missing is the `KeyError` raised, and with no node at all nothing
      but `cat` is read. */
  lemma PoiStepOutcome(orig: seq<Street>, st: Assign, p: Poi, amenity: Option<seq<AmenityRecord>>, dist: Dist)
    ensures PoiCat(p).None? ==> PoiStep(orig, st, p, amenity, dist) == Err(MissingKey("cat"))
    ensures PoiCat(p).Some? && |AllNodes(orig)| == 0 ==> PoiStep(orig, st, p, amenity, dist) == Ok(st)
    ensures PoiStep(orig, st, p, amenity, dist).Ok? <==>
              PoiCat(p).Some? &&
              (|AllNodes(orig)| == 0 ||
               (PoiId(p).Some? && (AmenityBranch(p, amenity) ==> PoiLat(p).Some? && PoiLon(p).Some?)))
    ensures PoiStep(orig, st, p, amenity, dist).Err? && PoiCat(p).Some? ==>
              PoiStep(orig, st, p, amenity, dist).error ==
                MissingKey(if AmenityBranch(p, amenity) && PoiLat(p).None? then "lat"
                           else if AmenityBranch(p, amenity) && PoiLon(p).None? then "lon"
                           else "id")
  {
  }

  const Intersection := "intersection"

  /** The point of interest takes the amenity branch of line 446. */
  predicate AmenityBranch(p: Poi, amenity: Option<seq<AmenityRecord>>)
  {
    PoiCat(p).Some? && PoiCat(p).value != Intersection && amenity.Some?
  }

  /** The loop of lines 440-536 over the points of interest. */
  function AssignPois(orig: seq<Street>, pois: seq<Poi>, amenity: Option<seq<AmenityRecord>>, dist: Dist): Result<Assign, PreprocessError>
  {
    if |pois| == 0 then Ok(Assign(orig, map[], []))
    else
      match AssignPois(orig, pois[..|pois| - 1], amenity, dist)
      case Err(e) => Err(e)
      case Ok(st) => PoiStep(orig, st, pois[|pois| - 1], amenity, dist)
  }

  /** The copy only ever gains POI ids: street fields, node order and every
      other node key are those of the streets passed in, which stay unchanged. */
  lemma {:induction false} AssignPoisConsistent(orig: seq<Street>, pois: seq<Poi>, amenity: Option<seq<AmenityRecord>>, dist: Dist)
    requires AssignPois(orig, pois, amenity, dist).Ok?
    ensures Consistent(orig, AssignPois(orig, pois, amenity, dist).value)
  {
    if |pois| == 0 {
    } else {
      var init := pois[..|pois| - 1];
      AssignPoisConsistent(orig, init, amenity, dist);
      var st := AssignPois(orig, init, amenity, dist).value;
      forall ref, id, misspelt: bool ensures Consistent(orig, Scan(st, Positions(orig), ref, id, misspelt)) {
        ScanConsistent(orig, st, Positions(orig), ref, id, misspelt);
      }
    }
  }

  /** A list of POI ids without repetitions, all drawn from `ids`. */
  predicate ListWithin(l: Option<seq<int>>, ids: seq<int>)
  {
    l.Some? ==> NoDup(l.value) && forall x :: x in l.value ==> x in ids
  }

  /** Every POI id list of the copy, under either key, is free of repetitions
      and holds only ids of `POI_id_list`. */
  ghost predicate PoiListsSound(st: Assign)
  {
    forall q :: NodeAt(st.streets, q).Some? ==>
      ListWithin(NodeAt(st.streets, q).value.poisId, st.poiIds) &&
      ListWithin(NodeAt(st.streets, q).value.poisIdMisspelt, st.poiIds)
  }

  /** No node carries a POI id list under either key. */
  predicate NoPoiLists(ss: seq<Street>)
  {
    forall s, j :: 0 <= s < |ss| && 0 <= j < |ss[s].nodes| ==>
      ss[s].nodes[j].poisId.None? && ss[s].nodes[j].poisIdMisspelt.None?
  }

  /** Every POI id list of the streets is free of repetitions. */
  predicate NoDupPoiLists(ss: seq<Street>)
  {
    forall s, j :: 0 <= s < |ss| && 0 <= j < |ss[s].nodes| ==>
      (ss[s].nodes[j].poisId.Some? ==> NoDup(ss[s].nodes[j].poisId.value)) &&
      (ss[s].nodes[j].poisIdMisspelt.Some? ==> NoDup(ss[s].nodes[j].poisIdMisspelt.value))
  }

  /** A visit keeps the lists sound: a new list is `[newId]`, and a merged
      list appends an id that `POI_id_list` does not hold yet to a list drawn
      from `POI_id_list`. */
  lemma VisitSound(st: Assign, p: Pos, ref: int, newId: int, misspelt: bool)
    requires PoiListsSound(st)
    ensures PoiListsSound(VisitNode(st, p, ref, newId, misspelt))
  {
    var r := VisitNode(st, p, ref, newId, misspelt);
    if HasId(st.streets, p, ref) {
      var n := NodeAt(st.streets, p).value;
      var n' := NodeAt(r.streets, p).value;
      assert r.streets == SetNode(st.streets, p, n');
      if n.id in st.first && newId !in st.poiIds {
        var existing := PoisIdAt(st.streets, st.first[n.id]);
        assert ListWithin(Some(existing), st.poiIds);
        NoDupAppendFresh(existing, newId);
      }
      forall q | NodeAt(r.streets, q).Some?
        ensures ListWithin(NodeAt(r.streets, q).value.poisId, r.poiIds) &&
                ListWithin(NodeAt(r.streets, q).value.poisIdMisspelt, r.poiIds)
      {
        if q != p {
          assert NodeAt(r.streets, q) == NodeAt(st.streets, q);
        }
      }
    }
  }

  lemma {:induction false} ScanSound(st: Assign, ps: seq<Pos>, ref: int, newId: int, misspelt: bool)
    requires PoiListsSound(st)
    ensures PoiListsSound(Scan(st, ps, ref, newId, misspelt))
  {
    if |ps| > 0 {
      ScanSound(st, ps[..|ps| - 1], ref, newId, misspelt);
      VisitSound(Scan(st, ps[..|ps| - 1], ref, newId, misspelt), ps[|ps| - 1], ref, newId, misspelt);
    }
  }

  /** Starting from streets without POI id lists, no list ever holds an id
      twice, however many points of interest the loop attaches. */
  lemma {:induction false} AssignPoisSound(orig: seq<Street>, pois: seq<Poi>, amenity: Option<seq<AmenityRecord>>, dist: Dist)
    requires NoPoiLists(orig) && AssignPois(orig, pois, amenity, dist).Ok?
    ensures PoiListsSound(AssignPois(orig, pois, amenity, dist).value)
  {
    if |pois| == 0 {
      forall q | NodeAt(orig, q).Some?
        ensures NodeAt(orig, q).value.poisId.None? && NodeAt(orig, q).value.poisIdMisspelt.None?
      {
      }
    } else {
      var init := pois[..|pois| - 1];
      AssignPoisSound(orig, init, amenity, dist);
      var st := AssignPois(orig, init, amenity, dist).value;
      forall ref, id, misspelt: bool ensures PoiListsSound(Scan(st, Positions(orig), ref, id, misspelt)) {
        ScanSound(st, Positions(orig), ref, id, misspelt);
      }
    }
  }

  /** What a sound state says about its streets. */
  lemma SoundNoDup(st: Assign)
    requires PoiListsSound(st)
    ensures NoDupPoiLists(st.streets)
  {
    forall s, j | 0 <= s < |st.streets| && 0 <= j < |st.streets[s].nodes|
      ensures (st.streets[s].nodes[j].poisId.Some? ==> NoDup(st.streets[s].nodes[j].poisId.value)) &&
              (st.streets[s].nodes[j].poisIdMisspelt.Some? ==> NoDup(st.streets[s].nodes[j].poisIdMisspelt.value))
    {
      assert NodeAt(st.streets, Pos(s, j)).Some?;
    }
  }

  /** In the streets `OSM_preprocessor` returns, no node's POI id list holds
      an id twice, when the streets passed in carry no such lists. */
  lemma PreprocessNoDup(orig: seq<Street>, pois: seq<Poi>, amenity: Option<seq<AmenityRecord>>, dist: Dist)
    requires NoPoiLists(orig) && Preprocess(orig, pois, amenity, dist).Ok?
    ensures NoDupPoiLists(Preprocess(orig, pois, amenity, dist).value)
  {
    var st := AssignPois(orig, pois, amenity, dist).value;
    AssignPoisSound(orig, pois, amenity, dist);
    SoundNoDup(st);
    RankedIsPermutation(st.streets, dist);
    var out := Preprocess(orig, pois, amenity, dist).value;
    forall s | 0 <= s < |out| ensures out[s] in st.streets {
      assert out[s] in multiset(out);
    }
  }

  /** The value `OSM_preprocessor` returns. */
  function Preprocess(orig: seq<Street>, pois: seq<Poi>, amenity: Option<seq<AmenityRecord>>, dist: Dist): Result<seq<Street>, PreprocessError>
  {
    match AssignPois(orig, pois, amenity, dist)
    case Err(e) => Err(e)
    case Ok(st) =>
      match StreetLengths(st.streets, dist)
      case Err(e) => Err(LengthFailed(e))
      case Ok(ranked) => Ok(Unranked(SortDesc(ranked)))
  }

  lemma {:induction false} AssignPoisErrStays(orig: seq<Street>, pois: seq<Poi>, t: nat, amenity: Option<seq<AmenityRecord>>, dist: Dist)
    requires t <= |pois| && AssignPois(orig, pois[..t], amenity, dist).Err?
    ensures AssignPois(orig, pois, amenity, dist) == AssignPois(orig, pois[..t], amenity, dist)
    decreases |pois| - t
  {
    if t < |pois| {
      assert pois[..t + 1][..t] == pois[..t];
      AssignPoisErrStays(orig, pois, t + 1, amenity, dist);
    } else {
      assert pois[..t] == pois;
    }
  }

  /** Lines 447-464: the running minimum over the nodes of the streets, and the
      id of the copy's node where it was last lowered (`None` when there is no
      node at all). */
  method FindNearest(orig: seq<Street>, copy: seq<Street>, lat: real, lon: real, dist: Dist)
    returns (minimumDistance: Option<real>, referenceId: Option<int>)
    requires SameShape(orig, copy)
    ensures var ns := AllNodes(orig);
            && (referenceId.Some? <==> |ns| > 0) && (minimumDistance.Some? <==> |ns| > 0)
            && (|ns| > 0 ==>
                  referenceId == Some(ns[Nearest(ns, lat, lon, dist)].id) &&
                  minimumDistance == Some(NodeDistance(ns[Nearest(ns, lat, lon, dist)], lat, lon, dist)))
  {
    minimumDistance, referenceId := None, None;
    var obj := 0;
    while obj < |orig|
      invariant 0 <= obj <= |orig|
      invariant Found(AllNodes(orig[..obj]), lat, lon, dist, minimumDistance, referenceId)
    {
      assert orig[..obj + 1][..obj] == orig[..obj];
      assert AllNodes(orig[..obj + 1]) == AllNodes(orig[..obj]) + orig[obj].nodes;
      SameShapeIds(orig, copy, obj);
      minimumDistance, referenceId := NearestInStreet(AllNodes(orig[..obj]), orig[obj].nodes, copy[obj].nodes,
                                                      lat, lon, dist, minimumDistance, referenceId);
      obj := obj + 1;
    }
    assert orig[..obj] == orig;
  }

  ghost predicate Found(seen: seq<Node>, lat: real, lon: real, dist: Dist, minimumDistance: Option<real>, referenceId: Option<int>)
  {
    && (referenceId.Some? <==> |seen| > 0) && (minimumDistance.Some? <==> |seen| > 0)
    && (|seen| > 0 ==>
          referenceId == Some(seen[Nearest(seen, lat, lon, dist)].id) &&
          minimumDistance == Some(NodeDistance(seen[Nearest(seen, lat, lon, dist)], lat, lon, dist)))
  }

  /** One node more for the running minimum: it takes over when there was no
      minimum yet or it is strictly closer. */
  lemma FoundStep(seen: seq<Node>, x: Node, lat: real, lon: real, dist: Dist, m: Option<real>, ref: Option<int>)
    requires Found(seen, lat, lon, dist, m, ref)
    ensures var d := NodeDistance(x, lat, lon, dist);
            if m.None? || d < m.value then Found(seen + [x], lat, lon, dist, Some(d), Some(x.id))
            else Found(seen + [x], lat, lon, dist, m, ref)
  {
    assert (seen + [x])[..|seen|] == seen;
    assert (seen + [x])[|seen|] == x;
  }

  /** The copy's node at each position has the id of the original's. */
  lemma SameShapeIds(orig: seq<Street>, copy: seq<Street>, obj: nat)
    requires SameShape(orig, copy) && obj < |orig|
    ensures |copy[obj].nodes| == |orig[obj].nodes|
    ensures forall j :: 0 <= j < |orig[obj].nodes| ==> copy[obj].nodes[j].id == orig[obj].nodes[j].id
  {
    forall j | 0 <= j < |orig[obj].nodes| ensures copy[obj].nodes[j].id == orig[obj].nodes[j].id {
      assert SameButPois(NodeAt(copy, Pos(obj, j)).value, NodeAt(orig, Pos(obj, j)).value);
    }
  }

  /** The inner loop of lines 449-464 over one street; `copyNodes` are the
      copy's nodes of that street, whose ids the loop reads. */
  method NearestInStreet(ghost base: seq<Node>, nodes: seq<Node>, copyNodes: seq<Node>, lat: real, lon: real, dist: Dist,
                         minimum0: Option<real>, ref0: Option<int>)
    returns (minimumDistance: Option<real>, referenceId: Option<int>)
    requires |copyNodes| == |nodes| && forall j :: 0 <= j < |nodes| ==> copyNodes[j].id == nodes[j].id
    requires Found(base, lat, lon, dist, minimum0, ref0)
    ensures Found(base + nodes, lat, lon, dist, minimumDistance, referenceId)
  {
    minimumDistance, referenceId := minimum0, ref0;
    var j := 0;
    assert base + nodes[..0] == base;
    while j < |nodes|
      invariant 0 <= j <= |nodes|
      invariant Found(base + nodes[..j], lat, lon, dist, minimumDistance, referenceId)
    {
      var distance := NodeDistance(nodes[j], lat, lon, dist);
      assert base + nodes[..j + 1] == (base + nodes[..j]) + [nodes[j]];
      FoundStep(base + nodes[..j], nodes[j], lat, lon, dist, minimumDistance, referenceId);
      if minimumDistance.None? {
        minimumDistance := Some(distance);
        referenceId := Some(copyNodes[j].id);
      } else if distance < minimumDistance.value {
        minimumDistance := Some(distance);
        referenceId := Some(copyNodes[j].id);
      }
      j := j + 1;
    }
    assert nodes[..j] == nodes;
  }

  /** The body of the scans at one node: lines 471-505, or 511-536 when
      `misspelt`; the search of `node_list` for the node's id is the map lookup. */
  method VisitCopy(copy: seq<Street>, first: map<int, Pos>, poiIds: seq<int>, p: Pos, ref: int, newId: int, misspelt: bool)
    returns (copy': seq<Street>, first': map<int, Pos>, poiIds': seq<int>)
    requires ValidPos(copy, p)
    ensures Assign(copy', first', poiIds') == VisitNode(Assign(copy, first, poiIds), p, ref, newId, misspelt)
  {
    copy', first', poiIds' := copy, first, poiIds;
    var n := copy[p.obj].nodes[p.idx];
    if n.id == ref {
      if n.id !in first {
        copy' := SetNode(copy, p, n.(poisId := Some([newId])));
        first' := first[n.id := p];
        poiIds' := poiIds + [newId];
      } else {
        var existing := PoisIdAt(copy, first[n.id]);
        if newId !in poiIds {
          poiIds' := poiIds + [newId];
          var merged := existing + [newId];
          if misspelt {
            copy' := SetNode(copy, p, n.(poisIdMisspelt := Some(merged)));
          } else {
            copy' := SetNode(copy, p, n.(poisId := Some(merged)));
          }
        } else {
          copy' := SetNode(copy, p, n.(poisId := Some(existing)));
        }
      }
    }
  }

  /** The positions visited once the scan reaches node `node` of street `objs`. */
  lemma RowStep(before: seq<Pos>, objs: nat, node: nat)
    ensures before + Row(objs, node + 1) == (before + Row(objs, node)) + [Pos(objs, node)]
  {
  }

  lemma ScanStep(st: Assign, ps: seq<Pos>, p: Pos, ref: int, newId: int, misspelt: bool)
    ensures Scan(st, ps + [p], ref, newId, misspelt) == VisitNode(Scan(st, ps, ref, newId, misspelt), p, ref, newId, misspelt)
  {
    assert (ps + [p])[..|ps|] == ps;
  }

  /** The scans of lines 468-505 and 508-536 over the copy. */
  method ScanCopy(ghost orig: seq<Street>, st: Assign, ref: int, newId: int, misspelt: bool) returns (r: Assign)
    requires SameShape(orig, st.streets)
    ensures r == Scan(st, Positions(orig), ref, newId, misspelt)
  {
    r := st;
    var objs := 0;
    while objs < |r.streets|
      invariant 0 <= objs <= |r.streets| == |orig|
      invariant forall s :: 0 <= s < |r.streets| ==> |r.streets[s].nodes| == |orig[s].nodes|
      invariant r == Scan(st, Positions(orig[..objs]), ref, newId, misspelt)
    {
      assert orig[..objs + 1][..objs] == orig[..objs];
      r := ScanRow(orig, st, Positions(orig[..objs]), r, objs, ref, newId, misspelt);
      objs := objs + 1;
    }
    assert orig[..objs] == orig;
  }

  /** The inner loop over the nodes of street `objs`. */
  method ScanRow(ghost orig: seq<Street>, ghost st: Assign, ghost before: seq<Pos>, r0: Assign, objs: nat,
                 ref: int, newId: int, misspelt: bool) returns (r: Assign)
    requires |r0.streets| == |orig| && objs < |orig|
    requires forall s :: 0 <= s < |r0.streets| ==> |r0.streets[s].nodes| == |orig[s].nodes|
    requires r0 == Scan(st, before, ref, newId, misspelt)
    ensures |r.streets| == |orig| && forall s :: 0 <= s < |r.streets| ==> |r.streets[s].nodes| == |orig[s].nodes|
    ensures r == Scan(st, before + Row(objs, |orig[objs].nodes|), ref, newId, misspelt)
  {
    var copy, first, poiIds := r0.streets, r0.first, r0.poiIds;
    var node := 0;
    assert before + Row(objs, 0) == before;
    while node < |copy[objs].nodes|
      invariant |copy| == |orig| && forall s :: 0 <= s < |copy| ==> |copy[s].nodes| == |orig[s].nodes|
      invariant 0 <= node <= |copy[objs].nodes|
      invariant Assign(copy, first, poiIds) == Scan(st, before + Row(objs, node), ref, newId, misspelt)
    {
      RowStep(before, objs, node);
      ScanStep(st, before + Row(objs, node), Pos(objs, node), ref, newId, misspelt);
      copy, first, poiIds := VisitCopy(copy, first, poiIds, Pos(objs, node), ref, newId, misspelt);
      node := node + 1;
    }
    return Assign(copy, first, poiIds);
  }

  /** One iteration of the loop of lines 441-536: the point's branch and its scan. */
  method AssignOne(orig: seq<Street>, st: Assign, p: Poi, amenity: Option<seq<AmenityRecord>>, dist: Dist)
    returns (r: Result<Assign, PreprocessError>)
    requires Consistent(orig, st)
    ensures r == PoiStep(orig, st, p, amenity, dist)
  {
    var cat := PoiCat(p);
    if cat.None? {
      return Err(MissingKey("cat"));
    }
    if cat.value != Intersection && amenity.Some? {
      if |AllNodes(orig)| == 0 {
        return Ok(st);
      }
      // the first node reads the point's `lat` and `lon`
      if PoiLat(p).None? {
        return Err(MissingKey("lat"));
      }
      if PoiLon(p).None? {
        return Err(MissingKey("lon"));
      }
      var minimumDistance, referenceId := FindNearest(orig, st.streets, PoiLat(p).value, PoiLon(p).value, dist);
      // a node with the id `reference_id` holds is reached, and it reads the point's `id`
      if PoiId(p).None? {
        return Err(MissingKey("id"));
      }
      var next := ScanCopy(orig, st, referenceId.value, PoiId(p).value, false);
      return Ok(next);
    } else {
      if |AllNodes(orig)| == 0 {
        return Ok(st);
      }
      // the first node compares its id with the point's `id`
      if PoiId(p).None? {
        return Err(MissingKey("id"));
      }
      var next := ScanCopy(orig, st, PoiId(p).value, PoiId(p).value, true);
      return Ok(next);
    }
  }

  /** Lines 436-551. */
  method OsmPreprocessor(orig: seq<Street>, pois: seq<Poi>, amenity: Option<seq<AmenityRecord>>, dist: Dist)
    returns (r: Result<seq<Street>, PreprocessError>)
    ensures r == Preprocess(orig, pois, amenity, dist)
  {
    var outcome := AssignLoop(orig, pois, amenity, dist);
    if outcome.Err? {
      return Err(outcome.error);
    }
    var lengths := ComputeStreetLength(outcome.value.streets, dist);
    if lengths.Err? {
      return Err(LengthFailed(lengths.error));
    }
    var sorted := SortDesc(lengths.value);
    var out := StripLengths(sorted);
    return Ok(out);
  }

  /** The loop of lines 441-536 over the points of interest. */
  method AssignLoop(orig: seq<Street>, pois: seq<Poi>, amenity: Option<seq<AmenityRecord>>, dist: Dist)
    returns (r: Result<Assign, PreprocessError>)
    ensures r == AssignPois(orig, pois, amenity, dist)
  {
    var st := Assign(orig, map[], []);
    var i := 0;
    while i < |pois|
      invariant 0 <= i <= |pois|
      invariant AssignPois(orig, pois[..i], amenity, dist) == Ok(st)
    {
      var next := AssignNext(orig, pois, i, st, amenity, dist);
      if next.Err? {
        AssignPoisErrStays(orig, pois, i + 1, amenity, dist);
        return next;
      }
      st := next.value;
      i := i + 1;
    }
    assert pois[..i] == pois;
    return Ok(st);
  }

  /** The turn of the loop for `pois[i]`. */
  method AssignNext(orig: seq<Street>, pois: seq<Poi>, i: nat, st: Assign, amenity: Option<seq<AmenityRecord>>, dist: Dist)
    returns (next: Result<Assign, PreprocessError>)
    requires i < |pois| && AssignPois(orig, pois[..i], amenity, dist) == Ok(st)
    ensures next == AssignPois(orig, pois[..i + 1], amenity, dist)
  {
    AssignPoisConsistent(orig, pois[..i], amenity, dist);
    assert pois[..i + 1][..i] == pois[..i];
    next := AssignOne(orig, st, pois[i], amenity, dist);
  }

  /** Lines 548-550: the street of each pair, in the sorted order. */
  method StripLengths(sorted: seq<Ranked>) returns (out: seq<Street>)
    ensures out == Unranked(sorted)
  {
    out := [];
    var obj := 0;
    while obj < |sorted|
      invariant 0 <= obj <= |sorted|
      invariant out == Unranked(sorted[..obj])
    {
      assert sorted[..obj + 1] == sorted[..obj] + [sorted[obj]];
      out := out + [sorted[obj].street];
      obj := obj + 1;
    }
    assert sorted[..obj] == sorted;
  }
}
