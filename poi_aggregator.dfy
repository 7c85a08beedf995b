/** `enlist_POIs`: the points of interest are the marked street nodes (each
    node id once) followed by the amenity records. */
module PoiAggregator {
  import opened Wrappers
  import opened Seqs
  import opened OsmData

  /** All nodes of all streets, street by street. */
  function AllNodes(streets: seq<Street>): seq<Node>
  {
    if |streets| == 0 then []
    else AllNodes(streets[..|streets| - 1]) + streets[|streets| - 1].nodes
  }

  /** `AllNodes` holds exactly the nodes of the streets. */
  lemma {:induction false} AllNodesMembers(streets: seq<Street>)
    ensures forall s, k :: 0 <= s < |streets| && 0 <= k < |streets[s].nodes| ==> streets[s].nodes[k] in AllNodes(streets)
    ensures forall n :: n in AllNodes(streets) ==> exists s :: 0 <= s < |streets| && n in streets[s].nodes
  {
    if |streets| > 0 {
      var init := streets[..|streets| - 1];
      AllNodesMembers(init);
      assert forall s :: 0 <= s < |init| ==> init[s] == streets[s];
    }
  }

  function Ids(ns: seq<Node>): (r: seq<int>)
    ensures |r| == |ns| && forall k :: 0 <= k < |ns| ==> r[k] == ns[k].id
  {
    seq(|ns|, k requires 0 <= k < |ns| => ns[k].id)
  }

  /** The node has a `cat` key with a non-empty value (lines 423-424). */
  predicate Marked(n: Node)
  {
    n.cat.Some? && n.cat.value != ""
  }

  /** The node loop of lines 419-429: a marked node is kept unless an equal
      node or a node with the same id was kept before. */
  function PoiNodes(ns: seq<Node>): (r: seq<Node>)
    ensures forall k :: 0 <= k < |r| ==> r[k] in ns && Marked(r[k])
    ensures NoDup(Ids(r))
  {
    if |ns| == 0 then []
    else
      var prev := PoiNodes(ns[..|ns| - 1]);
      var n := ns[|ns| - 1];
      assert ns == ns[..|ns| - 1] + [n];
      if Marked(n) && n !in prev && n.id !in Ids(prev) then prev + [n] else prev
  }

  /** The same loop keeping only the id test. */
  function PoiNodesById(ns: seq<Node>): seq<Node>
  {
    if |ns| == 0 then []
    else
      var prev := PoiNodesById(ns[..|ns| - 1]);
      var n := ns[|ns| - 1];
      if Marked(n) && n.id !in Ids(prev) then prev + [n] else prev
  }

  /** The structural test `nodes[node] not in POIs` never decides anything:
      a node equal to a kept one has a kept id. */
  lemma {:induction false} StructuralTestRedundant(ns: seq<Node>)
    ensures PoiNodes(ns) == PoiNodesById(ns)
  {
    if |ns| > 0 {
      StructuralTestRedundant(ns[..|ns| - 1]);
      var prev := PoiNodes(ns[..|ns| - 1]);
      var n := ns[|ns| - 1];
      if n in prev {
        var k :| 0 <= k < |prev| && prev[k] == n;
        assert Ids(prev)[k] == n.id;
      }
    }
  }

  /** Every marked node's id is among the kept nodes' ids. */
  lemma {:induction false} PoiNodesComplete(ns: seq<Node>, k: nat)
    requires k < |ns| && Marked(ns[k])
    ensures ns[k].id in Ids(PoiNodes(ns))
  {
    var init := ns[..|ns| - 1];
    var prev := PoiNodes(init);
    assert forall e :: 0 <= e < |prev| ==> PoiNodes(ns)[e] == prev[e];
    if k < |init| {
      assert init[k] == ns[k];
      PoiNodesComplete(init, k);
      var e :| 0 <= e < |prev| && Ids(prev)[e] == ns[k].id;
      assert Ids(PoiNodes(ns))[e] == ns[k].id;
    } else if ns[k] in prev {
      var e :| 0 <= e < |prev| && prev[e] == ns[k];
      assert Ids(PoiNodes(ns))[e] == ns[k].id;
    } else if ns[k].id in Ids(prev) {
      var e :| 0 <= e < |prev| && Ids(prev)[e] == ns[k].id;
      assert Ids(PoiNodes(ns))[e] == ns[k].id;
    } else {
      assert Ids(PoiNodes(ns))[|prev|] == ns[k].id;
    }
  }

  /** Each kept node is the first marked node with its id. */
  lemma {:induction false} PoiNodesFirst(ns: seq<Node>, e: nat)
    requires e < |PoiNodes(ns)|
    ensures exists k :: 0 <= k < |ns| && ns[k] == PoiNodes(ns)[e] &&
              forall k' :: 0 <= k' < k ==> !(Marked(ns[k']) && ns[k'].id == ns[k].id)
  {
    var init := ns[..|ns| - 1];
    var prev := PoiNodes(init);
    var r := PoiNodes(ns);
    var n := ns[|ns| - 1];
    assert forall j :: 0 <= j < |init| ==> init[j] == ns[j];
    if e < |prev| {
      assert r[e] == prev[e];
      PoiNodesFirst(init, e);
      var k :| 0 <= k < |init| && init[k] == prev[e] &&
               forall k' :: 0 <= k' < k ==> !(Marked(init[k']) && init[k'].id == init[k].id);
      assert ns[k] == r[e];
    } else {
      assert r[e] == n && n.id !in Ids(prev);
      forall k' | 0 <= k' < |init| && Marked(ns[k'])
        ensures ns[k'].id != n.id
      {
        assert init[k'] == ns[k'];
        PoiNodesComplete(init, k');
      }
      assert ns[|ns| - 1] == r[e];
    }
  }

  /** Kept nodes as points of interest. */
  function NodePois(ns: seq<Node>): (r: seq<Poi>)
    ensures |r| == |ns| && forall k :: 0 <= k < |ns| ==> r[k] == NodePoi(ns[k])
  {
    seq(|ns|, k requires 0 <= k < |ns| => NodePoi(ns[k]))
  }

  /** The amenity records as points of interest; `None` contributes nothing. */
  function AmenityPois(amenity: Option<seq<AmenityRecord>>): (r: seq<Poi>)
    ensures amenity.None? ==> r == []
    ensures amenity.Some? ==> |r| == |amenity.value| && forall k :: 0 <= k < |r| ==> r[k] == AmenityPoi(amenity.value[k])
  {
    match amenity
    case None => []
    case Some(a) => seq(|a|, k requires 0 <= k < |a| => AmenityPoi(a[k]))
  }

  /** The list `enlist_POIs` returns: the kept street nodes, then the amenities. */
  function Pois(streets: seq<Street>, amenity: Option<seq<AmenityRecord>>): seq<Poi>
  {
    NodePois(PoiNodes(AllNodes(streets))) + AmenityPois(amenity)
  }

  /** Node points of interest come first, carry a non-empty `cat` and have
      pairwise distinct ids; the amenities follow in their own order. */
  lemma PoisLayout(streets: seq<Street>, amenity: Option<seq<AmenityRecord>>)
    ensures var r := Pois(streets, amenity); var m := |PoiNodes(AllNodes(streets))|;
            && |r| >= m
            && (forall k :: 0 <= k < m ==> r[k].NodePoi? && Marked(r[k].node) && r[k].node in AllNodes(streets))
            && (forall a, b :: 0 <= a < b < m ==> r[a].node.id != r[b].node.id)
            && (amenity.None? ==> |r| == m)
            && (amenity.Some? ==>
                  (|r| == m + |amenity.value| &&
                   forall k :: 0 <= k < |amenity.value| ==> r[m + k] == AmenityPoi(amenity.value[k])))
  {
    var ns := PoiNodes(AllNodes(streets));
    var np, ap := NodePois(ns), AmenityPois(amenity);
    var r := Pois(streets, amenity);
    assert r == np + ap;
    assert forall a, b :: 0 <= a < b < |ns| ==> Ids(ns)[a] != Ids(ns)[b];
    if amenity.Some? {
      forall k | 0 <= k < |amenity.value| ensures r[|ns| + k] == AmenityPoi(amenity.value[k]) {
        assert r[|ns| + k] == ap[k];
      }
    }
  }

  lemma PoiNodesStep(before: seq<Node>, n: Node)
    ensures PoiNodes(before + [n]) ==
            if Marked(n) && n !in PoiNodes(before) && n.id !in Ids(PoiNodes(before)) then PoiNodes(before) + [n]
            else PoiNodes(before)
  {
    assert (before + [n])[..|before|] == before;
  }

  lemma NodePoisFacts(ns: seq<Node>, n: Node)
    ensures NodePoi(n) in NodePois(ns) <==> n in ns
    ensures NodePois(ns + [n]) == NodePois(ns) + [NodePoi(n)]
    ensures Ids(ns + [n]) == Ids(ns) + [n.id]
  {
    if n in ns {
      var k :| 0 <= k < |ns| && ns[k] == n;
      assert NodePois(ns)[k] == NodePoi(n);
    }
  }

  /** One turn of the node loop in the terms the loop tests: the POI list
      and the id list of the nodes kept so far. */
  lemma EnlistStep(seen: seq<Node>, nodes: seq<Node>, t: nat, kept: seq<Node>)
    requires t < |nodes| && kept == PoiNodes(seen + nodes[..t])
    ensures var n := nodes[t];
            PoiNodes(seen + nodes[..t + 1]) ==
              if Marked(n) && NodePoi(n) !in NodePois(kept) && n.id !in Ids(kept) then kept + [n] else kept
    ensures NodePois(kept + [nodes[t]]) == NodePois(kept) + [NodePoi(nodes[t])]
    ensures Ids(kept + [nodes[t]]) == Ids(kept) + [nodes[t].id]
  {
    var n := nodes[t];
    var before := seen + nodes[..t];
    assert seen + nodes[..t + 1] == before + [n];
    PoiNodesStep(before, n);
    NodePoisFacts(kept, n);
  }

  /** One street's node loop of lines 419-429. */
  method EnlistStreet(nodes: seq<Node>, ghost seen: seq<Node>, pois0: seq<Poi>, ids0: seq<int>)
    returns (pois: seq<Poi>, nodesIds: seq<int>)
    requires ids0 == Ids(PoiNodes(seen)) && pois0 == NodePois(PoiNodes(seen))
    ensures nodesIds == Ids(PoiNodes(seen + nodes)) && pois == NodePois(PoiNodes(seen + nodes))
  {
    ghost var kept := PoiNodes(seen);
    pois, nodesIds := pois0, ids0;
    var node := 0;
    assert seen + nodes[..0] == seen;
    while node < |nodes|
      invariant 0 <= node <= |nodes|
      invariant kept == PoiNodes(seen + nodes[..node])
      invariant nodesIds == Ids(kept) && pois == NodePois(kept)
    {
      EnlistStep(seen, nodes, node, kept);
      pois, nodesIds := EnlistNode(nodes[node], pois, nodesIds);
      kept := PoiNodes(seen + nodes[..node + 1]);
      node := node + 1;
    }
    assert nodes[..node] == nodes;
  }

  /** The body of that loop for one node: a node with a non-empty `cat`
      whose POI and id are both new is appended to both lists. */
  method EnlistNode(n: Node, pois0: seq<Poi>, ids0: seq<int>) returns (pois: seq<Poi>, nodesIds: seq<int>)
    ensures Marked(n) && NodePoi(n) !in pois0 && n.id !in ids0 ==>
              pois == pois0 + [NodePoi(n)] && nodesIds == ids0 + [n.id]
    ensures !(Marked(n) && NodePoi(n) !in pois0 && n.id !in ids0) ==> pois == pois0 && nodesIds == ids0
  {
    pois, nodesIds := pois0, ids0;
    if n.cat.Some? && n.cat.value != "" {
      if NodePoi(n) !in pois {
        if n.id !in nodesIds {
          nodesIds := nodesIds + [n.id];
          pois := pois + [NodePoi(n)];
        }
      }
    }
  }

  /** Lines 413-433. */
  method EnlistPois(streets: seq<Street>, amenity: Option<seq<AmenityRecord>>) returns (pois: seq<Poi>)
    ensures pois == Pois(streets, amenity)
  {
    pois := EnlistNodes(streets);
    if amenity.Some? && |amenity.value| != 0 {
      pois := AppendAmenities(pois, amenity.value);
    }
  }

  /** The street loop of lines 416-429. */
  method EnlistNodes(streets: seq<Street>) returns (pois: seq<Poi>)
    ensures pois == NodePois(PoiNodes(AllNodes(streets)))
  {
    pois := [];
    var nodesIds: seq<int> := [];
    var obj := 0;
    while obj < |streets|
      invariant 0 <= obj <= |streets|
      invariant nodesIds == Ids(PoiNodes(AllNodes(streets[..obj])))
      invariant pois == NodePois(PoiNodes(AllNodes(streets[..obj])))
    {
      AllNodesSnoc(streets, obj);
      pois, nodesIds := EnlistStreet(streets[obj].nodes, AllNodes(streets[..obj]), pois, nodesIds);
      obj := obj + 1;
    }
    assert streets[..obj] == streets;
  }

  lemma AllNodesSnoc(streets: seq<Street>, obj: nat)
    requires obj < |streets|
    ensures AllNodes(streets[..obj + 1]) == AllNodes(streets[..obj]) + streets[obj].nodes
  {
    assert streets[..obj + 1][..obj] == streets[..obj];
  }

  /** The amenity loop of lines 430-432. */
  method AppendAmenities(nodePart: seq<Poi>, amenity: seq<AmenityRecord>) returns (pois: seq<Poi>)
    ensures pois == nodePart + AmenityPois(Some(amenity))
  {
    pois := nodePart;
    var objs := 0;
    while objs < |amenity|
      invariant 0 <= objs <= |amenity|
      invariant pois == nodePart + AmenityPois(Some(amenity[..objs]))
    {
      assert AmenityPois(Some(amenity[..objs + 1])) == AmenityPois(Some(amenity[..objs])) + [AmenityPoi(amenity[objs])];
      pois := pois + [AmenityPoi(amenity[objs])];
      objs := objs + 1;
    }
    assert amenity[..objs] == amenity;
  }
}
